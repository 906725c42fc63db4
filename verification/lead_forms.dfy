/** The two forms that collect leads for the community: the WhatsApp dialog and the capture
    widget placed inside articles. Each checks its fields the way its form schema does and
    turns the country code and the typed phone into one international number. */
module LeadForms {
  import opened Text
  import opened Seqs
  import opened Wrappers
  import opened Leads

  /** The country codes the dialog's selector offers. */
  const DialogCountryCodes: seq<string> := ["244", "55", "351", "258", "239", "245", "670"]

  /** The country codes the article widget's selector offers. */
  const WidgetCountryCodes: seq<string> := ["244", "55", "351", "258", "238", "245", "239", "670"]

  /** Both forms start on Angola's code. */
  const DefaultCountryCode: string := "244"

  /** The fields both forms have. */
  datatype LeadForm = LeadForm(name: string, countryCode: string, phoneNumber: string)

  /** `z.string().trim().min(2).max(100)`: lengths count UTF-16 code units of the trimmed name. */
  predicate NameOk(name: string)
  {
    2 <= Utf16Length(Trim(name)) <= 100
  }

  /** `z.string().min(1)`. */
  predicate CountryCodeOk(code: string)
  {
    Utf16Length(code) >= 1
  }

  predicate AllChars(s: string, p: char -> bool)
  {
    forall i :: 0 <= i < |s| ==> p(s[i])
  }

  function Digits(s: string): string
  {
    Filter(IsDigit, s)
  }

  // ---------------------------------------------------------------- the WhatsApp dialog

  /** The class `[\s()-]` the dialog strips from a phone. */
  predicate IsDialogSeparator(c: char)
  {
    IsWhite(c) || c == '(' || c == ')' || c == '-'
  }

  /** `[\d\s()-]`. */
  predicate IsDialogPhoneChar(c: char)
  {
    IsDigit(c) || IsDialogSeparator(c)
  }

  /** `z.string().trim().min(6).max(15).regex(/^[\d\s()-]+$/)`. */
  predicate DialogPhoneOk(phone: string)
  {
    var t := Trim(phone);
    6 <= Utf16Length(t) <= 15 && AllChars(t, IsDialogPhoneChar)
  }

  /** The dialog's schema: the parsed form, with name and phone trimmed, or nothing. */
  function ParseDialog(raw: LeadForm): (r: Option<LeadForm>)
    ensures r.Some? <==> NameOk(raw.name) && CountryCodeOk(raw.countryCode) && DialogPhoneOk(raw.phoneNumber)
    ensures r.Some? ==> r.value == LeadForm(Trim(raw.name), raw.countryCode, Trim(raw.phoneNumber))
  {
    if NameOk(raw.name) && CountryCodeOk(raw.countryCode) && DialogPhoneOk(raw.phoneNumber)
    then Some(LeadForm(Trim(raw.name), raw.countryCode, Trim(raw.phoneNumber)))
    else None
  }

  /** `fullWhatsapp`. */
  function DialogWhatsapp(data: LeadForm): string
  {
    "+" + data.countryCode + Remove(data.phoneNumber, IsDialogSeparator)
  }

  /** The dialog's form after `reset()`: only the country code has a default. */
  const DialogDefault: LeadForm := LeadForm("", DefaultCountryCode, "")

  /** The dialog: whether the thank-you view is shown, and the form. */
  datatype Dialog = Dialog(submitted: bool, form: LeadForm)

  /** What a submit does: the lead sent to the store, if the form was valid. */
  datatype DialogStep = DialogStep(after: Dialog, request: Option<LeadInput>)

  /** `handleSubmit(onSubmit)`: an invalid form sends nothing; a valid one sends the lead, and
      `createSucceeds` says how the store answered. */
  function DialogSubmit(d: Dialog, createSucceeds: bool): (r: DialogStep)
    ensures r.request.Some? <==> ParseDialog(d.form).Some?
    ensures r.request.Some? ==>
              r.request.value == LeadInput(Trim(d.form.name), DialogWhatsapp(ParseDialog(d.form).value), Absent)
    ensures r.after.form == d.form
    ensures r.after.submitted <==> d.submitted || (r.request.Some? && createSucceeds)
  {
    match ParseDialog(d.form)
    case None => DialogStep(d, None)
    case Some(data) =>
      var input := LeadInput(data.name, DialogWhatsapp(data), Absent);
      DialogStep(if createSucceeds then d.(submitted := true) else d, Some(input))
  }

  /** `handleClose`, once its timer has run. */
  function DialogClose(d: Dialog): (r: Dialog)
    ensures !r.submitted && r.form.countryCode == DefaultCountryCode
  {
    Dialog(false, DialogDefault)
  }

  /** A fresh dialog shows the thank-you view after a submit exactly when the form was
      valid and the store accepted the lead; a failure leaves it on the form. */
  lemma SubmittedOnlyOnSuccess(form: LeadForm, createSucceeds: bool)
    ensures var after := DialogSubmit(Dialog(false, form), createSucceeds).after;
            after.submitted <==> ParseDialog(form).Some? && createSucceeds
  {
  }

  /** The default country code is accepted, and an empty one is refused. */
  lemma DialogCountryCode(name: string, phone: string)
    ensures CountryCodeOk(DefaultCountryCode)
    ensures DialogDefault.countryCode == "244"
    ensures ParseDialog(LeadForm(name, "", phone)) == None
  {
  }

  /** What is filtered out on both sides does not change the filter. */
  lemma FilterAround<T(!new)>(p: T -> bool, a: seq<T>, m: seq<T>, b: seq<T>)
    requires forall x :: x in a ==> !p(x)
    requires forall x :: x in b ==> !p(x)
    ensures Filter(p, a + (m + b)) == Filter(p, m)
  {
    FilterAppend(p, a, m + b);
    FilterAppend(p, m, b);
    FilterNone(p, a);
    FilterNone(p, b);
  }

  lemma WhiteHasNoDigit(w: string)
    requires forall k :: 0 <= k < |w| ==> IsWhite(w[k])
    ensures forall c :: c in w ==> !IsDigit(c)
  {
  }

  /** Digits are not white space, so trimming keeps them all. */
  lemma DigitsOfTrim(s: string)
    ensures Digits(Trim(s)) == Digits(s)
  {
    hide Trim, IsWhite, LeadingWhite, TrailingWhite, Filter;
    var t := s[LeadingWhite(s)..];
    var n := |t| - TrailingWhite(t);
    TrimParts(s, t, n);
    WhiteHasNoDigit(s[..LeadingWhite(s)]);
    WhiteHasNoDigit(t[n..]);
    FilterAround(IsDigit, s[..LeadingWhite(s)], t[..n], t[n..]);
  }

  /** What the digit filter keeps is digits. */
  lemma DigitsAreDigits(s: string)
    ensures AllChars(Digits(s), IsDigit)
  {
    var d := Digits(s);
    forall i | 0 <= i < |d| ensures IsDigit(d[i]) {
      assert d[i] in d;
    }
  }

  /** On a phone made of digits and separators, stripping the separators keeps the digits. */
  lemma StripKeepsDigits(t: string, sep: char -> bool)
    requires forall c :: IsDigit(c) ==> !sep(c)
    requires AllChars(t, c => IsDigit(c) || sep(c))
    ensures Remove(t, sep) == Digits(t)
  {
    forall c | c in t ensures IsDigit(c) == !sep(c) {
      var k :| 0 <= k < |t| && t[k] == c;
    }
    RemoveIsFilter(t, sep, IsDigit);
  }

  lemma DialogPhoneChars(t: string)
    requires AllChars(t, IsDialogPhoneChar)
    ensures AllChars(t, c => IsDigit(c) || IsDialogSeparator(c))
    ensures forall c :: IsDigit(c) ==> !IsDialogSeparator(c)
  {
  }

  /** The number the dialog stores is "+", the country code, and the digits of the phone as
      typed, in order: at most fifteen of them, and nothing else. */
  lemma DialogNumber(raw: LeadForm)
    requires ParseDialog(raw).Some?
    ensures var d := Digits(raw.phoneNumber);
            && DialogWhatsapp(ParseDialog(raw).value) == "+" + raw.countryCode + d
            && |d| <= 15
            && AllChars(d, IsDigit)
  {
    var t := Trim(raw.phoneNumber);
    assert DialogPhoneOk(raw.phoneNumber);
    assert |t| <= 15 && AllChars(t, IsDialogPhoneChar);
    assert DialogWhatsapp(ParseDialog(raw).value) == "+" + raw.countryCode + Remove(t, IsDialogSeparator);
    hide *;
    DialogPhoneChars(t);
    StripKeepsDigits(t, IsDialogSeparator);
    DigitsOfTrim(raw.phoneNumber);
    DigitsAreDigits(raw.phoneNumber);
    assert |Remove(t, IsDialogSeparator)| <= |t|;
  }

  /** "+" followed by digits. */
  lemma PlusThenDigits(w: string, code: string, d: string)
    requires w == "+" + code + d && AllChars(code, IsDigit) && AllChars(d, IsDigit)
    ensures w[0] == '+' && AllChars(w[1..], IsDigit)
  {
    assert w[1..] == code + d;
  }

  /** With a code from the selector, everything after the "+" of a stored number is a digit. */
  lemma DialogNumberAllDigits(raw: LeadForm)
    requires ParseDialog(raw).Some? && raw.countryCode in DialogCountryCodes
    ensures var w := DialogWhatsapp(ParseDialog(raw).value); w[0] == '+' && AllChars(w[1..], IsDigit)
  {
    hide *;
    CodesAreDigits(raw.countryCode);
    DialogNumber(raw);
    PlusThenDigits(DialogWhatsapp(ParseDialog(raw).value), raw.countryCode, Digits(raw.phoneNumber));
  }

  lemma CodesAreDigits(code: string)
    requires code in DialogCountryCodes || code in WidgetCountryCodes
    ensures AllChars(code, IsDigit)
  {
  }

  // ---------------------------------------------------------------- the article widget

  /** The class `[\s-]` the widget strips from a phone. */
  predicate IsWidgetSeparator(c: char)
  {
    IsWhite(c) || c == '-'
  }

  /** `[\d\s-]`: parentheses are not allowed here. */
  predicate IsWidgetPhoneChar(c: char)
  {
    IsDigit(c) || IsWidgetSeparator(c)
  }

  /** The widget's phone rule as written, `z.string().min(6).max(20).regex(/^[\d\s-]+$/)`: the
      length is that of the phone as typed, separators included. */
  predicate WidgetPhoneOkAsWritten(phone: string)
  {
    6 <= Utf16Length(phone) <= 20 && AllChars(phone, IsWidgetPhoneChar)
  }

  /** The widget's schema, `formSchema`, as written: the name trimmed, the phone as typed. */
  function ParseWidget(raw: LeadForm): (r: Option<LeadForm>)
    ensures r.Some? <==> && NameOk(raw.name) && CountryCodeOk(raw.countryCode)
                         && 6 <= Utf16Length(raw.phoneNumber) <= 20
                         && AllChars(raw.phoneNumber, IsWidgetPhoneChar)
    ensures r.Some? ==> r.value == raw.(name := Trim(raw.name))
  {
    if NameOk(raw.name) && CountryCodeOk(raw.countryCode) && WidgetPhoneOkAsWritten(raw.phoneNumber)
    then Some(raw.(name := Trim(raw.name)))
    else None
  }

  /** The widget's phone rule as its message states it: the same characters, a typed length
      of 6 to 20, and at least six digits among them. */
  predicate WidgetPhoneOkIntended(phone: string)
  {
    WidgetPhoneOkAsWritten(phone) && |Digits(phone)| >= 6
  }

  /** The widget's schema with the phone rule its message states. */
  function ParseWidgetIntended(raw: LeadForm): (r: Option<LeadForm>)
    ensures r.Some? <==> ParseWidget(raw).Some? && |Digits(raw.phoneNumber)| >= 6
    ensures r.Some? ==> r == ParseWidget(raw)
  {
    if NameOk(raw.name) && CountryCodeOk(raw.countryCode) && WidgetPhoneOkIntended(raw.phoneNumber)
    then Some(raw.(name := Trim(raw.name)))
    else None
  }

  /** `"+" + countryCode + cleanPhone`. */
  function WidgetWhatsapp(data: LeadForm): string
  {
    "+" + data.countryCode + Remove(data.phoneNumber, IsWidgetSeparator)
  }

  /** The widget's form when it appears and after a successful submit. */
  const WidgetDefault: LeadForm := LeadForm("", DefaultCountryCode, "")

  /** The widget: whether its dialog is open, and the form. */
  datatype Widget = Widget(isOpen: bool, form: LeadForm)

  datatype WidgetStep = WidgetStep(after: Widget, request: Option<LeadInput>)

  /** `articleUrl?: string` as it reaches `useCreateLead`. */
  function UrlField(articleUrl: Option<string>): Field<string>
  {
    match articleUrl
    case Some(u) => Given(u)
    case None => Absent
  }

  /** The widget's `onSubmit` behind its schema, inside an article at `articleUrl`. */
  function WidgetSubmit(w: Widget, articleUrl: Option<string>, createSucceeds: bool): (r: WidgetStep)
    ensures r.request.Some? <==> ParseWidget(w.form).Some?
    ensures r.request.None? ==> r.after == w
  {
    match ParseWidget(w.form)
    case None => WidgetStep(w, None)
    case Some(data) =>
      var input := LeadInput(Trim(data.name), WidgetWhatsapp(data), UrlField(articleUrl));
      WidgetStep(if createSucceeds then Widget(false, WidgetDefault) else w, Some(input))
  }

  /** A valid submit sends the trimmed name and forwards the article's address as it is; on
      success the dialog closes and the form is back to its defaults, on failure nothing
      changes. */
  lemma WidgetSubmitEffect(w: Widget, articleUrl: Option<string>, createSucceeds: bool)
    requires ParseWidget(w.form).Some?
    ensures var r := WidgetSubmit(w, articleUrl, createSucceeds);
            && r.request.value.name == Trim(w.form.name)
            && CreateRow(r.request.value).articleUrl == articleUrl
            && (createSucceeds ==> !r.after.isOpen && r.after.form == LeadForm("", "244", ""))
            && (!createSucceeds ==> r.after == w)
  {
    TrimIdempotent(w.form.name);
  }

  lemma WidgetPhoneChars(t: string)
    requires AllChars(t, IsWidgetPhoneChar)
    ensures AllChars(t, c => IsDigit(c) || IsWidgetSeparator(c))
    ensures forall c :: IsDigit(c) ==> !IsWidgetSeparator(c)
  {
  }

  lemma WidgetDigitsBound(raw: LeadForm)
    requires ParseWidget(raw).Some?
    ensures var d := Digits(raw.phoneNumber);
            && WidgetWhatsapp(ParseWidget(raw).value) == "+" + raw.countryCode + d
            && |d| <= 20
            && AllChars(d, IsDigit)
  {
    var t := raw.phoneNumber;
    assert WidgetPhoneOkAsWritten(t);
    assert |t| <= 20 && AllChars(t, IsWidgetPhoneChar);
    assert WidgetWhatsapp(ParseWidget(raw).value) == "+" + raw.countryCode + Remove(t, IsWidgetSeparator);
    hide *;
    WidgetPhoneChars(t);
    StripKeepsDigits(t, IsWidgetSeparator);
    DigitsAreDigits(t);
    assert |Remove(t, IsWidgetSeparator)| <= |t|;
  }

  /** The number the widget stores is "+", the country code, and the digits of the phone as
      typed: at most twenty of them, and possibly none, since the rule counts separators. */
  lemma WidgetNumber(raw: LeadForm)
    requires ParseWidget(raw).Some?
    ensures var d := Digits(raw.phoneNumber);
            && WidgetWhatsapp(ParseWidget(raw).value) == "+" + raw.countryCode + d
            && 0 <= |d| <= 20
            && AllChars(d, IsDigit)
  {
    WidgetDigitsBound(raw);
  }

  /** Under the rule the message states, the stored number carries between six and twenty
      digits after the country code. */
  lemma WidgetNumberIntended(raw: LeadForm)
    requires ParseWidgetIntended(raw).Some?
    ensures var d := Digits(raw.phoneNumber);
            && WidgetWhatsapp(ParseWidgetIntended(raw).value) == "+" + raw.countryCode + d
            && 6 <= |d| <= 20
            && AllChars(d, IsDigit)
  {
    WidgetDigitsBound(raw);
  }

  lemma BlankPhoneRule(s: string)
    requires s == "      "
    ensures WidgetPhoneOkAsWritten(s) && Digits(s) == [] && Remove(s, IsWidgetSeparator) == []
  {
    assert forall c :: c in s ==> c == ' ';
    assert AllChars(s, IsWidgetPhoneChar);
    Utf16LengthBmp(s);
    hide *;
    WidgetPhoneChars(s);
    StripKeepsDigits(s, IsWidgetSeparator);
    NoDigitInSpaces(s);
    FilterNone(IsDigit, s);
  }

  lemma NoDigitInSpaces(s: string)
    requires forall c :: c in s ==> c == ' '
    ensures forall c :: c in s ==> !IsDigit(c)
  {
  }

  /** As written, a phone of six spaces passes the rule whose message asks for at least six
      digits, and the widget submits the bare country code as the number ("+244" on the
      default code); the intended rule refuses the form. */
  lemma BlankPhoneAccepted(name: string, code: string)
    requires NameOk(name) && CountryCodeOk(code)
    ensures var form := LeadForm(name, code, "      ");
            && ParseWidget(form).Some?
            && WidgetWhatsapp(ParseWidget(form).value) == "+" + code
            && ParseWidgetIntended(form) == None
            && WidgetSubmit(Widget(true, form), None, true).request == Some(LeadInput(Trim(name), "+" + code, Absent))
  {
    var form := LeadForm(name, code, "      ");
    BlankPhoneRule(form.phoneNumber);
    TrimIdempotent(name);
    assert ParseWidget(form).Some?;
    assert WidgetWhatsapp(ParseWidget(form).value) == "+" + code + Remove(form.phoneNumber, IsWidgetSeparator);
  }
}
