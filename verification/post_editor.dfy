/** The post editor form: slug regeneration on title change, the ordered checks run on
    submit, the record built for the store, and the switches of the side panel. */
module PostEditor {
  import opened Wrappers
  import opened Text
  import opened Posts
  import Slug

  /** The editor's categories; a new post starts in the first. */
  const DefaultCategories: seq<string> := ["Mente", "Espírito", "Físico", "Vocação"]

  /** The form state. `showUpdatedAt` is the field the "show updated date" switch displays. */
  datatype FormData = FormData(
    title: string,
    slug: string,
    subtitle: string,
    description: string,
    body: string,
    coverImage: string,
    category: string,
    status: Status,
    featured: bool,
    popular: bool,
    scheduledAt: string,
    showUpdatedAt: bool)

  /** The form of a new post. */
  const InitialForm: FormData :=
    FormData("", "", "", "", "", "", DefaultCategories[0], Draft, false, false, "", false)

  /** The record sent to the store (`PostInsert`). */
  datatype PostData = PostData(
    title: string,
    slug: string,
    subtitle: Option<string>,
    description: Option<string>,
    body: Option<string>,
    coverImage: Option<string>,
    category: string,
    status: Status,
    featured: bool,
    popular: bool,
    scheduledAt: Option<string>,
    publishedAt: Option<string>,
    authorId: Option<string>)

  /** Why a submit is refused, in the order the checks run. */
  datatype Rejection = TitleRequired | SlugRequired | CategoryRequired | ScheduleDateRequired

  /** What a submit does: nothing but an error message, or a create or an update. */
  datatype Outcome = Rejected(reason: Rejection) | Create(data: PostData) | Update(id: string, data: PostData)

  /** `handleTitleChange`: the title is replaced, and the slug follows it only for a new post. */
  function TitleChange(form: FormData, title: string, isNew: bool): (r: FormData)
    ensures r.title == title
    ensures isNew ==> r.slug == Slug.GenerateSlug(title) && Slug.IsSlug(r.slug)
    ensures !isNew ==> r.slug == form.slug
    ensures r.(title := form.title, slug := form.slug) == form
  {
    Slug.SlugWellFormed(title);
    form.(title := title, slug := if isNew then Slug.GenerateSlug(title) else form.slug)
  }

  /** The checks of `handleSubmit`, first failing one wins. */
  function Validate(form: FormData): Option<Rejection>
  {
    if Trim(form.title) == "" then Some(TitleRequired)
    else if Trim(form.slug) == "" then Some(SlugRequired)
    else if form.category == "" then Some(CategoryRequired)
    else if form.status == Scheduled && form.scheduledAt == "" then Some(ScheduleDateRequired)
    else None
  }

  /** `value || null` on a string: the empty string becomes `null`. */
  function OrNull(s: string): (r: Option<string>)
    ensures r == None <==> s == ""
    ensures r.Some? ==> r.value == s
  {
    if s == "" then None else Some(s)
  }

  /** `postData`. `toIso` stands for `new Date(x).toISOString()`, `now` for the current time
      in ISO form, `user` for the signed-in user's id. */
  function BuildPostData(form: FormData, toIso: string -> string, now: string, user: Option<string>): PostData
  {
    PostData(
      form.title, form.slug,
      OrNull(form.subtitle), OrNull(form.description), OrNull(form.body), OrNull(form.coverImage),
      form.category, form.status, form.featured, form.popular,
      if form.status == Scheduled && form.scheduledAt != "" then Some(toIso(form.scheduledAt)) else None,
      if form.status == Published then Some(now) else None,
      match user case Some(u) => OrNull(u) case None => None)
  }

  /** `handleSubmit`: a refused form saves nothing; otherwise a new post is created or the
      post `id` is updated with the built record. */
  function Submit(form: FormData, isNew: bool, id: string, toIso: string -> string, now: string, user: Option<string>): (r: Outcome)
    ensures r.Rejected? <==> Validate(form).Some?
    ensures r.Rejected? ==> r.reason == Validate(form).value
    ensures r.Create? <==> Validate(form) == None && isNew
    ensures r.Update? ==> r.id == id && !isNew
    ensures !r.Rejected? ==> r.data == BuildPostData(form, toIso, now, user)
  {
    match Validate(form)
    case Some(reason) => Rejected(reason)
    case None =>
      var data := BuildPostData(form, toIso, now, user);
      if isNew then Create(data) else Update(id, data)
  }

  /** The checks run in order: each refusal happens exactly when its own check fails and
      every earlier one passed. */
  lemma ValidationOrder(form: FormData)
    ensures Validate(form) == Some(TitleRequired) <==> (forall i :: 0 <= i < |form.title| ==> IsWhite(form.title[i]))
    ensures Validate(form) == Some(SlugRequired) <==>
              Trim(form.title) != "" && (forall i :: 0 <= i < |form.slug| ==> IsWhite(form.slug[i]))
    ensures Validate(form) == Some(CategoryRequired) <==>
              Trim(form.title) != "" && Trim(form.slug) != "" && form.category == ""
    ensures Validate(form) == Some(ScheduleDateRequired) <==>
              Trim(form.title) != "" && Trim(form.slug) != "" && form.category != ""
              && form.status == Scheduled && form.scheduledAt == ""
    ensures Validate(form) == None <==>
              Trim(form.title) != "" && Trim(form.slug) != "" && form.category != ""
              && (form.status == Scheduled ==> form.scheduledAt != "")
  {
    TrimEmptyIffBlank(form.title);
    TrimEmptyIffBlank(form.slug);
  }

  /** In the record built from an accepted form: a schedule date is sent exactly for a
      scheduled post, a publication date exactly for a published one, and each optional
      text is `null` exactly when its field is empty. */
  lemma AcceptedRecord(form: FormData, toIso: string -> string, now: string, user: Option<string>)
    requires Validate(form) == None
    ensures var d := BuildPostData(form, toIso, now, user);
            && (d.scheduledAt.Some? <==> form.status == Scheduled)
            && (d.scheduledAt.Some? ==> d.scheduledAt.value == toIso(form.scheduledAt))
            && (d.publishedAt.Some? <==> form.status == Published)
            && (d.publishedAt.Some? ==> d.publishedAt.value == now)
            && (d.subtitle == None <==> form.subtitle == "")
            && (d.description == None <==> form.description == "")
            && (d.body == None <==> form.body == "")
            && (d.coverImage == None <==> form.coverImage == "")
            && d.title == form.title && d.slug == form.slug && Trim(d.title) != ""
  {
  }

  /** A new post's empty form is refused for its missing title. */
  lemma InitialFormRefused()
    ensures Validate(InitialForm) == Some(TitleRequired)
  {
    assert Trim(InitialForm.title) == "";
  }

  /** Loading a stored post into the form (the effect that fills the editor): missing texts
      become empty and the schedule date is cut to "yyyy-MM-ddTHH:mm". */
  function LoadForm(p: Post): FormData
  {
    FormData(
      p.title, p.slug,
      p.subtitle.GetOr(""), p.description.GetOr(""), p.body.GetOr(""), p.coverImage.GetOr(""),
      p.category, p.status, p.featured, p.popular,
      match p.scheduledAt
      case Some(s) => if s == "" then "" else (if |s| <= 16 then s else s[..16])
      case None => "",
      false)
  }

  /** The store applying an update to a post. */
  function Apply(p: Post, d: PostData): Post
  {
    p.(title := d.title, slug := d.slug, subtitle := d.subtitle, description := d.description,
       body := d.body, coverImage := d.coverImage, category := d.category, status := d.status,
       featured := d.featured, popular := d.popular, scheduledAt := d.scheduledAt,
       publishedAt := d.publishedAt, authorId := d.authorId)
  }

  /** Saving a form and loading the post back into the editor gives back every text field,
      the category, the status and both flags. */
  lemma SaveThenLoad(p: Post, form: FormData, toIso: string -> string, now: string, user: Option<string>)
    ensures var f := LoadForm(Apply(p, BuildPostData(form, toIso, now, user)));
            && f.title == form.title && f.slug == form.slug
            && f.subtitle == form.subtitle && f.description == form.description
            && f.body == form.body && f.coverImage == form.coverImage
            && f.category == form.category && f.status == form.status
            && f.featured == form.featured && f.popular == form.popular
  {
  }

  /** The "show updated date" switch as written: it sets `popular` and leaves the field it
      displays alone. */
  function ToggleShowUpdatedAsWritten(form: FormData, checked: bool): FormData
  {
    form.(popular := checked)
  }

  /** Turning the switch on, as written, marks a post popular and still shows the switch off. */
  lemma ShowUpdatedSwitchMisfires()
    ensures var f := ToggleShowUpdatedAsWritten(InitialForm, true);
            f.popular && !InitialForm.popular && !f.showUpdatedAt
  {
  }

  /** The switch as intended: it sets the field it displays and nothing else. */
  function ToggleShowUpdated(form: FormData, checked: bool): (r: FormData)
    ensures r.showUpdatedAt == checked
    ensures r.popular == form.popular
    ensures r.(showUpdatedAt := form.showUpdatedAt) == form
  {
    form.(showUpdatedAt := checked)
  }
}
