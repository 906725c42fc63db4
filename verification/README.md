# kleverson-blog: the pure core, modelled in Dafny

The blog is a React site on a hosted store. Underneath the UI are a handful of small,
sequential routines, and this project models them and proves what they promise:

- **Backup download** (`AdminBackup.tsx`):
  - the store-only ZIP writer `createZipContent`. Its layouts are the local file header,
    central directory header and end of central directory record of sections 4.3.7,
    4.3.12 and 4.3.16 of PKWARE's APPNOTE.TXT;
  - the CSV serialiser `generateCSV`, which quotes as in section 2 of RFC 4180 but ends
    lines in LF;
  - the four-entry backup history.
- **Post editor** (`AdminPostEditor.tsx`): the slug generator, the title-change rule, the
  ordered submit checks, the record built for the store, and the "show updated date"
  switch.
- **Article page**: the reading-time estimate (`Artigo.tsx`) and the shortcode split that
  places lead-capture widgets in an article body (`ArticleContent.tsx`).
- **Leads**:
  - the page window, total and page count of `useAdminLeads`;
  - the `article_url` default of `useCreateLead`;
  - the admin table's bounded page navigation;
  - the phone and name rules and the number normalisation of the two lead forms (the
    WhatsApp dialog and the inline capture widget).
- **Post lists**:
  - the admin dashboard's category list, filters, filter reset and status counts;
  - the public search dialog;
  - the category page of the letters ("Cartas").
- **Sitemap**: the XML built by the sitemap edge function, following the sitemaps.org 0.9
  protocol.

Modules follow the source's components:

- `Wrappers`, `Seqs` and `Text` hold the shared vocabulary:
  - `Option`;
  - filter and subsequence;
  - ECMAScript white space, `trim`, `toLowerCase`, `includes`, `replace`;
- `Bytes` and `Utf8` hold the byte encodings the ZIP writer uses;
- `Posts` holds the post record;
- one module per component holds the operation and its properties.

Every operation has a partner it is proved against:

| operation | partner |
|---|---|
| ZIP writer | a reader |
| CSV writer | a parser |
| UTF-8 encoder | a decoder |
| slug generator | a word-splitting reference definition |
| reading time | a count of non-white runs |
| shortcode split | a re-join |
| sitemap builder | a reader |
| each filter | a membership characterisation |

The external pieces are parameters:

- the store's rows and answers, including whether a create succeeded;
- the current time (`now`, `isoNow`);
- the local calendar day of a timestamp (`dayOf`);
- ISO date formatting (`toIso`);
- the signed-in user.

## Model

| member | source | states |
|---|---|---|
| Bytes.LE16 | src/components/AdminBackup.tsx:78-87 | `setUint16(…, true)` writes two bytes, low byte first, that read back as the value modulo 2^16 |
| Bytes.LE32 | src/components/AdminBackup.tsx:77-85 | `setUint32(…, true)` writes four bytes, low byte first, that read back as the value modulo 2^32 |
| Utf8.EncodeChar | src/components/AdminBackup.tsx:68 | a character encodes to one to four bytes, and to one exactly when it is below U+0080 |
| Utf8.Encode | src/components/AdminBackup.tsx:68 | `TextEncoder.encode` gives between one and four bytes per character |
| Utf8.EncodeAscii | src/components/AdminBackup.tsx:68 | ASCII text encodes to one byte per character, each byte the character's code |
| Utf8.EncodeAppend | src/components/AdminBackup.tsx:68 | encoding distributes over concatenation |
| Utf8.DecodeEncodeChar | src/components/AdminBackup.tsx:68 | the decoder reads back each encoded character, with its length, whatever bytes follow |
| Utf8.DecodeEncode | src/components/AdminBackup.tsx:68 | decoding the UTF-8 bytes of any text gives the text back |
| Zip.ContentBytesDecode | src/components/AdminBackup.tsx:69-72 | a ".csv" file's bytes are EF BB BF followed by its UTF-8 text, any other file's bytes are its UTF-8 text, and decoding gives the content back |
| Zip.LocalHeader | src/components/AdminBackup.tsx:75 | a local header is 30 bytes plus the name |
| Zip.CentralRecord | src/components/AdminBackup.tsx:94 | a central record is 46 bytes plus the name |
| Zip.EndRecord | src/components/AdminBackup.tsx:124 | the end record is 22 bytes |
| Zip.LocalHeaderLayout | src/components/AdminBackup.tsx:75-88 | a local header has the layout of section 4.3.7: signature 0x04034b50, version 20, zero flags, method, time, date and CRC-32, both sizes equal to the data length, the name length, no extra field, and the name from offset 30 |
| Zip.CentralRecordLayout | src/components/AdminBackup.tsx:94-113 | a central record has the layout of section 4.3.12: signature 0x02014b50, both versions 20, zero flags, method, time, date and CRC-32, both sizes, the name length, zero extra, comment, disk and attributes, the local header's offset, and the name from offset 46 |
| Zip.EndRecordLayout | src/components/AdminBackup.tsx:124-133 | the end record has the layout of section 4.3.16: signature 0x06054b50, zero disks, both entry counts, the directory's size and offset, and no comment |
| Zip.LocalBlock | src/components/AdminBackup.tsx:90-91 | a file's local part is 30 + name length + data length bytes |
| Zip.LocalBlocksSize | src/components/AdminBackup.tsx:90-91 | the local parts take Σ (30 + name length + data length) bytes |
| Zip.CentralRecordsSize | src/components/AdminBackup.tsx:120-122 | the central directory takes Σ (46 + name length) bytes |
| Zip.LocalSizeMonotone | src/components/AdminBackup.tsx:116 | the running offset never decreases from one file to the next |
| Zip.LocalBlockIn | src/components/AdminBackup.tsx:136-137 | entry k's header and data sit in the archive at Σ_{j<k} (30 + name length + data length) |
| Zip.CentralRecordIn | src/components/AdminBackup.tsx:136-138 | entry k's central record sits after all local parts and the records before it |
| Zip.EndRecordIn | src/components/AdminBackup.tsx:136-139 | the end record is the archive's last 22 bytes, right after the central directory |
| Zip.LocalHeaderFields | src/components/AdminBackup.tsx:74-91 | at entry k's offset the archive holds a section 4.3.7 header for its name and size, followed by its data |
| Zip.CentralRecordFields | src/components/AdminBackup.tsx:93-116 | entry k's central record carries its name and size, and as offset the position of entry k's local signature |
| Zip.EndRecordFields | src/components/AdminBackup.tsx:119-133 | the archive closes with both entry counts equal to the number of files, the directory size Σ (46 + name length), and the directory offset Σ (30 + name length + data length) |
| Zip.EmptyArchive | src/components/AdminBackup.tsx:119-133 | no files give exactly the 22-byte end record, with zero counts, size and offset |
| Zip.ArchiveSize | src/components/AdminBackup.tsx:136-140 | the archive is Σ (76 + 2 · name length + data length) + 22 bytes long |
| Zip.CentralOffsetPointsAtLocal | src/components/AdminBackup.tsx:112-116 | when every size fits its field, the stored offset of entry k points at entry k's own local header |
| ZipReader.ReadRecordAt | src/components/AdminBackup.tsx:93-116 | the central record of entry k, followed to its local header, reads back as entry k |
| ZipReader.ReadDirectoryFrom | src/components/AdminBackup.tsx:115-122 | reading the directory from record k on yields the entries from k on, in order |
| ZipReader.ReadLayout | src/components/AdminBackup.tsx:60-143 | round trip: a reader that starts at the end record gives back every entry the writer laid out, in order |
| ZipReader.ReadFileOf | src/components/AdminBackup.tsx:68-72 | an encoded file reads back as the same name and content, with the byte-order mark of ".csv" files dropped |
| ZipReader.ReadFilesOf | src/components/AdminBackup.tsx:67-72 | every encoded file reads back, in order |
| ZipReader.ReadBackupArchive | src/components/AdminBackup.tsx:60-143 | round trip of the download: when sizes fit, reading the archive gives back every file, by name and content, in order |
| ZipWriter.LocalStep | src/components/AdminBackup.tsx:88-91 | one more file appends its header and data, and advances the offset by 30 + name length + data length |
| ZipWriter.CentralStep | src/components/AdminBackup.tsx:112-116 | one more file appends its central record, which carries the offset reached before it |
| ZipWriter.WriteEntries | src/components/AdminBackup.tsx:63-117 | after the loop, the pushed parts hold every local part in order, the directory holds every central record, and the offset is the local parts' total size |
| ZipWriter.DirectorySize | src/components/AdminBackup.tsx:121-122 | summing the record lengths gives the directory's byte length |
| ZipWriter.BlobIsLayout | src/components/AdminBackup.tsx:136-142 | the blob's parts, end to end, are the archive layout |
| ZipWriter.CreateZipContent | src/components/AdminBackup.tsx:60-143 | the method writes the archive, of length Σ (76 + 2 · name length + data length) + 22, and when sizes fit the reader gets back every file |
| Csv.Lookup | src/components/AdminBackup.tsx:47 | a present key gives the value of its first pair, a value is found only under its key, and a missing key gives `undefined` |
| Csv.NatText | src/components/AdminBackup.tsx:52 | a number's text is non-empty, all digits, with no leading zero, and an independent decimal reader reads it back as the number |
| Csv.GenerateCsv | src/components/AdminBackup.tsx:39-40 | no rows give the empty text |
| Csv.IntTextPlain | src/components/AdminBackup.tsx:49-52 | numbers are never quoted, since their text has no comma, quote or line feed |
| Csv.CellQuoting | src/components/AdminBackup.tsx:49-52 | a string cell is quoted, with every '"' doubled, exactly when it holds a comma, quote or line feed, and a quoted cell parses back to the string |
| Csv.CellIsField | src/components/AdminBackup.tsx:46-53 | each cell is the written field of the value's text, with `null` and `undefined` as "" |
| Csv.ParseEscaped | src/components/AdminBackup.tsx:50 | an escaped string followed by the closing quote reads back as the string |
| Csv.ParsePlain | src/components/AdminBackup.tsx:52 | unquoted text free of commas, quotes and line feeds is read up to the field's end |
| Csv.ParseWrittenField | src/components/AdminBackup.tsx:46-53 | every written field reads back as its text, and the parser stops where the field ends |
| Csv.ParseLine | src/components/AdminBackup.tsx:53 | a line of fields joined by ',' reads back as those fields |
| Csv.ParseLines | src/components/AdminBackup.tsx:57 | lines joined by line feeds read back as the records, in order |
| Csv.RowLineIsLine | src/components/AdminBackup.tsx:45-53 | a row's line is the written line of its cell texts in header order |
| Csv.GenerateIsLines | src/components/AdminBackup.tsx:43-57 | with plain header keys, the CSV is the written lines of the table joined by line feeds |
| Csv.GenerateParses | src/components/AdminBackup.tsx:39-57 | round trip: parsing the generated CSV gives the header keys and then every row's cell texts |
| Backup.PushHistory | src/components/AdminBackup.tsx:223 | the new history starts with the new backup, continues with a prefix of the old one, and has at most four entries |
| Backup.Take | src/components/AdminBackup.tsx:223 | `slice(0, n)` keeps a prefix of length n, or everything when there is less |
| Backup.PushHistoryTruncated | src/components/AdminBackup.tsx:223 | only the first entries of the old history affect the new one |
| Backup.PushAllKeepsNewest | src/components/AdminBackup.tsx:223 | after any run of backups, the history holds the last four, newest first, then what is left of the history it started with |
| Backup.BackupFiles | src/components/AdminBackup.tsx:195-199 | a backup is three files in order: "artigos.csv" with the posts' CSV, "leads_comunidade.csv" with the leads' CSV, and "metadados.csv" with the metadata as a one-row CSV |
| Backup.CsvStoredWithBom | src/components/AdminBackup.tsx:70-71 | a ".csv" file is stored behind the byte-order mark |
| Backup.BackupFilesStored | src/components/AdminBackup.tsx:195-199 | every file of a backup is a ".csv" file, so each is stored behind a byte-order mark |
| Text.LeadingWhite | src/pages/AdminPostEditor.tsx:99 | the count of leading white space is maximal |
| Text.TrailingWhite | src/pages/AdminPostEditor.tsx:99 | the count of trailing white space is maximal |
| Text.Trim | src/pages/AdminPostEditor.tsx:99 | `trim` keeps no white space at either end, and keeps only characters of the input |
| Text.TrimParts | src/pages/AdminPostEditor.tsx:99 | the input is white space, then the trimmed text, then white space |
| Text.TrimDropsOnlyWhite | src/pages/AdminPostEditor.tsx:99 | the trimmed text is a slice of the input, and only white space is dropped |
| Text.TrimEmptyIffBlank | src/pages/AdminPostEditor.tsx:99-107 | `!s.trim()` holds exactly when the text is all white space |
| Text.TrimIdempotent | src/components/InlineLeadCapture.tsx:75 | trimming an already trimmed name changes nothing |
| Text.LowerPreservesContains | src/pages/Admin.tsx:86-87 | a text contained in another stays contained once both are lower-cased |
| Text.ContainsTransitive | src/components/SearchModal.tsx:21-23 | containment is transitive |
| Text.Remove | src/components/WhatsAppLeadModal.tsx:79 | `replace(/[…]/g, '')` keeps exactly the characters outside the class |
| Text.RemoveIsFilter | src/components/WhatsAppLeadModal.tsx:79 | removing a class is filtering by its complement |
| Text.Utf16LengthBmp | src/components/WhatsAppLeadModal.tsx:36 | zod's lengths count UTF-16 code units, one per character below U+10000 |
| Seqs.Filter | src/pages/Admin.tsx:84 | `Array.prototype.filter` keeps exactly the elements that pass the test, and never more |
| Seqs.FilterIsSubseq | src/pages/Admin.tsx:84-119 | a filter result is an order-preserving subsequence of its input |
| Seqs.FilterMonotone | src/components/SearchModal.tsx:19-24 | a stronger test keeps a subsequence of what a weaker one keeps |
| Slug.FoldChar | src/pages/AdminPostEditor.tsx:81-82 | decomposing a lower-case accented Latin-1 letter leaves an ASCII base letter; [a-z0-9] and combining marks are left as they are |
| Slug.Prepare | src/pages/AdminPostEditor.tsx:80-83 | the prepared title is no longer than the title and holds no combining mark |
| Slug.PrepareAppend | src/pages/AdminPostEditor.tsx:80-83 | preparing works character by character, so it distributes over concatenation |
| Slug.PrepareDropsMark | src/pages/AdminPostEditor.tsx:83 | a combining mark U+0300..U+036F is deleted wherever it stands |
| Slug.ComposedAndDecomposedAgree | src/pages/AdminPostEditor.tsx:79-86 | a precomposed "é" and "e" followed by U+0301 give the same slug in any context |
| Slug.DecomposedTitle | src/pages/AdminPostEditor.tsx:79-86 | the decomposed title "e\u0301s" gives the slug "es" |
| Slug.RunMaximal | src/pages/AdminPostEditor.tsx:84 | a run of characters of one kind is maximal |
| Slug.NoWords | src/pages/AdminPostEditor.tsx:84 | a text has no [a-z0-9] words exactly when it has no [a-z0-9] character |
| Slug.CollapseIsWords | src/pages/AdminPostEditor.tsx:84 | `replace(/[^a-z0-9]+/g, '-')` gives the words joined by '-', plus one '-' for leading and one for trailing separators |
| Slug.StripAround | src/pages/AdminPostEditor.tsx:85 | `replace(/(^-|-$)/g, '')` drops exactly the '-' at either end |
| Slug.SlugIsJoinedWords | src/pages/AdminPostEditor.tsx:79-86 | reference definition: the slug is the [a-z0-9] words of the prepared title joined by '-' |
| Slug.JoinedWordsIsSlug | src/pages/AdminPostEditor.tsx:84-85 | words joined by '-' form a well-formed slug |
| Slug.SlugWellFormed | src/pages/AdminPostEditor.tsx:79-86 | every slug holds only [a-z0-9-], never starts or ends with '-', and never holds "--" |
| Slug.WordsOfJoined | src/pages/AdminPostEditor.tsx:84 | splitting words joined by '-' gives the words back |
| Slug.PrepareSlugChars | src/pages/AdminPostEditor.tsx:81-83 | preparing text that is already [a-z0-9-] leaves it unchanged |
| Slug.SlugWordsJoin | src/pages/AdminPostEditor.tsx:84-85 | a well-formed slug is its own words joined by '-' |
| Slug.SlugIdempotent | src/pages/AdminPostEditor.tsx:79-86 | generating the slug of a slug gives the same slug |
| Slug.SlugFixedPoints | src/pages/AdminPostEditor.tsx:79-86 | a text is its own slug exactly when it is a well-formed slug |
| PostEditor.TitleChange | src/pages/AdminPostEditor.tsx:88-94 | the title is replaced; the slug becomes the well-formed slug of the title for a new post and is unchanged when editing; nothing else changes |
| PostEditor.OrNull | src/pages/AdminPostEditor.tsx:125-128 | an optional text is sent as `null` exactly when it is empty, and as itself otherwise |
| PostEditor.Submit | src/pages/AdminPostEditor.tsx:96-145 | a refused form saves nothing and reports the first failing check; an accepted one creates a new post or updates post `id` with the built record |
| PostEditor.ValidationOrder | src/pages/AdminPostEditor.tsx:99-117 | the refusals come in order (blank title, blank slug, empty category, scheduled without a date), each exactly when its check fails and every earlier one passed |
| PostEditor.AcceptedRecord | src/pages/AdminPostEditor.tsx:122-138 | a schedule date is sent exactly for a scheduled post, a publication date exactly for a published one, and each empty optional text as `null` |
| PostEditor.InitialFormRefused | src/pages/AdminPostEditor.tsx:36-48 | a new post's empty form is refused for its missing title |
| PostEditor.SaveThenLoad | src/pages/AdminPostEditor.tsx:62-74 | saving a form and loading the post back gives every text field, the category, the status and both flags back |
| PostEditor.ShowUpdatedSwitchMisfires | src/pages/AdminPostEditor.tsx:401-406 | as written, turning the switch on marks the post popular and leaves the switch showing off |
| PostEditor.ToggleShowUpdated | src/pages/AdminPostEditor.tsx:401-406 | as intended, the switch sets the field it shows, keeps `popular`, and changes nothing else |
| ReadingTime.WordCountIsRuns | src/pages/Artigo.tsx:17-18 | reference definition: the word count is the number of maximal runs of non-white characters once tags are replaced by spaces |
| ReadingTime.RunsSquash | src/pages/Artigo.tsx:17 | squashing white space keeps the runs |
| ReadingTime.RunsTrim | src/pages/Artigo.tsx:17 | trimming keeps the runs |
| ReadingTime.SplitCountsRuns | src/pages/Artigo.tsx:18 | on space-separated text, the non-empty pieces of `split(' ')` are the runs |
| ReadingTime.ReadingTimeBounds | src/pages/Artigo.tsx:18-19 | the estimate is at least 1 minute; with w > 0 words it is ⌈w/200⌉; with no words it is 1 |
| ReadingTime.StripTagsPlain | src/pages/Artigo.tsx:17 | text without '<' is kept as it is |
| ReadingTime.StripTagsTag | src/pages/Artigo.tsx:17 | every `<…>` tag becomes one space |
| ReadingTime.TagSeparatesWords | src/pages/Artigo.tsx:17-18 | text separated only by a tag counts as separate words |
| ReadingTime.MarkupOnly | src/pages/Artigo.tsx:17-19 | a body that is only a tag has no words and reads in one minute |
| ReadingTime.ReadingTimeMonotone | src/pages/Artigo.tsx:18-19 | more words never give a shorter estimate |
| ReadingTime.DisplayedZero | src/pages/Artigo.tsx:38 | the page shows 0 exactly for a missing or empty body, and the badge of line 124 is shown exactly otherwise |
| Leads.CreateRow | src/hooks/useLeads.tsx:51-55 | a created lead keeps its name and number, and its `article_url` is `null` exactly when none was given |
| Leads.WindowSize | src/hooks/useLeads.tsx:23-24 | the inclusive window [from, to] has exactly pageSize slots, and page 1 starts at row 0 |
| Leads.PagesTile | src/hooks/useLeads.tsx:23-24 | consecutive pages tile: to(p) + 1 = from(p + 1) |
| Leads.Total | src/hooks/useLeads.tsx:36 | the total is the count, or 0 when it is absent |
| Leads.TotalPagesBounds | src/hooks/useLeads.tsx:37 | the page count is ⌈total/pageSize⌉: (pages − 1) · pageSize < total ≤ pages · pageSize for total > 0, and 0 pages for no leads |
| Leads.Window | src/hooks/useLeads.tsx:23-30 | a page holds at most pageSize rows |
| Leads.FetchPage | src/hooks/useLeads.tsx:19-40 | a fetched page holds the existing rows from (page − 1)·pageSize up to page·pageSize (at most pageSize), reports the exact total, and a page count that is the least number of pages holding every row (0 for no leads) |
| Leads.WindowSlice | src/hooks/useLeads.tsx:23-30 | `range(from, to)` returns the rows from (page − 1)·pageSize up to page·pageSize, cut at the last row |
| Leads.PagesUpToPrefix | src/hooks/useLeads.tsx:23-30 | reading pages 1..n in order gives the first n · pageSize rows, without gap or repeat |
| Leads.AllPagesCoverLeads | src/hooks/useLeads.tsx:19-40 | reading every page in order gives back all the leads exactly once |
| Leads.FirstPageInRange | src/components/AdminLeadsTable.tsx:28-29 | the table opens on page 1, which is in range |
| Leads.PreviousStep | src/components/AdminLeadsTable.tsx:31-33 | Previous moves back exactly when past page 1, and keeps 1 ≤ page ≤ max(1, totalPages) |
| Leads.NextStep | src/components/AdminLeadsTable.tsx:35-37 | Next moves forward exactly when data is loaded and the page is not the last, and keeps the page in range |
| Leads.DisabledMeansNoMove | src/components/AdminLeadsTable.tsx:100-119 | while the pager is shown, each button is disabled exactly when pressing it would not move |
| LeadForms.ParseDialog | src/components/WhatsAppLeadModal.tsx:35-44 | the dialog accepts a form exactly when the trimmed name has 2 to 100 code units, the code is non-empty, and the trimmed phone has 6 to 15 code units of digits, white space, '(', ')' and '-'; it yields the trimmed name and phone |
| LeadForms.DialogSubmit | src/components/WhatsAppLeadModal.tsx:77-88 | an invalid form sends nothing; a valid one sends the trimmed name and the normalised number; `submitted` becomes true only if the create succeeded |
| LeadForms.DialogClose | src/components/WhatsAppLeadModal.tsx:90-97 | closing clears `submitted` and resets the form to the default country code |
| LeadForms.SubmittedOnlyOnSuccess | src/components/WhatsAppLeadModal.tsx:77-88 | the thank-you view appears exactly when the form was valid and the store accepted the lead |
| LeadForms.DialogCountryCode | src/components/WhatsAppLeadModal.tsx:72-75 | the default code "244" is accepted, and an empty code is refused by the rule at line 37 |
| LeadForms.DigitsOfTrim | src/components/WhatsAppLeadModal.tsx:38-40 | trimming keeps every digit of the phone |
| LeadForms.DigitsAreDigits | src/components/WhatsAppLeadModal.tsx:79 | what the digit filter keeps is digits |
| LeadForms.StripKeepsDigits | src/components/WhatsAppLeadModal.tsx:79 | on a phone made of digits and separators, stripping the separators leaves exactly its digits |
| LeadForms.DialogNumber | src/components/WhatsAppLeadModal.tsx:79 | the stored number is "+", the code, and the phone's digits in order: at most 15 of them, and nothing else |
| LeadForms.CodesAreDigits | src/components/WhatsAppLeadModal.tsx:25-33 | every offered country code is all digits |
| LeadForms.DialogNumberAllDigits | src/components/WhatsAppLeadModal.tsx:79 | with a code from the selector, everything after the "+" is a digit |
| LeadForms.BlankPhoneAccepted | src/components/InlineLeadCapture.tsx:43-47 | as written, with any valid name and code a phone of six spaces is accepted and submitted as the bare "+" and code ("+244" on the default code), while the intended rule refuses it |
| LeadForms.ParseWidget | src/components/InlineLeadCapture.tsx:36-48 | `formSchema` as written: a form is accepted exactly when the trimmed name has 2 to 100 code units, the code is non-empty, and the phone as typed has 6 to 20 code units, all digits, white space or '-'; the name comes out trimmed |
| LeadForms.ParseWidgetIntended | src/components/InlineLeadCapture.tsx:43-47 | as intended: accepted exactly when the as-written schema accepts and the phone holds at least six digits, with the same parsed form |
| LeadForms.WidgetSubmit | src/components/InlineLeadCapture.tsx:69-86 | a submit sends a lead exactly when the form is valid, and an invalid form changes nothing |
| LeadForms.WidgetSubmitEffect | src/components/InlineLeadCapture.tsx:69-86 | a valid submit sends the trimmed name and stores the article's address as given; on success the dialog closes and the form resets to "", "244", ""; on failure nothing changes |
| LeadForms.WidgetNumber | src/components/InlineLeadCapture.tsx:70-71 | as written, the stored number is "+", the code, and the phone's digits in order: at most 20 of them, possibly none |
| LeadForms.WidgetNumberIntended | src/components/InlineLeadCapture.tsx:43-47 | as intended, the stored number carries between 6 and 20 digits after the code |
| AdminFilters.Insert | src/pages/Admin.tsx:77 | inserting into a sorted list adds exactly one element |
| AdminFilters.Sort | src/pages/Admin.tsx:77 | sorting keeps the length and the members |
| AdminFilters.SortAscending | src/pages/Admin.tsx:77 | sorting distinct strings gives them in strictly ascending `sort` order |
| AdminFilters.Unique | src/pages/Admin.tsx:76 | `[...new Set(s)]` keeps each member once |
| AdminFilters.UniqueDistinct | src/pages/Admin.tsx:76 | the result of `[...new Set(s)]` has no duplicates |
| AdminFilters.BeforeTotal | src/pages/Admin.tsx:77 | the string order used by `sort` is total |
| AdminFilters.BeforeTransitive | src/pages/Admin.tsx:77 | the string order used by `sort` is transitive |
| AdminFilters.CategoriesSpec | src/pages/Admin.tsx:74-78 | the category choices are the categories the posts use, each once, in ascending order, and none before the posts load |
| AdminFilters.FilteredPosts | src/pages/Admin.tsx:81-120 | the list is an order-preserving subsequence of the posts, holding exactly the posts that match the search, the category and the date filter, and nothing before the posts load |
| AdminFilters.ClearFilters | src/pages/Admin.tsx:134-140 | after clearing, no filter is active |
| AdminFilters.InactiveKeepsAll | src/pages/Admin.tsx:86-95 | filters are inactive exactly in the cleared state, and then every post is listed, in order |
| AdminFilters.DateWindowsNest | src/pages/Admin.tsx:103-114 | "week", "month" and "year" keep the posts created in the last 604 800 000, 2 592 000 000 and 31 536 000 000 ms, and each window lies inside the next |
| AdminFilters.SearchNarrows | src/pages/Admin.tsx:86-87 | typing more of a title narrows the list |
| AdminFilters.CountsAddUp | src/pages/Admin.tsx:161-163 | the drafts, scheduled and published counts add up to the number of posts, and to 0 before they load |
| PostSearch.Results | src/components/SearchModal.tsx:16-25 | the results are an order-preserving subsequence of the posts |
| PostSearch.ResultsSpec | src/components/SearchModal.tsx:16-25 | an empty query finds nothing; otherwise a post is found exactly when the lower-cased query occurs in its lower-cased title, its non-empty description or its category |
| PostSearch.ResultsNarrow | src/components/SearchModal.tsx:18-24 | if a non-empty q1 occurs in q2, the results of q2 are a subsequence of those of q1 |
| PostSearch.SetOpen | src/components/SearchModal.tsx:27-38 | closing the dialog empties the query, and opening it keeps the query |
| PostSearch.ClosedShowsNothing | src/components/SearchModal.tsx:31-33 | after closing, the dialog finds nothing until something is typed again |
| CategoryPage.Get | src/pages/Cartas.tsx:10 | `searchParams.get` returns the value of the first pair with the key, or `null` when the key is absent |
| CategoryPage.ShownWithout | src/pages/Cartas.tsx:15-20 | before the posts load nothing is shown, and without an active category every post is shown as it comes |
| CategoryPage.ShownCategory | src/pages/Cartas.tsx:17-18 | with category c, the page shows exactly the posts of category c, in their order |
| CategoryPage.ClickRoundTrip | src/pages/Cartas.tsx:22-28 | clicking a category sets `categoria` to it, and clicking "all" removes the parameter |
| CategoryPage.ClickThenShown | src/pages/Cartas.tsx:15-28 | after a click the page shows the clicked category's posts, or every post for "all" |
| Shortcode.Split | src/components/ArticleContent.tsx:36 | there is always at least one part |
| Shortcode.PartsCount | src/components/ArticleContent.tsx:36 | there is one more part than there are shortcode occurrences |
| Shortcode.NoOverlap | src/components/ArticleContent.tsx:36 | two occurrences of the shortcode cannot overlap |
| Shortcode.FirstPartPrefix | src/components/ArticleContent.tsx:36 | the first part is where the body starts |
| Shortcode.PartsHaveNoCode | src/components/ArticleContent.tsx:36 | no part holds the shortcode, in any letter case |
| Shortcode.JoinParts | src/components/ArticleContent.tsx:36 | joining the parts with the shortcode gives back the body, with each occurrence in lower case |
| Shortcode.NormalizeOnlyCase | src/components/ArticleContent.tsx:36 | that lower-casing changes only letter case, and nothing when there is no occurrence |
| Shortcode.BlocksLayout | src/components/ArticleContent.tsx:52-62 | every part is shown in order, with a widget after each but the last: parts − 1 widgets |
| Shortcode.RenderLayout | src/components/ArticleContent.tsx:36-62 | the article shows the parts in order, with as many widgets as shortcodes; a body without shortcodes is shown whole, once |
| Sitemap.BeforeT | supabase/functions/sitemap/index.ts:36 | `split("T")[0]` is the longest prefix without 'T' |
| Sitemap.UrlsLayout | supabase/functions/sitemap/index.ts:41-62 | the entries are /, /cartas and /sobre dated today, then one per post, in order, at SITE_URL + "/artigo/" + slug, monthly, with priority 0.8: 3 + posts entries |
| Sitemap.LastModChoice | supabase/functions/sitemap/index.ts:53 | a post's date is the first of its update date, its publication date and today that is set, cut just before its first 'T': the longest prefix without a 'T' |
| Sitemap.BuildFrame | supabase/functions/sitemap/index.ts:38-65 | the document starts with the XML declaration and the 0.9 namespace, and ends with `</urlset>` |
| Sitemap.ReadEntryOf | supabase/functions/sitemap/index.ts:42-48 | an entry whose fields hold no '<' reads back as itself |
| Sitemap.ReadEntriesOf | supabase/functions/sitemap/index.ts:41-65 | entries followed by the closing tag read back as written, in order |
| Sitemap.ReadBuild | supabase/functions/sitemap/index.ts:36-65 | round trip: when no slug or date holds '<', reading the document back gives every entry as written, in order |

## Left out

- I/O and foreign calls:
  - every store query and insert (their results are inputs);
  - `Blob`, `URL.createObjectURL`, the download link, `localStorage`;
  - toasts, `navigate`, `window.open`, focus and `document.body.style`;
  - `Deno.serve`, CORS and the HTTP response of the sitemap function.
- setTimeout in the dialog's `handleClose`: `LeadForms.DialogClose` is the state once the timer has run.
- Sanitisation by DOMPurify in `ArticleContent`: a widget's neighbours are modelled as the raw parts, which the sanitiser would then clean.
- CRC-32: the writer stores 0 on purpose, and so does the model.
- Dates:
  - `date-fns` formatting of backup, lead and post dates;
  - `toISOString`, which is the `toIso` and `isoNow` parameters;
  - `toDateString`, which is the `dayOf` parameter;
  - invalid dates.
- AdminFilters.MatchesDate: the "today" filter compares `dayOf` of the post's and the current time, so its calendar meaning rests on that parameter.
- Slug.FoldChar: only the Latin-1 letters are lower-cased and stripped of accents. `toLowerCase` and `normalize('NFD')` beyond Latin-1 are left out.
- Text.Lower: only ASCII and Latin-1 upper-case letters are mapped. Other Unicode case mappings, including those that change length, are left out.
- AdminFilters.Sort: `sort` compares UTF-16 code units, and the model compares characters. The two orders differ only between characters above U+FFFF and those from U+E000 to U+FFFF.
- Utf8.Encode: texts are sequences of Unicode scalar values, so a lone surrogate, which `TextEncoder` writes as U+FFFD, cannot occur.
- Zip.LocalHeaderLayout: like `Zip.CentralRecordLayout` and `Zip.EndRecordLayout`, a field stores its value modulo 2^16 or 2^32, as `DataView` does. The round-trip lemmas require every name below 2^16 bytes, every content and the total offset below 2^32, and fewer than 2^16 files.
- Csv.GenerateParses: header keys are written without quoting, as in the source. The round trip therefore assumes keys without ',', '"' or line feed, and a first row with at least one key.
- Sitemap.ReadBuild: the source does not escape XML. The reader round trip assumes no slug or date holds '<'.
- Leads.FetchPage: the store's `count: 'exact'` is taken to be the number of rows, and the order by `created_at` is the order of the input.
- The post editor's authentication redirect, loading spinner and `isSaving` flag.
- Auth, SEO, table of contents, progress bar and pure presentation components: these are not part of this model.

## Findings

| source | as written | input that shows it | evidently intended | confidence | as-written member | corrected member |
|---|---|---|---|---|---|---|
| src/pages/AdminPostEditor.tsx:401-406 | the "show updated date" switch displays `show_updated_at` but its handler sets `popular` | turning the switch on in a new post's form | the switch sets `show_updated_at` and leaves `popular` alone | high; not executed | PostEditor.ShowUpdatedSwitchMisfires | PostEditor.ToggleShowUpdated |
| src/components/InlineLeadCapture.tsx:43-47 | the widget's phone rule counts the typed length, separators included, although its message asks for at least six digits | a phone of six spaces passes and stores "+244" | at least six digits among the typed characters | medium; not executed | LeadForms.BlankPhoneAccepted | LeadForms.WidgetNumberIntended |
