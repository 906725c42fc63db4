/** A reader for the archives the backup writer produces: it walks from the end of central
    directory record to each central record, follows the stored offset to the local header,
    and takes the stored bytes from there. Reading back what was written gives the files back. */
module ZipReader {
  import opened Bytes
  import opened Seqs
  import opened Text
  import opened Wrappers
  import Utf8
  import opened Zip

  /** The central record at `q`, the entry it points to, and where the next record starts. */
  function ReadRecord(a: seq<Byte>, q: nat): Option<(Entry, nat)>
  {
    if q + 46 > |a| || U32At(a, q) != CentralSig then None
    else
      var size := U32At(a, q + 20);
      var n := U16At(a, q + 28);
      var p := U32At(a, q + 42);
      if q + 46 + n > |a| || p + 30 > |a| || U32At(a, p) != LocalSig then None
      else
        var d := p + 30 + U16At(a, p + 26) + U16At(a, p + 28);
        if d + size > |a| then None
        else Some((Entry(a[q + 46..q + 46 + n], a[d..d + size]), q + 46 + n))
  }

  /** The `count` consecutive central records starting at `q`. */
  function ReadDirectory(a: seq<Byte>, q: nat, count: nat): Option<seq<Entry>>
    decreases count
  {
    if count == 0 then Some([])
    else match ReadRecord(a, q)
      case None => None
      case Some((e, next)) =>
        match ReadDirectory(a, next, count - 1)
        case None => None
        case Some(rest) => Some([e] + rest)
  }

  /** The entries listed by the end of central directory record in the last 22 bytes. */
  function ReadArchive(a: seq<Byte>): Option<seq<Entry>>
  {
    if |a| < 22 then None
    else
      var e := |a| - 22;
      if U32At(a, e) != EndSig then None
      else ReadDirectory(a, U32At(a, e + 16), U16At(a, e + 10))
  }

  /** The fields the reader looks at in a central record, when every value fits its field. */
  lemma CentralFieldsRead(a: seq<Byte>, q: nat, name: seq<Byte>, size: nat, p: nat)
    requires HasCentralRecord(a, q, name, size, p)
    requires |name| < Two16 && size < Two32 && p < Two32
    ensures q + 46 + |name| <= |a| && U32At(a, q) == CentralSig
    ensures U32At(a, q + 20) == size && U16At(a, q + 28) == |name| && U32At(a, q + 42) == p
    ensures a[q + 46..q + 46 + |name|] == name
  {
    SmallMod(size, Two32);
    SmallMod(|name|, Two16);
    SmallMod(p, Two32);
  }

  /** The fields the reader looks at in a local header, when the name length fits its field. */
  lemma LocalFieldsRead(a: seq<Byte>, p: nat, name: seq<Byte>, size: nat)
    requires HasLocalHeader(a, p, name, size)
    requires |name| < Two16
    ensures p + 30 + |name| <= |a| && U32At(a, p) == LocalSig
    ensures U16At(a, p + 26) == |name| && U16At(a, p + 28) == 0
  {
    SmallMod(|name|, Two16);
  }

  /** A central record pointing at a local header followed by the data reads back as the entry. */
  lemma ReadRecordCore(a: seq<Byte>, q: nat, p: nat, e: Entry)
    requires q + 46 + |e.name| <= |a| && U32At(a, q) == CentralSig
    requires U32At(a, q + 20) == |e.data| && U16At(a, q + 28) == |e.name| && U32At(a, q + 42) == p
    requires a[q + 46..q + 46 + |e.name|] == e.name
    requires p + 30 + |e.name| <= |a| && U32At(a, p) == LocalSig
    requires U16At(a, p + 26) == |e.name| && U16At(a, p + 28) == 0
    requires OccursAt(a, e.data, p + 30 + |e.name|)
    ensures ReadRecord(a, q) == Some((e, q + 46 + |e.name|))
  {
  }

  /** A central record and the local block it points to read back as that entry. */
  lemma ReadRecordOf(a: seq<Byte>, q: nat, p: nat, e: Entry)
    requires HasCentralRecord(a, q, e.name, |e.data|, p)
    requires HasLocalHeader(a, p, e.name, |e.data|)
    requires OccursAt(a, e.data, p + 30 + |e.name|)
    requires |e.name| < Two16 && |e.data| < Two32 && p < Two32
    ensures ReadRecord(a, q) == Some((e, q + 46 + |e.name|))
  {
    CentralFieldsRead(a, q, e.name, |e.data|, p);
    LocalFieldsRead(a, p, e.name, |e.data|);
    ReadRecordCore(a, q, p, e);
  }

  lemma SmallMod(x: nat, m: nat)
    requires x < m
    ensures x % m == x
  {
  }

  /** Under `WellSized`, entry `k`'s name length, data length and offset fit their fields. */
  lemma EntryFits(es: seq<Entry>, k: nat)
    requires WellSized(es) && k < |es|
    ensures |es[k].name| < Two16 && |es[k].data| < Two32 && LocalSize(es[..k]) < Two32
  {
    LocalBlockIn(es, k, LocalSize(es[..k]));
  }

  /** What the archive holds for entry `k`: its central record at `q` pointing at `p`,
      and its local header and data at `p`. */
  lemma EntryStored(es: seq<Entry>, k: nat, q: nat, p: nat)
    requires k < |es| && q == LocalSize(es) + CentralSize(es[..k]) && p == LocalSize(es[..k])
    ensures HasCentralRecord(Layout(es), q, es[k].name, |es[k].data|, p)
    ensures HasLocalHeader(Layout(es), p, es[k].name, |es[k].data|)
    ensures OccursAt(Layout(es), es[k].data, p + 30 + |es[k].name|)
  {
    CentralRecordFields(es, k, q);
    LocalHeaderFields(es, k, p);
  }

  /** An end record whose count and offset fit their fields sends the reader to that directory. */
  lemma ReadArchiveOf(a: seq<Byte>, count: nat, dirSize: nat, dirOffset: nat)
    requires HasEndRecord(a, count, dirSize, dirOffset)
    requires count < Two16 && dirOffset < Two32
    ensures ReadArchive(a) == ReadDirectory(a, dirOffset, count)
  {
    SmallMod(count, Two16);
    SmallMod(dirOffset, Two32);
  }

  /** The central record of entry `k` reads back as entry `k`. */
  lemma ReadRecordAt(es: seq<Entry>, k: nat, q: nat)
    requires WellSized(es) && k < |es| && q == LocalSize(es) + CentralSize(es[..k])
    ensures ReadRecord(Layout(es), q) == Some((es[k], q + 46 + |es[k].name|))
  {
    hide *;
    var p := LocalSize(es[..k]);
    EntryFits(es, k);
    EntryStored(es, k, q, p);
    ReadRecordOf(Layout(es), q, p, es[k]);
  }

  lemma CentralSizeStep(es: seq<Entry>, k: nat)
    requires k < |es|
    ensures CentralSize(es[..k + 1]) == CentralSize(es[..k]) + 46 + |es[k].name|
  {
    assert es[..k + 1][..k] == es[..k];
  }

  /** Reading the directory from record `k` on yields the entries from `k` on. */
  lemma {:induction false} ReadDirectoryFrom(es: seq<Entry>, k: nat, q: nat)
    requires WellSized(es) && k <= |es| && q == LocalSize(es) + CentralSize(es[..k])
    ensures ReadDirectory(Layout(es), q, |es| - k) == Some(es[k..])
    decreases |es| - k
  {
    hide *;
    if k < |es| {
      ReadRecordAt(es, k, q);
      CentralSizeStep(es, k);
      ReadDirectoryFrom(es, k + 1, q + 46 + |es[k].name|);
      ReadDirectoryStep(Layout(es), q, |es| - k, es[k], q + 46 + |es[k].name|, es[k + 1..]);
      assert es[k..] == [es[k]] + es[k + 1..];
    } else {
      ReadDirectoryEmpty(Layout(es), q);
      assert es[k..] == [];
    }
  }

  /** How `ReadDirectory` reads one record and then the rest. */
  lemma ReadDirectoryStep(a: seq<Byte>, q: nat, count: nat, e: Entry, next: nat, rest: seq<Entry>)
    requires count > 0 && ReadRecord(a, q) == Some((e, next)) && ReadDirectory(a, next, count - 1) == Some(rest)
    ensures ReadDirectory(a, q, count) == Some([e] + rest)
  {
    hide ReadRecord;
  }

  lemma ReadDirectoryEmpty(a: seq<Byte>, q: nat)
    ensures ReadDirectory(a, q, 0) == Some([])
  {
  }

  lemma DirectoryFits(es: seq<Entry>)
    requires WellSized(es)
    ensures |es| < Two16 && LocalSize(es) < Two32
  {
  }

  lemma NothingBefore(es: seq<Entry>)
    ensures CentralSize(es[..0]) == 0 && es[0..] == es
  {
    assert es[..0] == [];
  }

  /** Round trip: the reader gives back every entry the writer laid out, in order,
      as long as every size fits its field. */
  lemma ReadLayout(es: seq<Entry>)
    requires WellSized(es)
    ensures ReadArchive(Layout(es)) == Some(es)
  {
    hide *;
    EndRecordFields(es);
    DirectoryFits(es);
    ReadArchiveOf(Layout(es), |es|, CentralSize(es), LocalSize(es));
    NothingBefore(es);
    ReadDirectoryFrom(es, 0, LocalSize(es));
  }

  /** A file from an entry: the name and text decoded from UTF-8, with the byte-order mark
      of a ".csv" file removed. */
  function ReadFile(e: Entry): Option<File>
  {
    match Utf8.Decode(e.name)
    case None => None
    case Some(name) =>
      var body := if EndsWith(name, ".csv") then
                    (if |e.data| >= 3 && e.data[..3] == Bom then Some(e.data[3..]) else None)
                  else Some(e.data);
      match body
      case None => None
      case Some(b) =>
        match Utf8.Decode(b)
        case None => None
        case Some(content) => Some(File(name, content))
  }

  /** Every entry read as a file, or `None` as soon as one cannot be. */
  function ReadFiles(es: seq<Entry>): Option<seq<File>>
  {
    if es == [] then Some([])
    else match (ReadFile(es[0]), ReadFiles(es[1..]))
      case (Some(f), Some(rest)) => Some([f] + rest)
      case _ => None
  }

  /** The files stored in an archive. */
  function ReadBackup(a: seq<Byte>): Option<seq<File>>
  {
    match ReadArchive(a)
    case None => None
    case Some(es) => ReadFiles(es)
  }

  /** Encoding a file as an entry and reading the entry gives the file back. */
  lemma ReadFileOf(f: File)
    ensures ReadFile(EntryOf(f)) == Some(f)
  {
    Utf8.DecodeEncode(f.name);
    ContentBytesDecode(f);
  }

  lemma {:induction false} ReadFilesOf(files: seq<File>)
    ensures ReadFiles(Entries(files)) == Some(files)
  {
    if files != [] {
      ReadFileOf(files[0]);
      assert Entries(files)[1..] == Entries(files[1..]);
      ReadFilesOf(files[1..]);
      assert [files[0]] + files[1..] == files;
    }
  }

  /** Round trip of the backup download: reading the archive gives back every file, by name
      and text, in the order given, as long as every size fits its field. */
  lemma ReadBackupArchive(files: seq<File>)
    requires WellSized(Entries(files))
    ensures ReadBackup(Archive(files)) == Some(files)
  {
    ReadLayout(Entries(files));
    ReadFilesOf(files);
  }
}
