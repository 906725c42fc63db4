/** `createZipContent` as the source writes it: one pass over the files that pushes each
    local header and its content, collects the central records and advances the running
    offset, then a pass summing the directory's length and the end record. */
module ZipWriter {
  import opened Bytes
  import opened Seqs
  import Utf8
  import opened Zip
  import opened ZipReader
  import opened Wrappers

  /** Appending two parts appends their bytes. */
  lemma FlattenPush2(parts: seq<seq<Byte>>, x: seq<Byte>, y: seq<Byte>)
    ensures Flatten(parts + [x] + [y]) == Flatten(parts) + x + y
  {
    assert (parts + [x] + [y])[..|parts| + 1] == parts + [x];
    assert (parts + [x])[..|parts|] == parts;
  }

  lemma NothingWritten(es: seq<Entry>)
    ensures Flatten<Byte>([]) == Flatten(LocalBlocks(es[..0]))
    ensures CentralRecords(es[..0]) == [] && LocalSize(es[..0]) == 0
  {
    assert es[..0] == [];
  }

  lemma EntryOfFields(f: File)
    ensures EntryOf(f).name == Utf8.Encode(f.name) && EntryOf(f).data == ContentBytes(f)
  {
  }

  /** One more file adds its local block to the local part. */
  lemma LocalStep(es: seq<Entry>, i: nat)
    requires i < |es|
    ensures Flatten(LocalBlocks(es[..i + 1])) == Flatten(LocalBlocks(es[..i])) + LocalHeader(es[i].name, |es[i].data|) + es[i].data
    ensures LocalSize(es[..i + 1]) == LocalSize(es[..i]) + 30 + |es[i].name| + |es[i].data|
  {
    assert es[..i + 1][..i] == es[..i];
  }

  /** One more file adds its central record, carrying the offset reached so far. */
  lemma CentralStep(es: seq<Entry>, i: nat)
    requires i < |es|
    ensures CentralRecords(es[..i + 1]) == CentralRecords(es[..i]) + [CentralRecord(es[i].name, |es[i].data|, LocalSize(es[..i]))]
  {
    assert es[..i + 1][..i] == es[..i];
  }

  /** The parts handed to the blob, laid end to end, are the archive. */
  lemma BlobIsLayout(es: seq<Entry>, zipParts: seq<seq<Byte>>, size: nat, offset: nat)
    requires Flatten(zipParts) == Flatten(LocalBlocks(es))
    requires size == CentralSize(es) && offset == LocalSize(es)
    ensures Flatten(zipParts + CentralRecords(es) + [EndRecord(|es|, size, offset)]) == Layout(es)
  {
    var central := CentralRecords(es);
    var end := EndRecord(|es|, size, offset);
    FlattenAppend(zipParts + central, [end]);
    FlattenAppend(zipParts, central);
    var last: seq<seq<Byte>> := [end];
    assert last[..0] == [];
    LocalBlocksSize(es);
    CentralRecordsSize(es);
  }

  /** The loop over the files: the pushed parts hold every local block, the directory holds
      every central record, and the offset has reached the end of the local blocks. */
  method WriteEntries(files: seq<File>) returns (zipParts: seq<seq<Byte>>, centralDirectory: seq<seq<Byte>>, offset: nat)
    ensures Flatten(zipParts) == Flatten(LocalBlocks(Entries(files)))
    ensures centralDirectory == CentralRecords(Entries(files))
    ensures offset == LocalSize(Entries(files))
  {
    hide *;
    ghost var es := Entries(files);
    zipParts := [];
    centralDirectory := [];
    offset := 0;
    var i := 0;
    NothingWritten(es);
    while i < |files|
      invariant i <= |files|
      invariant Flatten(zipParts) == Flatten(LocalBlocks(es[..i]))
      invariant centralDirectory == CentralRecords(es[..i])
      invariant offset == LocalSize(es[..i])
    {
      EntryOfFields(files[i]);
      var fileNameBytes := Utf8.Encode(files[i].name);
      var contentBytes := ContentBytes(files[i]);
      var localHeader := LocalHeader(fileNameBytes, |contentBytes|);
      FlattenPush2(zipParts, localHeader, contentBytes);
      LocalStep(es, i);
      CentralStep(es, i);
      zipParts := zipParts + [localHeader] + [contentBytes];
      var centralEntry := CentralRecord(fileNameBytes, |contentBytes|, offset);
      centralDirectory := centralDirectory + [centralEntry];
      offset := offset + |localHeader| + |contentBytes|;
      i := i + 1;
    }
    assert es[..i] == es;
  }

  /** `centralDirectory.forEach(entry => centralDirSize += entry.length)`: the directory's length. */
  method DirectorySize(centralDirectory: seq<seq<Byte>>) returns (centralDirSize: nat)
    ensures centralDirSize == |Flatten(centralDirectory)|
  {
    centralDirSize := 0;
    var j := 0;
    while j < |centralDirectory|
      invariant j <= |centralDirectory|
      invariant centralDirSize == |Flatten(centralDirectory[..j])|
    {
      assert centralDirectory[..j + 1][..j] == centralDirectory[..j];
      centralDirSize := centralDirSize + |centralDirectory[j]|;
      j := j + 1;
    }
    assert centralDirectory[..j] == centralDirectory;
  }

  /** Writes the archive for `files`: it is the layout of their encoded entries, of
      Σ (76 + 2 · name length + stored length) + 22 bytes, and it reads back as the files
      whenever every size fits its field. */
  method CreateZipContent(files: seq<File>) returns (zip: seq<Byte>)
    ensures zip == Archive(files)
    ensures |zip| == EntriesSize(Entries(files)) + 22
    ensures WellSized(Entries(files)) ==> ReadBackup(zip) == Some(files)
  {
    ghost var es := Entries(files);
    var zipParts, centralDirectory, offset := WriteEntries(files);
    var centralDirOffset := offset;
    var centralDirSize := DirectorySize(centralDirectory);
    CentralRecordsSize(es);
    var endRecord := EndRecord(|files|, centralDirSize, centralDirOffset);
    BlobIsLayout(es, zipParts, centralDirSize, centralDirOffset);
    zip := Flatten(zipParts + centralDirectory + [endRecord]);
    ArchiveSize(es);
    if WellSized(es) {
      ReadBackupArchive(files);
    }
  }
}
