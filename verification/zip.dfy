/** The store-only ZIP writer behind the admin backup download (`createZipContent`).
    Record layouts are those of sections 4.3.7 (local file header), 4.3.12 (central
    directory header) and 4.3.16 (end of central directory record) of PKWARE's
    APPNOTE.TXT; every entry is "stored", and CRC-32, time and date are written as zero. */
module Zip {
  import opened Bytes
  import opened Text
  import opened Seqs
  import opened Wrappers
  import Utf8

  /** One file handed to the writer: its name and its text. */
  datatype File = File(name: string, content: string)

  /** A file once encoded: the bytes of its name and the bytes stored for it. */
  datatype Entry = Entry(name: seq<Byte>, data: seq<Byte>)

  const LocalSig: nat := 0x04034b50
  const CentralSig: nat := 0x02014b50
  const EndSig: nat := 0x06054b50
  /** Version 2.0, written both as "version made by" and "version needed to extract". */
  const Version: nat := 20

  /** The UTF-8 byte-order mark put in front of CSV files for spreadsheet programs. */
  const Bom: seq<Byte> := [0xEF, 0xBB, 0xBF]

  /** The stored bytes of a file: its UTF-8 text, after a byte-order mark when the name ends in ".csv". */
  function ContentBytes(f: File): seq<Byte>
  {
    if EndsWith(f.name, ".csv") then Bom + Utf8.Encode(f.content) else Utf8.Encode(f.content)
  }

  /** The UTF-8 name and the stored bytes of one file. */
  function EntryOf(f: File): Entry
  {
    Entry(Utf8.Encode(f.name), ContentBytes(f))
  }

  function Entries(files: seq<File>): (r: seq<Entry>)
    ensures |r| == |files|
    ensures forall i :: 0 <= i < |files| ==> r[i] == EntryOf(files[i])
  {
    seq(|files|, i requires 0 <= i < |files| => EntryOf(files[i]))
  }

  /** Byte `i` of the local file header of an entry named `name` holding `size` bytes.
      Fields are little-endian and reduced modulo 2^16 or 2^32 as `DataView` does. */
  function LocalHeaderByte(name: seq<Byte>, size: nat, i: nat): Byte
    requires i < 30 + |name|
  {
    if i < 4 then LE32(LocalSig)[i]              // signature
    else if i < 6 then LE16(Version)[i - 4]      // version needed to extract
    else if i < 18 then 0                        // flags, method "stored", time, date, CRC-32
    else if i < 22 then LE32(size)[i - 18]       // compressed size
    else if i < 26 then LE32(size)[i - 22]       // uncompressed size
    else if i < 28 then LE16(|name|)[i - 26]     // file name length
    else if i < 30 then 0                        // extra field length
    else name[i - 30]                            // file name
  }

  /** The 30-byte local file header followed by the name (the length of the buffer itself
      is never truncated). */
  function LocalHeader(name: seq<Byte>, size: nat): (r: seq<Byte>)
    ensures |r| == 30 + |name|
  {
    seq(30 + |name|, i requires 0 <= i < 30 + |name| => LocalHeaderByte(name, size, i))
  }

  /** Byte `i` of the central directory header of an entry whose local header is at `offset`. */
  function CentralByte(name: seq<Byte>, size: nat, offset: nat, i: nat): Byte
    requires i < 46 + |name|
  {
    if i < 4 then LE32(CentralSig)[i]            // signature
    else if i < 6 then LE16(Version)[i - 4]      // version made by
    else if i < 8 then LE16(Version)[i - 6]      // version needed to extract
    else if i < 20 then 0                        // flags, method "stored", time, date, CRC-32
    else if i < 24 then LE32(size)[i - 20]       // compressed size
    else if i < 28 then LE32(size)[i - 24]       // uncompressed size
    else if i < 30 then LE16(|name|)[i - 28]     // file name length
    else if i < 42 then 0                        // extra and comment lengths, disk, attributes
    else if i < 46 then LE32(offset)[i - 42]     // offset of the local header
    else name[i - 46]                            // file name
  }

  /** The 46-byte central directory header followed by the name. */
  function CentralRecord(name: seq<Byte>, size: nat, offset: nat): (r: seq<Byte>)
    ensures |r| == 46 + |name|
  {
    seq(46 + |name|, i requires 0 <= i < 46 + |name| => CentralByte(name, size, offset, i))
  }

  /** Byte `i` of the end of central directory record. */
  function EndByte(count: nat, dirSize: nat, dirOffset: nat, i: nat): Byte
    requires i < 22
  {
    if i < 4 then LE32(EndSig)[i]                // signature
    else if i < 8 then 0                         // this disk, disk of the central directory
    else if i < 10 then LE16(count)[i - 8]       // entries on this disk
    else if i < 12 then LE16(count)[i - 10]      // entries in total
    else if i < 16 then LE32(dirSize)[i - 12]    // size of the central directory
    else if i < 20 then LE32(dirOffset)[i - 16]  // offset of the central directory
    else 0                                       // comment length
  }

  /** The 22-byte end of central directory record. */
  function EndRecord(count: nat, dirSize: nat, dirOffset: nat): (r: seq<Byte>)
    ensures |r| == 22
  {
    seq(22, i requires 0 <= i < 22 => EndByte(count, dirSize, dirOffset, i))
  }

  /** `a` holds, at `p`, a local file header (section 4.3.7) for `name` and `size` data bytes:
      signature 0x04034b50, version 20, zero flags, method "stored", time, date and CRC-32,
      both sizes, the name length, no extra field, then the name at `p + 30`. */
  predicate HasLocalHeader(a: seq<Byte>, p: nat, name: seq<Byte>, size: nat)
  {
    && p + 30 + |name| <= |a|
    && U32At(a, p) == LocalSig && U16At(a, p + 4) == Version
    && U16At(a, p + 6) == 0 && U16At(a, p + 8) == 0
    && U16At(a, p + 10) == 0 && U16At(a, p + 12) == 0 && U32At(a, p + 14) == 0
    && U32At(a, p + 18) == size % Two32 && U32At(a, p + 22) == size % Two32
    && U16At(a, p + 26) == |name| % Two16 && U16At(a, p + 28) == 0
    && a[p + 30..p + 30 + |name|] == name
  }

  /** `a` holds, at `q`, a central directory header (section 4.3.12): signature 0x02014b50,
      versions 20, zero flags, method, time, date and CRC-32, both sizes, the name length,
      zero extra and comment lengths, disk and attributes, the local header's `offset`,
      then the name at `q + 46`. */
  predicate HasCentralRecord(a: seq<Byte>, q: nat, name: seq<Byte>, size: nat, offset: nat)
  {
    && q + 46 + |name| <= |a|
    && U32At(a, q) == CentralSig
    && U16At(a, q + 4) == Version && U16At(a, q + 6) == Version
    && U16At(a, q + 8) == 0 && U16At(a, q + 10) == 0
    && U16At(a, q + 12) == 0 && U16At(a, q + 14) == 0 && U32At(a, q + 16) == 0
    && U32At(a, q + 20) == size % Two32 && U32At(a, q + 24) == size % Two32
    && U16At(a, q + 28) == |name| % Two16
    && U16At(a, q + 30) == 0 && U16At(a, q + 32) == 0
    && U16At(a, q + 34) == 0 && U16At(a, q + 36) == 0 && U32At(a, q + 38) == 0
    && U32At(a, q + 42) == offset % Two32
    && a[q + 46..q + 46 + |name|] == name
  }

  /** `a` ends in an end of central directory record (section 4.3.16): signature 0x06054b50,
      zero disk numbers, both entry counts, the directory's size and offset, no comment. */
  predicate HasEndRecord(a: seq<Byte>, count: nat, dirSize: nat, dirOffset: nat)
  {
    && 22 <= |a|
    && var e := |a| - 22;
    && U32At(a, e) == EndSig
    && U16At(a, e + 4) == 0 && U16At(a, e + 6) == 0
    && U16At(a, e + 8) == count % Two16 && U16At(a, e + 10) == count % Two16
    && U32At(a, e + 12) == dirSize % Two32
    && U32At(a, e + 16) == dirOffset % Two32
    && U16At(a, e + 20) == 0
  }

  /** The local header built for `name` and `size` has the layout of section 4.3.7. */
  lemma LocalHeaderLayout(name: seq<Byte>, size: nat)
    ensures HasLocalHeader(LocalHeader(name, size), 0, name, size)
  {
    var r := LocalHeader(name, size);
    assert r[..4] == LE32(LocalSig);
    assert r[18..22] == LE32(size) && r[22..26] == LE32(size);
    assert r[26..28] == LE16(|name|);
    ReadLE32(r, 0, LocalSig);
    ReadLE32(r, 18, size);
    ReadLE32(r, 22, size);
    ReadLE16(r, 26, |name|);
    assert r[30..30 + |name|] == name;
  }

  /** The central record built for `name`, `size` and `offset` has the layout of section 4.3.12. */
  lemma CentralRecordLayout(name: seq<Byte>, size: nat, offset: nat)
    ensures HasCentralRecord(CentralRecord(name, size, offset), 0, name, size, offset)
  {
    var r := CentralRecord(name, size, offset);
    assert r[..4] == LE32(CentralSig);
    assert r[20..24] == LE32(size) && r[24..28] == LE32(size);
    assert r[28..30] == LE16(|name|);
    assert r[42..46] == LE32(offset);
    ReadLE32(r, 0, CentralSig);
    ReadLE32(r, 20, size);
    ReadLE32(r, 24, size);
    ReadLE16(r, 28, |name|);
    ReadLE32(r, 42, offset);
    assert r[46..46 + |name|] == name;
  }

  /** The end record built for `count`, `dirSize` and `dirOffset` has the layout of section 4.3.16. */
  lemma EndRecordLayout(count: nat, dirSize: nat, dirOffset: nat)
    ensures HasEndRecord(EndRecord(count, dirSize, dirOffset), count, dirSize, dirOffset)
  {
    var r := EndRecord(count, dirSize, dirOffset);
    assert r[..4] == LE32(EndSig);
    assert r[8..10] == LE16(count) && r[10..12] == LE16(count);
    assert r[12..16] == LE32(dirSize) && r[16..20] == LE32(dirOffset);
    ReadLE32(r, 0, EndSig);
    ReadLE16(r, 8, count);
    ReadLE16(r, 10, count);
    ReadLE32(r, 12, dirSize);
    ReadLE32(r, 16, dirOffset);
  }

  /** Local header plus data of one entry. */
  function LocalBlock(e: Entry): (r: seq<Byte>)
    ensures |r| == 30 + |e.name| + |e.data|
  {
    LocalHeader(e.name, |e.data|) + e.data
  }

  /** The local blocks, one per entry, in input order (the source's `zipParts`). */
  function LocalBlocks(es: seq<Entry>): (r: seq<seq<Byte>>)
    ensures |r| == |es|
  {
    if es == [] then [] else LocalBlocks(es[..|es| - 1]) + [LocalBlock(es[|es| - 1])]
  }

  /** Σ (30 + name length + data length): the bytes the local blocks take. */
  function LocalSize(es: seq<Entry>): nat
  {
    if es == [] then 0
    else LocalSize(es[..|es| - 1]) + 30 + |es[|es| - 1].name| + |es[|es| - 1].data|
  }

  /** Σ (46 + name length): the bytes the central directory takes. */
  function CentralSize(es: seq<Entry>): nat
  {
    if es == [] then 0
    else CentralSize(es[..|es| - 1]) + 46 + |es[|es| - 1].name|
  }

  /** Σ (76 + 2 · name length + data length): everything but the end record. */
  function EntriesSize(es: seq<Entry>): nat
  {
    if es == [] then 0
    else EntriesSize(es[..|es| - 1]) + 76 + 2 * |es[|es| - 1].name| + |es[|es| - 1].data|
  }

  /** The central records, one per entry, in input order (the source's `centralDirectory`);
      record `i` carries the running `offset`, Σ_{j<i} (30 + name length + data length). */
  function CentralRecords(es: seq<Entry>): (r: seq<seq<Byte>>)
    ensures |r| == |es|
  {
    if es == [] then []
    else CentralRecords(es[..|es| - 1]) + [CentralRecord(es[|es| - 1].name, |es[|es| - 1].data|, LocalSize(es[..|es| - 1]))]
  }

  /** Local blocks, then the central directory, then the end record whose entry count is
      the number of blocks, whose size is the directory's length and whose offset is where
      the directory starts (the source's `new Blob([...zipParts, ...centralDirectory, eocd])`). */
  function Assemble(blocks: seq<seq<Byte>>, records: seq<seq<Byte>>): seq<Byte>
  {
    var local := Flatten(blocks);
    var central := Flatten(records);
    local + central + EndRecord(|blocks|, |central|, |local|)
  }

  /** The archive laid out for already encoded entries. */
  function Layout(es: seq<Entry>): seq<Byte>
  {
    Assemble(LocalBlocks(es), CentralRecords(es))
  }

  /** `createZipContent`: the archive written for `files`. */
  function Archive(files: seq<File>): seq<Byte>
  {
    Layout(Entries(files))
  }

  /** The entries whose sizes every 16- and 32-bit field can hold; beyond them `DataView`
      silently keeps only the low bits. */
  predicate WellSized(es: seq<Entry>)
  {
    && |es| < Two16
    && (forall i :: 0 <= i < |es| ==> |es[i].name| < Two16)
    && LocalSize(es) < Two32
    && CentralSize(es) < Two32
  }

  lemma {:induction false} LocalBlocksPrefix(es: seq<Entry>, k: nat)
    requires k <= |es|
    ensures LocalBlocks(es)[..k] == LocalBlocks(es[..k])
    decreases |es|
  {
    if k < |es| {
      var n := |es| - 1;
      LocalBlocksPrefix(es[..n], k);
      assert es[..n][..k] == es[..k];
      assert LocalBlocks(es)[..k] == LocalBlocks(es[..n])[..k];
    } else {
      assert es[..k] == es;
    }
  }

  lemma {:induction false} CentralRecordsPrefix(es: seq<Entry>, k: nat)
    requires k <= |es|
    ensures CentralRecords(es)[..k] == CentralRecords(es[..k])
    decreases |es|
  {
    if k < |es| {
      var n := |es| - 1;
      CentralRecordsPrefix(es[..n], k);
      assert es[..n][..k] == es[..k];
      assert CentralRecords(es)[..k] == CentralRecords(es[..n])[..k];
    } else {
      assert es[..k] == es;
    }
  }

  lemma LocalBlocksAt(es: seq<Entry>, k: nat)
    requires k < |es|
    ensures LocalBlocks(es)[k] == LocalBlock(es[k])
  {
    LocalBlocksPrefix(es, k + 1);
    assert es[..k + 1][..k] == es[..k];
    assert LocalBlocks(es)[k] == LocalBlocks(es)[..k + 1][k];
  }

  lemma CentralRecordsAt(es: seq<Entry>, k: nat)
    requires k < |es|
    ensures CentralRecords(es)[k] == CentralRecord(es[k].name, |es[k].data|, LocalSize(es[..k]))
  {
    CentralRecordsPrefix(es, k + 1);
    assert es[..k + 1][..k] == es[..k];
    assert CentralRecords(es)[k] == CentralRecords(es)[..k + 1][k];
  }

  /** The local blocks take exactly Σ (30 + name length + data length) bytes. */
  lemma {:induction false} LocalBlocksSize(es: seq<Entry>)
    ensures |Flatten(LocalBlocks(es))| == LocalSize(es)
  {
    if es != [] {
      var k := |es| - 1;
      LocalBlocksSize(es[..k]);
      LocalBlocksPrefix(es, k);
    }
  }

  /** The central directory takes exactly Σ (46 + name length) bytes. */
  lemma {:induction false} CentralRecordsSize(es: seq<Entry>)
    ensures |Flatten(CentralRecords(es))| == CentralSize(es)
  {
    if es != [] {
      var k := |es| - 1;
      CentralRecordsSize(es[..k]);
      CentralRecordsPrefix(es, k);
    }
  }

  lemma {:induction false} EntriesSizeSplit(es: seq<Entry>)
    ensures EntriesSize(es) == LocalSize(es) + CentralSize(es)
  {
    if es != [] {
      EntriesSizeSplit(es[..|es| - 1]);
    }
  }

  /** A longer prefix of the entries never has smaller local blocks. */
  lemma {:induction false} LocalSizeMonotone(es: seq<Entry>, j: nat, k: nat)
    requires j <= k <= |es|
    ensures LocalSize(es[..j]) <= LocalSize(es[..k])
    decreases k
  {
    if j < k {
      LocalSizeMonotone(es, j, k - 1);
      assert es[..k][..k - 1] == es[..k - 1];
    }
  }

  /** Block `k` sits in the assembled archive right after the blocks before it. */
  lemma BlockIn(blocks: seq<seq<Byte>>, records: seq<seq<Byte>>, k: nat, p: nat)
    requires k < |blocks| && p == |Flatten(blocks[..k])|
    ensures p + |blocks[k]| <= |Flatten(blocks)|
    ensures |Flatten(blocks)| + 22 <= |Assemble(blocks, records)|
    ensures OccursAt(Assemble(blocks, records), blocks[k], p)
  {
    var l := Flatten(blocks);
    var a := Assemble(blocks, records);
    FlattenAt(blocks, k, p);
    assert l <= a;
    SliceOfPrefix(a, l, p, blocks[k]);
  }

  /** Record `k` sits in the assembled archive after all blocks and the records before it. */
  lemma RecordIn(blocks: seq<seq<Byte>>, records: seq<seq<Byte>>, k: nat, q: nat)
    requires k < |records| && q == |Flatten(blocks)| + |Flatten(records[..k])|
    ensures q + |records[k]| + 22 <= |Assemble(blocks, records)|
    ensures OccursAt(Assemble(blocks, records), records[k], q)
  {
    hide Assemble, Flatten, EndRecord, Layout;
    var l := Flatten(blocks);
    var c := Flatten(records);
    var a := Assemble(blocks, records);
    var j := q - |l|;
    FlattenAt(records, k, j);
    AssembleForm(blocks, records);
    assert a[|l|..] == c + EndRecord(|blocks|, |c|, |l|);
    SliceOfPrefix(a[|l|..], c, j, records[k]);
    assert a[q..q + |records[k]|] == a[|l|..][j..j + |records[k]|];
  }

  lemma AssembleForm(blocks: seq<seq<Byte>>, records: seq<seq<Byte>>)
    ensures Assemble(blocks, records) ==
              Flatten(blocks) + Flatten(records) + EndRecord(|blocks|, |Flatten(records)|, |Flatten(blocks)|)
    ensures |EndRecord(|blocks|, |Flatten(records)|, |Flatten(blocks)|)| == 22
  {
    hide Flatten, EndRecord;
  }

  /** The end record is the assembled archive's last 22 bytes. */
  lemma EndIn(blocks: seq<seq<Byte>>, records: seq<seq<Byte>>)
    ensures var a := Assemble(blocks, records);
            && |a| == |Flatten(blocks)| + |Flatten(records)| + 22
            && OccursAt(a, EndRecord(|blocks|, |Flatten(records)|, |Flatten(blocks)|), |a| - 22)
  {
  }

  /** The running offset before entry `k` is the length of the blocks before it. */
  lemma LocalOffset(es: seq<Entry>, k: nat)
    requires k <= |es|
    ensures |Flatten(LocalBlocks(es)[..k])| == LocalSize(es[..k])
  {
    LocalBlocksPrefix(es, k);
    LocalBlocksSize(es[..k]);
  }

  /** The central records before entry `k` take Σ_{j<k} (46 + name length) bytes. */
  lemma CentralOffset(es: seq<Entry>, k: nat)
    requires k <= |es|
    ensures |Flatten(CentralRecords(es)[..k])| == CentralSize(es[..k])
  {
    CentralRecordsPrefix(es, k);
    CentralRecordsSize(es[..k]);
  }

  lemma LocalBlockAt(es: seq<Entry>, k: nat, p: nat)
    requires k < |es| && p == |Flatten(LocalBlocks(es)[..k])|
    ensures p + |LocalBlocks(es)[k]| <= |Flatten(LocalBlocks(es))|
    ensures |Flatten(LocalBlocks(es))| + 22 <= |Layout(es)|
    ensures OccursAt(Layout(es), LocalBlocks(es)[k], p)
  {
    BlockIn(LocalBlocks(es), CentralRecords(es), k, p);
  }

  lemma CentralRecordAt(es: seq<Entry>, k: nat, q: nat)
    requires k < |es| && q == |Flatten(LocalBlocks(es))| + |Flatten(CentralRecords(es)[..k])|
    ensures q + |CentralRecords(es)[k]| + 22 <= |Layout(es)|
    ensures OccursAt(Layout(es), CentralRecords(es)[k], q)
  {
    RecordIn(LocalBlocks(es), CentralRecords(es), k, q);
  }

  /** Entry `k`'s local block, at `p` = Σ_{j<k} (30 + name length + data length). */
  lemma LocalBlockIn(es: seq<Entry>, k: nat, p: nat)
    requires k < |es| && p == LocalSize(es[..k])
    ensures p + |LocalBlock(es[k])| <= LocalSize(es)
    ensures LocalSize(es) + 22 <= |Layout(es)|
    ensures OccursAt(Layout(es), LocalBlock(es[k]), p)
  {
    LocalOffset(es, k);
    LocalBlocksSize(es);
    LocalBlockAt(es, k, p);
    LocalBlocksAt(es, k);
  }

  /** Entry `k`'s central record, at `q` = the local blocks' size plus Σ_{j<k} (46 + name length). */
  lemma CentralRecordIn(es: seq<Entry>, k: nat, q: nat)
    requires k < |es| && q == LocalSize(es) + CentralSize(es[..k])
    ensures q + 46 + |es[k].name| + 22 <= |Layout(es)|
    ensures OccursAt(Layout(es), CentralRecord(es[k].name, |es[k].data|, LocalSize(es[..k])), q)
  {
    CentralOffset(es, k);
    LocalBlocksSize(es);
    CentralRecordAt(es, k, q);
    CentralRecordsAt(es, k);
  }

  /** The end record is the archive's last 22 bytes, right after the central directory. */
  lemma EndRecordIn(es: seq<Entry>)
    ensures |Layout(es)| == LocalSize(es) + CentralSize(es) + 22
    ensures OccursAt(Layout(es), EndRecord(|es|, CentralSize(es), LocalSize(es)), |Layout(es)| - 22)
  {
    LocalBlocksSize(es);
    CentralRecordsSize(es);
    EndIn(LocalBlocks(es), CentralRecords(es));
  }

  /** A local header found in a copy of `h` placed at `p` is found in the whole sequence. */
  lemma LocalHeaderMoved(a: seq<Byte>, p: nat, h: seq<Byte>, name: seq<Byte>, size: nat)
    requires OccursAt(a, h, p) && HasLocalHeader(h, 0, name, size)
    ensures HasLocalHeader(a, p, name, size)
  {
    U32AtIn(a, p, h, 0);
    U16AtIn(a, p, h, 4);
    U16AtIn(a, p, h, 6);
    U16AtIn(a, p, h, 8);
    U16AtIn(a, p, h, 10);
    U16AtIn(a, p, h, 12);
    U32AtIn(a, p, h, 14);
    U32AtIn(a, p, h, 18);
    U32AtIn(a, p, h, 22);
    U16AtIn(a, p, h, 26);
    U16AtIn(a, p, h, 28);
    SliceOfSlice(a, p, h, 30, 30 + |name|);
  }

  /** A central record found in a copy of `r` placed at `q` is found in the whole sequence. */
  lemma CentralRecordMoved(a: seq<Byte>, q: nat, r: seq<Byte>, name: seq<Byte>, size: nat, offset: nat)
    requires OccursAt(a, r, q) && HasCentralRecord(r, 0, name, size, offset)
    ensures HasCentralRecord(a, q, name, size, offset)
  {
    U32AtIn(a, q, r, 0);
    U16AtIn(a, q, r, 4);
    U16AtIn(a, q, r, 6);
    U16AtIn(a, q, r, 8);
    U16AtIn(a, q, r, 10);
    U16AtIn(a, q, r, 12);
    U16AtIn(a, q, r, 14);
    U32AtIn(a, q, r, 16);
    U32AtIn(a, q, r, 20);
    U32AtIn(a, q, r, 24);
    U16AtIn(a, q, r, 28);
    U16AtIn(a, q, r, 30);
    U16AtIn(a, q, r, 32);
    U16AtIn(a, q, r, 34);
    U16AtIn(a, q, r, 36);
    U32AtIn(a, q, r, 38);
    U32AtIn(a, q, r, 42);
    SliceOfSlice(a, q, r, 46, 46 + |name|);
  }

  /** An end record forming the last 22 bytes of `a` is found at the end of `a`. */
  lemma EndRecordMoved(a: seq<Byte>, count: nat, dirSize: nat, dirOffset: nat)
    requires 22 <= |a| && OccursAt(a, EndRecord(count, dirSize, dirOffset), |a| - 22)
    ensures HasEndRecord(a, count, dirSize, dirOffset)
  {
    var e := |a| - 22;
    var r := EndRecord(count, dirSize, dirOffset);
    EndRecordLayout(count, dirSize, dirOffset);
    U32AtIn(a, e, r, 0);
    U16AtIn(a, e, r, 4);
    U16AtIn(a, e, r, 6);
    U16AtIn(a, e, r, 8);
    U16AtIn(a, e, r, 10);
    U32AtIn(a, e, r, 12);
    U32AtIn(a, e, r, 16);
    U16AtIn(a, e, r, 20);
  }

  /** The local block of `e` placed at `p`: its header, then its data. */
  lemma LocalBlockMoved(a: seq<Byte>, p: nat, e: Entry)
    requires OccursAt(a, LocalBlock(e), p)
    ensures HasLocalHeader(a, p, e.name, |e.data|)
    ensures OccursAt(a, e.data, p + 30 + |e.name|)
  {
    var h := LocalHeader(e.name, |e.data|);
    SliceSplit(a, p, h, e.data);
    LocalHeaderLayout(e.name, |e.data|);
    LocalHeaderMoved(a, p, h, e.name, |e.data|);
  }

  /** Entry `k`'s local header as found in the archive at
      `p` = Σ_{j<k} (30 + name length + data length), followed by its data. */
  lemma LocalHeaderFields(es: seq<Entry>, k: nat, p: nat)
    requires k < |es| && p == LocalSize(es[..k])
    ensures p + 30 + |es[k].name| + |es[k].data| <= LocalSize(es)
    ensures LocalSize(es) + 22 <= |Layout(es)|
    ensures HasLocalHeader(Layout(es), p, es[k].name, |es[k].data|)
    ensures OccursAt(Layout(es), es[k].data, p + 30 + |es[k].name|)
  {
    hide *;
    LocalBlockIn(es, k, p);
    LocalBlockMoved(Layout(es), p, es[k]);
  }

  /** Entry `k`'s central record as found in the archive at
      `q` = Σ (30 + name length + data length) + Σ_{j<k} (46 + name length); its offset
      field holds Σ_{j<k} (30 + name length + data length). */
  lemma CentralRecordFields(es: seq<Entry>, k: nat, q: nat)
    requires k < |es| && q == LocalSize(es) + CentralSize(es[..k])
    ensures q + 46 + |es[k].name| + 22 <= |Layout(es)|
    ensures HasCentralRecord(Layout(es), q, es[k].name, |es[k].data|, LocalSize(es[..k]))
  {
    CentralRecordIn(es, k, q);
    CentralRecordLayout(es[k].name, |es[k].data|, LocalSize(es[..k]));
    CentralRecordMoved(Layout(es), q, CentralRecord(es[k].name, |es[k].data|, LocalSize(es[..k])),
                       es[k].name, |es[k].data|, LocalSize(es[..k]));
  }

  /** The end record closes the archive: both entry counts are the number of entries, the
      directory size is Σ (46 + name length) and the directory offset is
      Σ (30 + name length + data length), all reduced as `DataView` stores them. */
  lemma EndRecordFields(es: seq<Entry>)
    ensures |Layout(es)| == LocalSize(es) + CentralSize(es) + 22
    ensures HasEndRecord(Layout(es), |es|, CentralSize(es), LocalSize(es))
  {
    hide *;
    EndRecordIn(es);
    EndRecordMoved(Layout(es), |es|, CentralSize(es), LocalSize(es));
  }

  /** With no files the archive is just the 22-byte end record, with zero counts, size and offset. */
  lemma EmptyArchive()
    ensures Archive([]) == EndRecord(0, 0, 0)
    ensures HasEndRecord(Archive([]), 0, 0, 0)
  {
    var es := Entries([]);
    assert es == [];
    EndRecordFields(es);
    assert Layout(es) == [] + [] + EndRecord(0, 0, 0);
  }

  /** The archive is Σ (76 + 2 · name length + data length) + 22 bytes long. */
  lemma ArchiveSize(es: seq<Entry>)
    ensures |Layout(es)| == EntriesSize(es) + 22
  {
    EndRecordIn(es);
    EntriesSizeSplit(es);
  }

  /** When every size fits its field, the offset stored in entry `k`'s central record is
      exactly where that entry's local header starts. */
  lemma CentralOffsetPointsAtLocal(es: seq<Entry>, k: nat, q: nat)
    requires WellSized(es) && k < |es| && q == LocalSize(es) + CentralSize(es[..k])
    ensures HasCentralRecord(Layout(es), q, es[k].name, |es[k].data|, LocalSize(es[..k]))
    ensures LocalSize(es[..k]) < Two32
    ensures HasLocalHeader(Layout(es), LocalSize(es[..k]), es[k].name, |es[k].data|)
  {
    CentralRecordFields(es, k, q);
    LocalHeaderFields(es, k, LocalSize(es[..k]));
  }

  /** The stored bytes of a file are its UTF-8 text, behind a byte-order mark exactly when
      the name ends in ".csv"; decoding them gives the text back. */
  lemma ContentBytesDecode(f: File)
    ensures var d := ContentBytes(f);
            if EndsWith(f.name, ".csv")
            then |d| >= 3 && d[..3] == Bom && Utf8.Decode(d[3..]) == Some(f.content)
            else Utf8.Decode(d) == Some(f.content)
  {
    Utf8.DecodeEncode(f.content);
    if EndsWith(f.name, ".csv") {
      assert ContentBytes(f)[3..] == Utf8.Encode(f.content);
    }
  }
}
