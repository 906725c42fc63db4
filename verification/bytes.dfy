/** Bytes and the little-endian integer fields that `DataView.setUint16` and
    `DataView.setUint32` (with `littleEndian = true`) write. */
module Bytes {

  type Byte = b: int | 0 <= b < 256

  const Two16: nat := 0x1_0000
  const Two32: nat := 0x1_0000_0000

  /** The 16-bit little-endian encoding of `v`; like `setUint16`, only the low 16 bits survive. */
  function LE16(v: nat): (r: seq<Byte>)
    ensures |r| == 2
    ensures U16At(r, 0) == v % Two16
  {
    var w := v % Two16;
    [w % 256, w / 256]
  }

  /** The 32-bit little-endian encoding of `v`; like `setUint32`, only the low 32 bits survive. */
  function LE32(v: nat): (r: seq<Byte>)
    ensures |r| == 4
    ensures U32At(r, 0) == v % Two32
  {
    var w := v % Two32;
    var r := [w % 256, (w / 256) % 256, (w / 0x1_0000) % 256, w / 0x100_0000];
    assert w / 256 == (w / 256) % 256 + 256 * (w / 0x1_0000);
    assert w / 0x1_0000 == (w / 0x1_0000) % 256 + 256 * (w / 0x100_0000);
    r
  }

  /** The 16-bit little-endian value stored at `s[i..i+2]`. */
  function U16At(s: seq<Byte>, i: nat): nat
    requires i + 2 <= |s|
  {
    s[i] as int + 256 * (s[i + 1] as int)
  }

  /** The 32-bit little-endian value stored at `s[i..i+4]`. */
  function U32At(s: seq<Byte>, i: nat): nat
    requires i + 4 <= |s|
  {
    s[i] as int + 256 * (s[i + 1] as int) + 0x1_0000 * (s[i + 2] as int) + 0x100_0000 * (s[i + 3] as int)
  }

  /** A field read back from where `LE16(v)` was written yields `v` modulo 2^16. */
  lemma ReadLE16(s: seq<Byte>, i: nat, v: nat)
    requires i + 2 <= |s| && s[i..i + 2] == LE16(v)
    ensures U16At(s, i) == v % Two16
  {
    assert s[i] == LE16(v)[0] && s[i + 1] == LE16(v)[1];
  }

  /** A field read back from where `LE32(v)` was written yields `v` modulo 2^32. */
  lemma ReadLE32(s: seq<Byte>, i: nat, v: nat)
    requires i + 4 <= |s| && s[i..i + 4] == LE32(v)
    ensures U32At(s, i) == v % Two32
  {
    var r := LE32(v);
    assert s[i] == r[0] && s[i + 1] == r[1] && s[i + 2] == r[2] && s[i + 3] == r[3];
  }

  /** A 16-bit field read inside a copy of `r` placed at `p` is the field read in `r`. */
  lemma U16AtIn(s: seq<Byte>, p: nat, r: seq<Byte>, k: nat)
    requires p + |r| <= |s| && s[p..p + |r|] == r && k + 2 <= |r|
    ensures U16At(s, p + k) == U16At(r, k)
  {
    assert s[p + k] == r[k] && s[p + k + 1] == r[k + 1];
  }

  /** A 32-bit field read inside a copy of `r` placed at `p` is the field read in `r`. */
  lemma U32AtIn(s: seq<Byte>, p: nat, r: seq<Byte>, k: nat)
    requires p + |r| <= |s| && s[p..p + |r|] == r && k + 4 <= |r|
    ensures U32At(s, p + k) == U32At(r, k)
  {
    assert s[p + k] == r[k] && s[p + k + 1] == r[k + 1];
    assert s[p + k + 2] == r[k + 2] && s[p + k + 3] == r[k + 3];
  }
}
