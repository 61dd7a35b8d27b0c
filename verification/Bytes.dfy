/** Little-endian fields inside byte sequences, as the packed structures of the kernel store them. */
module Bytes {

  type byte = x: int | 0 <= x < 256

  const TWO16: nat := 0x1_0000
  const TWO32: nat := 0x1_0000_0000

  function Zeros(n: nat): (s: seq<byte>)
    ensures |s| == n
  {
    seq(n, _ => 0)
  }

  function U16(s: seq<byte>, i: nat): (v: nat)
    requires i + 2 <= |s|
    ensures v < TWO16
  {
    s[i] as int + 256 * (s[i + 1] as int)
  }

  function U32(s: seq<byte>, i: nat): (v: nat)
    requires i + 4 <= |s|
    ensures v < TWO32
  {
    U16(s, i) + TWO16 * U16(s, i + 2)
  }

  /** The number that the bytes are the digits of, to base 256, least significant first. */
  function Little(bytes: seq<byte>): nat {
    if bytes == [] then 0 else (bytes[0] as int) + 256 * Little(bytes[1..])
  }

  lemma LittleTwo(a: byte, b: byte)
    ensures Little([a, b]) == (a as int) + 256 * (b as int)
  {
    assert [a, b][1..] == [b] && [b][1..] == [];
    assert Little([b]) == b as int;
  }

  lemma LittleFour(a: byte, b: byte, c: byte, d: byte)
    ensures Little([a, b, c, d]) == Little([a, b]) + TWO16 * Little([c, d])
  {
    assert [a, b, c, d][1..] == [b, c, d] && [b, c, d][1..] == [c, d];
    assert Little([b, c, d]) == (b as int) + 256 * Little([c, d]);
    LittleTwo(a, b);
  }

  /** Fields have their least significant byte first. */
  lemma WordIsLittle(s: seq<byte>, i: nat)
    ensures i + 2 <= |s| ==> U16(s, i) == Little(s[i..i + 2])
    ensures i + 4 <= |s| ==> U32(s, i) == Little(s[i..i + 4])
  {
    hide Little;
    if i + 2 <= |s| {
      assert s[i..i + 2] == [s[i], s[i + 1]];
      LittleTwo(s[i], s[i + 1]);
    }
    if i + 4 <= |s| {
      assert s[i..i + 4] == [s[i], s[i + 1], s[i + 2], s[i + 3]];
      LittleTwo(s[i + 2], s[i + 3]);
      LittleFour(s[i], s[i + 1], s[i + 2], s[i + 3]);
    }
  }

  function Encode16(v: nat): (s: seq<byte>)
    requires v < TWO16
    ensures |s| == 2 && U16(s, 0) == v
  {
    [v % 256, v / 256]
  }

  function Encode32(v: nat): (s: seq<byte>)
    requires v < TWO32
    ensures |s| == 4 && U32(s, 0) == v
  {
    Encode16(v % TWO16) + Encode16(v / TWO16)
  }

  /** `s` with the bytes from `i` on replaced by `t`. */
  function Splice(s: seq<byte>, i: nat, t: seq<byte>): (r: seq<byte>)
    requires i + |t| <= |s|
    ensures |r| == |s|
    ensures forall k :: 0 <= k < |s| ==> r[k] == if i <= k < i + |t| then t[k - i] else s[k]
  {
    s[..i] + t + s[i + |t|..]
  }

  function PutU32(s: seq<byte>, i: nat, v: nat): (r: seq<byte>)
    requires i + 4 <= |s| && v < TWO32
    ensures |r| == |s| && U32(r, i) == v
    ensures forall k :: 0 <= k < |s| && !(i <= k < i + 4) ==> r[k] == s[k]
  {
    Splice(s, i, Encode32(v))
  }

  function PutU16(s: seq<byte>, i: nat, v: nat): (r: seq<byte>)
    requires i + 2 <= |s| && v < TWO16
    ensures |r| == |s| && U16(r, i) == v
    ensures forall k :: 0 <= k < |s| && !(i <= k < i + 2) ==> r[k] == s[k]
  {
    Splice(s, i, Encode16(v))
  }

  lemma HalfBytes(s: seq<byte>, t: seq<byte>, i: nat)
    requires i + 2 <= |s| == |t| && U16(s, i) == U16(t, i)
    ensures s[i] == t[i] && s[i + 1] == t[i + 1]
  {
  }

  /** A field determines its bytes. */
  lemma WordBytes(s: seq<byte>, t: seq<byte>, i: nat)
    requires i + 4 <= |s| == |t| && U32(s, i) == U32(t, i)
    ensures forall k :: i <= k < i + 4 ==> s[k] == t[k]
  {
    hide U16;
    HalfBytes(s, t, i);
    HalfBytes(s, t, i + 2);
  }

  lemma ZeroWord(s: seq<byte>, i: nat)
    requires i + 4 <= |s| && forall k :: i <= k < i + 4 ==> s[k] == 0
    ensures U32(s, i) == 0
  {
  }

  /** The C routine that copies a structure or block into a buffer. */
  method Copy(dest: array<byte>, at: nat, src: seq<byte>)
    requires at + |src| <= dest.Length
    modifies dest
    ensures dest[..] == Splice(old(dest[..]), at, src)
  {
    for i := 0 to |src|
      invariant forall k :: 0 <= k < dest.Length ==>
                  dest[k] == if at <= k < at + i then src[k - at] else old(dest[k])
    {
      dest[at + i] := src[i];
    }
    assert dest[..] == Splice(old(dest[..]), at, src);
  }
}
