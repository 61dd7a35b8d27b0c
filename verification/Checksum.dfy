/** The Internet checksum, computed twice: src/networking/checksum.c folds a 32-bit sum in two
    steps and swaps the bytes, src/networking/ip.c folds until nothing is left to fold. The checksum
    is that of RFC 1071, section 1; the header it protects that of RFC 791, section 3.1. */
module Checksum {
  import opened Arithmetic
  import opened Bytes

  const MODULUS: nat := 0xFFFF

  // ---- Sums

  /** The exact sum of the little-endian words of the data, an odd last byte counting as itself. */
  function WordSum(data: seq<byte>): nat {
    if |data| == 0 then 0
    else if |data| == 1 then data[0]
    else U16(data, 0) + WordSum(data[2..])
  }

  /** The same in network order, an odd last byte padded with a zero as RFC 1071 asks. */
  function NetworkSum(data: seq<byte>): nat {
    if |data| == 0 then 0
    else if |data| == 1 then 256 * data[0]
    else 256 * data[0] + data[1] + NetworkSum(data[2..])
  }

  lemma Carry(a: nat, b: nat, rest: nat)
    ensures ((a + b) % TWO32 + rest) % TWO32 == (a + (b + rest)) % TWO32
  {
  }

  lemma WordSumNext(data: seq<byte>, p: nat)
    requires p + 1 < |data|
    ensures WordSum(data[p..]) == U16(data, p) + WordSum(data[p + 2..])
  {
    assert data[p..][2..] == data[p + 2..];
  }

  lemma WordSumEnd(data: seq<byte>, p: nat)
    requires p <= |data| <= p + 1
    ensures WordSum(data[p..]) == if p < |data| then data[p] else 0
  {
    if p < |data| { assert data[p..] == [data[p]]; }
  }

  /** `NetChecksumAcc`. */
  method NetChecksumAcc(data: seq<byte>, sum: nat) returns (r: nat)
    requires sum < TWO32
    ensures r == (sum + WordSum(data)) % TWO32
  {
    hide U16, WordSum;
    r := sum;
    var p: nat := 0;
    while |data| - p > 1
      invariant p <= |data| && r < TWO32
      invariant (sum + WordSum(data)) % TWO32 == (r + WordSum(data[p..])) % TWO32
    {
      WordSumNext(data, p);
      Carry(r, U16(data, p), WordSum(data[p + 2..]));
      r := (r + U16(data, p)) % TWO32;
      p := p + 2;
    }
    WordSumEnd(data, p);
    if p < |data| { r := (r + data[p]) % TWO32; }
  }

  /** Accumulating in pieces is accumulating at once when every piece but the last has even length. */
  lemma {:induction false} SumSplits(a: seq<byte>, b: seq<byte>)
    requires |a| % 2 == 0
    ensures WordSum(a + b) == WordSum(a) + WordSum(b)
    ensures NetworkSum(a + b) == NetworkSum(a) + NetworkSum(b)
  {
    if a == [] {
      assert a + b == b;
    } else {
      assert (a + b)[2..] == a[2..] + b;
      SumSplits(a[2..], b);
    }
  }

  // ---- Folding

  /** The one's complement value of a sum: its residue modulo 0xFFFF, where only 0 gives 0. */
  function Folded(sum: nat): (r: nat)
    ensures r < TWO16
  {
    if sum == 0 then 0 else (sum - 1) % MODULUS + 1
  }

  lemma FoldOnce(sum: nat)
    ensures Folded(sum % TWO16 + sum / TWO16) == Folded(sum)
  {
    if sum > 0 {
      var s := sum % TWO16 + sum / TWO16;
      assert sum - 1 == s - 1 + MODULUS * (sum / TWO16);
      ShiftMod(s - 1, MODULUS, sum / TWO16);
    }
  }

  /** Two sums with the same residue that are both zero or both not fold alike. */
  lemma FoldsAlike(a: nat, b: nat, q: int)
    requires a == b + MODULUS * q && (a == 0 <==> b == 0)
    ensures Folded(a) == Folded(b)
  {
    if a > 0 { ShiftMod(b - 1, MODULUS, q); }
  }

  /** The loop of `ipv4_calculate_checksum`: fold while there is a carry. */
  method FoldAll(sum: nat) returns (r: nat)
    requires sum < TWO32
    ensures r == Folded(sum)
  {
    r := sum;
    while r / TWO16 != 0
      invariant Folded(r) == Folded(sum)
      decreases r
    {
      FoldOnce(r);
      r := r % TWO16 + r / TWO16;
    }
  }

  function Swapped(w: nat): (r: nat)
    requires w < TWO16
    ensures r < TWO16
  {
    w % 256 * 256 + w / 256
  }

  /** `NetChecksumFinal`: two folds, complement, swap. For every 32-bit sum the two folds agree with
      folding until no carry is left. */
  method NetChecksumFinal(sum: nat) returns (r: nat)
    requires sum < TWO32
    ensures r == Swapped(MODULUS - Folded(sum))
  {
    var once := sum % TWO16 + sum / TWO16;
    var twice := once + once / TWO16;
    FoldOnce(sum);
    TwoFoldsSuffice(once);
    var temp := MODULUS - twice % TWO16;
    r := temp % 256 * 256 + temp / 256;
  }

  lemma TwoFoldsSuffice(once: nat)
    requires once <= 2 * MODULUS
    ensures (once + once / TWO16) % TWO16 == Folded(once)
  {
  }

  // ---- Byte order

  lemma SwapIsTimes256(w: nat)
    requires w < TWO16
    ensures 256 * w == Swapped(w) + MODULUS * (w / 256)
    ensures w == 0 <==> Swapped(w) == 0
  {
  }

  /** The little-endian sum, times 256, is the network sum up to carries. */
  lemma {:induction false} NetworkSumIs(data: seq<byte>) returns (q: nat)
    ensures 256 * WordSum(data) == NetworkSum(data) + MODULUS * q
    ensures WordSum(data) == 0 <==> NetworkSum(data) == 0
  {
    if |data| < 2 {
      q := 0;
    } else {
      var rest := NetworkSumIs(data[2..]);
      SwapIsTimes256(U16(data, 0));
      q := data[1] + rest;
    }
  }

  /** Swapping the folded sum is folding the sum in the other byte order. */
  lemma SwapFolds(data: seq<byte>)
    ensures Swapped(Folded(WordSum(data))) == Folded(NetworkSum(data))
  {
    hide WordSum, NetworkSum;
    var q := NetworkSumIs(data);
    SwapFoldsSum(WordSum(data), NetworkSum(data), q);
  }

  lemma SwapFoldsSum(s: nat, n: nat, q: int)
    requires 256 * s == n + MODULUS * q && (s == 0 <==> n == 0)
    ensures Swapped(Folded(s)) == Folded(n)
  {
    hide Swapped;
    if s > 0 {
      var f, k := Folded(s), (s - 1) / MODULUS;
      assert s == f + MODULUS * k;
      SwapIsTimes256(f);
      var t := 256 * k - q + f / 256;
      assert n == Swapped(f) + MODULUS * t;
      FoldsAlike(n, Swapped(f), t);
      assert Folded(Swapped(f)) == Swapped(f);
    } else {
      SwapIsTimes256(0);
    }
  }

  lemma ComplementSwaps(w: nat)
    requires w < TWO16
    ensures Swapped(MODULUS - w) == MODULUS - Swapped(w)
  {
  }

  lemma {:induction false} WordSumBound(data: seq<byte>)
    ensures WordSum(data) <= MODULUS * ((|data| + 1) / 2)
  {
    if |data| >= 2 { WordSumBound(data[2..]); }
  }

  /** The longest data whose sum cannot overflow the 32-bit accumulator, in bytes. */
  const LONGEST: nat := 0x20002

  /** Overflow of the accumulator drops a multiple of 2^32; that does not show exactly when the number
      of overflows is a multiple of 0xFFFF and they do not leave a zero. */
  predicate OverflowHidden(sum: nat) {
    sum / TWO32 % MODULUS == 0 && (sum % TWO32 == 0 ==> sum == 0)
  }

  lemma OverflowShows(sum: nat)
    ensures Folded(sum % TWO32) == Folded(sum) <==> OverflowHidden(sum)
  {
    var q, low := sum / TWO32, sum % TWO32;
    assert sum == low + q + MODULUS * (65537 * q);
    if low > 0 {
      FoldsAlike(sum, low + q, 65537 * q);
      SameResidue(low - 1, low - 1 + q, MODULUS);
    } else if sum > 0 {
      assert Folded(sum) > 0;
    }
  }

  lemma {:induction false} WordsOf255(k: nat)
    ensures WordSum(seq(2 * k, _ => 255)) == MODULUS * k
  {
    if k > 0 {
      var data := seq(2 * k, _ => 255);
      assert data[2..] == seq(2 * (k - 1), _ => 255);
      assert U16(data, 0) == MODULUS;
      WordsOf255(k - 1);
    }
  }

  /** Two bytes more than LONGEST, all of them 255: the overflow shows. */
  lemma OverflowHappens()
    ensures !OverflowHidden(WordSum(seq(LONGEST + 2, _ => 255)))
  {
    hide WordSum;
    WordsOf255(0x10002);
  }

  lemma SwapInjective(v: nat, w: nat)
    requires v < TWO16 && w < TWO16
    ensures Swapped(v) == Swapped(w) <==> v == w
  {
    hide Swapped;
    SwapTwice(v);
    SwapTwice(w);
  }

  lemma SwapTwice(v: nat)
    requires v < TWO16
    ensures Swapped(Swapped(v)) == v
  {
    QuotientIs(Swapped(v), 256, v % 256, v / 256);
  }

  /** `NetChecksum` is the checksum of RFC 1071 of the data in network order, exactly when no overflow
      of the accumulator shows; for data up to LONGEST bytes there is none. */
  method NetChecksum(data: seq<byte>) returns (r: nat)
    ensures r == MODULUS - Folded(NetworkSum(data)) <==> OverflowHidden(WordSum(data))
    ensures |data| <= LONGEST ==> r == MODULUS - Folded(NetworkSum(data))
  {
    hide Folded, Swapped, WordSum, NetworkSum, OverflowHidden;
    var sum := NetChecksumAcc(data, 0);
    r := NetChecksumFinal(sum);
    ComplementSwaps(Folded(WordSum(data)));
    SwapFolds(data);
    SwapInjective(MODULUS - Folded(sum), MODULUS - Folded(WordSum(data)));
    OverflowShows(WordSum(data));
    if |data| <= LONGEST { ShortFits(data); }
  }

  lemma ShortFits(data: seq<byte>)
    requires |data| <= LONGEST
    ensures OverflowHidden(WordSum(data))
  {
    hide WordSum;
    WordSumBound(data);
  }

  // ---- The header of an IPv4 packet

  const HEADER: nat := 20
  const FIELD: nat := 10

  lemma NextWord(data: seq<byte>, at: nat)
    requires at % 2 == 0 && at + 2 <= |data|
    ensures WordSum(data[..at + 2]) == WordSum(data[..at]) + U16(data, at)
  {
    var word := data[at..at + 2];
    SumSplits(data[..at], word);
    assert data[..at + 2] == data[..at] + word;
    assert word[2..] == [] && U16(word, 0) == U16(data, at);
  }

  lemma SameU16(data: seq<byte>, n: nat, at: nat)
    requires at + 2 <= n <= |data|
    ensures U16(data[..n], at) == U16(data, at)
  {
  }

  /** `ipv4_calculate_checksum`. */
  method HeaderChecksum(packet: array<byte>) returns (r: nat)
    requires packet.Length >= HEADER
    ensures r == MODULUS - Folded(WordSum(packet[..HEADER])) && r < TWO16
  {
    hide U16, Folded;
    var checksum: nat := 0;
    var i: nat := 0;
    ghost var header := packet[..HEADER];
    assert WordSum(header[..0]) == 0;
    hide WordSum;
    while i < HEADER / 2
      invariant i <= HEADER / 2 && checksum == WordSum(header[..2 * i]) <= MODULUS * i
    {
      NextWord(header, 2 * i);
      assert U16(packet[..], 2 * i) == U16(header, 2 * i) by { SameU16(packet[..], HEADER, 2 * i); }
      checksum := (checksum + U16(packet[..], 2 * i)) % TWO32;
      i := i + 1;
    }
    assert header[..HEADER] == header;
    checksum := FoldAll(checksum);
    r := MODULUS - checksum;
  }

  /** The part of `ipv4_send_packet` that clears the field, sums, and stores. */
  method StoreChecksum(packet: array<byte>)
    requires packet.Length >= HEADER
    modifies packet
    ensures Folded(WordSum(packet[..HEADER])) == MODULUS
    ensures packet[..FIELD] == old(packet[..FIELD]) && packet[FIELD + 2..] == old(packet[FIELD + 2..])
  {
    packet[FIELD], packet[FIELD + 1] := 0, 0;
    ghost var clear := packet[..HEADER];
    var c := HeaderChecksum(packet);
    packet[FIELD], packet[FIELD + 1] := c % 256, c / 256;
    assert packet[..HEADER] == WithField(clear, c);
    FieldAdds(clear, 0);
    FieldAdds(clear, c);
    assert WithField(clear, 0) == clear;
    HeaderAccepted(clear, c);
  }

  function WithField(header: seq<byte>, w: nat): (r: seq<byte>)
    requires |header| == HEADER && w < TWO16
    ensures |r| == HEADER
  {
    header[FIELD := w % 256][FIELD + 1 := w / 256]
  }

  lemma FieldAdds(header: seq<byte>, w: nat)
    requires |header| == HEADER && w < TWO16
    ensures WordSum(WithField(header, w)) == WordSum(header[..FIELD]) + w + WordSum(header[FIELD + 2..])
  {
    var field: seq<byte> := [w % 256, w / 256];
    assert WithField(header, w) == header[..FIELD] + (field + header[FIELD + 2..]);
    SumSplits(header[..FIELD], field + header[FIELD + 2..]);
    SumSplits(field, header[FIELD + 2..]);
    assert field[2..] == [] && U16(field, 0) == w;
  }

  /** A header adds up to 0xFFFF exactly when its field holds the checksum of the header with the
      field cleared, the two zeros of one's complement being the same. */
  lemma HeaderAccepted(header: seq<byte>, w: nat)
    requires |header| == HEADER && w < TWO16
    ensures var c := MODULUS - Folded(WordSum(WithField(header, 0)));
            Folded(WordSum(WithField(header, w))) == MODULUS <==> w == c || (c == 0 && w == MODULUS)
  {
    FieldAdds(header, 0);
    FieldAdds(header, w);
    SumAccepted(WordSum(WithField(header, 0)), w);
  }

  lemma SumAccepted(s: nat, w: nat)
    requires w < TWO16
    ensures Folded(s + w) == MODULUS
       <==> w == MODULUS - Folded(s) || (MODULUS - Folded(s) == 0 && w == MODULUS)
  {
    if s > 0 {
      var q, f := (s - 1) / MODULUS, Folded(s);
      assert s + w == f + w + MODULUS * q;
      FoldsAlike(s + w, f + w, q);
    }
  }
}
