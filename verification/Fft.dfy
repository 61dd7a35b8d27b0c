/** The in-place radix-2 transform of filesystem/demos/audioFFT/fft.c.

    Floats are exact: complex numbers are pairs of reals, and the pair
    (cos, sin) of the angle 2*pi*k/n is a parameter `w(k, n)` of which only the laws
    in `RootsOfUnity` are used. */
module Fft {

  datatype Complex = Complex(re: real, im: real)

  const ZERO := Complex(0.0, 0.0)
  const ONE := Complex(1.0, 0.0)
  const MINUS_ONE := Complex(-1.0, 0.0)

  function Add(a: Complex, b: Complex): Complex { Complex(a.re + b.re, a.im + b.im) }

  function Sub(a: Complex, b: Complex): Complex { Complex(a.re - b.re, a.im - b.im) }

  function Mul(a: Complex, b: Complex): Complex {
    Complex(a.re * b.re - a.im * b.im, a.re * b.im + a.im * b.re)
  }

  type Twiddle = (nat, nat) -> Complex

  /** What the proofs use of cos and sin: angle zero, angle addition, the same angle over a
      doubled denominator, and the half turn. */
  ghost predicate RootsOfUnity(w: Twiddle) {
    && (forall n: nat :: NoTurn(w, n))
    && (forall n: nat, a: nat, b: nat :: AnglesAdd(w, n, a, b))
    && (forall n: nat, a: nat :: SameAngle(w, n, a))
    && w(1, 2) == MINUS_ONE
  }

  ghost predicate NoTurn(w: Twiddle, n: nat) { w(0, n) == ONE }

  ghost predicate AnglesAdd(w: Twiddle, n: nat, a: nat, b: nat) { w(a + b, n) == Mul(w(a, n), w(b, n)) }

  ghost predicate SameAngle(w: Twiddle, n: nat, a: nat) { w(2 * a, 2 * n) == w(a, n) }

  // ---- The discrete Fourier transform, as a plain sum

  /** The first `m` terms of output number `k`. */
  ghost function DftSum(s: seq<Complex>, w: Twiddle, k: nat, m: nat): Complex
    requires m <= |s|
  {
    if m == 0 then ZERO
    else Add(DftSum(s, w, k, m - 1), Mul(s[m - 1], w((m - 1) * k, |s|)))
  }

  ghost function Dft(s: seq<Complex>, w: Twiddle): (r: seq<Complex>)
    ensures |r| == |s|
  {
    seq(|s|, k requires 0 <= k < |s| => DftSum(s, w, k, |s|))
  }

  ghost predicate PowerOfTwo(n: nat) {
    n == 1 || (n > 1 && n % 2 == 0 && PowerOfTwo(n / 2))
  }

  // ---- What one call of fft leaves in the data window, for any length

  function Evens(s: seq<Complex>): (r: seq<Complex>)
    ensures |r| == |s| / 2
  {
    seq(|s| / 2, i requires 0 <= i < |s| / 2 => s[2 * i])
  }

  function Odds(s: seq<Complex>): (r: seq<Complex>)
    ensures |r| == |s| / 2
  {
    seq(|s| / 2, i requires 0 <= i < |s| / 2 => s[2 * i + 1])
  }

  /** One cell after the butterfly loop: `e` and `o` are the transformed halves. An odd last
      cell keeps its input. */
  function Butterfly(s: seq<Complex>, e: seq<Complex>, o: seq<Complex>, w: Twiddle, k: nat): Complex
    requires |e| == |o| == |s| / 2 && k < |s|
  {
    var h := |s| / 2;
    if k < h then Add(e[k], Mul(w(k, |s|), o[k]))
    else if k < 2 * h then Sub(e[k - h], Mul(w(k - h, |s|), o[k - h]))
    else s[k]
  }

  function Transform(s: seq<Complex>, w: Twiddle): (r: seq<Complex>)
    ensures |r| == |s|
    decreases |s|
  {
    if |s| <= 1 then s
    else
      var e := Transform(Evens(s), w);
      var o := Transform(Odds(s), w);
      seq(|s|, k requires 0 <= k < |s| => Butterfly(s, e, o, w, k))
  }

  lemma TransformShort(s: seq<Complex>, w: Twiddle)
    requires |s| <= 1
    ensures Transform(s, w) == s
  {
  }

  lemma TransformIs(s: seq<Complex>, w: Twiddle, r: seq<Complex>)
    requires |r| == |s| > 1
    requires forall k :: 0 <= k < |s| ==> r[k] == Butterfly(s, Transform(Evens(s), w), Transform(Odds(s), w), w, k)
    ensures r == Transform(s, w)
  {
    hide Butterfly, Evens, Odds;
  }

  // ---- The method: two buffers that swap roles at each level

  /** `x + xo` and `scratch + so` are the two pointers of the source. */
  method Run(w: Twiddle, x: array<Complex>, xo: nat, n: nat, scratch: array<Complex>, so: nat)
    requires x != scratch
    requires xo + n <= x.Length && so + n <= scratch.Length
    modifies x, scratch
    ensures x[xo..xo + n] == Transform(old(x[xo..xo + n]), w)
    ensures forall i :: 0 <= i < x.Length && !(xo <= i < xo + n) ==> x[i] == old(x[i])
    ensures forall i :: 0 <= i < scratch.Length && !(so <= i < so + n) ==> scratch[i] == old(scratch[i])
    decreases n, 0
  {
    hide Mul, Add, Sub, Evens, Odds, DftSum, Transform, Butterfly;
    ghost var s := x[xo..xo + n];
    if n <= 1 {
      TransformShort(s, w);
      return;
    }
    var h := n / 2;
    Deinterleave(x, xo, n, scratch, so);
    TransformHalves(w, x, xo, h, scratch, so, Evens(s), Odds(s));
    assert n % 2 == 1 ==> x[xo + n - 1] == s[n - 1];
    ghost var e, o := Transform(Evens(s), w), Transform(Odds(s), w);
    Combine(w, x, xo, n, scratch, so, s, e, o);
    TransformIs(s, w, x[xo..xo + n]);
  }

  /** The two recursive calls: scratch holds their data, and x is the scratch of both. */
  method TransformHalves(w: Twiddle, x: array<Complex>, xo: nat, h: nat, scratch: array<Complex>, so: nat,
                         ghost evens: seq<Complex>, ghost odds: seq<Complex>)
    requires x != scratch && h > 0
    requires xo + 2 * h <= x.Length && so + 2 * h <= scratch.Length
    requires scratch[so..so + h] == evens && scratch[so + h..so + 2 * h] == odds
    modifies x, scratch
    ensures scratch[so..so + h] == Transform(evens, w)
    ensures scratch[so + h..so + 2 * h] == Transform(odds, w)
    ensures forall i :: 0 <= i < x.Length && !(xo <= i < xo + 2 * h) ==> x[i] == old(x[i])
    ensures forall i :: 0 <= i < scratch.Length && !(so <= i < so + 2 * h) ==> scratch[i] == old(scratch[i])
    decreases h, 1
  {
    hide *;
    Run(w, scratch, so, h, x, xo);
    assert scratch[so + h..so + 2 * h] == odds;
    ghost var e := scratch[so..so + h];
    Run(w, scratch, so + h, h, x, xo);
    assert scratch[so..so + h] == e;
    assert scratch[so + h..so + 2 * h] == scratch[so + h..so + h + h];
  }

  lemma ButterflyPair(s: seq<Complex>, e: seq<Complex>, o: seq<Complex>, w: Twiddle, k: nat)
    requires |e| == |o| == |s| / 2 && k < |s| / 2
    ensures Butterfly(s, e, o, w, k) == Add(e[k], Mul(w(k, |s|), o[k]))
    ensures Butterfly(s, e, o, w, |s| / 2 + k) == Sub(e[k], Mul(w(k, |s|), o[k]))
  {
  }

  lemma ButterflyLast(s: seq<Complex>, e: seq<Complex>, o: seq<Complex>, w: Twiddle)
    requires |e| == |o| == |s| / 2 && |s| % 2 == 1
    ensures Butterfly(s, e, o, w, |s| - 1) == s[|s| - 1]
  {
  }

  /** The butterfly loop: it reads the transformed halves from scratch. */
  method Combine(w: Twiddle, x: array<Complex>, xo: nat, n: nat, scratch: array<Complex>, so: nat,
                 ghost s: seq<Complex>, ghost e: seq<Complex>, ghost o: seq<Complex>)
    requires x != scratch
    requires xo + n <= x.Length && so + n <= scratch.Length
    requires |s| == n && |e| == |o| == n / 2
    requires scratch[so..so + n / 2] == e && scratch[so + n / 2..so + 2 * (n / 2)] == o
    requires n % 2 == 1 ==> x[xo + n - 1] == s[n - 1]
    modifies x
    ensures forall i :: xo <= i < xo + n ==> x[i] == Butterfly(s, e, o, w, i - xo)
    ensures forall i :: 0 <= i < x.Length && !(xo <= i < xo + n) ==> x[i] == old(x[i])
  {
    hide Mul, Add, Sub, Transform, DftSum, Evens, Odds, Butterfly;
    var h := n / 2;
    for k := 0 to h
      invariant forall i :: 0 <= i < x.Length ==>
                  x[i] == if xo <= i < xo + k || xo + h <= i < xo + h + k
                          then Butterfly(s, e, o, w, i - xo) else old(x[i])
    {
      assert scratch[so + k] == scratch[so..so + h][k] == e[k];
      assert scratch[so + h + k] == scratch[so + h..so + 2 * h][k] == o[k];
      ButterflyPair(s, e, o, w, k);
      var t := Mul(w(k, n), scratch[so + h + k]);
      x[xo + k] := Add(scratch[so + k], t);
      x[xo + h + k] := Sub(scratch[so + k], t);
    }
    if n % 2 == 1 { ButterflyLast(s, e, o, w); }
  }

  /** The copying loop at the top of fft. */
  method Deinterleave(x: array<Complex>, xo: nat, n: nat, scratch: array<Complex>, so: nat)
    requires x != scratch
    requires xo + n <= x.Length && so + n <= scratch.Length
    modifies scratch
    ensures scratch[so..so + n / 2] == Evens(x[xo..xo + n])
    ensures scratch[so + n / 2..so + 2 * (n / 2)] == Odds(x[xo..xo + n])
    ensures forall i :: 0 <= i < scratch.Length && !(so <= i < so + n) ==> scratch[i] == old(scratch[i])
  {
    hide Evens, Odds;
    var h := n / 2;
    ghost var s := x[xo..xo + n];
    for i := 0 to h
      invariant forall j :: 0 <= j < scratch.Length ==>
                  scratch[j] == if so <= j < so + i then Evens(s)[j - so]
                                else if so + h <= j < so + h + i then Odds(s)[j - so - h]
                                else old(scratch[j])
    {
      HalvesAt(s, i);
      assert x[xo + 2 * i] == s[2 * i] && x[xo + 2 * i + 1] == s[2 * i + 1];
      scratch[so + i] := x[xo + 2 * i];
      scratch[so + h + i] := x[xo + 2 * i + 1];
    }
  }

  lemma HalvesAt(s: seq<Complex>, i: nat)
    requires i < |s| / 2
    ensures Evens(s)[i] == s[2 * i] && Odds(s)[i] == s[2 * i + 1]
  {
  }

  // ---- Complex algebra

  lemma MulFacts(a: Complex, b: Complex, c: Complex)
    ensures Mul(a, b) == Mul(b, a)
    ensures Mul(a, Mul(b, c)) == Mul(Mul(a, b), c)
    ensures Mul(a, Add(b, c)) == Add(Mul(a, b), Mul(a, c))
    ensures Mul(a, ONE) == a && Mul(a, ZERO) == ZERO
    ensures Add(ZERO, a) == a
  {
  }

  lemma {:induction false} FullTurn(w: Twiddle, n: nat)
    requires RootsOfUnity(w) && PowerOfTwo(n)
    ensures w(n, n) == ONE && w(n, 2 * n) == MINUS_ONE
  {
    if n == 1 {
      assert AnglesAdd(w, 2, 1, 1) && SameAngle(w, 1, 1);
    } else {
      FullTurn(w, n / 2);
      assert SameAngle(w, n / 2, n / 2) && SameAngle(w, n, n / 2);
    }
  }

  lemma {:induction false} WholeTurns(w: Twiddle, n: nat, j: nat)
    requires RootsOfUnity(w) && w(n, n) == ONE
    ensures w(j * n, n) == ONE
  {
    hide Mul;
    if j == 0 {
      assert NoTurn(w, n);
    } else {
      WholeTurns(w, n, j - 1);
      assert (j - 1) * n + n == j * n;
      assert AnglesAdd(w, n, (j - 1) * n, n);
      MulFacts(ONE, ONE, ONE);
    }
  }

  /** A transform of length n repeats with period n. */
  lemma {:induction false} Periodic(s: seq<Complex>, w: Twiddle, k: nat, m: nat)
    requires RootsOfUnity(w) && PowerOfTwo(|s|) && m <= |s|
    ensures DftSum(s, w, k + |s|, m) == DftSum(s, w, k, m)
  {
    hide Mul, Add, SameAngle, NoTurn;
    if m > 0 {
      var n, j := |s|, m - 1;
      Periodic(s, w, k, j);
      FullTurn(w, n);
      WholeTurns(w, n, j);
      assert j * (k + n) == j * k + j * n;
      assert AnglesAdd(w, n, j * k, j * n);
      MulFacts(w(j * k, n), ONE, ONE);
    }
  }

  lemma PairAngles(w: Twiddle, n: nat, j: nat, k: nat)
    requires RootsOfUnity(w) && n % 2 == 0
    ensures w((2 * j) * k, n) == w(j * k, n / 2)
    ensures w((2 * j + 1) * k, n) == Mul(w(j * k, n / 2), w(k, n))
  {
    hide Mul;
    assert (2 * j) * k == 2 * (j * k);
    assert SameAngle(w, n / 2, j * k);
    assert (2 * j + 1) * k == (2 * j) * k + k;
    assert AnglesAdd(w, n, (2 * j) * k, k);
  }

  /** One even and one odd input more on both sides. */
  lemma {:induction false} SplitSum(s: seq<Complex>, w: Twiddle, k: nat, m: nat)
    requires RootsOfUnity(w) && |s| % 2 == 0 && 2 * m <= |s|
    ensures DftSum(s, w, k, 2 * m) ==
            Add(DftSum(Evens(s), w, k, m), Mul(w(k, |s|), DftSum(Odds(s), w, k, m)))
  {
    hide Mul, Add, PowerOfTwo, NoTurn, AnglesAdd, SameAngle;
    var n, e, o, u := |s|, Evens(s), Odds(s), w(k, |s|);
    if m == 0 {
      MulFacts(u, ZERO, ZERO);
      MulFacts(ZERO, ZERO, ZERO);
    } else {
      var j := m - 1;
      SplitSum(s, w, k, j);
      PairAngles(w, n, j, k);
      assert DftSum(s, w, k, 2 * j + 1) == Add(DftSum(s, w, k, 2 * j), Mul(e[j], w(j * k, n / 2)));
      assert DftSum(s, w, k, 2 * m) == Add(DftSum(s, w, k, 2 * j + 1), Mul(o[j], Mul(w(j * k, n / 2), u)));
      Regroup(DftSum(e, w, k, j), DftSum(o, w, k, j), u, e[j], o[j], w(j * k, n / 2));
    }
  }

  lemma Regroup(e: Complex, o: Complex, u: Complex, x: Complex, y: Complex, v: Complex)
    ensures Add(Add(Add(e, Mul(u, o)), Mul(x, v)), Mul(y, Mul(v, u)))
         == Add(Add(e, Mul(x, v)), Mul(u, Add(o, Mul(y, v))))
  {
    MulFacts(u, o, Mul(y, v));
    MulFacts(y, v, u);
    MulFacts(u, Mul(y, v), ZERO);
  }

  // ---- Main results

  /** On every power-of-two length the transform is the discrete Fourier transform. */
  lemma {:induction false} TransformIsDft(s: seq<Complex>, w: Twiddle)
    requires RootsOfUnity(w) && PowerOfTwo(|s|)
    ensures Transform(s, w) == Dft(s, w)
    decreases |s|
  {
    hide Transform, Dft, RootsOfUnity;
    if |s| == 1 {
      DftOfOne(s, w);
    } else {
      TransformIsDft(Evens(s), w);
      TransformIsDft(Odds(s), w);
      forall k | 0 <= k < |s| ensures Transform(s, w)[k] == Dft(s, w)[k] {
        TransformCell(s, w, k);
        DftCell(s, w, k);
      }
    }
  }

  lemma DftOfOne(s: seq<Complex>, w: Twiddle)
    requires RootsOfUnity(w) && |s| == 1
    ensures Transform(s, w) == Dft(s, w)
  {
    hide Mul, Add;
    assert NoTurn(w, 1) && DftSum(s, w, 0, 1) == Add(DftSum(s, w, 0, 0), Mul(s[0], w(0 * 0, 1)));
    MulFacts(s[0], ONE, ONE);
  }

  lemma TransformCell(s: seq<Complex>, w: Twiddle, k: nat)
    requires |s| > 1 && k < |s|
    ensures Transform(s, w)[k] == Butterfly(s, Transform(Evens(s), w), Transform(Odds(s), w), w, k)
  {
    hide Butterfly, Evens, Odds;
  }

  /** One output of the Fourier sum from those of its halves. */
  lemma DftCell(s: seq<Complex>, w: Twiddle, k: nat)
    requires RootsOfUnity(w) && PowerOfTwo(|s|) && |s| > 1 && k < |s|
    ensures Dft(s, w)[k] == Butterfly(s, Dft(Evens(s), w), Dft(Odds(s), w), w, k)
  {
    hide Dft, RootsOfUnity, Butterfly, Mul, Add, Sub, Evens, Odds;
    var h := |s| / 2;
    if k < h { LowerCell(s, w, k); } else { UpperCell(s, w, k - h); }
  }

  lemma LowerCell(s: seq<Complex>, w: Twiddle, l: nat)
    requires RootsOfUnity(w) && PowerOfTwo(|s|) && |s| > 1 && l < |s| / 2
    ensures Dft(s, w)[l] == Butterfly(s, Dft(Evens(s), w), Dft(Odds(s), w), w, l)
  {
    hide Mul, Add, Sub, Evens, Odds, Dft, DftSum, RootsOfUnity, Butterfly, PowerOfTwo;
    ButterflyPair(s, Dft(Evens(s), w), Dft(Odds(s), w), w, l);
    DftIsSum(s, w, l);
    DftIsSum(Evens(s), w, l);
    DftIsSum(Odds(s), w, l);
    EvenLength(|s|);
    SplitSum(s, w, l, |s| / 2);
  }

  lemma EvenLength(n: nat)
    requires PowerOfTwo(n) && n > 1
    ensures n % 2 == 0
  {
  }

  lemma UpperCell(s: seq<Complex>, w: Twiddle, l: nat)
    requires RootsOfUnity(w) && PowerOfTwo(|s|) && |s| > 1 && l < |s| / 2
    ensures Dft(s, w)[|s| / 2 + l] == Butterfly(s, Dft(Evens(s), w), Dft(Odds(s), w), w, |s| / 2 + l)
  {
    hide Mul, Add, Sub, Evens, Odds, Dft, DftSum, RootsOfUnity, Butterfly, PowerOfTwo;
    ButterflyPair(s, Dft(Evens(s), w), Dft(Odds(s), w), w, l);
    DftIsSum(s, w, |s| / 2 + l);
    DftIsSum(Evens(s), w, l);
    DftIsSum(Odds(s), w, l);
    UpperHalf(s, w, l);
  }

  lemma DftIsSum(s: seq<Complex>, w: Twiddle, k: nat)
    requires k < |s|
    ensures Dft(s, w)[k] == DftSum(s, w, k, |s|)
  {
  }

  /** In the upper half the odd sums come back with the opposite sign. */
  lemma UpperHalf(s: seq<Complex>, w: Twiddle, l: nat)
    requires RootsOfUnity(w) && PowerOfTwo(|s|) && |s| > 1
    ensures var h := |s| / 2;
            DftSum(s, w, l + h, |s|) ==
            Sub(DftSum(Evens(s), w, l, h), Mul(w(l, |s|), DftSum(Odds(s), w, l, h)))
  {
    hide Mul, Add, Sub, DftSum, Evens, Odds;
    var n, h, e, o := |s|, |s| / 2, Evens(s), Odds(s);
    SplitSum(s, w, l + h, h);
    Periodic(e, w, l, h);
    Periodic(o, w, l, h);
    FullTurn(w, h);
    assert AnglesAdd(w, n, l, h);
    Negate(w(l, n), DftSum(o, w, l, h), DftSum(e, w, l, h));
  }

  lemma Negate(u: Complex, o: Complex, e: Complex)
    ensures Add(e, Mul(Mul(u, MINUS_ONE), o)) == Sub(e, Mul(u, o))
  {
  }

  /** The signal that is one at time zero. */
  function Impulse(n: nat): (s: seq<Complex>)
    requires n > 0
    ensures |s| == n
  {
    seq(n, i => if i == 0 then ONE else ZERO)
  }

  lemma {:induction false} SilentSum(s: seq<Complex>, w: Twiddle, k: nat, m: nat)
    requires RootsOfUnity(w) && 0 < m <= |s| && s == Impulse(|s|)
    ensures DftSum(s, w, k, m) == ONE
  {
    hide Mul;
    if m == 1 {
      assert NoTurn(w, |s|) && DftSum(s, w, k, 1) == Add(DftSum(s, w, k, 0), Mul(s[0], w(0 * k, |s|)));
      MulFacts(ONE, ONE, ONE);
    } else {
      SilentSum(s, w, k, m - 1);
      var u := w((m - 1) * k, |s|);
      assert Mul(s[m - 1], u) == ZERO by { MulFacts(u, ZERO, ZERO); MulFacts(ZERO, u, ZERO); }
    }
  }

  lemma {:induction false} SilentTransform(s: seq<Complex>, w: Twiddle)
    requires forall i :: 0 <= i < |s| ==> s[i] == ZERO
    ensures forall i :: 0 <= i < |s| ==> Transform(s, w)[i] == ZERO
    decreases |s|
  {
    if |s| > 1 {
      SilentTransform(Evens(s), w);
      SilentTransform(Odds(s), w);
      forall k | 0 <= k < |s| ensures Transform(s, w)[k] == ZERO {
        MulFacts(w(k, |s|), ZERO, ZERO);
        if |s| / 2 <= k { MulFacts(w(k - |s| / 2, |s|), ZERO, ZERO); }
      }
    }
  }

  /** On any other length the impulse leaves a zero cell, where its Fourier transform is one. */
  lemma {:induction false} ImpulseLeavesZero(n: nat, w: Twiddle) returns (k: nat)
    requires n > 0 && !PowerOfTwo(n)
    ensures k < n && Transform(Impulse(n), w)[k] == ZERO
    decreases n
  {
    var s := Impulse(n);
    if n % 2 == 1 {
      k := n - 1;
    } else {
      k := ImpulseLeavesZero(n / 2, w);
      assert Evens(s) == Impulse(n / 2);
      SilentTransform(Odds(s), w);
      MulFacts(w(k, n), ZERO, ZERO);
      assert Transform(s, w)[k] == Butterfly(s, Transform(Evens(s), w), Transform(Odds(s), w), w, k);
    }
  }

  /** fft computes the discrete Fourier transform of all inputs of a length exactly when
      that length is a power of two. */
  lemma {:induction false} ExactLengths(n: nat, w: Twiddle)
    requires RootsOfUnity(w) && n > 0
    ensures (forall s: seq<Complex> :: |s| == n ==> Transform(s, w) == Dft(s, w)) <==> PowerOfTwo(n)
  {
    if PowerOfTwo(n) {
      forall s: seq<Complex> | |s| == n ensures Transform(s, w) == Dft(s, w) {
        TransformIsDft(s, w);
      }
    } else {
      var k := ImpulseLeavesZero(n, w);
      SilentSum(Impulse(n), w, k, n);
      assert Dft(Impulse(n), w)[k] == ONE;
    }
  }

  // ---- Entry point

  /** Left channel of interleaved stereo, or the mono samples, as a complex signal. */
  function Signal(samples: seq<real>, n: nat, dual: bool): (s: seq<Complex>)
    requires (if dual then 2 * n else n) <= |samples|
  {
    seq(n, i requires 0 <= i < n => Complex(samples[if dual then 2 * i else i], 0.0))
  }

  /** Samples of two channels, alternating. */
  function Interleaved(left: seq<real>, right: seq<real>): (r: seq<real>)
    requires |left| == |right|
    ensures |r| == 2 * |left|
  {
    seq(2 * |left|, i requires 0 <= i < 2 * |left| => if i % 2 == 0 then left[i / 2] else right[i / 2])
  }

  /** Of two channels the first one is taken, of one channel every sample, as real parts. */
  lemma FirstChannel(left: seq<real>, right: seq<real>, n: nat)
    requires n <= |left| == |right|
    ensures Signal(Interleaved(left, right), n, true) == Signal(left, n, false)
    ensures forall i :: 0 <= i < n ==> Signal(left, n, false)[i].re == left[i] && Signal(left, n, false)[i].im == 0.0
  {
  }

  /** fft_from_audio: fill the signal buffer, then transform it with the shared workspace. */
  method FromAudio(w: Twiddle, samples: array<real>, signal: array<Complex>, n: nat, dual: bool,
                   workspace: array<Complex>)
    requires RootsOfUnity(w) && signal != workspace
    requires n <= signal.Length && n <= workspace.Length
    requires (if dual then 2 * n else n) <= samples.Length
    modifies signal, workspace
    ensures signal[..n] == Transform(Signal(samples[..], n, dual), w)
    ensures PowerOfTwo(n) ==> signal[..n] == Dft(Signal(samples[..], n, dual), w)
    ensures signal[n..] == old(signal[n..]) && workspace[n..] == old(workspace[n..])
  {
    hide Mul, Add, Sub, RootsOfUnity, Transform, Dft, PowerOfTwo;
    ghost var s := Signal(samples[..], n, dual);
    for i := 0 to n
      invariant signal[..i] == s[..i]
      invariant signal[n..] == old(signal[n..]) && workspace[..] == old(workspace[..])
    {
      signal[i] := Complex(if dual then samples[2 * i] else samples[i], 0.0);
      assert signal[..i + 1] == signal[..i] + [s[i]];
    }
    assert signal[0..0 + n] == s;
    Run(w, signal, 0, n, workspace, 0);
    assert signal[0..0 + n] == signal[..n];
    assert workspace[n..] == old(workspace[..])[n..];
    if PowerOfTwo(n) { TransformIsDft(s, w); }
  }
}
