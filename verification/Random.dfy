/** The linear congruential generator of src/drivers/random.c, with `unsigned long`
    32 bits wide as its comment says. */
module Random {
  import opened Arithmetic

  const MODULUS: nat := 0x1_0000_0000
  const MULTIPLIER: nat := 1103515245
  const INCREMENT: nat := 12345

  function Step(next: nat): nat { (next * MULTIPLIER + INCREMENT) % MODULUS }

  function Output(next: nat): nat { (next / 65536) % 32768 }

  class Generator {
    var next: nat

    ghost predicate Valid()
      reads this
    {
      next < MODULUS
    }

    constructor ()
      ensures Valid() && next == 1
    {
      next := 1;
    }

    method Rand() returns (r: nat)
      modifies this
      ensures Valid() && next == Step(old(next)) && r == Output(next)
      ensures r < 32768
    {
      next := (next * MULTIPLIER + INCREMENT) % MODULUS;
      r := (next / 65536) % 32768;
    }

    method Srand(seed: nat)
      requires seed < MODULUS
      modifies this
      ensures Valid() && next == seed
    {
      next := seed;
    }
  }

  /** The state after `n` calls of rand on a generator seeded with `seed`. */
  function State(seed: nat, n: nat): nat {
    if n == 0 then seed else Step(State(seed, n - 1))
  }

  // ---- Powers of two

  function Pow2(k: nat): (p: nat)
    ensures p > 0
  {
    if k == 0 then 1 else 2 * Pow2(k - 1)
  }

  /** 2^k divides x, one halving at a time. */
  predicate Divides2(k: nat, x: int) {
    k == 0 || (x % 2 == 0 && Divides2(k - 1, x / 2))
  }

  lemma {:induction false} DividesMeansMod(k: nat, x: int)
    ensures Divides2(k, x) <==> x % Pow2(k) == 0
  {
    if k > 0 {
      DividesMeansMod(k - 1, x / 2);
      HalveMod(x, Pow2(k - 1));
    }
  }

  lemma HalveMod(x: int, p: nat)
    requires p > 0
    ensures x % (2 * p) == 0 <==> x % 2 == 0 && (x / 2) % p == 0
  {
    if x % (2 * p) == 0 {
      var q := x / (2 * p);
      assert x == 2 * p * q == 2 * (p * q);
      assert x / 2 == p * q;
      MultipleMod(p, q);
    }
    if x % 2 == 0 && (x / 2) % p == 0 {
      var q := (x / 2) / p;
      assert x == 2 * (p * q) == (2 * p) * q;
      MultipleMod(2 * p, q);
    }
  }

  lemma {:induction false} OddFactor(k: nat, x: int, odd: int)
    requires odd % 2 == 1
    ensures Divides2(k, x * odd) <==> Divides2(k, x)
  {
    if k > 0 {
      var h, o := x / 2, odd / 2;
      if x % 2 == 0 {
        assert x * odd == 2 * (h * odd);
        OddFactor(k - 1, h, odd);
      } else {
        assert x * odd == 2 * (h * odd + o) + 1 by { assert x == 2 * h + 1 && odd == 2 * o + 1; }
      }
    }
  }

  // ---- The recurrence over unbounded integers

  function Unreduced(x: int, n: nat): int {
    if n == 0 then x else Unreduced(x, n - 1) * MULTIPLIER + INCREMENT
  }

  /** 1 + a + ... + a^(d-1) for the multiplier a. */
  function Geometric(d: nat): int {
    if d == 0 then 0 else MULTIPLIER * Geometric(d - 1) + 1
  }

  lemma ModStep(u: int, x: int, m: nat)
    requires m > 0 && u % m == x % m
    ensures (u * MULTIPLIER + INCREMENT) % m == (x * MULTIPLIER + INCREMENT) % m
  {
    var q := u / m - x / m;
    assert u == x + m * q by { assert u == m * (u / m) + u % m && x == m * (x / m) + x % m; }
    var y := x * MULTIPLIER + INCREMENT;
    assert u * MULTIPLIER + INCREMENT == y + m * (q * MULTIPLIER);
    ShiftMod(y, m, q * MULTIPLIER);
  }

  lemma {:induction false} StateIsReduced(seed: nat, n: nat)
    requires seed < MODULUS
    ensures State(seed, n) == Unreduced(seed, n) % MODULUS
  {
    assert MODULUS > 0;
    hide MODULUS, MULTIPLIER, INCREMENT;
    if n > 0 {
      StateIsReduced(seed, n - 1);
      ModStep(Unreduced(seed, n - 1), State(seed, n - 1), MODULUS);
    }
  }

  lemma {:induction false} UnreducedSplit(x: int, m: nat, n: nat)
    ensures Unreduced(x, m + n) == Unreduced(Unreduced(x, m), n)
  {
    if n > 0 { UnreducedSplit(x, m, n - 1); }
  }

  lemma GeometricNext(d: nat)
    requires d > 0
    ensures Geometric(d) == MULTIPLIER * Geometric(d - 1) + 1
  {
  }

  lemma UnreducedNext(x: int, n: nat)
    requires n > 0
    ensures Unreduced(x, n) == Unreduced(x, n - 1) * MULTIPLIER + INCREMENT
  {
  }

  /** d steps move any state by a multiple of the geometric sum. */
  lemma {:induction false} Displacement(x: int, d: nat)
    ensures Unreduced(x, d) - x == Geometric(d) * ((MULTIPLIER - 1) * x + INCREMENT)
  {
    if d > 0 {
      hide Unreduced, Geometric, MULTIPLIER, INCREMENT;
      Displacement(x, d - 1);
      UnreducedNext(x, d);
      GeometricNext(d);
      DisplacementStep(MULTIPLIER, INCREMENT, x, Unreduced(x, d - 1), Geometric(d - 1));
    }
  }

  lemma DisplacementStep(a: int, c: int, x: int, u: int, g: int)
    requires u - x == g * ((a - 1) * x + c)
    ensures (u * a + c) - x == (a * g + 1) * ((a - 1) * x + c)
  {
    var t := (a - 1) * x + c;
    assert (a * g + 1) * t == a * (g * t) + t;
    assert u * a == x * a + (g * t) * a;
  }

  lemma {:induction false} GeometricSum(a: nat, b: nat)
    ensures Geometric(a + b) ==
            Geometric(a) + Geometric(b) + (MULTIPLIER - 1) * (Geometric(a) * Geometric(b))
  {
    if b > 0 {
      hide Geometric, MULTIPLIER;
      GeometricSum(a, b - 1);
      GeometricNext(a + b);
      GeometricNext(b);
      SumStep(MULTIPLIER, Geometric(a), Geometric(b - 1));
    }
  }

  lemma SumStep(m: int, g: int, h: int)
    ensures m * (g + h + (m - 1) * (g * h)) + 1 == g + (m * h + 1) + (m - 1) * (g * (m * h + 1))
  {
    var t := g * h;
    assert g * (m * h + 1) == m * t + g;
    assert (m - 1) * (m * t + g) == m * ((m - 1) * t) + (m - 1) * g;
  }

  lemma OddStep(a: int, g: int)
    requires a % 2 == 1
    ensures (a * g + 1) % 2 == 1 - g % 2
  {
    var h := a / 2;
    assert a * g == 2 * (h * g) + g;
    ShiftMod(g + 1, 2, h * g);
    NextParity(g);
  }

  lemma NextParity(x: int)
    ensures (x + 1) % 2 == 1 - x % 2
  {
  }

  lemma MultiplierIsOdd()
    ensures MULTIPLIER % 2 == 1 && INCREMENT % 2 == 1
  {
  }

  lemma ParityAlternates(d: nat)
    requires d > 0
    ensures Geometric(d) % 2 == 1 - Geometric(d - 1) % 2
  {
    hide Geometric, MULTIPLIER;
    GeometricNext(d);
    MultiplierIsOdd();
    OddStep(MULTIPLIER, Geometric(d - 1));
  }

  lemma {:induction false} GeometricParity(d: nat)
    ensures Geometric(d) % 2 == d % 2
  {
    if d > 0 {
      hide Geometric;
      GeometricParity(d - 1);
      ParityAlternates(d);
      NextParity(d - 1);
    }
  }

  lemma OddOffset(m: int, x: int, c: int)
    requires m % 2 == 0 && c % 2 == 1
    ensures (m * x + c) % 2 == 1
  {
    var h := m / 2;
    assert m * x == 2 * (h * x);
  }

  /** Half of the multiplier less one: itself even. */
  const HALF: nat := 551757622

  function Cofactor(m: nat): int { 1 + HALF * Geometric(m) }

  lemma GeometricDouble(m: nat)
    ensures Geometric(2 * m) == 2 * (Geometric(m) * Cofactor(m))
    ensures Cofactor(m) % 2 == 1
  {
    hide Geometric;
    GeometricSum(m, m);
    assert m + m == 2 * m;
    DoubleAlgebra(Geometric(m), HALF);
  }

  lemma DoubleAlgebra(g: int, h: int)
    requires h % 2 == 0
    ensures g + g + (2 * h) * (g * g) == 2 * (g * (1 + h * g))
    ensures (1 + h * g) % 2 == 1
  {
    var q := h / 2;
    assert h * g == 2 * (q * g);
    assert g * (1 + h * g) == g + h * (g * g);
  }

  /** The sum of d powers of the multiplier has as many factors of two as d. */
  lemma {:induction false} SameTwos(k: nat, d: nat)
    ensures Divides2(k, Geometric(d)) <==> Divides2(k, d)
  {
    hide Geometric, Cofactor;
    if k > 0 {
      GeometricParity(d);
      if d % 2 == 0 {
        var m := d / 2;
        GeometricDouble(m);
        OddFactor(k - 1, Geometric(m), Cofactor(m));
        SameTwos(k - 1, m);
      }
    }
  }

  lemma {:induction false} SmallModulus(x: int, k: nat)
    requires k <= 32
    ensures (x % MODULUS) % Pow2(k) == x % Pow2(k)
  {
    var q := Pow2Splits(k);
    ModOfMultiple(x, Pow2(k), q);
  }

  lemma ModOfMultiple(x: int, p: nat, q: nat)
    requires p * q > 0
    ensures p > 0 && (x % (p * q)) % p == x % p
  {
    var m := p * q;
    var t := x / m;
    assert m * t == p * (q * t);
    assert x % m == x - m * t;
    ShiftMod(x % m, p, q * t);
  }

  lemma Pow2Of32()
    ensures Pow2(32) == MODULUS
  {
    assert Pow2(8) == 256;
    assert Pow2(16) == 65536;
    assert Pow2(24) == 0x100_0000;
  }

  lemma Pow2Next(k: nat)
    ensures Pow2(k + 1) == 2 * Pow2(k)
  {
  }

  lemma {:induction false} Pow2Splits(k: nat) returns (q: nat)
    requires k <= 32
    ensures MODULUS == Pow2(k) * q
    decreases 32 - k
  {
    hide Pow2;
    if k == 32 {
      q := 1;
      Pow2Of32();
    } else {
      var r := Pow2Splits(k + 1);
      Pow2Next(k);
      q := 2 * r;
    }
  }

  /** The state that call number i produces, counting from zero. */
  function After(seed: nat, i: nat): nat { State(seed, i + 1) }

  // ---- Main results

  /** The low k bits of the state repeat with period 2^k and no earlier, from every seed. */
  lemma {:induction false} LowBitsPeriod(seed: nat, k: nat, i: nat, j: nat)
    requires seed < MODULUS && k <= 32 && i <= j
    ensures State(seed, i) % Pow2(k) == State(seed, j) % Pow2(k) <==> i % Pow2(k) == j % Pow2(k)
  {
    hide State, Unreduced, Divides2, Pow2, MODULUS;
    var d, p := j - i, Pow2(k);
    var x, y := Unreduced(seed, i), Unreduced(seed, j);
    StateIsReduced(seed, i);
    StateIsReduced(seed, j);
    SmallModulus(x, k);
    SmallModulus(y, k);
    SameResidue(x, y, p);
    SameResidue(i, j, p);
    UnreducedSplit(seed, i, d);
    DisplacedTwos(k, x, d);
    DividesMeansMod(k, y - x);
    DividesMeansMod(k, d);
  }

  /** d steps move a state by as many factors of two as d has. */
  lemma DisplacedTwos(k: nat, x: int, d: nat)
    ensures Divides2(k, Unreduced(x, d) - x) <==> Divides2(k, d)
  {
    hide Unreduced, Geometric, Divides2, MULTIPLIER, INCREMENT;
    Displacement(x, d);
    MultiplierIsOdd();
    OddOffset(MULTIPLIER - 1, x, INCREMENT);
    OddFactor(k, Geometric(d), (MULTIPLIER - 1) * x + INCREMENT);
    SameTwos(k, d);
  }

  /** Full period: the states of a run coincide exactly when their positions agree modulo 2^32. */
  lemma FullPeriod(seed: nat, i: nat, j: nat)
    requires seed < MODULUS
    ensures State(seed, i) == State(seed, j) <==> i % MODULUS == j % MODULUS
  {
    hide State;
    Pow2Of32();
    StateBounded(seed, i);
    StateBounded(seed, j);
    if i <= j { LowBitsPeriod(seed, 32, i, j); } else { LowBitsPeriod(seed, 32, j, i); }
  }

  lemma StateBounded(seed: nat, n: nat)
    requires seed < MODULUS
    ensures State(seed, n) < MODULUS
  {
  }

  // ---- Equidistribution

  ghost predicate IsBelow(i: nat, n: nat) { i < n }

  ghost function Below(n: nat): (s: set<nat>) { set i: nat | i < n && IsBelow(i, n) }

  lemma {:induction false} BelowSize(n: nat)
    ensures |Below(n)| == n
  {
    if n == 0 {
      assert Below(0) == {};
    } else {
      BelowSize(n - 1);
      assert Below(n) == Below(n - 1) + {n - 1};
    }
  }

  ghost predicate Injective(s: set<nat>, f: nat -> nat) {
    forall i, j :: i in s && j in s && f(i) == f(j) ==> i == j
  }

  ghost function Image(s: set<nat>, f: nat -> nat): set<nat> { set i | i in s :: f(i) }

  /** An injective map keeps the number of elements. */
  lemma {:induction false} ImageSize(s: set<nat>, f: nat -> nat)
    requires Injective(s, f)
    ensures |Image(s, f)| == |s|
  {
    if s == {} {
      assert Image(s, f) == {};
    } else {
      var i :| i in s;
      ImageSize(s - {i}, f);
      assert Image(s, f) == Image(s - {i}, f) + {f(i)};
      assert f(i) !in Image(s - {i}, f);
    }
  }

  lemma SubsetOfSameSize<T>(s: set<T>, t: set<T>)
    requires s <= t && |s| == |t|
    ensures s == t
  {
    assert t == s + (t - s);
    assert |t - s| == 0;
  }

  lemma AfterBounded(seed: nat, i: nat)
    requires seed < MODULUS
    ensures After(seed, i) < MODULUS
  {
    StateBounded(seed, i + 1);
  }

  lemma DistinctCalls(seed: nat, i: nat, j: nat)
    requires seed < MODULUS && i < MODULUS && j < MODULUS && After(seed, i) == After(seed, j)
    ensures i == j
  {
    hide State;
    FullPeriod(seed, i + 1, j + 1);
  }

  lemma InjectiveIsOnto(n: nat, f: nat -> nat)
    requires Injective(Below(n), f) && Image(Below(n), f) <= Below(n)
    ensures Image(Below(n), f) == Below(n)
  {
    hide Below, Injective, Image;
    ImageSize(Below(n), f);
    SubsetOfSameSize(Image(Below(n), f), Below(n));
  }

  /** What the calls of one period produce, as a map on call numbers. */
  ghost function Calls(seed: nat): nat -> nat { i => After(seed, i) }

  lemma PeriodIsAPermutation(seed: nat)
    requires seed < MODULUS
    ensures Injective(Below(MODULUS), Calls(seed)) && Image(Below(MODULUS), Calls(seed)) == Below(MODULUS)
  {
    hide State, Step, After, MODULUS;
    var f := Calls(seed);
    forall i, j | i in Below(MODULUS) && j in Below(MODULUS) && f(i) == f(j) ensures i == j {
      DistinctCalls(seed, i, j);
    }
    forall i | i in Below(MODULUS) ensures f(i) in Below(MODULUS) {
      AfterBounded(seed, i);
    }
    InjectiveIsOnto(MODULUS, f);
  }

  /** Call number `i` of a period, and no other, leaves the state `y`. */
  ghost predicate ReachedBy(seed: nat, i: nat, y: nat) {
    && i in Below(MODULUS) && After(seed, i) == y
    && forall j :: j in Below(MODULUS) && After(seed, j) == y ==> j == i
  }

  /** Every 32-bit value is the state after exactly one of 2^32 successive calls. */
  lemma EveryStateReached(seed: nat, y: nat)
    requires seed < MODULUS && y < MODULUS
    ensures exists i :: ReachedBy(seed, i, y)
  {
    hide State, Step, After, MODULUS, Image, Injective;
    PeriodIsAPermutation(seed);
    assert y in Image(Below(MODULUS), Calls(seed));
    var i := CallFor(seed, y);
    forall j | j in Below(MODULUS) && After(seed, j) == y ensures j == i { DistinctCalls(seed, i, j); }
    assert ReachedBy(seed, i, y);
  }

  lemma CallFor(seed: nat, y: nat) returns (i: nat)
    requires y in Image(Below(MODULUS), Calls(seed))
    ensures i in Below(MODULUS) && After(seed, i) == y
  {
    hide After, MODULUS, Below;
    i :| i in Below(MODULUS) && Calls(seed)(i) == y;
  }

  /** The calls of one period that return `v`. */
  ghost function CallsReturning(seed: nat, v: nat): set<nat> {
    set i | i in Below(MODULUS) && Output(After(seed, i)) == v
  }

  /** The states from which `v` is returned. */
  ghost function StatesReturning(v: nat): set<nat> { set x | x in Below(MODULUS) && Output(x) == v }

  /** Over any 2^32 successive calls, each value 0..32767 is returned exactly 2^17 times. */
  lemma Equidistributed(seed: nat, v: nat)
    requires seed < MODULUS && v < 32768
    ensures |CallsReturning(seed, v)| == 131072
  {
    hide State, Step, After, Output, Below, MODULUS;
    var calls, f := CallsReturning(seed, v), Calls(seed);
    PeriodIsAPermutation(seed);
    assert Injective(calls, f);
    assert Image(calls, f) == StatesReturning(v) by { CallsImage(seed, v); }
    ImageSize(calls, f);
    OutputClassSize(v);
  }

  lemma CallsImage(seed: nat, v: nat)
    requires seed < MODULUS
    ensures Image(CallsReturning(seed, v), Calls(seed)) == StatesReturning(v)
  {
    hide State, Step, After, Output, Below, MODULUS;
    var calls, f := CallsReturning(seed, v), Calls(seed);
    PeriodIsAPermutation(seed);
    forall y | y in StatesReturning(v) ensures y in Image(calls, f) {
      assert y in Image(Below(MODULUS), f);
      var i := CallFor(seed, y);
      assert i in calls && f(i) == y;
    }
    forall i | i in calls ensures f(i) in StatesReturning(v) { assert f(i) in Image(Below(MODULUS), f); }
  }

  lemma OutputClassSize(v: nat)
    requires v < 32768
    ensures |StatesReturning(v)| == 131072
  {
    hide Below, Output, Unplace, MODULUS;
    var all := Below(131072);
    var place: nat -> nat := n => Place(v, n);
    forall n | n in all ensures place(n) in StatesReturning(v) {
      PlaceInClass(v, n);
    }
    forall m, n | m in all && n in all && place(m) == place(n) ensures m == n {
      hide Place;
      PlaceInClass(v, m);
      PlaceInClass(v, n);
    }
    forall y | y in StatesReturning(v) ensures y in Image(all, place) {
      PlaceOf(v, y);
      assert place(Unplace(y)) == y;
    }
    assert Image(all, place) == StatesReturning(v);
    ImageSize(all, place);
    BelowSize(131072);
  }

  /** The states whose output is v, numbered: the top bit and the low 16 bits are free. */
  function Place(v: nat, n: nat): nat { (n / 65536) * 0x8000_0000 + v * 65536 + n % 65536 }

  function Unplace(x: nat): nat { (x / 0x8000_0000) * 65536 + x % 65536 }

  lemma PlaceInClass(v: nat, n: nat)
    requires v < 32768 && n in Below(131072)
    ensures Place(v, n) in Below(MODULUS) && Output(Place(v, n)) == v && Unplace(Place(v, n)) == n
  {
    var top, low := n / 65536, n % 65536;
    QuotientIs(Place(v, n), 65536, top * 32768 + v, low);
    QuotientIs(Place(v, n), 0x8000_0000, top, v * 65536 + low);
    QuotientIs(top * 32768 + v, 32768, top, v);
  }

  lemma PlaceOf(v: nat, x: nat)
    requires v < 32768 && x in Below(MODULUS) && Output(x) == v
    ensures Unplace(x) in Below(131072) && Place(v, Unplace(x)) == x
  {
    var low, mid := x % 65536, x / 65536;
    var top := mid / 32768;
    assert x == 0x8000_0000 * top + (65536 * v + low);
    QuotientIs(x, 0x8000_0000, top, 65536 * v + low);
    QuotientIs(Unplace(x), 65536, top, low);
  }
}
