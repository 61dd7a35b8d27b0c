/** The window list of src/desktop/viewport.c: which viewports are open and in which order they
    lie, front first. Sending an event to a viewport whose owner has died closes it, and closing
    one sends an event to the next, so the two call each other. */
module Viewports {
  import opened Options

  const MAX_VIEWPORTS := 100
  const HEADER_HEIGHT := 10

  datatype Event = Focused | Unfocused | Key | Exit | Minimize | Maximize | Click | Resize

  /** `handler` tells whether an event handler is installed; `owner` is the process id of the task
      that opened the viewport. */
  datatype Viewport = Viewport(
    x: int, y: int, w: int, h: int, minimized: bool, minimizedW: int, minimizedH: int,
    open: bool, title: string, owner: int, handler: bool, clicks: bool, resize: bool, plain: bool)
  {
    function Shut(): Viewport { this.(open := false, handler := false) }

    /** An event for this viewport finds no task any more. */
    predicate Gone(alive: set<int>) { handler && owner !in alive }

    predicate TitleHit(px: int, py: int) { !plain && x < px < x + w && y < py < y + HEADER_HEIGHT }

    predicate BodyHit(px: int, py: int) { x < px < x + w && y + HEADER_HEIGHT < py < y + h + HEADER_HEIGHT }

    predicate ResizeHit(px: int, py: int) { x + w < px < x + w + 8 && y + h + 10 < py < y + h + 18 }

    predicate Hit(px: int, py: int) {
      TitleHit(px, py) || BodyHit(px, py) || (ResizeHit(px, py) && resize && !minimized)
    }

    function Toggled(): Viewport {
      if !minimized then
        this.(minimized := true, minimizedW := w, minimizedH := h,
              w := 8 * (if |title| < 50 then |title| else 50) + 3 * 8, h := 8)
      else
        this.(minimized := false, w := minimizedW, h := minimizedH)
    }
  }

  /** `order` lists the open viewports, front first; `log` the calls of event handlers. */
  datatype Desktop = Desktop(order: seq<nat>, viewports: seq<Viewport>, log: seq<(nat, Event)>)

  // ---- Order

  function Position(order: seq<nat>, v: nat): (i: nat)
    ensures i <= |order| && v !in order[..i]
    ensures (i < |order| ==> order[i] == v) && (v in order ==> i < |order|)
  {
    if order == [] || order[0] == v then 0 else 1 + Position(order[1..], v)
  }

  function Without(order: seq<nat>, i: nat): (r: seq<nat>)
    requires i < |order|
    ensures |r| == |order| - 1
  {
    order[..i] + order[i + 1..]
  }

  predicate Distinct(order: seq<nat>) { forall i, j :: 0 <= i < j < |order| ==> order[i] != order[j] }

  predicate Within(order: seq<nat>, n: nat) { forall i :: 0 <= i < |order| ==> order[i] < n }

  predicate InRange(d: Desktop) { Within(d.order, |d.viewports|) }

  // ---- Events and closing

  function Send(d: Desktop, v: nat, e: Event, alive: set<int>): (r: Desktop)
    requires InRange(d) && v < |d.viewports|
    ensures InRange(r) && |r.viewports| == |d.viewports| && |r.order| <= |d.order|
    decreases |d.order|, 1
  {
    if !d.viewports[v].handler then d
    else if d.viewports[v].owner !in alive then Close(d, v, alive)
    else d.(log := d.log + [(v, e)])
  }

  /** An event for the viewport `k` places from the front, if there is one. */
  function Notify(d: Desktop, k: nat, e: Event, alive: set<int>): (r: Desktop)
    requires InRange(d)
    ensures InRange(r) && |r.viewports| == |d.viewports| && |r.order| <= |d.order|
    decreases |d.order|, 2
  {
    if k < |d.order| then Send(d, d.order[k], e, alive) else d
  }

  function Shutting(d: Desktop, v: nat): (r: Desktop)
    requires v < |d.viewports|
  {
    d.(viewports := d.viewports[v := d.viewports[v].Shut()])
  }

  function Dropping(d: Desktop, i: nat): (r: Desktop)
    requires InRange(d) && i < |d.order|
    ensures InRange(r) && |r.order| == |d.order| - 1
  {
    d.(order := Without(d.order, i))
  }

  function Close(d: Desktop, v: nat, alive: set<int>): (r: Desktop)
    requires InRange(d) && v < |d.viewports|
    ensures InRange(r) && |r.viewports| == |d.viewports| && |r.order| <= |d.order|
    decreases |d.order|, 0
  {
    var i := Position(d.order, v);
    if i == |d.order| then Shutting(d, v)
    else Notify(Dropping(Shutting(d, v), i), 0, Focused, alive)
  }

  function ToFront(order: seq<nat>, i: nat): (r: seq<nat>)
    requires i < |order|
    ensures |r| == |order|
  {
    [order[i]] + Without(order, i)
  }

  function Raise(d: Desktop, i: nat, alive: set<int>): (r: Desktop)
    requires InRange(d) && i < |d.order|
    ensures InRange(r) && |r.viewports| == |d.viewports| && |r.order| <= |d.order|
  {
    if i == 0 then d
    else Notify(Notify(d.(order := ToFront(d.order, i)), 0, Focused, alive), 1, Unfocused, alive)
  }

  // ---- Opening

  /** The screen, and where the desktop places new viewports. */
  datatype Screen = Screen(w: int, h: int, rootX: int, rootY: int)

  function Fresh(screen: Screen, w: int, h: int, title: string, owner: int): Viewport {
    Viewport(screen.rootX, screen.rootY, w, h, false, w, h, true, title, owner, false, false, false, false)
  }

  function FirstClosed(viewports: seq<Viewport>): (v: nat)
    ensures v <= |viewports| && (v < |viewports| ==> !viewports[v].open)
    ensures forall u :: 0 <= u < v ==> viewports[u].open
  {
    if viewports == [] || !viewports[0].open then 0 else 1 + FirstClosed(viewports[1..])
  }

  predicate Fits(screen: Screen, w: int, h: int) { 0 <= w <= screen.w && 0 <= h <= screen.h }

  function Open(d: Desktop, screen: Screen, w: int, h: int, title: string, owner: int, alive: set<int>)
    : (r: (Desktop, Option<nat>))
    requires Inv(d)
  {
    if !Fits(screen, w, h) || |d.order| == MAX_VIEWPORTS then (d, None)
    else
      AClosedOne(d);
      var v := FirstClosed(d.viewports);
      var longer := Desktop(d.order + [v], d.viewports[v := Fresh(screen, w, h, title, owner)], d.log);
      (Raise(longer, |d.order|, alive), Some(v))
  }

  // ---- The invariant

  /** The viewports in the list are exactly the open ones, none twice. */
  predicate Inv(d: Desktop) {
    && |d.viewports| == MAX_VIEWPORTS && |d.order| <= MAX_VIEWPORTS
    && InRange(d) && Distinct(d.order)
    && forall v :: 0 <= v < MAX_VIEWPORTS ==> (d.viewports[v].open <==> v in d.order)
  }

  lemma AClosedOne(d: Desktop)
    requires Inv(d) && |d.order| < MAX_VIEWPORTS
    ensures FirstClosed(d.viewports) < MAX_VIEWPORTS
  {
    if FirstClosed(d.viewports) == MAX_VIEWPORTS {
      RoomForAll(d.order, MAX_VIEWPORTS);
    }
  }

  lemma {:induction false} RoomForAll(order: seq<nat>, n: nat)
    requires forall v :: 0 <= v < n ==> v in order
    ensures |order| >= n
  {
    if n > 0 {
      var i := Position(order, n - 1);
      assert n - 1 in order && order == order[..i] + order[i..];
      forall v | 0 <= v < n - 1 ensures v in Without(order, i) { StillThere(order, i, v); }
      RoomForAll(Without(order, i), n - 1);
    }
  }

  lemma StillThere(order: seq<nat>, i: nat, v: nat)
    requires i < |order| && v in order && v != order[i]
    ensures v in Without(order, i)
  {
    var j :| 0 <= j < |order| && order[j] == v;
    assert Without(order, i)[if j < i then j else j - 1] == v;
  }

  lemma DistinctWithout(order: seq<nat>, i: nat)
    requires i < |order| && Distinct(order)
    ensures Distinct(Without(order, i)) && order[i] !in Without(order, i)
    ensures i == 0 ==> forall j :: 1 <= j < |order| ==> order[j] != order[0]
    ensures Distinct(ToFront(order, i))
  {
  }

  // ---- What the chain of events does

  /** How many viewports lie in front of the first one that can still be told something. */
  function Leading(order: seq<nat>, viewports: seq<Viewport>, alive: set<int>): (k: nat)
    requires Within(order, |viewports|)
    ensures k <= |order| && forall i :: 0 <= i < k ==> viewports[order[i]].Gone(alive)
    ensures k < |order| ==> !viewports[order[k]].Gone(alive)
  {
    if order == [] || !viewports[order[0]].Gone(alive) then 0 else 1 + Leading(order[1..], viewports, alive)
  }

  function ShutAll(viewports: seq<Viewport>, gone: seq<nat>): (r: seq<Viewport>)
    ensures |r| == |viewports|
  {
    seq(|viewports|, i requires 0 <= i < |viewports| => if i in gone then viewports[i].Shut() else viewports[i])
  }

  function Greeting(order: seq<nat>, viewports: seq<Viewport>): seq<(nat, Event)>
    requires Within(order, |viewports|)
  {
    if order != [] && viewports[order[0]].handler then [(order[0], Focused)] else []
  }

  /** The front ones whose owner is gone are shut and leave; the first that stays is focused. */
  function Settled(d: Desktop, alive: set<int>): (r: Desktop)
    requires InRange(d)
    ensures InRange(r) && |r.viewports| == |d.viewports|
  {
    var k := Leading(d.order, d.viewports, alive);
    Desktop(d.order[k..], ShutAll(d.viewports, d.order[..k]), d.log + Greeting(d.order[k..], d.viewports))
  }

  lemma LeadingIs(order: seq<nat>, viewports: seq<Viewport>, alive: set<int>, k: nat)
    requires Within(order, |viewports|) && k <= |order|
    requires forall i :: 0 <= i < k ==> viewports[order[i]].Gone(alive)
    requires k < |order| ==> !viewports[order[k]].Gone(alive)
    ensures Leading(order, viewports, alive) == k
  {
  }

  /** The mutual recursion, unrolled. */
  lemma {:induction false} SettleFront(d: Desktop, alive: set<int>)
    requires InRange(d) && Distinct(d.order)
    ensures Notify(d, 0, Focused, alive) == Settled(d, alive)
    decreases |d.order|
  {
    if d.order != [] && d.viewports[d.order[0]].Gone(alive) {
      var e := Dropping(Shutting(d, d.order[0]), 0);
      SettledStep(d, alive);
      SettleFront(e, alive);
      assert Position(d.order, d.order[0]) == 0;
      assert Close(d, d.order[0], alive) == Notify(e, 0, Focused, alive);
    } else {
      NoneShut(d.viewports);
      assert d.order[..0] == [] && d.order[0..] == d.order && d.log + [] == d.log;
    }
  }

  lemma NoneShut(viewports: seq<Viewport>)
    ensures ShutAll(viewports, []) == viewports
  {
  }

  lemma SettledStep(d: Desktop, alive: set<int>)
    requires InRange(d) && Distinct(d.order) && d.order != [] && d.viewports[d.order[0]].Gone(alive)
    ensures Distinct(Dropping(Shutting(d, d.order[0]), 0).order)
    ensures Settled(d, alive) == Settled(Dropping(Shutting(d, d.order[0]), 0), alive)
  {
    hide Leading, Distinct, ShutAll, Greeting;
    var v := d.order[0];
    var e := Dropping(Shutting(d, v), 0);
    assert e.order == d.order[1..];
    DistinctWithout(d.order, 0);
    var k := LeadingStep(d.order, d.viewports, e.viewports, alive);
    assert e.order[k - 1..] == d.order[k..];
    GreetingFrame(d.order[k..], d.viewports, e.viewports);
    ShutOneMore(d.viewports, d.order, k);
  }

  lemma LeadingStep(order: seq<nat>, a: seq<Viewport>, b: seq<Viewport>, alive: set<int>) returns (k: nat)
    requires Within(order, |a|) && |a| == |b| && order != [] && a[order[0]].Gone(alive)
    requires forall i :: 1 <= i < |order| ==> b[order[i]] == a[order[i]]
    ensures k == Leading(order, a, alive) && 0 < k <= |order| && Leading(order[1..], b, alive) == k - 1
  {
    k := Leading(order, a, alive);
    LeadingIs(order[1..], b, alive, k - 1);
  }

  lemma GreetingFrame(order: seq<nat>, a: seq<Viewport>, b: seq<Viewport>)
    requires Within(order, |a|) && |a| == |b| && (order != [] ==> b[order[0]] == a[order[0]])
    ensures Greeting(order, a) == Greeting(order, b)
  {
  }

  lemma ShutOneMore(viewports: seq<Viewport>, order: seq<nat>, k: nat)
    requires 0 < k <= |order| && order[0] < |viewports|
    ensures ShutAll(viewports[order[0] := viewports[order[0]].Shut()], order[1..][..k - 1])
         == ShutAll(viewports, order[..k])
  {
    assert order[..k] == [order[0]] + order[1..][..k - 1];
  }

  // ---- What the living see

  /** The open viewports that can still be told something, front first. */
  function Living(order: seq<nat>, viewports: seq<Viewport>, alive: set<int>): seq<nat>
    requires Within(order, |viewports|)
  {
    if order == [] then [] else
      (if viewports[order[0]].Gone(alive) then [] else [order[0]]) + Living(order[1..], viewports, alive)
  }

  /** `r` has lost only viewports that are gone; the others keep their order and their state. */
  ghost predicate OnlyGoneLeave(d: Desktop, r: Desktop, alive: set<int>)
    requires InRange(d) && InRange(r) && |r.viewports| == |d.viewports|
  {
    && Distinct(r.order) && |r.order| <= |d.order|
    && (forall v :: v in r.order ==> v in d.order && r.viewports[v] == d.viewports[v])
    && (forall v :: v in d.order && v !in r.order ==> !r.viewports[v].open && d.viewports[v].Gone(alive))
    && (forall v :: 0 <= v < |d.viewports| && r.viewports[v].open ==> d.viewports[v].open)
    && Living(r.order, r.viewports, alive) == Living(d.order, d.viewports, alive)
  }

  lemma {:induction false} LivingFrame(order: seq<nat>, a: seq<Viewport>, b: seq<Viewport>, alive: set<int>)
    requires Within(order, |a|) && Within(order, |b|) && forall i :: 0 <= i < |order| ==> a[order[i]] == b[order[i]]
    ensures Living(order, a, alive) == Living(order, b, alive)
  {
    if order != [] { LivingFrame(order[1..], a, b, alive); }
  }

  lemma {:induction false} LivingDrop(order: seq<nat>, viewports: seq<Viewport>, alive: set<int>, k: nat)
    requires Within(order, |viewports|) && k <= |order|
    requires forall i :: 0 <= i < k ==> viewports[order[i]].Gone(alive)
    ensures Living(order[k..], viewports, alive) == Living(order, viewports, alive)
  {
    if k > 0 {
      LivingDrop(order[1..], viewports, alive, k - 1);
      assert order[1..][k - 1..] == order[k..];
    }
  }

  lemma {:induction false} LivingSplit(a: seq<nat>, b: seq<nat>, viewports: seq<Viewport>, alive: set<int>)
    requires Within(a + b, |viewports|)
    ensures Within(a, |viewports|) && Within(b, |viewports|)
    ensures Living(a + b, viewports, alive) == Living(a, viewports, alive) + Living(b, viewports, alive)
  {
    if a != [] {
      assert (a + b)[1..] == a[1..] + b;
      LivingSplit(a[1..], b, viewports, alive);
    } else {
      assert a + b == b;
    }
  }

  lemma DistinctParts(order: seq<nat>, k: nat)
    requires k <= |order| && Distinct(order)
    ensures Distinct(order[k..])
    ensures forall i :: 0 <= i < |order[k..]| ==> order[k..][i] in order && order[k..][i] !in order[..k]
    ensures forall v :: v in order && v !in order[k..] ==> v in order[..k]
  {
    assert order == order[..k] + order[k..];
  }

  lemma ShutAllFrame(viewports: seq<Viewport>, gone: seq<nat>, order: seq<nat>)
    requires Within(order, |viewports|) && forall i :: 0 <= i < |order| ==> order[i] !in gone
    ensures forall i :: 0 <= i < |order| ==> ShutAll(viewports, gone)[order[i]] == viewports[order[i]]
    ensures forall v :: v in gone && v < |viewports| ==> !ShutAll(viewports, gone)[v].open
    ensures forall v :: 0 <= v < |viewports| && ShutAll(viewports, gone)[v].open ==> viewports[v].open
  {
  }

  lemma SettledOnlyGone(d: Desktop, alive: set<int>)
    requires InRange(d) && Distinct(d.order)
    ensures OnlyGoneLeave(d, Settled(d, alive), alive)
  {
    hide Leading, Greeting, Living, Distinct, ShutAll;
    var r := Settled(d, alive);
    var k := Leading(d.order, d.viewports, alive);
    DistinctParts(d.order, k);
    ShutAllFrame(d.viewports, d.order[..k], r.order);
    LivingDrop(d.order, d.viewports, alive, k);
    LivingFrame(r.order, r.viewports, d.viewports, alive);
  }

  lemma OnlyGoneTrans(a: Desktop, b: Desktop, c: Desktop, alive: set<int>)
    requires InRange(a) && InRange(b) && InRange(c) && |a.viewports| == |b.viewports| == |c.viewports|
    requires OnlyGoneLeave(a, b, alive) && OnlyGoneLeave(b, c, alive)
    ensures OnlyGoneLeave(a, c, alive)
  {
    hide Distinct, Living;
  }

  lemma {:induction false} PositionIs(order: seq<nat>, i: nat)
    requires i < |order| && Distinct(order)
    ensures Position(order, order[i]) == i
  {
    if i > 0 { PositionIs(order[1..], i - 1); }
  }

  lemma OneLiving(v: nat, viewports: seq<Viewport>, alive: set<int>)
    requires v < |viewports|
    ensures Living([v], viewports, alive) == if viewports[v].Gone(alive) then [] else [v]
  {
    assert [v][1..] == [];
  }

  /** Taking a gone viewport out of the list. */
  lemma DropGone(d: Desktop, i: nat, alive: set<int>)
    requires InRange(d) && Distinct(d.order) && i < |d.order| && d.viewports[d.order[i]].Gone(alive)
    ensures OnlyGoneLeave(d, Dropping(Shutting(d, d.order[i]), i), alive)
  {
    hide Living, Distinct;
    var v := d.order[i];
    var x := Dropping(Shutting(d, v), i);
    DistinctWithout(d.order, i);
    LivingWithout(d.order, i, d.viewports, alive);
    LivingFrame(x.order, x.viewports, d.viewports, alive);
    forall u | u in d.order && u !in x.order ensures u == v { if u != v { StillThere(d.order, i, u); } }
  }

  lemma LivingWithout(order: seq<nat>, i: nat, viewports: seq<Viewport>, alive: set<int>)
    requires Within(order, |viewports|) && i < |order| && viewports[order[i]].Gone(alive)
    ensures Within(Without(order, i), |viewports|)
    ensures Living(Without(order, i), viewports, alive) == Living(order, viewports, alive)
  {
    hide Living;
    var v := order[i];
    assert order == order[..i] + ([v] + order[i + 1..]);
    LivingSplit(order[..i], [v] + order[i + 1..], viewports, alive);
    LivingSplit([v], order[i + 1..], viewports, alive);
    LivingSplit(order[..i], order[i + 1..], viewports, alive);
    OneLiving(v, viewports, alive);
  }

  lemma NothingLeaves(d: Desktop, r: Desktop, alive: set<int>)
    requires InRange(d) && Distinct(d.order) && r.order == d.order && r.viewports == d.viewports
    ensures OnlyGoneLeave(d, r, alive)
  {
  }

  /** Closing removes the viewport; of the others only such leave whose owner is gone, and the
      first one that stays is told that it is in front now. */
  lemma CloseRemoves(d: Desktop, v: nat, alive: set<int>)
    requires InRange(d) && Distinct(d.order) && v in d.order
    ensures var i := Position(d.order, v);
            var rest := Dropping(Shutting(d, v), i);
            && i < |d.order| && v !in rest.order
            && Close(d, v, alive) == Settled(rest, alive)
            && OnlyGoneLeave(rest, Close(d, v, alive), alive)
  {
    hide Living;
    var i := Position(d.order, v);
    assert d.order == d.order[..i] + d.order[i..];
    DistinctWithout(d.order, i);
    var rest := Dropping(Shutting(d, v), i);
    SettleFront(rest, alive);
    SettledOnlyGone(rest, alive);
  }

  lemma SendOnlyGone(d: Desktop, v: nat, e: Event, alive: set<int>)
    requires InRange(d) && v < |d.viewports| && Distinct(d.order)
    ensures OnlyGoneLeave(d, Send(d, v, e, alive), alive)
  {
    hide Living, Distinct, Settled;
    if d.viewports[v].Gone(alive) {
      if v in d.order {
        CloseRemoves(d, v, alive);
        DropGone(d, Position(d.order, v), alive);
        OnlyGoneTrans(d, Dropping(Shutting(d, v), Position(d.order, v)), Close(d, v, alive), alive);
      } else {
        assert d.order[..|d.order|] == d.order;
        LivingFrame(d.order, Shutting(d, v).viewports, d.viewports, alive);
        assert Position(d.order, v) == |d.order|;
      }
    } else {
      NothingLeaves(d, Send(d, v, e, alive), alive);
    }
  }

  lemma NotifyOnlyGone(d: Desktop, k: nat, e: Event, alive: set<int>)
    requires InRange(d) && Distinct(d.order)
    ensures OnlyGoneLeave(d, Notify(d, k, e, alive), alive)
  {
    hide Living, Distinct, Send;
    if k < |d.order| { SendOnlyGone(d, d.order[k], e, alive); } else { NothingLeaves(d, d, alive); }
  }

  /** An event for a viewport further back leaves a living front viewport where it is. */
  lemma FrontStays(d: Desktop, k: nat, e: Event, alive: set<int>)
    requires InRange(d) && Distinct(d.order) && d.order != [] && k > 0
    requires !d.viewports[d.order[0]].Gone(alive)
    ensures Notify(d, k, e, alive).order != [] && Notify(d, k, e, alive).order[0] == d.order[0]
  {
    hide Living;
    if k < |d.order| && d.viewports[d.order[k]].Gone(alive) {
      PositionIs(d.order, k);
      CloseBehindFront(d, k, alive);
    }
  }

  lemma CloseBehindFront(d: Desktop, k: nat, alive: set<int>)
    requires InRange(d) && Distinct(d.order) && 0 < k < |d.order| && Position(d.order, d.order[k]) == k
    requires !d.viewports[d.order[0]].Gone(alive)
    ensures Close(d, d.order[k], alive).order != [] && Close(d, d.order[k], alive).order[0] == d.order[0]
  {
    hide Living, Position, Distinct, Notify;
    CloseRemoves(d, d.order[k], alive);
    var rest := Dropping(Shutting(d, d.order[k]), k);
    assert rest.order[0] == d.order[0];
    LeadingIs(rest.order, rest.viewports, alive, 0);
  }

  /** Raising moves the viewport to the front, up to gone ones leaving. */
  lemma RaiseIsMoveToFront(d: Desktop, i: nat, alive: set<int>)
    requires InRange(d) && Distinct(d.order) && i < |d.order|
    ensures Distinct(ToFront(d.order, i)) && InRange(d.(order := ToFront(d.order, i)))
    ensures OnlyGoneLeave(d.(order := ToFront(d.order, i)), Raise(d, i, alive), alive)
    ensures !d.viewports[d.order[i]].Gone(alive) ==>
              Raise(d, i, alive).order != [] && Raise(d, i, alive).order[0] == d.order[i]
  {
    hide Living, Distinct, Notify;
    DistinctWithout(d.order, i);
    var front := d.(order := ToFront(d.order, i));
    if i == 0 {
      assert front.order == d.order;
      NothingLeaves(front, d, alive);
    } else {
      var one := Notify(front, 0, Focused, alive);
      NotifyOnlyGone(front, 0, Focused, alive);
      NotifyOnlyGone(one, 1, Unfocused, alive);
      OnlyGoneTrans(front, one, Notify(one, 1, Unfocused, alive), alive);
      if !d.viewports[d.order[i]].Gone(alive) {
        LivingFrontStays(front, alive);
        FrontStays(one, 1, Unfocused, alive);
      }
    }
  }

  lemma LivingFrontStays(d: Desktop, alive: set<int>)
    requires InRange(d) && d.order != [] && !d.viewports[d.order[0]].Gone(alive)
    ensures Notify(d, 0, Focused, alive).order == d.order
    ensures Notify(d, 0, Focused, alive).viewports == d.viewports
  {
  }

  function Told(viewports: seq<Viewport>, v: nat, e: Event): seq<(nat, Event)>
    requires v < |viewports|
  {
    if viewports[v].handler then [(v, e)] else []
  }

  /** With no owner gone, raising is move-to-front, and tells the two viewports concerned. */
  lemma RaiseExact(d: Desktop, i: nat, alive: set<int>)
    requires InRange(d) && 0 < i < |d.order|
    requires forall j :: 0 <= j < |d.order| ==> !d.viewports[d.order[j]].Gone(alive)
    ensures Raise(d, i, alive) == Desktop(ToFront(d.order, i), d.viewports,
              d.log + Told(d.viewports, d.order[i], Focused) + Told(d.viewports, d.order[0], Unfocused))
  {
    var front := d.(order := ToFront(d.order, i));
    assert front.order[0] == d.order[i] && front.order[1] == d.order[0];
    var a, b := Told(d.viewports, d.order[i], Focused), Told(d.viewports, d.order[0], Unfocused);
    assert d.log + [] == d.log && (d.log + a) + [] == d.log + a;
    assert Notify(front, 0, Focused, alive) == front.(log := d.log + a);
    assert Notify(front.(log := d.log + a), 1, Unfocused, alive) == front.(log := d.log + a + b);
  }

  // ---- The invariant holds throughout

  lemma InvFollows(d: Desktop, r: Desktop, alive: set<int>)
    requires Inv(d) && InRange(r) && |r.viewports| == |d.viewports| && OnlyGoneLeave(d, r, alive)
    ensures Inv(r)
  {
    hide Living, Distinct;
  }

  lemma InvClose(d: Desktop, v: nat, alive: set<int>)
    requires Inv(d) && v < MAX_VIEWPORTS
    ensures Inv(Close(d, v, alive)) && v !in Close(d, v, alive).order
  {
    hide Living, Settled;
    if v in d.order {
      CloseRemoves(d, v, alive);
      var i := Position(d.order, v);
      InvDropping(d, i);
      InvFollows(Dropping(Shutting(d, v), i), Close(d, v, alive), alive);
    }
  }

  lemma InvDropping(d: Desktop, i: nat)
    requires Inv(d) && i < |d.order|
    ensures Inv(Dropping(Shutting(d, d.order[i]), i))
  {
    hide Distinct;
    DistinctWithout(d.order, i);
    forall u | u in d.order && u != d.order[i] ensures u in Without(d.order, i) {
      StillThere(d.order, i, u);
    }
  }

  lemma InvSend(d: Desktop, v: nat, e: Event, alive: set<int>)
    requires Inv(d) && v < MAX_VIEWPORTS
    ensures Inv(Send(d, v, e, alive))
  {
    SendOnlyGone(d, v, e, alive);
    InvFollows(d, Send(d, v, e, alive), alive);
  }

  lemma InvRaise(d: Desktop, i: nat, alive: set<int>)
    requires Inv(d) && i < |d.order|
    ensures Inv(Raise(d, i, alive))
  {
    hide Raise, Living;
    RaiseIsMoveToFront(d, i, alive);
    var front := d.(order := ToFront(d.order, i));
    forall u | u in d.order ensures u in front.order { if u != d.order[i] { StillThere(d.order, i, u); } }
    InvFollows(front, Raise(d, i, alive), alive);
  }

  /** A window as the program with that process id asked for it: where the desktop places new ones, of that
      size, not minimized, telling nobody anything yet. */
  predicate NewWindow(p: Viewport, screen: Screen, w: int, h: int, title: string, owner: int) {
    && p.open && p.owner == owner && p.title == title
    && p.x == screen.rootX && p.y == screen.rootY && p.w == w && p.h == h
    && !p.minimized && !p.handler && !p.clicks && !p.resize && !p.plain
  }

  /** Opening puts a new window with these properties in front; it fails exactly when the size does not fit
      the screen or all viewports are open. */
  lemma OpenIsCons(d: Desktop, screen: Screen, w: int, h: int, title: string, owner: int, alive: set<int>)
    requires Inv(d)
    ensures var (r, v) := Open(d, screen, w, h, title, owner, alive);
            && Inv(r)
            && (v.None? <==> w < 0 || h < 0 || w > screen.w || h > screen.h || |d.order| == MAX_VIEWPORTS)
            && (v.None? ==> r == d)
            && (v.Some? ==>
                && v.value < MAX_VIEWPORTS && v.value !in d.order && r.order != [] && r.order[0] == v.value
                && |r.viewports| == MAX_VIEWPORTS && NewWindow(r.viewports[v.value], screen, w, h, title, owner)
                && var cons := Desktop([v.value] + d.order, d.viewports[v.value := r.viewports[v.value]], d.log);
                && InRange(cons) && OnlyGoneLeave(cons, r, alive))
  {
    hide Living, Raise, Fresh, NewWindow;
    if Fits(screen, w, h) && |d.order| < MAX_VIEWPORTS {
      AClosedOne(d);
      var v := FirstClosed(d.viewports);
      var longer := Desktop(d.order + [v], d.viewports[v := Fresh(screen, w, h, title, owner)], d.log);
      FreshIsNew(screen, w, h, title, owner);
      assert Inv(longer);
      assert ToFront(longer.order, |d.order|) == [v] + d.order;
      RaiseIsMoveToFront(longer, |d.order|, alive);
      InvRaise(longer, |d.order|, alive);
    }
  }

  lemma FreshIsNew(screen: Screen, w: int, h: int, title: string, owner: int)
    ensures NewWindow(Fresh(screen, w, h, title, owner), screen, w, h, title, owner)
    ensures Fresh(screen, w, h, title, owner).open && !Fresh(screen, w, h, title, owner).handler
  {
  }

  // ---- Clicks

  datatype ClickKind = Nothing | Header | Scale | CloseBox | Body

  function FirstHit(d: Desktop, px: int, py: int): (i: nat)
    requires InRange(d)
    ensures i <= |d.order| && (i < |d.order| ==> d.viewports[d.order[i]].Hit(px, py))
    ensures forall j :: 0 <= j < i ==> !d.viewports[d.order[j]].Hit(px, py)
    decreases |d.order|
  {
    if d.order == [] || d.viewports[d.order[0]].Hit(px, py) then 0
    else 1 + FirstHit(d.(order := d.order[1..]), px, py)
  }

  function ToggleSize(d: Desktop, v: nat, alive: set<int>): (r: Desktop)
    requires InRange(d) && v < |d.viewports|
    ensures InRange(r) && |r.viewports| == |d.viewports| && |r.order| <= |d.order|
  {
    var t := d.viewports[v].Toggled();
    Send(d.(viewports := d.viewports[v := t]), v, if t.minimized then Minimize else Maximize, alive)
  }

  predicate ScaleBox(p: Viewport, px: int) { p.x + p.w - 16 < px < p.x + p.w - 8 }
  predicate ExitBox(p: Viewport, px: int) { p.x + p.w - 8 < px < p.x + p.w }

  function TitleClick(d: Desktop, v: nat, px: int, py: int, alive: set<int>): (r: (Desktop, ClickKind))
    requires InRange(d) && v < |d.viewports|
    ensures InRange(r.0) && |r.0.viewports| == |d.viewports|
  {
    var p := d.viewports[v];
    if !p.TitleHit(px, py) then (d, Nothing)
    else if ScaleBox(p, px) then (ToggleSize(d, v, alive), Scale)
    else if ExitBox(p, px) then (Send(d, v, Exit, alive), CloseBox)
    else (d, Nothing)
  }

  function ClickOn(d: Desktop, v: nat, px: int, py: int, raised: Desktop, alive: set<int>): (r: (Desktop, ClickKind))
    requires v < |d.viewports| && InRange(raised) && v < |raised.viewports|
    ensures InRange(r.0) && |r.0.viewports| == |raised.viewports|
  {
    if d.viewports[v].TitleHit(px, py) then
      var (r, kind) := TitleClick(raised, v, px, py, alive);
      (r, if kind == Nothing then Header else kind)
    else if d.viewports[v].BodyHit(px, py) then
      (if raised.viewports[v].clicks then Send(raised, v, Click, alive) else raised, Body)
    else (raised, Scale)
  }

  function ProcessClick(d: Desktop, px: int, py: int, alive: set<int>): (r: (Desktop, ClickKind, Option<nat>))
    requires InRange(d)
    ensures InRange(r.0) && |r.0.viewports| == |d.viewports|
  {
    var i := FirstHit(d, px, py);
    if i == |d.order| then (d, Nothing, None)
    else
      var (r, kind) := ClickOn(d, d.order[i], px, py, Raise(d, i, alive), alive);
      (r, kind, Some(d.order[i]))
  }

  /** A click finds the topmost viewport it hits, and none exactly when it hits none; a living one
      is in front afterwards. */
  lemma ClickPicksTopmost(d: Desktop, px: int, py: int, alive: set<int>)
    requires Inv(d)
    ensures var (r, kind, found) := ProcessClick(d, px, py, alive);
            && Inv(r)
            && (found.None? <==> forall i :: 0 <= i < |d.order| ==> !d.viewports[d.order[i]].Hit(px, py))
            && (found.None? ==> r == d && kind == Nothing)
            && (found.Some? ==> Topmost(d, found.value, px, py))
            && (found.Some? && !d.viewports[found.value].Gone(alive) ==> r.order != [] && r.order[0] == found.value)
  {
    hide Inv, Raise, ClickOn;
    InvInRange(d);
    var i := FirstHit(d, px, py);
    if i < |d.order| {
      var v := d.order[i];
      DistinctBefore(d, i);
      InvRaise(d, i, alive);
      RaiseIsMoveToFront(d, i, alive);
      RaisedState(d, i, alive);
      ClickOnKeeps(d, v, px, py, Raise(d, i, alive), alive);
    }
  }

  predicate Topmost(d: Desktop, v: nat, px: int, py: int)
    requires InRange(d)
  {
    && v in d.order && d.viewports[v].Hit(px, py)
    && forall j :: 0 <= j < |d.order| && d.order[j] == v ==>
         forall k :: 0 <= k < j ==> !d.viewports[d.order[k]].Hit(px, py)
  }

  lemma InvInRange(d: Desktop)
    requires Inv(d)
    ensures InRange(d) && Distinct(d.order) && |d.viewports| == MAX_VIEWPORTS && Within(d.order, MAX_VIEWPORTS)
  {
  }

  lemma DistinctBefore(d: Desktop, i: nat)
    requires i < |d.order| && Distinct(d.order)
    ensures forall j :: 0 <= j < |d.order| && d.order[j] == d.order[i] ==> j == i
  {
  }

  /** A viewport that is not gone keeps its state when raised. */
  lemma RaisedState(d: Desktop, i: nat, alive: set<int>)
    requires InRange(d) && Distinct(d.order) && i < |d.order|
    ensures |Raise(d, i, alive).viewports| == |d.viewports|
    ensures !d.viewports[d.order[i]].Gone(alive) ==>
              Raise(d, i, alive).viewports[d.order[i]] == d.viewports[d.order[i]]
  {
    hide Raise, Living;
    RaiseIsMoveToFront(d, i, alive);
  }

  lemma ClickOnKeeps(d: Desktop, v: nat, px: int, py: int, raised: Desktop, alive: set<int>)
    requires |d.viewports| == MAX_VIEWPORTS && Inv(raised) && v < MAX_VIEWPORTS
    ensures Inv(ClickOn(d, v, px, py, raised, alive).0)
    ensures !raised.viewports[v].Gone(alive) ==> ClickOn(d, v, px, py, raised, alive).0.order == raised.order
  {
    InvSend(raised, v, Exit, alive);
    InvSend(raised, v, Click, alive);
    var t := raised.viewports[v].Toggled();
    var toggled := raised.(viewports := raised.viewports[v := t]);
    assert Inv(toggled);
    InvSend(toggled, v, if t.minimized then Minimize else Maximize, alive);
  }

  // ---- Runs

  datatype Op =
    | OpOpen(screen: Screen, w: int, h: int, title: string, owner: int)
    | OpClose(v: nat)
    | OpClick(px: int, py: int)
    | OpSend(v: nat, e: Event)
    | OpHandler(v: nat)

  /** `viewport_add_event_handler`. */
  function Handling(d: Desktop, v: nat): Desktop
    requires v < |d.viewports|
  {
    d.(viewports := d.viewports[v := d.viewports[v].(handler := true)])
  }

  function Step(d: Desktop, op: Op, alive: set<int>): (r: Desktop)
    requires Inv(d)
  {
    match op
    case OpOpen(screen, w, h, title, owner) => Open(d, screen, w, h, title, owner, alive).0
    case OpClose(v) => if v < MAX_VIEWPORTS then Close(d, v, alive) else d
    case OpClick(px, py) => ProcessClick(d, px, py, alive).0
    case OpSend(v, e) => if v < MAX_VIEWPORTS then Send(d, v, e, alive) else d
    case OpHandler(v) => if v < MAX_VIEWPORTS then Handling(d, v) else d
  }

  /** Each step comes with the process ids that have a task at that time. */
  function Run(d: Desktop, steps: seq<(Op, set<int>)>): (r: Desktop)
    requires Inv(d)
    ensures Inv(r)
    decreases |steps|
  {
    if steps == [] then d
    else
      InvStep(d, steps[0].0, steps[0].1);
      Run(Step(d, steps[0].0, steps[0].1), steps[1..])
  }

  lemma InvStep(d: Desktop, op: Op, alive: set<int>)
    requires Inv(d)
    ensures Inv(Step(d, op, alive))
  {
    hide Open, Close, ProcessClick, Send, Distinct;
    match op
    case OpOpen(screen, w, h, title, owner) => OpenIsCons(d, screen, w, h, title, owner, alive);
    case OpClose(v) => if v < MAX_VIEWPORTS { InvClose(d, v, alive); }
    case OpClick(px, py) => ClickPicksTopmost(d, px, py, alive);
    case OpSend(v, e) => if v < MAX_VIEWPORTS { InvSend(d, v, e, alive); }
    case OpHandler(v) =>
  }

  /** `v` is open and its task has not died. */
  predicate Alive(d: Desktop, v: nat, alive: set<int>) {
    v in d.order && v < |d.viewports| && d.viewports[v].owner in alive
  }

  /** No step but its own closing takes a viewport away from a program that is still there. */
  lemma StepKeepsLiving(d: Desktop, op: Op, alive: set<int>, v: nat)
    requires Inv(d) && Alive(d, v, alive) && op != OpClose(v)
    ensures var r := Step(d, op, alive);
            v in r.order && v < |r.viewports| && r.viewports[v].owner == d.viewports[v].owner
  {
    hide Open, Close, Raise, ClickOn, Send, Living, Distinct, Settled, Inv;
    InvInRange(d);
    InvStep(d, op, alive);
    InvInRange(Step(d, op, alive));
    match op
    case OpOpen(screen, w, h, title, owner) => OpenIsCons(d, screen, w, h, title, owner, alive);
    case OpClose(u) =>
      if u in d.order {
        CloseRemoves(d, u, alive);
        StillThere(d.order, Position(d.order, u), v);
      } else if u < MAX_VIEWPORTS {
        NotOpenCloses(d, u, alive);
      }
    case OpClick(px, py) =>
      var i := FirstHit(d, px, py);
      if i < |d.order| {
        RaiseIsMoveToFront(d, i, alive);
        if v != d.order[i] { StillThere(d.order, i, v); }
        InvRaise(d, i, alive);
        ClickOnKeepsLiving(d, d.order[i], px, py, Raise(d, i, alive), alive, v);
      }
    case OpSend(u, e) => if u < MAX_VIEWPORTS { SendOnlyGone(d, u, e, alive); }
    case OpHandler(u) =>
  }

  lemma NotOpenCloses(d: Desktop, u: nat, alive: set<int>)
    requires InRange(d) && u < |d.viewports| && u !in d.order
    ensures Close(d, u, alive) == Shutting(d, u)
  {
    var i := Position(d.order, u);
  }

  lemma ClickOnKeepsLiving(d: Desktop, u: nat, px: int, py: int, raised: Desktop, alive: set<int>, v: nat)
    requires |d.viewports| == MAX_VIEWPORTS && Inv(raised) && u < MAX_VIEWPORTS && Alive(raised, v, alive)
    ensures var r := ClickOn(d, u, px, py, raised, alive).0;
            v in r.order && r.viewports[v].owner == raised.viewports[v].owner
  {
    hide Living, Distinct, Send;
    InvInRange(raised);
    SendOnlyGone(raised, u, Exit, alive);
    SendOnlyGone(raised, u, Click, alive);
    var t := raised.viewports[u].Toggled();
    var toggled := raised.(viewports := raised.viewports[u := t]);
    SendOnlyGone(toggled, u, if t.minimized then Minimize else Maximize, alive);
  }

  /** A window of a program that lives on is never lost, whatever else happens. */
  lemma {:induction false} RunKeepsLiving(d: Desktop, steps: seq<(Op, set<int>)>, v: nat)
    requires Inv(d) && v in d.order && v < |d.viewports|
    requires forall i :: 0 <= i < |steps| ==> d.viewports[v].owner in steps[i].1 && steps[i].0 != OpClose(v)
    ensures v in Run(d, steps).order && v < |Run(d, steps).viewports|
    ensures Run(d, steps).viewports[v].owner == d.viewports[v].owner
    decreases |steps|
  {
    hide Inv, Step;
    if steps != [] {
      InvStep(d, steps[0].0, steps[0].1);
      StepKeepsLiving(d, steps[0].0, steps[0].1, v);
      RunKeepsLiving(Step(d, steps[0].0, steps[0].1), steps[1..], v);
    }
  }

  /** An event for a window that is told events reaches its handler once while its program lives; no other window
      changes. Without a handler nothing happens; once the program is gone, the window is closed instead. */
  lemma SendDelivers(d: Desktop, v: nat, e: Event, alive: set<int>)
    requires Inv(d) && v < MAX_VIEWPORTS
    ensures var r := Send(d, v, e, alive);
            && (!d.viewports[v].handler ==> r == d)
            && (d.viewports[v].handler && d.viewports[v].owner in alive ==>
                  r.order == d.order && r.viewports == d.viewports && r.log == d.log + [(v, e)])
            && (d.viewports[v].handler && d.viewports[v].owner !in alive ==> v !in r.order && !r.viewports[v].open)
  {
    hide Close;
    InvClose(d, v, alive);
    assert Inv(Close(d, v, alive));
  }

  /** A closed window is told nothing any more. */
  lemma CloseSilences(d: Desktop, v: nat, alive: set<int>, e: Event, later: set<int>)
    requires Inv(d) && v < MAX_VIEWPORTS
    ensures var r := Close(d, v, alive);
            && Inv(r) && v !in r.order && !r.viewports[v].open && Send(r, v, e, later) == r
  {
    hide Close, Living, Settled, Distinct;
    InvClose(d, v, alive);
    InvInRange(d);
    if v in d.order {
      CloseRemoves(d, v, alive);
      SettledKeepsShut(Dropping(Shutting(d, v), Position(d.order, v)), v, alive);
    } else {
      NotOpenCloses(d, v, alive);
    }
  }

  lemma SettledKeepsShut(d: Desktop, v: nat, alive: set<int>)
    requires InRange(d) && v < |d.viewports| && !d.viewports[v].handler
    ensures !Settled(d, alive).viewports[v].handler
  {
  }

  /** After a handler was installed, the next event reaches it. */
  lemma HandlerIsTold(d: Desktop, v: nat, e: Event, alive: set<int>)
    requires Inv(d) && v < MAX_VIEWPORTS && d.viewports[v].owner in alive
    ensures Send(Handling(d, v), v, e, alive).log == d.log + [(v, e)]
    ensures Handling(d, v).order == d.order && InRange(Handling(d, v))
    ensures forall u :: 0 <= u < MAX_VIEWPORTS && u != v ==> Handling(d, v).viewports[u] == d.viewports[u]
  {
  }

  /** A window that a program opens stays open, and its own, over every run in which the program lives and the
      window is not closed itself. */
  lemma {:induction false} OpenedStays(d: Desktop, screen: Screen, w: int, h: int, title: string, owner: int,
                                       alive: set<int>, steps: seq<(Op, set<int>)>)
    requires Inv(d) && Open(d, screen, w, h, title, owner, alive).1.Some?
    requires var v := Open(d, screen, w, h, title, owner, alive).1.value;
             forall i :: 0 <= i < |steps| ==> owner in steps[i].1 && steps[i].0 != OpClose(v)
    ensures var (r, v) := Open(d, screen, w, h, title, owner, alive);
            && Inv(r)
            && var end := Run(r, steps);
            && v.value in end.order && v.value < |end.viewports| && end.viewports[v.value].owner == owner
  {
    hide Open, Run, Inv;
    OpenIsCons(d, screen, w, h, title, owner, alive);
    var (r, v) := Open(d, screen, w, h, title, owner, alive);
    RunKeepsLiving(r, steps, v.value);
  }

  /** Minimizing and restoring a window that is not gone gives its place and size back; in between it is as
      wide as its title and 8 high. */
  lemma ToggleTwice(d: Desktop, v: nat, alive: set<int>)
    requires InRange(d) && v < |d.viewports| && !d.viewports[v].minimized && !d.viewports[v].Gone(alive)
    ensures var p, once := d.viewports[v], ToggleSize(d, v, alive);
            var twice := ToggleSize(once, v, alive);
            && once.viewports[v].minimized && once.viewports[v].h == 8 && 24 <= once.viewports[v].w <= 424
            && (|p.title| <= 50 ==> once.viewports[v].w == 8 * |p.title| + 24)
            && (var q := twice.viewports[v];
                && !q.minimized && q.x == p.x && q.y == p.y && q.w == p.w && q.h == p.h
                && q.title == p.title && q.owner == p.owner && q.open == p.open && q.handler == p.handler)
            && (forall u :: 0 <= u < |d.viewports| && u != v ==> twice.viewports[u] == d.viewports[u])
            && twice.order == d.order
            && twice.log == d.log + (if p.handler then [(v, Minimize), (v, Maximize)] else [])
  {
    var once := ToggleSize(d, v, alive);
    if d.viewports[v].handler {
      assert d.log + [(v, Minimize)] + [(v, Maximize)] == d.log + [(v, Minimize), (v, Maximize)];
    } else {
      assert d.log + [] == d.log;
    }
  }

  /** The areas of a decorated window without a resize mark make up its frame, without the line under the title
      bar; of a plain one, only what lies below that line. */
  lemma HitIsFrame(p: Viewport, px: int, py: int)
    requires p.h >= 0 && !p.resize
    ensures p.Hit(px, py) <==>
            && p.x < px < p.x + p.w && p.y < py < p.y + p.h + HEADER_HEIGHT && py != p.y + HEADER_HEIGHT
            && (p.plain ==> py > p.y + HEADER_HEIGHT)
    ensures !(p.TitleHit(px, py) && p.BodyHit(px, py))
  {
  }

  /** The two boxes lie side by side at the right end of the title bar. */
  lemma BoxesApart(p: Viewport, px: int, py: int)
    requires p.w >= 16 && p.TitleHit(px, py)
    ensures !(ScaleBox(p, px) && ExitBox(p, px))
    ensures ScaleBox(p, px) || ExitBox(p, px) || px == p.x + p.w - 8 <==> p.x + p.w - 16 < px
  {
  }

  /** What the two boxes of the title bar do to a viewport that is not gone. */
  lemma TitleBoxes(d: Desktop, px: int, py: int, alive: set<int>)
    requires Inv(d)
    ensures var i := FirstHit(d, px, py);
            i < |d.order| && d.viewports[d.order[i]].TitleHit(px, py) && !d.viewports[d.order[i]].Gone(alive) ==>
              (var v, p, raised := d.order[i], d.viewports[d.order[i]], Raise(d, i, alive);
               var (r, kind, found) := ProcessClick(d, px, py, alive);
               && (kind == Scale <==> ScaleBox(p, px)) && (kind == CloseBox <==> ExitBox(p, px))
               && (kind == Header <==> !ScaleBox(p, px) && !ExitBox(p, px)) && (kind == Header ==> r == raised)
               && r.viewports == (if kind == Scale then raised.viewports[v := p.Toggled()] else raised.viewports)
               && (kind == CloseBox ==> r.log == raised.log + Told(d.viewports, v, Exit))
               && (kind == Scale ==> r.log == raised.log +
                                              Told(d.viewports, v, if p.minimized then Maximize else Minimize)))
  {
    hide Raise, Inv;
    InvInRange(d);
    var i := FirstHit(d, px, py);
    if i < |d.order| {
      RaisedState(d, i, alive);
    }
  }

  /** A click below the title bar is told to a viewport that wants clicks; one on the resize mark
      only raises. */
  lemma BodyAndMark(d: Desktop, px: int, py: int, alive: set<int>)
    requires Inv(d)
    ensures var i := FirstHit(d, px, py);
            i < |d.order| && !d.viewports[d.order[i]].TitleHit(px, py) && !d.viewports[d.order[i]].Gone(alive) ==>
              (var v, p, raised := d.order[i], d.viewports[d.order[i]], Raise(d, i, alive);
               var (r, kind, found) := ProcessClick(d, px, py, alive);
               && kind == (if p.BodyHit(px, py) then Body else Scale)
               && r == raised.(log := raised.log +
                                      (if kind == Body && p.clicks then Told(d.viewports, v, Click) else [])))
  {
    hide Raise, Inv;
    InvInRange(d);
    var i := FirstHit(d, px, py);
    if i < |d.order| {
      RaisedState(d, i, alive);
      assert Raise(d, i, alive).log + [] == Raise(d, i, alive).log;
    }
  }
}
