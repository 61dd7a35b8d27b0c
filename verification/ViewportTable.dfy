/** The list as src/desktop/viewport.c keeps it: a table of viewports and a table of elements of
    which the first `count` are in use. Its methods do what module Viewports says of the order. */
module ViewportTable {
  import opened Options
  import opened Viewports

  datatype Element = Element(inUse: bool, vp: Option<nat>)

  const FREE := Element(false, None)

  class ViewportList {
    const viewports: array<Viewport>
    const elements: array<Element>
    var count: nat
    /** The event handlers called so far. */
    var log: seq<(nat, Event)>

    ghost predicate Shape()
      reads this, elements
    {
      && viewports.Length == MAX_VIEWPORTS && elements.Length == MAX_VIEWPORTS && count <= MAX_VIEWPORTS
      && (forall i :: 0 <= i < count ==>
            elements[i].inUse && elements[i].vp.Some? && elements[i].vp.value < MAX_VIEWPORTS)
      && (forall i :: count <= i < MAX_VIEWPORTS ==> elements[i] == FREE)
    }

    ghost function View(): (d: Desktop)
      requires Shape()
      reads this, elements, viewports
      ensures InRange(d) && |d.order| == count && |d.viewports| == MAX_VIEWPORTS
    {
      Desktop(Order(), viewports[..], log)
    }

    /** The viewports of the used elements. */
    ghost function Order(): (order: seq<nat>)
      requires Shape()
      reads this, elements
      ensures |order| == count && forall i :: 0 <= i < count ==> order[i] == elements[i].vp.value
    {
      seq(count, i requires 0 <= i < count && Shape() reads this, elements => elements[i].vp.value)
    }

    /** `viewport_init_sys`. */
    constructor (blank: Viewport)
      ensures Shape() && fresh(viewports) && fresh(elements)
      ensures View() == Desktop([], seq(MAX_VIEWPORTS, i => blank.(open := false)), []) && Inv(View())
    {
      viewports := new Viewport[MAX_VIEWPORTS](i => blank.(open := false));
      elements := new Element[MAX_VIEWPORTS](i => FREE);
      count := 0;
      log := [];
      new;
      assert viewports[..] == seq(MAX_VIEWPORTS, i => blank.(open := false));
      assert View().order == [];
    }

    method SendEvent(v: nat, e: Event, alive: set<int>)
      requires Shape() && v < MAX_VIEWPORTS
      modifies this, viewports, elements
      ensures Shape() && View() == Send(old(View()), v, e, alive)
      decreases count, 1
    {
      if !viewports[v].handler { return; }
      if viewports[v].owner !in alive {
        CloseViewport(v, alive);
        return;
      }
      log := log + [(v, e)];
    }

    /** An event for the viewport of element `k`, which is a null pointer behind the last one. */
    method SendToElement(k: nat, e: Event, alive: set<int>)
      requires Shape() && k < MAX_VIEWPORTS
      modifies this, viewports, elements
      ensures Shape() && View() == Notify(old(View()), k, e, alive)
      decreases count, 2
    {
      var vp := elements[k].vp;
      if vp.Some? { SendEvent(vp.value, e, alive); }
    }

    method CloseViewport(v: nat, alive: set<int>)
      requires Shape() && v < MAX_VIEWPORTS
      modifies this, viewports, elements
      ensures Shape() && View() == Close(old(View()), v, alive)
      decreases count, 0
    {
      ghost var d := View();
      viewports[v] := viewports[v].Shut();
      var drop := Find(v);
      assert View() == Shutting(d, v) && View().order == d.order;
      if drop == count { return; }
      DropElement(drop);
      SendToElement(0, Focused, alive);
    }

    /** Frees element `drop`. */
    method DropElement(drop: nat)
      requires Shape() && drop < count
      modifies this`count, elements
      ensures Shape() && count == old(count) - 1 && View() == Dropping(old(View()), drop)
    {
      elements[drop] := FREE;
      count := count - 1;
      SwapBack(drop, count);
      hide Order, FREE;
      assert Order() == Without(old(Order()), drop);
    }

    /** Swaps element `from` backward to place `to`. */
    method SwapBack(from: nat, to: nat)
      requires from <= to < elements.Length
      modifies elements
      ensures elements[to] == old(elements[from])
      ensures forall j :: 0 <= j < from || to < j < elements.Length ==> elements[j] == old(elements[j])
      ensures forall j :: from <= j < to ==> elements[j] == old(elements[j + 1])
    {
      var i := from;
      while i < to
        invariant from <= i <= to && elements[i] == old(elements[from])
        invariant forall j :: 0 <= j < from || i < j < elements.Length ==> elements[j] == old(elements[j])
        invariant forall j :: from <= j < i ==> elements[j] == old(elements[j + 1])
      {
        elements[i], elements[i + 1] := elements[i + 1], elements[i];
        i := i + 1;
      }
    }

    /** The element that holds viewport `v`. */
    method Find(v: nat) returns (i: nat)
      requires Shape()
      ensures i == Position(View().order, v)
    {
      i := 0;
      while i < count
        invariant i <= count && Position(View().order, v) == i + Position(View().order[i..], v)
      {
        if elements[i].vp == Some(v) { return; }
        i := i + 1;
      }
    }

    method MoveToFront(idx: nat, alive: set<int>)
      requires Shape() && idx < count
      modifies this, viewports, elements
      ensures Shape() && View() == Raise(old(View()), idx, alive)
    {
      hide Notify, ToFront;
      if idx == 0 { return; }
      Reorder(idx);
      SendToElement(0, Focused, alive);
      SendToElement(1, Unfocused, alive);
    }

    method Reorder(idx: nat)
      requires Shape() && idx < count
      modifies elements
      ensures Shape() && View() == old(View()).(order := ToFront(old(View()).order, idx))
    {
      SwapForward(idx);
      hide Order;
      assert Order() == ToFront(old(Order()), idx);
    }

    /** Swaps element `idx` forward step by step. */
    method SwapForward(idx: nat)
      requires idx < elements.Length
      modifies elements
      ensures elements[0] == old(elements[idx])
      ensures forall j :: 1 <= j <= idx ==> elements[j] == old(elements[j - 1])
      ensures forall j :: idx < j < elements.Length ==> elements[j] == old(elements[j])
    {
      var i := idx;
      while i > 0
        invariant 0 <= i <= idx && elements[i] == old(elements[idx])
        invariant forall j :: 0 <= j < i || idx < j < elements.Length ==> elements[j] == old(elements[j])
        invariant forall j :: i < j <= idx ==> elements[j] == old(elements[j - 1])
      {
        elements[i - 1], elements[i] := elements[i], elements[i - 1];
        i := i - 1;
      }
    }

    method OpenViewport(screen: Screen, w: int, h: int, title: string, owner: int, alive: set<int>)
      returns (v: Option<nat>)
      requires Shape() && Inv(View())
      modifies this, viewports, elements
      ensures Shape() && (View(), v) == Open(old(View()), screen, w, h, title, owner, alive)
    {
      hide Raise, Inv, Fresh, Order;
      if w > screen.w || h > screen.h || w < 0 || h < 0 { return None; }
      var element := FindFree();
      if element == MAX_VIEWPORTS { return None; }
      var free := FindClosed();
      AClosedOne(View());
      AddElement(element, free, Fresh(screen, w, h, title, owner));
      MoveToFront(element, alive);
      v := Some(free);
    }

    /** The first element not in use. */
    method FindFree() returns (element: nat)
      requires Shape()
      ensures element == count
    {
      element := 0;
      while element < MAX_VIEWPORTS && elements[element].inUse
        invariant element <= count
      {
        element := element + 1;
      }
    }

    method AddElement(element: nat, v: nat, p: Viewport)
      requires Shape() && element == count < MAX_VIEWPORTS && v < MAX_VIEWPORTS
      modifies this`count, viewports, elements
      ensures Shape() && count == old(count) + 1
      ensures View() == Desktop(old(View()).order + [v], old(View()).viewports[v := p], log)
    {
      elements[element] := Element(true, Some(v));
      count := count + 1;
      viewports[v] := p;
      hide Order, FREE;
      assert Order() == old(Order()) + [v];
    }

    /** The first viewport that is not open. */
    method FindClosed() returns (v: nat)
      requires Shape()
      ensures v == FirstClosed(View().viewports)
    {
      v := 0;
      while v < MAX_VIEWPORTS && viewports[v].open
        invariant v <= MAX_VIEWPORTS && FirstClosed(viewports[..]) == v + FirstClosed(viewports[v..])
      {
        v := v + 1;
      }
    }

    method Toggle(v: nat, alive: set<int>)
      requires Shape() && v < MAX_VIEWPORTS
      modifies this, viewports, elements
      ensures Shape() && View() == ToggleSize(old(View()), v, alive)
    {
      hide Send, Order;
      var p := viewports[v];
      if !p.minimized {
        var length := 0;
        while length < |p.title| && length < 50
          invariant length <= |p.title| && length <= 50
        {
          length := length + 1;
        }
        viewports[v] := p.(minimized := true, minimizedW := p.w, minimizedH := p.h, w := 8 * length + 3 * 8, h := 8);
        assert View() == old(View()).(viewports := old(View().viewports)[v := p.Toggled()]);
        SendEvent(v, Minimize, alive);
      } else {
        viewports[v] := p.(minimized := false, w := p.minimizedW, h := p.minimizedH);
        assert View() == old(View()).(viewports := old(View().viewports)[v := p.Toggled()]);
        SendEvent(v, Maximize, alive);
      }
    }

    method HandleTitleClick(v: nat, px: int, py: int, alive: set<int>) returns (kind: ClickKind)
      requires Shape() && v < MAX_VIEWPORTS
      modifies this, viewports, elements
      ensures Shape() && (View(), kind) == TitleClick(old(View()), v, px, py, alive)
    {
      hide Send, ToggleSize;
      var p := viewports[v];
      if !p.TitleHit(px, py) { return Nothing; }
      if px > p.x + p.w - 16 && px < p.x + p.w - 8 {
        Toggle(v, alive);
        return Scale;
      } else if px > p.x + p.w - 8 && px < p.x + p.w {
        SendEvent(v, Exit, alive);
        return CloseBox;
      }
      return Nothing;
    }

    method Clicked(px: int, py: int, alive: set<int>) returns (kind: ClickKind, found: Option<nat>)
      requires Shape()
      modifies this, viewports, elements
      ensures Shape() && (View(), kind, found) == ProcessClick(old(View()), px, py, alive)
    {
      hide Raise, TitleClick, Send, Order;
      var i := 0;
      while i < count && !Hits(elements[i].vp.value, px, py)
        invariant i <= count
        invariant forall j :: 0 <= j < i ==> !viewports[elements[j].vp.value].Hit(px, py)
      {
        i := i + 1;
      }
      FirstHitIs(View(), px, py, i);
      if i == count { return Nothing, None; }
      var v := elements[i].vp.value;
      found := Some(v);
      var title, body := viewports[v].TitleHit(px, py), viewports[v].BodyHit(px, py);
      MoveToFront(i, alive);
      if title {
        kind := HandleTitleClick(v, px, py, alive);
        if kind == Nothing { kind := Header; }
      } else if body {
        kind := Body;
        if viewports[v].clicks { SendEvent(v, Click, alive); }
      } else {
        kind := Scale;
      }
    }

    predicate Hits(v: nat, px: int, py: int)
      requires v < viewports.Length
      reads viewports
    {
      viewports[v].Hit(px, py)
    }
  }

  lemma {:induction false} FirstHitIs(d: Desktop, px: int, py: int, i: nat)
    requires InRange(d) && i <= |d.order|
    requires forall j :: 0 <= j < i ==> !d.viewports[d.order[j]].Hit(px, py)
    requires i < |d.order| ==> d.viewports[d.order[i]].Hit(px, py)
    ensures FirstHit(d, px, py) == i
  {
  }
}
