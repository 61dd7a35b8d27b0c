/** vfs_chdir of src/vfs.c: a character buffer edited in place, against a stack of path segments. */
module Chdir {
  import opened Options

  const PATH_SIZE: nat := 100
  const NUL: char := '\0'
  const SLASH: char := '/'

  // ---- Paths as segments

  /** Index of the first slash, or the length. */
  function FirstSlash(s: string): (k: nat)
    ensures k <= |s| && (k < |s| ==> s[k] == SLASH)
    ensures forall i :: 0 <= i < k ==> s[i] != SLASH
  {
    if s == "" || s[0] == SLASH then 0 else 1 + FirstSlash(s[1..])
  }

  /** The parts between slashes, empty ones included. */
  function Split(s: string): (segments: seq<string>)
    ensures |segments| > 0
  {
    var k := FirstSlash(s);
    if k == |s| then [s] else [s[..k]] + Split(s[k + 1..])
  }

  /** Each segment followed by a slash. */
  function Render(stack: seq<string>): string {
    if stack == [] then "" else Render(stack[..|stack| - 1]) + stack[|stack| - 1] + [SLASH]
  }

  predicate Plain(segment: string) {
    segment != "" && SLASH !in segment && NUL !in segment
  }

  /** A drive letter and plain segments above it. */
  predicate Absolute(stack: seq<string>) {
    && 0 < |stack| && |stack[0]| == 1
    && forall i :: 0 <= i < |stack| ==> Plain(stack[i])
  }

  // ---- What one segment does

  function Apply(stack: seq<string>, segment: string): Option<seq<string>> {
    if segment == "" || segment == "." then Some(stack)
    else if segment == ".." then Some(if |stack| <= 1 then stack else stack[..|stack| - 1])
    else if |Render(stack)| + |segment| + 1 >= PATH_SIZE then None
    else Some(stack + [segment])
  }

  /** All segments in order; None when one of them does not fit. */
  function Walk(stack: seq<string>, segments: seq<string>): Option<seq<string>>
    decreases |segments|
  {
    if segments == [] then Some(stack)
    else
      match Apply(stack, segments[0])
      case None => None
      case Some(next) => Walk(next, segments[1..])
  }

  // ---- Rendering is faithful

  lemma {:induction false} RenderLength(stack: seq<string>)
    requires Absolute(stack)
    ensures |Render(stack)| >= 2 && Render(stack)[|Render(stack)| - 1] == SLASH
    ensures |Render(stack)| == 2 <==> |stack| == 1
    ensures NUL !in Render(stack)
  {
    var init := stack[..|stack| - 1];
    if |stack| == 1 {
      assert Render(init) == "";
    } else {
      RenderLength(init);
    }
  }

  lemma SplitFirst(s: string)
    ensures var k := FirstSlash(s); Split(s) == if k == |s| then [s] else [s[..k]] + Split(s[k + 1..])
  {
    hide FirstSlash;
  }

  lemma {:induction false} SplitAppend(s: string, t: string)
    ensures Split(s + [SLASH] + t) == Split(s) + Split(t)
    decreases |s|
  {
    hide FirstSlash, Split;
    var k := FirstSlash(s);
    var u := s + [SLASH] + t;
    FirstSlashIs(u, k);
    SplitFirst(s);
    SplitFirst(u);
    assert u[..k] == s[..k];
    if k == |s| {
      assert u[..k] == s && u[k + 1..] == t;
      assert Split(u) == [s] + Split(t);
    } else {
      SplitAppend(s[k + 1..], t);
      assert u[k + 1..] == s[k + 1..] + [SLASH] + t;
      assert Split(u) == [s[..k]] + (Split(s[k + 1..]) + Split(t));
    }
  }

  lemma {:induction false} FirstSlashIs(s: string, k: nat)
    requires k < |s| && s[k] == SLASH && forall i :: 0 <= i < k ==> s[i] != SLASH
    ensures FirstSlash(s) == k
  {
    var f := FirstSlash(s);
    assert f <= k;
  }

  /** Splitting a rendered stack gives its segments back, and the empty one after the last slash. */
  lemma {:induction false} RenderRoundTrip(stack: seq<string>)
    requires forall i :: 0 <= i < |stack| ==> SLASH !in stack[i]
    ensures Split(Render(stack)) == stack + [""]
  {
    if stack != [] {
      RenderBodySplits(stack);
      SplitAppend(RenderBody(stack), "");
      assert RenderBody(stack) + [SLASH] + "" == Render(stack);
      NoSlash("");
    }
  }

  lemma {:induction false} RenderBodySplits(stack: seq<string>)
    requires stack != [] && forall i :: 0 <= i < |stack| ==> SLASH !in stack[i]
    ensures Split(RenderBody(stack)) == stack
  {
    var init, last := stack[..|stack| - 1], stack[|stack| - 1];
    NoSlash(last);
    assert stack == init + [last];
    if init == [] {
      assert RenderBody(stack) == last;
    } else {
      RenderBodySplits(init);
      SplitAppend(RenderBody(init), last);
      assert RenderBody(init) + [SLASH] + last == RenderBody(stack);
    }
  }

  lemma NoSlash(s: string)
    requires SLASH !in s
    ensures Split(s) == [s]
  {
  }

  /** A rendered stack without its closing slash. */
  function RenderBody(stack: seq<string>): (s: string)
    requires stack != []
    ensures s + [SLASH] == Render(stack)
  {
    Render(stack[..|stack| - 1]) + stack[|stack| - 1]
  }

  // ---- Walks

  lemma {:induction false} WalkConcat(stack: seq<string>, a: seq<string>, b: seq<string>)
    ensures Walk(stack, a + b) == match Walk(stack, a) case None => None case Some(mid) => Walk(mid, b)
    decreases |a|
  {
    hide Apply;
    if a == [] {
      assert a + b == b;
    } else {
      assert (a + b)[1..] == a[1..] + b;
      match Apply(stack, a[0])
      case None =>
      case Some(next) => WalkConcat(next, a[1..], b);
    }
  }

  /** Segments of a path without zero characters. */
  ghost predicate Segments(segments: seq<string>) {
    forall i :: 0 <= i < |segments| ==> SLASH !in segments[i] && NUL !in segments[i]
  }

  lemma {:induction false} SplitSegments(s: string)
    requires NUL !in s
    ensures Segments(Split(s))
    decreases |s|
  {
    var k := FirstSlash(s);
    if k < |s| { SplitSegments(s[k + 1..]); }
  }

  /** No segment of the stack above the drive is "." or "..". */
  ghost predicate Clean(stack: seq<string>) {
    forall i :: 0 < i < |stack| ==> stack[i] != "." && stack[i] != ".."
  }

  lemma ApplyKeeps(stack: seq<string>, segment: string)
    requires Absolute(stack) && SLASH !in segment && NUL !in segment
    ensures var r := Apply(stack, segment);
            r.Some? ==> (&& Absolute(r.value) && r.value[0] == stack[0] && (Clean(stack) ==> Clean(r.value))
                         && (|Render(stack)| < PATH_SIZE ==> |Render(r.value)| < PATH_SIZE))
  {
    var r := Apply(stack, segment);
    if r.Some? && |r.value| > |stack| { assert r.value[..|stack|] == stack; }
    if r.Some? && |r.value| < |stack| { assert Render(stack) == Render(r.value) + stack[|stack| - 1] + [SLASH]; }
  }

  /** A walk never leaves the drive: it ends in a stack over the same drive letter that fits the
      buffer and has no dot segments if it started without. */
  lemma {:induction false} WalkKeeps(stack: seq<string>, segments: seq<string>)
    requires Absolute(stack) && Segments(segments) && |Render(stack)| < PATH_SIZE
    ensures var r := Walk(stack, segments);
            r.Some? ==> (&& Absolute(r.value) && r.value[0] == stack[0] && |Render(r.value)| < PATH_SIZE
                         && (Clean(stack) ==> Clean(r.value)))
    decreases |segments|
  {
    hide Apply, Absolute, Clean;
    if segments != [] {
      ApplyKeeps(stack, segments[0]);
      match Apply(stack, segments[0])
      case None =>
      case Some(next) => WalkKeeps(next, segments[1..]);
    }
  }

  // ---- Absolute paths

  /** An absolute path without its first slash, and with one at its end. */
  function Entered(arg: string): string
    requires |arg| > 1
  {
    if arg[|arg| - 1] == SLASH then arg[1..] else arg[1..] + [SLASH]
  }

  /** The segments of an absolute path, without the empty one after a closing slash. */
  function Named(arg: string): seq<string>
    requires |arg| > 1
  {
    var segments := Split(arg[1..]);
    if segments[|segments| - 1] == "" then segments[..|segments| - 1] else segments
  }

  lemma RenderMore(stack: seq<string>, segment: string)
    ensures Render(stack + [segment]) == Render(stack) + (segment + [SLASH])
  {
    assert (stack + [segment])[..|stack|] == stack;
  }

  lemma Regroup<T>(a: seq<T>, b: seq<T>, c: seq<T>)
    ensures (a + b) + c == a + (b + c)
  {
  }

  lemma LastApart<T>(s: seq<T>)
    requires s != []
    ensures s == s[..|s| - 1] + [s[|s| - 1]]
  {
  }

  lemma CutAt(s: string, k: nat)
    requires k < |s| && s[k] == SLASH
    ensures s == (s[..k] + [SLASH]) + s[k + 1..]
  {
  }

  lemma {:induction false} RenderFront(first: string, rest: seq<string>)
    ensures Render([first] + rest) == (first + [SLASH]) + Render(rest)
  {
    assert Render([]) == "";
    hide Render;
    if rest == [] {
      assert [first] + rest == rest + [first];
      RenderMore(rest, first);
    } else {
      var init, last := rest[..|rest| - 1], rest[|rest| - 1];
      RenderFront(first, init);
      LastApart(rest);
      Regroup([first], init, [last]);
      RenderMore([first] + init, last);
      RenderMore(init, last);
      Regroup(first + [SLASH], Render(init), last + [SLASH]);
    }
  }

  lemma {:induction false} SplitRenders(s: string)
    ensures Render(Split(s)) == s + [SLASH]
    decreases |s|
  {
    assert Render([]) == "";
    hide Render, Split, FirstSlash;
    var k := FirstSlash(s);
    SplitFirst(s);
    if k == |s| {
      RenderFront(s, []);
      assert [s] + [] == [s];
    } else {
      var rest := s[k + 1..];
      SplitRenders(rest);
      RenderFront(s[..k], Split(rest));
      Regroup(s[..k] + [SLASH], rest, [SLASH]);
      CutAt(s, k);
    }
  }

  // ---- The method

  /** struct DIRECTORY: a buffer that holds a zero-terminated string. */
  class Directory {
    const path: array<char>

    constructor (stack: seq<string>)
      requires Absolute(stack) && |Render(stack)| < PATH_SIZE
      ensures Holds(stack) && fresh(path)
    {
      var s := Render(stack);
      path := new char[PATH_SIZE](i requires 0 <= i < PATH_SIZE => if i < |s| then s[i] else NUL);
      new;
      assert path[..|s|] == s;
    }

    /** The directory is the rendering of `stack`. */
    ghost predicate Holds(stack: seq<string>)
      reads path
    {
      && path.Length == PATH_SIZE && Absolute(stack) && |Render(stack)| < PATH_SIZE
      && path[..|Render(stack)|] == Render(stack) && path[|Render(stack)|] == NUL
    }

    /** vfs_chdir on a relative path. `opens` answers whether the root exists and the link can be
        followed for a normalised path. */
    method Chdir(arg: string, opens: string -> bool, ghost stack: seq<string>) returns (r: nat)
      requires Holds(stack) && NUL !in arg && (arg == "" || arg[0] != SLASH)
      modifies path
      ensures var walked := Walk(stack, Split(arg));
              if walked.Some? && opens(Render(walked.value))
              then && r == 0 && Holds(walked.value)
                   && (forall i :: |Render(walked.value)| <= i < PATH_SIZE ==> path[i] == NUL)
              else r == 1 && path[..] == old(path[..])
    {
      hide Split, Walk, Apply, Render, Absolute;
      var newpath := new char[PATH_SIZE](
        i requires 0 <= i < PATH_SIZE reads path requires path.Length == PATH_SIZE => path[i]);
      assert newpath[..] == path[..];
      RenderLength(stack);
      var len := Length(newpath, Render(stack));
      var fits, end, now := Normalise(newpath, len, arg, stack);
      if !fits { return 1; }
      if !opens(newpath[..end]) { return 1; }
      Store(newpath, end, now);
      return 0;
    }

    /** vfs_chdir on an absolute path, which is taken over as it stands. `opens` answers whether its
        root exists and the link can be followed. */
    method ChdirAbsolute(arg: string, opens: string -> bool) returns (r: nat)
      requires path.Length == PATH_SIZE && arg != "" && arg[0] == SLASH
      requires opens(arg) ==> |arg| > 1 && |Entered(arg)| <= PATH_SIZE
      modifies path
      ensures r == if opens(arg) then 0 else 1
      ensures !opens(arg) ==> path[..] == old(path[..])
      ensures opens(arg) ==> forall i :: 0 <= i < PATH_SIZE ==>
                path[i] == if i < |Entered(arg)| then Entered(arg)[i] else NUL
    {
      if !opens(arg) { return 1; }
      var n := |arg|;
      for k := 0 to PATH_SIZE
        invariant forall j :: 0 <= j < k ==> path[j] == if j < n - 1 then arg[j + 1] else NUL
      {
        path[k] := if k < n - 1 then arg[k + 1] else NUL;
      }
      if path[n - 2] != SLASH { path[n - 1] := SLASH; }
      return 0;
    }

    /** The zeroing and copying at the end. */
    method Store(newpath: array<char>, len: nat, ghost stack: seq<string>)
      requires path.Length == PATH_SIZE == newpath.Length && newpath != path && Absolute(stack)
      requires len == |Render(stack)| < PATH_SIZE && newpath[..len] == Render(stack)
      modifies path
      ensures Holds(stack) && forall i :: len <= i < PATH_SIZE ==> path[i] == NUL
    {
      hide Render, Absolute;
      for k := 0 to PATH_SIZE
        invariant newpath[..] == old(newpath[..])
        invariant forall j :: 0 <= j < k ==> path[j] == if j < len then newpath[j] else NUL
      {
        path[k] := if k < len then newpath[k] else NUL;
      }
      assert path[..len] == newpath[..len];
    }
  }

  /** The loop over the argument, on a copy of the directory buffer. */
  method Normalise(newpath: array<char>, start: nat, arg: string, ghost stack: seq<string>)
    returns (fits: bool, len: nat, ghost now: seq<string>)
    requires newpath.Length == PATH_SIZE && Absolute(stack) && NUL !in arg
    requires start == |Render(stack)| < PATH_SIZE && newpath[..start] == Render(stack) && newpath[start] == NUL
    modifies newpath
    ensures fits == Walk(stack, Split(arg)).Some?
    ensures fits ==> && Walk(stack, Split(arg)) == Some(now) && Absolute(now)
                     && len == |Render(now)| < PATH_SIZE && newpath[..len] == Render(now)
  {
    hide Split, Walk, FirstSlash, Render, Absolute;
    var i := 0;
    fits, now, len := true, stack, start;
    assert arg[0..] == arg;
    while i < |arg|
      invariant 0 <= i <= |arg| && Shows(newpath, len, now)
      invariant Walk(stack, Split(arg)) == Walk(now, Split(arg[i..]))
    {
      var from := i;
      i := SegmentEnd(arg, i);
      var segment := arg[from..i];
      ghost var rest := if i < |arg| then i + 1 else i;
      assert arg[from..][..i - from] == segment && arg[from..][rest - from..] == arg[rest..];
      NextSegment(now, arg[from..], segment, arg[rest..]);
      NoSlashBefore(arg[from..], segment);
      if i < |arg| { i := i + 1; }
      fits, len, now := ApplySegment(newpath, len, segment, now);
      if !fits { return; }
    }
    assert arg[i..] == "";
    WalkNothing(now);
    fits := true;
  }

  /** The buffer shows `stack` in its first `len` characters, and a zero behind them. */
  ghost predicate Shows(a: array<char>, len: nat, stack: seq<string>)
    reads a
  {
    && a.Length == PATH_SIZE && Absolute(stack)
    && len == |Render(stack)| < PATH_SIZE && a[..len] == Render(stack) && a[len] == NUL
  }

  lemma NoSlashBefore(s: string, segment: string)
    requires segment == s[..FirstSlash(s)]
    ensures SLASH !in segment
  {
  }

  /** The tests on one segment: skip it, step back, or append it. */
  method ApplySegment(newpath: array<char>, start: nat, segment: string, ghost stack: seq<string>)
    returns (fits: bool, len: nat, ghost now: seq<string>)
    requires Shows(newpath, start, stack) && SLASH !in segment && NUL !in segment
    modifies newpath
    ensures fits == Apply(stack, segment).Some?
    ensures fits ==> Apply(stack, segment) == Some(now) && Shows(newpath, len, now)
  {
    hide Render, Absolute;
    fits, len, now := true, start, stack;
    ApplyKeeps(stack, segment);
    if segment == "" || segment == "." { return; }
    RenderLength(stack);
    if segment == ".." {
      if len <= 2 { return; }
      len := PopSegment(newpath, len, now);
      now := now[..|now| - 1];
      newpath[len] := NUL;
      return;
    }
    if len + |segment| + 1 >= PATH_SIZE { return false, len, now; }
    len := PushSegment(newpath, len, segment, now);
    now := now + [segment];
  }

  lemma WalkNothing(stack: seq<string>)
    ensures Walk(stack, Split("")) == Some(stack)
  {
    assert Split("") == [""];
    EmptySegment(stack);
  }

  /** The length loop. */
  method Length(a: array<char>, ghost s: string) returns (len: nat)
    requires |s| < a.Length && a[..|s|] == s && a[|s|] == NUL && NUL !in s
    ensures len == |s|
  {
    len := 0;
    assert forall k :: 0 <= k < |s| ==> a[k] == s[k] != NUL;
    while a[len] != NUL && len < a.Length
      invariant len <= |s|
      decreases |s| - len
    {
      len := len + 1;
    }
  }

  method SegmentEnd(arg: string, start: nat) returns (i: nat)
    requires start <= |arg|
    ensures start <= i <= |arg| && i - start == FirstSlash(arg[start..])
  {
    i := start;
    while i < |arg| && arg[i] != SLASH
      invariant start <= i <= |arg| && forall k :: start <= k < i ==> arg[k] != SLASH
    {
      i := i + 1;
    }
    var k := FirstSlash(arg[start..]);
    assert k < |arg| - start ==> arg[start + k] == SLASH;
    assert forall j :: 0 <= j < k ==> arg[start..][j] == arg[start + j];
    if i < |arg| { assert arg[start..][i - start] == SLASH; }
  }

  lemma NextSegment(stack: seq<string>, s: string, segment: string, rest: string)
    requires s != "" && segment == s[..FirstSlash(s)]
    requires rest == if FirstSlash(s) < |s| then s[FirstSlash(s) + 1..] else ""
    ensures Walk(stack, Split(s)) ==
            match Apply(stack, segment) case None => None case Some(next) => Walk(next, Split(rest))
  {
    hide Apply;
    assert s[..|s|] == s;
    if FirstSlash(s) == |s| {
      assert Split("") == [""];
      match Apply(stack, segment)
      case None =>
      case Some(next) => EmptySegment(next);
    }
  }

  lemma EmptySegment(stack: seq<string>)
    ensures Walk(stack, [""]) == Some(stack) == Walk(stack, [])
  {
  }

  /** ".." steps back behind the trailing slash to the previous one. */
  method PopSegment(a: array<char>, len: nat, ghost stack: seq<string>) returns (r: nat)
    requires Absolute(stack) && |stack| > 1 && len == |Render(stack)| < a.Length && a[..len] == Render(stack)
    ensures r == |Render(stack[..|stack| - 1])| < len && a[..r] == Render(stack[..|stack| - 1])
  {
    ghost var init, last := stack[..|stack| - 1], stack[|stack| - 1];
    RenderLength(init);
    ghost var end := |Render(init)|;
    assert forall k :: 0 <= k < len ==> a[k] == (Render(init) + last + [SLASH])[k];
    assert forall k :: end <= k < len - 1 ==> a[k] == last[k - end] != SLASH;
    var j := len - 2;
    while j > 0 && a[j] != SLASH
      invariant end - 1 <= j <= len - 2
    {
      assert j != end - 1;
      j := j - 1;
    }
    assert j == end - 1;
    r := j + 1;
    assert a[..r] == Render(init);
  }

  method PushSegment(a: array<char>, len: nat, segment: string, ghost stack: seq<string>) returns (r: nat)
    requires len == |Render(stack)| && len + |segment| + 1 < a.Length && a[..len] == Render(stack)
    modifies a
    ensures r == len + |segment| + 1 && a[..r] == Render(stack + [segment]) && a[r] == NUL
  {
    for k := 0 to |segment|
      invariant a[..len] == Render(stack) && a[len..len + k] == segment[..k]
    {
      a[len + k] := segment[k];
    }
    r := len + |segment|;
    a[r] := SLASH;
    r := r + 1;
    a[r] := NUL;
    assert (stack + [segment])[..|stack|] == stack;
    assert a[..r] == a[..len] + a[len..len + |segment|] + [SLASH];
  }

  // ---- Main results

  /** Changing directory along p and then along q is changing along p/q. */
  lemma ChdirComposes(stack: seq<string>, p: string, q: string)
    ensures Walk(stack, Split(p + [SLASH] + q)) ==
            match Walk(stack, Split(p)) case None => None case Some(mid) => Walk(mid, Split(q))
  {
    SplitAppend(p, q);
    WalkConcat(stack, Split(p), Split(q));
  }

  /** Going down and up again leads back, unless the name does not fit; at the drive root up stays. */
  lemma UpUndoesDown(stack: seq<string>, name: string)
    requires Absolute(stack) && Plain(name) && name != "." && name != ".."
    ensures Walk(stack, Split(name + [SLASH] + "..")) ==
            if |Render(stack)| + |name| + 1 < PATH_SIZE then Some(stack) else None
    ensures |stack| == 1 ==> Walk(stack, Split("..")) == Some(stack)
  {
    hide Split, Render;
    SplitAppend(name, "..");
    NoSlash(name);
    NoSlash("..");
    assert (stack + [name])[..|stack|] == stack;
    var segments := [name] + [".."];
    assert segments[1..] == [".."] && [".."][1..] == [];
  }

  /** A trailing slash or dot does not matter. */
  lemma DotsAreNeutral(stack: seq<string>, path: string)
    ensures Walk(stack, Split(path + [SLASH] + "")) == Walk(stack, Split(path))
    ensures Walk(stack, Split(path + [SLASH] + ".")) == Walk(stack, Split(path))
  {
    hide Split;
    ChdirComposes(stack, path, "");
    ChdirComposes(stack, path, ".");
    NoSlash("");
    NoSlash(".");
    match Walk(stack, Split(path))
    case None =>
    case Some(mid) => assert Walk(mid, [""]) == Walk(mid, ["."]) == Some(mid);
  }

  /** The string a directory holds determines its stack. */
  lemma RenderInjective(a: seq<string>, b: seq<string>)
    requires Absolute(a) && Absolute(b) && Render(a) == Render(b)
    ensures a == b
  {
    RenderRoundTrip(a);
    RenderRoundTrip(b);
    assert a == (a + [""])[..|a|] && b == (b + [""])[..|b|];
  }

  /** The text of an absolute path renders its segments. */
  lemma NamedRenders(arg: string)
    requires |arg| > 1
    ensures Render(Named(arg)) == Entered(arg)
  {
    hide Split;
    var s := arg[1..];
    var segments := Split(s);
    SplitRenders(s);
    if arg[|arg| - 1] == SLASH {
      var t := s[..|s| - 1];
      SplitAppend(t, "");
      NoSlash("");
      assert t + [SLASH] + "" == s;
      assert segments[..|segments| - 1] == Split(t);
      SplitRenders(t);
    } else {
      if segments[|segments| - 1] == "" { LastEmpty(segments, s); }
    }
  }

  lemma LastEmpty(segments: seq<string>, s: string)
    requires segments != [] && Render(segments) == s + [SLASH] && segments[|segments| - 1] == ""
    ensures s == "" || s[|s| - 1] == SLASH
  {
    var init := segments[..|segments| - 1];
    assert Render(segments) == Render(init) + [SLASH];
    assert Render(init) == (Render(init) + [SLASH])[..|Render(init)|] == s;
  }

  /** An absolute path leaves a directory exactly when its segments are a drive letter and plain names. */
  lemma EnteredIsDirectory(arg: string)
    requires |arg| > 1
    ensures (exists stack :: Absolute(stack) && Render(stack) == Entered(arg)) <==> Absolute(Named(arg))
  {
    hide Render, Split, Named, Entered;
    NamedRenders(arg);
    forall stack | Absolute(stack) && Render(stack) == Entered(arg) ensures stack == Named(arg) {
      NamedSplits(arg);
      RenderRoundTrip(stack);
      assert (stack + [""])[..|stack|] == stack && (Named(arg) + [""])[..|Named(arg)|] == Named(arg);
    }
  }

  lemma NamedSplits(arg: string)
    requires |arg| > 1
    ensures Split(Entered(arg)) == Named(arg) + [""]
  {
    hide Render;
    NamedRenders(arg);
    NoSlashInSplit(arg[1..]);
    RenderRoundTrip(Named(arg));
  }

  lemma {:induction false} NoSlashInSplit(s: string)
    ensures forall i :: 0 <= i < |Split(s)| ==> SLASH !in Split(s)[i]
    decreases |s|
  {
    var k := FirstSlash(s);
    if k < |s| { NoSlashInSplit(s[k + 1..]); }
  }

  /** It leaves what a change relative to the drive would leave exactly when it has no dot segments. */
  lemma AbsoluteIsWalk(arg: string)
    requires |arg| > 1 && Absolute(Named(arg)) && |Entered(arg)| < PATH_SIZE
    ensures Walk(Named(arg)[..1], Named(arg)[1..]) == Some(Named(arg)) <==> Clean(Named(arg))
  {
    hide Render, Split, Entered, Walk, Absolute, Named;
    NamedRenders(arg);
    var stack := Named(arg);
    assert |stack| > 0 by { LeastOne(stack); }
    if Clean(stack) { WalkDown(stack); }
    WalkLength(stack[..1], stack[1..]);
    if Walk(stack[..1], stack[1..]) == Some(stack) {
      forall i | 0 < i < |stack| ensures stack[i] != "." && stack[i] != ".." { assert stack[i] == stack[1..][i - 1]; }
    }
  }

  lemma LeastOne(stack: seq<string>)
    requires Absolute(stack)
    ensures |stack| > 0
  {
  }

  /** A walk grows the stack by at most its segments, and by all of them only if none is empty or a dot. */
  lemma {:induction false} WalkLength(stack: seq<string>, segments: seq<string>)
    ensures var r := Walk(stack, segments);
            r.Some? ==> (&& |r.value| <= |stack| + |segments|
                         && (|r.value| == |stack| + |segments| ==>
                               forall i :: 0 <= i < |segments| ==> segments[i] != "." && segments[i] != ".."))
    decreases |segments|
  {
    if segments != [] {
      match Apply(stack, segments[0])
      case None =>
      case Some(next) => WalkLength(next, segments[1..]);
    }
  }

  /** An empty segment or a drive name of two letters leaves no directory. */
  lemma NotADirectory()
    ensures !Absolute(Named("/C//a")) && !Absolute(Named("/CD/a"))
  {
    hide Split;
    var s, t := "C" + [SLASH] + ("" + [SLASH] + "a"), "CD" + [SLASH] + "a";
    assert "/C//a"[1..] == s && "/CD/a"[1..] == t;
    SplitAppend("C", "" + [SLASH] + "a");
    SplitAppend("", "a");
    SplitAppend("CD", "a");
    OneName("C");
    OneName("");
    OneName("CD");
    OneName("a");
    assert Split(s) == ["C", "", "a"] && Split(t) == ["CD", "a"];
    assert Named("/C//a")[1] == "" && Named("/CD/a")[0] == "CD";
  }

  /** A dot segment stays in the directory. */
  lemma DotsStay()
    ensures Absolute(Named("/C/..")) && !Clean(Named("/C/.."))
  {
    hide Split;
    var s := "C" + [SLASH] + "..";
    assert "/C/.."[1..] == s;
    SplitAppend("C", "..");
    OneName("C");
    OneName("..");
    assert Split(s) == ["C", ".."];
    assert Named("/C/..") == ["C", ".."];
  }

  lemma OneName(s: string)
    requires forall c :: c in s ==> c != SLASH
    ensures Split(s) == [s]
  {
    NoSlash(s);
  }

  /** Walking along what a stack renders to, from its drive, arrives at that stack. */
  lemma {:induction false} WalkRendered(stack: seq<string>)
    requires Absolute(stack) && Clean(stack) && |Render(stack)| < PATH_SIZE
    ensures Walk(stack[..1], stack[1..] + [""]) == Some(stack)
  {
    hide Walk, Render, Absolute, Clean;
    LastFits(stack);
    WalkDown(stack);
    WalkConcat(stack[..1], stack[1..], [""]);
    EmptySegment(stack);
  }

  lemma {:induction false} WalkDown(stack: seq<string>)
    requires Absolute(stack) && Clean(stack) && |Render(stack)| < PATH_SIZE
    ensures Walk(stack[..1], stack[1..]) == Some(stack)
  {
    hide Walk, Apply, Render, Absolute, Clean;
    LastFits(stack);
    var init, last := stack[..|stack| - 1], stack[|stack| - 1];
    if |stack| == 1 {
      assert stack[..1] == stack && stack[1..] == [];
      EmptySegment(stack);
    } else {
      WalkDown(init);
      assert init[..1] == stack[..1] && stack[1..] == init[1..] + [last];
      WalkConcat(stack[..1], init[1..], [last]);
      OneSegment(init, last);
      assert init + [last] == stack;
    }
  }

  lemma OneSegment(stack: seq<string>, segment: string)
    ensures Walk(stack, [segment]) == Apply(stack, segment)
  {
    hide Apply;
    assert [segment][1..] == [];
  }

  /** The last segment of a directory above its drive fits behind the others. */
  lemma LastFits(stack: seq<string>)
    requires Absolute(stack) && Clean(stack) && |Render(stack)| < PATH_SIZE
    ensures |stack| > 0
    ensures |stack| > 1 ==>
              (var init, last := stack[..|stack| - 1], stack[|stack| - 1];
               && Absolute(init) && Clean(init) && |Render(init)| < PATH_SIZE
               && Apply(init, last) == Some(init + [last]))
  {
  }
}
