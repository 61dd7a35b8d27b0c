/** The pipe of src/drivers/pipe.c: a buffer that is filled from the left and only starts over when
    it has been read empty. */
module Pipe {
  import opened Arithmetic
  import opened Bytes

  // ---- What reads and writes mean

  /** `held` are the bytes not read yet, `used` how much of the capacity is taken up by them and by
      the bytes read since the pipe was last empty. */
  datatype State = State(held: seq<byte>, used: nat, size: nat) {
    predicate Valid() { |held| <= used <= size && (held == [] ==> used == 0) }
  }

  function Read(s: State, n: nat): (r: (State, seq<byte>))
    requires s.Valid()
    ensures r.0.Valid() && r.0.size == s.size
  {
    var count := Min(n, |s.held|);
    var held := s.held[count..];
    (State(held, if held == [] then 0 else s.used, s.size), s.held[..count])
  }

  function Write(s: State, data: seq<byte>): (r: (State, nat))
    requires s.Valid()
    ensures r.0.Valid() && r.0.size == s.size && r.1 <= |data|
  {
    var count := Min(|data|, s.size - s.used);
    (State(s.held + data[..count], s.used + count, s.size), count)
  }

  /** A read delivers the oldest bytes, as many as asked for as far as there are; only one that empties the pipe
      gives its capacity back. */
  lemma ReadDelivers(s: State, n: nat)
    requires s.Valid()
    ensures var (r, got) := Read(s, n);
            && s.held == got + r.held && (|got| == n || (|got| < n && r.held == []))
            && r.used == if r.held == [] then 0 else s.used
  {
  }

  /** A write accepts all of the data if it fits behind what the pipe has used, and otherwise fills it up. */
  lemma WriteAccepts(s: State, data: seq<byte>)
    requires s.Valid()
    ensures var (r, count) := Write(s, data);
            && r.held == s.held + data[..count] && r.used == s.used + count
            && (count == |data| || (count < |data| && r.used == s.size))
  {
  }

  /** What is written into an empty pipe that has room for it is what the next reads deliver. */
  lemma WrittenIsRead(s: State, data: seq<byte>, n: nat)
    requires s.Valid() && s.held == [] && |data| <= s.size && n <= |data|
    ensures var written := Write(s, data).0;
            var (rest, first) := Read(written, n);
            first + Read(rest, |data| - n).1 == data
  {
    hide Read, Write;
    WriteAccepts(s, data);
    var written := Write(s, data).0;
    assert written.held == data by { assert [] + data == data && data[..|data|] == data; }
    ReadDelivers(written, n);
    var (rest, first) := Read(written, n);
    assert |rest.held| == |data| - n;
    ReadDelivers(rest, |data| - n);
    assert rest.held == Read(rest, |data| - n).1 + [];
  }

  datatype Op = OpRead(n: nat) | OpWrite(data: seq<byte>)

  /** A pipe with all it has accepted and all it has delivered. */
  datatype Trace = Trace(s: State, accepted: seq<byte>, delivered: seq<byte>)

  function After(t: Trace, op: Op): (r: Trace)
    requires t.s.Valid()
    ensures r.s.Valid() && r.s.size == t.s.size
  {
    match op
    case OpRead(n) =>
      var (s, got) := Read(t.s, n);
      Trace(s, t.accepted, t.delivered + got)
    case OpWrite(data) =>
      var (s, count) := Write(t.s, data);
      Trace(s, t.accepted + data[..count], t.delivered)
  }

  function Run(t: Trace, ops: seq<Op>): (r: Trace)
    requires t.s.Valid()
    ensures r.s.Valid() && r.s.size == t.s.size
    decreases |ops|
  {
    if ops == [] then t else Run(After(t, ops[0]), ops[1..])
  }

  /** Whatever the interleaving, what was accepted is what was delivered, followed by what is held. */
  lemma {:induction false} BytesAreConserved(t: Trace, ops: seq<Op>)
    requires t.s.Valid() && t.accepted == t.delivered + t.s.held
    ensures var r := Run(t, ops); r.accepted == r.delivered + r.s.held
    decreases |ops|
  {
    if ops != [] {
      OneConserved(t, ops[0]);
      BytesAreConserved(After(t, ops[0]), ops[1..]);
    }
  }

  lemma OneConserved(t: Trace, op: Op)
    requires t.s.Valid() && t.accepted == t.delivered + t.s.held
    ensures After(t, op).accepted == After(t, op).delivered + After(t, op).s.held
  {
    match op
    case OpRead(n) =>
      var (s, got) := Read(t.s, n);
      assert t.s.held == got + s.held;
      assert t.delivered + t.s.held == (t.delivered + got) + s.held;
    case OpWrite(data) =>
      var (s, count) := Write(t.s, data);
      assert t.delivered + s.held == (t.delivered + t.s.held) + data[..count];
  }

  /** No read of the run empties a pipe that held something. */
  predicate NeverDrained(t: Trace, ops: seq<Op>)
    requires t.s.Valid()
    decreases |ops|
  {
    ops != [] ==>
      (&& (ops[0].OpRead? && t.s.held != [] ==> Read(t.s, ops[0].n).0.held != [])
       && NeverDrained(After(t, ops[0]), ops[1..]))
  }

  /** Over any run the room shrinks by at most what was accepted, and by all of it exactly when no read
      emptied the pipe: whatever is read without that gives no room back. */
  lemma {:induction false} RoomNeedsDrain(t: Trace, ops: seq<Op>)
    requires t.s.Valid()
    ensures var r := Run(t, ops);
            && r.s.used - t.s.used <= |r.accepted| - |t.accepted|
            && (r.s.used - t.s.used == |r.accepted| - |t.accepted| <==> NeverDrained(t, ops))
    decreases |ops|
  {
    if ops != [] { RoomNeedsDrain(After(t, ops[0]), ops[1..]); }
  }

  /** Reading everything makes the whole capacity available again; reading less frees nothing. */
  lemma DrainRestores(s: State, n: nat, data: seq<byte>)
    requires s.Valid() && s.held != []
    ensures n >= |s.held| ==> Write(Read(s, n).0, data).1 == Min(|data|, s.size)
    ensures n < |s.held| ==> Write(Read(s, n).0, data).1 == Write(s, data).1
  {
  }

  // ---- The buffer in memory

  const FLAG_READ: int := 1
  const FLAG_WRITE: int := 2

  class Buffer {
    var buf: array<byte>
    var bufSize: nat
    var writeHead: nat
    var readHead: nat
    var readOpen: bool
    var writeOpen: bool

    ghost predicate Valid()
      reads this
    {
      readHead <= writeHead <= bufSize <= buf.Length && (readHead == writeHead ==> readHead == 0)
    }

    ghost function View(): (s: State)
      requires Valid()
      reads this, buf
      ensures s.Valid()
    {
      State(buf[readHead..writeHead], writeHead, bufSize)
    }

    constructor (size: nat)
      ensures Valid() && fresh(buf) && View() == State([], 0, size) && readOpen && writeOpen
    {
      buf := new byte[size](_ => 0);
      bufSize, writeHead, readHead := size, 0, 0;
      readOpen, writeOpen := true, true;
    }

    /** `pipe_read`, for a count that is not negative. */
    method ReadBytes(n: nat) returns (got: seq<byte>)
      requires Valid()
      modifies this
      ensures Valid() && (View(), got) == Read(old(View()), n)
      ensures buf == old(buf) && readOpen == old(readOpen) && writeOpen == old(writeOpen)
    {
      ghost var before := View();
      var available := writeHead - readHead;
      if available == 0 {
        assert before.held == [] && before.held[..0] == before.held[0..] == [];
        return [];
      }
      var count := if n < available then n else available;
      var held := buf[readHead..writeHead];
      assert held == before.held;
      got := held[..count];
      readHead := readHead + count;
      assert buf[readHead..writeHead] == before.held[count..];
      if readHead == writeHead { readHead, writeHead := 0, 0; }
      assert View().held == before.held[count..];
    }

    /** `pipe_write`. */
    method WriteBytes(data: seq<byte>) returns (count: nat)
      requires Valid()
      modifies this, buf
      ensures Valid() && (View(), count) == Write(old(View()), data)
      ensures buf == old(buf) && readOpen == old(readOpen) && writeOpen == old(writeOpen)
    {
      var space := bufSize - writeHead;
      assert View().held + data[..0] == View().held;
      if space == 0 { return 0; }
      count := if |data| < space then |data| else space;
      Copy(buf, writeHead, data[..count]);
      writeHead := writeHead + count;
      assert View().held == old(View()).held + data[..count];
    }

    /** `pipe_close`: when the second side closes, nothing is held or taken any more. */
    method CloseSide(side: int) returns (r: int)
      requires Valid()
      modifies this
      ensures Valid() && readOpen == (old(readOpen) && side != FLAG_READ)
      ensures writeOpen == (old(writeOpen) && side != FLAG_WRITE)
      ensures r == if side != FLAG_READ && side != FLAG_WRITE then -1 else if !readOpen && !writeOpen then 1 else 0
      ensures View() == if r == 1 then State([], 0, 0) else old(View())
    {
      if side == FLAG_READ {
        readOpen := false;
      } else if side == FLAG_WRITE {
        writeOpen := false;
      } else {
        return -1;
      }
      if !writeOpen && !readOpen {
        bufSize, writeHead, readHead := 0, 0, 0;
        return 1;
      }
      return 0;
    }
  }
}
