/** One process of the ring as sequential code: the loops of Lab1/ring.c on its descriptor table
    and on the ints it reads and writes. */
module RingProcess {
  import opened RingSystem
  import opened RingInvariant
  import opened RingTheorems

  /** The numbers a process prints from its hop j on: every n-th number up to the stop number. */
  function Share(c: Config, j: nat): seq<int>
    requires c.Valid()
    decreases c.stop + c.n - j
  {
    if j > c.stop then [] else [j] + Share(c, j + c.n)
  }

  /** The ints a process writes from its hop j on. */
  function Outbox(c: Config, j: nat): seq<int>
    requires c.Valid()
    decreases c.stop + 2 * c.n - j
  {
    if j >= c.stop + c.n then [] else [Value(c, j)] + Outbox(c, j + c.n)
  }

  /** The ints that the previous process writes and this one reads, from its hop j on. */
  function Inbox(c: Config, j: nat): seq<int>
    requires c.Valid() && j > 0
    decreases c.stop + 2 * c.n - j
  {
    if j > c.stop + c.n then [] else [Value(c, j - 1)] + Inbox(c, j + c.n)
  }

  /** What one process writes is what the next one reads; the root gets the writes of the last
      process, one lap later. */
  lemma {:induction false} InboxIsOutbox(c: Config, j: nat)
    requires c.Valid()
    ensures Inbox(c, j + 1) == Outbox(c, j)
    decreases c.stop + 2 * c.n - j
  {
    if j < c.stop + c.n {
      InboxIsOutbox(c, j + c.n);
    }
  }

  /** The first int that process p reads belongs to this hop. */
  function FirstRead(c: Config, p: nat): (j: nat)
    requires c.Valid()
    ensures j > 0
  {
    if p == 0 then c.n else p
  }

  // ----- what the code of cycleNumber does with any ints

  /** What a process has printed and written, what it has not read, and whether it has left
      cycleNumber or waits in a read for ever. */
  datatype Trace = Trace(printed: seq<int>, written: seq<int>, unread: seq<int>, finished: bool)

  /** The loop with `number`, and what follows it. */
  function Cycle(c: Config, number: int, inbox: seq<int>): Trace
    decreases |inbox|
  {
    if number == SIGNAL_STOP then Trace([], [SIGNAL_STOP], inbox, true)
    else if number == c.stop then
      Trace([number], [SIGNAL_STOP], if inbox == [] then [] else inbox[1..], inbox != [])
    else if inbox == [] then Trace([number], [number + 1], [], false)
    else
      var rest := Cycle(c, inbox[0], inbox[1..]);
      Trace([number] + rest.printed, [number + 1] + rest.written, rest.unread, rest.finished)
  }

  function CycleFromStart(c: Config, nr: nat, inbox: seq<int>): Trace {
    if nr == 0 then Cycle(c, 0, inbox)
    else if inbox == [] then Trace([], [], [], false)
    else Cycle(c, inbox[0], inbox[1..])
  }

  /** A process that waits in the loop has written one int for each number it printed: it writes
      before it reads. */
  lemma {:induction false} WaitingHasWritten(c: Config, number: int, inbox: seq<int>)
    requires !Cycle(c, number, inbox).finished
    ensures |Cycle(c, number, inbox).written| == |Cycle(c, number, inbox).printed| > 0
    ensures Cycle(c, number, inbox).unread == []
    decreases |inbox|
  {
    if number != c.stop && inbox != [] {
      WaitingHasWritten(c, inbox[0], inbox[1..]);
    }
  }

  lemma StartHasWritten(c: Config, nr: nat, inbox: seq<int>)
    ensures var does := CycleFromStart(c, nr, inbox);
            !does.finished ==> |does.written| == |does.printed| && does.unread == []
  {
    var does := CycleFromStart(c, nr, inbox);
    if !does.finished && nr == 0 {
      WaitingHasWritten(c, 0, inbox);
    } else if !does.finished && inbox != [] {
      WaitingHasWritten(c, inbox[0], inbox[1..]);
    }
  }

  /** Everything happens at int m, the first one that is the stop signal or the stop number, or
      never if m is the number of ints. All before it are printed and passed on incremented; there
      the stop signal is written, once; and behind the stop number one more int is read and dropped,
      or the process waits for it. */
  predicate HappensAt(c: Config, all: seq<int>, m: nat, does: Trace) {
    && IsFirst(c, all, m)
    && does.printed == (if m < |all| && all[m] == c.stop then all[..m + 1] else all[..m])
    && IsPassedOn(all, m, does.written)
    && (does.finished <==> m < |all| && (all[m] == c.stop ==> m + 1 < |all|))
    && does.unread == (if m == |all| then []
                       else if all[m] == c.stop && m + 1 < |all| then all[m + 2..]
                       else all[m + 1..])
  }

  predicate IsFirst(c: Config, all: seq<int>, m: nat) {
    && m <= |all| && (forall i :: 0 <= i < m ==> all[i] != -1 && all[i] != c.stop)
    && (m < |all| ==> all[m] == -1 || all[m] == c.stop)
  }

  predicate IsPassedOn(all: seq<int>, m: nat, written: seq<int>) {
    && m <= |all| && |written| == (if m < |all| then m + 1 else m)
    && (forall i :: 0 <= i < m ==> written[i] == all[i] + 1)
    && (m < |all| ==> written[m] == -1)
  }

  lemma PassedOnLater(c: Config, x: int, all: seq<int>, m: nat, written: seq<int>)
    requires x != -1 && x != c.stop && IsFirst(c, all, m) && IsPassedOn(all, m, written)
    ensures IsFirst(c, [x] + all, m + 1) && IsPassedOn([x] + all, m + 1, [x + 1] + written)
  {
  }

  lemma HappensLater(c: Config, x: int, all: seq<int>, m: nat, does: Trace)
    requires x != -1 && x != c.stop && HappensAt(c, all, m, does)
    ensures HappensAt(c, [x] + all, m + 1,
                      Trace([x] + does.printed, [x + 1] + does.written, does.unread, does.finished))
  {
    var longer := [x] + all;
    PassedOnLater(c, x, all, m, does.written);
    assert longer[..m + 1] == [x] + all[..m];
    if m < |all| {
      assert longer[m + 1] == all[m];
      assert longer[..m + 2] == [x] + all[..m + 1];
      assert longer[m + 2..] == all[m + 1..];
      assert m + 1 < |all| ==> longer[m + 3..] == all[m + 2..];
    }
  }

  /** The code on any ints whatever, said without following its lap. */
  lemma {:induction false} CycleExactly(c: Config, number: int, inbox: seq<int>) returns (m: nat)
    ensures HappensAt(c, [number] + inbox, m, Cycle(c, number, inbox))
    decreases |inbox|
  {
    if number == -1 || number == c.stop {
      m := 0;
    } else if inbox == [] {
      m := 1;
    } else {
      m := CycleExactly(c, inbox[0], inbox[1..]);
      assert inbox == [inbox[0]] + inbox[1..];
      HappensLater(c, number, inbox, m, Cycle(c, inbox[0], inbox[1..]));
      m := m + 1;
    }
  }

  lemma {:induction false} CycleInRing(c: Config, j: nat)
    requires c.Valid() && j < c.stop + c.n
    ensures Cycle(c, if j <= c.stop then j else SIGNAL_STOP, Inbox(c, j + c.n))
         == Trace(Share(c, j), Outbox(c, j), [], true)
    decreases c.stop + c.n - j
  {
    var inbox := Inbox(c, j + c.n);
    if j < c.stop {
      CycleInRing(c, j + c.n);
      assert inbox == [Value(c, j + c.n - 1)] + Inbox(c, j + c.n + c.n);
    } else {
      assert Outbox(c, j) == [SIGNAL_STOP] + Outbox(c, j + c.n);
      assert j == c.stop ==> inbox == [SIGNAL_STOP] + Inbox(c, j + c.n + c.n);
    }
  }

  /** On the ints that reach it in the ring, a process prints exactly its share of the numbers,
      passes each on incremented, forwards the stop signal once, leaves nothing unread and
      finishes. */
  lemma ProcessInRing(c: Config, p: nat)
    requires c.Valid() && p < c.n
    ensures CycleFromStart(c, p, Inbox(c, FirstRead(c, p))) == Trace(Share(c, p), Outbox(c, p), [], true)
  {
    CycleInRing(c, p);
    if p > 0 {
      assert Inbox(c, p) == [Value(c, p - 1)] + Inbox(c, p + c.n);
    }
  }

  // ----- the processes of the interleaved system do just this

  /** The numbers of process p in a history, in order. */
  function Of(lines: seq<Line>, p: nat): seq<int> {
    if lines == [] then []
    else (if lines[0].process == p then [lines[0].number] else []) + Of(lines[1..], p)
  }

  lemma HopStep(n: nat, k: nat, p: nat)
    requires p < n
    ensures p == Turn(n, k) ==> NextHop(n, k, p) == k && NextHop(n, k + 1, p) == k + n
    ensures p != Turn(n, k) ==> NextHop(n, k, p) == NextHop(n, k + 1, p) > k
    ensures NextHop(n, k, p) >= k
  {
  }

  /** Line k of a history belongs to the process that writes hop `hop` and has this number. */
  predicate IsLine(c: Config, lines: seq<Line>, k: nat, hop: nat, number: int)
    requires c.Valid() && k < |lines|
  {
    lines[k] == Line(Turn(c.n, hop), number)
  }

  lemma OfStep(lines: seq<Line>, k: nat, p: nat)
    requires k < |lines|
    ensures Of(lines[k..], p)
         == (if lines[k].process == p then [lines[k].number] else []) + Of(lines[k + 1..], p)
  {
    assert lines[k..][0] == lines[k] && lines[k..][1..] == lines[k + 1..];
  }

  lemma {:induction false} PrintedFrom(c: Config, printed: seq<Line>, k: nat, p: nat)
    requires c.Valid() && p < c.n && k <= |printed| == c.stop + 1
    requires forall i :: 0 <= i < |printed| ==> IsLine(c, printed, i, i, i)
    ensures Of(printed[k..], p) == Share(c, NextHop(c.n, k, p))
    decreases |printed| - k
  {
    HopStep(c.n, k, p);
    if k < |printed| {
      PrintedFrom(c, printed, k + 1, p);
      OfStep(printed, k, p);
      assert IsLine(c, printed, k, k, k);
    }
  }

  lemma {:induction false} WroteFrom(c: Config, wrote: seq<Line>, k: nat, p: nat)
    requires c.Valid() && p < c.n && k <= |wrote| == c.stop + c.n
    requires forall j :: 0 <= j < |wrote| ==> IsLine(c, wrote, j, j, Value(c, j))
    ensures Of(wrote[k..], p) == Outbox(c, NextHop(c.n, k, p))
    decreases |wrote| - k
  {
    HopStep(c.n, k, p);
    if k < |wrote| {
      WroteFrom(c, wrote, k + 1, p);
      OfStep(wrote, k, p);
      assert IsLine(c, wrote, k, k, Value(c, k));
    }
  }

  lemma {:induction false} GotFrom(c: Config, got: seq<Line>, k: nat, p: nat)
    requires c.Valid() && p < c.n && k <= |got| == c.stop + c.n
    requires forall j :: 0 <= j < |got| ==> IsLine(c, got, j, j + 1, Value(c, j))
    ensures Of(got[k..], p) == Inbox(c, NextHop(c.n, k + 1, p))
    decreases |got| - k
  {
    HopStep(c.n, k + 1, p);
    if k < |got| {
      GotFrom(c, got, k + 1, p);
      OfStep(got, k, p);
      assert IsLine(c, got, k, k + 1, Value(c, k));
      assert p == Turn(c.n, k + 1) ==> Inbox(c, k + 1) == [Value(c, k)] + Inbox(c, k + 1 + c.n);
    }
  }

  /** The histories of a state, line by line. */
  ghost predicate HistoriesOk(c: Config, s: State)
    requires c.Valid()
  {
    && (forall i :: 0 <= i < |s.printed| ==> IsLine(c, s.printed, i, i, i))
    && (forall j :: 0 <= j < |s.wrote| ==> IsLine(c, s.wrote, j, j, Value(c, j)))
    && (forall j :: 0 <= j < |s.got| ==> IsLine(c, s.got, j, j + 1, Value(c, j)))
  }

  lemma InvHasHistories(c: Config, s: State)
    requires c.Valid() && Inv(c, s)
    ensures HistoriesOk(c, s)
  {
    forall j | 0 <= j < |s.got|
      ensures IsLine(c, s.got, j, j + 1, Value(c, j))
    {
      assert s.got[j] == Line(Turn(c.n, j + 1), Value(c, j));
    }
  }

  lemma HistoriesAreSequential(c: Config, s: State, p: nat)
    requires c.Valid() && p < c.n && HistoriesOk(c, s)
    requires |s.printed| == c.stop + 1 && |s.wrote| == |s.got| == c.stop + c.n
    ensures Of(s.got, p) == Inbox(c, FirstRead(c, p))
    ensures Of(s.printed, p) == Share(c, p) && Of(s.wrote, p) == Outbox(c, p)
  {
    PrintedFrom(c, s.printed, 0, p);
    WroteFrom(c, s.wrote, 0, p);
    GotFrom(c, s.got, 0, p);
    assert s.printed[0..] == s.printed && s.wrote[0..] == s.wrote && s.got[0..] == s.got;
    assert NextHop(c.n, 0, p) == p;
    HopStep(c.n, 0, p);
  }

  /** In every complete run of the interleaved system, each process reads the ints of its inbox, and
      prints and writes what its sequential code prints and writes on them. */
  lemma CompleteRunIsSequential(c: Config, run: seq<State>, p: nat)
    requires c.Valid() && IsRun(c, run) && |run| - 1 == TotalSteps(c) && p < c.n
    ensures var s := run[|run| - 1];
            && Of(s.got, p) == Inbox(c, FirstRead(c, p))
            && CycleFromStart(c, p, Of(s.got, p)) == Trace(Of(s.printed, p), Of(s.wrote, p), [], true)
  {
    var s := run[|run| - 1];
    RunInv(c, run, |run| - 1);
    InvHasHistories(c, s);
    assert Final(c, s) by {
      EveryRunTerminates(c, run);
    }
    HistoriesAreSequential(c, s, p);
    ProcessInRing(c, p);
  }

  class Process {
    const c: Config
    const nr: nat
    var open: set<Desc>
    var inbox: seq<int>
    var written: seq<int>
    var printed: seq<int>

    ghost predicate Valid() {
      c.Valid() && nr < c.n
    }

    /** The table is the one that the interleaved system has at pc. */
    ghost predicate TableAt(pc: PC)
      requires Valid()
      reads this
    {
      forall d :: d in open <==> Keeps(c, nr, pc, d)
    }

    constructor (c: Config, nr: nat)
      requires c.Valid() && nr < c.n
      ensures Valid() && this.c == c && this.nr == nr
      ensures open == {} && inbox == [] && written == [] && printed == []
    {
      this.c, this.nr := c, nr;
      open, inbox, written, printed := {}, [], [], [];
    }

    method CreatePipes()
      requires Valid() && open == {}
      modifies this`open
      ensures TableAt(Fork)
    {
      var i := 0;
      while i < c.n
        invariant 0 <= i <= c.n
        invariant forall d :: d in open <==> d.pipe < i
      {
        open := open + {Desc(i, ReadEnd), Desc(i, WriteEnd)};
        forall d: Desc
          ensures d in open <==> d.pipe < i + 1
        {
          match d { case Desc(_, ReadEnd) => case Desc(_, WriteEnd) => }
        }
        i := i + 1;
      }
    }

    method InitMyPipes()
      requires Valid() && TableAt(Fork)
      modifies this`open
      ensures open == {Desc(InPipe(c, nr), ReadEnd), Desc(OutPipe(nr), WriteEnd)}
      ensures TableAt(ReadFirst)
    {
      var input, output := InPipe(c, nr), OutPipe(nr);
      open := open - {Desc(output, ReadEnd)};
      open := open - {Desc(input, WriteEnd)};
      assert TableAt(InitLoop(0)) by {
        forall d: Desc
          ensures d in open <==> Keeps(c, nr, InitLoop(0), d)
        {
          match d { case Desc(_, ReadEnd) => case Desc(_, WriteEnd) => }
        }
      }
      var i := 0;
      while i < c.n
        invariant 0 <= i <= c.n
        invariant TableAt(InitLoop(i))
      {
        if i != input && i != output {
          open := open - {Desc(i, ReadEnd)};
          open := open - {Desc(i, WriteEnd)};
        }
        forall d: Desc
          ensures d in open <==> Keeps(c, nr, InitLoop(i + 1), d)
        {
          match d { case Desc(_, ReadEnd) => case Desc(_, WriteEnd) => }
        }
        i := i + 1;
      }
      assert open == {Desc(input, ReadEnd), Desc(output, WriteEnd)};
    }

    method CloseMyPipes()
      requires Valid() && TableAt(CloseOut)
      modifies this`open
      ensures open == {}
    {
      open := open - {Desc(OutPipe(nr), WriteEnd)};
      open := open - {Desc(InPipe(c, nr), ReadEnd)};
    }

    method ReadInt() returns (v: int)
      requires inbox != []
      modifies this`inbox
      ensures v == old(inbox)[0] && inbox == old(inbox)[1..]
    {
      v := inbox[0];
      inbox := inbox[1..];
    }

    /** With any ints to come, the code does what CycleFromStart says; when they run out it waits in
        a read, which here is the end. */
    method CycleNumber() returns (finished: bool)
      requires printed == [] && written == []
      modifies this`inbox, this`written, this`printed
      ensures CycleFromStart(c, nr, old(inbox)) == Trace(printed, written, inbox, finished)
      ensures !finished ==> |written| == |printed| && inbox == []
    {
      StartHasWritten(c, nr, inbox);
      var number := 0;
      if nr != 0 {
        if inbox == [] {
          return false;
        }
        number := ReadInt();
      }
      ghost var total := Cycle(c, number, inbox);
      while number != SIGNAL_STOP
        invariant total == Behind(Trace(printed, written, [], false), Cycle(c, number, inbox))
        decreases |inbox|
      {
        if number != c.stop && inbox != [] {
          BehindOneLap(Trace(printed, written, [], false), c, number, inbox);
        }
        printed := printed + [number];
        if number == c.stop {
          break;
        }
        written := written + [number + 1];
        if inbox == [] {
          return false;
        }
        number := ReadInt();
      }
      written := written + [SIGNAL_STOP];
      if number == c.stop {
        if inbox == [] {
          return false;
        }
        var _ := ReadInt();
      }
      return true;
    }
  }

  /** A trace that goes on as another one. */
  function Behind(done: Trace, rest: Trace): Trace {
    Trace(done.printed + rest.printed, done.written + rest.written, rest.unread, rest.finished)
  }

  lemma BehindOneLap(done: Trace, c: Config, number: int, inbox: seq<int>)
    requires number != SIGNAL_STOP && number != c.stop && inbox != []
    ensures Behind(done, Cycle(c, number, inbox))
         == Behind(Trace(done.printed + [number], done.written + [number + 1], [], false),
                   Cycle(c, inbox[0], inbox[1..]))
  {
    var rest := Cycle(c, inbox[0], inbox[1..]);
    assert done.printed + ([number] + rest.printed) == done.printed + [number] + rest.printed;
    assert done.written + ([number + 1] + rest.written) == done.written + [number + 1] + rest.written;
  }
}
