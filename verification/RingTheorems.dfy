/** What the ring of Lab1/ring.c guarantees, for every number of processes n >= 2, every stop
    number and every interleaving. */
module RingTheorems {
  import opened RingSystem
  import opened RingInvariant

  // ----- every run keeps the invariant

  lemma {:induction false} RunInv(c: Config, run: seq<State>, k: nat)
    requires c.Valid() && IsRun(c, run) && k < |run|
    ensures Inv(c, run[k])
  {
    if k == 0 {
      InitialInv(c);
    } else {
      RunInv(c, run, k - 1);
      assert IsStep(c, run, k - 1);
      var p :| 0 <= p < c.n && StepBy(c, run[k - 1], p, run[k]);
      StepInv(c, run[k - 1], p, run[k]);
    }
  }

  // ----- the calls never go wrong

  /** The call that process p is about to make does what the program expects of it. */
  ghost predicate CallIsSafe(c: Config, s: State, p: nat)
    requires c.Valid() && s.Shape(c) && p < c.n
  {
    var me := s.procs[p];
    match me.pc
    case Fork => p + 1 < c.n ==> s.procs[p + 1].pc == Unborn
    case InitOut => Desc(OutPipe(p), ReadEnd) in me.open
    case InitIn => Desc(InPipe(c, p), WriteEnd) in me.open
    case InitLoop(i) => i < c.n && i != InPipe(c, p) && i != OutPipe(p) ==> Desc(i, ReadEnd) in me.open
    case InitLoopWrite(i) => Desc(i, WriteEnd) in me.open
    case WriteNext => WriteIsSafe(s, p)
    case WriteStop => WriteIsSafe(s, p)
    case ReadFirst => ReadIsSafe(c, s, p)
    case ReadNext => ReadIsSafe(c, s, p)
    case ReadLast => ReadIsSafe(c, s, p)
    case CloseOut => Desc(OutPipe(p), WriteEnd) in me.open
    case CloseIn => Desc(InPipe(c, p), ReadEnd) in me.open
    case Wait => me.open == {} && (p + 1 < c.n ==> s.procs[p + 1].pc != Unborn)
    case Killed => false
    case _ => true
  }

  /** The write end is open here and somebody can still read the pipe: no SIGPIPE. */
  ghost predicate WriteIsSafe(s: State, p: nat)
    requires p < |s.procs|
  {
    Desc(OutPipe(p), WriteEnd) in s.procs[p].open && s.SomeoneHolds(Desc(OutPipe(p), ReadEnd))
  }

  /** The read end is open here, and there is an int to read or somebody who can still write
      one: no end-of-file. */
  ghost predicate ReadIsSafe(c: Config, s: State, p: nat)
    requires c.Valid() && s.Shape(c) && p < c.n
  {
    && Desc(InPipe(c, p), ReadEnd) in s.procs[p].open
    && (s.pipes[InPipe(c, p)] != [] || s.SomeoneHolds(Desc(InPipe(c, p), WriteEnd)))
  }

  /** In every state of every run: no write to a pipe without readers, no read at end-of-file,
      no use or second close of a closed descriptor, and waitpid only with nothing left open. */
  lemma RunsAreSafe(c: Config, run: seq<State>, k: nat, p: nat)
    requires c.Valid() && IsRun(c, run) && k < |run| && p < c.n
    ensures run[k].Shape(c) && CallIsSafe(c, run[k], p)
  {
    RunInv(c, run, k);
    var s := run[k];
    assert ProcOk(c, s, p);
    if s.procs[p].pc in {WriteNext, WriteStop} {
      ReaderIsThere(c, s, p);
    } else if Reading(s.procs[p].pc) {
      WriterIsThere(c, s, p);
    }
  }

  // ----- one token

  datatype Place = InFlight(pipe: nat, index: nat) | HeldBy(process: nat)

  /** A process holds the token from reading it, or for the root from the start, until it has
      written it. */
  predicate Holding(p: nat, pc: PC) {
    pc in {Print, WriteNext, WriteStop} || (p == 0 && Setup(pc))
  }

  ghost function Places(s: State): set<Place> {
    (set x, i | 0 <= x < |s.pipes| && 0 <= i < |s.pipes[x]| :: InFlight(x, i)) +
    (set p | 0 <= p < |s.procs| && Holding(p, s.procs[p].pc) :: HeldBy(p))
  }

  function TokenAt(c: Config, s: State): Place
    requires c.Valid()
  {
    if s.sent == s.received then HeldBy(Turn(c.n, s.sent)) else InFlight(Turn(c.n, s.received), 0)
  }

  lemma HolderIsTurn(c: Config, s: State, p: nat)
    requires c.Valid() && Inv(c, s) && p < c.n
    ensures Holding(p, s.procs[p].pc) <==> s.received < c.stop + c.n && TokenAt(c, s) == HeldBy(p)
  {
    assert ProcOk(c, s, p);
  }

  lemma InvHasOneToken(c: Config, s: State)
    requires c.Valid() && Inv(c, s)
    ensures Places(s) == if s.received == c.stop + c.n then {} else {TokenAt(c, s)}
  {
    var at := TokenAt(c, s);
    forall p | 0 <= p < c.n
      ensures Holding(p, s.procs[p].pc) <==> s.received < c.stop + c.n && at == HeldBy(p)
    {
      HolderIsTurn(c, s, p);
    }
    assert forall x :: 0 <= x < c.n ==> |s.pipes[x]| == if at == InFlight(x, 0) then 1 else 0;
    assert at.InFlight? ==> at.index < |s.pipes[at.pipe]|;
    assert at.HeldBy? ==> at.process < |s.procs|;
  }

  /** At every moment there is exactly one token, until the very last read. */
  lemma OneToken(c: Config, run: seq<State>, k: nat)
    requires c.Valid() && IsRun(c, run) && k < |run|
    ensures if run[k].received < c.stop + c.n then |Places(run[k])| == 1 else Places(run[k]) == {}
    ensures run[k].received <= c.stop + c.n
  {
    RunInv(c, run, k);
    InvHasOneToken(c, run[k]);
  }

  /** Every read takes an int off the ring and no other step does. */
  lemma StepReceives(c: Config, s: State, p: nat, t: State)
    requires c.Valid() && Inv(c, s) && p < c.n && StepBy(c, s, p, t)
    ensures t.received == s.received + if Reading(s.procs[p].pc) then 1 else 0
    ensures s.procs[p].pc == ReadLast <==> t.received == c.stop + c.n && s.received < t.received
  {
    assert ProcOk(c, s, p);
    if Reading(s.procs[p].pc) {
      WriterIsThere(c, s, p);
      ReaderHasTurn(c, s, p);
    }
  }

  /** Only one step makes the token disappear: the last read of the process that saw the stop
      number, and that read takes the (stop + n)-th int. */
  lemma TokenDisappears(c: Config, run: seq<State>, k: nat, p: nat)
    requires c.Valid() && IsRun(c, run) && k + 1 < |run| && p < c.n
    requires run[k].Shape(c) && StepBy(c, run[k], p, run[k + 1])
    ensures (Places(run[k]) != {} && Places(run[k + 1]) == {}) <==> run[k].procs[p].pc == ReadLast
    ensures run[k].procs[p].pc == ReadLast ==> p == c.stop % c.n && run[k + 1].received == c.stop + c.n
    ensures Places(run[k]) == {} ==> Places(run[k + 1]) == {}
  {
    RunInv(c, run, k);
    StepReceives(c, run[k], p, run[k + 1]);
    OneToken(c, run, k);
    OneToken(c, run, k + 1);
    if run[k].procs[p].pc == ReadLast {
      LastReader(c, run[k], p);
    }
  }

  lemma LastReader(c: Config, s: State, p: nat)
    requires c.Valid() && Inv(c, s) && p < c.n && s.procs[p].pc == ReadLast
    ensures p == c.stop % c.n
  {
    assert ProcOk(c, s, p);
    var hop := NextHop(c.n, s.sent, p);
    assert hop == c.stop + c.n;
    HopIsModulus(c.n, s.sent, p);
    LapModulus(c.n, c.stop);
  }

  lemma LapModulus(n: nat, j: nat)
    requires n > 0
    ensures (j + n) % n == j % n
  {
    var q, r := j / n, j % n;
    assert j + n == n * (q + 1) + r;
    ModulusOf(n, q + 1, r, j + n);
  }

  lemma {:induction false} HopIsModulus(n: nat, w: nat, p: nat)
    requires p < n
    ensures NextHop(n, w, p) % n == p
    decreases NextHop(n, w, p) - w
  {
    var hop := NextHop(n, w, p);
    if hop == w {
      TurnIsModulus(n, w);
    } else {
      assert NextHop(n, w + 1, p) == hop;
      HopIsModulus(n, w + 1, p);
    }
  }

  // ----- what is printed

  /** The first m lines of the expected output: k is printed by process k mod n. */
  function Lines(c: Config, m: nat): seq<Line>
    requires c.Valid()
  {
    seq(m, k requires 0 <= k => Line(k % c.n, k))
  }

  /** In every interleaving the output is a prefix of 0, 1, ..., stop, each number printed by the
      process whose turn it is. */
  lemma OutputIsPrefix(c: Config, run: seq<State>, k: nat)
    requires c.Valid() && IsRun(c, run) && k < |run|
    ensures run[k].printed <= Lines(c, c.stop + 1)
  {
    RunInv(c, run, k);
    var s := run[k];
    forall i | 0 <= i < |s.printed|
      ensures i < c.stop + 1 && s.printed[i] == Lines(c, c.stop + 1)[i]
    {
      TurnIsModulus(c.n, i);
    }
  }

  /** The ints that are written, in order: 1, ..., stop and then the stop signal from every process,
      the j-th of them by process j mod n. */
  function Ints(c: Config, m: nat): seq<Line>
    requires c.Valid()
  {
    seq(m, j requires 0 <= j => Line(j % c.n, if j < c.stop then j + 1 else -1))
  }

  /** In every interleaving the ints written are a prefix of these, and the j-th int is read by
      process j + 1 mod n with the value that was written. */
  lemma WritesArePrefix(c: Config, run: seq<State>, k: nat)
    requires c.Valid() && IsRun(c, run) && k < |run|
    ensures run[k].wrote <= Ints(c, c.stop + c.n)
    ensures |run[k].got| <= |run[k].wrote| <= |run[k].got| + 1
    ensures forall j {:trigger run[k].got[j]} :: 0 <= j < |run[k].got| ==>
              run[k].got[j] == Line((j + 1) % c.n, run[k].wrote[j].number)
  {
    RunInv(c, run, k);
    var s := run[k];
    forall j | 0 <= j < |s.wrote|
      ensures s.wrote[j] == Ints(c, c.stop + c.n)[j]
    {
      TurnIsModulus(c.n, j);
    }
    forall j {:trigger s.got[j]} | 0 <= j < |s.got|
      ensures s.got[j] == Line((j + 1) % c.n, s.wrote[j].number)
    {
      TurnIsModulus(c.n, j + 1);
      assert s.got[j] == Line(Turn(c.n, j + 1), Value(c, j)) && s.wrote[j] == Line(Turn(c.n, j), Value(c, j));
    }
  }

  // ----- progress: no deadlock, and an exact count of the remaining steps

  /** The steps that process p still has to take outside of printing and token passing. */
  function Rank(c: Config, p: nat, pc: PC): nat
    requires c.Valid() && p < c.n
  {
    var setup := 2 * c.n - 1 + 3;
    match pc
    case Unborn => setup + 3
    case Create(i) => setup + 3 + (if i < c.n then c.n - i else 0)
    case Fork => setup + 3
    case InitOut => setup + 2
    case InitIn => setup + 1
    case InitLoop(i) => LoopRank(c, p, i) + 3
    case InitLoopWrite(i) => LoopRank(c, p, i) + 2
    case CloseIn => 2
    case Wait => 1
    case Exited => 0
    case Killed => 0
    case _ => 3
  }

  /** The steps of the closing loop from index i on: two for each foreign pipe, one for each of
      the two own pipes, one to leave the loop. */
  function LoopRank(c: Config, p: nat, i: nat): nat
    requires c.Valid() && p < c.n
  {
    if i >= c.n then 1
    else 2 * (c.n - i) + 1 - (if InPipe(c, p) >= i then 1 else 0) - (if OutPipe(p) >= i then 1 else 0)
  }

  function RankSum(c: Config, procs: seq<Proc>, k: nat): nat
    requires c.Valid() && k <= |procs| <= c.n
  {
    if k == 0 then 0 else RankSum(c, procs, k - 1) + Rank(c, k - 1, procs[k - 1].pc)
  }

  lemma {:induction false} RankSumUpdate(c: Config, procs: seq<Proc>, k: nat, p: nat, me: Proc)
    requires c.Valid() && p < |procs| <= c.n && k <= |procs|
    ensures RankSum(c, procs[p := me], k)
         == RankSum(c, procs, k) + if p < k then Rank(c, p, me.pc) - Rank(c, p, procs[p].pc) else 0
  {
    if k > 0 {
      RankSumUpdate(c, procs, k - 1, p, me);
    }
  }

  lemma {:induction false} RankSumConstant(c: Config, procs: seq<Proc>, k: nat, r: nat)
    requires c.Valid() && k <= |procs| <= c.n
    requires forall p :: 0 <= p < k ==> Rank(c, p, procs[p].pc) == r
    ensures RankSum(c, procs, k) == k * r
  {
    if k > 0 {
      RankSumConstant(c, procs, k - 1, r);
      assert k * r == (k - 1) * r + r;
    }
  }

  /** The exact number of steps left, whatever the schedule. */
  function Work(c: Config, s: State): int
    requires c.Valid() && s.Shape(c)
  {
    RankSum(c, s.procs, c.n)
    + (c.stop + 1 - |s.printed|) + (c.stop + c.n - s.sent) + (c.stop + c.n - s.received)
  }

  function TotalSteps(c: Config): nat {
    2 * c.n * c.n + 8 * c.n + 3 * c.stop + 1
  }

  lemma InitialWork(c: Config)
    requires c.Valid()
    ensures Work(c, Initial(c)) == TotalSteps(c)
  {
    var procs := Initial(c).procs;
    var forking := procs[0 := Proc(Fork, 0, {})];
    RankSumConstant(c, forking, c.n, 2 * c.n + 5);
    RankSumUpdate(c, forking, c.n, 0, procs[0]);
    assert procs == forking[0 := procs[0]];
    assert c.n * (2 * c.n + 5) == 2 * c.n * c.n + 5 * c.n;
  }

  lemma WorkIsNatural(c: Config, s: State)
    requires c.Valid() && Inv(c, s)
    ensures Work(c, s) >= 0
  {
  }

  lemma WorkAfter(c: Config, s: State, p: nat, t: State)
    requires c.Valid() && s.Shape(c) && t.Shape(c) && p < c.n && t.procs == s.procs[p := t.procs[p]]
    ensures Work(c, t) == Work(c, s) + Rank(c, p, t.procs[p].pc) - Rank(c, p, s.procs[p].pc)
                          - (|t.printed| - |s.printed|) - (t.sent - s.sent) - (t.received - s.received)
  {
    RankSumUpdate(c, s.procs, c.n, p, t.procs[p]);
  }

  lemma ForkDoesOneUnit(c: Config, s: State, p: nat, t: State)
    requires c.Valid() && Inv(c, s) && p < c.n && StepBy(c, s, p, t) && s.procs[p].pc == Fork
    ensures t.Shape(c) && Work(c, t) == Work(c, s) - 1
  {
    assert ProcOk(c, s, p);
    var mid := s.Goto(p, InitOut);
    WorkAfter(c, s, p, mid);
    if p + 1 < c.n {
      WorkAfter(c, mid, p + 1, t);
    }
  }

  lemma TokenStepDoesOneUnit(c: Config, s: State, p: nat, t: State)
    requires c.Valid() && Inv(c, s) && p < c.n && StepBy(c, s, p, t)
    requires s.procs[p].pc in {Print, WriteNext, WriteStop} || Reading(s.procs[p].pc)
    ensures t.Shape(c) && Work(c, t) == Work(c, s) - 1
  {
    if s.procs[p].pc in {WriteNext, WriteStop} {
      WriteInv(c, s, p, t);
    } else if Reading(s.procs[p].pc) {
      ReadInv(c, s, p, t);
    }
    WorkAfter(c, s, p, t);
  }

  lemma SetupStepDoesOneUnit(c: Config, s: State, p: nat, t: State)
    requires c.Valid() && s.Shape(c) && p < c.n && StepBy(c, s, p, t) && PcOk(c, p, s.procs[p].pc)
    requires s.procs[p].pc.Create? || (Setup(s.procs[p].pc) && !BeforeFork(s.procs[p].pc))
    ensures t.Shape(c) && Work(c, t) == Work(c, s) - 1
  {
    assert Rank(c, p, t.procs[p].pc) == Rank(c, p, s.procs[p].pc) - 1;
    WorkAfter(c, s, p, t);
  }

  lemma CleanupStepDoesOneUnit(c: Config, s: State, p: nat, t: State)
    requires c.Valid() && s.Shape(c) && p < c.n && StepBy(c, s, p, t)
    requires s.procs[p].pc in {CloseOut, CloseIn, Wait}
    ensures t.Shape(c) && Work(c, t) == Work(c, s) - 1
  {
    WorkAfter(c, s, p, t);
  }

  /** Every step does exactly one unit of work. */
  lemma StepDoesOneUnit(c: Config, s: State, p: nat, t: State)
    requires c.Valid() && Inv(c, s) && p < c.n && StepBy(c, s, p, t)
    ensures t.Shape(c) && Work(c, t) == Work(c, s) - 1
  {
    var pc := s.procs[p].pc;
    if pc == Fork {
      ForkDoesOneUnit(c, s, p, t);
    } else if pc in {Print, WriteNext, WriteStop} || Reading(pc) {
      TokenStepDoesOneUnit(c, s, p, t);
    } else if pc in {CloseOut, CloseIn, Wait} {
      CleanupStepDoesOneUnit(c, s, p, t);
    } else {
      assert ProcOk(c, s, p);
      SetupStepDoesOneUnit(c, s, p, t);
    }
  }

  predicate AllExited(s: State) {
    forall p :: 0 <= p < |s.procs| ==> s.procs[p].pc == Exited
  }

  /** A process that is not waiting, neither in a read nor for its child, can always move. */
  lemma BusyIsEnabled(c: Config, s: State, p: nat)
    requires c.Valid() && s.Shape(c) && p < c.n
    requires s.procs[p].pc !in {Unborn, Wait, Exited, Killed} && !Reading(s.procs[p].pc)
    ensures Enabled(c, s, p)
  {
    var me := s.procs[p];
    match me.pc
    case Create(i) =>
      assert StepBy(c, s, p, s.Set(p, me.(pc := if i + 1 < c.n then Create(i + 1) else Fork,
                                          open := me.open + {Desc(i, ReadEnd), Desc(i, WriteEnd)})));
    case Fork => assert StepBy(c, s, p, ForkStep(c, s, p));
    case InitOut => assert StepBy(c, s, p, s.Close(p, Desc(OutPipe(p), ReadEnd), InitIn));
    case InitIn => assert StepBy(c, s, p, s.Close(p, Desc(InPipe(c, p), WriteEnd), InitLoop(0)));
    case InitLoop(i) => assert StepBy(c, s, p, InitLoopStep(c, s, p, i));
    case InitLoopWrite(i) => assert StepBy(c, s, p, s.Close(p, Desc(i, WriteEnd), InitLoop(i + 1)));
    case Print =>
      assert StepBy(c, s, p, s.Goto(p, if me.number == c.stop then WriteStop else WriteNext)
                              .(printed := s.printed + [Line(p, me.number)]));
    case WriteNext =>
      var t := WriteOutcome(c, s, p, me.number + 1, ReadNext);
      assert StepBy(c, s, p, t);
    case WriteStop =>
      var t := WriteOutcome(c, s, p, SIGNAL_STOP, if me.number == c.stop then ReadLast else CloseOut);
      assert StepBy(c, s, p, t);
    case CloseOut => assert StepBy(c, s, p, s.Close(p, Desc(OutPipe(p), WriteEnd), CloseIn));
    case CloseIn => assert StepBy(c, s, p, s.Close(p, Desc(InPipe(c, p), ReadEnd), Wait));
  }

  lemma WriteOutcome(c: Config, s: State, p: nat, v: int, pc: PC) returns (t: State)
    requires c.Valid() && s.Shape(c) && p < c.n
    ensures WriteStep(c, s, p, v, pc, t)
  {
    var x := OutPipe(p);
    if Desc(x, WriteEnd) !in s.procs[p].open {
      t := s.Goto(p, pc);
    } else if s.SomeoneHolds(Desc(x, ReadEnd)) {
      t := s.Goto(p, pc).(pipes := s.pipes[x := s.pipes[x] + [v]], wrote := s.wrote + [Line(p, v)]);
    } else {
      t := s.Set(p, Proc(Killed, s.procs[p].number, {}));
    }
  }

  /** The process with the turn is never the one that waits, unless all the work is done. */
  lemma TurnIsEnabled(c: Config, s: State)
    requires c.Valid() && Inv(c, s) && s.received < c.stop + c.n
    requires forall q :: 0 <= q < c.n ==> s.procs[q].pc != Unborn
    ensures Enabled(c, s, Turn(c.n, s.sent))
  {
    var p := Turn(c.n, s.sent);
    assert ProcOk(c, s, p);
    if s.sent == s.received || Setup(s.procs[p].pc) {
      BusyIsEnabled(c, s, p);
    } else {
      var x := InPipe(c, p);
      assert Keeps(c, p, s.procs[p].pc, Desc(x, ReadEnd));
      assert s.pipes[x] == [Value(c, s.received)];
      var t := s.Set(p, AfterRead(s.procs[p], s.pipes[x][0]))
                .(pipes := s.pipes[x := s.pipes[x][1..]], got := s.got + [Line(p, s.pipes[x][0])]);
      assert StepBy(c, s, p, t);
    }
  }

  /** No deadlock: some process can move unless all have exited. */
  lemma NoDeadlock(c: Config, s: State) returns (p: nat)
    requires c.Valid() && Inv(c, s) && !AllExited(s)
    ensures p < c.n && Enabled(c, s, p)
  {
    if q :| 0 <= q < c.n && s.procs[q].pc == Unborn {
      p := SomeoneStillForks(c, s, q);
      BusyIsEnabled(c, s, p);
    } else if s.received < c.stop + c.n {
      p := Turn(c.n, s.sent);
      TurnIsEnabled(c, s);
    } else {
      var q :| 0 <= q < c.n && s.procs[q].pc != Exited;
      assert ProcOk(c, s, q);
      p := c.n - 1 - |s.exits|;
      assert ProcOk(c, s, p);
      if s.procs[p].pc == Wait {
        if p + 1 < c.n { assert ProcOk(c, s, p + 1); }
        assert StepBy(c, s, p, s.Set(p, Proc(Exited, s.procs[p].number, {})).(exits := s.exits + [p]));
      } else {
        BusyIsEnabled(c, s, p);
      }
    }
  }

  /** The state in which every complete run ends. */
  ghost predicate Final(c: Config, s: State)
    requires c.Valid()
  {
    && s.Shape(c)
    && AllExited(s)
    && (forall p :: 0 <= p < c.n ==> s.procs[p].open == {})
    && (forall x :: 0 <= x < c.n ==> s.pipes[x] == [])
    && s.sent == s.received == c.stop + c.n
    && s.printed == Lines(c, c.stop + 1)
    && |s.exits| == c.n && (forall k :: 0 <= k < c.n ==> s.exits[k] == c.n - 1 - k)
  }

  lemma AllExitedIsFinal(c: Config, s: State)
    requires c.Valid() && Inv(c, s) && AllExited(s)
    ensures Final(c, s)
  {
    var t := Turn(c.n, s.sent);
    assert ProcOk(c, s, t);
    assert ProcOk(c, s, 0);
    forall p | 0 <= p < c.n
      ensures s.procs[p].open == {}
    {
      assert ProcOk(c, s, p);
    }
    forall k | 0 <= k < |s.printed|
      ensures s.printed[k] == Line(k % c.n, k)
    {
      TurnIsModulus(c.n, k);
    }
  }

  lemma {:induction false} WorkAlongRun(c: Config, run: seq<State>, k: nat)
    requires c.Valid() && IsRun(c, run) && k < |run|
    ensures run[k].Shape(c) && Work(c, run[k]) == TotalSteps(c) - k
  {
    if k == 0 {
      InitialWork(c);
    } else {
      WorkAlongRun(c, run, k - 1);
      RunInv(c, run, k - 1);
      assert IsStep(c, run, k - 1);
      var p :| 0 <= p < c.n && StepBy(c, run[k - 1], p, run[k]);
      StepDoesOneUnit(c, run[k - 1], p, run[k]);
    }
  }

  /** Every run is finite: it has at most 2n^2 + 8n + 3 stop + 1 steps. It can be continued
      exactly as long as it is shorter, and when it has that many steps it has ended in the
      final state: all ints delivered, everything printed, and the processes gone in the order
      n-1, ..., 0. */
  lemma EveryRunTerminates(c: Config, run: seq<State>)
    requires c.Valid() && IsRun(c, run)
    ensures |run| - 1 <= 2 * c.n * c.n + 8 * c.n + 3 * c.stop + 1 == TotalSteps(c)
    ensures var last := run[|run| - 1];
            && last.Shape(c)
            && (Stuck(c, last) <==> |run| - 1 == TotalSteps(c))
            && (Stuck(c, last) <==> Final(c, last))
  {
    var last := run[|run| - 1];
    RunInv(c, run, |run| - 1);
    WorkAlongRun(c, run, |run| - 1);
    WorkIsNatural(c, last);
    if AllExited(last) {
      AllExitedIsFinal(c, last);
      RankSumConstant(c, last.procs, c.n, 0);
      assert Stuck(c, last);
    } else {
      var p := NoDeadlock(c, last);
      var t :| StepBy(c, last, p, t);
      StepInv(c, last, p, t);
      StepDoesOneUnit(c, last, p, t);
      WorkIsNatural(c, t);
    }
  }

  lemma OneMoreStep(c: Config, run: seq<State>, p: nat, t: State)
    requires c.Valid() && IsRun(c, run) && p < c.n && run[|run| - 1].Shape(c) && StepBy(c, run[|run| - 1], p, t)
    ensures IsRun(c, run + [t])
  {
    var longer := run + [t];
    forall k | 0 <= k < |longer| - 1
      ensures IsStep(c, longer, k)
    {
      assert k < |run| - 1 ==> IsStep(c, run, k);
    }
  }

  /** Every run can be continued to a complete one. */
  lemma {:induction false} EveryRunExtends(c: Config, run: seq<State>) returns (full: seq<State>)
    requires c.Valid() && IsRun(c, run)
    ensures IsRun(c, full) && run <= full
    ensures |full| - 1 == TotalSteps(c) && Final(c, full[|full| - 1])
    decreases TotalSteps(c) - |run| + 1
  {
    EveryRunTerminates(c, run);
    var last := run[|run| - 1];
    if Stuck(c, last) {
      full := run;
    } else {
      var p: nat :| 0 <= p < c.n && Enabled(c, last, p);
      var t :| StepBy(c, last, p, t);
      OneMoreStep(c, run, p, t);
      full := EveryRunExtends(c, run + [t]);
    }
  }

  /** A process is gone only after all the processes it created, directly or indirectly. */
  lemma ExitOrder(c: Config, run: seq<State>, k: nat, p: nat, q: nat)
    requires c.Valid() && IsRun(c, run) && k < |run| && p <= q < c.n
    ensures run[k].Shape(c)
    ensures run[k].procs[p].pc == Exited ==> run[k].procs[q].pc == Exited
  {
    RunInv(c, run, k);
    assert ProcOk(c, run[k], p);
    assert ProcOk(c, run[k], q);
  }
}
