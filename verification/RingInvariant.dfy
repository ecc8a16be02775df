/** What every step of the ring keeps.

    The token makes hops: hop j is the j-th int written, by process j mod n, and the j-th int
    read, by the next process. Everything about a process that is past its set-up follows from
    how many hops were written, how many were read, and how far the process is from the turn.
  */
module RingInvariant {
  import opened RingSystem

  // ----- hops

  /** The process that writes hop w. */
  function Turn(n: nat, w: nat): (p: nat)
    requires n > 0
    ensures p < n
    decreases w
  {
    if w == 0 then 0
    else if Turn(n, w - 1) + 1 == n then 0
    else Turn(n, w - 1) + 1
  }

  lemma {:induction false} TurnIsModulus(n: nat, w: nat)
    requires n > 0
    ensures Turn(n, w) == w % n
    decreases w
  {
    if w > 0 {
      TurnIsModulus(n, w - 1);
      SuccessorModulus(n, w - 1);
    }
  }

  lemma SuccessorModulus(n: nat, w: nat)
    requires n > 0
    ensures (w + 1) % n == if w % n + 1 == n then 0 else w % n + 1
  {
    var q, r := w / n, w % n;
    assert w == n * q + r;
    if r + 1 == n {
      assert n * (q + 1) == n * q + n;
      ModulusOf(n, q + 1, 0, w + 1);
    } else {
      ModulusOf(n, q, r + 1, w + 1);
    }
  }

  lemma ModulusOf(n: nat, q: nat, r: nat, w: nat)
    requires r < n && w == n * q + r
    ensures w % n == r
  {
    var q', r' := w / n, w % n;
    assert w == n * q' + r';
    assert n * (q - q') == r' - r by { assert n * (q - q') == n * q - n * q'; }
    if q > q' {
      assert n * (q - q') >= n by { MulAtLeast(n, q - q'); }
    } else if q < q' {
      assert n * (q' - q) >= n by { MulAtLeast(n, q' - q); }
      assert false;
    }
  }

  lemma MulAtLeast(n: nat, k: nat)
    requires k >= 1
    ensures n * k >= n
  {
    assert n * k == n * (k - 1) + n;
  }

  /** The next hop from number w on that process p writes. */
  function NextHop(n: nat, w: nat, p: nat): nat
    requires p < n
  {
    var t := Turn(n, w);
    if t <= p then w + (p - t) else w + (p - t + n)
  }

  /** The value that travels on hop j. */
  function Value(c: Config, j: nat): int {
    if j < c.stop then j + 1 else -1
  }

  function Contents(c: Config, sent: nat, received: nat, x: nat): seq<int>
    requires c.n > 0
  {
    if sent == received + 1 && x == Turn(c.n, received) then [Value(c, received)] else []
  }

  // ----- descriptors

  /** Exactly which descriptors process p has open when it is at pc. */
  predicate Keeps(c: Config, p: nat, pc: PC, d: Desc)
    requires c.Valid() && p < c.n
  {
    var mine := d == Desc(InPipe(c, p), ReadEnd) || d == Desc(OutPipe(p), WriteEnd);
    && d.pipe < c.n
    && match pc
       case Unborn => false
       case Create(i) => d.pipe < i
       case Fork => true
       case InitOut => true
       case InitIn => d != Desc(OutPipe(p), ReadEnd)
       case InitLoop(i) => mine || KeepsOther(c, p, i, d)
       case InitLoopWrite(i) => mine || (KeepsOther(c, p, i, d) && d != Desc(i, ReadEnd))
       case CloseIn => d == Desc(InPipe(c, p), ReadEnd)
       case Wait => false
       case Exited => false
       case Killed => false
       case _ => mine
  }

  predicate KeepsOther(c: Config, p: nat, i: nat, d: Desc)
    requires c.Valid() && p < c.n
  {
    d.pipe >= i && d.pipe != InPipe(c, p) && d.pipe != OutPipe(p)
  }

  // ----- phases of a process

  predicate BeforeFork(pc: PC) {
    pc.Unborn? || pc.Create? || pc.Fork?
  }

  predicate Setup(pc: PC) {
    BeforeFork(pc) || pc.InitOut? || pc.InitIn? || pc.InitLoop? || pc.InitLoopWrite?
  }

  predicate Done(pc: PC) {
    pc.CloseOut? || pc.CloseIn? || pc.Wait? || pc.Exited?
  }

  predicate PcOk(c: Config, p: nat, pc: PC)
    requires c.Valid() && p < c.n
  {
    match pc
    case Unborn => p != 0
    case Create(i) => p == 0 && i < c.n
    case InitLoop(i) => i <= c.n
    case InitLoopWrite(i) => i < c.n && i != InPipe(c, p) && i != OutPipe(p)
    case _ => true
  }

  /** The process that has the turn, when its hop has not been written yet. */
  predicate HolderRole(c: Config, w: nat, p: nat, me: Proc) {
    if w == c.stop + c.n then Done(me.pc)
    else if w <= c.stop then
      || (w == 0 && p == 0 && Setup(me.pc))
      || (me.number == w && (me.pc == Print || me.pc == if w == c.stop then WriteStop else WriteNext))
    else me.number == SIGNAL_STOP && me.pc == WriteStop
  }

  /** Any other process: it has written hop `last` (none if negative) and waits for a later one. */
  predicate WaiterRole(c: Config, last: int, p: nat, me: Proc) {
    if last < 0 then p != 0 && (Setup(me.pc) || me.pc == ReadFirst)
    else if last < c.stop then me.pc == ReadNext
    else if last == c.stop then me.pc == ReadLast
    else Done(me.pc)
  }

  predicate Role(c: Config, w: nat, r: nat, p: nat, me: Proc)
    requires p < c.n
  {
    var hop := NextHop(c.n, w, p);
    if w == r && hop == w then HolderRole(c, w, p, me)
    else WaiterRole(c, hop - c.n, p, me)
  }

  // ----- the invariant

  ghost predicate ProcOk(c: Config, s: State, p: nat)
    requires c.Valid() && s.Shape(c) && p < c.n
  {
    var me := s.procs[p];
    && PcOk(c, p, me.pc)
    && (forall d :: d in me.open <==> Keeps(c, p, me.pc, d))
    && (p + 1 < c.n ==> (BeforeFork(me.pc) <==> s.procs[p + 1].pc == Unborn))
    && (me.pc == Exited <==> c.n - |s.exits| <= p)
    && Role(c, s.sent, s.received, p, me)
  }

  predicate TokenOk(c: Config, s: State)
    requires c.Valid() && s.Shape(c)
  {
    && s.received <= s.sent <= s.received + 1
    && s.sent <= c.stop + c.n
    && forall x :: 0 <= x < c.n ==> s.pipes[x] == Contents(c, s.sent, s.received, x)
  }

  predicate HolderHasPrinted(c: Config, s: State)
    requires c.Valid() && s.Shape(c)
  {
    s.sent == s.received && s.procs[Turn(c.n, s.sent)].pc in {WriteNext, WriteStop}
  }

  /** How many numbers were printed. */
  function PrintCount(c: Config, s: State): nat
    requires c.Valid() && s.Shape(c)
  {
    if s.sent > c.stop then c.stop + 1
    else if HolderHasPrinted(c, s) then s.sent + 1
    else s.sent
  }

  predicate LogsOk(c: Config, s: State)
    requires c.Valid() && s.Shape(c)
  {
    && |s.printed| == PrintCount(c, s)
    && (forall k {:trigger s.printed[k]} :: 0 <= k < |s.printed| ==> s.printed[k] == Line(Turn(c.n, k), k))
    && (forall j {:trigger s.wrote[j]} :: 0 <= j < |s.wrote| ==> s.wrote[j] == Line(Turn(c.n, j), Value(c, j)))
    && (forall j {:trigger s.got[j]} :: 0 <= j < |s.got| ==> s.got[j] == Line(Turn(c.n, j + 1), Value(c, j)))
    && |s.exits| <= c.n
    && (forall k :: 0 <= k < |s.exits| ==> s.exits[k] == c.n - 1 - k)
  }

  ghost predicate Inv(c: Config, s: State)
    requires c.Valid()
  {
    && s.Shape(c)
    && (forall p :: 0 <= p < c.n ==> ProcOk(c, s, p))
    && TokenOk(c, s)
    && LogsOk(c, s)
  }

  lemma InitialInv(c: Config)
    requires c.Valid()
    ensures Inv(c, Initial(c))
  {
    var s := Initial(c);
    forall p | 0 <= p < c.n
      ensures ProcOk(c, s, p)
    {
      assert p > 0 ==> s.procs[p] == Proc(Unborn, 0, {});
    }
  }

  // ----- steps that touch no pipe and no log: only the stepping process changes

  /** A step that changes only where p is, and what it has open, and keeps p's role. */
  lemma LocalStep(c: Config, s: State, p: nat, me: Proc)
    requires c.Valid() && Inv(c, s) && p < c.n
    requires PcOk(c, p, me.pc)
    requires forall d :: d in me.open <==> Keeps(c, p, me.pc, d)
    requires BeforeFork(me.pc) <==> BeforeFork(s.procs[p].pc)
    requires me.pc.Unborn? <==> s.procs[p].pc.Unborn?
    requires me.pc != Exited && s.procs[p].pc != Exited
    requires me.pc in {WriteNext, WriteStop} <==> s.procs[p].pc in {WriteNext, WriteStop}
    requires Role(c, s.sent, s.received, p, me)
    ensures Inv(c, s.Set(p, me))
  {
    var t := s.Set(p, me);
    forall q | 0 <= q < c.n
      ensures ProcOk(c, t, q)
    {
      assert ProcOk(c, s, q);
    }
  }

  lemma TableAfterSetup(c: Config, s: State, p: nat, t: State)
    requires c.Valid() && Inv(c, s) && p < c.n && StepBy(c, s, p, t)
    requires Setup(s.procs[p].pc) && !s.procs[p].pc.Fork?
    ensures forall d :: d in t.procs[p].open <==> Keeps(c, p, t.procs[p].pc, d)
  {
    assert ProcOk(c, s, p);
    forall d: Desc
      ensures d in t.procs[p].open <==> Keeps(c, p, t.procs[p].pc, d)
    {
      match d { case Desc(_, ReadEnd) => case Desc(_, WriteEnd) => }
      assert d in s.procs[p].open <==> Keeps(c, p, s.procs[p].pc, d);
    }
  }

  lemma CreateInv(c: Config, s: State, p: nat, t: State)
    requires c.Valid() && Inv(c, s) && p < c.n && s.procs[p].pc.Create? && StepBy(c, s, p, t)
    ensures Inv(c, t)
  {
    assert ProcOk(c, s, p);
    TableAfterSetup(c, s, p, t);
    LocalStep(c, s, p, t.procs[p]);
  }

  /** A process that did not move stays in order while its role is. */
  lemma OtherProcOk(c: Config, s: State, t: State, q: nat)
    requires c.Valid() && s.Shape(c) && t.Shape(c) && q < c.n && ProcOk(c, s, q)
    requires t.procs[q] == s.procs[q] && t.exits == s.exits
    requires q + 1 < c.n ==> (t.procs[q + 1].pc == Unborn <==> s.procs[q + 1].pc == Unborn)
    requires Role(c, t.sent, t.received, q, s.procs[q])
    ensures ProcOk(c, t, q)
  {
  }

  /** The set-up has one role, wherever it is. */
  lemma SetupRole(c: Config, w: nat, r: nat, p: nat, before: Proc, after: Proc)
    requires p < c.n && Setup(before.pc) && Setup(after.pc) && Role(c, w, r, p, before)
    ensures Role(c, w, r, p, after)
  {
  }

  lemma ForkProc(c: Config, s: State, p: nat, t: State, q: nat)
    requires c.Valid() && Inv(c, s) && p < c.n && s.procs[p].pc.Fork? && t == ForkStep(c, s, p) && q < c.n
    ensures t.Shape(c) && ProcOk(c, t, q)
  {
    assert ProcOk(c, s, p);
    assert ProcOk(c, s, q);
    if q == p || q == p + 1 {
      SetupRole(c, s.sent, s.received, q, s.procs[q], t.procs[q]);
      assert q + 1 < c.n ==> ProcOk(c, s, q + 1);
    } else {
      OtherProcOk(c, s, t, q);
    }
  }

  lemma ForkInv(c: Config, s: State, p: nat, t: State)
    requires c.Valid() && Inv(c, s) && p < c.n && s.procs[p].pc.Fork? && StepBy(c, s, p, t)
    ensures Inv(c, t)
  {
    forall q | 0 <= q < c.n
      ensures ProcOk(c, t, q)
    {
      ForkProc(c, s, p, t, q);
    }
    assert ProcOk(c, s, p);
    assert TokenOk(c, t);
    assert LogsOk(c, t);
  }

  lemma SetupInv(c: Config, s: State, p: nat, t: State)
    requires c.Valid() && Inv(c, s) && p < c.n && StepBy(c, s, p, t)
    requires Setup(s.procs[p].pc) && !BeforeFork(s.procs[p].pc)
    ensures Inv(c, t)
  {
    assert ProcOk(c, s, p);
    TableAfterSetup(c, s, p, t);
    LocalStep(c, s, p, t.procs[p]);
  }

  lemma CloseInv(c: Config, s: State, p: nat, t: State)
    requires c.Valid() && Inv(c, s) && p < c.n && StepBy(c, s, p, t)
    requires s.procs[p].pc.CloseOut? || s.procs[p].pc.CloseIn?
    ensures Inv(c, t)
  {
    assert ProcOk(c, s, p);
    LocalStep(c, s, p, t.procs[p]);
  }

  /** The next process to exit is the highest-numbered one left. */
  lemma WaiterIsLast(c: Config, s: State, p: nat)
    requires c.Valid() && Inv(c, s) && p < c.n && s.procs[p].pc.Wait?
    requires p + 1 < c.n ==> s.procs[p + 1].pc in {Unborn, Exited, Killed}
    ensures p == c.n - 1 - |s.exits|
  {
    assert ProcOk(c, s, p);
    if p + 1 < c.n {
      assert ProcOk(c, s, p + 1);
    }
  }

  /** The exit of process p, seen from any process. */
  lemma WaitProc(c: Config, s: State, p: nat, t: State, q: nat)
    requires c.Valid() && Inv(c, s) && p < c.n && s.procs[p].pc.Wait? && q < c.n
    requires p == c.n - 1 - |s.exits|
    requires t == s.Set(p, Proc(Exited, s.procs[p].number, {})).(exits := s.exits + [p])
    ensures ProcOk(c, t, q)
  {
    assert ProcOk(c, s, q);
  }

  lemma WaitInv(c: Config, s: State, p: nat, t: State)
    requires c.Valid() && Inv(c, s) && p < c.n && s.procs[p].pc.Wait? && StepBy(c, s, p, t)
    ensures Inv(c, t)
  {
    WaiterIsLast(c, s, p);
    forall q | 0 <= q < c.n
      ensures ProcOk(c, t, q)
    {
      WaitProc(c, s, p, t, q);
    }
    assert TokenOk(c, t);
    assert LogsOk(c, t);
  }

  // ----- steps of the token

  /** Only the process with the turn prints or writes. */
  lemma WriterHasTurn(c: Config, s: State, p: nat)
    requires c.Valid() && Inv(c, s) && p < c.n
    requires s.procs[p].pc in {Print, WriteNext, WriteStop}
    ensures s.sent == s.received < c.stop + c.n && p == Turn(c.n, s.sent)
    ensures HolderRole(c, s.sent, p, s.procs[p])
  {
    assert ProcOk(c, s, p);
  }

  lemma PrintInv(c: Config, s: State, p: nat, t: State)
    requires c.Valid() && Inv(c, s) && p < c.n && s.procs[p].pc.Print? && StepBy(c, s, p, t)
    ensures Inv(c, t)
    ensures s.sent == |s.printed| <= c.stop
  {
    WriterHasTurn(c, s, p);
    assert ProcOk(c, s, p);
    forall q | 0 <= q < c.n
      ensures ProcOk(c, t, q)
    {
      assert ProcOk(c, s, q);
    }
  }

  /** The reader of a hop still has its input open when the hop is written. */
  lemma ReaderIsThere(c: Config, s: State, p: nat)
    requires c.Valid() && Inv(c, s) && p < c.n
    requires s.procs[p].pc in {WriteNext, WriteStop}
    ensures Desc(OutPipe(p), WriteEnd) in s.procs[p].open
    ensures s.SomeoneHolds(Desc(OutPipe(p), ReadEnd))
  {
    WriterHasTurn(c, s, p);
    assert ProcOk(c, s, p);
    var q := if p + 1 == c.n then 0 else p + 1;
    assert ProcOk(c, s, q);
    assert Desc(OutPipe(p), ReadEnd) in s.procs[q].open by {
      assert Keeps(c, q, s.procs[q].pc, Desc(OutPipe(p), ReadEnd));
    }
  }

  /** Writing hop w moves the turn on: one hop nearer for the others, a whole lap for the writer. */
  lemma RoleAfterWrite(c: Config, w: nat, q: nat, me: Proc)
    requires c.Valid() && q < c.n && q != Turn(c.n, w) && Role(c, w, w, q, me)
    ensures Role(c, w + 1, w, q, me)
    ensures NextHop(c.n, w + 1, q) == NextHop(c.n, w, q)
  {
  }

  lemma WriteEffect(c: Config, s: State, p: nat, t: State)
    requires c.Valid() && Inv(c, s) && p < c.n && StepBy(c, s, p, t)
    requires s.procs[p].pc in {WriteNext, WriteStop}
    ensures t.Shape(c) && TokenOk(c, t) && t.exits == s.exits && t.printed == s.printed
    ensures t.sent == s.sent + 1 && t.received == s.received
    ensures t.wrote == s.wrote + [Line(p, Value(c, s.sent))] && t.got == s.got
    ensures t.procs == s.procs[p := t.procs[p]] && t.procs[p].open == s.procs[p].open
    ensures t.procs[p].pc == if s.sent < c.stop then ReadNext else if s.sent == c.stop then ReadLast else CloseOut
  {
    WriterHasTurn(c, s, p);
    ReaderIsThere(c, s, p);
  }

  /** A write: t is s with one more int sent and a new place for p. */
  ghost predicate IsWrite(c: Config, s: State, p: nat, t: State)
    requires c.Valid() && s.Shape(c) && t.Shape(c) && p < c.n
  {
    && s.procs[p].pc in {WriteNext, WriteStop} && p == Turn(c.n, s.sent) && s.sent == s.received
    && t.procs == s.procs[p := t.procs[p]] && t.procs[p].open == s.procs[p].open
    && t.procs[p].pc == (if s.sent < c.stop then ReadNext else if s.sent == c.stop then ReadLast else CloseOut)
    && t.sent == s.sent + 1 && t.received == s.received && t.exits == s.exits
  }

  lemma WriteOther(c: Config, s: State, p: nat, t: State, q: nat)
    requires c.Valid() && s.Shape(c) && t.Shape(c) && p < c.n && q < c.n && q != p
    requires ProcOk(c, s, q) && IsWrite(c, s, p, t)
    ensures ProcOk(c, t, q)
  {
    RoleAfterWrite(c, s.sent, q, s.procs[q]);
    OtherProcOk(c, s, t, q);
  }

  lemma WriteSelf(c: Config, s: State, p: nat, t: State)
    requires c.Valid() && s.Shape(c) && t.Shape(c) && p < c.n
    requires ProcOk(c, s, p) && IsWrite(c, s, p, t)
    ensures ProcOk(c, t, p)
  {
    WriterBecomesWaiter(c, s.sent, p, t.procs[p]);
  }

  lemma WriterBecomesWaiter(c: Config, w: nat, p: nat, me: Proc)
    requires c.Valid() && p == Turn(c.n, w)
    requires me.pc == if w < c.stop then ReadNext else if w == c.stop then ReadLast else CloseOut
    ensures Role(c, w + 1, w, p, me)
  {
  }

  lemma WriteInv(c: Config, s: State, p: nat, t: State)
    requires c.Valid() && Inv(c, s) && p < c.n && StepBy(c, s, p, t)
    requires s.procs[p].pc in {WriteNext, WriteStop}
    ensures Inv(c, t)
    ensures t.sent == s.sent + 1 && t.received == s.received && t.printed == s.printed
    ensures t.procs == s.procs[p := t.procs[p]] && t.procs[p].pc in {ReadNext, ReadLast, CloseOut}
  {
    WriterHasTurn(c, s, p);
    WriteEffect(c, s, p, t);
    forall q | 0 <= q < c.n
      ensures ProcOk(c, t, q)
    {
      assert ProcOk(c, s, q);
      if q == p {
        WriteSelf(c, s, p, t);
      } else {
        WriteOther(c, s, p, t, q);
      }
    }
    assert LogsOk(c, t);
  }

  /** If a process does not exist yet, then some process before it has not left the fork phase and
      has closed nothing: it has both ends of every pipe that was created open. */
  lemma {:induction false} SomeoneStillForks(c: Config, s: State, q: nat) returns (f: nat)
    requires c.Valid() && Inv(c, s) && q < c.n && s.procs[q].pc == Unborn
    ensures f < q && (s.procs[f].pc.Create? || s.procs[f].pc.Fork?)
    ensures s.procs[f].pc.Create? ==> f == 0 && forall d :: d in s.procs[f].open <==> d.pipe < s.procs[f].pc.i
    ensures s.procs[f].pc.Fork? ==> forall d :: d in s.procs[f].open <==> d.pipe < c.n
    decreases q
  {
    assert ProcOk(c, s, q);
    assert ProcOk(c, s, q - 1);
    if s.procs[q - 1].pc == Unborn {
      f := SomeoneStillForks(c, s, q - 1);
    } else {
      f := q - 1;
    }
  }

  predicate Reading(pc: PC) {
    pc.ReadFirst? || pc.ReadNext? || pc.ReadLast?
  }

  /** The output of a process that does not exist yet is open in the ancestor that will fork it. */
  lemma UnbornWriterIsCovered(c: Config, s: State, q: nat)
    requires c.Valid() && Inv(c, s) && q < c.n && s.procs[q].pc == Unborn && !s.procs[0].pc.Create?
    ensures s.SomeoneHolds(Desc(q, WriteEnd))
  {
    var f := SomeoneStillForks(c, s, q);
    assert Desc(q, WriteEnd) in s.procs[f].open;
  }

  /** A process whose int is awaited, and not in flight, has its output open. */
  lemma AwaitedWriterHolds(c: Config, s: State, p: nat)
    requires c.Valid() && Inv(c, s) && p < c.n && Reading(s.procs[p].pc)
    requires s.procs[InPipe(c, p)].pc != Unborn && s.pipes[InPipe(c, p)] == []
    ensures s.SomeoneHolds(Desc(InPipe(c, p), WriteEnd))
  {
    assert ProcOk(c, s, p);
    var q := InPipe(c, p);
    assert ProcOk(c, s, q);
    assert Desc(q, WriteEnd) in s.procs[q].open;
  }

  /** A read finds an int, or blocks because someone can still write one. */
  lemma WriterIsThere(c: Config, s: State, p: nat)
    requires c.Valid() && Inv(c, s) && p < c.n && Reading(s.procs[p].pc)
    ensures Desc(InPipe(c, p), ReadEnd) in s.procs[p].open
    ensures s.pipes[InPipe(c, p)] != [] || s.SomeoneHolds(Desc(InPipe(c, p), WriteEnd))
  {
    assert ProcOk(c, s, p);
    var q := InPipe(c, p);
    if s.procs[q].pc == Unborn {
      assert ProcOk(c, s, 0);
      assert ProcOk(c, s, q);
      UnbornWriterIsCovered(c, s, q);
    } else if s.pipes[q] == [] {
      AwaitedWriterHolds(c, s, p);
    }
  }

  /** The pipe that p reads is non-empty exactly when the last hop written was for p. */
  lemma ReaderHasTurn(c: Config, s: State, p: nat)
    requires c.Valid() && Inv(c, s) && p < c.n && s.pipes[InPipe(c, p)] != []
    ensures s.sent == s.received + 1 && p == Turn(c.n, s.sent)
    ensures s.pipes[InPipe(c, p)] == [Value(c, s.received)]
    ensures WaiterRole(c, s.sent - c.n, p, s.procs[p])
  {
    assert ProcOk(c, s, p);
  }

  /** A read takes the hop that is in flight, and makes the reader the holder of the token. */
  lemma ReadEffect(c: Config, s: State, p: nat, t: State)
    requires c.Valid() && Inv(c, s) && p < c.n && Reading(s.procs[p].pc) && StepBy(c, s, p, t)
    ensures p == Turn(c.n, s.sent) && s.sent == s.received + 1
    ensures t.Shape(c) && TokenOk(c, t) && t.exits == s.exits && t.printed == s.printed
    ensures t.received == s.received + 1 && t.sent == s.sent
    ensures t.got == s.got + [Line(p, Value(c, s.received))] && t.wrote == s.wrote
    ensures t.procs == s.procs[p := t.procs[p]] && t.procs[p].open == s.procs[p].open
    ensures t.procs[p].pc in {Print, WriteStop, CloseOut} && HolderRole(c, t.sent, p, t.procs[p])
    ensures t.sent <= c.stop ==> t.procs[p].pc == Print
  {
    WriterIsThere(c, s, p);
    ReaderHasTurn(c, s, p);
  }

  lemma ReadProc(c: Config, s: State, p: nat, t: State, q: nat)
    requires c.Valid() && Inv(c, s) && p < c.n && t.Shape(c) && q < c.n
    requires Reading(s.procs[p].pc) && p == Turn(c.n, s.sent) && s.sent == s.received + 1
    requires t.procs == s.procs[p := t.procs[p]] && t.procs[p].open == s.procs[p].open
    requires t.procs[p].pc in {Print, WriteStop, CloseOut} && HolderRole(c, t.sent, p, t.procs[p])
    requires t.received == s.received + 1 && t.sent == s.sent && t.exits == s.exits
    ensures ProcOk(c, t, q)
  {
    assert ProcOk(c, s, q);
    if q != p {
      assert ProcOk(c, s, p);
      OtherProcOk(c, s, t, q);
    }
  }

  lemma ReadLogs(c: Config, s: State, p: nat, t: State)
    requires c.Valid() && s.Shape(c) && t.Shape(c) && p < c.n && LogsOk(c, s)
    requires p == Turn(c.n, s.sent) && s.sent == s.received + 1 && t.wrote == s.wrote
    requires t.got == s.got + [Line(p, Value(c, s.received))] && t.exits == s.exits && t.printed == s.printed
    requires t.sent <= c.stop ==> t.procs[p].pc == Print
    ensures LogsOk(c, t)
  {
  }

  lemma ReadInv(c: Config, s: State, p: nat, t: State)
    requires c.Valid() && Inv(c, s) && p < c.n && Reading(s.procs[p].pc) && StepBy(c, s, p, t)
    ensures Inv(c, t)
    ensures t.received == s.received + 1 && t.sent == s.sent && t.printed == s.printed
    ensures t.procs == s.procs[p := t.procs[p]] && t.procs[p].pc in {Print, WriteStop, CloseOut}
  {
    ReadEffect(c, s, p, t);
    forall q | 0 <= q < c.n
      ensures ProcOk(c, t, q)
    {
      ReadProc(c, s, p, t, q);
    }
    ReadLogs(c, s, p, t);
  }

  /** Every step keeps the invariant. */
  lemma StepInv(c: Config, s: State, p: nat, t: State)
    requires c.Valid() && Inv(c, s) && p < c.n && StepBy(c, s, p, t)
    ensures Inv(c, t)
  {
    match s.procs[p].pc
    case Create(_) => CreateInv(c, s, p, t);
    case Fork => ForkInv(c, s, p, t);
    case InitOut => SetupInv(c, s, p, t);
    case InitIn => SetupInv(c, s, p, t);
    case InitLoop(_) => SetupInv(c, s, p, t);
    case InitLoopWrite(_) => SetupInv(c, s, p, t);
    case ReadFirst => ReadInv(c, s, p, t);
    case Print => PrintInv(c, s, p, t);
    case WriteNext => WriteInv(c, s, p, t);
    case ReadNext => ReadInv(c, s, p, t);
    case WriteStop => WriteInv(c, s, p, t);
    case ReadLast => ReadInv(c, s, p, t);
    case CloseOut => CloseInv(c, s, p, t);
    case CloseIn => CloseInv(c, s, p, t);
    case Wait => WaitInv(c, s, p, t);
    case _ =>
  }
}
