/** At every moment of every run, a process of the ring has done what its sequential code does on
    the ints that reached it so far. */
module RingHistory {
  import opened RingSystem
  import opened RingInvariant
  import opened RingTheorems
  import opened RingProcess

  lemma {:induction false} OfAppend(lines: seq<Line>, line: Line, p: nat)
    ensures Of(lines + [line], p) == if line.process == p then Of(lines, p) + [line.number] else Of(lines, p)
  {
    if lines == [] {
      assert [line][1..] == [] && lines + [line] == [line];
    } else {
      OfAppend(lines[1..], line, p);
      assert (lines + [line])[1..] == lines[1..] + [line];
    }
  }

  // ----- one int more for the code

  /** The last number printed is this one. */
  predicate LastPrinted(printed: seq<int>, number: int) {
    |printed| > 0 && printed[|printed| - 1] == number
  }

  /** What a process that waits does with the next int. */
  function Continued(c: Config, before: Trace, v: int): Trace {
    if LastPrinted(before.printed, c.stop) then Trace(before.printed, before.written, [], true)
    else Behind(before, Cycle(c, v, []))
  }

  lemma {:induction false} CycleAppend(c: Config, number: int, inbox: seq<int>, v: int)
    requires !Cycle(c, number, inbox).finished
    ensures Cycle(c, number, inbox + [v]) == Continued(c, Cycle(c, number, inbox), v)
    decreases |inbox|
  {
    var longer := inbox + [v];
    if number == c.stop || inbox == [] {
      assert longer == [v] && longer[1..] == [];
    } else {
      var rest := Cycle(c, inbox[0], inbox[1..]);
      CycleAppend(c, inbox[0], inbox[1..], v);
      WaitingHasWritten(c, inbox[0], inbox[1..]);
      assert longer[0] == inbox[0] && longer[1..] == inbox[1..] + [v];
      BehindIsAssociative(Trace([number], [number + 1], [], false), rest, Cycle(c, v, []));
    }
  }

  lemma BehindIsAssociative(a: Trace, b: Trace, d: Trace)
    ensures Behind(Behind(a, b), d) == Behind(a, Behind(b, d))
  {
    assert a.printed + b.printed + d.printed == a.printed + (b.printed + d.printed);
    assert a.written + b.written + d.written == a.written + (b.written + d.written);
  }

  lemma StartAppend(c: Config, nr: nat, inbox: seq<int>, v: int)
    requires !CycleFromStart(c, nr, inbox).finished
    ensures CycleFromStart(c, nr, inbox + [v]) == Continued(c, CycleFromStart(c, nr, inbox), v)
  {
    var longer := inbox + [v];
    if nr == 0 {
      CycleAppend(c, 0, inbox, v);
    } else if inbox == [] {
      assert longer[0] == v && longer[1..] == [];
    } else {
      CycleAppend(c, inbox[0], inbox[1..], v);
      assert longer[0] == inbox[0] && longer[1..] == inbox[1..] + [v];
    }
  }

  // ----- the histories of a process, wherever it is

  /** Where process p is with these histories, compared with its code on the ints it got. */
  predicate Follows(c: Config, p: nat, me: Proc, printed: seq<int>, wrote: seq<int>, got: seq<int>) {
    var code := CycleFromStart(c, p, got);
    if Setup(me.pc) then printed == wrote == got == []
    else match me.pc
      case ReadFirst => p != 0 && printed == wrote == got == []
      case Print =>
        && me.number != SIGNAL_STOP
        && code == Behind(Trace(printed, wrote, [], false), Cycle(c, me.number, []))
      case WriteNext =>
        && me.number != c.stop && LastPrinted(printed, me.number)
        && code == Trace(printed, wrote + [me.number + 1], [], false)
      case ReadNext =>
        && printed != [] && !LastPrinted(printed, c.stop)
        && code == Trace(printed, wrote, [], false)
      case WriteStop =>
        && (me.number == c.stop ==> LastPrinted(printed, c.stop))
        && code == Trace(printed, wrote + [SIGNAL_STOP], [], me.number != c.stop)
      case ReadLast =>
        && LastPrinted(printed, c.stop)
        && code == Trace(printed, wrote, [], false)
      case Killed => false
      case _ => code == Trace(printed, wrote, [], true)
  }

  ghost predicate FollowsIn(c: Config, s: State, p: nat)
    requires c.Valid() && s.Shape(c) && p < c.n
  {
    Follows(c, p, s.procs[p], Of(s.printed, p), Of(s.wrote, p), Of(s.got, p))
  }

  /** Reading v, in a process that waits. */
  lemma FollowsRead(c: Config, p: nat, me: Proc, printed: seq<int>, wrote: seq<int>, got: seq<int>, v: int)
    requires Reading(me.pc) && Follows(c, p, me, printed, wrote, got)
    ensures Follows(c, p, AfterRead(me, v), printed, wrote, got + [v])
  {
    StartAppend(c, p, got, v);
  }

  lemma FollowsPrint(c: Config, p: nat, me: Proc, printed: seq<int>, wrote: seq<int>, got: seq<int>)
    requires me.pc == Print && Follows(c, p, me, printed, wrote, got)
    ensures Follows(c, p, me.(pc := if me.number == c.stop then WriteStop else WriteNext),
                    printed + [me.number], wrote, got)
  {
  }

  /** What the process writes there, and where it goes on. */
  predicate WriteLeads(c: Config, me: Proc, v: int, pc: PC) {
    if me.pc == WriteNext then v == me.number + 1 && pc == ReadNext
    else v == SIGNAL_STOP && pc == if me.number == c.stop then ReadLast else CloseOut
  }

  lemma FollowsWrite(c: Config, p: nat, me: Proc, printed: seq<int>, wrote: seq<int>, got: seq<int>, v: int, pc: PC)
    requires me.pc in {WriteNext, WriteStop} && WriteLeads(c, me, v, pc) && Follows(c, p, me, printed, wrote, got)
    ensures Follows(c, p, me.(pc := pc), printed, wrote + [v], got)
  {
  }

  /** What a read does, now that it cannot meet end-of-file. */
  lemma ReadOutcome(c: Config, s: State, p: nat, t: State) returns (v: int)
    requires c.Valid() && Inv(c, s) && p < c.n && Reading(s.procs[p].pc) && StepBy(c, s, p, t)
    ensures t.Shape(c) && t.procs == s.procs[p := AfterRead(s.procs[p], v)]
    ensures t.printed == s.printed && t.wrote == s.wrote && t.got == s.got + [Line(p, v)]
  {
    WriterIsThere(c, s, p);
    v := s.pipes[InPipe(c, p)][0];
  }

  /** What a write does, now that it cannot meet a pipe without readers. */
  lemma WriteOutcomeIs(c: Config, s: State, p: nat, t: State) returns (v: int, pc: PC)
    requires c.Valid() && Inv(c, s) && p < c.n && StepBy(c, s, p, t)
    requires s.procs[p].pc in {WriteNext, WriteStop}
    ensures t.Shape(c) && t.procs == s.procs[p := s.procs[p].(pc := pc)]
    ensures t.printed == s.printed && t.got == s.got && t.wrote == s.wrote + [Line(p, v)]
    ensures WriteLeads(c, s.procs[p], v, pc)
  {
    ReaderIsThere(c, s, p);
    v, pc := if s.procs[p].pc == WriteNext then s.procs[p].number + 1 else SIGNAL_STOP, t.procs[p].pc;
  }

  lemma ReadStepFollows(c: Config, s: State, p: nat, t: State, q: nat)
    requires c.Valid() && Inv(c, s) && p < c.n && q < c.n && StepBy(c, s, p, t) && FollowsIn(c, s, q)
    requires Reading(s.procs[p].pc)
    ensures t.Shape(c) && FollowsIn(c, t, q)
  {
    var v := ReadOutcome(c, s, p, t);
    OfAppend(s.got, Line(p, v), q);
    if q == p {
      FollowsRead(c, p, s.procs[p], Of(s.printed, p), Of(s.wrote, p), Of(s.got, p), v);
    }
  }

  lemma PrintStepFollows(c: Config, s: State, p: nat, t: State, q: nat)
    requires c.Valid() && s.Shape(c) && p < c.n && q < c.n && StepBy(c, s, p, t) && FollowsIn(c, s, q)
    requires s.procs[p].pc == Print
    ensures t.Shape(c) && FollowsIn(c, t, q)
  {
    var me := s.procs[p];
    OfAppend(s.printed, Line(p, me.number), q);
    if q == p {
      FollowsPrint(c, p, me, Of(s.printed, p), Of(s.wrote, p), Of(s.got, p));
    }
  }

  lemma WriteStepFollows(c: Config, s: State, p: nat, t: State, q: nat)
    requires c.Valid() && Inv(c, s) && p < c.n && q < c.n && StepBy(c, s, p, t) && FollowsIn(c, s, q)
    requires s.procs[p].pc in {WriteNext, WriteStop}
    ensures t.Shape(c) && FollowsIn(c, t, q)
  {
    var v, pc := WriteOutcomeIs(c, s, p, t);
    OfAppend(s.wrote, Line(p, v), q);
    if q == p {
      FollowsWrite(c, p, s.procs[p], Of(s.printed, p), Of(s.wrote, p), Of(s.got, p), v, pc);
    }
  }

  predicate IsQuiet(q: nat, before: Proc, after: Proc) {
    || after == before
    || (Setup(before.pc) && Setup(after.pc))
    || (Setup(before.pc) && after.pc == ReadFirst && q != 0)
    || (Setup(before.pc) && after.pc == Print && q == 0 && after.number == 0)
    || (Done(before.pc) && Done(after.pc))
  }

  lemma FollowsQuiet(c: Config, q: nat, before: Proc, after: Proc, printed: seq<int>, wrote: seq<int>, got: seq<int>)
    requires IsQuiet(q, before, after) && Follows(c, q, before, printed, wrote, got)
    ensures Follows(c, q, after, printed, wrote, got)
  {
  }

  /** What a step outside of printing and token passing does to process q, whoever takes it. */
  lemma QuietStep(c: Config, s: State, p: nat, t: State, q: nat)
    requires c.Valid() && Inv(c, s) && p < c.n && q < c.n && StepBy(c, s, p, t)
    requires s.procs[p].pc !in {Print, WriteNext, WriteStop} && !Reading(s.procs[p].pc)
    ensures t.Shape(c) && t.printed == s.printed && t.wrote == s.wrote && t.got == s.got
    ensures IsQuiet(q, s.procs[q], t.procs[q])
  {
    assert ProcOk(c, s, p);
  }

  lemma QuietStepFollows(c: Config, s: State, p: nat, t: State, q: nat)
    requires c.Valid() && Inv(c, s) && p < c.n && q < c.n && StepBy(c, s, p, t) && FollowsIn(c, s, q)
    requires s.procs[p].pc !in {Print, WriteNext, WriteStop} && !Reading(s.procs[p].pc)
    ensures t.Shape(c) && FollowsIn(c, t, q)
  {
    QuietStep(c, s, p, t, q);
    FollowsQuiet(c, q, s.procs[q], t.procs[q], Of(s.printed, q), Of(s.wrote, q), Of(s.got, q));
  }

  lemma StepFollows(c: Config, s: State, p: nat, t: State, q: nat)
    requires c.Valid() && Inv(c, s) && p < c.n && q < c.n && StepBy(c, s, p, t) && FollowsIn(c, s, q)
    ensures t.Shape(c) && FollowsIn(c, t, q)
  {
    if Reading(s.procs[p].pc) {
      ReadStepFollows(c, s, p, t, q);
    } else if s.procs[p].pc == Print {
      PrintStepFollows(c, s, p, t, q);
    } else if s.procs[p].pc in {WriteNext, WriteStop} {
      WriteStepFollows(c, s, p, t, q);
    } else {
      QuietStepFollows(c, s, p, t, q);
    }
  }

  lemma {:induction false} RunFollows(c: Config, run: seq<State>, k: nat, p: nat)
    requires c.Valid() && IsRun(c, run) && k < |run| && p < c.n
    ensures run[k].Shape(c) && FollowsIn(c, run[k], p)
  {
    if k > 0 {
      RunFollows(c, run, k - 1, p);
      RunInv(c, run, k - 1);
      assert IsStep(c, run, k - 1);
      var q :| 0 <= q < c.n && StepBy(c, run[k - 1], q, run[k]);
      StepFollows(c, run[k - 1], q, run[k], p);
    }
  }

  /** In every state of every run: a process in a read has printed and written just what its code
      prints and writes, on the ints it has read so far, before it waits for the next; and a process
      that has left cycleNumber what its code does altogether. */
  lemma RunFollowsCode(c: Config, run: seq<State>, k: nat, p: nat)
    requires c.Valid() && IsRun(c, run) && k < |run| && p < c.n
    ensures run[k].Shape(c)
    ensures var s := run[k];
            && (Reading(s.procs[p].pc) ==>
                  CycleFromStart(c, p, Of(s.got, p)) == Trace(Of(s.printed, p), Of(s.wrote, p), [], false))
            && (Done(s.procs[p].pc) ==>
                  CycleFromStart(c, p, Of(s.got, p)) == Trace(Of(s.printed, p), Of(s.wrote, p), [], true))
  {
    RunFollows(c, run, k, p);
  }
}
