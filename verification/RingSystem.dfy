/** The token ring of Lab1/ring.c as a system of interleaved processes.

    Every system call of the program is one step of one process: pipe, fork, close, read,
    write, waitpid and exit, together with the local computation up to the next call. A process
    owns a descriptor table, and a pipe is a FIFO of ints. The steps include what the kernel does
    when a call goes wrong: a read at end-of-file or on a closed descriptor leaves an arbitrary
    value behind, and a write without readers kills the writer. That none of this ever
    happens is a theorem (see RingTheorems), not an assumption.
  */
module RingSystem {

  datatype End = ReadEnd | WriteEnd

  /** Descriptors are named by the pipe end they refer to: all pipes are created before the
      first fork, so the numbering is the same in every process and never reused. */
  datatype Desc = Desc(pipe: nat, end: End)

  /** Where a process is in `main`. */
  datatype PC =
    | Unborn
    | Create(i: nat)          // createPipes, about to create pipe i
    | Fork                    // recFork
    | InitOut                 // initMyPipes, about to close the read end of the output pipe
    | InitIn                  // initMyPipes, about to close the write end of the input pipe
    | InitLoop(i: nat)        // initMyPipes, loop head
    | InitLoopWrite(i: nat)   // closeUnnecessaryPipe, between its two closes
    | ReadFirst               // cycleNumber, the read before the loop
    | Print                   // cycleNumber, inside the loop
    | WriteNext
    | ReadNext
    | WriteStop               // cycleNumber, after the loop
    | ReadLast
    | CloseOut                // cleanup
    | CloseIn
    | Wait                    // waitpid, then return from main
    | Exited
    | Killed                  // by SIGPIPE

  datatype Proc = Proc(pc: PC, number: int, open: set<Desc>)

  /** A number that was printed, written or read, and by which process. */
  datatype Line = Line(process: nat, number: int)

  /** The state of the whole ring. The last four fields record history: what was printed, written to
      pipes and read from them, each with the process that did it, and who exited. */
  datatype State = State(
    procs: seq<Proc>,
    pipes: seq<seq<int>>,
    printed: seq<Line>,
    wrote: seq<Line>,
    got: seq<Line>,
    exits: seq<nat>)
  {
    /** How many ints were written so far, and how many were read. */
    const sent: nat := |wrote|
    const received: nat := |got|

    predicate Shape(c: Config) {
      |procs| == c.n && |pipes| == c.n
    }

    function Set(p: nat, q: Proc): State
      requires p < |procs|
    {
      this.(procs := procs[p := q])
    }

    function Goto(p: nat, pc: PC): State
      requires p < |procs|
    {
      Set(p, procs[p].(pc := pc))
    }

    /** close(d) in process p, which then continues at pc. */
    function Close(p: nat, d: Desc, pc: PC): State
      requires p < |procs|
    {
      Set(p, procs[p].(pc := pc, open := procs[p].open - {d}))
    }

    predicate SomeoneHolds(d: Desc) {
      exists q :: 0 <= q < |procs| && d in procs[q].open
    }
  }

  /** The number of processes and the number at which the ring stops. */
  datatype Config = Config(n: nat, stop: nat) {
    predicate Valid() { 2 <= n }
  }

  const SIGNAL_STOP: int := -1

  function InPipe(c: Config, p: nat): (x: nat)
    requires c.Valid() && p < c.n
    ensures x == if p == 0 then c.n - 1 else p - 1
  {
    if p == 0 then (
      assert (p + c.n - 1) % c.n == c.n - 1;
      (p + c.n - 1) % c.n
    ) else (
      SubtractModulus(p - 1, c.n);
      (p + c.n - 1) % c.n
    )
  }

  lemma SubtractModulus(a: nat, n: nat)
    requires a < n
    ensures (a + n) % n == a
  {
    assert (a + n) % n == a by {
      assert a + n == n * 1 + a;
    }
  }

  function OutPipe(p: nat): nat { p }

  function Initial(c: Config): State
    requires c.Valid()
  {
    State(
      [Proc(Create(0), 0, {})] + seq(c.n - 1, i => Proc(Unborn, 0, {})),
      seq(c.n, i => []), [], [], [], [])
  }

  // ----- steps

  /** Where reading v leads: the last read of the process that saw the stop number discards it. */
  function AfterRead(proc: Proc, v: int): Proc {
    if proc.pc == ReadLast then proc.(pc := CloseOut)
    else if v == SIGNAL_STOP then proc.(pc := WriteStop, number := v)
    else proc.(pc := Print, number := v)
  }

  ghost predicate ReadStep(c: Config, s: State, p: nat, t: State)
    requires c.Valid() && s.Shape(c) && p < c.n
  {
    var x := InPipe(c, p);
    if Desc(x, ReadEnd) !in s.procs[p].open then
      exists v :: t == s.Set(p, AfterRead(s.procs[p], v))
    else if s.pipes[x] != [] then
      t == s.Set(p, AfterRead(s.procs[p], s.pipes[x][0]))
            .(pipes := s.pipes[x := s.pipes[x][1..]], got := s.got + [Line(p, s.pipes[x][0])])
    else if s.SomeoneHolds(Desc(x, WriteEnd)) then
      false // the read blocks
    else
      exists v :: t == s.Set(p, AfterRead(s.procs[p], v))
  }

  ghost predicate WriteStep(c: Config, s: State, p: nat, v: int, pc: PC, t: State)
    requires c.Valid() && s.Shape(c) && p < c.n
  {
    var x := OutPipe(p);
    if Desc(x, WriteEnd) !in s.procs[p].open then
      t == s.Goto(p, pc)
    else if s.SomeoneHolds(Desc(x, ReadEnd)) then
      t == s.Goto(p, pc).(pipes := s.pipes[x := s.pipes[x] + [v]], wrote := s.wrote + [Line(p, v)])
    else
      t == s.Set(p, Proc(Killed, s.procs[p].number, {}))
  }

  function ForkStep(c: Config, s: State, p: nat): State
    requires s.Shape(c) && p < c.n
  {
    if p == c.n - 1 then s.Goto(p, InitOut)
    else s.Goto(p, InitOut).Set(p + 1, Proc(Fork, 0, s.procs[p].open))
  }

  function InitLoopStep(c: Config, s: State, p: nat, i: nat): State
    requires c.Valid() && s.Shape(c) && p < c.n
  {
    if i >= c.n then s.Set(p, s.procs[p].(pc := if p == 0 then Print else ReadFirst, number := 0))
    else if i == InPipe(c, p) || i == OutPipe(p) then s.Goto(p, InitLoop(i + 1))
    else s.Close(p, Desc(i, ReadEnd), InitLoopWrite(i))
  }

  /** Process p takes one step from s to t. */
  ghost predicate StepBy(c: Config, s: State, p: nat, t: State)
    requires c.Valid() && s.Shape(c) && p < c.n
  {
    var me := s.procs[p];
    match me.pc
    case Unborn => false
    case Create(i) =>
      t == s.Set(p, me.(pc := if i + 1 < c.n then Create(i + 1) else Fork,
                        open := me.open + {Desc(i, ReadEnd), Desc(i, WriteEnd)}))
    case Fork => t == ForkStep(c, s, p)
    case InitOut => t == s.Close(p, Desc(OutPipe(p), ReadEnd), InitIn)
    case InitIn => t == s.Close(p, Desc(InPipe(c, p), WriteEnd), InitLoop(0))
    case InitLoop(i) => t == InitLoopStep(c, s, p, i)
    case InitLoopWrite(i) => t == s.Close(p, Desc(i, WriteEnd), InitLoop(i + 1))
    case ReadFirst => ReadStep(c, s, p, t)
    case Print =>
      t == s.Goto(p, if me.number == c.stop then WriteStop else WriteNext)
            .(printed := s.printed + [Line(p, me.number)])
    case WriteNext => WriteStep(c, s, p, me.number + 1, ReadNext, t)
    case ReadNext => ReadStep(c, s, p, t)
    case WriteStop =>
      WriteStep(c, s, p, SIGNAL_STOP, if me.number == c.stop then ReadLast else CloseOut, t)
    case ReadLast => ReadStep(c, s, p, t)
    case CloseOut => t == s.Close(p, Desc(OutPipe(p), WriteEnd), CloseIn)
    case CloseIn => t == s.Close(p, Desc(InPipe(c, p), ReadEnd), Wait)
    case Wait =>
      // waitpid(-1) blocks while the only child is alive and fails at once without a child
      && (p + 1 < c.n ==> s.procs[p + 1].pc in {Unborn, Exited, Killed})
      && t == s.Set(p, Proc(Exited, me.number, {})).(exits := s.exits + [p])
    case Exited => false
    case Killed => false
  }

  ghost predicate Next(c: Config, s: State, t: State)
    requires c.Valid() && s.Shape(c)
  {
    exists p :: 0 <= p < c.n && StepBy(c, s, p, t)
  }

  ghost predicate Enabled(c: Config, s: State, p: nat)
    requires c.Valid() && s.Shape(c) && p < c.n
  {
    exists t :: StepBy(c, s, p, t)
  }

  // ----- runs

  /** A finite run, from the start of `main` in the root process. */
  ghost predicate IsRun(c: Config, run: seq<State>)
    requires c.Valid()
  {
    && |run| > 0 && run[0] == Initial(c)
    && (forall k :: 0 <= k < |run| - 1 ==> IsStep(c, run, k))
  }

  ghost predicate IsStep(c: Config, run: seq<State>, k: nat)
    requires c.Valid() && k + 1 < |run|
  {
    run[k].Shape(c) && Next(c, run[k], run[k + 1])
  }

  ghost predicate Stuck(c: Config, s: State)
    requires c.Valid() && s.Shape(c)
  {
    forall p :: 0 <= p < c.n ==> !Enabled(c, s, p)
  }
}
