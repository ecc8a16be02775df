/** The job handler of Lab2/iwish/src/interpreter.c as code: the loop over two arrays and a
    descriptor table, proved against PipelineLoop.Run. */
module JobHandler {
  import opened Descriptors
  import opened PipelineLoop

  /** Command k of n starts: its fork succeeds and, unless it is the last, so does its pipe. */
  predicate Starts(n: nat, k: nat, pipeFails: bool, forkFails: bool) {
    !forkFails && (k + 1 < n ==> !pipeFails)
  }

  /** The first command from k on that does not start, or n. */
  function FirstFailure(n: nat, k: nat, pipeFails: set<nat>, forkFails: set<nat>): (m: nat)
    requires k <= n
    decreases n - k
  {
    if k < n && Starts(n, k, k in pipeFails, k in forkFails) then FirstFailure(n, k + 1, pipeFails, forkFails)
    else k
  }

  /** No command before the first failure has a failing fork(2), nor a failing pipe(2) if it needs
      a pipe; the command of the first failure has one of the two. */
  lemma {:induction false} FirstFailureIsFirst(n: nat, k: nat, pipeFails: set<nat>, forkFails: set<nat>)
    requires k <= n
    ensures var m := FirstFailure(n, k, pipeFails, forkFails);
            && k <= m <= n
            && (forall j :: k <= j < m ==> j !in forkFails)
            && (forall j :: k <= j < m && j < n - 1 ==> j !in pipeFails)
            && (m < n ==> m in forkFails || (m < n - 1 && m in pipeFails))
    decreases n - k
  {
    if k < n && Starts(n, k, k in pipeFails, k in forkFails) {
      FirstFailureIsFirst(n, k + 1, pipeFails, forkFails);
    }
  }

  /** What iteration k may rely on, and where it leads. */
  lemma LoopHead(n: nat, fds: seq<Numbers>, t: Table, k: nat, s: Handler)
    requires ValidNumbers(n, fds, t) && k < n && s == Run(n, fds, t, k)
    ensures HoldsOneReadEnd(n, t, k, s)
    ensures k + 1 < n ==> Allocates(s.table, fds[k])
    ensures AfterFork(BeforeFork(n, fds, s, k)) == Run(n, fds, t, k + 1)
  {
    HandlerHoldsOneReadEnd(n, fds, t, k);
    assert k + 1 < n ==> ValidAt(n, fds, t, k);
  }

  lemma LoopEnd(n: nat, fds: seq<Numbers>, t: Table, s: Handler)
    requires ValidNumbers(n, fds, t) && s == Run(n, fds, t, n)
    ensures s.table == t
  {
    HandlerHoldsOneReadEnd(n, fds, t, n);
  }

  class JobHandler {
    var table: Table
    var children: seq<Child> // every child forked so far, with the descriptors left to its command

    constructor (table: Table)
      ensures this.table == table && children == []
    {
      this.table, children := table, [];
    }

    method ClosePipe(pipe: array<int>)
      requires pipe.Length == 2
      modifies this`table
      ensures table == PipelineLoop.ClosePipe(old(table), Pair(pipe[0], pipe[1]))
    {
      if pipe[0] != -1 && pipe[1] != -1 {
        table := Close(table, pipe[0]);
        table := Close(table, pipe[1]);
      }
    }

    ghost predicate At(s: Handler, incoming: array<int>, outgoing: array<int>)
      requires incoming.Length == 2 && outgoing.Length == 2
      reads this, incoming, outgoing
    {
      && s.table == table && s.children == children
      && s.incoming == Pair(incoming[0], incoming[1]) && s.outgoing == Pair(outgoing[0], outgoing[1])
    }

    method CloseBoth(ghost s: Handler, incoming: array<int>, outgoing: array<int>)
      requires incoming.Length == 2 && outgoing.Length == 2 && At(s, incoming, outgoing)
      modifies this`table
      ensures table == PipelineLoop.CloseBoth(s)
    {
      ClosePipe(incoming);
      ClosePipe(outgoing);
    }

    /** A successful pipe(2), which is the k-th and returns fd. */
    method Pipe(outgoing: array<int>, k: nat, fd: Numbers)
      requires outgoing.Length == 2
      modifies this`table, outgoing
      ensures outgoing[0] == fd.0 && outgoing[1] == fd.1
      ensures table == old(table)[fd.0 := PipeRead(k)][fd.1 := PipeWrite(k)]
    {
      outgoing[0], outgoing[1] := fd.0, fd.1;
      table := table[fd.0 := PipeRead(k)][fd.1 := PipeWrite(k)];
    }

    /** Both sides of a fork: what is left to the child, what the parent closes, and the swap. */
    method ForkCommand(ghost s: Handler, incoming: array<int>, outgoing: array<int>)
      requires incoming.Length == 2 && outgoing.Length == 2 && incoming != outgoing
      requires At(s, incoming, outgoing)
      modifies this, incoming, outgoing
      ensures At(AfterFork(s), incoming, outgoing)
    {
      // the child
      var childTable := table;
      if incoming[1] != -1 { childTable := Close(childTable, incoming[1]); }
      if outgoing[0] != -1 { childTable := Close(childTable, outgoing[0]); }
      children := children + [Child(childTable, incoming[0], outgoing[1])];

      // the parent
      if incoming[0] != -1 { table := Close(table, incoming[0]); }
      if outgoing[1] != -1 { table := Close(table, outgoing[1]); }
      var temp := new int[] [incoming[0], incoming[1]];
      incoming[0] := outgoing[0];
      incoming[1] := outgoing[1];
      outgoing[0] := temp[0];
      outgoing[1] := temp[1];
    }

    /** One iteration, for command k of n. */
    method StartCommand(n: nat, fds: seq<Numbers>, k: nat, pipeFails: bool, forkFails: bool,
                        incoming: array<int>, outgoing: array<int>, ghost s: Handler, ghost t: Table)
      returns (ok: bool)
      requires incoming.Length == 2 && outgoing.Length == 2 && incoming != outgoing
      requires At(s, incoming, outgoing) && k < n <= |fds| + 1 && HoldsOneReadEnd(n, t, k, s)
      requires k + 1 < n ==> Allocates(s.table, fds[k])
      modifies this, incoming, outgoing
      ensures ok == Starts(n, k, pipeFails, forkFails)
      ensures ok <==> !forkFails && (pipeFails ==> k == n - 1)
      ensures ok ==> At(AfterFork(BeforeFork(n, fds, s, k)), incoming, outgoing)
      ensures !ok ==> table == t && children == old(children)
    {
      IterationFailureLeaksNothing(n, fds, t, k, s);
      if k + 1 < n {
        if pipeFails {
          CloseBoth(s, incoming, outgoing);
          return false;
        }
        Pipe(outgoing, k, fds[k]);
      } else {
        outgoing[0], outgoing[1] := -1, -1;
      }
      if forkFails {
        CloseBoth(BeforeFork(n, fds, s, k), incoming, outgoing);
        return false;
      }
      ForkCommand(BeforeFork(n, fds, s, k), incoming, outgoing);
      return true;
    }

    /** The loop, with both arrays as they are initialised. */
    method StartCommands(n: nat, fds: seq<Numbers>, pipeFails: set<nat>, forkFails: set<nat>,
                         incoming: array<int>, outgoing: array<int>, ghost t: Table)
      returns (ok: bool, started: nat)
      requires incoming.Length == 2 && outgoing.Length == 2 && incoming != outgoing
      requires ValidNumbers(n, fds, t) && At(Start(t), incoming, outgoing)
      modifies this, incoming, outgoing
      ensures table == t
      ensures started == FirstFailure(n, 0, pipeFails, forkFails) && ok == (started == n)
      ensures children == Run(n, fds, t, started).children
    {
      var current := 0;
      ghost var s := Start(t);
      while current < n
        invariant 0 <= current <= n
        invariant s == Run(n, fds, t, current) && At(s, incoming, outgoing)
        invariant FirstFailure(n, 0, pipeFails, forkFails) == FirstFailure(n, current, pipeFails, forkFails)
      {
        LoopHead(n, fds, t, current, s);
        ok := StartCommand(n, fds, current, current in pipeFails, current in forkFails,
                           incoming, outgoing, s, t);
        if !ok {
          return false, current;
        }
        s := AfterFork(BeforeFork(n, fds, s, current));
        current := current + 1;
      }
      LoopEnd(n, fds, t, s);
      return true, n;
    }

    /** Starts n commands. The call of pipe(2) in iteration k returns fds[k], or fails if k is in
        pipeFails; fork(2) fails in the iterations in forkFails. Whatever happens, the handler ends
        with the descriptors it had at the start; the commands before the first failure are
        started, each with exactly its own descriptors. */
    method InterpretSimpleList(n: nat, fds: seq<Numbers>, pipeFails: set<nat>, forkFails: set<nat>)
      returns (ok: bool, started: nat)
      requires ValidNumbers(n, fds, table) && children == []
      modifies this
      ensures table == old(table)
      ensures started == FirstFailure(n, 0, pipeFails, forkFails) && ok == (started == n)
      ensures started <= n && (ok <==> started == n)
      ensures ok <==> (forall k :: 0 <= k < n ==> k !in forkFails) && (forall k :: 0 <= k < n - 1 ==> k !in pipeFails)
      ensures forall k :: 0 <= k < started ==> k !in forkFails
      ensures forall k :: 0 <= k < started && k < n - 1 ==> k !in pipeFails
      ensures !ok ==> started in forkFails || (started < n - 1 && started in pipeFails)
      ensures |children| == started && children == Run(n, fds, old(table), started).children
    {
      var incoming, outgoing := new int[] [-1, -1], new int[] [-1, -1];
      ok, started := StartCommands(n, fds, pipeFails, forkFails, incoming, outgoing, table);
      FirstFailureIsFirst(n, 0, pipeFails, forkFails);
      CountChildren(n, fds, old(table), started);
    }
  }
}
