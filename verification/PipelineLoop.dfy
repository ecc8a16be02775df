/** The job handler's loop in Lab2/iwish/src/interpreter.c: one pipe and one child per iteration,
    with two descriptor pairs that are swapped at the end.

    After the swap `incoming.w` is the number of a descriptor that is closed already. The next
    child closes that number again. What this does depends on which numbers pipe(2) returns, so
    they are a parameter here: `fds[k]` is what the call in iteration k returned.
  */
module PipelineLoop {
  import opened Options
  import opened Descriptors

  /** A two-element array of the source, as filled by pipe(2). */
  datatype Pair = Pair(r: int, w: int)

  const NO_PIPE: Pair := Pair(-1, -1)

  /** What the child of one command has when it calls handleCommandList. */
  datatype Child = Child(fds: Table, input: int, output: int)

  /** The job handler at the loop head. */
  datatype Handler = Handler(table: Table, incoming: Pair, outgoing: Pair, children: seq<Child>)

  /** Two numbers, read end first. */
  type Numbers = (nat, nat)

  function Start(t: Table): Handler {
    Handler(t, NO_PIPE, NO_PIPE, [])
  }

  function OpenPipe(s: Handler, k: nat, fd: Numbers): Handler {
    s.(table := s.table[fd.0 := PipeRead(k)][fd.1 := PipeWrite(k)], outgoing := Pair(fd.0, fd.1))
  }

  /** Iteration k of n up to the fork: every command but the last gets an outgoing pipe. */
  function BeforeFork(n: nat, fds: seq<Numbers>, s: Handler, k: nat): Handler
    requires n <= |fds| + 1
  {
    if k + 1 < n then OpenPipe(s, k, fds[k]) else s.(outgoing := NO_PIPE)
  }

  function ForkChild(s: Handler): Child {
    Child(Close(Close(s.table, s.incoming.w), s.outgoing.r), s.incoming.r, s.outgoing.w)
  }

  /** The parent's part of an iteration. */
  function AfterFork(s: Handler): Handler {
    Handler(Close(Close(s.table, s.incoming.r), s.outgoing.w),
            s.outgoing, s.incoming, s.children + [ForkChild(s)])
  }

  /** The handler at the loop head after k iterations. */
  function Run(n: nat, fds: seq<Numbers>, t: Table, k: nat): Handler
    requires n <= |fds| + 1
  {
    if k == 0 then Start(t)
    else AfterFork(BeforeFork(n, fds, Run(n, fds, t, k - 1), k - 1))
  }

  /** pipe(2) returns two different free numbers. */
  predicate Allocates(t: Table, fd: Numbers) {
    fd.0 !in t && fd.1 !in t && fd.0 != fd.1
  }

  /** The calls of pipe(2) in the loop return free numbers. */
  predicate ValidNumbers(n: nat, fds: seq<Numbers>, t: Table) {
    n <= |fds| + 1 && forall k :: 0 <= k < n - 1 ==> ValidAt(n, fds, t, k)
  }

  predicate ValidAt(n: nat, fds: seq<Numbers>, t: Table, k: nat)
    requires k + 1 < n <= |fds| + 1
  {
    Allocates(Run(n, fds, t, k).table, fds[k])
  }

  /** Whether pipe(2) returned for the write end of command k the number that it had returned for
      the previous write end, which the parent has closed and child k closes again. */
  predicate ReusesStale(n: nat, fds: seq<Numbers>, k: nat)
    requires n <= |fds| + 1
  {
    0 < k < n - 1 && fds[k].1 == fds[k - 1].1
  }

  /** The swap: the incoming pair is what pipe(2) returned one iteration earlier. */
  lemma IncomingIsPrevious(n: nat, fds: seq<Numbers>, t: Table, k: nat)
    requires k < n <= |fds| + 1
    ensures Run(n, fds, t, k).incoming == if k == 0 then NO_PIPE else Pair(fds[k - 1].0, fds[k - 1].1)
    ensures k + 1 < n ==> (ReusesStale(n, fds, k) <==> fds[k].1 == Run(n, fds, t, k).incoming.w)
  {
  }

  // ----- what the handler holds

  /** At each loop head the only descriptor beyond the inherited ones is the read end of the
      previous pipe; there is none for the first command and none after the last. No number that
      the handler remembers is an inherited one. */
  ghost predicate HoldsOneReadEnd(n: nat, t: Table, k: nat, s: Handler) {
    && (k == 0 || k == n ==> s.table == t && s.incoming == NO_PIPE)
    && (0 < k < n ==>
        && IsForeign(t, s.incoming) && s.incoming.w !in s.table
        && s.table == t[s.incoming.r := PipeRead(k - 1)])
    && (s.outgoing == NO_PIPE || IsForeign(t, s.outgoing))
    && |s.children| == k
  }

  /** Two numbers of which neither is inherited. */
  predicate IsForeign(t: Table, p: Pair) {
    p.r >= 0 && p.w >= 0 && p.r !in t && p.w !in t
  }

  lemma IterationKeepsOneReadEnd(n: nat, fds: seq<Numbers>, t: Table, k: nat, s: Handler)
    requires k < n <= |fds| + 1 && HoldsOneReadEnd(n, t, k, s)
    requires k + 1 < n ==> Allocates(s.table, fds[k])
    ensures HoldsOneReadEnd(n, t, k + 1, AfterFork(BeforeFork(n, fds, s, k)))
  {
    var u := AfterFork(BeforeFork(n, fds, s, k));
    assert u.table == if k + 1 == n then t else t[fds[k].0 := PipeRead(k)];
  }

  lemma {:induction false} HandlerHoldsOneReadEnd(n: nat, fds: seq<Numbers>, t: Table, k: nat)
    requires ValidNumbers(n, fds, t) && k <= n
    ensures HoldsOneReadEnd(n, t, k, Run(n, fds, t, k))
  {
    if k > 0 {
      HandlerHoldsOneReadEnd(n, fds, t, k - 1);
      assert k < n ==> ValidAt(n, fds, t, k - 1);
      IterationKeepsOneReadEnd(n, fds, t, k - 1, Run(n, fds, t, k - 1));
    }
  }

  // ----- what the commands get

  /** Both dup2 calls of handleCommandList. */
  function Connect(c: Child): Option<Table> {
    var t0 := if c.input >= 0 then Dup2(c.fds, c.input, 0) else Some(c.fds);
    if t0.None? then None
    else if c.output >= 0 then Dup2(t0.value, c.output, 1) else t0
  }

  /** The table of child k, exactly: what the handler held, its outgoing write end, and nothing
      else. The write end is missing when its number is the stale one. */
  ghost predicate HasExactTable(n: nat, fds: seq<Numbers>, t: Table, k: nat, s: Handler, c: Child)
    requires n <= |fds| + 1
  {
    && c.input == s.incoming.r && (k == 0 <==> c.input < 0)
    && (k == 0 ==> s.table == t)
    && (k > 0 ==> c.input !in t && s.table == t[c.input := PipeRead(k - 1)])
    && (k + 1 == n ==> c.output == -1)
    && (k + 1 < n ==> c.output == fds[k].1 && fds[k].1 !in s.table)
    && c.fds == if k + 1 < n && !ReusesStale(n, fds, k) then s.table[fds[k].1 := PipeWrite(k)] else s.table
  }

  lemma IterationForksExactTable(n: nat, fds: seq<Numbers>, t: Table, k: nat, s: Handler)
    requires k < n <= |fds| + 1 && HoldsOneReadEnd(n, t, k, s)
    requires k + 1 < n ==> Allocates(s.table, fds[k])
    requires s.incoming == if k == 0 then NO_PIPE else Pair(fds[k - 1].0, fds[k - 1].1)
    ensures HasExactTable(n, fds, t, k, s, ForkChild(BeforeFork(n, fds, s, k)))
  {
  }

  lemma ChildTable(n: nat, fds: seq<Numbers>, t: Table, k: nat)
    requires ValidNumbers(n, fds, t) && k < n
    ensures |Run(n, fds, t, n).children| == n
    ensures HasExactTable(n, fds, t, k, Run(n, fds, t, k), Run(n, fds, t, n).children[k])
  {
    HandlerHoldsOneReadEnd(n, fds, t, k);
    assert k + 1 < n ==> ValidAt(n, fds, t, k);
    IncomingIsPrevious(n, fds, t, k);
    IterationForksExactTable(n, fds, t, k, Run(n, fds, t, k));
    ChildOfIteration(n, fds, t, n, k);
  }

  lemma {:induction false} CountChildren(n: nat, fds: seq<Numbers>, t: Table, m: nat)
    requires n <= |fds| + 1
    ensures |Run(n, fds, t, m).children| == m
  {
    if m > 0 {
      CountChildren(n, fds, t, m - 1);
    }
  }

  /** The children of a longer run are those of its iterations. */
  lemma {:induction false} ChildOfIteration(n: nat, fds: seq<Numbers>, t: Table, m: nat, k: nat)
    requires k < m && n <= |fds| + 1
    ensures |Run(n, fds, t, m).children| == m
    ensures Run(n, fds, t, m).children[k] == ForkChild(BeforeFork(n, fds, Run(n, fds, t, k), k))
    decreases m
  {
    CountChildren(n, fds, t, m - 1);
    if k < m - 1 {
      ChildOfIteration(n, fds, t, m - 1, k);
    }
  }

  function Lookup(t: Table, fd: nat): Option<Object> {
    if fd in t then Some(t[fd]) else None
  }

  /** Standard input and output are connected as command k of n expects them: to its neighbours,
      and at the ends of the pipeline to what was inherited, which may be nothing. */
  predicate IsConnected(n: nat, t: Table, k: nat, r: Option<Table>) {
    && r.Some?
    && Lookup(r.value, 0) == (if k == 0 then Lookup(t, 0) else Some(PipeRead(k - 1)))
    && Lookup(r.value, 1) == (if k + 1 == n then Lookup(t, 1) else Some(PipeWrite(k)))
  }

  /** The numbers that pipe(2) returned do not get into each other's way in child k: the write end
      is not the stale number and not 0, which dup2 overwrites, and the last command has not
      inherited its read end as 1. */
  predicate WellNumbered(n: nat, fds: seq<Numbers>, k: nat)
    requires k < n <= |fds| + 1
  {
    && !ReusesStale(n, fds, k)
    && (k + 1 < n ==> fds[k].1 != 0)
    && (0 < k && k + 1 == n ==> fds[k - 1].0 != 1)
  }

  /** The exact condition, for every inherited table and every behaviour of pipe(2): command k reads
      from the previous command and writes to the next, the ends of the pipeline being inherited,
      if and only if its numbers are in order; and its dup2 fails if and only if its write end is
      the stale number and not 0. */
  lemma CommandIsConnected(n: nat, fds: seq<Numbers>, t: Table, k: nat)
    requires ValidNumbers(n, fds, t) && k < n
    ensures |Run(n, fds, t, n).children| == n
    ensures var r := Connect(Run(n, fds, t, n).children[k]);
            && (IsConnected(n, t, k, r) <==> WellNumbered(n, fds, k))
            && (r.None? <==> ReusesStale(n, fds, k) && fds[k].1 != 0)
  {
    ChildTable(n, fds, t, k);
    IncomingIsPrevious(n, fds, t, k);
  }

  /** With 0 and 1 open at the start, pipe(2) returns neither, and only the stale number matters. */
  lemma StandardDescriptorsAreSafe(n: nat, fds: seq<Numbers>, t: Table, k: nat)
    requires ValidNumbers(n, fds, t) && k < n && 0 in t && 1 in t
    ensures WellNumbered(n, fds, k) <==> !ReusesStale(n, fds, k)
    ensures ReusesStale(n, fds, k) ==> fds[k].1 != 0
  {
    if k + 1 < n {
      HandlerHoldsOneReadEnd(n, fds, t, k);
      assert ValidAt(n, fds, t, k);
    }
    if k > 0 {
      HandlerHoldsOneReadEnd(n, fds, t, k - 1);
      assert ValidAt(n, fds, t, k - 1);
    }
  }

  /** If pipe(2) never returns the stale number, every command of a pipeline of any length reads
      from the previous command and writes to the next. */
  lemma PipelineIsConnected(n: nat, fds: seq<Numbers>, t: Table)
    requires ValidNumbers(n, fds, t)
    ensures |Run(n, fds, t, n).children| == n
    ensures (forall k :: 0 <= k < n ==> IsConnected(n, t, k, Connect(Run(n, fds, t, n).children[k])))
            <==> forall k :: 0 <= k < n ==> WellNumbered(n, fds, k)
    ensures 0 in t && 1 in t ==>
              ((forall k :: 0 <= k < n ==> WellNumbered(n, fds, k))
               <==> forall k :: 0 <= k < n - 1 ==> !ReusesStale(n, fds, k))
  {
    CountChildren(n, fds, t, n);
    forall k | 0 <= k < n
      ensures IsConnected(n, t, k, Connect(Run(n, fds, t, n).children[k])) <==> WellNumbered(n, fds, k)
      ensures 0 in t && 1 in t ==> (WellNumbered(n, fds, k) <==> !ReusesStale(n, fds, k))
    {
      CommandIsConnected(n, fds, t, k);
      if 0 in t && 1 in t {
        StandardDescriptorsAreSafe(n, fds, t, k);
      }
    }
  }

  /** The write end of pipe i is held by command i at most, its read end by command i + 1 only,
      and neither by the handler, so a reader sees end-of-file once its upstream command is gone. */
  lemma PipeEndsAreHeldOnce(n: nat, fds: seq<Numbers>, t: Table, k: nat, i: nat)
    requires ValidNumbers(n, fds, t) && k < n
    requires PipeWrite(i) !in t.Values && PipeRead(i) !in t.Values
    ensures |Run(n, fds, t, n).children| == n
    ensures PipeWrite(i) in Run(n, fds, t, n).children[k].fds.Values
            <==> i == k && k + 1 < n && !ReusesStale(n, fds, k)
    ensures PipeRead(i) in Run(n, fds, t, n).children[k].fds.Values <==> i + 1 == k
    ensures Run(n, fds, t, n).table == t
  {
    ChildTable(n, fds, t, k);
    HandlerHoldsOneReadEnd(n, fds, t, n);
    var c := Run(n, fds, t, n).children[k];
    if k > 0 {
      assert c.input in c.fds && c.fds[c.input] == PipeRead(k - 1);
    }
    if k + 1 < n && !ReusesStale(n, fds, k) {
      assert c.output in c.fds && c.fds[c.output] == PipeWrite(k);
    }
  }

  // ----- failure returns

  /** closePipe of the source: skipped when either number is -1. */
  function ClosePipe(t: Table, p: Pair): Table {
    if p.r != -1 && p.w != -1 then Close(Close(t, p.r), p.w) else t
  }

  function CloseBoth(s: Handler): Table {
    ClosePipe(ClosePipe(s.table, s.incoming), s.outgoing)
  }

  /** On both failure returns the stale numbers are closed as well, and still the handler is left
      with exactly what it inherited. */
  lemma FailureReturnsLeakNothing(n: nat, fds: seq<Numbers>, t: Table, k: nat)
    requires ValidNumbers(n, fds, t) && k < n
    ensures CloseBoth(Run(n, fds, t, k)) == t
    ensures CloseBoth(BeforeFork(n, fds, Run(n, fds, t, k), k)) == t
  {
    HandlerHoldsOneReadEnd(n, fds, t, k);
    assert k + 1 < n ==> ValidAt(n, fds, t, k);
    IterationFailureLeaksNothing(n, fds, t, k, Run(n, fds, t, k));
  }

  lemma IterationFailureLeaksNothing(n: nat, fds: seq<Numbers>, t: Table, k: nat, s: Handler)
    requires k < n <= |fds| + 1 && HoldsOneReadEnd(n, t, k, s)
    requires k + 1 < n ==> Allocates(s.table, fds[k])
    ensures CloseBoth(s) == t
    ensures CloseBoth(BeforeFork(n, fds, s, k)) == t
  {
  }

  // ----- with the lowest-free rule

  /** The lowest free number, and then the lowest free number once that one is taken. */
  ghost predicate IsLowestPair(k: nat, t: Table, fd: Numbers) {
    IsLowestFree(t, fd.0) && IsLowestFree(t[fd.0 := PipeRead(k)], fd.1)
  }

  ghost predicate LowestNumbers(n: nat, fds: seq<Numbers>, t: Table) {
    n <= |fds| + 1 && forall k :: 0 <= k < n - 1 ==> LowestAt(n, fds, t, k)
  }

  ghost predicate LowestAt(n: nat, fds: seq<Numbers>, t: Table, k: nat)
    requires k + 1 < n <= |fds| + 1
  {
    IsLowestPair(k, Run(n, fds, t, k).table, fds[k])
  }

  lemma LowestIsValid(n: nat, fds: seq<Numbers>, t: Table)
    requires LowestNumbers(n, fds, t)
    ensures ValidNumbers(n, fds, t)
  {
    forall k | 0 <= k < n - 1
      ensures ValidAt(n, fds, t, k)
    {
      assert LowestAt(n, fds, t, k);
    }
  }

  /** The three lowest free numbers of a table. */
  ghost predicate ThreeLowest(t: Table, f: (nat, nat, nat)) {
    && f.0 < f.1 < f.2
    && f.0 !in t && f.1 !in t && f.2 !in t
    && forall x: nat :: x < f.2 && x != f.0 && x != f.1 ==> x in t
  }

  lemma ThreeLowestExist(t: Table) returns (f: (nat, nat, nat))
    ensures ThreeLowest(t, f)
  {
    var a := LowestFrom(t, 0);
    var b := LowestFrom(t, a + 1);
    f := (a, b, LowestFrom(t, b + 1));
  }

  /** What pipe(2) returns when at most one of the two lowest numbers is taken. */
  lemma LowestPair(t: Table, f: (nat, nat, nat), k: nat, u: Table, fd: Numbers)
    requires ThreeLowest(t, f) && IsLowestPair(k, u, fd)
    requires u == t || u.Keys == t.Keys + {f.0} || u.Keys == t.Keys + {f.1}
    ensures fd == if f.0 in u then (f.1, f.2) else if f.1 in u then (f.0, f.2) else (f.0, f.1)
  {
    var r := if f.0 in u then f.1 else f.0;
    LowestFreeIsUnique(u, fd.0, r);
    LowestFreeIsUnique(u[r := PipeRead(k)], fd.1, if f.0 in u || f.1 in u then f.2 else f.1);
  }

  /** The numbers that pipe(2) returns: from the second call on, the same write number. */
  function CycledNumbers(f: (nat, nat, nat), k: nat): Numbers {
    if k == 0 then (f.0, f.1)
    else if CycledNumbers(f, k - 1).0 == f.0 then (f.1, f.2)
    else (f.0, f.2)
  }

  lemma {:induction false} LowestNumbersCycle(n: nat, fds: seq<Numbers>, t: Table, f: (nat, nat, nat), k: nat)
    requires LowestNumbers(n, fds, t) && ThreeLowest(t, f) && k + 1 < n
    ensures fds[k] == CycledNumbers(f, k)
    decreases k
  {
    LowestIsValid(n, fds, t);
    HandlerHoldsOneReadEnd(n, fds, t, k);
    var u := Run(n, fds, t, k).table;
    if k > 0 {
      LowestNumbersCycle(n, fds, t, f, k - 1);
      assert u.Keys == t.Keys + {fds[k - 1].0};
    }
    assert LowestAt(n, fds, t, k);
    LowestPair(t, f, k, u, fds[k]);
  }

  /** Under the lowest-free rule, and whatever is open at the start, command k closes its own
      write end exactly when it is the third or a later command and not the last. No write end
      ever gets the number 0. */
  lemma LowestFreeReuse(n: nat, fds: seq<Numbers>, t: Table, k: nat)
    requires LowestNumbers(n, fds, t) && k < n
    ensures ReusesStale(n, fds, k) <==> 2 <= k < n - 1
    ensures k + 1 < n ==> fds[k].1 != 0
  {
    if k + 1 < n {
      var f := ThreeLowestExist(t);
      LowestNumbersCycle(n, fds, t, f, k);
      if k > 0 {
        LowestNumbersCycle(n, fds, t, f, k - 1);
      }
    }
  }

  /** So commands 2 to n - 2 fail at dup2 and the others do not; all those others are connected,
      the last one provided that its read end was not inherited as 1; and exactly the pipelines of
      at most three commands get past dup2 throughout. */
  lemma LowestFreePipelines(n: nat, fds: seq<Numbers>, t: Table)
    requires LowestNumbers(n, fds, t)
    ensures |Run(n, fds, t, n).children| == n
    ensures forall k :: 0 <= k < n ==> FaresAs(n, fds, t, k, Connect(Run(n, fds, t, n).children[k]))
    ensures (forall k :: 0 <= k < n ==> Connect(Run(n, fds, t, n).children[k]).Some?) <==> n <= 3
  {
    CountChildren(n, fds, t, n);
    forall k | 0 <= k < n
      ensures FaresAs(n, fds, t, k, Connect(Run(n, fds, t, n).children[k]))
    {
      LowestFreeCommand(n, fds, t, k);
    }
    if n > 3 {
      assert FaresAs(n, fds, t, 2, Connect(Run(n, fds, t, n).children[2]));
    } else {
      assert forall k :: 0 <= k < n ==> FaresAs(n, fds, t, k, Connect(Run(n, fds, t, n).children[k]));
    }
  }

  /** What becomes of command k under the lowest-free rule. */
  predicate FaresAs(n: nat, fds: seq<Numbers>, t: Table, k: nat, r: Option<Table>)
    requires k < n <= |fds| + 1
  {
    && (r.None? <==> 2 <= k < n - 1)
    && (IsConnected(n, t, k, r) <==> !(2 <= k < n - 1) && (0 < k && k + 1 == n ==> fds[k - 1].0 != 1))
    && (1 in t && r.Some? ==> IsConnected(n, t, k, r))
  }

  lemma LowestFreeCommand(n: nat, fds: seq<Numbers>, t: Table, k: nat)
    requires LowestNumbers(n, fds, t) && k < n
    ensures |Run(n, fds, t, n).children| == n
    ensures FaresAs(n, fds, t, k, Connect(Run(n, fds, t, n).children[k]))
  {
    LowestIsValid(n, fds, t);
    CommandIsConnected(n, fds, t, k);
    LowestFreeReuse(n, fds, t, k);
    if k > 0 && 1 in t {
      HandlerHoldsOneReadEnd(n, fds, t, k - 1);
      assert ValidAt(n, fds, t, k - 1);
    }
  }

  // ----- such runs exist

  /** The loop has only seen the numbers of its own iterations. */
  lemma {:induction false} RunLooksBackOnly(n: nat, fds: seq<Numbers>, other: seq<Numbers>, t: Table, k: nat)
    requires n <= |fds| + 1 && n <= |other| + 1 && k <= |fds| && k <= |other| && fds[..k] == other[..k]
    ensures Run(n, fds, t, k) == Run(n, other, t, k)
  {
    if k > 0 {
      assert fds[..k - 1] == fds[..k][..k - 1] == other[..k][..k - 1] == other[..k - 1];
      assert fds[k - 1] == fds[..k][k - 1] == other[..k][k - 1] == other[k - 1];
      RunLooksBackOnly(n, fds, other, t, k - 1);
    }
  }

  /** The lowest-free rule can be followed, for any number of commands and from any table. */
  lemma LowestNumbersExist(n: nat, t: Table) returns (fds: seq<Numbers>)
    ensures LowestNumbers(n, fds, t)
  {
    fds := LowestNumbersUpTo(n, t, n);
  }

  lemma {:induction false} LowestNumbersUpTo(n: nat, t: Table, m: nat) returns (fds: seq<Numbers>)
    requires m <= n
    ensures |fds| == n && forall k :: 0 <= k < m && k + 1 < n ==> LowestAt(n, fds, t, k)
  {
    if m == 0 {
      fds := seq(n, _ => (0, 0));
    } else {
      var earlier := LowestNumbersUpTo(n, t, m - 1);
      var fd := LowestPairExists(m - 1, Run(n, earlier, t, m - 1).table);
      fds := earlier[m - 1 := fd];
      forall k | 0 <= k < m && k + 1 < n
        ensures LowestAt(n, fds, t, k)
      {
        assert fds[..k] == earlier[..k];
        RunLooksBackOnly(n, fds, earlier, t, k);
        assert k < m - 1 ==> LowestAt(n, earlier, t, k);
      }
    }
  }

  lemma LowestPairExists(k: nat, t: Table) returns (fd: Numbers)
    ensures IsLowestPair(k, t, fd)
  {
    var r := LowestFrom(t, 0);
    fd := (r, LowestFrom(t[r := PipeRead(k)], 0));
  }

  /** A pipeline that fails: four commands, with the numbers a POSIX system returns when 0, 1 and 2
      are open. The third command has its write end at 5, the number of the second one's, closes it
      and finds it closed at dup2. */
  lemma FourCommandsFail(t: Table)
    requires t.Keys == {0, 1, 2}
    ensures var fds := [(3, 4), (4, 5), (3, 5)];
            && LowestNumbers(4, fds, t) && ReusesStale(4, fds, 2)
            && |Run(4, fds, t, 4).children| == 4 && Connect(Run(4, fds, t, 4).children[2]).None?
  {
    var fds := LowestNumbersExist(4, t);
    var f := (3, 4, 5);
    assert ThreeLowest(t, f) by {
      assert 0 in t.Keys && 1 in t.Keys && 2 in t.Keys;
    }
    forall k | 0 <= k < 3
      ensures fds[k] == CycledNumbers(f, k)
    {
      LowestNumbersCycle(4, fds, t, f, k);
    }
    assert CycledNumbers(f, 0) == (3, 4) && CycledNumbers(f, 1) == (4, 5) && CycledNumbers(f, 2) == (3, 5);
    var shown := [(3, 4), (4, 5), (3, 5)];
    forall k | 0 <= k < 3
      ensures LowestAt(4, shown, t, k)
    {
      assert LowestAt(4, fds, t, k);
      assert fds[..k] == shown[..k];
      RunLooksBackOnly(4, fds, shown, t, k);
    }
    LowestFreeCommand(4, shown, t, 2);
  }
}
