/** A child of the job handler: it connects its pipes, applies the redirections of its command in
    order, collects the arguments and executes (Lab2/iwish/src/interpreter.c). */
module CommandProcess {
  import opened Options
  import opened Descriptors
  import opened Ast
  import opened PipelineLoop

  /** What reaches execvp: the arguments, in which None is the NULL pointer, and what standard input
      and output refer to, if they are open. */
  datatype Outcome =
    | Exec(argv: seq<Option<string>>, input: Option<Object>, output: Option<Object>)
    | Failed

  /** The files that cannot be opened for reading (true) or created (false). */
  type Unavailable = set<(bool, string)>

  function WordsOf(c: Command): seq<Option<string>> {
    if c == [] then []
    else (if c[0].Word? then [Some(c[0].word)] else []) + WordsOf(c[1..])
  }

  /** The file of the last redirection in the given direction. */
  function LastRedirection(c: Command, input: bool): Option<string> {
    if c == [] then None
    else
      var e := c[|c| - 1];
      if e.Redirect? && e.input == input then Some(e.word) else LastRedirection(c[..|c| - 1], input)
  }

  /** What becomes of standard input or output: the last redirection in that direction wins;
      without one, an open descriptor stays as it was, and a closed one stays closed unless a file
      of the command happens to be opened there. */
  predicate Settles(c: Command, input: bool, before: Option<Object>, after: Option<Object>) {
    match LastRedirection(c, input)
    case Some(w) => after == Some(File(w, input))
    case None =>
      if before.Some? then after == before
      else after.None? || exists i :: 0 <= i < |c| && c[i].Redirect? && after == Some(File(c[i].word, c[i].input))
  }

  /** It is the file of a redirection in that direction behind which there is none, if there is one. */
  lemma {:induction false} LastRedirectionIsLast(c: Command, input: bool) returns (i: nat)
    ensures LastRedirection(c, input).None? <==> forall j :: 0 <= j < |c| ==> !(c[j].Redirect? && c[j].input == input)
    ensures LastRedirection(c, input).Some? ==>
              && i < |c| && c[i] == Redirect(input, LastRedirection(c, input).value)
              && forall j :: i < j < |c| ==> !(c[j].Redirect? && c[j].input == input)
  {
    i := 0;
    if c != [] {
      var e := c[|c| - 1];
      if e.Redirect? && e.input == input {
        i := |c| - 1;
      } else {
        i := LastRedirectionIsLast(c[..|c| - 1], input);
      }
    }
  }

  lemma Associative(a: seq<Option<string>>, b: seq<Option<string>>, c: seq<Option<string>>)
    ensures a + b + c == a + (b + c)
  {
  }

  /** The arguments are those of the elements in order: one for a word, none for a redirection. */
  lemma {:induction false} WordsInOrder(c: Command, d: Command)
    ensures WordsOf(c + d) == WordsOf(c) + WordsOf(d)
  {
    if c == [] {
      assert c + d == d;
    } else {
      WordsInOrder(c[1..], d);
      assert (c + d)[0] == c[0] && (c + d)[1..] == c[1..] + d;
      Associative(if c[0].Word? then [Some(c[0].word)] else [], WordsOf(c[1..]), WordsOf(d));
    }
  }

  lemma WordsOfOne(e: Element)
    ensures WordsOf([e]) == if e.Word? then [Some(e.word)] else []
  {
    assert [e][1..] == [];
  }

  predicate AllAvailable(c: Command, missing: Unavailable) {
    forall i :: 0 <= i < |c| && c[i].Redirect? ==> (c[i].input, c[i].word) !in missing
  }

  /** The last redirection of a list that is read from the front. */
  lemma {:induction false} LastRedirectionFromFront(e: Element, rest: Command, input: bool)
    ensures LastRedirection([e] + rest, input)
         == if LastRedirection(rest, input).Some? then LastRedirection(rest, input)
            else if e.Redirect? && e.input == input then Some(e.word) else None
    decreases |rest|
  {
    var c := [e] + rest;
    if rest == [] {
      assert c == [e] && c[..0] == [];
    } else {
      LastRedirectionFromFront(e, rest[..|rest| - 1], input);
      assert c[..|c| - 1] == [e] + rest[..|rest| - 1];
      assert c[|c| - 1] == rest[|rest| - 1];
    }
  }

  /** One element first, and then the rest. */
  lemma SettlesFromFront(e: Element, rest: Command, input: bool,
                         before: Option<Object>, between: Option<Object>, after: Option<Object>)
    requires Settles([e], input, before, between) && Settles(rest, input, between, after)
    ensures Settles([e] + rest, input, before, after)
  {
    LastRedirectionFromFront(e, rest, input);
    LastRedirectionFromFront(e, [], input);
    assert [e] + [] == [e];
    var c := [e] + rest;
    assert c[0] == e && forall i :: 0 <= i < |rest| ==> c[i + 1] == rest[i];
    if LastRedirection(c, input).None? && before.None? && after.Some? {
      if between.Some? {
        assert c[0].Redirect? && after == Some(File(c[0].word, c[0].input));
      } else {
        var i :| 0 <= i < |rest| && rest[i].Redirect? && after == Some(File(rest[i].word, rest[i].input));
        assert c[i + 1].Redirect? && after == Some(File(c[i + 1].word, c[i + 1].input));
      }
    }
  }

  /** What a child with these descriptors may do with this command, when the argument array can be
      grown to hold `room` pointers: it fails at a dup2, at a file or at an argument, or executes.
      The result of appending the final NULL is not looked at. */
  predicate IsOutcome(child: Child, c: Command, missing: Unavailable, room: nat, o: Outcome) {
    var t := Connect(child);
    if t.None? || !AllAvailable(c, missing) || |WordsOf(c)| > room then o == Failed
    else
      && o.Exec?
      && o.argv == WordsOf(c) + (if |WordsOf(c)| < room then [None] else [])
      && Settles(c, true, Lookup(t.value, 0), o.input)
      && Settles(c, false, Lookup(t.value, 1), o.output)
  }

  class CommandProcess {
    var table: Table
    var argv: seq<Option<string>>
    const missing: Unavailable
    const room: nat // how many pointers the argument array can be grown to hold

    constructor (table: Table, missing: Unavailable, room: nat)
      ensures this.table == table && argv == [] && this.missing == missing && this.room == room
    {
      this.table, argv, this.missing, this.room := table, [], missing, room;
    }

    /** Opens the file at some free number, which stays open, and duplicates it. */
    method HandleRedirection(input: bool, word: string) returns (ok: bool)
      modifies this`table
      ensures ok == ((input, word) !in missing)
      ensures !ok ==> table == old(table)
      ensures ok ==> Lookup(table, if input then 0 else 1) == Some(File(word, input))
      ensures ok && Lookup(old(table), if input then 1 else 0).Some? ==>
                Lookup(table, if input then 1 else 0) == Lookup(old(table), if input then 1 else 0)
      ensures ok ==> Settles([Redirect(input, word)], true, Lookup(old(table), 0), Lookup(table, 0))
      ensures ok ==> Settles([Redirect(input, word)], false, Lookup(old(table), 1), Lookup(table, 1))
    {
      if (input, word) in missing {
        return false;
      }
      assert LowestFrom(table, 0) !in table;
      var file: nat :| file !in table;
      table := table[file := File(word, input)];
      var duplicated := Dup2(table, file, if input then 0 else 1);
      if duplicated.None? {
        return false;
      }
      table := duplicated.value;
      ghost var c := [Redirect(input, word)];
      LastRedirectionFromFront(c[0], [], true);
      LastRedirectionFromFront(c[0], [], false);
      assert [c[0]] + [] == c;
      assert c[0].Redirect? && Some(File(word, input)) == Some(File(c[0].word, c[0].input));
      return true;
    }

    /** Fails when the array is full and cannot grow. */
    method HandleCommandlineArgument(arg: Option<string>) returns (ok: bool)
      modifies this`argv
      ensures ok == (|old(argv)| < room)
      ensures argv == if ok then old(argv) + [arg] else old(argv)
    {
      if |argv| >= room {
        return false;
      }
      argv := argv + [arg];
      return true;
    }

    method HandleElement(e: Element) returns (ok: bool)
      modifies this
      ensures ok == (AllAvailable([e], missing) && (e.Word? ==> |old(argv)| < room))
      ensures ok ==> argv == old(argv) + WordsOf([e])
      ensures ok ==> Settles([e], true, Lookup(old(table), 0), Lookup(table, 0))
      ensures ok ==> Settles([e], false, Lookup(old(table), 1), Lookup(table, 1))
    {
      if e.Redirect? {
        ok := HandleRedirection(e.input, e.word);
        assert [e][0].Redirect?;
      } else {
        ok := HandleCommandlineArgument(Some(e.word));
        LastRedirectionFromFront(e, [], true);
        LastRedirectionFromFront(e, [], false);
        assert [e] + [] == [e];
      }
    }

    method HandleCommandElementList(c: Command) returns (ok: bool)
      requires |argv| <= room
      modifies this
      ensures ok == (AllAvailable(c, missing) && |old(argv)| + |WordsOf(c)| <= room)
      ensures ok ==> argv == old(argv) + WordsOf(c)
      ensures ok ==> Settles(c, true, Lookup(old(table), 0), Lookup(table, 0))
      ensures ok ==> Settles(c, false, Lookup(old(table), 1), Lookup(table, 1))
      decreases |c|
    {
      if c == [] {
        return true;
      }
      AvailableFromFront(c, missing);
      WordsFromFront(c);
      ok := HandleElement(c[0]);
      if !ok {
        return false;
      }
      ghost var between := table;
      ok := HandleCommandElementList(c[1..]);
      if ok {
        SettlesFromFront(c[0], c[1..], true, Lookup(old(table), 0), Lookup(between, 0), Lookup(table, 0));
        SettlesFromFront(c[0], c[1..], false, Lookup(old(table), 1), Lookup(between, 1), Lookup(table, 1));
        assert c == [c[0]] + c[1..];
      }
    }

    /** The two dup2 calls: each end of a pipe that there is becomes standard input or output. The
        second call finds the number 0 open if the first one was made. */
    method ConnectPipes(input: int, output: int) returns (ok: bool)
      modifies this`table
      ensures ok <==> (input >= 0 ==> input in old(table)) &&
                      (output >= 0 ==> output in old(table) || (output == 0 && input >= 0))
      ensures ok ==> Connect(Child(old(table), input, output)) == Some(table)
      ensures !ok ==> Connect(Child(old(table), input, output)) == None
      ensures ok ==> Lookup(table, 0) == Lookup(old(table), if input >= 0 then input else 0)
      ensures ok && !(output == 0 && input >= 0) ==>
                Lookup(table, 1) == Lookup(old(table), if output >= 0 then output else 1)
    {
      if input >= 0 {
        var t := Dup2(table, input, 0);
        if t.None? {
          return false;
        }
        table := t.value;
      }
      if output >= 0 {
        var t := Dup2(table, output, 1);
        if t.None? {
          return false;
        }
        table := t.value;
      }
      return true;
    }

    /** Connects the pipes, handles the elements and executes. */
    method HandleCommandList(c: Command, input: int, output: int) returns (o: Outcome)
      requires argv == []
      modifies this
      ensures IsOutcome(Child(old(table), input, output), c, missing, room, o)
      ensures o == Failed <==>
        || (input >= 0 && input !in old(table))
        || (output >= 0 && output !in old(table) && !(output == 0 && input >= 0))
        || !AllAvailable(c, missing) || |WordsOf(c)| > room
      ensures o.Exec? ==> o.argv == WordsOf(c) + if |WordsOf(c)| < room then [None] else []
      ensures o.Exec? && LastRedirection(c, true).Some? ==>
                o.input == Some(File(LastRedirection(c, true).value, true))
      ensures o.Exec? && LastRedirection(c, false).Some? ==>
                o.output == Some(File(LastRedirection(c, false).value, false))
      ensures o.Exec? && LastRedirection(c, true).None? && input >= 0 ==> o.input == Lookup(old(table), input)
      ensures o.Exec? && LastRedirection(c, true).None? && input < 0 && 0 in old(table) ==>
                o.input == Lookup(old(table), 0)
      ensures o.Exec? && LastRedirection(c, false).None? && output >= 0 && !(output == 0 && input >= 0) ==>
                o.output == Lookup(old(table), output)
      ensures o.Exec? && LastRedirection(c, false).None? && output < 0 && 1 in old(table) ==>
                o.output == Lookup(old(table), 1)
    {
      var ok := ConnectPipes(input, output);
      if !ok {
        return Failed;
      }
      ok := HandleCommandElementList(c);
      if !ok {
        return Failed;
      }
      var _ := HandleCommandlineArgument(None);
      return Exec(argv, Lookup(table, 0), Lookup(table, 1));
    }
  }

  lemma WordsFromFront(c: Command)
    requires c != []
    ensures WordsOf(c) == WordsOf([c[0]]) + WordsOf(c[1..])
  {
    assert [c[0]][1..] == [];
  }

  lemma AvailableFromFront(c: Command, missing: Unavailable)
    requires c != []
    ensures AllAvailable(c, missing) <==> AllAvailable([c[0]], missing) && AllAvailable(c[1..], missing)
  {
    var first, rest := [c[0]], c[1..];
    assert first[0] == c[0];
    assert forall i :: 0 <= i < |rest| ==> rest[i] == c[i + 1];
    if AllAvailable(first, missing) && AllAvailable(rest, missing) {
      forall i | 0 <= i < |c| && c[i].Redirect?
        ensures (c[i].input, c[i].word) !in missing
      {
        assert i > 0 ==> c[i] == rest[i - 1];
      }
    }
  }

  /** The whole pipeline of an accepted list, for every inherited table, every behaviour of pipe(2),
      any missing files and any room for arguments. A command reaches execvp if and only if its
      dup2 calls, its files and its arguments do not fail. It then gets its words, argv[0] is not
      NULL, and NULL follows if there is room. If its numbers are in order, its input and output
      are its last redirection, or else the neighbouring command, or else, at the ends of the
      pipeline, what the shell had. */
  lemma CommandReachesExec(l: SimpleList, fds: seq<Numbers>, t: Table, k: nat, missing: Unavailable, room: nat)
    requires WellFormed(l) && ValidNumbers(|l.commands|, fds, t) && k < |l.commands|
    ensures |Run(|l.commands|, fds, t, |l.commands|).children| == |l.commands|
    ensures forall o | IsOutcome(Run(|l.commands|, fds, t, |l.commands|).children[k], l.commands[k], missing, room, o)
              :: ExecutesAsExpected(l, fds, t, k, missing, room, o)
  {
    var n, c := |l.commands|, l.commands[k];
    CommandIsConnected(n, fds, t, k);
    assert WellFormedCommand(c);
    assert WordsOf(c)[0] == Some(c[0].word);
  }

  ghost predicate ExecutesAsExpected(l: SimpleList, fds: seq<Numbers>, t: Table, k: nat,
                                     missing: Unavailable, room: nat, o: Outcome)
    requires WellFormed(l) && k < |l.commands| <= |fds| + 1
  {
    var n, c := |l.commands|, l.commands[k];
    && WellFormedCommand(c)
    && (o.Exec? <==>
        && !(ReusesStale(n, fds, k) && fds[k].1 != 0)
        && AllAvailable(c, missing) && |WordsOf(c)| <= room)
    && (o.Exec? ==>
        && WordsOf(c) <= o.argv && o.argv != [] && o.argv[0] == Some(c[0].word)
        && (|WordsOf(c)| < room ==> o.argv == WordsOf(c) + [None]))
    && (o.Exec? ==>
        && (LastRedirection(c, true).Some? ==> o.input == Some(File(LastRedirection(c, true).value, true)))
        && (LastRedirection(c, false).Some? ==> o.output == Some(File(LastRedirection(c, false).value, false))))
    && (o.Exec? && WellNumbered(n, fds, k) ==>
        && (LastRedirection(c, true).None? && k > 0 ==> o.input == Some(PipeRead(k - 1)))
        && (LastRedirection(c, false).None? && k + 1 < n ==> o.output == Some(PipeWrite(k)))
        && Settles(c, true, if k == 0 then Lookup(t, 0) else Some(PipeRead(k - 1)), o.input)
        && Settles(c, false, if k + 1 == n then Lookup(t, 1) else Some(PipeWrite(k)), o.output))
  }
}
