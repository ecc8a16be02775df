/** Lab2/iwish/src/parser.c and parsertokens.c: the parser with its cursor, which fills, trims and
    frees the AST as it goes. Allocation is assumed to succeed; malloc may return any address that
    is not live, freed ones included. */
module Parser {
  import opened Options
  import opened Ast
  import opened Grammar
  import opened ParserHeap

  class Parser {
    const sentence: seq<string> // followed by a NULL pointer, which is at index |sentence|
    var cursor: nat
    var heap: Heap

    constructor (sentence: seq<string>, heap: Heap)
      ensures this.sentence == sentence && cursor == 0 && this.heap == heap
    {
      this.sentence, this.heap := sentence, heap;
      cursor := 0;
    }

    /** The tokens from the cursor on. */
    function Rest(): Tokens
      requires cursor <= |sentence|
      reads this`cursor
    {
      sentence[cursor..]
    }

    // ----- allocation

    method Malloc(node: Node) returns (a: Addr)
      modifies this`heap
      ensures a !in old(heap) && heap == old(heap)[a := node]
    {
      var bound := AddressesAreBounded(heap.Keys);
      assert bound !in heap;
      a :| a !in heap;
      heap := heap[a := node];
    }

    /** Freeing an address that is not live is an error, so it is a precondition. */
    method Free(a: Addr)
      requires a in heap
      modifies this`heap
      ensures heap == old(heap) - {a}
    {
      heap := heap - {a};
    }

    /** The direction of a new redirection is whatever malloc left there. */
    method MakeNewRedirection() returns (a: Addr)
      modifies this`heap
      ensures a !in old(heap) && a in heap && heap == old(heap)[a := heap[a]]
      ensures heap[a].RedirectionNode? && heap[a].word == None
    {
      var garbage: int := *;
      a := Malloc(RedirectionNode(garbage, None));
    }

    method MakeNewElementList() returns (a: Addr)
      modifies this`heap
      ensures a !in old(heap) && heap == old(heap)[a := ElementNode(UNINITIALISED, None, None, None)]
    {
      a := Malloc(ElementNode(UNINITIALISED, None, None, None));
    }

    method MakeNewCommandList() returns (a: Addr, ghost e: Addr)
      modifies this`heap
      ensures a !in old(heap) && e !in old(heap) && a != e
      ensures heap == old(heap)[e := ElementNode(UNINITIALISED, None, None, None)][a := CommandNode(e, None)]
    {
      var elements := MakeNewElementList();
      a := Malloc(CommandNode(elements, None));
      e := elements;
    }

    /** An empty list: one command with one uninitialised element. */
    method MakeNewSimpleList() returns (root: Addr, ghost cs: seq<CommandShape>)
      modifies this`heap
      ensures IsSimpleList(heap, root, cs, false)
      ensures |cs| == 1 && IsEmptyCommand(cs[0])
      ensures heap.Keys == old(heap).Keys + {root} + CommandFoot(cs)
      ensures ({root} + CommandFoot(cs)) !! old(heap).Keys && SameOn(old(heap), heap, old(heap).Keys)
    {
      var commands, e := MakeNewCommandList();
      root := Malloc(ListNode(commands, 0));
      cs := [CommandShape(commands, [ElementShape(e, None, 0)])];
      assert IsElementList(heap, cs[0].elements);
    }

    // ----- release

    method FreeElementList(p: Option<Addr>, ghost es: seq<ElementShape>)
      requires IsElementList(heap, es) && p == FirstElement(es)
      modifies this`heap
      ensures heap == old(heap) - ElementFoot(es)
      decreases |es|
    {
      if p == None {
        return;
      }
      ElementListIsLive(heap, es[1..]);
      FreeElementList(heap[p.value].nextElement, es[1..]);
      if heap[p.value].redirection.Some? {
        Free(heap[p.value].redirection.value);
      }
      Free(p.value);
    }

    method FreeCommandList(p: Option<Addr>, ghost cs: seq<CommandShape>)
      requires IsCommandList(heap, cs) && p == FirstCommand(cs)
      modifies this`heap
      ensures heap == old(heap) - CommandFoot(cs)
      decreases |cs|
    {
      if p == None {
        return;
      }
      FreeCommandList(heap[p.value].nextCommand, cs[1..]);
      ElementListFrame(old(heap), heap, cs[0].elements);
      ElementListIsLive(old(heap), cs[0].elements);
      FreeElementList(Some(heap[p.value].elements), cs[0].elements);
      Free(p.value);
    }

    /** Frees every node of the list exactly once, and nothing else. */
    method FreeSimpleList(root: Addr, ghost cs: seq<CommandShape>, ghost ampersand: bool)
      requires IsSimpleList(heap, root, cs, ampersand)
      modifies this`heap
      ensures heap == old(heap) - ({root} + CommandFoot(cs))
    {
      FreeCommandList(Some(heap[root].commands), cs);
      Free(root);
    }

    // ----- parsing

    method ParseLetter(index: nat) returns (ok: bool)
      requires cursor < |sentence| && index < |sentence[cursor]|
      ensures ok == IsLetter(sentence[cursor][index])
    {
      var letter := sentence[cursor][index];
      if 'a' <= letter <= 'z' || 'A' <= letter <= 'Z' {
        return true;
      } else if letter == '-' || letter == '.' || letter == '/' || letter == '_' {
        return true;
      }
      return false;
    }

    /** Accepts the empty word; stays put when it fails. */
    method ParseWord() returns (ok: bool)
      requires cursor <= |sentence|
      modifies this`cursor
      ensures ok == (old(cursor) < |sentence| && IsWord(sentence[old(cursor)]))
      ensures cursor == if ok then old(cursor) + 1 else old(cursor)
    {
      if cursor == |sentence| {
        return false;
      }
      var index := 0;
      while index < |sentence[cursor]|
        invariant cursor == old(cursor) && 0 <= index <= |sentence[cursor]|
        invariant forall i :: 0 <= i < index ==> IsLetter(sentence[cursor][i])
      {
        var letter := ParseLetter(index);
        if !letter {
          return false;
        }
        index := index + 1;
      }
      cursor := cursor + 1;
      return true;
    }

    method ParseRedirection(r: Addr) returns (ok: bool)
      requires cursor <= |sentence| && r in heap && heap[r].RedirectionNode?
      modifies this`heap, this`cursor
      ensures cursor <= |sentence| && r in heap && heap == old(heap)[r := heap[r]]
      ensures ok == (|old(Rest())| > 1 && old(Rest())[0] in {"<", ">"} && IsWord(old(Rest())[1]))
      ensures ok ==> heap[r] == RedirectionNode(if old(Rest())[0] == "<" then 1 else 0, Some(old(Rest())[1]))
      ensures cursor == if ok then old(cursor) + 2 else old(cursor)
    {
      var backup := cursor;
      if cursor == |sentence| {
        return false;
      }
      if sentence[cursor] == "<" {
        heap := heap[r := heap[r].(isInput := 1)];
      } else if sentence[cursor] == ">" {
        heap := heap[r := heap[r].(isInput := 0)];
      } else {
        return false;
      }
      cursor := cursor + 1;
      var word := ParseWord();
      if !word {
        cursor := backup;
        return false;
      }
      heap := heap[r := heap[r].(word := Some(sentence[cursor - 1]))];
      return true;
    }

    /** Fills the element node at a, or leaves heap and cursor as they were. */
    method ParseSimpleCommandElement(a: Addr) returns (ok: bool, ghost sh: ElementShape)
      requires cursor <= |sentence|
      requires a in heap && heap[a] == ElementNode(UNINITIALISED, None, None, None)
      modifies this`heap, this`cursor
      ensures cursor <= |sentence|
      ensures ok == ElementOf(old(Rest())).Some?
      ensures !ok ==> heap == old(heap) && cursor == old(cursor)
      ensures ok ==> sh.at == a && sh.element == ElementOf(old(Rest())) && IsElement(heap, sh, None)
      ensures ok ==> cursor == old(cursor) + |FlattenElement(sh.element.value)|
      ensures ok ==> Grew(old(heap), heap, {a}, Cells(sh))
    {
      sh := ElementShape(a, None, 0);
      var backup := cursor;
      if cursor == |sentence| {
        return false, sh;
      }
      assert Rest()[0] == sentence[cursor];
      var word := ParseWord();
      if word {
        heap := heap[a := heap[a].(isRedirection := 0, elementWord := Some(sentence[backup]), redirection := None)];
        sh := ElementShape(a, Some(Word(sentence[backup])), 0);
      } else {
        cursor := backup;
        var r := MakeNewRedirection();
        heap := heap[a := heap[a].(redirection := Some(r))];
        var redirection := ParseRedirection(r);
        if redirection {
          heap := heap[a := heap[a].(isRedirection := 1, elementWord := None)];
          sh := ElementShape(a, ElementOf(old(Rest())), r);
        } else {
          cursor := backup;
          Free(r);
          heap := heap[a := heap[a].(redirection := None)];
          assert heap == old(heap);
          return false, sh;
        }
      }
      return true, sh;
    }

    /** Fills the list that starts at a with as many elements as there are, if there is one. The
        node allocated for the element that is not there is freed again. */
    method ParseSimpleCommand(a: Addr) returns (ok: bool, ghost es: seq<ElementShape>)
      requires cursor <= |sentence|
      requires a in heap && heap[a] == ElementNode(UNINITIALISED, None, None, None)
      modifies this`heap, this`cursor
      ensures cursor <= |sentence|
      ensures ok == ElementOf(old(Rest())).Some?
      ensures !ok ==> heap == old(heap) && cursor == old(cursor)
      ensures ok ==> es != [] && es[0].at == a && IsElementList(heap, es)
      ensures ok ==> HoldsElements(es, CommandOf(old(Rest())).0) && Rest() == CommandOf(old(Rest())).1
      ensures ok ==> Grew(old(heap), heap, {a}, ElementFoot(es))
      decreases |sentence| - cursor, 0
    {
      es := [];
      var backup := cursor;
      if cursor == |sentence| {
        return false, es;
      }
      var element, sh := ParseSimpleCommandElement(a);
      if !element {
        cursor := backup;
        return false, es;
      }
      assert Rest() == AfterElement(old(Rest()));
      CommandStep(old(Rest()));
      ghost var filled := heap;
      ghost var tail := ParseFurtherElements(a, sh);
      es := [sh] + tail;
      HoldsElementPrepends(sh, tail, sh.element.value, CommandOf(AfterElement(old(Rest()))).0);
      ElementsGrew(old(heap), filled, heap, sh, tail);
      return true, es;
    }

    /** The second half of parseSimpleCommand, behind the element sh at a. */
    method ParseFurtherElements(a: Addr, ghost sh: ElementShape) returns (ghost tail: seq<ElementShape>)
      requires cursor <= |sentence| && sh.at == a && IsElement(heap, sh, None)
      modifies this`heap, this`cursor
      ensures cursor <= |sentence|
      ensures IsElementList(heap, [sh] + tail)
      ensures HoldsElements(tail, CommandOf(old(Rest())).0) && Rest() == CommandOf(old(Rest())).1
      ensures ElementFoot(tail) !! old(heap).Keys && Grew(old(heap), heap, {a}, {a} + ElementFoot(tail))
      decreases |sentence| - cursor, 1
    {
      var b := MakeNewElementList();
      heap := heap[a := heap[a].(nextElement := Some(b))];
      assert heap == LinkElement(old(heap), a, b);
      var more, es := ParseSimpleCommand(b);
      if !more {
        ghost var unused := [ElementShape(b, None, 0)];
        assert IsElementList(heap, unused);
        FreeElementList(Some(b), unused);
        UnlinkUndoesLink(old(heap), a, b);
        heap := heap[a := heap[a].(nextElement := None)];
        return [];
      } else {
        ElementListExtends(old(heap), heap, sh, es, b);
        return es;
      }
    }

    /** The rest of a pipeline behind the command c. On failure the cursor may be left behind the
        bar; the caller puts it back. */
    method ParsePipeLine2(previous: Addr, ghost c: CommandShape) returns (ok: bool, ghost tail: seq<CommandShape>)
      requires cursor <= |sentence|
      requires c.at == previous && IsCommandList(heap, [c])
      modifies this`heap, this`cursor
      ensures cursor <= |sentence|
      ensures ok == AfterBar(old(Rest())).Some?
      ensures !ok ==> heap == old(heap)
      ensures ok ==> var (values, rest) := AfterBar(old(Rest())).value;
                     HoldsCommands(tail, values) && Rest() == rest
      ensures ok ==> IsCommandList(heap, [c] + tail) && CommandFoot(tail) !! old(heap).Keys
      ensures ok ==> Grew(old(heap), heap, {previous}, {previous} + CommandFoot(tail))
      decreases |sentence| - cursor
    {
      tail := [];
      if cursor == |sentence| {
        return false, tail;
      }
      if sentence[cursor] != "|" {
        return false, tail;
      }
      cursor := cursor + 1;
      assert Rest() == old(Rest())[1..];
      var backup := cursor;
      assert CommandFoot([c]) == CommandCells(c);
      var b, e := MakeNewCommandList();
      heap := heap[previous := heap[previous].(nextCommand := Some(b))];
      assert heap == LinkCommand(old(heap), previous, b, e);
      EmptyCommandIsLinked(old(heap), previous, b, e);
      ghost var unused := CommandShape(b, [ElementShape(e, None, 0)]);
      ok, tail := ParsePipeLine(b, unused);
      if !ok {
        cursor := backup;
        FreeCommandList(Some(b), [unused]);
        heap := heap[previous := heap[previous].(nextCommand := None)];
        return false, tail;
      }
      CommandListExtends(old(heap), heap, c, tail, b, e);
      return true, tail;
    }

    /** Fills the empty command at a and whatever follows it, or leaves heap and cursor as they
        were. */
    method ParsePipeLine(a: Addr, ghost c: CommandShape) returns (ok: bool, ghost cs: seq<CommandShape>)
      requires cursor <= |sentence|
      requires c.at == a && IsCommandList(heap, [c]) && IsEmptyCommand(c)
      modifies this`heap, this`cursor
      ensures cursor <= |sentence|
      ensures ok == PipelineOf(old(Rest())).Some?
      ensures !ok ==> heap == old(heap) && cursor == old(cursor)
      ensures ok ==> var (values, rest) := PipelineOf(old(Rest())).value;
                     HoldsCommands(cs, values) && Rest() == rest
      ensures ok ==> cs != [] && cs[0].at == a && IsCommandList(heap, cs)
      ensures ok ==> Grew(old(heap), heap, CommandCells(c), CommandFoot(cs))
      decreases |sentence| - cursor
    {
      cs := [];
      if cursor == |sentence| {
        return false, cs;
      }
      assert Rest()[0] == sentence[cursor];
      var word := ParseWord();
      if !word {
        return false, cs;
      }
      cursor := cursor - 1;
      assert Rest() == old(Rest());
      var command, es := ParseSimpleCommand(heap[a].elements);
      assert command; // the first token is a word, so the failure branch is never taken
      CommandIsFilled(old(heap), heap, c, es);
      ghost var filled, c' := heap, CommandShape(a, es);
      PipelineStep(old(Rest()));
      assert ElementFoot(c.elements) == {es[0].at};

      var backup := cursor;
      var more, tail := ParsePipeLine2(a, c');
      ghost var value, afterBar := CommandOf(old(Rest())).0, AfterBar(CommandOf(old(Rest())).1);
      if !more {
        cursor := backup;
        tail := [];
      }
      cs := [c'] + tail;
      HoldsPrepends(c', tail, value, if more then afterBar.value.0 else []);
      CommandsGrew(old(heap), filled, heap, c, c', tail);
      return true, cs;
    }

    /** Parses the whole sentence into an empty list. Whether it succeeds or not, the nodes that
        are live at return are the old ones and those reachable from the list, so nothing is lost
        and the list can be freed; after success the list stands for the parsed commands and no
        node is uninitialised. */
    method ParseInput(root: Addr, ghost empty: seq<CommandShape>)
      returns (ok: bool, ghost cs: seq<CommandShape>, ghost ampersand: bool)
      requires IsSimpleList(heap, root, empty, false) && |empty| == 1 && IsEmptyCommand(empty[0])
      modifies this`heap, this`cursor
      ensures cursor <= |sentence|
      ensures ok == ParseTokens(sentence).Some?
      ensures IsSimpleList(heap, root, cs, ampersand)
      ensures ok ==> HoldsCommands(cs, ParseTokens(sentence).value.commands)
      ensures ok ==> ampersand == ParseTokens(sentence).value.ampersand
      ensures Grew(old(heap), heap, {root} + CommandFoot(empty), {root} + CommandFoot(cs))
    {
      cursor := 0;
      assert Rest() == sentence;
      ampersand := false;
      var pipeline;
      pipeline, cs := ParseCommands(root, empty);
      if !pipeline {
        return false, cs, ampersand;
      }
      ghost var before := heap;
      ampersand := ParseAmpersand(root, cs);
      RootMayChange(old(heap), before, root, heap[root], CommandFoot(empty), CommandFoot(cs));
      return cursor == |sentence|, cs, ampersand;
    }

    /** The first half of parseInput: the commands of the list. */
    method ParseCommands(root: Addr, ghost empty: seq<CommandShape>) returns (ok: bool, ghost cs: seq<CommandShape>)
      requires cursor <= |sentence|
      requires IsSimpleList(heap, root, empty, false) && |empty| == 1 && IsEmptyCommand(empty[0])
      modifies this`heap, this`cursor
      ensures cursor <= |sentence|
      ensures ok == PipelineOf(old(Rest())).Some?
      ensures ok ==> HoldsCommands(cs, PipelineOf(old(Rest())).value.0) && Rest() == PipelineOf(old(Rest())).value.1
      ensures IsSimpleList(heap, root, cs, false)
      ensures Grew(old(heap), heap, {root} + CommandFoot(empty), {root} + CommandFoot(cs))
    {
      cs := empty;
      CommandListIsLive(heap, empty);
      NothingGrew(heap, {root} + CommandFoot(empty));
      if cursor == |sentence| {
        return false, cs;
      }
      assert empty == [empty[0]];
      var pipeline, filled := ParsePipeLine(heap[root].commands, empty[0]);
      if !pipeline {
        return false, cs;
      }
      cs := filled;
      ListIsFilled(old(heap), heap, root, empty, cs);
      return true, cs;
    }

    method ParseAmpersand(root: Addr, ghost cs: seq<CommandShape>) returns (ghost ampersand: bool)
      requires cursor <= |sentence| && IsSimpleList(heap, root, cs, false)
      modifies this`heap, this`cursor
      ensures cursor <= |sentence|
      ensures ampersand == (old(Rest()) != [] && old(Rest())[0] == "&")
      ensures Rest() == if ampersand then old(Rest())[1..] else old(Rest())
      ensures IsSimpleList(heap, root, cs, ampersand)
      ensures root in heap && heap == old(heap)[root := heap[root]]
    {
      ampersand := false;
      if cursor < |sentence| && sentence[cursor] == "&" {
        heap := heap[root := heap[root].(ampersand := 1)];
        cursor := cursor + 1;
        ampersand := true;
        CommandListFrame(old(heap), heap, cs);
      }
    }

    /** Parsing, whatever its outcome, and freeing the list leaves the heap as it was: no node
        leaks, and Free was never called on a dead address. */
    method ParseThenFree() returns (ok: bool)
      modifies this`heap, this`cursor
      ensures ok == ParseTokens(sentence).Some?
      ensures heap == old(heap)
    {
      var root, empty := MakeNewSimpleList();
      var accepted, cs, ampersand := ParseInput(root, empty);
      FreeSimpleList(root, cs, ampersand);
      return accepted;
    }
  }
}
