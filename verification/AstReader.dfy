/** The AST as Lab2/iwish/src/interpreter.c and iwish.c walk it: from pointer to pointer, with C's
    notion of truth for its flags. What the parser leaves in the heap is read back as the commands
    it parsed. */
module AstReader {
  import opened Options
  import opened Ast
  import opened ParserHeap

  /** The element in a node, and the pointer to the next one. */
  function ElementIn(h: Heap, a: Addr): Option<(Element, Option<Addr>)> {
    if a !in h || !h[a].ElementNode? then None
    else if h[a].isRedirection != 0 then RedirectionIn(h, h[a].redirection, h[a].nextElement)
    else if h[a].elementWord.None? then None
    else Some((Word(h[a].elementWord.value), h[a].nextElement))
  }

  function RedirectionIn(h: Heap, r: Option<Addr>, next: Option<Addr>): Option<(Element, Option<Addr>)> {
    if r.None? || r.value !in h || !h[r.value].RedirectionNode? || h[r.value].word.None? then None
    else Some((Redirect(h[r.value].isInput != 0, h[r.value].word.value), next))
  }

  /** Following the pointers from p on, up to NULL, one finds these elements. */
  predicate ReadsElements(h: Heap, p: Option<Addr>, c: Command)
    decreases |c|
  {
    if c == [] then p == None
    else
      && p.Some? && ElementIn(h, p.value).Some?
      && ElementIn(h, p.value).value.0 == c[0] && ReadsElements(h, ElementIn(h, p.value).value.1, c[1..])
  }

  predicate ReadsCommands(h: Heap, p: Option<Addr>, cs: seq<Command>)
    decreases |cs|
  {
    if cs == [] then p == None
    else
      && p.Some? && p.value in h && h[p.value].CommandNode?
      && ReadsElements(h, Some(h[p.value].elements), cs[0]) && ReadsCommands(h, h[p.value].nextCommand, cs[1..])
  }

  predicate ReadsList(h: Heap, root: Addr, l: SimpleList) {
    && root in h && h[root].ListNode?
    && ReadsCommands(h, Some(h[root].commands), l.commands) && l.ampersand == (h[root].ampersand != 0)
  }

  lemma {:induction false} ElementsAreRead(h: Heap, es: seq<ElementShape>, c: Command)
    requires IsElementList(h, es) && HoldsElements(es, c)
    ensures ReadsElements(h, FirstElement(es), c)
    decreases |es|
  {
    if es != [] {
      assert es[0].element == Some(c[0]);
      ElementsAreRead(h, es[1..], c[1..]);
    }
  }

  lemma {:induction false} CommandsAreRead(h: Heap, cs: seq<CommandShape>, values: seq<Command>)
    requires IsCommandList(h, cs) && HoldsCommands(cs, values)
    ensures ReadsCommands(h, FirstCommand(cs), values)
    decreases |cs|
  {
    if cs != [] {
      assert HoldsElements(cs[0].elements, values[0]);
      ElementsAreRead(h, cs[0].elements, values[0]);
      CommandsAreRead(h, cs[1..], values[1..]);
    }
  }

  /** Whoever follows the pointers of a list that holds these commands reads just these. */
  lemma ListIsRead(h: Heap, root: Addr, cs: seq<CommandShape>, l: SimpleList)
    requires IsSimpleList(h, root, cs, l.ampersand) && HoldsCommands(cs, l.commands)
    ensures ReadsList(h, root, l)
  {
    CommandsAreRead(h, cs, l.commands);
  }

  lemma {:induction false} ElementsAreUnique(h: Heap, p: Option<Addr>, c: Command, d: Command)
    requires ReadsElements(h, p, c) && ReadsElements(h, p, d)
    ensures c == d
    decreases |c|
  {
    if c != [] && d != [] {
      ElementsAreUnique(h, ElementIn(h, p.value).value.1, c[1..], d[1..]);
      assert c == [c[0]] + c[1..] && d == [d[0]] + d[1..];
    }
  }

  lemma {:induction false} CommandsAreUnique(h: Heap, p: Option<Addr>, cs: seq<Command>, ds: seq<Command>)
    requires ReadsCommands(h, p, cs) && ReadsCommands(h, p, ds)
    ensures cs == ds
    decreases |cs|
  {
    if cs != [] && ds != [] {
      ElementsAreUnique(h, Some(h[p.value].elements), cs[0], ds[0]);
      CommandsAreUnique(h, h[p.value].nextCommand, cs[1..], ds[1..]);
      assert cs == [cs[0]] + cs[1..] && ds == [ds[0]] + ds[1..];
    }
  }

  /** A heap holds one list at most at an address. */
  lemma ListIsUnique(h: Heap, root: Addr, l: SimpleList, m: SimpleList)
    requires ReadsList(h, root, l) && ReadsList(h, root, m)
    ensures l == m
  {
    CommandsAreUnique(h, Some(h[root].commands), l.commands, m.commands);
  }
}
