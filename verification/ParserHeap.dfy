/** The nodes of Lab2/iwish/src/parsertokens.h in an explicit heap, so that malloc and free are
    visible: the heap maps exactly the live addresses.

    A shape says where the nodes of a list are and what they stand for. `IsElementList` and
    `IsCommandList` say that the heap holds such a list, with every node at an address of its
    own; the footprint is the set of those addresses, which is what is reachable from the list.
  */
module ParserHeap {
  import opened Options
  import opened Ast

  type Addr = nat

  datatype Node =
    | RedirectionNode(isInput: int, word: Option<string>)
    | ElementNode(isRedirection: int, redirection: Option<Addr>, elementWord: Option<string>, nextElement: Option<Addr>)
    | CommandNode(elements: Addr, nextCommand: Option<Addr>)
    | ListNode(commands: Addr, ampersand: int)

  type Heap = map<Addr, Node>

  const UNINITIALISED: int := -1

  // ----- one element

  /** An element node, its element or None while uninitialised, and where its redirection is. */
  datatype ElementShape = ElementShape(at: Addr, element: Option<Element>, redirection: Addr)

  function Cells(e: ElementShape): set<Addr> {
    {e.at} + if e.element.Some? && e.element.value.Redirect? then {e.redirection} else {}
  }

  predicate IsElement(h: Heap, e: ElementShape, next: Option<Addr>) {
    && e.at in h
    && match e.element
       case None => h[e.at] == ElementNode(-1, None, None, next)
       case Some(Word(w)) => h[e.at] == ElementNode(0, None, Some(w), next)
       case Some(Redirect(input, w)) =>
         && h[e.at] == ElementNode(1, Some(e.redirection), None, next)
         && e.redirection in h && e.redirection != e.at
         && h[e.redirection] == RedirectionNode(if input then 1 else 0, Some(w))
  }

  // ----- a list of elements

  function FirstElement(es: seq<ElementShape>): Option<Addr> {
    if es == [] then None else Some(es[0].at)
  }

  function ElementFoot(es: seq<ElementShape>): set<Addr> {
    if es == [] then {} else Cells(es[0]) + ElementFoot(es[1..])
  }

  predicate IsElementList(h: Heap, es: seq<ElementShape>) {
    es == [] ||
    (&& IsElement(h, es[0], FirstElement(es[1..]))
     && Cells(es[0]) !! ElementFoot(es[1..])
     && IsElementList(h, es[1..]))
  }

  /** The list stands for these elements; none of its nodes is uninitialised. */
  predicate HoldsElements(es: seq<ElementShape>, values: seq<Element>) {
    |es| == |values| && forall i :: 0 <= i < |es| ==> es[i].element == Some(values[i])
  }

  lemma HoldsElementPrepends(e: ElementShape, es: seq<ElementShape>, value: Element, values: seq<Element>)
    requires e.element == Some(value) && HoldsElements(es, values)
    ensures HoldsElements([e] + es, [value] + values)
  {
  }

  predicate SameOn(h: Heap, h': Heap, foot: set<Addr>) {
    forall a :: a in foot && a in h ==> a in h' && h'[a] == h[a]
  }

  lemma {:induction false} ElementListIsLive(h: Heap, es: seq<ElementShape>)
    requires IsElementList(h, es)
    ensures ElementFoot(es) <= h.Keys
  {
    if es != [] {
      ElementListIsLive(h, es[1..]);
    }
  }

  lemma {:induction false} ElementListFrame(h: Heap, h': Heap, es: seq<ElementShape>)
    requires IsElementList(h, es) && SameOn(h, h', ElementFoot(es))
    ensures IsElementList(h', es)
  {
    if es != [] {
      ElementListFrame(h, h', es[1..]);
    }
  }

  // ----- a list of commands

  datatype CommandShape = CommandShape(at: Addr, elements: seq<ElementShape>)

  function FirstCommand(cs: seq<CommandShape>): Option<Addr> {
    if cs == [] then None else Some(cs[0].at)
  }

  function CommandCells(c: CommandShape): set<Addr> {
    {c.at} + ElementFoot(c.elements)
  }

  function CommandFoot(cs: seq<CommandShape>): set<Addr> {
    if cs == [] then {} else CommandCells(cs[0]) + CommandFoot(cs[1..])
  }

  predicate IsCommand(h: Heap, c: CommandShape, next: Option<Addr>) {
    && c.at in h && c.elements != [] && h[c.at] == CommandNode(c.elements[0].at, next)
    && c.at !in ElementFoot(c.elements)
    && IsElementList(h, c.elements)
  }

  /** As allocated: one element, uninitialised. */
  predicate IsEmptyCommand(c: CommandShape) {
    |c.elements| == 1 && c.elements[0].element == None
  }

  predicate IsCommandList(h: Heap, cs: seq<CommandShape>) {
    cs == [] ||
    (&& IsCommand(h, cs[0], FirstCommand(cs[1..]))
     && CommandCells(cs[0]) !! CommandFoot(cs[1..])
     && IsCommandList(h, cs[1..]))
  }

  predicate HoldsCommands(cs: seq<CommandShape>, values: seq<Command>) {
    |cs| == |values| && forall i :: 0 <= i < |cs| ==> HoldsElements(cs[i].elements, values[i])
  }

  lemma HoldsPrepends(c: CommandShape, cs: seq<CommandShape>, value: Command, values: seq<Command>)
    requires HoldsElements(c.elements, value) && HoldsCommands(cs, values)
    ensures HoldsCommands([c] + cs, [value] + values)
  {
  }

  lemma {:induction false} CommandListIsLive(h: Heap, cs: seq<CommandShape>)
    requires IsCommandList(h, cs)
    ensures CommandFoot(cs) <= h.Keys
  {
    if cs != [] {
      ElementListIsLive(h, cs[0].elements);
      CommandListIsLive(h, cs[1..]);
    }
  }

  lemma {:induction false} CommandListFrame(h: Heap, h': Heap, cs: seq<CommandShape>)
    requires IsCommandList(h, cs) && SameOn(h, h', CommandFoot(cs))
    ensures IsCommandList(h', cs)
  {
    if cs != [] {
      ElementListFrame(h, h', cs[0].elements);
      CommandListFrame(h, h', cs[1..]);
    }
  }

  // ----- a whole list

  /** The root of the AST, with all its commands. */
  predicate IsSimpleList(h: Heap, root: Addr, cs: seq<CommandShape>, ampersand: bool) {
    && root in h && cs != [] && h[root] == ListNode(cs[0].at, if ampersand then 1 else 0)
    && root !in CommandFoot(cs)
    && IsCommandList(h, cs)
  }

  // ----- how the heap grows

  /** A call that fills the nodes in own may allocate more, but touches no other old node; the
      nodes in foot are its own and the new ones. */
  predicate Grew(h: Heap, h': Heap, own: set<Addr>, foot: set<Addr>) {
    && h'.Keys == h.Keys + foot
    && foot * h.Keys == own
    && forall x :: x in h && x !in own ==> h'[x] == h[x]
  }

  /** Node b is allocated and linked behind the element at a. */
  function LinkElement(h: Heap, a: Addr, b: Addr): Heap
    requires a in h && h[a].ElementNode?
  {
    h[b := ElementNode(UNINITIALISED, None, None, None)][a := h[a].(nextElement := Some(b))]
  }

  /** What fills b then extends the list that starts at a. */
  lemma ElementListExtends(filled: Heap, h': Heap, e: ElementShape, tail: seq<ElementShape>, b: Addr)
    requires IsElement(filled, e, None) && b !in filled
    requires Grew(LinkElement(filled, e.at, b), h', {b}, ElementFoot(tail))
    requires tail != [] && tail[0].at == b && IsElementList(h', tail)
    ensures IsElementList(h', [e] + tail)
    ensures ElementFoot(tail) !! filled.Keys && Grew(filled, h', {e.at}, {e.at} + ElementFoot(tail))
  {
    var linked := LinkElement(filled, e.at, b);
    var es := [e] + tail;
    assert es[1..] == tail;
    assert IsElement(linked, e, Some(b));
    assert SameOn(linked, h', Cells(e));
  }

  /** Filling an element and then extending the list behind it. */
  lemma ElementsGrew(h: Heap, filled: Heap, h': Heap, e: ElementShape, tail: seq<ElementShape>)
    requires e.at in h && Grew(h, filled, {e.at}, Cells(e))
    requires ElementFoot(tail) !! filled.Keys && Grew(filled, h', {e.at}, {e.at} + ElementFoot(tail))
    ensures Grew(h, h', {e.at}, ElementFoot([e] + tail))
  {
    assert ([e] + tail)[1..] == tail;
  }

  /** Freeing b again and unlinking it undoes the link. */
  lemma UnlinkUndoesLink(h: Heap, a: Addr, b: Addr)
    requires a in h && h[a].ElementNode? && h[a].nextElement == None && b !in h
    ensures var freed := LinkElement(h, a, b) - {b};
            a in freed && freed[a].ElementNode? && freed[a := freed[a].(nextElement := None)] == h
  {
  }

  /** A command whose elements were filled in is a command still. */
  lemma CommandIsFilled(h: Heap, filled: Heap, c: CommandShape, es: seq<ElementShape>)
    requires IsCommandList(h, [c]) && IsEmptyCommand(c)
    requires es != [] && es[0].at == c.elements[0].at && IsElementList(filled, es)
    requires Grew(h, filled, {es[0].at}, ElementFoot(es))
    ensures IsCommandList(filled, [CommandShape(c.at, es)])
    ensures CommandCells(CommandShape(c.at, es)) * h.Keys == CommandCells(c)
    ensures filled.Keys == h.Keys + CommandCells(CommandShape(c.at, es))
  {
    assert c.elements[0].at in ElementFoot(c.elements);
    assert ElementFoot(c.elements) == {es[0].at};
    ElementListIsLive(h, c.elements);
  }

  /** The list of commands with an empty command allocated and linked behind the one at a. */
  function LinkCommand(h: Heap, a: Addr, b: Addr, e: Addr): Heap
    requires a in h && h[a].CommandNode?
  {
    h[e := ElementNode(UNINITIALISED, None, None, None)][b := CommandNode(e, None)][a := h[a].(nextCommand := Some(b))]
  }

  lemma EmptyCommandIsLinked(h: Heap, a: Addr, b: Addr, e: Addr)
    requires a in h && h[a].CommandNode? && h[a].nextCommand == None && b !in h && e !in h && b != e
    ensures IsCommandList(LinkCommand(h, a, b, e), [CommandShape(b, [ElementShape(e, None, 0)])])
    ensures CommandFoot([CommandShape(b, [ElementShape(e, None, 0)])]) == {b, e}
    ensures var freed := LinkCommand(h, a, b, e) - {b, e};
            a in freed && freed[a].CommandNode? && freed[a := freed[a].(nextCommand := None)] == h
  {
    var c := CommandShape(b, [ElementShape(e, None, 0)]);
    assert ElementFoot(c.elements) == {e};
    assert IsElementList(LinkCommand(h, a, b, e), c.elements);
  }

  lemma CommandListExtends(h: Heap, h': Heap, c: CommandShape, tail: seq<CommandShape>, b: Addr, e: Addr)
    requires IsCommandList(h, [c]) && b !in h && e !in h && b != e
    requires Grew(LinkCommand(h, c.at, b, e), h', {b, e}, CommandFoot(tail))
    requires tail != [] && tail[0].at == b && IsCommandList(h', tail)
    ensures IsCommandList(h', [c] + tail) && Grew(h, h', {c.at}, {c.at} + CommandFoot(tail))
    ensures CommandFoot(tail) !! h.Keys
  {
    var linked := LinkCommand(h, c.at, b, e);
    var cs := [c] + tail;
    assert cs[1..] == tail;
    CommandListIsLive(h, [c]);
    assert CommandFoot([c]) == CommandCells(c);
    forall x | x in CommandFoot(tail)
      ensures x !in h
    {
      assert x in h ==> x in CommandFoot(tail) * linked.Keys;
    }
    ElementListFrame(h, h', c.elements);
  }

  /** Filling a command and then extending the list behind it. */
  lemma CommandsGrew(h: Heap, filled: Heap, h': Heap, c: CommandShape, c': CommandShape, tail: seq<CommandShape>)
    requires c.at == c'.at && c.at in h && filled.Keys == h.Keys + CommandCells(c')
    requires CommandCells(c') * h.Keys == CommandCells(c)
    requires forall x :: x in h && x !in CommandCells(c) ==> filled[x] == h[x]
    requires if tail == [] then h' == filled
             else Grew(filled, h', {c'.at}, {c'.at} + CommandFoot(tail)) && CommandFoot(tail) !! filled.Keys
    ensures Grew(h, h', CommandCells(c), CommandFoot([c'] + tail))
  {
    assert ([c'] + tail)[1..] == tail;
  }

  /** A list whose commands were filled in is a list still, and nothing else has changed. */
  lemma ListIsFilled(h: Heap, h': Heap, root: Addr, empty: seq<CommandShape>, cs: seq<CommandShape>)
    requires IsSimpleList(h, root, empty, false) && |empty| == 1
    requires cs != [] && cs[0].at == empty[0].at && IsCommandList(h', cs)
    requires Grew(h, h', CommandCells(empty[0]), CommandFoot(cs))
    ensures IsSimpleList(h', root, cs, false)
    ensures Grew(h, h', {root} + CommandFoot(empty), {root} + CommandFoot(cs))
  {
    assert CommandFoot(empty) == CommandCells(empty[0]);
  }

  /** Then the root itself may change. */
  lemma RootMayChange(h: Heap, h': Heap, root: Addr, node: Node, own: set<Addr>, foot: set<Addr>)
    requires root in h && Grew(h, h', {root} + own, {root} + foot)
    ensures Grew(h, h'[root := node], {root} + own, {root} + foot)
  {
  }

  lemma NothingGrew(h: Heap, own: set<Addr>)
    requires own <= h.Keys
    ensures Grew(h, h, own, own)
  {
  }

  lemma {:induction false} AddressesAreBounded(s: set<Addr>) returns (bound: Addr)
    ensures forall a :: a in s ==> a < bound
  {
    if s == {} {
      bound := 0;
    } else {
      var x :| x in s;
      var b := AddressesAreBounded(s - {x});
      bound := if b > x then b else x + 1;
      assert forall a :: a in s ==> a == x || a in s - {x};
    }
  }
}
