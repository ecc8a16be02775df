/** From a line of input to commands: readInput, tokenise and parseInput put together. */
module Shell {
  import opened Options
  import opened Ast
  import opened Grammar
  import opened CStrings
  import opened DynamicByteArray
  import opened LineInput
  import opened Tokeniser
  import opened ParserHeap
  import opened Parser
  import opened AstReader

  /** The text as a C string: a NUL in the line hides what follows it. */
  function Visible(text: string): string {
    text[..StringLength(text)]
  }

  /** The tokens of the first line of a stream. */
  function ReadTokens(stream: string): Option<Tokens> {
    match ReadLine(stream)
    case None => None
    case Some((text, _)) => Some(Split(Visible(text)))
  }

  /** readInput and tokenise together: the pointers are to the tokens of the line, if the array of
      pointers can be grown to hold them and NULL. */
  method ReadAndTokenise(stream: string, room: nat) returns (buffer: array<char>, pointers: Option<seq<Option<nat>>>)
    requires ReadLine(stream).Some?
    ensures pointers.Some? <==> |ReadTokens(stream).value| + 1 <= room
    ensures pointers.Some? ==> PointsTo(buffer[..], pointers.value, ReadTokens(stream).value)
  {
    var arr, _ := ReadInput(stream);
    buffer := arr.elements;
    ghost var text := ReadLine(stream).value.0;
    TextIsBuffer(buffer[..], arr.count);
    BufferShowsText(buffer[..], text);
    pointers := Tokenise(buffer, room, StringLength(text));
  }

  /** What the parser sees through the pointers: the C strings in the buffer, up to the NULL. */
  function Words(buffer: seq<char>, pointers: seq<Option<nat>>): seq<string> {
    if pointers == [] || pointers[0].None? || pointers[0].value > |buffer| then []
    else
      var tail := buffer[pointers[0].value..];
      [tail[..StringLength(tail)]] + Words(buffer, pointers[1..])
  }

  lemma {:induction false} WordsAreShown(buffer: seq<char>, pointers: seq<Option<nat>>, words: seq<string>)
    requires PointsTo(buffer, pointers, words)
    ensures Words(buffer, pointers) == words
    decreases |words|
  {
    if words != [] {
      StringIsShown(buffer, pointers[0].value, words[0]);
      assert PointsTo(buffer, pointers[1..], words[1..]);
      WordsAreShown(buffer, pointers[1..], words[1..]);
      assert words == [words[0]] + words[1..];
    }
  }

  lemma StringIsShown(buffer: seq<char>, p: nat, w: string)
    requires IsStringAt(buffer, p, w)
    ensures StringLength(buffer[p..]) == |w| && buffer[p..][..|w|] == w
  {
    var tail := buffer[p..];
    assert tail[..|w|] == w;
    assert forall i :: 0 <= i < |w| ==> tail[i] == w[i];
    assert tail[|w|] == NUL;
  }

  /** parseInput on a new list: accepted exactly if the words are a sentence, and then following
      the pointers from the root one reads its commands. */
  method ParseWords(words: seq<string>, heap: Heap)
    returns (ok: bool, parser: Parser, root: Addr, ghost cs: seq<CommandShape>, ghost ampersand: bool)
    ensures ok == ParseTokens(words).Some?
    ensures IsSimpleList(parser.heap, root, cs, ampersand)
    ensures parser.heap.Keys == heap.Keys + {root} + CommandFoot(cs)
    ensures ok ==> HoldsCommands(cs, ParseTokens(words).value.commands)
    ensures ok ==> ampersand == ParseTokens(words).value.ampersand
    ensures ok ==> ReadsList(parser.heap, root, ParseTokens(words).value)
  {
    parser := new Parser(words, heap);
    ghost var empty;
    root, empty := parser.MakeNewSimpleList();
    ok, cs, ampersand := parser.ParseInput(root, empty);
    if ok {
      ListIsRead(parser.heap, root, cs, ParseTokens(words).value);
    }
  }

  /** From a line to the AST in the heap: readInput, tokenise and parseInput one after the other.
      The line is accepted exactly if ReadCommands has commands for it, and these are read back from
      the AST. */
  method ReadAndParse(stream: string, room: nat, heap: Heap)
    returns (parsed: Option<bool>, parser: Parser, root: Addr, ghost cs: seq<CommandShape>, ghost ampersand: bool)
    requires ReadLine(stream).Some?
    ensures parsed.Some? <==> |ReadTokens(stream).value| + 1 <= room
    ensures parsed.Some? ==> parsed.value == ReadCommands(stream).Some?
    ensures parsed.Some? ==> IsSimpleList(parser.heap, root, cs, ampersand)
    ensures parsed.Some? ==> parser.heap.Keys == heap.Keys + {root} + CommandFoot(cs)
    ensures parsed == Some(true) ==> HoldsCommands(cs, ReadCommands(stream).value.commands)
    ensures parsed == Some(true) ==> ampersand == ReadCommands(stream).value.ampersand
    ensures parsed == Some(true) ==> ReadsList(parser.heap, root, ReadCommands(stream).value)
    ensures parsed.None? ==> parser.heap == heap
  {
    var buffer, pointers := ReadAndTokenise(stream, room);
    cs, ampersand, root := [], false, 0;
    if pointers.None? {
      parser := new Parser([], heap);
      return None, parser, root, cs, ampersand;
    }
    WordsAreShown(buffer[..], pointers.value, ReadTokens(stream).value);
    var ok;
    ok, parser, root, cs, ampersand := ParseWords(Words(buffer[..], pointers.value), heap);
    return Some(ok), parser, root, cs, ampersand;
  }

  lemma BufferShowsText(buffer: seq<char>, text: string)
    requires |text| < |buffer| && buffer[..|text| + 1] == text + [NUL]
    ensures IsTerminated(buffer, 0, StringLength(text))
    ensures buffer[..StringLength(text)] == Visible(text)
  {
    assert forall i :: 0 <= i <= |text| ==> buffer[i] == buffer[..|text| + 1][i] == (text + [NUL])[i];
  }

  /** The commands of the first line of a stream. */
  function ReadCommands(stream: string): Option<SimpleList> {
    match ReadTokens(stream)
    case None => None
    case Some(tokens) => ParseTokens(tokens)
  }

  // ----- what can be written on a line

  /** A non-empty string without space, backslash, newline and NUL. */
  predicate IsPlain(t: string) {
    t != [] && forall i :: 0 <= i < |t| ==> t[i] != ' ' && t[i] != '\\' && t[i] != '\n' && t[i] != NUL
  }

  predicate AllPlain(ts: Tokens) {
    forall i :: 0 <= i < |ts| ==> IsPlain(ts[i])
  }

  predicate HasNoEmptyWord(c: Command) {
    forall i :: 0 <= i < |c| ==> c[i].word != []
  }

  predicate NoEmptyWords(l: SimpleList) {
    forall i :: 0 <= i < |l.commands| ==> HasNoEmptyWord(l.commands[i])
  }

  lemma {:induction false} CommandIsPlain(c: Command)
    requires WellFormedElements(c) && HasNoEmptyWord(c)
    ensures AllPlain(FlattenCommand(c))
  {
    if c != [] {
      CommandIsPlain(c[1..]);
      assert IsWord(c[0].word);
      assert AllPlain(FlattenElement(c[0]));
    }
  }

  lemma {:induction false} PipelineIsPlain(cs: seq<Command>)
    requires WellFormedPipeline(cs) && forall i :: 0 <= i < |cs| ==> HasNoEmptyWord(cs[i])
    ensures AllPlain(FlattenPipeline(cs))
  {
    CommandIsPlain(cs[0]);
    if |cs| > 1 {
      PipelineIsPlain(cs[1..]);
      assert IsPlain("|");
    }
  }

  lemma FlattenIsPlain(l: SimpleList)
    requires WellFormed(l) && NoEmptyWords(l)
    ensures AllPlain(Flatten(l))
  {
    PipelineIsPlain(l.commands);
    assert IsPlain("&");
  }

  lemma {:induction false} JoinIsOneLine(ts: Tokens)
    requires AllPlain(ts)
    ensures '\\' !in Join(ts) && '\n' !in Join(ts) && NUL !in Join(ts)
  {
    if ts != [] {
      assert IsPlain(ts[0]);
      if |ts| > 1 {
        JoinIsOneLine(ts[1..]);
      }
    }
  }

  // ----- round trips

  /** Commands written on a line, with a space between every two tokens, are read back. */
  lemma WrittenCommandsAreRead(l: SimpleList, rest: string)
    requires WellFormed(l) && NoEmptyWords(l)
    ensures ReadCommands(Join(Flatten(l)) + "\n" + rest) == Some(l)
  {
    FlattenIsPlain(l);
    JoinIsOneLine(Flatten(l));
    PlainLine(Join(Flatten(l)), rest);
    assert Visible(Join(Flatten(l))) == Join(Flatten(l));
    PlainTokensAreTokens(Flatten(l));
    SplitJoin(Flatten(l));
    ParseIsInverseOfFlatten(Flatten(l), l);
  }

  lemma PlainTokensAreTokens(ts: Tokens)
    requires AllPlain(ts)
    ensures forall i :: 0 <= i < |ts| ==> IsToken(ts[i])
  {
    forall i | 0 <= i < |ts|
      ensures IsToken(ts[i])
    {
      assert IsPlain(ts[i]);
    }
  }

  /** A continuation put into a line whose only backslashes are continuations, but not into one of
      them, changes neither the tokens nor the commands. */
  lemma ContinuationKeepsMeaning(stream: string, k: nat)
    requires ReadLine(stream).Some? && OnlyContinuations(stream) && k <= LineEnd(stream)
    requires k == 0 || stream[k - 1] != '\\'
    ensures ReadTokens(Insert(stream, k)) == ReadTokens(stream)
    ensures ReadCommands(Insert(stream, k)) == ReadCommands(stream)
  {
    ContinuationAnywhere(stream, k);
  }

  /** In particular, a written line may be broken at any place, inside words too. */
  lemma BrokenLineIsRead(l: SimpleList, rest: string, k: nat)
    requires WellFormed(l) && NoEmptyWords(l) && k <= |Join(Flatten(l))|
    ensures ReadCommands(Insert(Join(Flatten(l)) + "\n" + rest, k)) == Some(l)
  {
    var line := Join(Flatten(l));
    var stream := line + "\n" + rest;
    FlattenIsPlain(l);
    JoinIsOneLine(Flatten(l));
    PlainLine(line, rest);
    LineEndsAtNewline(line, rest);
    assert k > 0 ==> stream[k - 1] == line[k - 1];
    ContinuationKeepsMeaning(stream, k);
    WrittenCommandsAreRead(l, rest);
  }

  lemma {:induction false} LineEndsAtNewline(text: string, rest: string)
    requires '\\' !in text && '\n' !in text
    ensures ReadLine(text + "\n" + rest).Some? && LineEnd(text + "\n" + rest) == |text|
  {
    PlainLine(text, rest);
    var s := text + "\n" + rest;
    if text != [] {
      LineEndsAtNewline(text[1..], rest);
      assert s[1..] == text[1..] + "\n" + rest;
    }
  }

  // ----- the empty word

  lemma {:induction false} CommandWordIsToken(c: Command, i: nat)
    requires i < |c|
    ensures c[i].word in FlattenCommand(c)
  {
    if i == 0 {
      assert c[0].word in FlattenElement(c[0]);
    } else {
      CommandWordIsToken(c[1..], i - 1);
    }
  }

  lemma {:induction false} PipelineWordIsToken(cs: seq<Command>, k: nat, i: nat)
    requires k < |cs| && i < |cs[k]|
    ensures cs[k][i].word in FlattenPipeline(cs)
  {
    if k == 0 {
      CommandWordIsToken(cs[0], i);
    } else {
      PipelineWordIsToken(cs[1..], k - 1, i);
    }
  }

  /** parseWord accepts the empty string, but no line of input ever gives it one: the commands
      that can be read are exactly the well-formed ones without empty words whose tokens are on
      the line. */
  lemma ReadCommandsExactly(stream: string, l: SimpleList)
    ensures ReadCommands(stream) == Some(l)
            <==> WellFormed(l) && NoEmptyWords(l) && ReadTokens(stream) == Some(Flatten(l))
  {
    if ReadTokens(stream).Some? {
      var tokens := ReadTokens(stream).value;
      ParseIsInverseOfFlatten(tokens, l);
      if Flatten(l) == tokens {
        SplitYieldsTokens(Visible(ReadLine(stream).value.0));
        forall k, i | 0 <= k < |l.commands| && 0 <= i < |l.commands[k]|
          ensures l.commands[k][i].word != []
        {
          PipelineWordIsToken(l.commands, k, i);
          assert l.commands[k][i].word in Flatten(l);
        }
      }
    }
  }
}
