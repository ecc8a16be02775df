/** The recursive descent of Lab2/iwish/src/parser.c on values: what each parse function recognises
    at the front of the remaining tokens. The parser itself, with its cursor and its heap, is in
    module Parser and refines these functions. */
module Grammar {
  import opened Options
  import opened Ast

  type Tokens = seq<string>

  /** parseSimpleCommandElement */
  function ElementOf(s: Tokens): (r: Option<Element>)
    ensures r.Some? ==> FlattenElement(r.value) <= s && IsWord(r.value.word)
  {
    if s == [] then None
    else if IsWord(s[0]) then Some(Word(s[0]))
    else if (s[0] == "<" || s[0] == ">") && |s| > 1 && IsWord(s[1]) then Some(Redirect(s[0] == "<", s[1]))
    else None
  }

  lemma Associative(a: Tokens, b: Tokens, c: Tokens)
    ensures a + b + c == a + (b + c)
  {
  }

  lemma FlattenPrepends(e: Element, es: Command)
    ensures FlattenCommand([e] + es) == FlattenElement(e) + FlattenCommand(es)
  {
    assert ([e] + es)[1..] == es;
  }

  /** The tokens behind the element at the front. */
  function AfterElement(s: Tokens): (rest: Tokens)
    requires ElementOf(s).Some?
    ensures s == FlattenElement(ElementOf(s).value) + rest && |rest| < |s|
  {
    s[|FlattenElement(ElementOf(s).value)|..]
  }

  /** parseSimpleCommand, which takes as many elements as it can, and what is left after them. */
  function CommandOf(s: Tokens): (r: (Command, Tokens))
    ensures FlattenCommand(r.0) + r.1 == s
    ensures WellFormedElements(r.0)
    decreases |s|
  {
    if ElementOf(s).None? then ([], s)
    else
      var (es, rest) := CommandOf(AfterElement(s));
      FlattenPrepends(ElementOf(s).value, es);
      Associative(FlattenElement(ElementOf(s).value), FlattenCommand(es), rest);
      ([ElementOf(s).value] + es, rest)
  }

  /** How a command that starts with an element is read. */
  lemma CommandStep(s: Tokens)
    requires ElementOf(s).Some?
    ensures CommandOf(s) == ([ElementOf(s).value] + CommandOf(AfterElement(s)).0, CommandOf(AfterElement(s)).1)
  {
  }

  lemma PipelinePrepends(c: Command, cs: seq<Command>)
    requires WellFormedCommand(c) && WellFormedPipeline(cs)
    ensures WellFormedPipeline([c] + cs)
    ensures FlattenPipeline([c] + cs) == FlattenCommand(c) + ["|"] + FlattenPipeline(cs)
  {
    assert ([c] + cs)[1..] == cs;
  }

  /** What follows the bar at the front, if a pipeline does. */
  function AfterBar(s: Tokens): (r: Option<(seq<Command>, Tokens)>)
    ensures r.Some? ==> s != [] && WellFormedPipeline(r.value.0) && ["|"] + FlattenPipeline(r.value.0) + r.value.1 == s
    decreases |s|, 0
  {
    if s == [] || s[0] != "|" then None else PipelineOf(s[1..])
  }

  /** parsePipeLine and parsePipeLine2: a bar that no pipeline follows is left unread. */
  function PipelineOf(s: Tokens): (r: Option<(seq<Command>, Tokens)>)
    ensures r.Some? ==> WellFormedPipeline(r.value.0) && FlattenPipeline(r.value.0) + r.value.1 == s
    decreases |s|, 1
  {
    if s == [] || !IsWord(s[0]) then None
    else
      CommandShrinks(s);
      var (c, rest) := CommandOf(s);
      var tail := AfterBar(rest);
      if tail.None? then Some(([c], rest))
      else
        PipelinePrepends(c, tail.value.0);
        Associative(FlattenCommand(c), ["|"] + FlattenPipeline(tail.value.0), tail.value.1);
        Associative(FlattenCommand(c), ["|"], FlattenPipeline(tail.value.0));
        Some(([c] + tail.value.0, tail.value.1))
  }

  /** How a pipeline that starts with a word is read. */
  lemma PipelineStep(s: Tokens)
    requires s != [] && IsWord(s[0])
    ensures WellFormedCommand(CommandOf(s).0) && ElementOf(s).Some? && |CommandOf(s).1| < |s|
    ensures var (c, rest) := CommandOf(s);
            var tail := AfterBar(rest);
            PipelineOf(s) == if tail.None? then Some(([c], rest)) else Some(([c] + tail.value.0, tail.value.1))
  {
    CommandShrinks(s);
  }

  lemma CommandShrinks(s: Tokens)
    requires s != [] && IsWord(s[0])
    ensures WellFormedCommand(CommandOf(s).0) && |CommandOf(s).1| < |s|
  {
    var r := CommandOf(AfterElement(s));
    assert FlattenCommand(r.0) + r.1 == AfterElement(s);
  }

  /** parseInput */
  function ParseTokens(s: Tokens): Option<SimpleList> {
    var p := PipelineOf(s);
    if p.None? then None
    else
      var (cs, rest) := p.value;
      var ampersand := rest != [] && rest[0] == "&";
      if (if ampersand then rest[1..] else rest) == [] then Some(SimpleList(cs, ampersand)) else None
  }

  // ----- completeness

  /** What can follow a command in a sentence. */
  predicate EndsCommand(rest: Tokens) {
    rest == [] || rest[0] == "|" || rest[0] == "&"
  }

  lemma ElementIsRead(e: Element, rest: Tokens)
    requires IsWord(e.word)
    ensures ElementOf(FlattenElement(e) + rest) == Some(e)
    ensures AfterElement(FlattenElement(e) + rest) == rest
  {
    OperatorsAreNotWords();
  }

  lemma {:induction false} CommandIsRead(c: Command, rest: Tokens)
    requires WellFormedElements(c) && EndsCommand(rest)
    ensures CommandOf(FlattenCommand(c) + rest) == (c, rest)
  {
    if c == [] {
      OperatorsAreNotWords();
      assert FlattenCommand(c) + rest == rest;
    } else {
      CommandIsRead(c[1..], rest);
      var behind := FlattenCommand(c[1..]) + rest;
      Associative(FlattenElement(c[0]), FlattenCommand(c[1..]), rest);
      ElementIsRead(c[0], behind);
      assert CommandOf(FlattenElement(c[0]) + behind) == ([c[0]] + c[1..], rest);
      assert c == [c[0]] + c[1..];
    }
  }

  lemma {:induction false} PipelineIsRead(cs: seq<Command>, rest: Tokens)
    requires WellFormedPipeline(cs) && (rest == [] || rest[0] == "&")
    ensures PipelineOf(FlattenPipeline(cs) + rest) == Some((cs, rest))
  {
    assert WellFormedCommand(cs[0]);
    if |cs| == 1 {
      FlattenStartsWithWord(cs[0], rest);
      CommandIsRead(cs[0], rest);
      assert [cs[0]] == cs;
    } else {
      var flat, behind := FlattenPipeline(cs[1..]), FlattenPipeline(cs[1..]) + rest;
      var tail := ["|"] + behind;
      Associative(FlattenCommand(cs[0]) + ["|"], flat, rest);
      Associative(FlattenCommand(cs[0]), ["|"], behind);
      FlattenStartsWithWord(cs[0], tail);
      CommandIsRead(cs[0], tail);
      PipelineIsRead(cs[1..], rest);
      PipelineStep(FlattenCommand(cs[0]) + tail);
      assert tail[1..] == behind && AfterBar(tail) == Some((cs[1..], rest));
      assert [cs[0]] + cs[1..] == cs;
    }
  }

  lemma FlattenStartsWithWord(c: Command, rest: Tokens)
    requires WellFormedCommand(c)
    ensures FlattenCommand(c) + rest != [] && IsWord((FlattenCommand(c) + rest)[0])
  {
    assert FlattenCommand(c)[0] == c[0].word;
  }

  /** Parsing and flattening undo each other: the parser accepts exactly the sentences of the
      grammar and returns the one list that a sentence stands for. */
  lemma ParseIsInverseOfFlatten(s: Tokens, l: SimpleList)
    ensures ParseTokens(s) == Some(l) <==> WellFormed(l) && Flatten(l) == s
  {
    if WellFormed(l) && Flatten(l) == s {
      PipelineIsRead(l.commands, if l.ampersand then ["&"] else []);
    }
    if ParseTokens(s) == Some(l) {
      var (cs, rest) := PipelineOf(s).value;
      assert rest == if l.ampersand then ["&"] else [];
    }
  }

  /** The accepted language, without mention of a tree. */
  lemma AcceptedLanguage(s: Tokens)
    ensures ParseTokens(s).Some? <==> exists l :: WellFormed(l) && Flatten(l) == s
  {
    if ParseTokens(s).Some? {
      ParseIsInverseOfFlatten(s, ParseTokens(s).value);
    }
    if l :| WellFormed(l) && Flatten(l) == s {
      ParseIsInverseOfFlatten(s, l);
    }
  }

  /** No sentence stands for two lists. */
  lemma FlattenIsInjective(a: SimpleList, b: SimpleList)
    requires WellFormed(a) && WellFormed(b) && Flatten(a) == Flatten(b)
    ensures a == b
  {
    ParseIsInverseOfFlatten(Flatten(a), a);
    ParseIsInverseOfFlatten(Flatten(a), b);
  }

  // ----- the language, token by token

  /** What may stand at position i: a word; a redirection operator or a bar if a word follows; an
      ampersand if nothing follows. */
  predicate FitsAt(s: Tokens, i: nat)
    requires i < |s|
  {
    || IsWord(s[i])
    || (s[i] in {"<", ">", "|"} && i + 1 < |s| && IsWord(s[i + 1]))
    || (s[i] == "&" && i + 1 == |s|)
  }

  predicate Fits(s: Tokens) {
    forall i :: 0 <= i < |s| ==> FitsAt(s, i)
  }

  lemma FitsFromFront(s: Tokens)
    requires s != []
    ensures Fits(s) <==> FitsAt(s, 0) && Fits(s[1..])
  {
    var rest := s[1..];
    assert forall i :: 0 <= i < |rest| ==> rest[i] == s[i + 1];
    assert forall i :: 0 <= i < |rest| ==> (FitsAt(rest, i) <==> FitsAt(s, i + 1));
    if FitsAt(s, 0) && Fits(rest) {
      forall i | 0 <= i < |s|
        ensures FitsAt(s, i)
      {
        assert i > 0 ==> FitsAt(rest, i - 1);
      }
    }
  }

  /** Reading an element or a bar that a word follows leaves the rest to fit or not. */
  lemma ElementFits(s: Tokens)
    requires ElementOf(s).Some?
    ensures Fits(s) <==> Fits(AfterElement(s))
  {
    FitsFromFront(s);
    if !IsWord(s[0]) {
      FitsFromFront(s[1..]);
      assert s[1..][1..] == s[2..];
    }
  }

  lemma {:induction false} CommandFits(s: Tokens)
    ensures Fits(s) <==> Fits(CommandOf(s).1)
    ensures ElementOf(CommandOf(s).1).None?
    decreases |s|
  {
    if ElementOf(s).Some? {
      ElementFits(s);
      CommandFits(AfterElement(s));
    }
  }

  /** What a pipeline leaves unread fits only if it is nothing or a last ampersand. */
  lemma {:induction false} PipelineFits(s: Tokens)
    requires s != [] && IsWord(s[0])
    ensures PipelineOf(s).Some?
    ensures var rest := PipelineOf(s).value.1;
            Fits(s) <==> rest == [] || rest == ["&"]
    decreases |s|
  {
    OperatorsAreNotWords();
    PipelineStep(s);
    CommandFits(s);
    var rest := CommandOf(s).1;
    if rest != [] {
      FitsFromFront(rest);
      if rest[0] == "|" && |rest| > 1 && IsWord(rest[1]) {
        PipelineFits(rest[1..]);
      }
    }
  }

  /** The accepted token lists, without a grammar: the first token is a word, and every token fits
      in with the one behind it. */
  lemma AcceptedTokens(s: Tokens)
    ensures ParseTokens(s).Some? <==> s != [] && IsWord(s[0]) && Fits(s)
  {
    if s != [] && IsWord(s[0]) {
      PipelineFits(s);
    }
  }

  /** A sentence and its list. */
  lemma ExampleSentence()
    ensures ParseTokens(["cat", "<", "in", "|", "wc", "-l", ">", "out", "&"])
         == Some(SimpleList([[Word("cat"), Redirect(true, "in")],
                             [Word("wc"), Word("-l"), Redirect(false, "out")]], true))
  {
    var s := ["cat", "<", "in", "|", "wc", "-l", ">", "out", "&"];
    var c, d := [Word("cat"), Redirect(true, "in")], [Word("wc"), Word("-l"), Redirect(false, "out")];
    var l := SimpleList([c, d], true);
    assert IsWord("cat") && IsWord("in") && IsWord("wc") && IsWord("-l") && IsWord("out");
    assert WellFormedCommand(c) && WellFormedCommand(d) && WellFormed(l);
    assert c[1..] == [c[1]] && c[1..][1..] == [] && FlattenCommand(c[1..]) == ["<", "in"];
    assert FlattenCommand(c) == ["cat", "<", "in"];
    assert d[2..] == [d[2]] && d[2..][1..] == [] && FlattenCommand(d[2..]) == [">", "out"];
    assert d[1..] == [d[1], d[2]] && d[1..][1..] == d[2..] && FlattenCommand(d[1..]) == ["-l", ">", "out"];
    assert FlattenCommand(d) == ["wc", "-l", ">", "out"];
    assert l.commands[1..] == [d] && FlattenPipeline([d]) == FlattenCommand(d);
    assert FlattenPipeline(l.commands) == FlattenCommand(c) + ["|"] + FlattenCommand(d);
    assert Flatten(l) == s;
    ParseIsInverseOfFlatten(s, l);
  }
}
