/** The commands of Lab2/iwish, as values, and the token sequences they stand for. */
module Ast {
  datatype Element = Word(word: string) | Redirect(input: bool, word: string)

  type Command = seq<Element>

  datatype SimpleList = SimpleList(commands: seq<Command>, ampersand: bool)

  /** parseLetter: letters and - . / _ at any position, and nothing else. */
  predicate IsLetter(c: char) {
    'a' <= c <= 'z' || 'A' <= c <= 'Z' || c in {'-', '.', '/', '_'}
  }

  predicate IsWord(s: string) {
    forall i :: 0 <= i < |s| ==> IsLetter(s[i])
  }

  predicate WellFormedElements(es: seq<Element>) {
    forall i :: 0 <= i < |es| ==> IsWord(es[i].word)
  }

  /** Every command starts with a word. */
  predicate WellFormedCommand(c: Command) {
    |c| > 0 && c[0].Word? && WellFormedElements(c)
  }

  predicate WellFormedPipeline(cs: seq<Command>) {
    |cs| > 0 && forall i :: 0 <= i < |cs| ==> WellFormedCommand(cs[i])
  }

  predicate WellFormed(l: SimpleList) {
    WellFormedPipeline(l.commands)
  }

  function Operator(input: bool): string {
    if input then "<" else ">"
  }

  function FlattenElement(e: Element): seq<string> {
    match e
    case Word(w) => [w]
    case Redirect(input, w) => [Operator(input), w]
  }

  function FlattenCommand(c: Command): seq<string> {
    if c == [] then [] else FlattenElement(c[0]) + FlattenCommand(c[1..])
  }

  function FlattenPipeline(cs: seq<Command>): seq<string> {
    if cs == [] then []
    else if |cs| == 1 then FlattenCommand(cs[0])
    else FlattenCommand(cs[0]) + ["|"] + FlattenPipeline(cs[1..])
  }

  /** The sentence of a list: W E* ('|' W E*)* ['&'], with E a word or an operator and a word. */
  function Flatten(l: SimpleList): seq<string> {
    FlattenPipeline(l.commands) + if l.ampersand then ["&"] else []
  }

  /** The operators are no words, so a sentence can be read in one way only. */
  lemma OperatorsAreNotWords()
    ensures !IsWord("|") && !IsWord("&") && !IsWord("<") && !IsWord(">")
  {
    assert !IsLetter("|"[0]) && !IsLetter("&"[0]) && !IsLetter("<"[0]) && !IsLetter(">"[0]);
  }

  /** The 56 characters of words, one by one. */
  lemma LettersAre(c: char)
    ensures IsLetter(c) <==> c in {
      'a', 'b', 'c', 'd', 'e', 'f', 'g', 'h', 'i', 'j', 'k', 'l', 'm',
      'n', 'o', 'p', 'q', 'r', 's', 't', 'u', 'v', 'w', 'x', 'y', 'z',
      'A', 'B', 'C', 'D', 'E', 'F', 'G', 'H', 'I', 'J', 'K', 'L', 'M',
      'N', 'O', 'P', 'Q', 'R', 'S', 'T', 'U', 'V', 'W', 'X', 'Y', 'Z',
      '-', '.', '/', '_'}
  {
  }

  /** A path is a word, and so is nothing at all; a name with a digit is none. */
  lemma SomeWords()
    ensures IsWord("") && IsWord("/bin/ls") && IsWord("-l") && IsWord("..") && IsWord("a_B")
    ensures !IsWord("a1") && !IsWord("$x") && !IsWord("a b")
  {
    assert !IsLetter("a1"[1]) && !IsLetter("$x"[0]) && !IsLetter("a b"[1]);
  }
}
