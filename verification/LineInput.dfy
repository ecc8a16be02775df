/** readInput of Lab2/iwish/src/iwish.c: reads a line and drops backslash-newline pairs. */
module LineInput {
  import opened Options
  import opened DynamicByteArray

  const CONTINUATION: string := "\\\n"

  /** What readInput makes of a stream: the text and the rest of the stream, or None when the
      stream ends first (the source then keeps reading end-of-file for ever). A backslash before
      any other character x comes out as backslash, x, backslash. */
  function ReadLine(s: string): Option<(string, string)> {
    if s == [] then None
    else if s[0] == '\n' then Some(("", s[1..]))
    else if s[0] == '\\' then
      if |s| == 1 then None
      else if s[1] == '\n' then ReadLine(s[2..])
      else Prepend(['\\', s[1], '\\'], ReadLine(s[2..]))
    else Prepend([s[0]], ReadLine(s[1..]))
  }

  function Prepend(head: string, r: Option<(string, string)>): Option<(string, string)> {
    if r.None? then None else Some((head + r.value.0, r.value.1))
  }

  lemma PrependTwice(a: string, b: string, r: Option<(string, string)>)
    ensures Prepend(a, Prepend(b, r)) == Prepend(a + b, r)
    ensures Prepend([], r) == r
  {
    if r.Some? {
      assert a + (b + r.value.0) == a + b + r.value.0;
      assert [] + r.value.0 == r.value.0;
    }
  }

  /** What the source's comment promises: backslash-newline is skipped, all else is kept. */
  function Intended(s: string): Option<(string, string)> {
    if s == [] then None
    else if s[0] == '\n' then Some(("", s[1..]))
    else if s[0] == '\\' then
      if |s| == 1 then None
      else if s[1] == '\n' then Intended(s[2..])
      else Prepend(s[..2], Intended(s[2..]))
    else Prepend([s[0]], Intended(s[1..]))
  }

  /** Every backslash of the line is the first half of a continuation. */
  predicate OnlyContinuations(s: string) {
    if s == [] || s[0] == '\n' then true
    else if s[0] == '\\' then |s| > 1 && s[1] == '\n' && OnlyContinuations(s[2..])
    else OnlyContinuations(s[1..])
  }

  /** The reader does what its comment promises exactly on lines whose only backslashes are
      continuations. */
  lemma {:induction false} ReadsAsIntended(s: string)
    requires ReadLine(s).Some?
    ensures Intended(s).Some? && |Intended(s).value.0| <= |ReadLine(s).value.0|
    ensures ReadLine(s) == Intended(s) <==> OnlyContinuations(s)
    ensures !OnlyContinuations(s) ==> |Intended(s).value.0| < |ReadLine(s).value.0|
  {
    if s[0] == '\n' {
    } else if s[0] == '\\' {
      ReadsAsIntended(s[2..]);
    } else {
      ReadsAsIntended(s[1..]);
    }
  }

  /** A line that is not read as intended: the backslash of the escape comes out twice. */
  lemma EscapeRepeatsBackslash()
    ensures ReadLine("a\\b\n") == Some(("a\\b\\", "")) && Intended("a\\b\n") == Some(("a\\b", ""))
  {
    var s, t := "a\\b\n", "\\b\n";
    assert s[1..] == t && t[2..] == "\n" && t[..2] == "\\b" && "\n"[1..] == "";
    assert ReadLine(t[2..]) == Some(("", "")) && Intended(t[2..]) == Some(("", ""));
    assert ['\\', 'b', '\\'] + "" == "\\b\\" && "\\b" + "" == "\\b";
    assert ReadLine(t) == Some(("\\b\\", "")) && Intended(t) == Some(("\\b", ""));
    assert ['a'] + "\\b\\" == "a\\b\\" && ['a'] + "\\b" == "a\\b";
    assert ReadLine(s[1..]) == Some(("\\b\\", "")) && Intended(s[1..]) == Some(("\\b", ""));
  }

  /** A continuation inside a continuation: the line ends early, with three backslashes in it. */
  lemma SplitContinuationIsRead()
    ensures ReadLine("\\\na\n") == Some(("a", ""))
    ensures Insert("\\\na\n", 1) == "\\\\\n\na\n"
    ensures ReadLine("\\\\\n\na\n") == Some(("\\\\\\", "\na\n"))
  {
    var s, t := "\\\na\n", "\\\\\n\na\n";
    assert s[..1] + CONTINUATION + s[1..] == t;
    var u := s[2..];
    assert u == "a\n" && u[1..] == "\n" && "\n"[1..] == "" && ['a'] + "" == "a";
    assert ReadLine(u[1..]) == Some(("", ""));
    assert ReadLine(u) == Some(("a", ""));
    var v := t[2..];
    assert v == "\n\na\n" && v[1..] == "\na\n" && ['\\', '\\', '\\'] + "" == "\\\\\\";
    assert ReadLine(v) == Some(("", "\na\n"));
  }

  // ----- continuations can be put anywhere

  function Insert(s: string, k: nat): string
    requires k <= |s|
  {
    s[..k] + CONTINUATION + s[k..]
  }

  /** The reader comes to a halt between two characters at k, before the end of the line. */
  predicate ReadsUpTo(s: string, k: nat)
    requires k <= |s|
  {
    if k == 0 then true
    else if s[0] == '\n' then false
    else if s[0] == '\\' then k >= 2 && ReadsUpTo(s[2..], k - 2)
    else ReadsUpTo(s[1..], k - 1)
  }

  /** On any stream, a continuation where the reader is between two reads changes nothing. */
  lemma {:induction false} ContinuationIsSkipped(s: string, k: nat)
    requires k <= |s| && ReadsUpTo(s, k)
    ensures ReadLine(Insert(s, k)) == ReadLine(s)
  {
    if k == 0 {
      assert Insert(s, 0)[2..] == s;
    } else {
      var n := if s[0] == '\\' then 2 else 1;
      ContinuationIsSkipped(s[n..], k - n);
      assert Insert(s, k)[n..] == Insert(s[n..], k - n);
    }
  }

  /** The position of the newline that ends the line. */
  function LineEnd(s: string): (k: nat)
    requires ReadLine(s).Some?
    ensures k < |s| && s[k] == '\n'
  {
    if s[0] == '\n' then 0
    else if s[0] == '\\' then 2 + LineEnd(s[2..])
    else 1 + LineEnd(s[1..])
  }

  lemma {:induction false} NoBackslashRemains(s: string)
    requires ReadLine(s).Some? && OnlyContinuations(s)
    ensures '\\' !in ReadLine(s).value.0
  {
    if s[0] == '\n' {
    } else if s[0] == '\\' {
      NoBackslashRemains(s[2..]);
    } else {
      NoBackslashRemains(s[1..]);
    }
  }

  /** Splitting a continuation shows: the text then contains backslashes. */
  lemma {:induction false} SplitContinuationShows(s: string, k: nat)
    requires ReadLine(s).Some? && OnlyContinuations(s) && 0 < k <= LineEnd(s) && s[k - 1] == '\\'
    ensures var r := ReadLine(Insert(s, k)); r.Some? && '\\' in r.value.0
  {
    var t := Insert(s, k);
    if s[0] == '\\' {
      if k == 1 {
        assert t[..4] == ['\\', '\\', '\n', '\n'];
        assert t[2..][0] == '\n';
      } else {
        SplitContinuationShows(s[2..], k - 2);
        assert t[2..] == Insert(s[2..], k - 2);
      }
    } else {
      SplitContinuationShows(s[1..], k - 1);
      assert t[1..] == Insert(s[1..], k - 1);
    }
  }

  lemma {:induction false} CleanLineReadsUpTo(s: string, k: nat)
    requires ReadLine(s).Some? && OnlyContinuations(s) && k <= LineEnd(s)
    requires k == 0 || s[k - 1] != '\\'
    ensures ReadsUpTo(s, k)
  {
    if k > 0 {
      var n := if s[0] == '\\' then 2 else 1;
      CleanLineReadsUpTo(s[n..], k - n);
    }
  }

  /** In a line whose only backslashes are continuations, a further continuation can be put at
      any place but one: between the two characters of another continuation. */
  lemma ContinuationAnywhere(s: string, k: nat)
    requires ReadLine(s).Some? && OnlyContinuations(s) && k <= LineEnd(s)
    ensures ReadLine(Insert(s, k)) == ReadLine(s) <==> k == 0 || s[k - 1] != '\\'
  {
    if k == 0 || s[k - 1] != '\\' {
      CleanLineReadsUpTo(s, k);
      ContinuationIsSkipped(s, k);
    } else {
      SplitContinuationShows(s, k);
      NoBackslashRemains(s);
    }
  }

  /** A line without backslashes is read as it is. */
  lemma {:induction false} PlainLine(text: string, rest: string)
    requires '\\' !in text && '\n' !in text
    ensures ReadLine(text + "\n" + rest) == Some((text, rest))
    ensures OnlyContinuations(text + "\n" + rest)
  {
    var s := text + "\n" + rest;
    if text == [] {
      assert s == "\n" + rest;
    } else {
      PlainLine(text[1..], rest);
      assert s[1..] == text[1..] + "\n" + rest;
      assert [text[0]] + text[1..] == text;
    }
  }

  // ----- the loop

  /** The records of the buffer, which are single characters, put together. */
  function Text(records: seq<seq<char>>): string {
    if records == [] then [] else Text(records[..|records| - 1]) + records[|records| - 1]
  }

  /** The text is what is in the buffer. */
  lemma {:induction false} TextIsBuffer(bytes: seq<char>, n: nat)
    requires n <= |bytes|
    ensures Text(RecordsOf(bytes, 1, n)) == bytes[..n]
  {
    if n > 0 {
      TextIsBuffer(bytes, n - 1);
      var records := RecordsOf(bytes, 1, n - 1);
      assert (records + [Record(bytes, 1, n - 1)])[..|records|] == records;
      assert bytes[..n] == bytes[..n - 1] + [bytes[n - 1]];
    }
  }

  method AddChar(arr: ByteArray, c: char)
    requires arr.Valid() && arr.typeSize == 1
    modifies arr, arr.elements
    ensures arr.Valid() && (arr.elements == old(arr.elements) || fresh(arr.elements))
    ensures Text(arr.Records()) == old(Text(arr.Records())) + [c]
  {
    ghost var before := arr.Records();
    var ok := arr.Add([c], false);
    assert arr.Records()[..|before|] == before;
  }

  /** The body of the loop: one character, or a backslash and what follows it. */
  method ReadChar(stream: string, from: nat, arr: ByteArray) returns (position: nat, ghost added: string)
    requires from < |stream| && stream[from] != '\n' && ReadLine(stream[from..]).Some?
    requires arr.Valid() && arr.typeSize == 1
    modifies arr, arr.elements
    ensures arr.Valid() && (arr.elements == old(arr.elements) || fresh(arr.elements))
    ensures from < position < |stream| && ReadLine(stream[position..]).Some?
    ensures ReadLine(stream[from..]) == Prepend(added, ReadLine(stream[position..]))
    ensures Text(arr.Records()) == old(Text(arr.Records())) + added
  {
    ghost var rest := stream[from..];
    position := from;
    var c := stream[position];
    position := position + 1;
    assert stream[position..] == rest[1..];
    added := [c];
    if c == '\\' {
      var c2 := stream[position];
      position := position + 1;
      assert stream[position..] == rest[2..];
      if c2 != '\n' {
        AddChar(arr, c);
        AddChar(arr, c2);
        added := [c, c2, c];
      } else {
        added := [];
        PrependTwice([], [], ReadLine(stream[position..]));
        return;
      }
    }
    AddChar(arr, c);
  }

  /** Reads one line of a stream that has one, with allocation assumed to succeed; the buffer
      ends with a NUL. */
  method ReadInput(stream: string) returns (arr: ByteArray, position: nat)
    requires ReadLine(stream).Some?
    ensures fresh(arr) && fresh(arr.elements) && arr.Valid() && arr.typeSize == 1 && position <= |stream|
    ensures Text(arr.Records()) == ReadLine(stream).value.0 + ['\0']
    ensures stream[position..] == ReadLine(stream).value.1
  {
    arr := new ByteArray(1);
    position := 0;
    PrependTwice([], [], ReadLine(stream));
    assert stream[0..] == stream;
    while stream[position] != '\n'
      invariant position < |stream| && ReadLine(stream[position..]).Some?
      invariant fresh(arr) && fresh(arr.elements) && arr.Valid() && arr.typeSize == 1
      invariant ReadLine(stream) == Prepend(Text(arr.Records()), ReadLine(stream[position..]))
      decreases |stream| - position
    {
      ghost var text := Text(arr.Records());
      ghost var added;
      position, added := ReadChar(stream, position, arr);
      PrependTwice(text, added, ReadLine(stream[position..]));
    }
    assert stream[position..][1..] == stream[position + 1..];
    AddChar(arr, '\0');
    position := position + 1;
  }
}
