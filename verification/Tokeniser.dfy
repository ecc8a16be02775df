/** tokenise of Lab2/iwish/src/iwish.c, with strtok(3) (section 7.21.5.8 of C99) as it works: it
    writes NULs into the buffer, hands out positions in it, and remembers where to go on. */
module Tokeniser {
  import opened Options
  import opened CStrings

  // ----- which tokens there are

  /** The length of the space-free run at the front. */
  function RunLength(s: string): (n: nat)
    ensures n <= |s| && ' ' !in s[..n] && (n < |s| ==> s[n] == ' ')
  {
    if s == [] || s[0] == ' ' then 0
    else
      var n := 1 + RunLength(s[1..]);
      assert s[..n] == [s[0]] + s[1..][..n - 1];
      n
  }

  /** The maximal space-free runs, in order. */
  function Split(s: string): seq<string> {
    if s == [] then []
    else if s[0] == ' ' then Split(s[1..])
    else [s[..RunLength(s)]] + Split(s[RunLength(s)..])
  }

  predicate IsToken(w: string) {
    w != [] && ' ' !in w
  }

  lemma {:induction false} SplitYieldsTokens(s: string)
    ensures forall i :: 0 <= i < |Split(s)| ==> IsToken(Split(s)[i])
    decreases |s|
  {
    if s != [] {
      SplitYieldsTokens(if s[0] == ' ' then s[1..] else s[RunLength(s)..]);
    }
  }

  lemma {:induction false} RunIsUnique(s: string, n: nat)
    requires n <= |s| && ' ' !in s[..n] && (n < |s| ==> s[n] == ' ')
    ensures RunLength(s) == n
  {
    if s != [] && n > 0 {
      assert s[0] == s[..n][0];
      assert s[..n][1..] == s[1..][..n - 1];
      RunIsUnique(s[1..], n - 1);
    }
  }

  /** A space separates: what is left of it and what is right of it are split on their own. */
  lemma {:induction false} SplitAtSpace(a: string, b: string)
    ensures Split(a + " " + b) == Split(a) + Split(b)
    decreases |a|
  {
    var s := a + " " + b;
    if a == [] {
      assert s[1..] == b;
    } else if a[0] == ' ' {
      assert s[1..] == a[1..] + " " + b;
      SplitAtSpace(a[1..], b);
    } else {
      var n := RunLength(a);
      assert s[..n] == a[..n];
      RunIsUnique(s, n);
      assert s[n..] == a[n..] + " " + b;
      SplitAtSpace(a[n..], b);
    }
  }

  /** A run without spaces is one token, and nothing is none: with SplitAtSpace this determines
      the tokens of every text. */
  lemma SplitOfRun(w: string)
    requires ' ' !in w
    ensures Split(w) == if w == [] then [] else [w]
  {
    if w != [] {
      assert w[0] in w;
      assert w[..|w|] == w;
      RunIsUnique(w, |w|);
    }
  }

  function Join(ws: seq<string>): string {
    if ws == [] then [] else if |ws| == 1 then ws[0] else ws[0] + " " + Join(ws[1..])
  }

  /** Tokens written with single spaces between them are read back. */
  lemma {:induction false} SplitJoin(ws: seq<string>)
    requires forall i :: 0 <= i < |ws| ==> IsToken(ws[i])
    ensures Split(Join(ws)) == ws
  {
    if |ws| == 1 {
      SplitOfRun(ws[0]);
    } else if |ws| > 1 {
      SplitJoin(ws[1..]);
      SplitOfRun(ws[0]);
      SplitAtSpace(ws[0], Join(ws[1..]));
    }
  }

  // ----- the buffer

  /** The first NUL from `from` on is at `end`; what is behind it does not matter. */
  ghost predicate IsTerminated(buffer: seq<char>, from: nat, end: nat) {
    from <= end < |buffer| && buffer[end] == NUL && forall i :: from <= i < end ==> buffer[i] != NUL
  }

  method SkipSpaces(buffer: array<char>, from: nat, ghost end: nat) returns (start: nat)
    requires IsTerminated(buffer[..], from, end)
    ensures from <= start <= end && buffer[start] != ' '
    ensures Split(buffer[..][start..end]) == Split(buffer[..][from..end])
  {
    start := from;
    while buffer[start] == ' '
      invariant from <= start <= end
      invariant Split(buffer[..][start..end]) == Split(buffer[..][from..end])
      decreases end - start
    {
      assert buffer[..][start..end][1..] == buffer[..][start + 1..end];
      start := start + 1;
    }
  }

  /** The token at start goes up to its delimiter at stop. */
  predicate IsDelimited(b: seq<char>, start: nat, stop: nat, end: nat) {
    && start < stop <= end < |b| && ' ' !in b[start..stop] && NUL !in b[start..stop]
    && b[stop] == if stop == end then NUL else ' '
  }

  /** Where to go on behind the delimiter. */
  function Behind(stop: nat, end: nat): nat {
    if stop < end then stop + 1 else stop
  }

  /** The token up to its delimiter, and what is split behind it. */
  lemma SplitBehindToken(b: seq<char>, start: nat, stop: nat, end: nat)
    requires IsDelimited(b, start, stop, end)
    ensures Split(b[start..end]) == [b[start..stop]] + Split(b[Behind(stop, end)..end])
  {
    var rest := b[start..end];
    assert rest[..stop - start] == b[start..stop] && rest[stop - start..] == b[stop..end];
    assert rest[0] == b[start..stop][0];
    RunIsUnique(rest, stop - start);
    if stop < end {
      assert b[stop..end][1..] == b[stop + 1..end];
    }
  }

  /** The token w at start was cut off, and next is where to go on. */
  ghost predicate IsCut(was: seq<char>, now: seq<char>, start: nat, end: nat, next: nat, w: string) {
    && start < next && IsTerminated(now, next, end) && |now| == |was| && start <= end < |was|
    && now[..start] == was[..start] && IsStringAt(now, start, w)
    && (if next < end then start + |w| < next else start + |w| <= next)
    && Split(was[start..end]) == [w] + Split(now[next..end])
  }

  /** Cutting the token off with a NUL. */
  lemma TokenIsCut(b: seq<char>, start: nat, stop: nat, end: nat)
    requires IsDelimited(b, start, stop, end) && IsTerminated(b, start, end)
    ensures IsCut(b, b[stop := NUL], start, end, Behind(stop, end), b[start..stop])
  {
    var cut, next := b[stop := NUL], Behind(stop, end);
    SplitBehindToken(b, start, stop, end);
    assert cut[start..stop] == b[start..stop];
    assert cut[next..end] == b[next..end];
  }

  /** Where the token that starts here stops. */
  method ScanToken(buffer: array<char>, start: nat, ghost end: nat) returns (stop: nat)
    requires IsTerminated(buffer[..], start, end) && buffer[start] != ' ' && buffer[start] != NUL
    ensures IsDelimited(buffer[..], start, stop, end)
  {
    stop := start;
    while buffer[stop] != ' ' && buffer[stop] != NUL
      invariant start <= stop <= end
      invariant ' ' !in buffer[..][start..stop] && NUL !in buffer[..][start..stop]
      decreases end - stop
    {
      assert buffer[..][start..stop + 1] == buffer[..][start..stop] + [buffer[stop]];
      stop := stop + 1;
    }
  }

  /** The second half of strtok: finds the end of the token that starts here and cuts it off. */
  method CutToken(buffer: array<char>, start: nat, ghost end: nat) returns (next: nat, ghost w: string)
    requires IsTerminated(buffer[..], start, end) && buffer[start] != ' ' && buffer[start] != NUL
    modifies buffer
    ensures IsCut(old(buffer[..]), buffer[..], start, end, next, w)
  {
    var stop := ScanToken(buffer, start, end);
    ghost var was := buffer[..];
    TokenIsCut(was, start, stop, end);
    w := was[start..stop];
    if buffer[stop] == NUL {
      next := stop;
      assert was == was[stop := NUL];
    } else {
      next := stop + 1;
      buffer[stop] := NUL;
      assert buffer[..] == was[stop := NUL];
    }
  }

  /** strtok with its saved position `from`: the next token w and its position, if there is one,
      and the position to go on from. */
  method Strtok(buffer: array<char>, from: nat, ghost end: nat)
    returns (token: Option<nat>, next: nat, ghost w: string)
    requires IsTerminated(buffer[..], from, end)
    modifies buffer
    ensures token.None? ==> buffer[..] == old(buffer[..]) && Split(old(buffer[..])[from..end]) == []
    ensures token.Some? ==> from <= token.value <= end < |old(buffer[..])|
    ensures token.Some? ==> IsCut(old(buffer[..]), buffer[..], token.value, end, next, w)
    ensures token.Some? ==> Split(old(buffer[..])[from..end]) == [w] + Split(buffer[..][next..end])
  {
    var start := SkipSpaces(buffer, from, end);
    if buffer[start] == NUL {
      assert start == end;
      return None, start, [];
    }
    next, w := CutToken(buffer, start, end);
    return Some(start), next, w;
  }

  /** An array of pointers to these words in the buffer, ended by NULL. */
  ghost predicate PointsTo(buffer: seq<char>, pointers: seq<Option<nat>>, words: seq<string>) {
    && |pointers| == |words| + 1 && pointers[|words|] == None
    && forall i :: 0 <= i < |words| ==> pointers[i].Some? && IsStringAt(buffer, pointers[i].value, words[i])
  }

  /** The words handed out so far are intact in the buffer and before the part still to be scanned;
      the last one may end where the text ends. */
  ghost predicate IsHandedOut(buffer: seq<char>, pointers: seq<Option<nat>>, words: seq<string>, next: nat, end: nat) {
    && |pointers| == |words|
    && forall i :: 0 <= i < |words| ==>
         && pointers[i].Some? && IsStringAt(buffer, pointers[i].value, words[i])
         && (next < end ==> pointers[i].value + |words[i]| < next)
  }

  /** Handing out one more. */
  lemma OneMoreIsHandedOut(was: seq<char>, now: seq<char>, pointers: seq<Option<nat>>, words: seq<string>,
                           from: nat, start: nat, end: nat, next: nat, w: string)
    requires IsHandedOut(was, pointers, words, from, end) && from <= start < end
    requires IsCut(was, now, start, end, next, w)
    ensures IsHandedOut(now, pointers + [Some(start)], words + [w], next, end)
  {
    forall i | 0 <= i < |words|
      ensures IsStringAt(now, pointers[i].value, words[i]) && pointers[i].value + |words[i]| < next
    {
      StringIsKept(was, now, start, pointers[i].value, words[i]);
    }
  }

  /** Splits the C string at the start of the buffer: an array of pointers into it, ended by NULL,
      each of them to the next maximal run of characters other than space. When the array can be
      grown to hold `room` pointers only, the result is NULL exactly if that is too few. */
  method Tokenise(buffer: array<char>, room: nat, ghost end: nat) returns (result: Option<seq<Option<nat>>>)
    requires IsTerminated(buffer[..], 0, end)
    modifies buffer
    ensures result.Some? <==> |Split(old(buffer[..])[..end])| + 1 <= room
    ensures result.Some? ==> PointsTo(buffer[..], result.value, Split(old(buffer[..])[..end]))
  {
    ghost var words := Split(buffer[..][..end]);
    assert buffer[..][0..end] == buffer[..][..end];
    var pointers: seq<Option<nat>> := [];
    ghost var found: seq<string> := [];
    var next := 0;
    while true
      invariant IsTerminated(buffer[..], next, end) && |pointers| <= room
      invariant words == found + Split(buffer[..][next..end])
      invariant IsHandedOut(buffer[..], pointers, found, next, end)
      decreases end - next
    {
      ghost var was, from := buffer[..], next;
      var token;
      ghost var w;
      token, next, w := Strtok(buffer, next, end);
      if |pointers| == room {
        return None;
      }
      if token.None? {
        assert words == found;
        return Some(pointers + [None]);
      }
      OneMoreIsHandedOut(was, buffer[..], pointers, found, from, token.value, end, next, w);
      pointers, found := pointers + [token], found + [w];
    }
  }
}
