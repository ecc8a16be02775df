/** get_value of the MINIX kernel: looks up a name in the block of boot parameters, which are
    strings `key=value` one behind the other, each with its NUL, and then one more NUL. */
module BootParameters {
  import opened Options
  import opened CStrings

  // ----- the block

  /** Entries cannot be empty: an empty one ends the block. */
  predicate AreEntries(entries: seq<string>) {
    forall i :: 0 <= i < |entries| ==> entries[i] != [] && NUL !in entries[i]
  }

  function Encode(entries: seq<string>): seq<char> {
    if entries == [] then [NUL] else entries[0] + [NUL] + Encode(entries[1..])
  }

  /** Where entry j starts. */
  function Offset(entries: seq<string>, j: nat): nat
    requires j <= |entries|
  {
    if j == 0 then 0 else |entries[0]| + 1 + Offset(entries[1..], j - 1)
  }

  lemma {:induction false} EntryIsAtOffset(entries: seq<string>, j: nat)
    requires j < |entries| && AreEntries(entries)
    ensures IsStringAt(Encode(entries), Offset(entries, j), entries[j])
    ensures Offset(entries, j + 1) == Offset(entries, j) + |entries[j]| + 1
  {
    var rest := Encode(entries[1..]);
    assert Encode(entries) == entries[0] + [NUL] + rest;
    if j > 0 {
      EntryIsAtOffset(entries[1..], j - 1);
      var p, n := Offset(entries[1..], j - 1), |entries[0]| + 1;
      assert Encode(entries)[n + p..n + p + |entries[j]|] == rest[p..p + |entries[j]|];
    }
  }

  lemma {:induction false} EndIsAtOffset(entries: seq<string>)
    ensures Offset(entries, |entries|) == |Encode(entries)| - 1
    ensures Encode(entries)[|Encode(entries)| - 1] == NUL
  {
    if entries != [] {
      EndIsAtOffset(entries[1..]);
    }
  }

  /** Position j of the block: an entry, or the NUL that ends the block. */
  lemma BlockPosition(entries: seq<string>, j: nat)
    requires j <= |entries| && AreEntries(entries)
    ensures Offset(entries, j) < |Encode(entries)|
    ensures Encode(entries)[Offset(entries, j)] == NUL <==> j == |entries|
    ensures j < |entries| ==> IsStringAt(Encode(entries), Offset(entries, j), entries[j])
    ensures j < |entries| ==> Offset(entries, j + 1) == Offset(entries, j) + |entries[j]| + 1
  {
    if j < |entries| {
      EntryIsAtOffset(entries, j);
      NoNulInside(Encode(entries), Offset(entries, j), entries[j], Offset(entries, j));
    } else {
      EndIsAtOffset(entries);
    }
  }

  // ----- what is looked up

  /** The entry is the name, an '=' and a value. */
  predicate StartsWith(entry: string, name: string) {
    |name| < |entry| && entry[..|name|] == name && entry[|name|] == '='
  }

  /** The first entry from j on that starts with the name and an '=', or the number of entries. */
  function FirstMatch(entries: seq<string>, j: nat, name: string): (k: nat)
    requires j <= |entries|
    ensures j <= k <= |entries|
    ensures k < |entries| ==> StartsWith(entries[k], name)
    ensures forall i :: j <= i < k ==> !StartsWith(entries[i], name)
    decreases |entries| - j
  {
    if j == |entries| || StartsWith(entries[j], name) then j else FirstMatch(entries, j + 1, name)
  }

  /** The value of an entry for a name it starts with. */
  lemma StartsWithSplits(entry: string, name: string)
    ensures StartsWith(entry, name) <==> exists value: string :: entry == name + "=" + value
  {
    if StartsWith(entry, name) {
      assert entry == name + "=" + entry[|name| + 1..];
    }
    forall value: string | entry == name + "=" + value
      ensures StartsWith(entry, name)
    {
      assert entry == name + ("=" + value);
      assert entry[..|name|] == name && entry[|name|] == ("=" + value)[0];
    }
  }

  /** A name that is the beginning of another one is told from it. */
  lemma ExampleBlock()
    ensures Encode(["ab=1", "a=23"]) == "ab=1\0a=23\0\0"
    ensures AreEntries(["ab=1", "a=23"]) && FirstMatch(["ab=1", "a=23"], 0, "a") == 1
    ensures Offset(["ab=1", "a=23"], 1) + |"a"| + 1 == 7 && "ab=1\0a=23\0\0"[7..9] == "23"
  {
    var entries := ["ab=1", "a=23"];
    assert entries[1..] == ["a=23"] && ["a=23"][1..] == [];
    assert Encode(["a=23"]) == "a=23\0\0";
    assert StartsWith("a=23", "a") && !StartsWith("ab=1", "a");
    assert FirstMatch(entries, 1, "a") == 1;
    assert Offset(entries, 1) == 5;
  }

  // ----- the scan

  /** The inner loop: both pointers advance while the characters agree. */
  method MatchName(params: seq<char>, start: nat, name: string, ghost entry: string) returns (namep: nat, envp: nat)
    requires IsStringAt(params, start, entry) && NUL !in name
    ensures envp == start + namep <= start + |entry| && namep <= |name|
    ensures namep == |name| && params[envp] == '=' <==> StartsWith(entry, name)
  {
    namep, envp := 0, start;
    while namep < |name| && name[namep] == params[envp]
      invariant namep <= |name| && envp == start + namep <= start + |entry|
      invariant entry[..namep] == name[..namep]
      decreases |name| - namep
    {
      assert name[namep] in name;
      assert params[envp] == params[start..start + |entry|][namep];
      namep, envp := namep + 1, envp + 1;
    }
    assert namep < |entry| ==> params[envp] == params[start..start + |entry|][namep];
    assert name[..|name|] == name;
    assert |name| < |entry| ==> forall i :: 0 <= i < |name| ==> entry[..|name|][i] == entry[i];
  }

  /** The last loop: on to the character behind the next NUL. */
  method SkipEntry(params: seq<char>, from: nat, ghost start: nat, ghost entry: string) returns (envp: nat)
    requires IsStringAt(params, start, entry) && start <= from <= start + |entry|
    ensures envp == start + |entry| + 1
  {
    envp := from;
    while params[envp] != NUL
      invariant from <= envp <= start + |entry|
      decreases start + |entry| - envp
    {
      envp := envp + 1;
    }
    if envp < start + |entry| {
      NoNulInside(params, start, entry, envp);
    }
    envp := envp + 1;
  }

  /** The body of the outer loop, at the entry that starts here: the position of its value if it
      matches, or else the position behind it. */
  method ScanEntry(params: seq<char>, start: nat, name: string, ghost entry: string)
    returns (value: Option<nat>, next: nat)
    requires IsStringAt(params, start, entry) && NUL !in name
    ensures value.Some? <==> StartsWith(entry, name)
    ensures value.Some? ==> value.value == start + |name| + 1 && IsStringAt(params, value.value, entry[|name| + 1..])
    ensures value.None? ==> next == start + |entry| + 1
  {
    var namep, envp := MatchName(params, start, name, entry);
    if namep == |name| && params[envp] == '=' {
      StringInside(params, start, entry, |name| + 1);
      return Some(envp + 1), envp;
    }
    next := SkipEntry(params, envp, start, entry);
    return None, next;
  }

  /** The scan, for every block of entries and every name. It never leaves the block, and returns
      the position of the value of the first match. */
  method GetValue(params: seq<char>, name: string, ghost entries: seq<string>) returns (value: Option<nat>)
    requires AreEntries(entries) && params == Encode(entries) && NUL !in name
    ensures value.None? <==> forall i :: 0 <= i < |entries| ==> !StartsWith(entries[i], name)
    ensures value.Some? ==>
              var k := FirstMatch(entries, 0, name);
              && k < |entries| && StartsWith(entries[k], name)
              && (forall i :: 0 <= i < k ==> !StartsWith(entries[i], name))
              && value.value == Offset(entries, k) + |name| + 1
              && IsStringAt(params, value.value, entries[k][|name| + 1..])
  {
    var envp := 0;
    ghost var j := 0;
    BlockPosition(entries, 0);
    while params[envp] != NUL
      invariant 0 <= j <= |entries| && envp == Offset(entries, j) < |params|
      invariant params[envp] == NUL <==> j == |entries|
      invariant FirstMatch(entries, 0, name) == FirstMatch(entries, j, name)
      decreases |entries| - j
    {
      BlockPosition(entries, j);
      value, envp := ScanEntry(params, envp, name, entries[j]);
      if value.Some? {
        return;
      }
      j := j + 1;
      BlockPosition(entries, j);
    }
    return None;
  }

  // ----- as an association list

  /** The length of the part of an entry before its first '='. */
  function KeyLength(entry: string): (n: nat)
    ensures n <= |entry|
  {
    if entry == [] || entry[0] == '=' then 0 else 1 + KeyLength(entry[1..])
  }

  predicate HasKey(entry: string, name: string) {
    KeyLength(entry) < |entry| && entry[..KeyLength(entry)] == name
  }

  /** The first entry from j on with this key, or the number of entries. */
  function FirstWithKey(entries: seq<string>, j: nat, name: string): (k: nat)
    requires j <= |entries|
    ensures j <= k <= |entries|
    ensures k < |entries| ==> HasKey(entries[k], name)
    ensures forall i :: j <= i < k ==> !HasKey(entries[i], name)
    decreases |entries| - j
  {
    if j == |entries| || HasKey(entries[j], name) then j else FirstWithKey(entries, j + 1, name)
  }

  lemma {:induction false} KeyEndsAtEquals(entry: string)
    ensures KeyLength(entry) < |entry| ==> entry[KeyLength(entry)] == '='
    ensures forall i :: 0 <= i < KeyLength(entry) ==> entry[i] != '='
  {
    if entry != [] && entry[0] != '=' {
      KeyEndsAtEquals(entry[1..]);
    }
  }

  lemma {:induction false} KeyIsMaximal(entry: string, n: nat)
    requires n < |entry| && entry[n] == '=' && forall i :: 0 <= i < n ==> entry[i] != '='
    ensures KeyLength(entry) == n
  {
    if n > 0 {
      KeyIsMaximal(entry[1..], n - 1);
    }
  }

  /** For a name without '=', starting with the name and an '=' is having that key. */
  lemma PrefixIsKey(entry: string, name: string)
    requires '=' !in name
    ensures StartsWith(entry, name) <==> HasKey(entry, name)
  {
    KeyEndsAtEquals(entry);
    if StartsWith(entry, name) {
      forall i | 0 <= i < |name|
        ensures entry[i] != '='
      {
        assert entry[i] == entry[..|name|][i] == name[i];
      }
      KeyIsMaximal(entry, |name|);
    }
  }

  lemma {:induction false} FirstMatchIsFirstWithKey(entries: seq<string>, j: nat, name: string)
    requires j <= |entries| && '=' !in name
    ensures FirstMatch(entries, j, name) == FirstWithKey(entries, j, name)
    decreases |entries| - j
  {
    if j < |entries| {
      PrefixIsKey(entries[j], name);
      FirstMatchIsFirstWithKey(entries, j + 1, name);
    }
  }

  /** The scan is the lookup of a key in an association list, on every block, exactly for the
      names without '='. The name "a=b" also finds the entry "a=b=", whose key is "a". */
  lemma ScanIsKeyLookup(name: string)
    requires NUL !in name
    ensures '=' !in name
            <==> forall entries | AreEntries(entries) :: FirstMatch(entries, 0, name) == FirstWithKey(entries, 0, name)
  {
    if '=' !in name {
      forall entries | AreEntries(entries)
        ensures FirstMatch(entries, 0, name) == FirstWithKey(entries, 0, name)
      {
        FirstMatchIsFirstWithKey(entries, 0, name);
      }
    } else {
      var entries := [name + "="];
      assert AreEntries(entries) && StartsWith(entries[0], name);
      KeyEndsAtEquals(entries[0]);
      var i :| 0 <= i < |name| && name[i] == '=';
      assert entries[0][i] == '=';
      assert !HasKey(entries[0], name);
    }
  }
}
