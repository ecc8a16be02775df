/** Descriptor tables: numbers, and what they refer to. */
module Descriptors {
  import opened Options

  /** What a descriptor refers to. Pipe i joins command i to command i + 1 of a pipeline. */
  datatype Object =
    | Inherited(fd: nat)
    | PipeRead(i: nat)
    | PipeWrite(i: nat)
    | File(word: string, input: bool)

  type Table = map<nat, Object>

  /** close(2); closing a number that is not open changes nothing. */
  function Close(t: Table, fd: int): Table {
    if fd < 0 then t else t - {fd}
  }

  /** dup2(2); fails when `from` is not open. */
  function Dup2(t: Table, from: int, to: nat): (r: Option<Table>)
    ensures r.Some? ==> r.value.Keys == t.Keys + {to} && forall d :: d in t && d != to ==> r.value[d] == t[d]
  {
    if from >= 0 && from in t then Some(t[to := t[from]]) else None
  }

  // ----- the lowest-free rule, section 2.14 of POSIX.1-2017 System Interfaces

  ghost predicate IsLowestFree(t: Table, fd: nat) {
    fd !in t && forall x: nat :: x < fd ==> x in t
  }

  ghost function LowestFrom(t: Table, from: nat): (fd: nat)
    ensures from <= fd && fd !in t
    ensures forall x: nat :: from <= x < fd ==> x in t
    decreases |set x | x in t && x >= from|
  {
    if from !in t then from
    else (
      var above, below := (set x | x in t && x >= from + 1), (set x | x in t && x >= from);
      assert from in below && from !in above;
      SubsetIsSmaller(above, below);
      LowestFrom(t, from + 1)
    )
  }

  lemma {:induction false} SubsetIsSmaller(a: set<nat>, b: set<nat>)
    requires a < b
    ensures |a| < |b|
  {
    if a != {} {
      var x :| x in a;
      SubsetIsSmaller(a - {x}, b - {x});
    } else {
      assert b != {};
    }
  }

  lemma LowestFreeIsUnique(t: Table, a: nat, b: nat)
    requires IsLowestFree(t, a) && IsLowestFree(t, b)
    ensures a == b
  {
  }
}
