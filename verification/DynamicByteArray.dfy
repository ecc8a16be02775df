/** Lab2/iwish/src/DynamicByteArray.c: a growable buffer of fixed-size records. */
module DynamicByteArray {

  const INITIAL_CAPACITY: nat := 16

  /** The capacity with n records: doubled when the n-th record finds the array full. */
  function CapacityFor(n: nat): nat {
    if n == 0 then INITIAL_CAPACITY
    else if CapacityFor(n - 1) == n - 1 then 2 * CapacityFor(n - 1)
    else CapacityFor(n - 1)
  }

  /** How many records growth has copied by then. */
  function CopiedFor(n: nat): nat {
    if n == 0 then 0
    else if CapacityFor(n - 1) == n - 1 then CopiedFor(n - 1) + CapacityFor(n - 1)
    else CopiedFor(n - 1)
  }

  function PowerOfTwo(k: nat): nat {
    if k == 0 then 1 else 2 * PowerOfTwo(k - 1)
  }

  /** The capacity is always 16 times a power of two, with room for every record, and at most
      twice what is needed once it has grown. */
  lemma {:induction false} CapacityIsPowerOfTwo(n: nat) returns (k: nat)
    ensures CapacityFor(n) == 16 * PowerOfTwo(k)
    ensures n <= CapacityFor(n)
    ensures k > 0 ==> CapacityFor(n) < 2 * n
  {
    if n == 0 {
      k := 0;
      assert PowerOfTwo(0) == 1;
    } else {
      k := CapacityIsPowerOfTwo(n - 1);
      if CapacityFor(n - 1) == n - 1 {
        k := k + 1;
      }
    }
  }

  /** All growth over n adds together copies fewer than 2n records. */
  lemma {:induction false} GrowthIsLinear(n: nat)
    requires n > 0
    ensures CopiedFor(n) == CapacityFor(n) - INITIAL_CAPACITY < 2 * n
  {
    CopiedIsCapacity(n);
    var k := CapacityIsPowerOfTwo(n);
    assert k == 0 ==> PowerOfTwo(k) == 1;
  }

  /** In bytes: fewer than twice the bytes that were added. */
  lemma BytesCopiedAreLinear(n: nat, size: nat)
    requires n > 0 && size > 0
    ensures CopiedFor(n) * size < 2 * n * size
  {
    GrowthIsLinear(n);
    OffsetsAreOrdered(CopiedFor(n), 2 * n, size);
  }

  lemma {:induction false} CopiedIsCapacity(n: nat)
    ensures CopiedFor(n) == CapacityFor(n) - INITIAL_CAPACITY
  {
    if n > 0 {
      CopiedIsCapacity(n - 1);
    }
  }

  lemma OffsetsAreOrdered(i: nat, j: nat, size: nat)
    requires i < j
    ensures i * size + size <= j * size
  {
    assert j * size == i * size + (j - i) * size;
    assert (j - i) * size >= size by {
      assert (j - i) * size == size + (j - i - 1) * size;
    }
  }

  function Min(a: nat, b: nat): nat {
    if a < b then a else b
  }

  lemma Distributes(a: nat, b: nat, size: nat)
    ensures (a + b) * size == a * size + b * size
  {
  }

  lemma RoomForOneMore(n: nat, size: nat)
    ensures n < CapacityFor(n + 1)
    ensures n * size + size == (n + 1) * size <= CapacityFor(n + 1) * size
  {
    var _ := CapacityIsPowerOfTwo(n + 1);
    OffsetsAreOrdered(n, CapacityFor(n + 1), size);
    Distributes(n, 1, size);
  }

  /** Record i of a buffer. */
  function Record(bytes: seq<char>, size: nat, i: nat): seq<char>
    requires i * size + size <= |bytes|
  {
    bytes[i * size .. i * size + size]
  }

  function RecordsOf(bytes: seq<char>, size: nat, n: nat): seq<seq<char>>
    requires n * size <= |bytes|
  {
    if n == 0 then []
    else
      OffsetsAreOrdered(n - 1, n, size);
      RecordsOf(bytes, size, n - 1) + [Record(bytes, size, n - 1)]
  }

  lemma {:induction false} RecordsOfPrefix(a: seq<char>, b: seq<char>, size: nat, n: nat)
    requires n * size <= |a| && n * size <= |b| && a[..n * size] == b[..n * size]
    ensures RecordsOf(a, size, n) == RecordsOf(b, size, n)
  {
    if n > 0 {
      OffsetsAreOrdered(n - 1, n, size);
      var m := (n - 1) * size;
      assert a[..m] == a[..n * size][..m] == b[..n * size][..m] == b[..m];
      assert a[m..m + size] == a[..n * size][m..m + size] == b[..n * size][m..m + size] == b[m..m + size];
      RecordsOfPrefix(a, b, size, n - 1);
    }
  }

  /** A buffer that starts with the old one holds the old records. */
  lemma GrownRecords(before: seq<char>, grown: seq<char>, size: nat, n: nat)
    requires n * size <= |before| <= |grown| && grown[..|before|] == before
    ensures RecordsOf(grown, size, n) == RecordsOf(before, size, n)
  {
    assert grown[..n * size] == grown[..|before|][..n * size] == before[..n * size];
    RecordsOfPrefix(before, grown, size, n);
  }

  lemma {:induction false} RecordIsElement(bytes: seq<char>, size: nat, n: nat, i: nat)
    requires i < n && n * size <= |bytes|
    ensures |RecordsOf(bytes, size, n)| == n
    ensures i * size + size <= |bytes| && RecordsOf(bytes, size, n)[i] == Record(bytes, size, i)
  {
    OffsetsAreOrdered(i, n, size);
    OffsetsAreOrdered(n - 1, n, size);
    if i < n - 1 {
      RecordIsElement(bytes, size, n - 1, i);
    } else if n > 1 {
      OffsetsAreOrdered(n - 2, n - 1, size);
      RecordIsElement(bytes, size, n - 1, 0);
    }
  }

  class ByteArray {
    const typeSize: nat
    var count: nat
    var capacity: nat
    var elements: array<char>
    ghost var copied: nat // bytes copied by realloc so far

    ghost predicate Valid()
      reads this
    {
      && capacity == CapacityFor(count) && count <= capacity
      && elements.Length == capacity * typeSize
      && count * typeSize <= elements.Length
      && copied == CopiedFor(count) * typeSize
    }

    /** The records that were added. */
    ghost function Records(): seq<seq<char>>
      requires Valid()
      reads this, elements
    {
      RecordsOf(elements[..], typeSize, count)
    }

    /** All reallocations so far together have copied fewer than twice the bytes in the array. */
    lemma CopiedIsBounded()
      requires Valid() && typeSize > 0
      ensures copied <= 2 * count * typeSize
      ensures count > 0 ==> copied < 2 * count * typeSize
    {
      if count > 0 {
        BytesCopiedAreLinear(count, typeSize);
      }
    }

    constructor (typeSize: nat)
      ensures Valid() && fresh(elements) && this.typeSize == typeSize && Records() == []
    {
      this.typeSize := typeSize;
      count := 0;
      capacity := INITIAL_CAPACITY;
      elements := new char[INITIAL_CAPACITY * typeSize](_ => '\0');
      copied := 0;
    }

    /** realloc: on success a buffer of the new size that starts with as much of the old contents
        as fits, on failure nothing changes. */
    method Resize(newCapacity: nat, reallocFails: bool) returns (ok: bool)
      requires elements.Length == capacity * typeSize
      modifies this`elements, this`capacity, this`copied
      ensures ok == !reallocFails
      ensures !ok ==> elements == old(elements) && capacity == old(capacity) && copied == old(copied)
      ensures ok ==> fresh(elements) && capacity == newCapacity && elements.Length == newCapacity * typeSize
      ensures ok ==> var kept := Min(old(elements.Length), elements.Length);
                     elements[..kept] == old(elements[..])[..kept] && copied == old(copied) + kept
    {
      if reallocFails {
        return false;
      }
      var tempPtr := new char[newCapacity * typeSize](_ => '\0');
      var kept := Min(elements.Length, tempPtr.Length);
      forall i | 0 <= i < kept {
        tempPtr[i] := elements[i];
      }
      copied := copied + kept;
      elements := tempPtr;
      capacity := newCapacity;
      return true;
    }

    /** Grows the array if it is full; then there is room for one more record. */
    method EnsureRoom(reallocFails: bool) returns (ok: bool)
      requires Valid()
      modifies this`elements, this`capacity, this`copied
      ensures ok == !(count == old(capacity) && reallocFails)
      ensures !ok ==> elements == old(elements) && capacity == old(capacity) && copied == old(copied)
      ensures ok ==> elements == old(elements) || fresh(elements)
      ensures ok ==> count < capacity == CapacityFor(count + 1) && elements.Length == capacity * typeSize
      ensures ok ==> count * typeSize + typeSize == (count + 1) * typeSize <= elements.Length
      ensures ok ==> copied == CopiedFor(count + 1) * typeSize
      ensures ok ==> RecordsOf(elements[..], typeSize, count) == old(Records())
    {
      ghost var before := elements[..];
      RoomForOneMore(count, typeSize);
      ok := true;
      if count == capacity {
        Distributes(CopiedFor(count), CapacityFor(count), typeSize);
        Distributes(capacity, capacity, typeSize);
        ok := Resize(2 * capacity, reallocFails);
        if ok {
          GrownRecords(before, elements[..], typeSize, count);
        }
      }
    }

    /** Copies one record behind the others; fails, changing nothing, exactly when the array is
        full and cannot grow. */
    method Add(record: seq<char>, reallocFails: bool) returns (ok: bool)
      requires Valid() && |record| == typeSize
      modifies this, elements
      ensures Valid() && (elements == old(elements) || fresh(elements))
      ensures ok == !(old(count) == old(capacity) && reallocFails)
      ensures ok ==> Records() == old(Records()) + [record] && count == old(count) + 1
      ensures !ok ==> unchanged(this) && unchanged(elements)
    {
      ok := EnsureRoom(reallocFails);
      if ok {
        Append(record);
      }
    }

    method Append(record: seq<char>)
      requires |record| == typeSize && count * typeSize + typeSize == (count + 1) * typeSize <= elements.Length
      modifies this`count, elements
      ensures count == old(count) + 1
      ensures RecordsOf(elements[..], typeSize, count) == old(RecordsOf(elements[..], typeSize, count)) + [record]
    {
      ghost var before := elements[..];
      CopyRecord(record);
      RecordsOfPrefix(before, elements[..], typeSize, count);
      assert Record(elements[..], typeSize, count) == record;
      count := count + 1;
    }

    /** The byte loop of DBA_addElemToArr. */
    method CopyRecord(record: seq<char>)
      requires |record| == typeSize && count * typeSize + typeSize <= elements.Length
      modifies elements
      ensures elements[..count * typeSize] == old(elements[..count * typeSize])
      ensures elements[count * typeSize .. count * typeSize + typeSize] == record
    {
      var i := 0;
      while i < typeSize
        invariant 0 <= i <= typeSize
        invariant elements[..count * typeSize] == old(elements[..count * typeSize])
        invariant elements[count * typeSize .. count * typeSize + i] == record[..i]
      {
        elements[count * typeSize + i] := record[i];
        i := i + 1;
      }
    }

    /** The bytes at the address that DBA_getElem returns. */
    method GetElem(index: nat) returns (record: seq<char>)
      requires Valid() && index < count
      ensures |Records()| == count && record == Records()[index]
    {
      RecordIsElement(elements[..], typeSize, count, index);
      record := elements[index * typeSize .. index * typeSize + typeSize];
    }
  }
}
