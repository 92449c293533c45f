/**
 Open addressing with linear probing in a table of m slots; slots are only ever filled.
 */
module LinearProbing {
  import opened Arithmetic

  const HASHSIZE := 7
  const NULLKEY := -32768

  /** The slot d probes after h, d < m. */
  function Slot(h: nat, d: nat, m: nat): (s: nat)
    requires h < m && d < m
    ensures s < m
  {
    if h + d < m then h + d else h + d - m
  }

  /** How many probes lead from h to i. */
  function Distance(h: nat, i: nat, m: nat): (d: nat)
    requires h < m && i < m
    ensures d < m && Slot(h, d, m) == i
    ensures forall e :: 0 <= e < m && Slot(h, e, m) == i ==> e == d
  {
    if i >= h then i - h else i + m - h
  }

  function Next(s: nat, m: nat): (n: nat)
    requires m > 0
    ensures n < m
  {
    (s + 1) % m
  }

  lemma NextSlot(h: nat, d: nat, m: nat)
    requires h < m && d < m
    ensures Next(Slot(h, d, m), m) == if d + 1 < m then Slot(h, d + 1, m) else h
  {
  }

  lemma SlotZero(h: nat, m: nat)
    requires h < m
    ensures Slot(h, 0, m) == h
  {
  }

  lemma SlotDistance(h: nat, d: nat, m: nat)
    requires h < m && d < m
    ensures Distance(h, Slot(h, d, m), m) == d
  {
  }

  function Home(data: int, m: nat): (h: nat)
    requires data >= 0 && m > 0
    ensures h < m
  {
    data % m
  }

  /** The remainder of the value, or of the e-th number behind it. */
  function Remainder(data: int, e: nat, m: nat): (r: nat)
    requires m > 0
    ensures r < m
  {
    (data + e) % m
  }

  /** The probes of a value are its remainder and the remainders of the numbers that follow it. */
  lemma ProbeIsRemainder(data: int, d: nat, m: nat)
    requires data >= 0 && d < m
    ensures Slot(Home(data, m), d, m) == Remainder(data, d, m)
  {
    SlotAdvance(data, d, m);
  }

  /** Of the slots data % m, (data + 1) % m, ... this is the first that holds `wanted`. */
  ghost predicate FirstWith(elem: seq<int>, data: int, wanted: int, at: int)
    requires elem != []
  {
    exists d: nat :: at == Remainder(data, d, |elem|) && BeforeWith(elem, data, wanted, d)
  }

  ghost predicate BeforeWith(elem: seq<int>, data: int, wanted: int, d: nat)
    requires elem != []
  {
    && elem[Remainder(data, d, |elem|)] == wanted
    && forall e: nat :: e < d ==> elem[Remainder(data, e, |elem|)] != wanted
  }

  lemma ProbesFindFirst(elem: seq<int>, data: int, wanted: int, d: nat)
    requires data >= 0 && d < |elem| && elem[Slot(Home(data, |elem|), d, |elem|)] == wanted
    requires forall e :: 0 <= e < d ==> elem[Slot(Home(data, |elem|), e, |elem|)] != wanted
    ensures FirstWith(elem, data, wanted, Slot(Home(data, |elem|), d, |elem|))
  {
    hide Home;
    hide Slot;
    hide Remainder;
    ProbeIsRemainder(data, d, |elem|);
    forall e: nat | e < d ensures elem[Remainder(data, e, |elem|)] != wanted {
      ProbeIsRemainder(data, e, |elem|);
    }
    assert BeforeWith(elem, data, wanted, d);
  }

  /** A free slot data % m is where the value goes. */
  lemma OwnSlotFirst(elem: seq<int>, data: int, at: int)
    requires elem != [] && data >= 0 && FirstWith(elem, data, NULLKEY, at) && elem[data % |elem|] == NULLKEY
    ensures at == data % |elem|
  {
    var d: nat :| at == Remainder(data, d, |elem|) && BeforeWith(elem, data, NULLKEY, d);
    assert Remainder(data, 0, |elem|) == data % |elem|;
  }

  /** The value in slot i rests behind an unbroken row of occupied slots that starts at its home slot. */
  ghost predicate RowUnbroken(elem: seq<int>, i: nat)
    requires i < |elem| && elem[i] >= 0
  {
    var h := Home(elem[i], |elem|);
    forall d :: 0 <= d <= Distance(h, i, |elem|) ==> elem[Slot(h, d, |elem|)] != NULLKEY
  }

  ghost predicate Probed(elem: seq<int>) {
    forall i :: 0 <= i < |elem| && elem[i] != NULLKEY ==> elem[i] >= 0 && RowUnbroken(elem, i)
  }

  /** The first d slots of the probe sequence from h are occupied. */
  ghost predicate Occupied(elem: seq<int>, h: nat, d: nat)
    requires h < |elem| && d <= |elem|
  {
    forall e :: 0 <= e < d ==> elem[Slot(h, e, |elem|)] != NULLKEY
  }

  lemma NoneOccupied(elem: seq<int>, h: nat)
    requires h < |elem|
    ensures Occupied(elem, h, 0)
  {
  }

  lemma OneMoreOccupied(elem: seq<int>, h: nat, d: nat)
    requires h < |elem| && d < |elem| && Occupied(elem, h, d) && elem[Slot(h, d, |elem|)] != NULLKEY
    ensures Occupied(elem, h, d + 1)
  {
  }

  lemma OccupiedFindsFirst(elem: seq<int>, data: int, d: nat)
    requires data >= 0 && d < |elem| && Occupied(elem, Home(data, |elem|), d)
    requires elem[Slot(Home(data, |elem|), d, |elem|)] == NULLKEY
    ensures FirstWith(elem, data, NULLKEY, Slot(Home(data, |elem|), d, |elem|))
  {
    hide Home;
    hide Slot;
    ProbesFindFirst(elem, data, NULLKEY, d);
  }

  /** Placing a value in the first free slot of its probe sequence keeps all rows unbroken. */
  lemma PlacingKeepsProbed(elem: seq<int>, data: int, d: nat)
    requires Probed(elem) && data >= 0 && d < |elem|
    requires Occupied(elem, Home(data, |elem|), d)
    ensures Probed(elem[Slot(Home(data, |elem|), d, |elem|) := data])
  {
  }

  /** A free slot on the probe sequence before the value is reached shows that the value is not there;
      so does going all the way round. */
  lemma MissedIsAbsent(elem: seq<int>, data: int, d: nat)
    requires Probed(elem) && data >= 0 && 0 < d <= |elem|
    requires forall e :: 0 <= e < d ==> elem[Slot(Home(data, |elem|), e, |elem|)] != data
    requires d == |elem| || elem[Slot(Home(data, |elem|), d, |elem|)] == NULLKEY
    ensures data !in elem
  {
    hide Home;
    hide Slot;
    forall i | 0 <= i < |elem| ensures elem[i] != data {
      var e := Distance(Home(data, |elem|), i, |elem|);
      hide Distance;
      assert elem[i] == data ==> RowUnbroken(elem, i);
    }
  }

  /** The address after n rounds of the loop of Insert. */
  function Address(h: nat, n: nat, m: nat): (a: nat)
    requires h < m
    ensures a < m
  {
    if n == 0 then h else Next(Address(h, n - 1, m), m)
  }

  lemma {:induction false} AddressIsSlot(h: nat, d: nat, m: nat)
    requires h < m && d < m
    ensures Address(h, d, m) == Slot(h, d, m)
  {
    if d > 0 {
      AddressIsSlot(h, d - 1, m);
      NextSlot(h, d - 1, m);
    }
  }

  /** The loop of Insert meets a free slot if and only if there is one; on a full table it never ends. */
  lemma InsertEndsIff(elem: seq<int>, data: int)
    requires elem != [] && data >= 0
    ensures (exists n: nat :: elem[Address(Home(data, |elem|), n, |elem|)] == NULLKEY) <==> NULLKEY in elem
  {
    hide Home;
    if NULLKEY in elem {
      var gap :| 0 <= gap < |elem| && elem[gap] == NULLKEY;
      var d := Distance(Home(data, |elem|), gap, |elem|);
      AddressIsSlot(Home(data, |elem|), d, |elem|);
    }
  }

  class HashTable {
    const elem: array<int>

    ghost predicate Valid()
      reads this, elem
    {
      elem.Length > 0 && Probed(elem[..])
    }

    constructor ()
      ensures Valid() && fresh(elem) && elem.Length == HASHSIZE
      ensures forall i :: 0 <= i < HASHSIZE ==> elem[i] == NULLKEY
    {
      elem := new int[HASHSIZE](_ => NULLKEY);
    }

    /** The loop of Insert. Without a free slot it would not end. */
    method FirstFree(data: int) returns (at: nat)
      requires elem.Length > 0 && data >= 0 && NULLKEY in elem[..]
      ensures at < elem.Length && elem[at] == NULLKEY
      ensures Occupied(elem[..], Home(data, elem.Length), Distance(Home(data, elem.Length), at, elem.Length))
      ensures FirstWith(elem[..], data, NULLKEY, at)
    {
      at := Home(data, elem.Length);
      ghost var m, h, d := elem.Length, at, 0;
      ghost var gap :| 0 <= gap < m && elem[gap] == NULLKEY;
      hide Home;
      hide Slot;
      hide Distance;
      hide Next;
      hide Occupied;
      NoneOccupied(elem[..], h);
      SlotZero(h, m);
      while elem[at] != NULLKEY
        invariant elem[gap] == NULLKEY
        invariant d <= Distance(h, gap, m) && at == Slot(h, d, m)
        invariant Occupied(elem[..], h, d)
        decreases m - d
      {
        NextSlot(h, d, m);
        OneMoreOccupied(elem[..], h, d);
        at := Next(at, elem.Length);
        d := d + 1;
      }
      SlotDistance(h, d, m);
      OccupiedFindsFirst(elem[..], data, d);
    }

    method Insert(data: int) returns (at: nat)
      requires Valid() && data >= 0 && NULLKEY in elem[..]
      modifies elem
      ensures Valid()
      ensures at < elem.Length && old(elem[at]) == NULLKEY && elem[..] == old(elem[..])[at := data]
      ensures FirstWith(old(elem[..]), data, NULLKEY, at)
      ensures old(elem[data % elem.Length]) == NULLKEY ==> at == data % elem.Length
    {
      at := FirstFree(data);
      if elem[data % elem.Length] == NULLKEY { OwnSlotFirst(elem[..], data, at); }
      PlacingKeepsProbed(elem[..], data, Distance(Home(data, elem.Length), at, elem.Length));
      elem[at] := data;
    }

    /** The slot of a value, or -1 if the table does not hold it. */
    method Search(data: int) returns (at: int)
      requires Valid() && data >= 0
      ensures at == -1 <==> data !in elem[..]
      ensures at != -1 ==> 0 <= at < elem.Length && elem[at] == data && FirstWith(elem[..], data, data, at)
    {
      var hashAddress := Home(data, elem.Length);
      ghost var m, d := elem.Length, 0;
      while elem[hashAddress] != data
        invariant d < m && hashAddress == Slot(Home(data, elem.Length), d, m)
        invariant forall e :: 0 <= e < d ==> elem[Slot(Home(data, elem.Length), e, m)] != data
        decreases m - d
      {
        NextSlot(Home(data, elem.Length), d, m);
        hashAddress := Next(hashAddress, elem.Length);
        d := d + 1;
        if elem[hashAddress] == NULLKEY || hashAddress == Home(data, elem.Length) {
          MissedIsAbsent(elem[..], data, d);
          return -1;
        }
      }
      ProbesFindFirst(elem[..], data, data, d);
      at := hashAddress;
    }
  }
}
