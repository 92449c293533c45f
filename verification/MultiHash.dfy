/**
 The multi-level hash in shared memory. Level i has modTable[i] slots; a key has one candidate
 slot per level. Both versions of the class are covered: they differ in the number added to the
 key before the remainder is taken, and the second one adds Get, Replace and Foreach.
 */
module MultiHash {
  import opened Arithmetic

  datatype Node<V> = Node(key: nat, value: V)

  datatype Ret = Ok | KeyExist | NotFound | Error

  // ---------------------------------------------------------------- geometry

  /** First slot of level row: PRIMER_TABLE_TATAL, or the sum loop of getPos. */
  function RowStart(mods: seq<nat>, row: nat): nat
    requires row <= |mods|
  {
    if row == 0 then 0 else RowStart(mods, row - 1) + mods[row - 1]
  }

  predicate Moduli(mods: seq<nat>) {
    forall i :: 0 <= i < |mods| ==> mods[i] > 0
  }

  function Column(mods: seq<nat>, add: nat, key: nat, row: nat): (c: nat)
    requires Moduli(mods) && row < |mods|
    ensures c < mods[row]
  {
    (key + add) % WORD64 % mods[row]
  }

  /** The slot of a key on a level. */
  function Candidate(mods: seq<nat>, add: nat, key: nat, row: nat): nat
    requires Moduli(mods) && row < |mods|
  {
    RowStart(mods, row) + Column(mods, add, key, row)
  }

  /** The column is the one that differs from the key plus the offset, a sum of 64-bit words, by a multiple of
      the modulus. */
  lemma CandidateIff(mods: seq<nat>, add: nat, key: nat, row: nat, sum: nat, col: nat)
    requires Moduli(mods) && row < |mods| && col < mods[row]
    requires sum < WORD64 && (sum == key + add || sum + WORD64 == key + add)
    ensures Candidate(mods, add, key, row) == RowStart(mods, row) + col <==> (sum - col) % mods[row] == 0
  {
    assert (key + add) % WORD64 == sum by {
      ModUnique(key + add, WORD64, if sum == key + add then 0 else 1, sum);
    }
    ModDifference(sum, col, mods[row]);
    ModUnique(col, mods[row], 0, col);
  }

  lemma ModDifference(x: int, y: int, m: int)
    requires m > 0
    ensures (x - y) % m == 0 <==> x % m == y % m
  {
    var qx, qy, q := x / m, y / m, (x - y) / m;
    assert (q - qx + qy) * m == x % m - y % m - (x - y) % m;
    MulSign(q - qx + qy, m);
    if x % m == y % m {
      ModUnique(x - y, m, qx - qy, 0);
    }
  }

  /** Two keys meet on a level exactly when they differ by a multiple of its modulus. */
  lemma SharedSlotIff(mods: seq<nat>, add: nat, key: nat, key': nat, row: nat)
    requires Moduli(mods) && row < |mods| && key + add < WORD64 && key' + add < WORD64
    ensures Candidate(mods, add, key, row) == Candidate(mods, add, key', row) <==> (key - key') % mods[row] == 0
  {
    var m := mods[row];
    ModDifference(key + add, key' + add, m);
    assert key + add - (key' + add) == key - key';
  }

  lemma {:induction false} RowStartOrder(mods: seq<nat>, i: nat, j: nat)
    requires i <= j <= |mods|
    ensures RowStart(mods, i) <= RowStart(mods, j)
    ensures i < j ==> RowStart(mods, i) + mods[i] <= RowStart(mods, j)
    decreases j
  {
    if i < j {
      RowStartOrder(mods, i, j - 1);
    }
  }

  /** getPos never leaves the memory and maps different (row, column) pairs to different slots. */
  lemma PositionsDistinct(mods: seq<nat>, row: nat, col: nat, row': nat, col': nat)
    requires row < |mods| && row' < |mods| && col < mods[row] && col' < mods[row']
    ensures RowStart(mods, row) + col < RowStart(mods, |mods|)
    ensures RowStart(mods, row) + col == RowStart(mods, row') + col' ==> row == row' && col == col'
  {
    RowStartOrder(mods, row, |mods|);
    if row < row' {
      RowStartOrder(mods, row, row');
    } else if row' < row {
      RowStartOrder(mods, row', row);
    }
  }

  // ---------------------------------------------------------------- table and map

  ghost predicate HoldsKey<V>(table: seq<Node<V>>, key: nat) {
    exists i :: 0 <= i < |table| && table[i].key == key
  }

  /** The occupied slots are the entries of m. */
  ghost predicate Represents<V>(table: seq<Node<V>>, m: map<nat, V>) {
    && (forall k: nat :: k in m ==> k != 0 && HoldsKey(table, k))
    && (forall i :: 0 <= i < |table| && table[i].key != 0 ==> table[i].key in m && m[table[i].key] == table[i].value)
  }

  /** No key occupies two slots, on whatever levels. */
  ghost predicate KeysOnce<V>(table: seq<Node<V>>) {
    forall i, j :: 0 <= i < j < |table| && table[i].key != 0 ==> table[i].key != table[j].key
  }

  ghost predicate IsCandidate(mods: seq<nat>, add: nat, key: nat, at: nat)
    requires Moduli(mods)
  {
    exists row: nat :: row < |mods| && at == Candidate(mods, add, key, row)
  }

  /** Every key rests on one of its candidate slots. */
  ghost predicate Placed<V>(mods: seq<nat>, add: nat, table: seq<Node<V>>)
    requires Moduli(mods)
  {
    forall i :: 0 <= i < |table| && table[i].key != 0 ==> IsCandidate(mods, add, table[i].key, i)
  }

  ghost predicate TableOk<V>(mods: seq<nat>, add: nat, table: seq<Node<V>>, m: map<nat, V>) {
    Moduli(mods) && |table| == RowStart(mods, |mods|) && Represents(table, m) && KeysOnce(table)
      && Placed(mods, add, table)
  }

  /** The key's candidate slot on level row holds the key `wanted`. */
  ghost predicate SlotHolds<V>(mods: seq<nat>, add: nat, table: seq<Node<V>>, key: nat, wanted: nat, row: nat) {
    Moduli(mods) && row < |mods| && Candidate(mods, add, key, row) < |table|
    && table[Candidate(mods, add, key, row)].key == wanted
  }

  /** Some candidate slot of the key is free. */
  ghost predicate HasRoom<V>(mods: seq<nat>, add: nat, table: seq<Node<V>>, key: nat) {
    exists row: nat :: SlotHolds(mods, add, table, key, 0, row)
  }

  /** The first level on which the candidate slot of the key holds the key `wanted`. */
  ghost predicate FirstLevel<V>(mods: seq<nat>, add: nat, table: seq<Node<V>>, key: nat, wanted: nat, row: nat) {
    && SlotHolds(mods, add, table, key, wanted, row)
    && forall r: nat :: r < row ==> !SlotHolds(mods, add, table, key, wanted, r)
  }

  /** The node goes to the candidate slot of the first level where that is free, and no other slot changes. */
  ghost predicate PutAtFirst<V>(mods: seq<nat>, add: nat, before: seq<Node<V>>, after: seq<Node<V>>, n: Node<V>) {
    exists row: nat ::
      FirstLevel(mods, add, before, n.key, 0, row) && after == before[Candidate(mods, add, n.key, row) := n]
  }

  /** A key of the map is found at one of its candidates, whatever holes removals have left. */
  lemma FoundAtCandidate<V>(mods: seq<nat>, add: nat, table: seq<Node<V>>, m: map<nat, V>, key: nat)
    requires TableOk(mods, add, table, m) && key != 0
    ensures key in m <==> exists row: nat :: SlotHolds(mods, add, table, key, key, row)
  {
    hide Candidate;
    if key in m {
      var i :| 0 <= i < |table| && table[i].key == key;
      var row: nat :| row < |mods| && i == Candidate(mods, add, key, row);
      assert SlotHolds(mods, add, table, key, key, row);
    }
  }

  /** Writing a new key into a free candidate slot adds one entry. */
  lemma AddEntry<V>(mods: seq<nat>, add: nat, table: seq<Node<V>>, m: map<nat, V>, row: nat, key: nat, value: V)
    requires TableOk(mods, add, table, m) && key != 0 && key !in m && row < |mods|
    requires Candidate(mods, add, key, row) < |table| && table[Candidate(mods, add, key, row)].key == 0
    ensures TableOk(mods, add, table[Candidate(mods, add, key, row) := Node(key, value)], m[key := value])
    ensures |m[key := value]| == |m| + 1
  {
    hide Candidate;
    var at := Candidate(mods, add, key, row);
    var t := table[at := Node(key, value)];
    AddRepresents(table, m, at, key, value);
    AddOnce(table, m, at, key, value);
    hide Represents;
    hide KeysOnce;
    assert m[key := value].Keys == m.Keys + {key};
    forall i | 0 <= i < |t| && t[i].key != 0 ensures IsCandidate(mods, add, t[i].key, i) {
      if i != at { assert IsCandidate(mods, add, table[i].key, i); }
    }
  }

  lemma AddRepresents<V>(table: seq<Node<V>>, m: map<nat, V>, at: nat, key: nat, value: V)
    requires Represents(table, m) && at < |table| && table[at].key == 0 && key != 0 && key !in m
    ensures Represents(table[at := Node(key, value)], m[key := value])
  {
    var t := table[at := Node(key, value)];
    forall k: nat | k in m[key := value] ensures k != 0 && HoldsKey(t, k) {
      if k == key {
        assert t[at].key == k;
      } else {
        var i :| 0 <= i < |table| && table[i].key == k;
        assert t[i].key == k;
      }
    }
  }

  lemma AddOnce<V>(table: seq<Node<V>>, m: map<nat, V>, at: nat, key: nat, value: V)
    requires Represents(table, m) && KeysOnce(table) && at < |table| && table[at].key == 0 && key != 0 && key !in m
    ensures KeysOnce(table[at := Node(key, value)])
  {
  }

  /** Overwriting the value of an entry. */
  lemma ChangeEntry<V>(mods: seq<nat>, add: nat, table: seq<Node<V>>, m: map<nat, V>, at: nat, value: V)
    requires TableOk(mods, add, table, m) && at < |table| && table[at].key != 0
    ensures TableOk(mods, add, table[at := Node(table[at].key, value)], m[table[at].key := value])
    ensures |m[table[at].key := value]| == |m|
  {
    hide Candidate;
    hide IsCandidate;
    var key := table[at].key;
    var t := table[at := Node(key, value)];
    var m' := m[key := value];
    assert m'.Keys == m.Keys;
    forall k: nat | k in m' ensures k != 0 && HoldsKey(t, k) {
      var i :| 0 <= i < |table| && table[i].key == k;
      assert t[i].key == k;
    }
  }

  /** The value in a free slot belongs to no entry. */
  lemma FreeValueFree<V>(mods: seq<nat>, add: nat, table: seq<Node<V>>, m: map<nat, V>, at: nat, value: V)
    requires TableOk(mods, add, table, m) && at < |table| && table[at].key == 0
    ensures TableOk(mods, add, table[at := Node(0, value)], m)
  {
    hide Candidate;
    var table' := table[at := Node(0, value)];
    forall k: nat | k in m ensures HoldsKey(table', k) {
      var i :| 0 <= i < |table| && table[i].key == k;
      assert table'[i].key == k;
    }
  }

  /** What a callback makes of the entries it is called with, one after another: the entries with their new
      values, and the parameter it was handed through. */
  function Returned<V, S>(calls: seq<Node<V>>, callback: (nat, V, S) -> (V, S), param: S): (r: (seq<Node<V>>, S))
    ensures |r.0| == |calls| && forall i :: 0 <= i < |calls| ==> r.0[i].key == calls[i].key
  {
    if calls == [] then ([], param)
    else
      var (before, last) := (calls[..|calls| - 1], calls[|calls| - 1]);
      var (done, p) := Returned(before, callback, param);
      var (value, p') := callback(last.key, last.value, p);
      (done + [Node(last.key, value)], p')
  }

  lemma ReturnedNext<V, S>(calls: seq<Node<V>>, n: Node<V>, callback: (nat, V, S) -> (V, S), param: S)
    ensures var r, v := Returned(calls, callback, param), callback(n.key, n.value, Returned(calls, callback, param).1);
            Returned(calls + [n], callback, param) == (r.0 + [Node(n.key, v.0)], v.1)
  {
    assert (calls + [n])[..|calls|] == calls;
  }

  /** The map with the values the slots hold now. */
  ghost function Revalued<V>(m: map<nat, V>, table: seq<Node<V>>): (r: map<nat, V>)
    requires forall k: nat :: k in m ==> HoldsKey(table, k)
    ensures r.Keys == m.Keys && |r| == |m|
  {
    var r := map k | k in m :: StoredValue(table, k);
    assert r.Keys == m.Keys;
    r
  }

  ghost function StoredValue<V>(table: seq<Node<V>>, key: nat): (v: V)
    requires HoldsKey(table, key)
  {
    var i :| 0 <= i < |table| && table[i].key == key;
    table[i].value
  }

  lemma SameKeysHeld<V>(table: seq<Node<V>>, after: seq<Node<V>>, m: map<nat, V>)
    requires Represents(table, m) && |after| == |table|
    requires forall i :: 0 <= i < |table| ==> after[i].key == table[i].key
    ensures forall k: nat :: k in m ==> HoldsKey(after, k)
  {
    forall k: nat | k in m ensures HoldsKey(after, k) {
      var i :| 0 <= i < |table| && table[i].key == k;
      assert after[i].key == k;
    }
  }

  /** Changing values in place, keys untouched, changes the values of the map's entries and nothing else. */
  lemma ChangeAll<V>(mods: seq<nat>, add: nat, table: seq<Node<V>>, after: seq<Node<V>>, m: map<nat, V>)
    requires TableOk(mods, add, table, m) && |after| == |table|
    requires forall i :: 0 <= i < |table| ==> after[i].key == table[i].key
    ensures forall k: nat :: k in m ==> HoldsKey(after, k)
    ensures TableOk(mods, add, after, Revalued(m, after))
  {
    hide Candidate;
    SameKeysHeld(table, after, m);
    forall i | 0 <= i < |after| && after[i].key != 0
      ensures after[i].key in m && StoredValue(after, after[i].key) == after[i].value
    {
      assert table[i].key in m;
    }
    forall i | 0 <= i < |after| && after[i].key != 0 ensures IsCandidate(mods, add, after[i].key, i) {
      assert IsCandidate(mods, add, table[i].key, i);
    }
  }

  /** Clearing the key of an entry removes it; the hole harms no other entry. */
  lemma DropEntry<V>(mods: seq<nat>, add: nat, table: seq<Node<V>>, m: map<nat, V>, at: nat, junk: V)
    requires TableOk(mods, add, table, m) && at < |table| && table[at].key != 0
    ensures TableOk(mods, add, table[at := Node(0, junk)], m - {table[at].key})
    ensures |m - {table[at].key}| == |m| - 1
  {
    hide Candidate;
    hide IsCandidate;
    var key := table[at].key;
    var t := table[at := Node(0, junk)];
    var m' := m - {key};
    assert m'.Keys == m.Keys - {key};
    forall k: nat | k in m' ensures k != 0 && HoldsKey(t, k) {
      var i :| 0 <= i < |table| && table[i].key == k;
      assert t[i].key == k;
    }
    forall i | 0 <= i < |t| && t[i].key != 0 ensures t[i].key in m' && m'[t[i].key] == t[i].value {
      assert i != at && table[i].key != key;
    }
  }

  // ---------------------------------------------------------------- the class

  class HashShm<V(0)> {
    const mods: seq<nat>
    const add: nat
    const mem: array<Node<V>>
    var currentSize: nat
    var lastFound: nat
    ghost var contents: map<nat, V>

    /** The slots and the entry count represent the map `contents`. */
    ghost predicate Valid()
      reads this, mem
    {
      TableOk(mods, add, mem[..], contents) && currentSize == |contents|
    }

    /** Fresh shared memory, all bytes zero. */
    constructor (modTable: seq<nat>, offset: nat, zero: V)
      requires Moduli(modTable)
      ensures Valid() && contents == map[] && mods == modTable && add == offset && fresh(mem)
    {
      mods, add := modTable, offset;
      mem := new Node<V>[RowStart(modTable, |modTable|)](_ => Node(0, zero));
      currentSize, lastFound := 0, 0;
      contents := map[];
    }

    /** The candidate slots of the key, level by level, until one holds `wanted`. */
    method Probe(key: nat, wanted: nat) returns (found: bool, row: nat)
      requires Moduli(mods) && mem.Length == RowStart(mods, |mods|)
      ensures found ==> FirstLevel(mods, add, mem[..], key, wanted, row)
      ensures !found ==> forall r: nat :: !SlotHolds(mods, add, mem[..], key, wanted, r)
    {
      for i := 0 to |mods|
        invariant forall r: nat :: r < i ==> !SlotHolds(mods, add, mem[..], key, wanted, r)
      {
        PositionsDistinct(mods, i, Column(mods, add, key, i), i, Column(mods, add, key, i));
        if mem[Candidate(mods, add, key, i)].key == wanted {
          return true, i;
        }
      }
      return false, 0;
    }

    /** The slot found last is the first one that holds the key. */
    ghost predicate FoundFirst(key: nat)
      reads this, mem
    {
      exists row: nat ::
        FirstLevel(mods, add, mem[..], key, key, row) && lastFound == Candidate(mods, add, key, row)
    }

    /** find: for key 0, which marks free slots, it finds a free slot instead. */
    method Find(key: nat) returns (r: Ret)
      requires Valid()
      modifies this`lastFound
      ensures r == Ok || r == NotFound
      ensures key != 0 ==> (r == Ok <==> key in contents)
      ensures key == 0 ==> (r == Ok <==> HasRoom(mods, add, mem[..], key))
      ensures r == Ok ==> lastFound < mem.Length && mem[lastFound].key == key
      ensures r == Ok ==> FoundFirst(key)
      ensures r == NotFound ==> lastFound == old(lastFound)
    {
      hide Candidate;
      var found, row := Probe(key, key);
      if key != 0 { FoundAtCandidate(mods, add, mem[..], contents, key); }
      if !found {
        return NotFound;
      }
      lastFound := Candidate(mods, add, key, row);
      return Ok;
    }

    /** insert, and Set of the second version. */
    method Insert(key: nat, value: V) returns (r: Ret)
      requires Valid()
      modifies this, mem
      ensures Valid()
      ensures key != 0 ==>
                r == if key in old(contents) then KeyExist
                     else if HasRoom(mods, add, old(mem[..]), key) then Ok else Error
      ensures key == 0 ==> r == if HasRoom(mods, add, old(mem[..]), key) then KeyExist else Error
      ensures contents == if r == Ok then old(contents)[key := value] else old(contents)
      ensures if r == Ok then PutAtFirst(mods, add, old(mem[..]), mem[..], Node(key, value))
              else mem[..] == old(mem[..])
    {
      hide Candidate;
      hide HasRoom;
      var f := Find(key);
      if f == Ok {
        return KeyExist;
      }
      r := PutFree(key, value);
    }

    /** The insertion loop shared by insert, Set and Replace. */
    method PutFree(key: nat, value: V) returns (r: Ret)
      requires Valid() && key !in contents && (key == 0 ==> !HasRoom(mods, add, mem[..], key))
      modifies this`currentSize, this`contents, mem
      ensures Valid()
      ensures r == if HasRoom(mods, add, old(mem[..]), key) then Ok else Error
      ensures contents == if r == Ok then old(contents)[key := value] else old(contents)
      ensures if r == Ok then PutAtFirst(mods, add, old(mem[..]), mem[..], Node(key, value))
              else mem[..] == old(mem[..])
    {
      hide Candidate;
      hide TableOk;
      var found, row := ProbeFree(key);
      if !found {
        return Error;
      }
      var at := Candidate(mods, add, key, row);
      AddEntry(mods, add, mem[..], contents, row, key, value);
      ghost var after := mem[..][at := Node(key, value)];
      mem[at] := Node(key, value);
      assert mem[..] == after;
      currentSize := currentSize + 1;
      contents := contents[key := value];
      return Ok;
    }

    method ProbeFree(key: nat) returns (found: bool, row: nat)
      requires Valid()
      ensures found ==> FirstLevel(mods, add, mem[..], key, 0, row)
      ensures found <==> HasRoom(mods, add, mem[..], key)
      ensures Moduli(mods)
    {
      hide Candidate;
      found, row := Probe(key, 0);
    }

    /** remove only clears the key. Removing key 0 succeeds on a free slot and then counts a removal
        that did not happen, which leaves the count wrong; nothing else does. */
    method Remove(key: nat) returns (r: Ret)
      requires Valid() && |contents| < WORD64
      modifies this, mem
      ensures r == if key in old(contents) || (key == 0 && HasRoom(mods, add, old(mem[..]), key)) then Ok else NotFound
      ensures contents == old(contents) - {key}
      ensures if r == Ok then
                lastFound < mem.Length && old(mem[..])[lastFound].key == key
                  && mem[..] == old(mem[..])[lastFound := Node(0, old(mem[..])[lastFound].value)]
              else mem[..] == old(mem[..])
      ensures TableOk(mods, add, mem[..], contents)
      ensures Valid() <==> (key != 0 || !HasRoom(mods, add, old(mem[..]), 0))
    {
      hide TableOk;
      hide HasRoom;
      ghost var table := mem[..];
      ZeroNotInMap(mods, add, table, contents);
      var f := Find(key);
      if f == NotFound {
        assert contents - {key} == contents;
        return NotFound;
      }
      if key != 0 {
        DropEntry(mods, add, table, contents, lastFound, mem[lastFound].value);
      } else {
        assert contents - {key} == contents;
        assert table[lastFound := Node(0, mem[lastFound].value)] == table;
      }
      ghost var after := table[lastFound := Node(0, mem[lastFound].value)];
      mem[lastFound] := Node(0, mem[lastFound].value);
      assert mem[..] == after;
      currentSize := (currentSize - 1) % WORD64;
      contents := contents - {key};
      return Ok;
    }

    /** Get; for key 0 it answers with the stale value of a free slot. */
    method Get(key: nat) returns (r: Ret, value: V)
      requires Valid()
      modifies this`lastFound
      ensures key != 0 ==> r == if key in contents then Ok else NotFound
      ensures key != 0 && r == Ok ==> value == contents[key]
      ensures key == 0 ==> r == if HasRoom(mods, add, mem[..], key) then Ok else NotFound
    {
      var f := Find(key);
      if f != Ok {
        value := *;
        return NotFound, value;
      }
      return Ok, mem[lastFound].value;
    }

    /** Replace; for key 0 it writes into a free slot and so changes nothing the map can show. */
    method Replace(key: nat, value: V) returns (r: Ret)
      requires Valid()
      modifies this, mem
      ensures Valid()
      ensures r == if key in old(contents) || HasRoom(mods, add, old(mem[..]), key) then Ok else Error
      ensures contents == if r == Ok && key != 0 then old(contents)[key := value] else old(contents)
      ensures if r == Error then mem[..] == old(mem[..])
              else if key != 0 && key !in old(contents) then
                PutAtFirst(mods, add, old(mem[..]), mem[..], Node(key, value))
              else lastFound < mem.Length && old(mem[..])[lastFound].key == key
                     && mem[..] == old(mem[..])[lastFound := Node(key, value)]
    {
      hide TableOk;
      hide HasRoom;
      ZeroNotInMap(mods, add, mem[..], contents);
      var f := Find(key);
      if f == Ok {
        if key != 0 {
          ChangeEntry(mods, add, mem[..], contents, lastFound, value);
        } else {
          FreeValueFree(mods, add, mem[..], contents, lastFound, value);
        }
        ghost var after := mem[..][lastFound := Node(key, value)];
        mem[lastFound] := Node(key, value);
        assert mem[..] == after;
        if key != 0 {
          contents := contents[key := value];
        }
        return Ok;
      }
      r := PutFree(key, value);
    }

    method Clear(zero: V)
      requires Valid()
      modifies this, mem
      ensures Valid() && contents == map[]
    {
      forall i | 0 <= i < mem.Length {
        mem[i] := Node(0, zero);
      }
      currentSize := 0;
      contents := map[];
    }

    /** Foreach calls the callback once for every entry. It gets the value by reference, so what it makes of
        a value is stored, and the parameter through which it can keep state. The calls are returned in order,
        with the values they were given. */
    method Foreach<S>(callback: (nat, V, S) -> (V, S), param: S) returns (calls: seq<Node<V>>, param': S)
      requires Valid()
      modifies mem, this`contents
      ensures Valid() && contents.Keys == old(contents).Keys
      ensures calls == Occupied(old(mem[..])) && ListsOnce(calls, old(contents)) && |calls| == currentSize
      ensures param' == Returned(calls, callback, param).1
      ensures Returned(calls, callback, param).0 == Occupied(mem[..]) && ListsOnce(Occupied(mem[..]), contents)
      ensures forall i :: 0 <= i < mem.Length ==> mem[i].key == old(mem[i].key)
    {
      ghost var table := mem[..];
      OccupiedListsOnce(table, contents);
      ListLength(Occupied(table), contents);
      hide TableOk;
      hide ListsOnce;
      hide Occupied;
      calls, param' := CallAll(callback, param);
      ChangeAll(mods, add, table, mem[..], contents);
      contents := Revalued(contents, mem[..]);
      TableLists(mods, add, mem[..], contents);
    }

    /** The loop of Foreach. */
    method CallAll<S>(callback: (nat, V, S) -> (V, S), param: S) returns (calls: seq<Node<V>>, param': S)
      modifies mem
      ensures calls == Occupied(old(mem[..]))
      ensures Returned(calls, callback, param).0 == Occupied(mem[..])
      ensures Returned(calls, callback, param).1 == param'
      ensures forall i :: 0 <= i < mem.Length ==> mem[i].key == old(mem[i].key)
    {
      ghost var table := mem[..];
      calls, param' := [], param;
      CallingStarts(table, callback, param);
      hide Calling;
      hide Occupied;
      hide Returned;
      for pos := 0 to mem.Length
        invariant Calling(table, mem[..], pos, calls, callback, param, param') && |table| == mem.Length
      {
        ghost var now := mem[..];
        CallingNext(table, now, pos, calls, callback, param, param');
        if mem[pos].key != 0 {
          calls := calls + [mem[pos]];
          var r := callback(mem[pos].key, mem[pos].value, param');
          mem[pos] := Node(mem[pos].key, r.0);
          assert mem[..] == now[pos := Node(now[pos].key, r.0)];
          param' := r.1;
        }
      }
      CallingEnds(table, mem[..], calls, callback, param, param');
    }
  }

  /** An empty table with a level has room for any key. */
  lemma EmptyHasRoom<V>(mods: seq<nat>, add: nat, table: seq<Node<V>>, key: nat)
    requires TableOk(mods, add, table, map[]) && mods != []
    ensures HasRoom(mods, add, table, key)
  {
    PositionsDistinct(mods, 0, Column(mods, add, key, 0), 0, Column(mods, add, key, 0));
    var at := Candidate(mods, add, key, 0);
    assert table[at].key == 0;
    assert SlotHolds(mods, add, table, key, 0, 0);
  }

  /** A key that differs from every key of the table on the first level has its slot there to itself. */
  lemma OwnSlotFree<V>(mods: seq<nat>, add: nat, table: seq<Node<V>>, m: map<nat, V>, key: nat)
    requires TableOk(mods, add, table, m) && mods != [] && key + add < WORD64
    requires forall k :: k in m ==> k + add < WORD64 && (k - key) % mods[0] != 0
    ensures SlotHolds(mods, add, table, key, 0, 0)
  {
    PositionsDistinct(mods, 0, Column(mods, add, key, 0), 0, Column(mods, add, key, 0));
    var at := Candidate(mods, add, key, 0);
    var k := table[at].key;
    if k != 0 {
      assert IsCandidate(mods, add, k, at);
      var row: nat :| row < |mods| && at == Candidate(mods, add, k, row);
      PositionsDistinct(mods, row, Column(mods, add, k, row), 0, Column(mods, add, key, 0));
      SharedSlotIff(mods, add, k, key, 0);
      assert false;
    }
  }

  /** Nonzero keys that differ pairwise on the first level, and whose sums with the offset stay in 64 bits. */
  ghost predicate Apart<V>(mods: seq<nat>, add: nat, entries: seq<Node<V>>)
    requires Moduli(mods) && mods != []
  {
    && (forall i :: 0 <= i < |entries| ==> entries[i].key != 0 && entries[i].key + add < WORD64)
    && (forall i, j :: 0 <= i < j < |entries| ==> (entries[i].key - entries[j].key) % mods[0] != 0)
  }

  lemma NextHasRoom<V>(mods: seq<nat>, add: nat, table: seq<Node<V>>, m: map<nat, V>, entries: seq<Node<V>>, i: nat)
    requires TableOk(mods, add, table, m) && Moduli(mods) && mods != [] && Apart(mods, add, entries)
    requires i < |entries| && ListsOnce(entries[..i], m)
    ensures entries[i].key != 0 && entries[i].key !in m && HasRoom(mods, add, table, entries[i].key)
  {
    hide TableOk;
    hide SlotHolds;
    var key := entries[i].key;
    forall k | k in m ensures k + add < WORD64 && (k - key) % mods[0] != 0 {
      var j :| 0 <= j < i && entries[..i][j].key == k;
      assert entries[j].key == k;
    }
    assert (key - key) % mods[0] == 0;
    OwnSlotFree(mods, add, table, m, key);
  }

  method InsertNext<V(0)>(table: HashShm<V>, entries: seq<Node<V>>, i: nat)
    requires table.Valid() && Moduli(table.mods) && table.mods != [] && Apart(table.mods, table.add, entries)
    requires i < |entries| && ListsOnce(entries[..i], table.contents)
    modifies table, table.mem
    ensures table.Valid() && ListsOnce(entries[..i + 1], table.contents)
  {
    hide TableOk;
    hide HasRoom;
    hide Apart;
    hide ListsOnce;
    hide PutAtFirst;
    ghost var m := table.contents;
    NextHasRoom(table.mods, table.add, table.mem[..], m, entries, i);
    var r := table.Insert(entries[i].key, entries[i].value);
    ListsOneMore(entries[..i], entries[i], m);
    assert entries[..i + 1] == entries[..i] + [entries[i]];
  }

  /** Keys that differ pairwise on the first level all enter an empty table. */
  method InsertApart<V(0)>(modTable: seq<nat>, offset: nat, zero: V, entries: seq<Node<V>>)
    returns (table: HashShm<V>)
    requires Moduli(modTable) && modTable != [] && Apart(modTable, offset, entries)
    ensures table.Valid() && ListsOnce(entries, table.contents)
  {
    table := new HashShm(modTable, offset, zero);
    NothingListed(entries, table.contents);
    hide *;
    for i := 0 to |entries|
      invariant fresh(table) && fresh(table.mem) && table.mods == modTable && table.add == offset
      invariant table.Valid() && ListsOnce(entries[..i], table.contents)
    {
      InsertNext(table, entries, i);
    }
    assert entries[..|entries|] == entries;
  }

  lemma NothingListed<V>(entries: seq<Node<V>>, m: map<nat, V>)
    requires m == map[]
    ensures ListsOnce(entries[..0], m)
  {
  }

  lemma ListsOneMore<V>(calls: seq<Node<V>>, n: Node<V>, m: map<nat, V>)
    requires ListsOnce(calls, m) && n.key !in m
    ensures ListsOnce(calls + [n], m[n.key := n.value])
  {
    var calls', m' := calls + [n], m[n.key := n.value];
    forall k | k in m' ensures HoldsKey(calls', k) {
      if k == n.key {
        assert calls'[|calls|].key == k;
      } else {
        var i :| 0 <= i < |calls| && calls[i].key == k;
        assert calls'[i].key == k;
      }
    }
  }

  /** The witness: removing key 0 from a new table succeeds and leaves a wrong count. */
  method RemoveZeroFromNew<V(0)>(modTable: seq<nat>, offset: nat, zero: V) returns (table: HashShm<V>, r: Ret)
    requires Moduli(modTable) && modTable != []
    ensures r == Ok && !table.Valid()
  {
    table := new HashShm(modTable, offset, zero);
    EmptyHasRoom(table.mods, table.add, table.mem[..], 0);
    hide HasRoom;
    hide TableOk;
    r := table.Remove(0);
  }

  /** The loop of Foreach has come to slot pos of the table, and now holds what the callback made of it. */
  ghost predicate Calling<V, S>(table: seq<Node<V>>, now: seq<Node<V>>, pos: nat, calls: seq<Node<V>>,
                                callback: (nat, V, S) -> (V, S), param: S, param': S) {
    && pos <= |table| == |now| && calls == Occupied(table[..pos])
    && Returned(calls, callback, param).0 == Occupied(now[..pos]) && Returned(calls, callback, param).1 == param'
    && (forall i :: 0 <= i < pos ==> now[i].key == table[i].key)
    && (forall i :: pos <= i < |now| ==> now[i] == table[i])
  }

  lemma CallingStarts<V, S>(table: seq<Node<V>>, callback: (nat, V, S) -> (V, S), param: S)
    ensures Calling(table, table, 0, [], callback, param, param)
  {
  }

  lemma CallingNext<V, S>(table: seq<Node<V>>, now: seq<Node<V>>, pos: nat, calls: seq<Node<V>>,
                          callback: (nat, V, S) -> (V, S), param: S, p: S)
    requires Calling(table, now, pos, calls, callback, param, p) && pos < |table| == |now|
    ensures if now[pos].key == 0 then Calling(table, now, pos + 1, calls, callback, param, p)
            else
              var r := callback(now[pos].key, now[pos].value, p);
              Calling(table, now[pos := Node(now[pos].key, r.0)], pos + 1, calls + [now[pos]], callback, param, r.1)
  {
    hide Calling;
    if now[pos].key == 0 {
      CallingSkips(table, now, pos, calls, callback, param, p);
    } else {
      CallingCalls(table, now, pos, calls, callback, param, p);
    }
  }

  lemma CallingSkips<V, S>(table: seq<Node<V>>, now: seq<Node<V>>, pos: nat, calls: seq<Node<V>>,
                           callback: (nat, V, S) -> (V, S), param: S, p: S)
    requires pos < |table| == |now| && Calling(table, now, pos, calls, callback, param, p) && now[pos].key == 0
    ensures Calling(table, now, pos + 1, calls, callback, param, p)
  {
    hide Occupied;
    hide Returned;
    OccupiedNext(table, pos);
    OccupiedNext(now, pos);
    assert Occupied(table[..pos + 1]) == Occupied(table[..pos]) && Occupied(now[..pos + 1]) == Occupied(now[..pos]);
  }

  lemma CallingCalls<V, S>(table: seq<Node<V>>, now: seq<Node<V>>, pos: nat, calls: seq<Node<V>>,
                           callback: (nat, V, S) -> (V, S), param: S, p: S)
    requires pos < |table| == |now| && Calling(table, now, pos, calls, callback, param, p) && now[pos].key != 0
    ensures var r := callback(now[pos].key, now[pos].value, p);
            Calling(table, now[pos := Node(now[pos].key, r.0)], pos + 1, calls + [now[pos]], callback, param, r.1)
  {
    hide Occupied;
    hide Returned;
    var r := callback(now[pos].key, now[pos].value, p);
    var now' := now[pos := Node(now[pos].key, r.0)];
    OccupiedNext(table, pos);
    ReturnedNext(calls, now[pos], callback, param);
    OccupiedNext(now', pos);
    assert now'[..pos] == now[..pos];
  }

  lemma CallingEnds<V, S>(table: seq<Node<V>>, now: seq<Node<V>>, calls: seq<Node<V>>,
                          callback: (nat, V, S) -> (V, S), param: S, p: S)
    requires Calling(table, now, |table|, calls, callback, param, p)
    ensures |now| == |table| && calls == Occupied(table)
    ensures Returned(calls, callback, param).0 == Occupied(now) && Returned(calls, callback, param).1 == p
    ensures forall i :: 0 <= i < |now| ==> now[i].key == table[i].key
  {
    assert table[..|table|] == table && now[..|table|] == now;
  }

  lemma TableLists<V>(mods: seq<nat>, add: nat, table: seq<Node<V>>, m: map<nat, V>)
    requires TableOk(mods, add, table, m)
    ensures ListsOnce(Occupied(table), m)
  {
    OccupiedListsOnce(table, m);
  }

  lemma OccupiedNext<V>(table: seq<Node<V>>, pos: nat)
    requires pos < |table|
    ensures Occupied(table[..pos + 1]) == Occupied(table[..pos]) + if table[pos].key != 0 then [table[pos]] else []
  {
    assert table[..pos + 1][..pos] == table[..pos];
  }

  lemma ZeroNotInMap<V>(mods: seq<nat>, add: nat, table: seq<Node<V>>, m: map<nat, V>)
    requires TableOk(mods, add, table, m)
    ensures 0 !in m
  {
  }

  /** The nodes in use, in the order of the slots. */
  function Occupied<V>(table: seq<Node<V>>): seq<Node<V>> {
    if table == [] then []
    else Occupied(table[..|table| - 1]) + (if table[|table| - 1].key != 0 then [table[|table| - 1]] else [])
  }

  /** The list holds every entry of the map, each once. */
  ghost predicate ListsOnce<V>(calls: seq<Node<V>>, m: map<nat, V>) {
    && (forall i, j :: 0 <= i < j < |calls| ==> calls[i].key != calls[j].key)
    && (forall i :: 0 <= i < |calls| ==> calls[i].key in m && m[calls[i].key] == calls[i].value)
    && (forall k :: k in m ==> HoldsKey(calls, k))
  }

  lemma {:induction false} OccupiedHolds<V>(table: seq<Node<V>>, n: Node<V>)
    ensures n in Occupied(table) <==> n in table && n.key != 0
    decreases |table|
  {
    if table != [] {
      var last := |table| - 1;
      OccupiedHolds(table[..last], n);
      assert table == table[..last] + [table[last]];
    }
  }

  lemma {:induction false} OccupiedKeysDiffer<V>(table: seq<Node<V>>)
    requires KeysOnce(table)
    ensures forall i, j :: 0 <= i < j < |Occupied(table)| ==> Occupied(table)[i].key != Occupied(table)[j].key
    decreases |table|
  {
    if table != [] {
      var last := |table| - 1;
      var before := Occupied(table[..last]);
      OccupiedKeysDiffer(table[..last]);
      forall i | 0 <= i < |before| && table[last].key != 0 ensures before[i].key != table[last].key {
        OccupiedHolds(table[..last], before[i]);
      }
    }
  }

  lemma OccupiedListsOnce<V>(table: seq<Node<V>>, m: map<nat, V>)
    requires Represents(table, m) && KeysOnce(table)
    ensures ListsOnce(Occupied(table), m)
  {
    hide Occupied;
    var calls := Occupied(table);
    OccupiedKeysDiffer(table);
    forall i | 0 <= i < |calls| ensures calls[i].key in m && m[calls[i].key] == calls[i].value {
      OccupiedHolds(table, calls[i]);
    }
    forall k | k in m ensures HoldsKey(calls, k) {
      var p :| 0 <= p < |table| && table[p].key == k;
      OccupiedHolds(table, table[p]);
    }
  }

  lemma {:induction false} ListLength<V>(calls: seq<Node<V>>, m: map<nat, V>)
    requires ListsOnce(calls, m)
    ensures |calls| == |m|
    decreases |calls|
  {
    if calls == [] {
      assert m.Keys == {};
    } else {
      var key, rest := calls[0].key, calls[1..];
      var m' := m - {key};
      assert m'.Keys == m.Keys - {key};
      forall k | k in m' ensures HoldsKey(rest, k) {
        var i :| 0 <= i < |calls| && calls[i].key == k;
        assert rest[i - 1].key == k;
      }
      forall i | 0 <= i < |rest| ensures rest[i].key in m' && m'[rest[i].key] == rest[i].value {
        assert rest[i] == calls[i + 1];
      }
      ListLength(rest, m');
    }
  }

  // ---------------------------------------------------------------- string keys

  /** times33, one character at a time; characters are signed. */
  function Time33(hash: nat, s: seq<int>): nat
    decreases |s|
  {
    if s == [] then hash else Time33((hash * 33 + s[0]) % WORD64, s[1..])
  }

  function Pow33(n: nat): nat { if n == 0 then 1 else 33 * Pow33(n - 1) }

  /** The characters as digits to the base 33, the last one the lowest. */
  function Digits(s: seq<int>): int {
    if s == [] then 0 else s[0] * Pow33(|s| - 1) + Digits(s[1..])
  }

  /** The hash is the string read to the base 33 behind the starting value, in 64 bits. */
  lemma {:induction false} Time33IsPolynomial(hash: nat, s: seq<int>)
    requires hash < WORD64
    ensures Time33(hash, s) == (hash * Pow33(|s|) + Digits(s)) % WORD64
    decreases |s|
  {
    if s != [] {
      var next, p := hash * 33 + s[0], Pow33(|s| - 1);
      Time33IsPolynomial(next % WORD64, s[1..]);
      ScaledRemainder(next, p, Digits(s[1..]));
      assert next * p == hash * (33 * p) + s[0] * p;
    }
  }

  lemma ScaledRemainder(x: int, p: int, d: int)
    ensures (x % WORD64 * p + d) % WORD64 == (x * p + d) % WORD64
  {
    var q, low := x / WORD64, x % WORD64 * p + d;
    assert x * p == q * p * WORD64 + x % WORD64 * p;
    ModUnique(x * p + d, WORD64, q * p + low / WORD64, low % WORD64);
  }

  lemma {:induction false} Time33Append(hash: nat, s: seq<int>, t: seq<int>)
    ensures Time33(hash, s + t) == Time33(Time33(hash, s), t)
    decreases |s|
  {
    if s == [] {
      assert s + t == t;
    } else {
      assert (s + t)[1..] == s[1..] + t;
      Time33Append((hash * 33 + s[0]) % WORD64, s[1..], t);
    }
  }

  /** One step of the unrolled loop: the shift is multiplication by 32 in 64 bits. */
  method Mix(hash: nat, str: seq<int>, p: nat) returns (h: nat, p': nat)
    requires hash < WORD64 && p < |str|
    ensures h < WORD64 && p' == p + 1
    ensures forall h0 :: Time33(h0, str[..p]) == hash ==> Time33(h0, str[..p']) == h
  {
    h := (hash * 32 % WORD64 + hash + str[p]) % WORD64;
    p' := p + 1;
    ShiftAdd(hash, str[p]);
    forall h0 | Time33(h0, str[..p]) == hash ensures Time33(h0, str[..p']) == h {
      assert str[..p'] == str[..p] + [str[p]];
      Time33Append(h0, str[..p], [str[p]]);
      assert [str[p]][1..] == [];
    }
  }

  lemma ShiftAdd(hash: nat, c: int)
    ensures (hash * 32 % WORD64 + hash + c) % WORD64 == (hash * 33 + c) % WORD64
  {
  }

  /** hash_time33 with the body unrolled eight times and a switch for the rest; a negative length
      means the string ends at the first zero. */
  method HashTime33(str: seq<int>, length: int) returns (hash: nat)
    requires length <= |str|
    requires length < 0 ==> exists z :: 0 <= z < |str| && str[z] == 0
    ensures length >= 0 ==> hash == Time33(5381, str[..length])
    ensures length < 0 ==> exists z :: 0 <= z < |str| && str[z] == 0 && 0 !in str[..z] && hash == Time33(5381, str[..z])
  {
    hash := 5381;
    var p := 0;
    if length < 0 {
      ghost var end :| 0 <= end < |str| && str[end] == 0;
      while str[p] != 0
        invariant 0 <= p <= end && hash < WORD64
        invariant 0 !in str[..p] && hash == Time33(5381, str[..p])
        decreases end - p
      {
        hash, p := Mix(hash, str, p);
      }
      return;
    }
    var len := length;
    while len >= 8
      invariant 0 <= len && p + len == length && hash < WORD64
      invariant hash == Time33(5381, str[..p])
    {
      hash, p := Mix(hash, str, p);
      hash, p := Mix(hash, str, p);
      hash, p := Mix(hash, str, p);
      hash, p := Mix(hash, str, p);
      hash, p := Mix(hash, str, p);
      hash, p := Mix(hash, str, p);
      hash, p := Mix(hash, str, p);
      hash, p := Mix(hash, str, p);
      len := len - 8;
    }
    if len >= 7 { hash, p := Mix(hash, str, p); }
    if len >= 6 { hash, p := Mix(hash, str, p); }
    if len >= 5 { hash, p := Mix(hash, str, p); }
    if len >= 4 { hash, p := Mix(hash, str, p); }
    if len >= 3 { hash, p := Mix(hash, str, p); }
    if len >= 2 { hash, p := Mix(hash, str, p); }
    if len >= 1 { hash, p := Mix(hash, str, p); }
  }
}
