/**
 The insert path of the B+ tree of order 7. Nodes are values; leaves also carry a number, their
 identity, by which the table of right-sibling pointers refers to them.
 */
module BPlusTree {

  type Key = real
  type Data = int

  const ORDER := 7
  const MINNUM_KEY := ORDER - 1
  const MAXNUM_KEY := 2 * ORDER - 1
  const MINNUM_CHILD := MINNUM_KEY + 1

  datatype Option<T> = None | Some(value: T)

  datatype Tree =
    | Leaf(id: nat, keys: seq<Key>, datas: seq<Data>)
    | Internal(keys: seq<Key>, kids: seq<Tree>)

  ghost predicate Sorted(keys: seq<Key>) {
    forall i, j :: 0 <= i <= j < |keys| ==> keys[i] <= keys[j]
  }

  // ---------------------------------------------------------------- searching inside a node

  /** The bisection of getKeyIndex between left and right. */
  function KeyIndexIn(keys: seq<Key>, key: Key, left: nat, right: nat): (r: nat)
    requires left <= right < |keys|
    ensures left <= r <= right
    decreases right - left
  {
    if left == right then left
    else
      var current := (left + right) / 2;
      if key > keys[current] then KeyIndexIn(keys, key, current + 1, right)
      else KeyIndexIn(keys, key, left, current)
  }

  /** getKeyIndex; a node without keys is never asked. */
  function KeyIndex(keys: seq<Key>, key: Key): (r: nat)
    requires keys != []
    ensures r < |keys|
  {
    KeyIndexIn(keys, key, 0, |keys| - 1)
  }

  /** Sorted but for the last key, which the bisection never compares. */
  ghost predicate SortedBeforeLast(keys: seq<Key>) {
    forall i, j :: 0 <= i <= j < |keys| - 1 ==> keys[i] <= keys[j]
  }

  /** On keys sorted but for the last the bisection finds the first that is not smaller, except that it
      answers the last index when every other key is smaller. */
  lemma {:induction false} KeyIndexFinds(keys: seq<Key>, key: Key, left: nat, right: nat)
    requires SortedBeforeLast(keys) && left <= right < |keys|
    requires forall i :: 0 <= i < left ==> keys[i] < key
    requires right + 1 < |keys| ==> key <= keys[right]
    ensures var r := KeyIndexIn(keys, key, left, right);
            (forall i :: 0 <= i < r ==> keys[i] < key) && (r + 1 < |keys| ==> key <= keys[r])
    decreases right - left
  {
    if left < right {
      var current := (left + right) / 2;
      if key > keys[current] {
        KeyIndexFinds(keys, key, current + 1, right);
      } else {
        KeyIndexFinds(keys, key, left, current);
      }
    }
  }

  method GetKeyIndex(keyValues: array<Key>, keyNum: nat, key: Key) returns (left: nat)
    requires 0 < keyNum <= keyValues.Length
    ensures left == KeyIndex(keyValues[..keyNum], key)
  {
    left := 0;
    var right := keyNum - 1;
    while left != right
      invariant 0 <= left <= right < keyNum
      invariant KeyIndex(keyValues[..keyNum], key) == KeyIndexIn(keyValues[..keyNum], key, left, right)
      decreases right - left
    {
      var current := (left + right) / 2;
      if key > keyValues[current] {
        left := current + 1;
      } else {
        right := current;
      }
    }
  }

  /** getChildIndex of an internal node. */
  function ChildIndex(keys: seq<Key>, key: Key): (r: nat)
    requires keys != []
    ensures r <= |keys|
  {
    var k := KeyIndex(keys, key);
    if key == keys[k] then k + 1 else k
  }

  // ---------------------------------------------------------------- insertion into the arrays of a node

  function InsertAt<T>(s: seq<T>, i: nat, x: T): (r: seq<T>)
    requires i <= |s|
    ensures |r| == |s| + 1
  {
    s[..i] + [x] + s[i..]
  }

  lemma ShiftedIsInserted<T>(s: seq<T>, r: seq<T>, i: nat, x: T)
    requires i <= |s| && |r| == |s| + 1 && r[i] == x
    requires forall j :: 0 <= j < i ==> r[j] == s[j]
    requires forall j :: i < j < |r| ==> r[j] == s[j - 1]
    ensures r == InsertAt(s, i, x)
  {
  }

  /** Where CLeafNode::insert stops shifting. */
  function LeafPos(keys: seq<Key>, key: Key, i: nat): (r: nat)
    requires i <= |keys|
    ensures r <= i
  {
    if i >= 1 && keys[i - 1] > key then LeafPos(keys, key, i - 1) else i
  }

  lemma LeafPosStep(keys: seq<Key>, key: Key, i: nat)
    requires i <= |keys|
    ensures LeafPos(keys, key, i) == if i >= 1 && keys[i - 1] > key then LeafPos(keys, key, i - 1) else i
  {
  }

  /** CLeafNode::insert: shifts keys and data in place to make room. */
  method LeafInsert(keyValues: array<Key>, datas: array<Data>, keyNum: nat, key: Key, data: Data)
    requires keyValues.Length == datas.Length && keyNum < keyValues.Length
    modifies keyValues, datas
    ensures var p := LeafPos(old(keyValues[..keyNum]), key, keyNum);
            && keyValues[..keyNum + 1] == InsertAt(old(keyValues[..keyNum]), p, key)
            && datas[..keyNum + 1] == InsertAt(old(datas[..keyNum]), p, data)
  {
    hide InsertAt;
    hide LeafPos;
    ghost var ks, ds := keyValues[..keyNum], datas[..keyNum];
    var i := keyNum;
    while i >= 1 && keyValues[i - 1] > key
      invariant 0 <= i <= keyNum
      invariant forall j :: 0 <= j < i ==> keyValues[j] == ks[j] && datas[j] == ds[j]
      invariant forall j :: i < j <= keyNum ==> keyValues[j] == ks[j - 1] && datas[j] == ds[j - 1]
      invariant LeafPos(ks, key, keyNum) == LeafPos(ks, key, i)
    {
      LeafPosStep(ks, key, i);
      keyValues[i] := keyValues[i - 1];
      datas[i] := datas[i - 1];
      i := i - 1;
    }
    LeafPosStep(ks, key, i);
    keyValues[i] := key;
    datas[i] := data;
    ShiftedIsInserted(ks, keyValues[..keyNum + 1], i, key);
    ShiftedIsInserted(ds, datas[..keyNum + 1], i, data);
  }

  /** CInternalNode::insert as the splits call it, with the new child right of the new key. */
  method InternalInsert<T>(keyValues: array<Key>, childs: array<T>, keyNum: nat, keyIndex: nat, key: Key, child: T)
    requires keyNum < keyValues.Length && childs.Length == keyValues.Length + 1 && keyIndex <= keyNum
    modifies keyValues, childs
    ensures keyValues[..keyNum + 1] == InsertAt(old(keyValues[..keyNum]), keyIndex, key)
    ensures childs[..keyNum + 2] == InsertAt(old(childs[..keyNum + 1]), keyIndex + 1, child)
  {
    hide InsertAt;
    ghost var ks, cs := keyValues[..keyNum], childs[..keyNum + 1];
    var i := keyNum;
    while i > keyIndex
      invariant keyIndex <= i <= keyNum
      invariant forall j :: 0 <= j < i ==> keyValues[j] == ks[j]
      invariant forall j :: 0 <= j <= i ==> childs[j] == cs[j]
      invariant forall j :: i < j <= keyNum ==> keyValues[j] == ks[j - 1]
      invariant forall j :: i + 1 < j <= keyNum + 1 ==> childs[j] == cs[j - 1]
    {
      childs[i + 1] := childs[i];
      keyValues[i] := keyValues[i - 1];
      i := i - 1;
    }
    childs[keyIndex + 1] := child;
    keyValues[keyIndex] := key;
    ShiftedIsInserted(ks, keyValues[..keyNum + 1], keyIndex, key);
    ShiftedIsInserted(cs, childs[..keyNum + 2], keyIndex + 1, child);
  }

  // ---------------------------------------------------------------- splitting

  datatype Split = Split(left: Tree, sep: Key, right: Tree)

  predicate Full(t: Tree) {
    |t.keys| == MAXNUM_KEY && if t.Leaf? then |t.datas| == MAXNUM_KEY else |t.kids| == MAXNUM_KEY + 1
  }

  /** Both split methods; a new leaf gets the number num. */
  function SplitNode(t: Tree, num: nat): (r: Split)
    requires Full(t)
  {
    match t
    case Leaf(id, keys, datas) =>
      Split(Leaf(id, keys[..MINNUM_KEY], datas[..MINNUM_KEY]), keys[MINNUM_KEY],
            Leaf(num, keys[MINNUM_KEY..], datas[MINNUM_KEY..]))
    case Internal(keys, kids) =>
      Split(Internal(keys[..MINNUM_KEY], kids[..MINNUM_CHILD]), keys[MINNUM_KEY],
            Internal(keys[MINNUM_CHILD..], kids[MINNUM_CHILD..]))
  }

  /** CLeafNode::split: copies the upper half into a new node. */
  method LeafSplit(keyValues: array<Key>, datas: array<Data>) returns (newKeys: array<Key>, newDatas: array<Data>)
    requires keyValues.Length == datas.Length == MAXNUM_KEY
    ensures fresh(newKeys) && fresh(newDatas) && newKeys.Length == newDatas.Length == MAXNUM_KEY
    ensures forall id, num: nat ::
              SplitNode(Leaf(id, keyValues[..], datas[..]), num)
              == Split(Leaf(id, keyValues[..MINNUM_KEY], datas[..MINNUM_KEY]), keyValues[MINNUM_KEY],
                       Leaf(num, newKeys[..MINNUM_KEY + 1], newDatas[..MINNUM_KEY + 1]))
  {
    newKeys, newDatas := new Key[MAXNUM_KEY], new Data[MAXNUM_KEY];
    for i := 0 to MINNUM_KEY + 1
      invariant forall j :: 0 <= j < i ==> newKeys[j] == keyValues[j + MINNUM_KEY]
    {
      newKeys[i] := keyValues[i + MINNUM_KEY];
    }
    for i := 0 to MINNUM_KEY + 1
      invariant forall j :: 0 <= j < MINNUM_KEY + 1 ==> newKeys[j] == keyValues[j + MINNUM_KEY]
      invariant forall j :: 0 <= j < i ==> newDatas[j] == datas[j + MINNUM_KEY]
    {
      newDatas[i] := datas[i + MINNUM_KEY];
    }
    assert newKeys[..MINNUM_KEY + 1] == keyValues[..][MINNUM_KEY..];
    assert newDatas[..MINNUM_KEY + 1] == datas[..][MINNUM_KEY..];
    assert keyValues[..][..MINNUM_KEY] == keyValues[..MINNUM_KEY] && datas[..][..MINNUM_KEY] == datas[..MINNUM_KEY];
  }

  /** CInternalNode::split: copies the keys and children right of the middle key into a new node. */
  method InternalSplit(keyValues: array<Key>, childs: array<Tree>) returns (newKeys: array<Key>, newChilds: array<Tree>)
    requires keyValues.Length == MAXNUM_KEY && childs.Length == MAXNUM_KEY + 1
    ensures fresh(newKeys) && fresh(newChilds) && newKeys.Length == MAXNUM_KEY && newChilds.Length == MAXNUM_KEY + 1
    ensures forall num: nat ::
              SplitNode(Internal(keyValues[..], childs[..]), num)
              == Split(Internal(keyValues[..MINNUM_KEY], childs[..MINNUM_CHILD]), keyValues[MINNUM_KEY],
                       Internal(newKeys[..MINNUM_KEY], newChilds[..MINNUM_CHILD]))
  {
    newKeys, newChilds := new Key[MAXNUM_KEY], new Tree[MAXNUM_KEY + 1];
    for i := 0 to MINNUM_KEY
      invariant forall j :: 0 <= j < i ==> newKeys[j] == keyValues[j + MINNUM_CHILD]
    {
      newKeys[i] := keyValues[i + MINNUM_CHILD];
    }
    for i := 0 to MINNUM_CHILD
      invariant forall j :: 0 <= j < MINNUM_KEY ==> newKeys[j] == keyValues[j + MINNUM_CHILD]
      invariant forall j :: 0 <= j < i ==> newChilds[j] == childs[j + MINNUM_CHILD]
    {
      newChilds[i] := childs[i + MINNUM_CHILD];
    }
    assert newKeys[..MINNUM_KEY] == keyValues[..][MINNUM_CHILD..];
    assert newChilds[..MINNUM_CHILD] == childs[..][MINNUM_CHILD..];
    assert keyValues[..][..MINNUM_KEY] == keyValues[..MINNUM_KEY];
    assert childs[..][..MINNUM_CHILD] == childs[..MINNUM_CHILD];
  }

  /** The parent after its full child ci has been split. */
  function SplitChild(t: Tree, ci: nat, num: nat): (r: Tree)
    requires t.Internal? && ci < |t.kids| == |t.keys| + 1 && Full(t.kids[ci])
    ensures r.Internal? && |r.keys| == |t.keys| + 1 && |r.kids| == |t.kids| + 1
    ensures r.keys[ci] == SplitNode(t.kids[ci], num).sep
    ensures r.kids[ci] == SplitNode(t.kids[ci], num).left && r.kids[ci + 1] == SplitNode(t.kids[ci], num).right
  {
    var s := SplitNode(t.kids[ci], num);
    Internal(InsertAt(t.keys, ci, s.sep), InsertAt(t.kids[ci := s.left], ci + 1, s.right))
  }

  // ---------------------------------------------------------------- shape

  /** All leaves h levels down; 6 to 13 keys, one child more than keys, leaves sorted. The node itself
      may have as few as `low` keys. */
  ghost predicate Shape(t: Tree, h: nat, low: nat)
    decreases h
  {
    && low <= |t.keys| <= MAXNUM_KEY
    && match t
       case Leaf(_, keys, datas) => h == 0 && |datas| == |keys| && Sorted(keys)
       case Internal(keys, kids) =>
         h > 0 && |kids| == |keys| + 1 && forall i :: 0 <= i < |kids| ==> Shape(kids[i], h - 1, MINNUM_KEY)
  }

  lemma FullInShape(t: Tree, h: nat, low: nat)
    requires Shape(t, h, low) && |t.keys| >= MAXNUM_KEY
    ensures Full(t) && Shape(t, h, MINNUM_KEY)
  {
  }

  lemma SplitChildShape(t: Tree, h: nat, ci: nat, num: nat, low: nat)
    requires Shape(t, h, low) && t.Internal? && ci < |t.kids| && |t.keys| < MAXNUM_KEY && Full(t.kids[ci])
    ensures var r := SplitChild(t, ci, num);
            Shape(r, h, low + 1) && |r.kids[ci].keys| < MAXNUM_KEY && |r.kids[ci + 1].keys| < MAXNUM_KEY
  {
  }

  lemma ShapeWeaken(t: Tree, h: nat, low: nat, low': nat)
    requires Shape(t, h, low) && low' <= low
    ensures Shape(t, h, low')
  {
  }

  // ---------------------------------------------------------------- recursive_insert

  /** The tree after the insertion below a node that is not full, and the number of the leaf that was
      split on the way, -1 if none was. */
  datatype Result = Result(tree: Tree, splitLeaf: int)

  /** A node the insertion may descend into. */
  ghost predicate Open(t: Tree, h: nat, low: nat) {
    Shape(t, h, low) && |t.keys| < MAXNUM_KEY && (t.Internal? ==> t.keys != [])
  }

  /** The node after the possible split of the child on the path. */
  function Prepared(t: Tree, key: Key, num: nat): (r: Tree)
    requires t.Internal? && t.keys != [] && |t.kids| == |t.keys| + 1
  {
    var ci := ChildIndex(t.keys, key);
    if Full(t.kids[ci]) then SplitChild(t, ci, num) else t
  }

  /** The child the insertion descends to in the prepared node. */
  function Target(t: Tree, key: Key, num: nat): (j: nat)
    requires t.Internal? && t.keys != [] && |t.kids| == |t.keys| + 1
  {
    var ci := ChildIndex(t.keys, key);
    if Full(t.kids[ci]) && SplitNode(t.kids[ci], num).sep <= key then ci + 1 else ci
  }

  function SplitId(t: Tree, key: Key): int
    requires t.Internal? && t.keys != [] && |t.kids| == |t.keys| + 1
  {
    var c := t.kids[ChildIndex(t.keys, key)];
    if Full(c) && c.Leaf? then c.id else -1
  }

  /** The prepared node has the same height, room for one key more, and a child with room on the path. */
  lemma PreparedOpen(t: Tree, key: Key, num: nat, h: nat, low: nat)
    requires Open(t, h, low) && t.Internal?
    ensures h > 0 && |t.kids| == |t.keys| + 1
    ensures var q, j := Prepared(t, key, num), Target(t, key, num);
            && q.Internal? && Shape(q, h, low) && |t.keys| <= |q.keys| <= |t.keys| + 1
            && j < |q.kids| && Open(q.kids[j], h - 1, MINNUM_KEY)
  {
    var ci := ChildIndex(t.keys, key);
    assert Shape(t.kids[ci], h - 1, MINNUM_KEY);
    if |t.kids[ci].keys| >= MAXNUM_KEY {
      FullInShape(t.kids[ci], h - 1, MINNUM_KEY);
      SplitChildShape(t, h, ci, num, low);
      ShapeWeaken(SplitChild(t, ci, num), h, low + 1, low);
    }
  }

  ghost function InsertBelow(t: Tree, key: Key, data: Data, num: nat, h: nat, low: nat): (r: Result)
    requires Open(t, h, low)
    decreases h
  {
    if t.Leaf? then Result(LeafWith(t, key, data), -1)
    else
      PreparedOpen(t, key, num, h, low);
      var q, j := Prepared(t, key, num), Target(t, key, num);
      var sub := InsertBelow(q.kids[j], key, data, num, h - 1, MINNUM_KEY);
      Result(q.(kids := q.kids[j := sub.tree]), if sub.splitLeaf != -1 then sub.splitLeaf else SplitId(t, key))
  }

  function LeafWith(t: Tree, key: Key, data: Data): (r: Tree)
    requires t.Leaf? && |t.datas| == |t.keys|
    ensures r.Leaf? && r.id == t.id
  {
    var p := LeafPos(t.keys, key, |t.keys|);
    Leaf(t.id, InsertAt(t.keys, p, key), InsertAt(t.datas, p, data))
  }

  lemma LeafStaysSorted(keys: seq<Key>, key: Key, i: nat)
    requires Sorted(keys) && i <= |keys| && forall j :: i <= j < |keys| ==> keys[j] > key
    ensures Sorted(InsertAt(keys, LeafPos(keys, key, i), key))
    decreases i
  {
  }

  /** The insertion keeps the shape; the node gains at most one key. */
  lemma {:induction false} InsertBelowShape(t: Tree, key: Key, data: Data, num: nat, h: nat, low: nat)
    requires Open(t, h, low)
    ensures var r := InsertBelow(t, key, data, num, h, low).tree;
            && Shape(r, h, low) && |t.keys| <= |r.keys| <= |t.keys| + 1
            && (t.Leaf? ==> |r.keys| == |t.keys| + 1) && (t.Leaf? <==> r.Leaf?)
    decreases h
  {
    if t.Leaf? {
      LeafStaysSorted(t.keys, key, |t.keys|);
    } else {
      hide Prepared;
      hide Target;
      PreparedOpen(t, key, num, h, low);
      var q, j := Prepared(t, key, num), Target(t, key, num);
      InsertBelowShape(q.kids[j], key, data, num, h - 1, MINNUM_KEY);
      var r := InsertBelow(t, key, data, num, h, low).tree;
      forall i | 0 <= i < |r.kids| ensures Shape(r.kids[i], h - 1, MINNUM_KEY) {
        if i != j { assert r.kids[i] == q.kids[i]; }
      }
    }
  }

  // ---------------------------------------------------------------- the leaves in order

  /** All leaves from left to right. */
  function Leaves(t: Tree): (r: seq<Tree>)
    decreases t
  {
    if t.Leaf? then [t] else LeavesAll(t.kids)
  }

  function LeavesAll(kids: seq<Tree>): (r: seq<Tree>)
    decreases kids
  {
    if kids == [] then [] else Leaves(kids[0]) + LeavesAll(kids[1..])
  }

  lemma {:induction false} LeavesAppend(a: seq<Tree>, b: seq<Tree>)
    ensures LeavesAll(a + b) == LeavesAll(a) + LeavesAll(b)
    decreases |a|
  {
    if a == [] {
      assert a + b == b;
    } else {
      LeavesAppend(a[1..], b);
      assert (a + b)[1..] == a[1..] + b;
    }
  }

  lemma OneKid(kid: Tree)
    ensures LeavesAll([kid]) == Leaves(kid)
  {
  }

  lemma LeavesAround(kids: seq<Tree>, j: nat)
    requires j < |kids|
    ensures LeavesAll(kids) == LeavesAll(kids[..j]) + Leaves(kids[j]) + LeavesAll(kids[j + 1..])
  {
    hide Leaves;
    hide LeavesAll;
    Around(kids, j);
    ThreeParts(kids[..j], kids[j], kids[j + 1..]);
  }

  lemma ThreeParts(head: seq<Tree>, kid: Tree, tail: seq<Tree>)
    ensures LeavesAll(head + [kid] + tail) == LeavesAll(head) + Leaves(kid) + LeavesAll(tail)
  {
    hide Leaves;
    hide LeavesAll;
    LeavesAppend(head + [kid], tail);
    LeavesAppend(head, [kid]);
    OneKid(kid);
  }

  lemma Around<T>(s: seq<T>, j: nat)
    requires j < |s|
    ensures s == s[..j] + [s[j]] + s[j + 1..]
  {
  }

  lemma {:induction false} LeavesAreLeaves(t: Tree)
    ensures forall i :: 0 <= i < |Leaves(t)| ==> Leaves(t)[i].Leaf?
    decreases t, 0
  {
    if t.Internal? { LeavesAllAreLeaves(t.kids); }
  }

  lemma {:induction false} LeavesAllAreLeaves(kids: seq<Tree>)
    ensures forall i :: 0 <= i < |LeavesAll(kids)| ==> LeavesAll(kids)[i].Leaf?
    decreases kids, 1
  {
    if kids != [] {
      LeavesAreLeaves(kids[0]);
      LeavesAllAreLeaves(kids[1..]);
    }
  }

  /** Splitting an internal node leaves the leaves alone; splitting a leaf replaces it by its halves. */
  lemma SplitNodeLeaves(t: Tree, num: nat)
    requires Full(t)
    ensures var s := SplitNode(t, num);
            Leaves(s.left) + Leaves(s.right) == if t.Leaf? then [s.left, s.right] else Leaves(t)
  {
    if t.Internal? {
      assert t.kids == t.kids[..MINNUM_CHILD] + t.kids[MINNUM_CHILD..];
      LeavesAppend(t.kids[..MINNUM_CHILD], t.kids[MINNUM_CHILD..]);
    }
  }

  lemma SplitChildLeaves(t: Tree, ci: nat, num: nat)
    requires t.Internal? && ci < |t.kids| == |t.keys| + 1 && Full(t.kids[ci])
    ensures var s := SplitNode(t.kids[ci], num);
            Leaves(SplitChild(t, ci, num))
            == LeavesAll(t.kids[..ci]) + (Leaves(s.left) + Leaves(s.right)) + LeavesAll(t.kids[ci + 1..])
  {
    var s, kids := SplitNode(t.kids[ci], num), SplitChild(t, ci, num).kids;
    LeavesAround(kids, ci);
    LeavesAround(kids[ci + 1..], 0);
    assert kids[..ci] == t.kids[..ci];
    assert kids[ci + 1..][1..] == t.kids[ci + 1..];
    assert kids[ci + 1..][..0] == [];
  }

  /** Replaces entry i by the given leaves. */
  function Spliced<T>(s: seq<T>, i: nat, middle: seq<T>): (r: seq<T>)
    requires i < |s|
  {
    s[..i] + middle + s[i + 1..]
  }

  lemma SplicedInside<T>(a: seq<T>, m: seq<T>, b: seq<T>, i: nat, x: seq<T>)
    requires i < |m|
    ensures |a| + i < |a + m + b| && (a + m + b)[|a| + i] == m[i]
    ensures Spliced(a + m + b, |a| + i, x) == a + Spliced(m, i, x) + b
  {
  }

  /** What becomes of the leaf c that receives the pair: it grows, or it is split and one half grows. */
  ghost predicate Grown(c: Tree, key: Key, data: Data, num: nat, split: bool, r: seq<Tree>) {
    c.Leaf? && |c.datas| == |c.keys| &&
    if !split then r == [LeafWith(c, key, data)]
    else
      && Full(c)
      && var s := SplitNode(c, num);
         r == [LeafWith(s.left, key, data), s.right] || r == [s.left, LeafWith(s.right, key, data)]
  }

  /** Replacing a child replaces its stretch of the leaves. */
  lemma KidReplaced(q: Tree, j: nat, kid': Tree, k: nat, r: seq<Tree>)
    requires q.Internal? && j < |q.kids| && k < |Leaves(q.kids[j])|
    requires Leaves(kid') == Spliced(Leaves(q.kids[j]), k, r)
    ensures var at := |LeavesAll(q.kids[..j])| + k;
            && at < |Leaves(q)| && Leaves(q)[at] == Leaves(q.kids[j])[k]
            && Leaves(q.(kids := q.kids[j := kid'])) == Spliced(Leaves(q), at, r)
  {
    hide LeavesAll;
    var kids' := q.kids[j := kid'];
    LeavesAround(q.kids, j);
    LeavesAround(kids', j);
    assert kids'[..j] == q.kids[..j] && kids'[j + 1..] == q.kids[j + 1..];
    SplicedInside(LeavesAll(q.kids[..j]), Leaves(q.kids[j]), LeavesAll(q.kids[j + 1..]), k, r);
  }

  /** Unless a leaf is split, preparing the node leaves the leaves alone. */
  lemma PreparedLeaves(t: Tree, key: Key, num: nat)
    requires t.Internal? && t.keys != [] && |t.kids| == |t.keys| + 1 && SplitId(t, key) == -1
    ensures Leaves(Prepared(t, key, num)) == Leaves(t)
  {
    hide Leaves;
    hide LeavesAll;
    var ci := ChildIndex(t.keys, key);
    if Full(t.kids[ci]) {
      SplitNodeLeaves(t.kids[ci], num);
      SplitChildLeaves(t, ci, num);
      InternalLeaves(t);
      LeavesAround(t.kids, ci);
    }
  }

  lemma InternalLeaves(t: Tree)
    requires t.Internal?
    ensures Leaves(t) == LeavesAll(t.kids)
  {
  }

  /** The result of the insertion, told by the leaves. */
  ghost predicate OneLeafChanged(t: Tree, x: Result, key: Key, data: Data, num: nat, i: nat, r: seq<Tree>) {
    && i < |Leaves(t)| && Leaves(x.tree) == Spliced(Leaves(t), i, r)
    && Grown(Leaves(t)[i], key, data, num, x.splitLeaf != -1, r)
    && (x.splitLeaf != -1 ==> x.splitLeaf == Leaves(t)[i].id)
  }

  /** The insertion when the full leaf on the path hangs from this node. */
  lemma InsertIntoHalf(t: Tree, key: Key, data: Data, num: nat, h: nat, low: nat)
    requires Open(t, h, low) && t.Internal?
    requires t.keys != [] && |t.kids| == |t.keys| + 1 && SplitId(t, key) != -1
    ensures var ci, q, j := ChildIndex(t.keys, key), Prepared(t, key, num), Target(t, key, num);
            && t.kids[ci].Leaf? && Full(t.kids[ci]) && q == SplitChild(t, ci, num) && (j == ci || j == ci + 1)
            && q.kids[j].Leaf? && |q.kids[j].datas| == |q.kids[j].keys|
            && InsertBelow(t, key, data, num, h, low)
               == Result(q.(kids := q.kids[j := LeafWith(q.kids[j], key, data)]), t.kids[ci].id)
  {
  }

  /** The leaf on the path is full: it is split at this node and one half takes the pair. */
  lemma SplitAtThisNode(t: Tree, key: Key, data: Data, num: nat, h: nat, low: nat) returns (i: nat, r: seq<Tree>)
    requires Open(t, h, low) && t.Internal?
    requires t.keys != [] && |t.kids| == |t.keys| + 1 && SplitId(t, key) != -1
    ensures OneLeafChanged(t, InsertBelow(t, key, data, num, h, low), key, data, num, i, r)
  {
    hide LeavesAll;
    hide LeafWith;
    hide InsertBelow;
    hide Open;
    hide SplitId;
    hide Prepared;
    hide Target;
    hide ChildIndex;
    InsertIntoHalf(t, key, data, num, h, low);
    var ci, j := ChildIndex(t.keys, key), Target(t, key, num);
    var c := t.kids[ci];
    var s := SplitNode(c, num);
    var x := InsertBelow(t, key, data, num, h, low);
    r := if j == ci then [LeafWith(s.left, key, data), s.right] else [s.left, LeafWith(s.right, key, data)];
    assert x.tree.kids == t.kids[..ci] + r + t.kids[ci + 1..];
    i := |LeavesAll(t.kids[..ci])|;
    TwoLeaves(r);
    LeavesAppend(t.kids[..ci] + r, t.kids[ci + 1..]);
    LeavesAppend(t.kids[..ci], r);
    LeavesAround(t.kids, ci);
  }

  lemma TwoLeaves(r: seq<Tree>)
    requires |r| == 2 && r[0].Leaf? && r[1].Leaf?
    ensures LeavesAll(r) == r
  {
    assert LeavesAll(r[1..]) == [r[1]] by { assert r[1..][1..] == []; }
  }

  lemma BelowUnfolds(t: Tree, key: Key, data: Data, num: nat, h: nat, low: nat)
    requires Open(t, h, low) && t.Internal? && h > 0 && t.keys != [] && |t.kids| == |t.keys| + 1
    requires SplitId(t, key) == -1
    ensures var q, j := Prepared(t, key, num), Target(t, key, num);
            && q.Internal? && j < |q.kids| && Open(q.kids[j], h - 1, MINNUM_KEY)
            && var sub := InsertBelow(q.kids[j], key, data, num, h - 1, MINNUM_KEY);
               InsertBelow(t, key, data, num, h, low) == Result(q.(kids := q.kids[j := sub.tree]), sub.splitLeaf)
  {
    hide Prepared;
    hide Target;
    hide SplitId;
    PreparedOpen(t, key, num, h, low);
  }

  /** A change of one leaf below child j of q is a change of one leaf of t, if t and q have the same leaves. */
  lemma ChangeCarriesUp(t: Tree, q: Tree, j: nat, sub: Result, key: Key, data: Data, num: nat, i: nat, r: seq<Tree>)
    requires q.Internal? && j < |q.kids| && Leaves(q) == Leaves(t)
    requires OneLeafChanged(q.kids[j], sub, key, data, num, i, r)
    ensures OneLeafChanged(t, Result(q.(kids := q.kids[j := sub.tree]), sub.splitLeaf), key, data, num,
                           |LeavesAll(q.kids[..j])| + i, r)
  {
    hide Leaves;
    hide LeavesAll;
    hide Grown;
    hide Spliced;
    KidReplaced(q, j, sub.tree, i, r);
  }

  lemma InsertIntoLeaf(t: Tree, key: Key, data: Data, num: nat, h: nat, low: nat) returns (i: nat, r: seq<Tree>)
    requires Open(t, h, low) && t.Leaf?
    ensures OneLeafChanged(t, InsertBelow(t, key, data, num, h, low), key, data, num, i, r)
  {
    hide LeafWith;
    i, r := 0, [LeafWith(t, key, data)];
  }

  /** The insertion changes exactly one leaf, in place in the order of leaves. */
  lemma {:induction false} InsertBelowLeaves(t: Tree, key: Key, data: Data, num: nat, h: nat, low: nat)
    returns (i: nat, r: seq<Tree>)
    requires Open(t, h, low)
    ensures OneLeafChanged(t, InsertBelow(t, key, data, num, h, low), key, data, num, i, r)
    decreases h
  {
    hide OneLeafChanged;
    hide LeavesAll;
    hide Leaves;
    hide Prepared;
    hide Target;
    hide SplitId;
    hide InsertBelow;
    if t.Leaf? {
      i, r := InsertIntoLeaf(t, key, data, num, h, low);
    } else {
      PreparedOpen(t, key, num, h, low);
      if SplitId(t, key) != -1 {
        i, r := SplitAtThisNode(t, key, data, num, h, low);
      } else {
        BelowUnfolds(t, key, data, num, h, low);
        hide Open;
        var q, j := Prepared(t, key, num), Target(t, key, num);
        var sub := InsertBelow(q.kids[j], key, data, num, h - 1, MINNUM_KEY);
        i, r := InsertBelowLeaves(q.kids[j], key, data, num, h - 1, MINNUM_KEY);
        PreparedLeaves(t, key, num);
        ChangeCarriesUp(t, q, j, sub, key, data, num, i, r);
        i := |LeavesAll(q.kids[..j])| + i;
      }
    }
  }

  // ---------------------------------------------------------------- contents and size

  function Zip(keys: seq<Key>, datas: seq<Data>): (r: seq<(Key, Data)>)
    requires |keys| == |datas|
    ensures |r| == |keys| && forall i :: 0 <= i < |r| ==> r[i] == (keys[i], datas[i])
  {
    seq(|keys|, i requires 0 <= i < |keys| => (keys[i], datas[i]))
  }

  function PairsOf(leaf: Tree): multiset<(Key, Data)> {
    if leaf.Leaf? && |leaf.datas| == |leaf.keys| then multiset(Zip(leaf.keys, leaf.datas)) else multiset{}
  }

  /** The (key, data) pairs of a row of leaves. */
  function Pairs(leaves: seq<Tree>): multiset<(Key, Data)> {
    if leaves == [] then multiset{} else PairsOf(leaves[0]) + Pairs(leaves[1..])
  }

  lemma {:induction false} PairsAppend(a: seq<Tree>, b: seq<Tree>)
    ensures Pairs(a + b) == Pairs(a) + Pairs(b)
    decreases |a|
  {
    hide PairsOf;
    if a == [] {
      assert a + b == b;
    } else {
      PairsAppend(a[1..], b);
      assert (a + b)[1..] == a[1..] + b;
    }
  }

  lemma InsertAtMultiset<T>(s: seq<T>, i: nat, x: T)
    requires i <= |s|
    ensures multiset(InsertAt(s, i, x)) == multiset(s) + multiset{x}
  {
    assert s == s[..i] + s[i..];
  }

  lemma LeafWithPairs(t: Tree, key: Key, data: Data)
    requires t.Leaf? && |t.datas| == |t.keys|
    ensures PairsOf(LeafWith(t, key, data)) == PairsOf(t) + multiset{(key, data)}
  {
    var p := LeafPos(t.keys, key, |t.keys|);
    var r := LeafWith(t, key, data);
    assert Zip(r.keys, r.datas) == InsertAt(Zip(t.keys, t.datas), p, (key, data));
    InsertAtMultiset(Zip(t.keys, t.datas), p, (key, data));
  }

  lemma SplitLeafPairs(c: Tree, num: nat)
    requires c.Leaf? && Full(c)
    ensures var s := SplitNode(c, num); PairsOf(s.left) + PairsOf(s.right) == PairsOf(c)
  {
    var s := SplitNode(c, num);
    var z := Zip(c.keys, c.datas);
    assert z == Zip(s.left.keys, s.left.datas) + Zip(s.right.keys, s.right.datas);
  }

  lemma PairsOfTwo(a: Tree, b: Tree)
    ensures Pairs([a, b]) == PairsOf(a) + PairsOf(b) && Pairs([a]) == PairsOf(a)
  {
    hide PairsOf;
    OnePairsOf(a);
    OnePairsOf(b);
    assert [a, b][1..] == [b];
  }

  lemma OnePairsOf(a: Tree)
    ensures Pairs([a]) == PairsOf(a)
  {
  }

  /** The changed leaf holds the new pair and otherwise what it held. */
  lemma GrownPairs(c: Tree, key: Key, data: Data, num: nat, split: bool, r: seq<Tree>)
    requires Grown(c, key, data, num, split, r)
    ensures Pairs(r) == PairsOf(c) + multiset{(key, data)}
  {
    hide PairsOf;
    hide LeafWith;
    if !split {
      LeafWithPairs(c, key, data);
      PairsOfTwo(r[0], c);
    } else {
      var s := SplitNode(c, num);
      SplitLeafPairs(c, num);
      LeafWithPairs(s.left, key, data);
      LeafWithPairs(s.right, key, data);
      PairsOfTwo(r[0], r[1]);
    }
  }

  /** A successful insertion adds exactly one pair. */
  lemma OnePairAdded(t: Tree, x: Result, key: Key, data: Data, num: nat, i: nat, r: seq<Tree>)
    requires OneLeafChanged(t, x, key, data, num, i, r)
    ensures Pairs(Leaves(x.tree)) == Pairs(Leaves(t)) + multiset{(key, data)}
  {
    hide Pairs;
    hide Leaves;
    hide Grown;
    var l := Leaves(t);
    GrownPairs(l[i], key, data, num, x.splitLeaf != -1, r);
    Around(l, i);
    PairsParts(l[..i], [l[i]], l[i + 1..]);
    PairsParts(l[..i], r, l[i + 1..]);
    PairsOfTwo(l[i], l[i]);
    Swap3(Pairs(l[..i]), PairsOf(l[i]), multiset{(key, data)}, Pairs(l[i + 1..]));
  }

  lemma PairsParts(a: seq<Tree>, m: seq<Tree>, b: seq<Tree>)
    ensures Pairs(a + m + b) == Pairs(a) + Pairs(m) + Pairs(b)
  {
    hide Pairs;
    PairsAppend(a + m, b);
    PairsAppend(a, m);
  }

  lemma Swap3(a: multiset<(Key, Data)>, c: multiset<(Key, Data)>, x: multiset<(Key, Data)>, b: multiset<(Key, Data)>)
    ensures a + (c + x) + b == a + c + b + x
  {
  }

  function Pow7(n: nat): (p: nat) { if n == 0 then 1 else 7 * Pow7(n - 1) }

  /** A node h levels above its leaves holds at least 6*7^h pairs. */
  lemma {:induction false} NodeHoldsMany(t: Tree, h: nat)
    requires Shape(t, h, MINNUM_KEY)
    ensures |Pairs(Leaves(t))| >= 6 * Pow7(h)
    decreases h, 1
  {
    if h == 0 {
      PairsOfTwo(t, t);
      assert |PairsOf(t)| == |Zip(t.keys, t.datas)|;
    } else {
      KidsHoldMany(t.kids, h - 1);
      AtLeastSeven(|t.kids|, 6 * Pow7(h - 1));
    }
  }

  lemma AtLeastSeven(n: nat, unit: nat)
    requires n >= 7
    ensures n * unit >= 7 * unit
  {
  }

  lemma {:induction false} KidsHoldMany(kids: seq<Tree>, h: nat)
    requires forall i :: 0 <= i < |kids| ==> Shape(kids[i], h, MINNUM_KEY)
    ensures |Pairs(LeavesAll(kids))| >= |kids| * (6 * Pow7(h))
    decreases h, 2 + |kids|
  {
    if kids != [] {
      hide Pairs;
      hide Leaves;
      hide Pow7;
      hide Shape;
      NodeHoldsMany(kids[0], h);
      KidsHoldMany(kids[1..], h);
      PairsAppend(Leaves(kids[0]), LeavesAll(kids[1..]));
      OneMore(|kids|, 6 * Pow7(h));
    }
  }

  lemma OneMore(n: nat, unit: nat)
    requires n >= 1
    ensures n * unit == (n - 1) * unit + unit
  {
  }

  /** A tree with h >= 1 internal levels holds at least 12*7^(h-1) pairs. */
  lemma TreeHoldsMany(t: Tree, h: nat)
    requires Shape(t, h, 1) && h >= 1
    ensures |Pairs(Leaves(t))| >= 12 * Pow7(h - 1)
  {
    KidsHoldMany(t.kids, h - 1);
    AtLeastTwo(|t.kids|, 6 * Pow7(h - 1));
  }

  lemma AtLeastTwo(n: nat, unit: nat)
    requires n >= 2
    ensures n * unit >= 2 * unit
  {
  }

  // ---------------------------------------------------------------- the chain of leaves

  function Ids(leaves: seq<Tree>): (r: seq<int>)
    ensures |r| == |leaves|
    ensures forall i :: 0 <= i < |r| ==> r[i] == (if leaves[i].Leaf? then leaves[i].id else 0)
  {
    seq(|leaves|, i requires 0 <= i < |leaves| => if leaves[i].Leaf? then leaves[i].id else 0)
  }

  /** Following the right-sibling pointers from ids[0] visits exactly ids, in order, and then ends. */
  ghost predicate Linked(right: seq<int>, ids: seq<int>) {
    && ids != []
    && (forall i :: 0 <= i < |ids| ==> 0 <= ids[i] < |right|)
    && (forall i, j :: 0 <= i < j < |ids| ==> ids[i] != ids[j])
    && (forall i :: 0 <= i < |ids| ==> right[ids[i]] == if i + 1 < |ids| then ids[i + 1] else -1)
  }

  /** setRightSibling in CLeafNode::split: the new leaf, number |right|, comes between x and its successor. */
  function Relinked(right: seq<int>, x: int): (r: seq<int>)
    requires x == -1 || 0 <= x < |right|
  {
    if x == -1 then right else right[x := |right|] + [right[x]]
  }

  lemma RelinkKeeps(right: seq<int>, ids: seq<int>, i: nat)
    requires Linked(right, ids) && i < |ids|
    ensures Linked(Relinked(right, ids[i]), Spliced(ids, i, [ids[i], |right|]))
  {
    SplicedAfter(ids, i, |right|);
    AfterLinked(right, ids, i, Spliced(ids, i, [ids[i], |right|]));
  }

  /** ids' is ids with n after entry i. */
  ghost predicate IsAfter(ids: seq<int>, i: nat, n: int, ids': seq<int>) {
    && i < |ids| && |ids'| == |ids| + 1
    && (forall k :: 0 <= k <= i ==> ids'[k] == ids[k])
    && ids'[i + 1] == n
    && (forall k :: i + 2 <= k < |ids'| ==> ids'[k] == ids[k - 1])
  }

  lemma AfterLinked(right: seq<int>, ids: seq<int>, i: nat, ids': seq<int>)
    requires Linked(right, ids) && IsAfter(ids, i, |right|, ids')
    ensures 0 <= ids[i] < |right| && Linked(Relinked(right, ids[i]), ids')
  {
    var right' := Relinked(right, ids[i]);
    forall k | 0 <= k < |ids'|
      ensures 0 <= ids'[k] < |right'| && right'[ids'[k]] == if k + 1 < |ids'| then ids'[k + 1] else -1
    {
      if k > i + 1 {
        assert ids'[k] == ids[k - 1] && right'[ids[k - 1]] == right[ids[k - 1]];
        assert k + 1 < |ids'| ==> ids'[k + 1] == ids[k];
      }
    }
    forall j, k | 0 <= j < k < |ids'| ensures ids'[j] != ids'[k] {
      var j0, k0 := if j <= i then j else j - 1, if k <= i then k else k - 1;
      assert j != i + 1 ==> ids'[j] == ids[j0];
      assert k != i + 1 ==> ids'[k] == ids[k0];
    }
  }

  lemma SplicedAfter(ids: seq<int>, i: nat, x: int)
    requires i < |ids|
    ensures IsAfter(ids, i, x, Spliced(ids, i, [ids[i], x]))
  {
  }

  lemma GrownIds(c: Tree, key: Key, data: Data, num: nat, split: bool, r: seq<Tree>)
    requires Grown(c, key, data, num, split, r)
    ensures Ids(r) == if split then [c.id, num] else [c.id]
  {
    hide LeafWith;
  }

  /** The insertion keeps the chain of right siblings equal to the leaves in order. */
  lemma ChainKept(t: Tree, x: Result, key: Key, data: Data, right: seq<int>, i: nat, r: seq<Tree>)
    requires OneLeafChanged(t, x, key, data, |right|, i, r) && Linked(right, Ids(Leaves(t)))
    ensures x.splitLeaf == -1 || 0 <= x.splitLeaf < |right|
    ensures Linked(Relinked(right, x.splitLeaf), Ids(Leaves(x.tree)))
    ensures Ids(Leaves(x.tree))[0] == Ids(Leaves(t))[0]
  {
    hide Leaves;
    hide LeafWith;
    var l := Leaves(t);
    var split := x.splitLeaf != -1;
    GrownIds(l[i], key, data, |right|, split, r);
    assert Ids(Spliced(l, i, r)) == Spliced(Ids(l), i, Ids(r));
    if split {
      RelinkKeeps(right, Ids(l), i);
    } else {
      assert Spliced(Ids(l), i, [l[i].id]) == Ids(l);
    }
  }

  // ---------------------------------------------------------------- a full root

  /** The new root over the two halves of a full one. */
  function GrownRoot(t: Tree, num: nat): (r: Tree)
    requires Full(t)
  {
    SplitChild(Internal([], [t]), 0, num)
  }

  lemma GrownRootOpen(t: Tree, h: nat, num: nat)
    requires Shape(t, h, 1) && Full(t)
    ensures Open(GrownRoot(t, num), h + 1, 1)
  {
  }

  lemma GrownRootLeaves(t: Tree, num: nat)
    requires Full(t)
    ensures var s := SplitNode(t, num);
            Leaves(GrownRoot(t, num)) == if t.Leaf? then [s.left, s.right] else Leaves(t)
  {
    hide Leaves;
    hide LeavesAll;
    hide SplitChild;
    SplitChildLeaves(Internal([], [t]), 0, num);
    SplitNodeLeaves(t, num);
    NoKids([t]);
  }

  lemma NoKids(kids: seq<Tree>)
    requires |kids| == 1
    ensures LeavesAll(kids[..0]) == [] && LeavesAll(kids[1..]) == []
  {
  }

  /** A tree the insertion may start in: a new leaf has no key yet. */
  ghost predicate Rooted(t: Tree, h: nat) {
    Shape(t, h, if t.Leaf? then 0 else 1)
  }

  ghost function HeightAfter(t: Tree, h: nat): (r: nat) { if Full(t) then h + 1 else h }

  /** CBPlusTree::insert from the test for a full root on. */
  ghost function InsertRoot(t: Tree, key: Key, data: Data, num: nat, h: nat): (r: Result)
    requires Rooted(t, h)
  {
    if Full(t) then
      GrownRootOpen(t, h, num);
      var x := InsertBelow(GrownRoot(t, num), key, data, num, h + 1, 1);
      if t.Leaf? then Result(x.tree, t.id) else x
    else InsertBelow(t, key, data, num, h, if t.Leaf? then 0 else 1)
  }

  lemma InsertRootShape(t: Tree, key: Key, data: Data, num: nat, h: nat)
    requires Rooted(t, h)
    ensures Shape(InsertRoot(t, key, data, num, h).tree, HeightAfter(t, h), 1)
  {
    hide InsertBelow;
    hide GrownRoot;
    if Full(t) {
      GrownRootOpen(t, h, num);
      InsertBelowShape(GrownRoot(t, num), key, data, num, h + 1, 1);
    } else {
      InsertBelowShape(t, key, data, num, h, if t.Leaf? then 0 else 1);
    }
  }

  /** When the root is a full leaf, the insertion below the new root changes one of its halves. */
  lemma HalfOfRootChanged(t: Tree, x: Result, key: Key, data: Data, num: nat, k: nat, r: seq<Tree>)
    requires Full(t) && t.Leaf? && OneLeafChanged(GrownRoot(t, num), x, key, data, num, k, r)
    ensures OneLeafChanged(t, Result(x.tree, t.id), key, data, num, 0, Leaves(x.tree))
  {
    hide LeafWith;
    hide GrownRoot;
    hide Leaves;
    var s := SplitNode(t, num);
    GrownRootLeaves(t, num);
    LeafLeaves(t);
    assert k == 0 || k == 1;
  }

  lemma LeafLeaves(t: Tree)
    requires t.Leaf?
    ensures Leaves(t) == [t]
  {
  }

  /** Also with a full root exactly one leaf changes. */
  lemma InsertRootLeaves(t: Tree, key: Key, data: Data, num: nat, h: nat) returns (i: nat, r: seq<Tree>)
    requires Rooted(t, h)
    ensures OneLeafChanged(t, InsertRoot(t, key, data, num, h), key, data, num, i, r)
  {
    hide InsertBelow;
    hide Leaves;
    hide GrownRoot;
    hide Grown;
    if Full(t) {
      GrownRootOpen(t, h, num);
      GrownRootLeaves(t, num);
      i, r := InsertBelowLeaves(GrownRoot(t, num), key, data, num, h + 1, 1);
      if t.Leaf? {
        HalfOfRootChanged(t, InsertBelow(GrownRoot(t, num), key, data, num, h + 1, 1), key, data, num, i, r);
        i, r := 0, Leaves(InsertRoot(t, key, data, num, h).tree);
      }
    } else {
      i, r := InsertBelowLeaves(t, key, data, num, h, if t.Leaf? then 0 else 1);
    }
  }

  /** One insertion into a tree that is well formed and chained keeps it so and adds one pair. */
  lemma InsertRootKeeps(t: Tree, key: Key, data: Data, right: seq<int>, h: nat)
    requires Rooted(t, h) && Linked(right, Ids(Leaves(t)))
    ensures var x := InsertRoot(t, key, data, |right|, h);
            && Shape(x.tree, HeightAfter(t, h), 1)
            && Pairs(Leaves(x.tree)) == Pairs(Leaves(t)) + multiset{(key, data)}
            && (x.splitLeaf == -1 || 0 <= x.splitLeaf < |right|)
            && Linked(Relinked(right, x.splitLeaf), Ids(Leaves(x.tree)))
            && Ids(Leaves(x.tree))[0] == Ids(Leaves(t))[0]
  {
    hide *;
    var x := InsertRoot(t, key, data, |right|, h);
    InsertRootShape(t, key, data, |right|, h);
    var i, r := InsertRootLeaves(t, key, data, |right|, h);
    OnePairAdded(t, x, key, data, |right|, i, r);
    ChainKept(t, x, key, data, right, i, r);
  }

  // ---------------------------------------------------------------- searching

  /** recursive_search from a node of a well-formed tree. */
  function SearchBelow(t: Tree, key: Key, ghost h: nat): (found: bool)
    requires Shape(t, h, 1)
    decreases h
  {
    var k := KeyIndex(t.keys, key);
    if key == t.keys[k] then true
    else if t.Leaf? then false
    else
      ShapeWeaken(t.kids[ChildIndex(t.keys, key)], h - 1, MINNUM_KEY, 1);
      SearchBelow(t.kids[ChildIndex(t.keys, key)], key, h - 1)
  }

  /** The keys of all nodes below t lie in ks. */
  ghost predicate KeysIn(t: Tree, ks: iset<Key>)
    decreases t
  {
    && (forall i :: 0 <= i < |t.keys| ==> t.keys[i] in ks)
    && (t.Internal? ==> forall i :: 0 <= i < |t.kids| ==> KeysIn(t.kids[i], ks))
  }

  ghost function KeysOf(pairs: multiset<(Key, Data)>): (ks: iset<Key>) {
    iset p | p in pairs :: p.0
  }

  lemma {:induction false} KeysInMore(t: Tree, ks: iset<Key>, ks': iset<Key>)
    requires KeysIn(t, ks) && ks <= ks'
    ensures KeysIn(t, ks')
    decreases t
  {
    if t.Internal? {
      forall i | 0 <= i < |t.kids| ensures KeysIn(t.kids[i], ks') { KeysInMore(t.kids[i], ks, ks'); }
    }
  }

  lemma SplitNodeKeys(t: Tree, num: nat, ks: iset<Key>)
    requires Full(t) && KeysIn(t, ks)
    ensures var s := SplitNode(t, num); KeysIn(s.left, ks) && KeysIn(s.right, ks) && s.sep in ks
  {
  }

  lemma SplitChildKeys(t: Tree, ci: nat, num: nat, ks: iset<Key>)
    requires t.Internal? && ci < |t.kids| == |t.keys| + 1 && Full(t.kids[ci]) && KeysIn(t, ks)
    ensures KeysIn(SplitChild(t, ci, num), ks)
  {
  }

  lemma LeafWithKeys(t: Tree, key: Key, data: Data, ks: iset<Key>)
    requires t.Leaf? && |t.datas| == |t.keys| && KeysIn(t, ks) && key in ks
    ensures KeysIn(LeafWith(t, key, data), ks)
  {
  }

  lemma KidKeysReplaced(q: Tree, j: nat, kid': Tree, ks: iset<Key>)
    requires q.Internal? && j < |q.kids| && KeysIn(q, ks) && KeysIn(kid', ks)
    ensures KeysIn(q.(kids := q.kids[j := kid']), ks)
  {
  }

  lemma KidKeys(q: Tree, j: nat, ks: iset<Key>)
    requires q.Internal? && j < |q.kids| && KeysIn(q, ks)
    ensures KeysIn(q.kids[j], ks)
  {
  }

  lemma PreparedKeys(t: Tree, key: Key, num: nat, ks: iset<Key>)
    requires t.Internal? && t.keys != [] && |t.kids| == |t.keys| + 1 && KeysIn(t, ks)
    ensures KeysIn(Prepared(t, key, num), ks)
  {
    hide KeysIn;
    if Full(t.kids[ChildIndex(t.keys, key)]) {
      SplitChildKeys(t, ChildIndex(t.keys, key), num, ks);
    }
  }

  /** An insertion writes no key into the tree but its own and ones already there. */
  lemma {:induction false} InsertBelowKeys(t: Tree, key: Key, data: Data, num: nat, h: nat, low: nat, ks: iset<Key>)
    requires Open(t, h, low) && KeysIn(t, ks) && key in ks
    ensures KeysIn(InsertBelow(t, key, data, num, h, low).tree, ks)
    decreases h
  {
    hide KeysIn;
    if t.Leaf? {
      LeafWithKeys(t, key, data, ks);
    } else {
      hide Prepared;
      hide Target;
      PreparedOpen(t, key, num, h, low);
      PreparedKeys(t, key, num, ks);
      var q, j := Prepared(t, key, num), Target(t, key, num);
      KidKeys(q, j, ks);
      InsertBelowKeys(q.kids[j], key, data, num, h - 1, MINNUM_KEY, ks);
      KidKeysReplaced(q, j, InsertBelow(q.kids[j], key, data, num, h - 1, MINNUM_KEY).tree, ks);
    }
  }

  lemma InsertRootKeys(t: Tree, key: Key, data: Data, num: nat, h: nat, ks: iset<Key>)
    requires Rooted(t, h) && KeysIn(t, ks)
    ensures KeysIn(InsertRoot(t, key, data, num, h).tree, ks + iset{key})
  {
    hide InsertBelow;
    KeysInMore(t, ks, ks + iset{key});
    if Full(t) {
      GrownRootOpen(t, h, num);
      SplitChildKeys(Internal([], [t]), 0, num, ks + iset{key});
      hide KeysIn;
      hide SplitChild;
      InsertBelowKeys(GrownRoot(t, num), key, data, num, h + 1, 1, ks + iset{key});
    } else {
      InsertBelowKeys(t, key, data, num, h, if t.Leaf? then 0 else 1, ks + iset{key});
    }
  }

  /** A key the search finds is held by the tree. */
  lemma {:induction false} FoundIsHeld(t: Tree, key: Key, h: nat, ks: iset<Key>)
    requires Shape(t, h, 1) && KeysIn(t, ks) && SearchBelow(t, key, h)
    ensures key in ks
    decreases h
  {
    if key != t.keys[KeyIndex(t.keys, key)] {
      var c := t.kids[ChildIndex(t.keys, key)];
      ShapeWeaken(c, h - 1, MINNUM_KEY, 1);
      FoundIsHeld(c, key, h - 1, ks);
    }
  }

  /** While the root is a leaf the search is exact. */
  lemma LeafSearchIsExact(t: Tree, key: Key)
    requires Shape(t, 0, 1)
    ensures SearchBelow(t, key, 0) <==> key in KeysOf(Pairs(Leaves(t)))
  {
    hide PairsOf;
    OnePairsOf(t);
    LeafLeaves(t);
    PairsOfKeys(t, key);
    KeyIndexFinds(t.keys, key, 0, |t.keys| - 1);
  }

  lemma SearchMeans(t: Tree, key: Key, h: nat)
    requires Shape(t, h, 1) && KeysIn(t, KeysOf(Pairs(Leaves(t))))
    ensures SearchBelow(t, key, h) ==> key in KeysOf(Pairs(Leaves(t)))
    ensures h == 0 ==> (SearchBelow(t, key, h) <==> key in KeysOf(Pairs(Leaves(t))))
  {
    hide Leaves;
    hide Pairs;
    hide SearchBelow;
    if h == 0 { LeafSearchIsExact(t, key); }
    if SearchBelow(t, key, h) { FoundIsHeld(t, key, h, KeysOf(Pairs(Leaves(t)))); }
  }

  lemma PairsOfKeys(t: Tree, key: Key)
    requires t.Leaf? && |t.datas| == |t.keys|
    ensures key in KeysOf(PairsOf(t)) <==> key in t.keys
  {
  }

  /** getKeyIndex never answers the number of keys, so the search never enters the last child of a node:
      whatever is stored there, the answer is the same. */
  lemma LastChildIsNeverSearched(t: Tree, key: Key, h: nat, kid': Tree)
    requires Shape(t, h, 1) && t.Internal? && Shape(kid', h - 1, MINNUM_KEY)
    ensures var t' := t.(kids := t.kids[|t.keys| := kid']);
            Shape(t', h, 1) && SearchBelow(t', key, h) == SearchBelow(t, key, h)
  {
  }

  /** The insertion that splits a full root leaf hides the keys of its right half: they stay stored, but
      the search finds none of them except the separator. */
  lemma FirstSplitHidesKeys(t: Tree, key: Key, data: Data, num: nat, k: Key)
    requires Shape(t, 0, 1) && Full(t)
    requires k in t.keys && k != t.keys[MINNUM_KEY] && k !in t.keys[..MINNUM_KEY] && k != key
    ensures var x := InsertRoot(t, key, data, num, 0);
            && SearchBelow(t, k, 0)
            && Shape(x.tree, 1, 1) && k in KeysOf(Pairs(Leaves(x.tree))) && !SearchBelow(x.tree, k, 1)
  {
    hide Leaves;
    hide Pairs;
    hide InsertBelow;
    var x := InsertRoot(t, key, data, num, 0);
    InsertRootShape(t, key, data, num, 0);
    StillHeld(t, x, key, data, num, k);
    LeafSearchIsExact(t, k);
    FirstSplitTree(t, key, data, num);
    var ks := (iset y | y in t.keys[..MINNUM_KEY]) + iset{key};
    if SearchBelow(x.tree, k, 1) {
      ShapeWeaken(x.tree.kids[0], 0, MINNUM_KEY, 1);
      FoundIsHeld(x.tree.kids[0], k, 0, ks);
    }
  }

  lemma StillHeld(t: Tree, x: Result, key: Key, data: Data, num: nat, k: Key)
    requires Shape(t, 0, 1) && x == InsertRoot(t, key, data, num, 0) && k in t.keys
    ensures k in KeysOf(Pairs(Leaves(t))) && k in KeysOf(Pairs(Leaves(x.tree)))
  {
    hide Leaves;
    hide Pairs;
    hide PairsOf;
    hide InsertRoot;
    LeafLeaves(t);
    OnePairsOf(t);
    PairsOfKeys(t, k);
    var i, r := InsertRootLeaves(t, key, data, num, 0);
    OnePairAdded(t, x, key, data, num, i, r);
    var p :| p in Pairs(Leaves(t)) && p.0 == k;
    assert p in Pairs(Leaves(x.tree));
  }

  /** The tree after that insertion: one separator, and a left leaf of the smaller keys and perhaps the new one. */
  lemma FirstSplitTree(t: Tree, key: Key, data: Data, num: nat)
    requires Shape(t, 0, 1) && Full(t)
    ensures var t' := InsertRoot(t, key, data, num, 0).tree;
            && t'.Internal? && t'.keys == [t.keys[MINNUM_KEY]] && |t'.kids| == 2
            && KeysIn(t'.kids[0], (iset y | y in t.keys[..MINNUM_KEY]) + iset{key})
            && (key !in t.keys ==> t'.kids[0] == LeafWith(SplitNode(t, num).left, key, data))
  {
    hide LeafWith;
    GrownRootOpen(t, 0, num);
    var q, s := GrownRoot(t, num), SplitNode(t, num);
    assert q.keys == [s.sep] && q.kids == [s.left, s.right];
    PreparedOpen(q, key, num, 1, 1);
    var ks := (iset y | y in t.keys[..MINNUM_KEY]) + iset{key};
    LeafWithKeys(s.left, key, data, ks);
    InsertBelowLeaf(q.kids[Target(q, key, num)], key, data, num, 0, MINNUM_KEY);
  }

  // ---------------------------------------------------------------- what the search finds

  /** The search descends into the child whose keys lie around the key it looks for. */
  lemma SearchDescends(t: Tree, key: Key, h: nat, i: nat)
    requires Shape(t, h, 1) && t.Internal? && SortedBeforeLast(t.keys) && i < |t.keys|
    requires forall j :: 0 <= j < i ==> t.keys[j] < key
    requires t.keys[i] != key && (i + 1 < |t.keys| ==> key < t.keys[i])
    ensures Shape(t.kids[i], h - 1, 1) && SearchBelow(t, key, h) == SearchBelow(t.kids[i], key, h - 1)
    ensures ChildIndex(t.keys, key) == i
  {
    KeyIndexFinds(t.keys, key, 0, |t.keys| - 1);
    var r := KeyIndex(t.keys, key);
    assert r == i;
    ShapeWeaken(t.kids[i], h - 1, MINNUM_KEY, 1);
  }

  /** What the first split leaves to be found: the separator, the keys before it and the new one. */
  lemma FirstSplitFinds(t: Tree, key: Key, data: Data, num: nat, k: Key)
    requires Shape(t, 0, 1) && Full(t) && key !in t.keys
    ensures var x := InsertRoot(t, key, data, num, 0);
            && Shape(x.tree, 1, 1)
            && (SearchBelow(x.tree, k, 1) <==> k == key || k in t.keys[..MINNUM_KEY + 1])
  {
    hide InsertBelow;
    var t', sep := InsertRoot(t, key, data, num, 0).tree, t.keys[MINNUM_KEY];
    InsertRootShape(t, key, data, num, 0);
    FirstSplitTree(t, key, data, num);
    assert t.keys[..MINNUM_KEY + 1] == t.keys[..MINNUM_KEY] + [sep];
    if k != sep {
      SearchDescends(t', k, 1, 0);
      LeafHolds(t'.kids[0], k);
      var left := SplitNode(t, num).left;
      var p := LeafPos(left.keys, key, |left.keys|);
      assert left.keys == left.keys[..p] + left.keys[p..];
    }
  }

  lemma LeafHolds(t: Tree, key: Key)
    requires Shape(t, 0, 1)
    ensures SearchBelow(t, key, 0) <==> key in t.keys
  {
    KeyIndexFinds(t.keys, key, 0, |t.keys| - 1);
  }

  predicate NotBelow(lo: Option<Key>, key: Key) {
    lo.None? || lo.value <= key
  }

  predicate AtMost(key: Key, bound: Key) { key <= bound }

  ghost function UpTo(bound: Key): (ks: iset<Key>) { iset k | AtMost(k, bound) }

  ghost predicate KeysOrdered(keys: seq<Key>, lo: Option<Key>) {
    SortedBeforeLast(keys) && forall i :: 0 <= i < |keys| - 1 ==> NotBelow(lo, keys[i])
  }

  /** The order of keys that the insertions keep, from lo on. It leaves out the last key and the last child of
      every internal node, and of the child before the last it bounds the keys from below only. */
  ghost predicate Ordered(t: Tree, lo: Option<Key>)
    decreases t
  {
    match t
    case Leaf(_, keys, _) => forall i :: 0 <= i < |keys| ==> NotBelow(lo, keys[i])
    case Internal(keys, kids) =>
      && keys != [] && |kids| == |keys| + 1 && KeysOrdered(keys, lo)
      && (forall i :: 0 <= i < |keys| ==> Ordered(kids[i], Before(keys, i, lo)))
      && (forall i :: 0 <= i < |keys| - 1 ==> KeysIn(kids[i], UpTo(keys[i])))
  }

  /** The lower bound of child i. */
  function Before(keys: seq<Key>, i: nat, lo: Option<Key>): (r: Option<Key>)
    requires i <= |keys|
  {
    if i == 0 then lo else Some(keys[i - 1])
  }

  lemma MissAbove(t: Tree, key: Key, h: nat, b: Key)
    requires Shape(t, h, 1) && KeysIn(t, UpTo(b)) && b < key
    ensures !SearchBelow(t, key, h)
  {
    if SearchBelow(t, key, h) { FoundIsHeld(t, key, h, UpTo(b)); }
  }

  lemma LeafHalvesOrdered(c: Tree, num: nat, lo: Option<Key>)
    requires Full(c) && c.Leaf? && Sorted(c.keys) && Ordered(c, lo)
    ensures var s := SplitNode(c, num);
            && Ordered(s.left, lo) && KeysIn(s.left, UpTo(s.sep)) && Ordered(s.right, Some(s.sep))
            && NotBelow(lo, s.sep)
  {
  }

  lemma LeftHalfOrdered(c: Tree, num: nat, lo: Option<Key>)
    requires Full(c) && c.Internal? && Ordered(c, lo)
    ensures var s := SplitNode(c, num);
            Ordered(s.left, lo) && KeysIn(s.left, UpTo(s.sep)) && NotBelow(lo, s.sep)
  {
    var s := SplitNode(c, num);
    forall i | 0 <= i < MINNUM_CHILD ensures KeysIn(s.left.kids[i], UpTo(s.sep)) {
      hide KeysIn;
      KeysInMore(c.kids[i], UpTo(c.keys[i]), UpTo(s.sep));
    }
    forall i | 0 <= i < MINNUM_KEY ensures Ordered(s.left.kids[i], Before(s.left.keys, i, lo)) {
      assert Before(s.left.keys, i, lo) == Before(c.keys, i, lo);
    }
  }

  lemma RightHalfOrdered(c: Tree, num: nat, lo: Option<Key>)
    requires Full(c) && c.Internal? && Ordered(c, lo)
    ensures var s := SplitNode(c, num); Ordered(s.right, Some(s.sep))
  {
    hide KeysIn;
    var s := SplitNode(c, num);
    forall i | 0 <= i < MINNUM_KEY ensures Ordered(s.right.kids[i], Before(s.right.keys, i, Some(s.sep))) {
      assert Before(s.right.keys, i, Some(s.sep)) == Before(c.keys, i + MINNUM_CHILD, lo);
    }
  }

  /** Both halves of a node are ordered, on either side of the separator. */
  lemma SplitNodeOrdered(c: Tree, h: nat, num: nat, lo: Option<Key>)
    requires Full(c) && Shape(c, h, 1) && Ordered(c, lo)
    ensures var s := SplitNode(c, num);
            && Ordered(s.left, lo) && KeysIn(s.left, UpTo(s.sep)) && Ordered(s.right, Some(s.sep))
            && NotBelow(lo, s.sep)
  {
    hide Ordered;
    hide KeysIn;
    if c.Leaf? {
      LeafHalvesOrdered(c, num, lo);
    } else {
      LeftHalfOrdered(c, num, lo);
      RightHalfOrdered(c, num, lo);
    }
  }

  /** Where the search for a key that an internal node does not hold goes on. */
  lemma SearchGoesOn(t: Tree, key: Key, h: nat) returns (i: nat)
    requires Shape(t, h, 1) && t.Internal? && SortedBeforeLast(t.keys) && key != t.keys[KeyIndex(t.keys, key)]
    ensures i < |t.keys| && t.keys[i] != key && (forall j :: 0 <= j < i ==> t.keys[j] < key)
    ensures i + 1 < |t.keys| ==> key < t.keys[i]
    ensures Shape(t.kids[i], h - 1, 1) && SearchBelow(t, key, h) == SearchBelow(t.kids[i], key, h - 1)
    ensures i == ChildIndex(t.keys, key)
  {
    i := KeyIndex(t.keys, key);
    KeyIndexFinds(t.keys, key, 0, |t.keys| - 1);
    SearchDescends(t, key, h, i);
  }

  lemma MissedKey(t: Tree, key: Key, h: nat)
    requires Shape(t, h, 1) && !SearchBelow(t, key, h)
    ensures key != t.keys[KeyIndex(t.keys, key)]
  {
  }

  lemma LeafHalfMisses(c: Tree, key: Key, num: nat)
    requires Full(c) && Shape(c, 0, 1) && !SearchBelow(c, key, 0)
    ensures var s := SplitNode(c, num);
            && Shape(s.left, 0, 1) && Shape(s.right, 0, 1) && key != s.sep
            && !SearchBelow(s.left, key, 0) && !SearchBelow(s.right, key, 0)
  {
    hide SearchBelow;
    LeafHolds(c, key);
    LeafHolds(SplitNode(c, num).left, key);
    LeafHolds(SplitNode(c, num).right, key);
  }

  lemma HalvesShape(c: Tree, h: nat, num: nat)
    requires Full(c) && c.Internal? && Shape(c, h, 1)
    ensures var s := SplitNode(c, num); Shape(s.left, h, 1) && Shape(s.right, h, 1)
  {
  }

  /** The last child of the left half is not searched: a key beyond it is looked for before it, and missed. */
  lemma LeftHalfMisses(c: Tree, key: Key, h: nat, num: nat, i: nat)
    requires Full(c) && c.Internal? && Shape(c, h, 1) && SortedBeforeLast(c.keys) && i <= MINNUM_KEY
    requires KeysIn(c.kids[MINNUM_KEY - 1], UpTo(c.keys[MINNUM_KEY - 1]))
    requires (forall j :: 0 <= j < i ==> c.keys[j] < key) && key < c.keys[i]
    requires Shape(c.kids[i], h - 1, 1) && !SearchBelow(c.kids[i], key, h - 1)
    ensures var s := SplitNode(c, num); Shape(s.left, h, 1) && !SearchBelow(s.left, key, h)
  {
    var l := SplitNode(c, num).left;
    HalvesShape(c, h, num);
    var at := if i < MINNUM_KEY then i else MINNUM_KEY - 1;
    ShapeWeaken(l.kids[at], h - 1, MINNUM_KEY, 1);
    hide SearchBelow;
    hide Shape;
    if i == MINNUM_KEY { MissAbove(l.kids[at], key, h - 1, c.keys[at]); }
    hide KeysIn;
    SearchDescends(l, key, h, at);
  }

  lemma RightHalfMisses(c: Tree, key: Key, h: nat, num: nat, i: nat)
    requires Full(c) && c.Internal? && Shape(c, h, 1) && SortedBeforeLast(c.keys) && MINNUM_CHILD <= i < MAXNUM_KEY
    requires (forall j :: 0 <= j < i ==> c.keys[j] < key) && (i + 1 < MAXNUM_KEY ==> key < c.keys[i])
    requires c.keys[i] != key && Shape(c.kids[i], h - 1, 1) && !SearchBelow(c.kids[i], key, h - 1)
    ensures var s := SplitNode(c, num); Shape(s.right, h, 1) && !SearchBelow(s.right, key, h)
  {
    HalvesShape(c, h, num);
    hide SearchBelow;
    hide Shape;
    SearchDescends(SplitNode(c, num).right, key, h, i - MINNUM_CHILD);
  }

  /** A search that misses a full node misses the half of it on the key's side. */
  lemma SplitNodeMisses(c: Tree, key: Key, h: nat, num: nat, lo: Option<Key>)
    requires Full(c) && Shape(c, h, 1) && Ordered(c, lo) && !SearchBelow(c, key, h)
    ensures var s := SplitNode(c, num);
            && key != s.sep
            && (if key < s.sep then Shape(s.left, h, 1) && !SearchBelow(s.left, key, h)
                else Shape(s.right, h, 1) && !SearchBelow(s.right, key, h))
  {
    if c.Leaf? {
      LeafHalfMisses(c, key, num);
    } else {
      MissedKey(c, key, h);
      var i := SearchGoesOn(c, key, h);
      hide SearchBelow;
      hide Shape;
      hide KeysIn;
      if i <= MINNUM_KEY {
        LeftHalfMisses(c, key, h, num, i);
      } else {
        RightHalfMisses(c, key, h, num, i);
      }
    }
  }

  lemma SplitChildAt(t: Tree, ci: nat, num: nat, i: nat)
    requires t.Internal? && ci < |t.keys| && |t.kids| == |t.keys| + 1 && Full(t.kids[ci]) && i <= |t.keys|
    ensures var r, s := SplitChild(t, ci, num), SplitNode(t.kids[ci], num);
            && r.keys[i] == (if i < ci then t.keys[i] else if i == ci then s.sep else t.keys[i - 1])
            && r.kids[i] == if i < ci then t.kids[i] else if i == ci then s.left
                            else if i == ci + 1 then s.right else t.kids[i - 1]
  {
  }

  lemma SeparatorOrdered(keys: seq<Key>, ci: nat, sep: Key, lo: Option<Key>)
    requires KeysOrdered(keys, lo) && ci < |keys| && NotBelow(Before(keys, ci, lo), sep) && NotBelow(lo, sep)
    requires ci + 1 < |keys| ==> sep <= keys[ci]
    ensures KeysOrdered(InsertAt(keys, ci, sep), lo)
  {
    var r := InsertAt(keys, ci, sep);
    forall i, j | 0 <= i <= j < |r| - 1 ensures r[i] <= r[j] {
      var i0, j0 := if i <= ci then i else i - 1, if j <= ci then j else j - 1;
      assert 0 < ci < |keys| ==> keys[ci - 1] <= sep;
      if i < ci { assert keys[i] <= keys[ci - 1]; }
      if j > ci { assert keys[ci] <= keys[j0]; }
    }
  }

  lemma SplitKidOrdered(t: Tree, ci: nat, num: nat, h: nat, lo: Option<Key>, i: nat)
    requires Ordered(t, lo) && t.Internal? && ci < |t.keys| && i <= |t.keys|
    requires Full(t.kids[ci]) && Shape(t.kids[ci], h, 1)
    ensures var r := SplitChild(t, ci, num);
            && Ordered(r.kids[i], Before(r.keys, i, lo)) && (i < |t.keys| ==> KeysIn(r.kids[i], UpTo(r.keys[i])))
  {
    SplitNodeOrdered(t.kids[ci], h, num, Before(t.keys, ci, lo));
    if ci + 1 < |t.keys| { SplitNodeKeys(t.kids[ci], num, UpTo(t.keys[ci])); }
    hide Shape;
    SplitChildAt(t, ci, num, i);
    if i > 0 { SplitChildAt(t, ci, num, i - 1); }
    hide KeysIn;
    hide SplitNode;
    hide SplitChild;
    hide Full;
    if i > ci + 1 {
      assert Ordered(t.kids[i - 1], Before(t.keys, i - 1, lo));
    }
  }

  /** Splitting a child that is not the last keeps the order. */
  lemma SplitChildOrdered(t: Tree, ci: nat, num: nat, h: nat, lo: Option<Key>)
    requires Ordered(t, lo) && t.Internal? && ci < |t.keys|
    requires Full(t.kids[ci]) && Shape(t.kids[ci], h, 1)
    ensures Ordered(SplitChild(t, ci, num), lo)
  {
    var s, r := SplitNode(t.kids[ci], num), SplitChild(t, ci, num);
    assert KeysOrdered(r.keys, lo) by {
      SplitNodeOrdered(t.kids[ci], h, num, Before(t.keys, ci, lo));
      if ci + 1 < |t.keys| { SplitNodeKeys(t.kids[ci], num, UpTo(t.keys[ci])); }
      BoundsJoin(t.keys, ci, lo, s.sep);
      SeparatorOrdered(t.keys, ci, s.sep, lo);
    }
    forall i: nat | i <= |t.keys|
      ensures Ordered(r.kids[i], Before(r.keys, i, lo)) && (i < |t.keys| ==> KeysIn(r.kids[i], UpTo(r.keys[i])))
    {
      SplitKidOrdered(t, ci, num, h, lo, i);
    }
    hide SplitNode;
    hide SplitChild;
    hide Shape;
    hide KeysIn;
    hide KeysOrdered;
  }

  lemma BoundsJoin(keys: seq<Key>, ci: nat, lo: Option<Key>, key: Key)
    requires KeysOrdered(keys, lo) && ci < |keys| && NotBelow(Before(keys, ci, lo), key)
    ensures NotBelow(lo, key)
  {
  }

  /** The insertion of a key the search misses descends into the child in which the search looks for it. */
  ghost predicate Leads(q: Tree, j: nat, key: Key, h: nat) {
    && q.Internal? && j < |q.keys| && |q.kids| == |q.keys| + 1 && h > 0
    && (forall i :: 0 <= i < j ==> q.keys[i] < key)
    && q.keys[j] != key && (j + 1 < |q.keys| ==> key < q.keys[j])
    && Shape(q.kids[j], h - 1, 1) && !SearchBelow(q.kids[j], key, h - 1)
  }

  lemma MissLeads(t: Tree, key: Key, h: nat)
    requires Shape(t, h, 1) && t.Internal? && SortedBeforeLast(t.keys) && !SearchBelow(t, key, h)
    ensures Leads(t, ChildIndex(t.keys, key), key, h)
  {
    MissedKey(t, key, h);
    var i := SearchGoesOn(t, key, h);
  }

  lemma PreparedLeads(t: Tree, key: Key, num: nat, h: nat, lo: Option<Key>)
    requires t.Internal? && t.keys != [] && |t.kids| == |t.keys| + 1
    requires Shape(t, h, 1) && Ordered(t, lo) && !SearchBelow(t, key, h)
    ensures Ordered(Prepared(t, key, num), lo) && Leads(Prepared(t, key, num), Target(t, key, num), key, h)
  {
    OrderedKeys(t, lo);
    MissLeads(t, key, h);
    hide SearchBelow;
    hide Shape;
    hide ChildIndex;
    var ci := ChildIndex(t.keys, key);
    if Full(t.kids[ci]) {
      SplitLeads(t, ci, key, num, h, lo);
    }
  }

  lemma OrderedKeys(t: Tree, lo: Option<Key>)
    requires t.Internal? && Ordered(t, lo)
    ensures KeysOrdered(t.keys, lo) && SortedBeforeLast(t.keys)
  {
  }

  lemma LeadsInto(t: Tree, ci: nat, key: Key, h: nat)
    requires Leads(t, ci, key, h)
    ensures h > 0 && Shape(t.kids[ci], h - 1, 1) && !SearchBelow(t.kids[ci], key, h - 1)
  {
  }

  lemma SplitLeads(t: Tree, ci: nat, key: Key, num: nat, h: nat, lo: Option<Key>)
    requires t.Internal? && Ordered(t, lo) && ci < |t.keys| && Full(t.kids[ci]) && Leads(t, ci, key, h)
    ensures var q, s := SplitChild(t, ci, num), SplitNode(t.kids[ci], num);
            Ordered(q, lo) && Leads(q, if s.sep <= key then ci + 1 else ci, key, h)
  {
    LeadsInto(t, ci, key, h);
    SplitChildOrdered(t, ci, num, h - 1, lo);
    var before := Before(t.keys, ci, lo);
    KidOrdered(t, ci, lo);
    SplitNodeMisses(t.kids[ci], key, h - 1, num, before);
    hide Ordered;
    hide SplitNode;
    hide SplitChild;
    SplitChildLeads(t, ci, key, num, h);
  }

  lemma KidOrdered(t: Tree, i: nat, lo: Option<Key>)
    requires t.Internal? && i < |t.keys| && Ordered(t, lo)
    ensures |t.kids| == |t.keys| + 1 && Ordered(t.kids[i], Before(t.keys, i, lo))
  {
  }

  lemma SplitChildLeads(t: Tree, ci: nat, key: Key, num: nat, h: nat)
    requires t.Internal? && ci < |t.keys| && |t.kids| == |t.keys| + 1 && Full(t.kids[ci]) && Leads(t, ci, key, h)
    requires var s := SplitNode(t.kids[ci], num);
             && key != s.sep
             && (if key < s.sep then Shape(s.left, h - 1, 1) && !SearchBelow(s.left, key, h - 1)
                 else Shape(s.right, h - 1, 1) && !SearchBelow(s.right, key, h - 1))
    ensures var s := SplitNode(t.kids[ci], num);
            Leads(SplitChild(t, ci, num), if s.sep <= key then ci + 1 else ci, key, h)
  {
    var s, r := SplitNode(t.kids[ci], num), SplitChild(t, ci, num);
    forall i: nat | i <= |t.keys|
      ensures r.keys[i] == if i < ci then t.keys[i] else if i == ci then s.sep else t.keys[i - 1]
    {
      SplitChildAt(t, ci, num, i);
    }
    hide SearchBelow;
    hide Shape;
    hide SplitNode;
    hide SplitChild;
    var j := if s.sep <= key then ci + 1 else ci;
    forall i | 0 <= i < j ensures r.keys[i] < key {
    }
    assert r.keys[j] != key;
  }

  /** A child on the way replaced by one that is ordered, and bounded as before, keeps the order. */
  lemma KidOrderReplaced(q: Tree, j: nat, kid': Tree, lo: Option<Key>)
    requires Ordered(q, lo) && q.Internal? && j < |q.keys| && Ordered(kid', Before(q.keys, j, lo))
    requires j + 1 < |q.keys| ==> KeysIn(kid', UpTo(q.keys[j]))
    ensures Ordered(q.(kids := q.kids[j := kid']), lo)
  {
    hide KeysIn;
  }

  lemma LeafWithFound(t: Tree, key: Key, data: Data, lo: Option<Key>)
    requires t.Leaf? && |t.datas| == |t.keys| < MAXNUM_KEY && Sorted(t.keys) && Ordered(t, lo) && NotBelow(lo, key)
    ensures var r := LeafWith(t, key, data); Shape(r, 0, 1) && Ordered(r, lo) && SearchBelow(r, key, 0)
  {
    LeafStaysSorted(t.keys, key, |t.keys|);
    LeafHolds(LeafWith(t, key, data), key);
    assert key in LeafWith(t, key, data).keys by {
      assert LeafWith(t, key, data).keys[LeafPos(t.keys, key, |t.keys|)] == key;
    }
  }

  lemma BelowIsReplaced(t: Tree, key: Key, data: Data, num: nat, h: nat, low: nat)
    requires Open(t, h, low) && t.Internal? && h > 0 && t.keys != [] && |t.kids| == |t.keys| + 1
    ensures var q, j := Prepared(t, key, num), Target(t, key, num);
            && q.Internal? && j < |q.kids| && Open(q.kids[j], h - 1, MINNUM_KEY)
            && var sub := InsertBelow(q.kids[j], key, data, num, h - 1, MINNUM_KEY);
               InsertBelow(t, key, data, num, h, low).tree == q.(kids := q.kids[j := sub.tree])
  {
    hide Prepared;
    hide Target;
    hide SplitId;
    PreparedOpen(t, key, num, h, low);
  }

  /** A child that is ordered and in which the key is found makes the node such a one. */
  lemma FoundThroughKid(q: Tree, j: nat, kid': Tree, key: Key, h: nat, lo: Option<Key>)
    requires Ordered(q, lo) && Leads(q, j, key, h) && Ordered(kid', Before(q.keys, j, lo))
    requires j + 1 < |q.keys| ==> KeysIn(kid', UpTo(q.keys[j]))
    requires Shape(q.(kids := q.kids[j := kid']), h, 1) && Shape(kid', h - 1, 1) && SearchBelow(kid', key, h - 1)
    ensures var r := q.(kids := q.kids[j := kid']); Ordered(r, lo) && SearchBelow(r, key, h)
  {
    var r := q.(kids := q.kids[j := kid']);
    KidOrderReplaced(q, j, kid', lo);
    OrderedKeys(r, lo);
    hide Ordered;
    hide SearchBelow;
    hide KeysIn;
    hide Shape;
    SearchDescends(r, key, h, j);
  }

  lemma LeadsWithin(q: Tree, j: nat, key: Key, h: nat, lo: Option<Key>)
    requires Ordered(q, lo) && Leads(q, j, key, h) && NotBelow(lo, key)
    ensures Ordered(q.kids[j], Before(q.keys, j, lo)) && NotBelow(Before(q.keys, j, lo), key)
    ensures j + 1 < |q.keys| ==> KeysIn(q.kids[j], UpTo(q.keys[j])) && key in UpTo(q.keys[j])
  {
    hide KeysIn;
    hide SearchBelow;
    hide Shape;
  }

  /** A key the search has missed is found once it is inserted. */
  lemma {:induction false} InsertBelowFound(t: Tree, key: Key, data: Data, num: nat, h: nat, low: nat, lo: Option<Key>)
    requires Open(t, h, low) && Shape(t, h, 1) && Ordered(t, lo) && NotBelow(lo, key) && !SearchBelow(t, key, h)
    ensures var r := InsertBelow(t, key, data, num, h, low).tree;
            Shape(r, h, 1) && Ordered(r, lo) && SearchBelow(r, key, h)
    decreases h
  {
    InsertBelowShape(t, key, data, num, h, low);
    if t.Leaf? {
      LeafWithFound(t, key, data, lo);
    } else {
      PreparedOpen(t, key, num, h, low);
      PreparedLeads(t, key, num, h, lo);
      var q, j := Prepared(t, key, num), Target(t, key, num);
      BelowIsReplaced(t, key, data, num, h, low);
      var r, kid := InsertBelow(t, key, data, num, h, low).tree, q.kids[j];
      var kid' := InsertBelow(kid, key, data, num, h - 1, MINNUM_KEY).tree;
      assert Shape(r, h, 1);
      LeadsWithin(q, j, key, h, lo);
      LeadsInto(q, j, key, h);
      hide Prepared;
      hide Target;
      hide Ordered;
      hide KeysIn;
      hide Open;
      hide Leads;
      hide InsertBelow;
      hide SearchBelow;
      hide Shape;
      InsertBelowFound(kid, key, data, num, h - 1, MINNUM_KEY, Before(q.keys, j, lo));
      if j + 1 < |q.keys| {
        InsertBelowKeys(kid, key, data, num, h - 1, MINNUM_KEY, UpTo(q.keys[j]));
      }
      FoundThroughKid(q, j, kid', key, h, lo);
    }
  }

  /** A full root hides nothing from the insertion: the key is still missed below the new root. */
  lemma GrownRootMisses(t: Tree, key: Key, h: nat, num: nat)
    requires Shape(t, h, 1) && Full(t) && Ordered(t, None) && !SearchBelow(t, key, h)
    ensures var q := GrownRoot(t, num); Shape(q, h + 1, 1) && Ordered(q, None) && !SearchBelow(q, key, h + 1)
  {
    var q, s := GrownRoot(t, num), SplitNode(t, num);
    assert q.keys == [s.sep] && q.kids == [s.left, s.right];
    GrownRootOpen(t, h, num);
    SplitNodeOrdered(t, h, num, None);
    SplitNodeMisses(t, key, h, num, None);
    hide GrownRoot;
    hide SplitNode;
    ShapeWeaken(q.kids[0], h, MINNUM_KEY, 1);
    if key > s.sep { MissAbove(s.left, key, h, s.sep); }
    hide SearchBelow;
    SearchDescends(q, key, h + 1, 0);
  }

  lemma InsertRootFound(t: Tree, key: Key, data: Data, num: nat, h: nat)
    requires Rooted(t, h) && Ordered(t, None) && (t.keys == [] || (Shape(t, h, 1) && !SearchBelow(t, key, h)))
    ensures var x, h' := InsertRoot(t, key, data, num, h), HeightAfter(t, h);
            Shape(x.tree, h', 1) && Ordered(x.tree, None) && SearchBelow(x.tree, key, h')
  {
    InsertRootShape(t, key, data, num, h);
    hide GrownRoot;
    hide SearchBelow;
    if t.keys == [] {
      LeafWithFound(t, key, data, None);
    } else if Full(t) {
      GrownRootOpen(t, h, num);
      GrownRootMisses(t, key, h, num);
      InsertBelowFound(GrownRoot(t, num), key, data, num, h + 1, 1, None);
    } else {
      InsertBelowFound(t, key, data, num, h, if t.Leaf? then 0 else 1, None);
    }
  }

  // ---------------------------------------------------------------- the recursion on objects

  /** Every leaf below t has a number below n. */
  ghost predicate LeavesBelow(t: Tree, n: nat) {
    forall leaf :: leaf in Leaves(t) && leaf.Leaf? ==> leaf.id < n
  }

  lemma KidLeavesIn(t: Tree, j: nat)
    requires t.Internal? && j < |t.kids|
    ensures forall leaf :: leaf in Leaves(t.kids[j]) ==> leaf in Leaves(t)
  {
    hide Leaves;
    hide LeavesAll;
    InternalLeaves(t);
    LeavesAround(t.kids, j);
  }

  /** What recursive_insert relies on when it descends. */
  ghost predicate Descends(t: Tree, key: Key, data: Data, num: nat, h: nat, low: nat)
    requires Open(t, h, low)
  {
    && t.Internal? && h > 0 && |t.kids| == |t.keys| + 1 && t.keys != []
    && var q, j, id := Prepared(t, key, num), Target(t, key, num), SplitId(t, key);
       && q.Internal? && j < |q.kids| && Open(q.kids[j], h - 1, MINNUM_KEY)
       && -1 <= id < num
       && (if id == -1 then LeavesBelow(q.kids[j], num) else q.kids[j].Leaf? && LeavesBelow(q.kids[j], num + 1))
       && var sub := InsertBelow(q.kids[j], key, data, num, h - 1, MINNUM_KEY);
          InsertBelow(t, key, data, num, h, low)
          == Result(q.(kids := q.kids[j := sub.tree]), if id == -1 then sub.splitLeaf else id)
  }

  lemma DescendUnsplit(t: Tree, key: Key, data: Data, num: nat, h: nat, low: nat)
    requires Open(t, h, low) && t.Internal? && LeavesBelow(t, num)
    requires h > 0 && t.keys != [] && |t.kids| == |t.keys| + 1 && SplitId(t, key) == -1
    ensures Descends(t, key, data, num, h, low)
  {
    hide Leaves;
    hide Prepared;
    hide Target;
    hide SplitId;
    hide InsertBelow;
    hide Open;
    BelowUnfolds(t, key, data, num, h, low);
    PreparedLeaves(t, key, num);
    KidLeavesIn(Prepared(t, key, num), Target(t, key, num));
  }

  lemma DescendSplit(t: Tree, key: Key, data: Data, num: nat, h: nat, low: nat)
    requires Open(t, h, low) && t.Internal? && LeavesBelow(t, num)
    requires h > 0 && t.keys != [] && |t.kids| == |t.keys| + 1 && SplitId(t, key) != -1
    ensures Descends(t, key, data, num, h, low)
  {
    hide Leaves;
    hide LeafWith;
    hide Open;
    hide ChildIndex;
    hide InsertBelow;
    PreparedOpen(t, key, num, h, low);
    InsertIntoHalf(t, key, data, num, h, low);
    var ci, j, q := ChildIndex(t.keys, key), Target(t, key, num), Prepared(t, key, num);
    LeafLeaves(t.kids[ci]);
    KidLeavesIn(t, ci);
    assert t.kids[ci].id < num;
    LeafLeaves(q.kids[j]);
    InsertBelowLeaf(q.kids[j], key, data, num, h - 1, MINNUM_KEY);
  }

  lemma InsertBelowLeaf(t: Tree, key: Key, data: Data, num: nat, h: nat, low: nat)
    requires Open(t, h, low) && t.Leaf?
    ensures |t.datas| == |t.keys| && InsertBelow(t, key, data, num, h, low) == Result(LeafWith(t, key, data), -1)
  {
  }

  lemma Descend(t: Tree, key: Key, data: Data, num: nat, h: nat, low: nat)
    requires Open(t, h, low) && t.Internal? && LeavesBelow(t, num)
    ensures Descends(t, key, data, num, h, low)
  {
    hide Descends;
    PreparedOpen(t, key, num, h, low);
    if SplitId(t, key) == -1 {
      DescendUnsplit(t, key, data, num, h, low);
    } else {
      DescendSplit(t, key, data, num, h, low);
    }
  }

  lemma LinkedBelow(t: Tree, right: seq<int>)
    requires Linked(right, Ids(Leaves(t)))
    ensures LeavesBelow(t, |right|)
  {
  }

  /** Below the two halves of a leaf no further split happens, so no number is used. */
  lemma HalvesHaveRoom(t: Tree, key: Key, data: Data, num: nat, n: nat)
    requires Rooted(t, 0) && t.Leaf? && Full(t)
    ensures Open(GrownRoot(t, num), 1, 1)
    ensures var x := InsertBelow(GrownRoot(t, num), key, data, num, 1, 1);
            x.splitLeaf == -1 && x == InsertBelow(GrownRoot(t, num), key, data, n, 1, 1)
  {
  }

  /** The root the recursion starts from, and the sibling table then. */
  function NewRoot(t: Tree, num: nat): (r: Tree) { if Full(t) then GrownRoot(t, num) else t }

  function NewRight(t: Tree, right: seq<int>): (r: seq<int>)
    requires t.Leaf? && Full(t) ==> t.id < |right|
  {
    if t.Leaf? && Full(t) then Relinked(right, t.id) else right
  }

  /** recursive_insert from the possibly new root gives what InsertRoot says. */
  ghost predicate RunsFromRoot(t: Tree, key: Key, data: Data, right: seq<int>, h: nat)
    requires Rooted(t, h)
  {
    && (|t.keys| >= MAXNUM_KEY <==> Full(t))
    && (t.Leaf? ==> t.id < |right| && h == 0)
    && var q, right1, h1 := NewRoot(t, |right|), NewRight(t, right), HeightAfter(t, h);
       var low := if q.Leaf? then 0 else 1;
       && Open(q, h1, low) && LeavesBelow(q, |right1|)
       && var x, y := InsertRoot(t, key, data, |right|, h), InsertBelow(q, key, data, |right1|, h1, low);
          && x.tree == y.tree && -1 <= x.splitLeaf < |right| && -1 <= y.splitLeaf < |right1|
          && Relinked(right1, y.splitLeaf) == Relinked(right, x.splitLeaf)
  }

  lemma RunsFromFullLeaf(t: Tree, key: Key, data: Data, right: seq<int>)
    requires Rooted(t, 0) && Full(t) && t.Leaf? && Linked(right, Ids(Leaves(t)))
    ensures RunsFromRoot(t, key, data, right, 0)
  {
    hide GrownRoot;
    hide Leaves;
    hide InsertBelow;
    GrownRootOpen(t, 0, |right|);
    GrownRootLeaves(t, |right|);
    LinkedBelow(t, right);
    LeafLeaves(t);
    assert t in Leaves(t);
    assert GrownRoot(t, |right|).Internal? by { OpenInternal(GrownRoot(t, |right|), 0, 1); }
    HalvesHaveRoom(t, key, data, |right|, |right| + 1);
  }

  lemma OpenInternal(t: Tree, h: nat, low: nat)
    requires Open(t, h + 1, low)
    ensures t.Internal?
  {
  }

  lemma RunsFromOther(t: Tree, key: Key, data: Data, right: seq<int>, h: nat)
    requires Rooted(t, h) && !(Full(t) && t.Leaf?) && Linked(right, Ids(Leaves(t)))
    ensures RunsFromRoot(t, key, data, right, h)
  {
    hide GrownRoot;
    hide Leaves;
    hide InsertBelow;
    hide LeavesBelow;
    hide Linked;
    hide Pairs;
    hide Ids;
    LinkedBelow(t, right);
    InsertRootKeeps(t, key, data, right, h);
    if t.Leaf? {
      LeafLeaves(t);
      LeafBelow(t, |right|);
    }
    if Full(t) {
      GrownRootOpen(t, h, |right|);
      GrownRootLeaves(t, |right|);
      SameLeavesBelow(t, GrownRoot(t, |right|), |right|);
      OpenInternal(GrownRoot(t, |right|), h, 1);
    }
  }

  /** The new leaf an empty tree starts from. */
  lemma EmptyRoot(right: seq<int>)
    ensures var t := Leaf(|right|, [], []);
            && Rooted(t, 0) && Linked(right + [-1], Ids(Leaves(t))) && Ids(Leaves(t))[0] == |right|
            && Pairs(Leaves(t)) == multiset{}
  {
  }

  lemma LeafBelow(t: Tree, n: nat)
    requires t.Leaf? && LeavesBelow(t, n)
    ensures t.id < n
  {
  }

  lemma SameLeavesBelow(t: Tree, q: Tree, n: nat)
    requires LeavesBelow(t, n) && Leaves(t) == Leaves(q)
    ensures LeavesBelow(q, n)
  {
  }

  lemma RunsAlways(t: Tree, key: Key, data: Data, right: seq<int>, h: nat)
    requires Rooted(t, h) && Linked(right, Ids(Leaves(t)))
    ensures RunsFromRoot(t, key, data, right, h)
  {
    hide RunsFromRoot;
    if Full(t) && t.Leaf? {
      RunsFromFullLeaf(t, key, data, right);
    } else {
      RunsFromOther(t, key, data, right, h);
    }
  }

  // ---------------------------------------------------------------- when the search is exact

  /** No key is stored twice. */
  ghost predicate Distinct(pairs: multiset<(Key, Data)>) {
    && (forall p :: p in pairs ==> pairs[p] == 1)
    && (forall p, q :: p in pairs && q in pairs && p.0 == q.0 ==> p == q)
  }

  lemma DistinctAfter(pairs: multiset<(Key, Data)>, key: Key, data: Data)
    ensures Distinct(pairs + multiset{(key, data)}) <==> Distinct(pairs) && key !in KeysOf(pairs)
  {
    var pairs' := pairs + multiset{(key, data)};
    assert (key, data) in pairs';
    if Distinct(pairs') {
      forall p | p in pairs ensures pairs[p] == 1 && p.0 != key {
        assert p in pairs' && pairs'[p] == 1;
      }
      forall p, q | p in pairs && q in pairs && p.0 == q.0 ensures p == q {
        assert p in pairs' && q in pairs';
      }
    }
  }

  lemma DistinctKeys(t: Tree, i: nat, j: nat)
    requires t.Leaf? && |t.datas| == |t.keys| && Distinct(PairsOf(t)) && i < j < |t.keys|
    ensures t.keys[i] != t.keys[j]
  {
    var z := Zip(t.keys, t.datas);
    assert z == z[..j] + [z[j]] + z[j + 1..];
    assert z[i] in z[..j] && z[i] in multiset(z) && z[j] in multiset(z);
  }

  /** Key k0 is stored, if at all, where the search never looks: the keys of the root and of all its
      children but the last lie in ks. */
  ghost predicate Hidden(t: Tree, k0: Key, ks: iset<Key>) {
    && t.Internal? && |t.kids| == |t.keys| + 1 && k0 !in ks
    && (forall i :: 0 <= i < |t.keys| ==> t.keys[i] in ks && KeysIn(t.kids[i], ks))
  }

  lemma HiddenNotFound(t: Tree, k0: Key, h: nat, ks: iset<Key>)
    requires Shape(t, h, 1) && Hidden(t, k0, ks)
    ensures !SearchBelow(t, k0, h)
  {
    var ci := ChildIndex(t.keys, k0);
    assert ci < |t.keys|;
    ShapeWeaken(t.kids[ci], h - 1, MINNUM_KEY, 1);
    if SearchBelow(t.kids[ci], k0, h - 1) {
      FoundIsHeld(t.kids[ci], k0, h - 1, ks);
    }
  }

  lemma HiddenMore(t: Tree, k0: Key, ks: iset<Key>, key: Key)
    requires Hidden(t, k0, ks) && key != k0
    ensures Hidden(t, k0, ks + iset{key})
  {
    forall i | 0 <= i < |t.keys| ensures KeysIn(t.kids[i], ks + iset{key}) {
      KeysInMore(t.kids[i], ks, ks + iset{key});
    }
  }

  /** Splitting a child that is not the last leaves the last one behind. */
  lemma SplitChildHidden(t: Tree, ci: nat, num: nat, k0: Key, ks: iset<Key>)
    requires Hidden(t, k0, ks) && ci < |t.keys| && Full(t.kids[ci])
    ensures Hidden(SplitChild(t, ci, num), k0, ks)
  {
    var c, s, r := t.kids[ci], SplitNode(t.kids[ci], num), SplitChild(t, ci, num);
    SplitNodeKeys(c, num, ks);
    hide SplitNode;
    hide KeysIn;
    forall i | 0 <= i < |r.keys| ensures r.keys[i] in ks && KeysIn(r.kids[i], ks) {
      assert r.keys[i] == if i < ci then t.keys[i] else if i == ci then s.sep else t.keys[i - 1];
      assert r.kids[i] == if i < ci then t.kids[i] else if i == ci then s.left
                          else if i == ci + 1 then s.right else t.kids[i - 1];
    }
  }

  lemma HiddenReplaced(q: Tree, j: nat, kid': Tree, k0: Key, ks: iset<Key>)
    requires Hidden(q, k0, ks) && j < |q.kids| && (j < |q.keys| ==> KeysIn(kid', ks))
    ensures Hidden(q.(kids := q.kids[j := kid']), k0, ks)
  {
    hide KeysIn;
  }

  /** An insertion that does not split the last child leaves the hidden key hidden. */
  lemma HiddenBelow(t: Tree, key: Key, data: Data, num: nat, h: nat, low: nat, k0: Key, ks: iset<Key>)
    requires Open(t, h, low) && Hidden(t, k0, ks) && key in ks
    requires ChildIndex(t.keys, key) < |t.keys| || !Full(t.kids[|t.keys|])
    ensures Hidden(InsertBelow(t, key, data, num, h, low).tree, k0, ks)
  {
    var ci := ChildIndex(t.keys, key);
    PreparedOpen(t, key, num, h, low);
    if Full(t.kids[ci]) {
      SplitChildHidden(t, ci, num, k0, ks);
    }
    var q, j := Prepared(t, key, num), Target(t, key, num);
    var sub := InsertBelow(q.kids[j], key, data, num, h - 1, MINNUM_KEY);
    hide Open;
    hide SplitChild;
    if j < |q.keys| {
      InsertBelowKeys(q.kids[j], key, data, num, h - 1, MINNUM_KEY, ks);
    }
    HiddenReplaced(q, j, sub.tree, k0, ks);
  }

  /** The new root of a full one has the old last child in its last child. */
  lemma GrownRootHidden(t: Tree, h: nat, num: nat, k0: Key, ks: iset<Key>)
    requires Shape(t, h, 1) && Full(t) && Hidden(t, k0, ks)
    ensures var q := GrownRoot(t, num); Hidden(q, k0, ks) && |q.keys| == 1 && !Full(q.kids[1])
  {
    var q, s := GrownRoot(t, num), SplitNode(t, num);
    assert q.keys == [s.sep] && q.kids == [s.left, s.right];
  }

  /** A key the search does not find is never equal to the key that leads into the last child. */
  lemma NotFoundNotLast(t: Tree, key: Key, h: nat)
    requires Shape(t, h, 1) && t.Internal? && !SearchBelow(t, key, h)
    ensures ChildIndex(t.keys, key) < |t.keys|
  {
  }

  /** Whatever other keys insert accepts, a hidden key stays hidden. */
  lemma HiddenStays(t: Tree, key: Key, data: Data, num: nat, h: nat, k0: Key, ks: iset<Key>)
    requires Shape(t, h, 1) && Hidden(t, k0, ks) && key != k0 && !SearchBelow(t, key, h)
    ensures Hidden(InsertRoot(t, key, data, num, h).tree, k0, ks + iset{key})
  {
    hide InsertBelow;
    hide SearchBelow;
    NotFoundNotLast(t, key, h);
    HiddenMore(t, k0, ks, key);
    hide Hidden;
    if Full(t) {
      GrownRootOpen(t, h, num);
      GrownRootHidden(t, h, num, k0, ks + iset{key});
      HiddenBelow(GrownRoot(t, num), key, data, num, h + 1, 1, k0, ks + iset{key});
    } else {
      HiddenBelow(t, key, data, num, h, 1, k0, ks + iset{key});
    }
  }

  /** The first split of a leaf with distinct keys hides the key after the separator. */
  lemma FirstSplitHides(t: Tree, key: Key, data: Data, num: nat) returns (k0: Key, ks: iset<Key>)
    requires Shape(t, 0, 1) && Full(t) && Distinct(PairsOf(t)) && key !in t.keys
    ensures k0 in t.keys && Hidden(InsertRoot(t, key, data, num, 0).tree, k0, ks)
  {
    k0 := t.keys[MINNUM_KEY + 1];
    var kept := (iset y | y in t.keys[..MINNUM_KEY]) + iset{key};
    ks := kept + iset{t.keys[MINNUM_KEY]};
    FirstSplitTree(t, key, data, num);
    var t' := InsertRoot(t, key, data, num, 0).tree;
    KeysInMore(t'.kids[0], kept, ks);
    DistinctKeys(t, MINNUM_KEY, MINNUM_KEY + 1);
    forall i | 0 <= i < MINNUM_KEY ensures t.keys[i] != k0 { DistinctKeys(t, i, MINNUM_KEY + 1); }
  }

  /** What every tree built by insertions satisfies: a leaf holds distinct keys, and a taller tree at
      least fourteen pairs and, as long as they have distinct keys, one whose key is hidden. */
  ghost predicate Tracked(t: Tree, h: nat, k0: Key, ks: iset<Key>) {
    var pairs := Pairs(Leaves(t));
    if h == 0 then Distinct(pairs)
    else |pairs| > MAXNUM_KEY && (Distinct(pairs) ==> k0 in KeysOf(pairs) && Hidden(t, k0, ks))
  }

  lemma TrackedAfter(t: Tree, key: Key, data: Data, right: seq<int>, h: nat, k0: Key, ks: iset<Key>)
    returns (k0': Key, ks': iset<Key>)
    requires Shape(t, h, 1) && Linked(right, Ids(Leaves(t))) && Tracked(t, h, k0, ks) && !SearchBelow(t, key, h)
    ensures Tracked(InsertRoot(t, key, data, |right|, h).tree, HeightAfter(t, h), k0', ks')
  {
    hide Leaves;
    hide Pairs;
    hide InsertRoot;
    hide SearchBelow;
    hide Hidden;
    hide Distinct;
    var pairs := Pairs(Leaves(t));
    InsertRootKeeps(t, key, data, right, h);
    DistinctAfter(pairs, key, data);
    KeysAfter(pairs, key, data);
    k0', ks' := k0, ks;
    if h == 0 {
      LeafSearchIsExact(t, key);
      if Full(t) {
        OneLeafPairs(t);
        assert key !in t.keys by { PairsOfKeys(t, key); }
        k0', ks' := FirstSplitHides(t, key, data, |right|);
        PairsOfKeys(t, k0');
      }
    } else if Distinct(pairs) && key !in KeysOf(pairs) {
      HiddenStays(t, key, data, |right|, h, k0, ks);
      ks' := ks + iset{key};
    }
  }

  lemma OneLeafPairs(t: Tree)
    requires t.Leaf? && |t.datas| == |t.keys|
    ensures Pairs(Leaves(t)) == PairsOf(t) && |PairsOf(t)| == |t.keys|
  {
    hide PairsOf;
    LeafLeaves(t);
    OnePairsOf(t);
    LeafSize(t);
  }

  lemma LeafSize(t: Tree)
    requires t.Leaf? && |t.datas| == |t.keys|
    ensures |PairsOf(t)| == |t.keys|
  {
  }

  /** The first insertion of all. */
  lemma TrackedFirst(key: Key, data: Data, right: seq<int>, k0: Key, ks: iset<Key>)
    ensures Rooted(Leaf(|right|, [], []), 0)
    ensures var x := InsertRoot(Leaf(|right|, [], []), key, data, |right| + 1, 0);
            HeightAfter(Leaf(|right|, [], []), 0) == 0 && Tracked(x.tree, 0, k0, ks)
  {
    EmptyRoot(right);
    var t := Leaf(|right|, [], []);
    InsertRootKeeps(t, key, data, right + [-1], 0);
    hide *;
    DistinctAfter(multiset{}, key, data);
    NothingTwice();
    LeafTracked(InsertRoot(t, key, data, |right| + 1, 0).tree, k0, ks);
    HeightOfEmpty(t);
  }

  lemma NothingTwice()
    ensures Distinct(multiset{})
    ensures forall key :: key !in KeysOf(multiset{})
  {
  }

  lemma LeafTracked(t: Tree, k0: Key, ks: iset<Key>)
    requires Distinct(Pairs(Leaves(t)))
    ensures Tracked(t, 0, k0, ks)
  {
  }

  lemma HeightOfEmpty(t: Tree)
    requires t.keys == []
    ensures HeightAfter(t, 0) == 0
  {
  }

  /** The search finds exactly the stored keys, and no key is stored twice, exactly as long as the tree
      holds at most thirteen pairs, which is to say as long as the root is a leaf. */
  lemma TreeExactIff(t: Tree, h: nat, k0: Key, ks: iset<Key>)
    requires Shape(t, h, 1) && KeysIn(t, KeysOf(Pairs(Leaves(t)))) && Tracked(t, h, k0, ks)
    ensures var pairs := Pairs(Leaves(t));
            Distinct(pairs) && (forall k :: SearchBelow(t, k, h) <==> k in KeysOf(pairs))
            <==> |pairs| <= MAXNUM_KEY
  {
    hide Leaves;
    hide Pairs;
    hide PairsOf;
    hide Distinct;
    hide Hidden;
    hide SearchBelow;
    if h == 0 {
      OneLeafPairs(t);
      forall k ensures SearchBelow(t, k, h) <==> k in KeysOf(Pairs(Leaves(t))) { LeafSearchIsExact(t, k); }
    } else if Distinct(Pairs(Leaves(t))) {
      HiddenNotFound(t, k0, h, ks);
    }
  }

  // ---------------------------------------------------------------- whole runs of insertions

  /** What a CBPlusTree holds: the root, the right siblings of the leaves, and the height. */
  datatype Held = Held(root: Option<Tree>, right: seq<int>, h: nat)

  ghost function PairsHeld(s: Held): (pairs: multiset<(Key, Data)>) {
    match s.root
    case None => multiset{}
    case Some(t) => Pairs(Leaves(t))
  }

  ghost predicate Sound(s: Held) {
    match s.root
    case None => true
    case Some(t) =>
      && Shape(t, s.h, 1) && Linked(s.right, Ids(Leaves(t))) && KeysIn(t, KeysOf(Pairs(Leaves(t))))
      && Ordered(t, None)
      && exists k0, ks :: Tracked(t, s.h, k0, ks)
  }

  ghost predicate Found(s: Held, key: Key)
    requires Sound(s)
  {
    s.root.Some? && SearchBelow(s.root.value, key, s.h)
  }

  /** A new root leaf for an empty tree. */
  ghost function Started(s: Held): (r: Held) {
    if s.root == None then Held(Some(Leaf(|s.right|, [], [])), s.right + [-1], 0) else s
  }

  lemma StartedOk(s: Held)
    requires Sound(s)
    ensures var r := Started(s);
            && r.root.Some? && Rooted(r.root.value, r.h) && Linked(r.right, Ids(Leaves(r.root.value)))
            && PairsHeld(r) == PairsHeld(s) && KeysIn(r.root.value, KeysOf(PairsHeld(s)))
            && Ordered(r.root.value, None) && (s.root == None ==> r.root.value.keys == [])
  {
    hide Leaves;
    hide Pairs;
    hide Linked;
    hide Ids;
    EmptyRoot(s.right);
  }

  /** What one call of insert makes of the tree. */
  ghost function Inserted(s: Held, key: Key, data: Data): (r: Held)
    requires Sound(s)
  {
    if Found(s, key) then s
    else
      StartedOk(s);
      var r := Started(s);
      var x := InsertRoot(r.root.value, key, data, |r.right|, r.h);
      InsertRootKeeps(r.root.value, key, data, r.right, r.h);
      Held(Some(x.tree), Relinked(r.right, x.splitLeaf), HeightAfter(r.root.value, r.h))
  }

  /** insert keeps the tree sound, adds exactly the pair unless the search finds the key, and leaves the key
      where the search finds it. */
  lemma InsertedSound(s: Held, key: Key, data: Data)
    requires Sound(s)
    ensures var r := Inserted(s, key, data);
            && Sound(r) && Found(r, key)
            && PairsHeld(r) == if Found(s, key) then PairsHeld(s) else PairsHeld(s) + multiset{(key, data)}
  {
    hide Leaves;
    hide Pairs;
    hide Linked;
    hide Ids;
    hide Shape;
    hide Tracked;
    hide InsertRoot;
    hide SearchBelow;
    hide Ordered;
    hide KeysIn;
    if !Found(s, key) {
      StartedOk(s);
      var r := Started(s);
      var t := r.root.value;
      InsertRootKeeps(t, key, data, r.right, r.h);
      InsertRootKeys(t, key, data, |r.right|, r.h, KeysOf(PairsHeld(s)));
      InsertRootFound(t, key, data, |r.right|, r.h);
      KeysAfter(PairsHeld(s), key, data);
      if s.root == None {
        TrackedFirst(key, data, s.right, key, iset{});
      } else {
        var k0, ks :| Tracked(t, s.h, k0, ks);
        var k0', ks' := TrackedAfter(t, key, data, s.right, s.h, k0, ks);
      }
    }
  }

  /** The tree after a run of insertions from the empty one. */
  ghost function Built(run: seq<(Key, Data)>): (s: Held)
    ensures Sound(s)
  {
    if run == [] then Held(None, [], 0)
    else
      var last := run[|run| - 1];
      InsertedSound(Built(run[..|run| - 1]), last.0, last.1);
      Inserted(Built(run[..|run| - 1]), last.0, last.1)
  }

  /** What insert tests before it refuses a key: a found key is stored; up to thirteen pairs a stored key
      is found. */
  lemma FoundMeansStored(s: Held, key: Key)
    requires Sound(s)
    ensures Found(s, key) ==> key in KeysOf(PairsHeld(s))
    ensures |PairsHeld(s)| <= MAXNUM_KEY ==> (Found(s, key) <==> key in KeysOf(PairsHeld(s)))
  {
    hide Leaves;
    hide Pairs;
    hide SearchBelow;
    if s.root.Some? {
      SearchMeans(s.root.value, key, s.h);
    }
  }

  /** The search finds exactly the stored keys, and none is stored twice, if and only if the tree holds at
      most thirteen pairs. Beyond that insert no longer keeps keys apart. */
  lemma SearchExactIff(s: Held)
    requires Sound(s)
    ensures var pairs := PairsHeld(s);
            Distinct(pairs) && (forall k :: Found(s, k) <==> k in KeysOf(pairs)) <==> |pairs| <= MAXNUM_KEY
  {
    hide Leaves;
    hide Pairs;
    hide Distinct;
    hide Tracked;
    hide SearchBelow;
    if s.root == None {
      NothingTwice();
    } else {
      var k0, ks :| Tracked(s.root.value, s.h, k0, ks);
      TreeExactIff(s.root.value, s.h, k0, ks);
      assert forall k :: Found(s, k) <==> SearchBelow(s.root.value, k, s.h);
    }
  }

  /** So it is after any run of insertions. For a run whose stored keys are distinct, every stored key is
      found if and only if there are at most thirteen. */
  lemma RunSearchExactIff(run: seq<(Key, Data)>)
    ensures var s := Built(run); var pairs := PairsHeld(s);
            && (Distinct(pairs) && (forall k :: Found(s, k) <==> k in KeysOf(pairs)) <==> |pairs| <= MAXNUM_KEY)
            && (Distinct(pairs) ==> ((forall k :: k in KeysOf(pairs) ==> Found(s, k)) <==> |pairs| <= MAXNUM_KEY))
  {
    var s := Built(run);
    hide *;
    SearchExactIff(s);
    forall k ensures Found(s, k) ==> k in KeysOf(PairsHeld(s)) { FoundMeansStored(s, k); }
  }

  /** The run 1, 2, ..., n, and the leaf it builds as long as that has room. */
  ghost function Counting(n: nat): (run: seq<(Key, Data)>)
    ensures |run| == n
  {
    seq(n, i requires 0 <= i < n => ((i + 1) as real, i + 1))
  }

  ghost function CountingLeaf(n: nat): (t: Tree)
    ensures t.Leaf? && |t.keys| == |t.datas| == n
  {
    Leaf(0, seq(n, i requires 0 <= i < n => (i + 1) as real), seq(n, i requires 0 <= i < n => i + 1))
  }

  lemma CountingNext(n: nat)
    requires 1 <= n < MAXNUM_KEY
    ensures var t := CountingLeaf(n);
            Shape(t, 0, 1) && !Full(t) && (n + 1) as real !in t.keys
            && LeafWith(t, (n + 1) as real, n + 1) == CountingLeaf(n + 1)
  {
  }

  lemma {:induction false} CountingFits(n: nat)
    requires 1 <= n <= MAXNUM_KEY
    ensures Built(Counting(n)) == Held(Some(CountingLeaf(n)), [-1], 0)
  {
    if n == 1 {
      CountingOne();
    } else {
      CountingFits(n - 1);
      CountingNext(n - 1);
      CountingPrefix(n);
      CountingStep(Built(Counting(n - 1)), CountingLeaf(n - 1), n as real, n);
    }
  }

  lemma CountingOne()
    ensures Built(Counting(1)) == Held(Some(CountingLeaf(1)), [-1], 0)
  {
    assert Counting(1) == [(1.0, 1)] && Counting(1)[..0] == [];
    var t := Leaf(0, [], []);
    assert LeafWith(t, 1.0, 1) == CountingLeaf(1);
    assert Started(Built([])) == Held(Some(t), [-1], 0);
  }

  /** An insertion into a root leaf that has room. */
  lemma CountingStep(s: Held, t: Tree, key: Key, data: Data)
    requires Sound(s) && s.root == Some(t) && s.h == 0 && Shape(t, 0, 1) && !Full(t) && key !in t.keys
    ensures Inserted(s, key, data) == Held(Some(LeafWith(t, key, data)), s.right, 0)
  {
    hide LeafWith;
    InsertBelowLeaf(t, key, data, |s.right|, 0, 0);
  }

  /** The witness: after 1, 2, ..., 14 the tree stores 8 and does not find it, and insert takes it again. */
  lemma FourteenInserts(data: Data)
    ensures var s := Built(Counting(14));
            && 8.0 in KeysOf(PairsHeld(s)) && !Found(s, 8.0)
            && !Distinct(PairsHeld(Inserted(s, 8.0, data)))
  {
    hide Built;
    hide Counting;
    hide CountingLeaf;
    hide Inserted;
    hide PairsHeld;
    hide Found;
    hide KeysOf;
    hide Distinct;
    hide Shape;
    hide Full;
    hide InsertRoot;
    hide Leaves;
    hide Pairs;
    hide SearchBelow;
    hide Sound;
    var s, t := Built(Counting(13)), CountingLeaf(13);
    CountingFits(13);
    CountingFull();
    FirstSplitHidesKeys(t, 14.0, 14, 1, 8.0);
    SplitStep(s, t, 14.0, 14);
    CountingPrefix(14);
    BuiltNext(Counting(14));
    var s' := Built(Counting(14));
    InsertedSound(s', 8.0, data);
    DistinctAfter(PairsHeld(s'), 8.0, data);
  }

  lemma CountingPrefix(n: nat)
    requires n >= 1
    ensures Counting(n)[..n - 1] == Counting(n - 1) && Counting(n)[n - 1] == (n as real, n)
  {
  }

  lemma BuiltNext(run: seq<(Key, Data)>)
    requires run != []
    ensures Built(run) == Inserted(Built(run[..|run| - 1]), run[|run| - 1].0, run[|run| - 1].1)
  {
  }

  lemma CountingFull()
    ensures var t := CountingLeaf(13);
            && Shape(t, 0, 1) && Full(t) && 14.0 !in t.keys
            && t.keys[7] == 8.0 && t.keys[6] == 7.0 && 8.0 !in t.keys[..6]
  {
  }

  /** An insertion into a full root leaf. */
  lemma SplitStep(s: Held, t: Tree, key: Key, data: Data)
    requires Sound(s) && s.root == Some(t) && s.h == 0 && Shape(t, 0, 1) && Full(t) && key !in t.keys
    ensures var s', x := Inserted(s, key, data), InsertRoot(t, key, data, |s.right|, 0);
            && Sound(s') && s'.root == Some(x.tree) && Shape(x.tree, 1, 1)
            && PairsHeld(s') == Pairs(Leaves(x.tree)) && forall k :: Found(s', k) <==> SearchBelow(x.tree, k, 1)
  {
    hide InsertRoot;
    hide Leaves;
    hide Pairs;
    hide Ordered;
    hide KeysIn;
    hide Linked;
    hide Tracked;
    InsertedSound(s, key, data);
  }

  // ---------------------------------------------------------------- the tree

  ghost predicate IsMaximum(max: Key, pairs: multiset<(Key, Data)>) {
    && (forall p :: p in pairs ==> p.0 <= max)
    && (exists p :: p in pairs && p.0 == max)
  }

  lemma MaximumAfter(max: Key, pairs: multiset<(Key, Data)>, key: Key, data: Data)
    requires pairs == multiset{} || IsMaximum(max, pairs)
    ensures IsMaximum(if pairs == multiset{} || key > max then key else max, pairs + multiset{(key, data)})
  {
  }

  lemma KeysAfter(pairs: multiset<(Key, Data)>, key: Key, data: Data)
    ensures KeysOf(pairs + multiset{(key, data)}) == KeysOf(pairs) + iset{key}
  {
  }

  lemma LinkedNotEmpty(x: Result, right: seq<int>)
    requires x.splitLeaf == -1 || 0 <= x.splitLeaf < |right|
    requires Linked(Relinked(right, x.splitLeaf), Ids(Leaves(x.tree)))
    ensures Leaves(x.tree) != []
  {
  }

  /** The class CBPlusTree with the sibling pointers of its leaves: right[id] is the number of the leaf
      right of leaf id, -1 for none. */
  class CBPlusTree {
    var root: Option<Tree>
    var dataHead: int
    var maxKey: Key
    var right: seq<int>
    ghost var height: nat

    ghost function View(): (s: Held)
      reads this
    {
      Held(root, right, height)
    }

    ghost function Contents(): (pairs: multiset<(Key, Data)>)
      reads this
    {
      PairsHeld(View())
    }

    ghost predicate Valid()
      reads this
    {
      && Sound(View())
      && match root
         case None => dataHead == -1
         case Some(t) => dataHead == Ids(Leaves(t))[0] && IsMaximum(maxKey, Contents())
    }

    constructor ()
      ensures Valid() && View() == Built([])
    {
      root, dataHead, right, height := None, -1, [], 0;
    }

    predicate Search(key: Key)
      requires Valid()
      reads this
      ensures Search(key) <==> Found(View(), key)
    {
      root.Some? && SearchBelow(root.value, key, height)
    }

    /** recursive_insert: returns the node as the call leaves it. */
    method RecursiveInsert(node: Tree, key: Key, data: Data, ghost h: nat, ghost low: nat) returns (node': Tree)
      requires Open(node, h, low)
      requires LeavesBelow(node, |right|)
      modifies this`right
      ensures var x := InsertBelow(node, key, data, old(|right|), h, low);
              && node' == x.tree && (x.splitLeaf == -1 || 0 <= x.splitLeaf < old(|right|))
              && right == Relinked(old(right), x.splitLeaf)
      decreases h
    {
      if node.Leaf? {
        return LeafWith(node, key, data);
      }
      Descend(node, key, data, |right|, h, low);
      var childIndex := ChildIndex(node.keys, key);
      node' := node;
      if |node.kids[childIndex].keys| >= MAXNUM_KEY {
        node' := SplitChild(node, childIndex, |right|);
        if node.kids[childIndex].Leaf? {
          right := Relinked(right, node.kids[childIndex].id);
        }
        if node'.keys[childIndex] <= key {
          childIndex := childIndex + 1;
        }
      }
      var child := RecursiveInsert(node'.kids[childIndex], key, data, h - 1, MINNUM_KEY);
      node' := node'.(kids := node'.kids[childIndex := child]);
    }

    /** The root split at the head of insert. */
    method SplitFullRoot()
      requires root.Some? && Rooted(root.value, height) && (|root.value.keys| >= MAXNUM_KEY <==> Full(root.value))
      requires root.value.Leaf? ==> root.value.id < |right|
      modifies this`root, this`right, this`height
      ensures root == Some(NewRoot(old(root.value), |old(right)|)) && right == NewRight(old(root.value), old(right))
      ensures height == HeightAfter(old(root.value), old(height))
    {
      hide Shape;
      var t := root.value;
      if |t.keys| >= MAXNUM_KEY {
        root := Some(SplitChild(Internal([], [t]), 0, |right|));
        if t.Leaf? {
          right := Relinked(right, t.id);
        }
        height := height + 1;
      }
    }

    /** insert from the test for a full root on; a new root has no keys yet. */
    method InsertInto(key: Key, data: Data)
      requires root.Some? && Rooted(root.value, height) && Linked(right, Ids(Leaves(root.value)))
      requires dataHead == Ids(Leaves(root.value))[0]
      requires if Contents() == multiset{} then maxKey == key else IsMaximum(maxKey, Contents())
      modifies this
      ensures var (t, num, h) := (old(root.value), |old(right)|, old(height));
              var x := InsertRoot(t, key, data, num, h);
              && -1 <= x.splitLeaf < num
              && View() == Held(Some(x.tree), Relinked(old(right), x.splitLeaf), HeightAfter(t, h))
      ensures root.Some? && Leaves(root.value) != [] && dataHead == Ids(Leaves(root.value))[0]
      ensures IsMaximum(maxKey, Contents())
    {
      hide Shape;
      hide Linked;
      hide Leaves;
      hide Pairs;
      hide IsMaximum;
      hide Open;
      hide InsertRoot;
      hide InsertBelow;
      hide LeavesBelow;
      hide Ids;
      hide HeightAfter;
      hide NewRoot;
      hide NewRight;
      hide Full;
      ghost var t := root.value;
      InsertRootKeeps(t, key, data, right, height);
      RunsAlways(t, key, data, right, height);
      MaximumAfter(maxKey, Contents(), key, data);
      LinkedNotEmpty(InsertRoot(t, key, data, |right|, height), right);
      SplitFullRoot();
      if key > maxKey {
        maxKey := key;
      }
      var node := RecursiveInsert(root.value, key, data, height, if root.value.Leaf? then 0 else 1);
      root := Some(node);
    }

    /** insert. The stored keys are refused, and only they, as long as the tree holds at most thirteen
        pairs; SearchExactIff says that this bound is exact. */
    method Insert(key: Key, data: Data) returns (ok: bool)
      requires Valid()
      modifies this
      ensures Valid() && View() == Inserted(old(View()), key, data)
      ensures ok <==> !old(Search(key))
      ensures ok ==> Contents() == old(Contents()) + multiset{(key, data)}
      ensures Search(key)
      ensures !ok ==> unchanged(this) && key in KeysOf(old(Contents()))
      ensures |old(Contents())| <= MAXNUM_KEY ==> (ok <==> key !in KeysOf(old(Contents())))
    {
      hide Leaves;
      hide Pairs;
      hide Linked;
      hide Ids;
      hide Shape;
      hide InsertRoot;
      hide SearchBelow;
      hide KeysOf;
      hide Ordered;
      hide KeysIn;
      FoundMeansStored(View(), key);
      ok := !Search(key);
      if !ok {
        return;
      }
      StartedOk(View());
      InsertedSound(View(), key, data);
      if root == None {
        EmptyRoot(right);
        root, dataHead, maxKey := Some(Leaf(|right|, [], [])), |right|, key;
        right := right + [-1];
        height := 0;
      }
      InsertInto(key, data);
    }
  }
}
