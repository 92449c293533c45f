/**
 The shared-memory message queue: variable-length records laid out over a ring of fixed-size
 nodes, at the level of bytes. One writer reserves nodes, marks the nodes it skips at the end
 of the ring, writes the header and the payload byte by byte and finally publishes the record
 by storing its token; readers fetch in one atomic step.
 */
module ShmQueue {
  import opened Arithmetic

  const TOKEN_NO_DATA := 0
  const TOKEN_SKIPPED := 0xdb03_0000
  const TOKEN_HAS_DATA := 0x0000_db03

  const MAX_SQ_DATA_LENGTH := 65536
  const RESERVE_BLOCK_COUNT := 100
  const SQ_MAX_CONFLICT_TRIES := 10

  /** sizeof(struct sq_node_head_t): token, length and the 32-bit time stamp. */
  const HEADER := 16

  type Message = seq<byte>

  // ---------------------------------------------------------------- ring geometry

  /** ns is the node size in bytes, count the usable number of nodes; one extra node ends the ring. */
  datatype Config = Config(ns: nat, count: nat) {
    function Ring(): (m: nat) ensures m == count + 1 { count + 1 }

    predicate Ok() { ns >= HEADER + 8 && count > RESERVE_BLOCK_COUNT }
  }

  /** Byte offset of a node, as in SQ_GET. */
  function Addr(c: Config, i: nat): nat { i * c.ns }

  lemma AddrOrder(c: Config, i: nat, j: nat)
    ensures i <= j ==> Addr(c, i) <= Addr(c, j)
    ensures i < j ==> Addr(c, i) + c.ns <= Addr(c, j)
    ensures Addr(c, i + 1) == Addr(c, i) + c.ns
  {
  }

  /** SQ_ADD_POS */
  function AddPos(c: Config, pos: nat, val: nat): nat { (pos + val) % (c.count + 1) }

  /** SQ_EMPTY_NODES2 and SQ_USED_NODES2, with head and tail as arguments. */
  function EmptyNodes(c: Config, head: nat, tail: nat): int { (head + c.count - tail) % (c.count + 1) }

  function UsedNodes(c: Config, head: nat, tail: nat): int { c.count - EmptyNodes(c, head, tail) }

  /** SQ_NUM_NEEDED_NODES */
  function NumNodes(c: Config, datalen: nat): nat
    requires c.Ok()
  {
    (datalen + HEADER + c.ns - 1) / c.ns
  }

  /** Steps from a to b around the ring. */
  function Dist(c: Config, a: nat, b: nat): int {
    if a <= b then b - a else b + c.Ring() - a
  }

  /** Position k nodes after pos, for k at most one lap. */
  function Ahead(c: Config, pos: nat, k: nat): (r: int) {
    if pos + k < c.Ring() then pos + k else pos + k - c.Ring()
  }

  /** Node p is one of the len nodes that start at from. */
  predicate InArc(c: Config, p: nat, from: nat, len: int) {
    Dist(c, from, p) < len
  }

  lemma AddPosIsAhead(c: Config, pos: nat, k: nat)
    requires pos < c.Ring() && k <= c.Ring()
    ensures AddPos(c, pos, k) == Ahead(c, pos, k)
  {
  }

  /** The macros count nodes: used and empty add up, and used is the distance from head to tail. */
  lemma UsedIsDist(c: Config, head: nat, tail: nat)
    requires head < c.Ring() && tail < c.Ring()
    ensures UsedNodes(c, head, tail) == Dist(c, head, tail)
    ensures EmptyNodes(c, head, tail) == c.count - Dist(c, head, tail)
    ensures 0 <= EmptyNodes(c, head, tail) <= c.count
  {
    var v := head + c.count - tail;
    if tail < head {
      ModUnique(v, c.Ring(), 1, v - c.Ring());
    } else {
      ModUnique(v, c.Ring(), 0, v);
    }
  }

  /** A record has room for header and payload, and would not with one node less. */
  lemma NodesFit(c: Config, datalen: nat)
    requires c.Ok()
    ensures NumNodes(c, datalen) >= 1
    ensures HEADER + datalen <= Addr(c, NumNodes(c, datalen))
    ensures Addr(c, NumNodes(c, datalen) - 1) < HEADER + datalen
  {
  }

  // ---------------------------------------------------------------- 32-bit words in memory

  function Get32(mem: seq<byte>, a: nat): nat {
    if a + 4 <= |mem| then
      (mem[a] as int) + 0x100 * (mem[a + 1] as int) + 0x1_0000 * (mem[a + 2] as int) + 0x100_0000 * (mem[a + 3] as int)
    else 0
  }

  function Put32(mem: seq<byte>, a: nat, v: nat): (r: seq<byte>)
    requires v < WORD32
    ensures |r| == |mem|
    ensures forall i :: 0 <= i < |mem| && !(a <= i < a + 4) ==> r[i] == mem[i]
  {
    if a + 4 <= |mem| then
      mem[a := v % 0x100][a + 1 := v / 0x100 % 0x100][a + 2 := v / 0x1_0000 % 0x100][a + 3 := v / 0x100_0000]
    else mem
  }

  lemma Get32Put32(mem: seq<byte>, a: nat, v: nat)
    requires v < WORD32 && a + 4 <= |mem|
    ensures Get32(Put32(mem, a, v), a) == v
  {
    BytesOfWord(v);
  }

  lemma BytesOfWord(v: nat)
    ensures v % 0x100 + 0x100 * (v / 0x100 % 0x100) + 0x1_0000 * (v / 0x1_0000 % 0x100)
            + 0x100_0000 * (v / 0x100_0000) == v
  {
    var a := v / 0x100;
    var b := a / 0x100;
    assert v / 0x1_0000 == b;
    assert v / 0x100_0000 == b / 0x100;
  }

  function Token(c: Config, mem: seq<byte>, p: nat): nat { Get32(mem, Addr(c, p)) }

  function DataLen(c: Config, mem: seq<byte>, p: nat): nat { Get32(mem, Addr(c, p) + 4) }

  function SetToken(c: Config, mem: seq<byte>, p: nat, v: nat): (r: seq<byte>)
    requires v < WORD32
    ensures |r| == |mem|
  {
    Put32(mem, Addr(c, p), v)
  }

  /** The two memories agree on all bytes of node p. */
  ghost predicate SameNode(c: Config, m: seq<byte>, m': seq<byte>, p: nat) {
    |m| == |m'| && forall i :: Addr(c, p) <= i < Addr(c, p) + c.ns && i < |m| ==> m'[i] == m[i]
  }

  /** The two memories agree on the len nodes that start at from. */
  ghost predicate SameArc(c: Config, m: seq<byte>, m': seq<byte>, from: nat, len: int) {
    |m| == |m'| && forall p: nat :: p < c.Ring() && InArc(c, p, from, len) ==> SameNode(c, m, m', p)
  }

  lemma SetTokenReads(c: Config, mem: seq<byte>, p: nat, v: nat)
    requires c.Ok() && p < c.Ring() && |mem| == Addr(c, c.Ring()) && v < WORD32
    ensures Token(c, SetToken(c, mem, p, v), p) == v
  {
    AddrOrder(c, p, c.Ring());
    Get32Put32(mem, Addr(c, p), v);
  }

  /** A change confined to the bytes of nodes lo up to hi leaves every other node as it was. */
  lemma OtherNodesSame(c: Config, m: seq<byte>, m': seq<byte>, lo: nat, hi: nat, p: nat)
    requires |m| == |m'| && (p < lo || hi <= p)
    requires forall i :: 0 <= i < |m| && !(Addr(c, lo) <= i < Addr(c, hi)) ==> m'[i] == m[i]
    ensures SameNode(c, m, m', p)
  {
    AddrOrder(c, p, lo);
    AddrOrder(c, hi, p);
  }

  lemma SetTokenFrame(c: Config, mem: seq<byte>, q: nat, v: nat, p: nat)
    requires c.Ok() && v < WORD32 && p != q
    ensures SameNode(c, mem, SetToken(c, mem, q, v), p)
  {
    AddrOrder(c, q, q + 1);
    OtherNodesSame(c, mem, SetToken(c, mem, q, v), q, q + 1, p);
  }

  lemma SameNodeReads(c: Config, m: seq<byte>, m': seq<byte>, p: nat)
    requires c.Ok() && p < c.Ring() && |m| == Addr(c, c.Ring()) && SameNode(c, m, m', p)
    ensures Token(c, m', p) == Token(c, m, p) && DataLen(c, m', p) == DataLen(c, m, p)
  {
  }

  /** Agreement on each of n consecutive nodes is agreement on their bytes. */
  lemma {:induction false} JoinNodes(c: Config, m: seq<byte>, m': seq<byte>, at: nat, n: nat)
    requires |m| == |m'| && forall p: nat :: at <= p < at + n ==> SameNode(c, m, m', p)
    ensures forall i :: Addr(c, at) <= i < Addr(c, at + n) && i < |m| ==> m'[i] == m[i]
    decreases n
  {
    if n > 0 {
      JoinNodes(c, m, m', at, n - 1);
      AddrOrder(c, at + n - 1, at + n);
      assert SameNode(c, m, m', at + n - 1);
    }
  }

  // ---------------------------------------------------------------- machine

  datatype Writer =
    | Idle
    /** tail is already advanced; pos is the next skipped node to be marked. */
    | Marking(pos: nat, nr: nat, msg: Message)
    /** the record at idx is being written */
    | Filling(idx: nat, nr: nat, msg: Message, header: bool, copied: set<nat>)

  /** conflicts holds rw_conflict of each reader's handle; published and received record the
      messages whose sq_put has stored the token and whose sq_get has returned. */
  datatype State = State(
    c: Config, mem: seq<byte>, head: nat, tail: nat,
    writer: Writer, conflicts: seq<nat>,
    published: seq<Message>, received: seq<Message>)

  datatype Action =
    | Reserve(msg: Message)
    | MarkSkipped
    | WriteHeader(stamp: seq<byte>)
    | CopyByte(k: nat)
    | Publish
    | Get(reader: nat, bufSize: nat)

  // ---------------------------------------------------------------- sq_put

  datatype Reservation = BadArgument | Full | At(idx: nat, newTail: nat)

  /** The checks of sq_put up to the exchange of tail_pos; head_pos is read twice. */
  function ReservedAt(c: Config, head0: nat, head1: nat, tail: nat, datalen: int): Reservation
    requires c.Ok()
  {
    if datalen <= 0 || datalen > MAX_SQ_DATA_LENGTH then BadArgument else
    var nr := NumNodes(c, datalen);
    if EmptyNodes(c, head0, tail) < nr + RESERVE_BLOCK_COUNT then Full else
    var newTail := AddPos(c, tail, nr);
    if newTail < tail then
      if head1 - 1 < nr then Full else At(0, nr)
    else At(tail, newTail)
  }

  function Reserved(c: Config, head: nat, tail: nat, datalen: int): Reservation
    requires c.Ok()
  {
    ReservedAt(c, head, head, tail, datalen)
  }

  function Bytes(mem: seq<byte>, at: nat, data: seq<byte>): (r: seq<byte>)
    ensures |r| == |mem|
    ensures forall i :: 0 <= i < |mem| && !(at <= i < at + |data|) ==> r[i] == mem[i]
    ensures at + |data| <= |mem| ==> forall k :: 0 <= k < |data| ==> r[at + k] == data[k]
  {
    if at + |data| <= |mem| then mem[..at] + data + mem[at + |data|..] else mem
  }

  // ---------------------------------------------------------------- sq_get

  datatype Scan = AtTail(pos: nat) | Conflict | Found(pos: nat, len: nat)

  /** The search loop of sq_get from node pos on, for a reader with the given conflict count. */
  function Search(c: Config, mem: seq<byte>, pos: nat, tail: nat, conflict: nat): Scan
    requires c.Ok() && pos < c.Ring() && tail < c.Ring()
    decreases Dist(c, pos, tail)
  {
    if pos == tail then AtTail(pos) else
    var token := Token(c, mem, pos);
    if token != TOKEN_HAS_DATA then
      if token == TOKEN_NO_DATA && conflict < SQ_MAX_CONFLICT_TRIES then Conflict
      else Search(c, mem, Ahead(c, pos, 1), tail, conflict)
    else
      var len := DataLen(c, mem, pos);
      if UsedNodes(c, pos, tail) < NumNodes(c, len) then Search(c, mem, Ahead(c, pos, 1), tail, conflict)
      else Found(pos, len)
  }

  /** The closing loop of sq_get: resets the tokens of the nodes from `from` up to `to`. */
  function ClearTokens(c: Config, mem: seq<byte>, from: nat, to: nat): (r: seq<byte>)
    requires c.Ok() && from < c.Ring() && to < c.Ring()
    ensures |r| == |mem|
    decreases Dist(c, from, to)
  {
    if from == to then mem
    else ClearTokens(c, SetToken(c, mem, from, TOKEN_NO_DATA), Ahead(c, from, 1), to)
  }

  function Slice(mem: seq<byte>, at: nat, len: nat): (r: seq<byte>) {
    if at + len <= |mem| then mem[at..at + len] else []
  }

  datatype GetResult = GetResult(mem: seq<byte>, head: nat, conflict: nat, ret: int, buf: seq<byte>)

  /** One uninterrupted sq_get: new memory, head_pos and rw_conflict, the return value and the data. */
  function Fetch(c: Config, mem: seq<byte>, head: nat, tail: nat, conflict: nat, bufSize: nat): GetResult
    requires c.Ok() && head < c.Ring() && tail < c.Ring()
  {
    if bufSize < 1 then GetResult(mem, head, conflict, -1, []) else
    match Search(c, mem, head, tail, conflict)
    case AtTail(pos) =>
      if pos < c.Ring() then GetResult(ClearTokens(c, mem, head, pos), pos, 0, 0, [])
      else GetResult(mem, head, 0, 0, [])
    case Conflict => GetResult(mem, head, conflict + 1, 0, [])
    case Found(pos, len) =>
      var newHead := AddPos(c, pos, NumNodes(c, len));
      if len > bufSize then GetResult(mem, newHead, conflict, -2, [])
      else GetResult(ClearTokens(c, mem, head, newHead), newHead, 0, len, Slice(mem, Addr(c, pos) + HEADER, len))
  }

  /** The reader has already met ten conflicts and meets an unpublished record once more: it would
      take the record for corrupt and pass over it. */
  predicate GivesUp(s: State, reader: nat)
    requires WellFormed(s) && reader < |s.conflicts|
  {
    s.conflicts[reader] >= SQ_MAX_CONFLICT_TRIES && Search(s.c, s.mem, s.head, s.tail, 0) == Conflict
  }

  /** The reader's buffer is shorter than the record it would fetch. */
  predicate ShortBuffer(s: State, reader: nat, bufSize: nat)
    requires WellFormed(s) && reader < |s.conflicts|
  {
    match Search(s.c, s.mem, s.head, s.tail, s.conflicts[reader])
    case Found(_, len) => len > bufSize
    case _ => false
  }

  predicate WellFormed(s: State) {
    s.c.Ok() && s.head < s.c.Ring() && s.tail < s.c.Ring()
  }

  predicate Enabled(s: State, a: Action) {
    WellFormed(s) &&
    match a
    case Reserve(msg) => s.writer.Idle?
    case MarkSkipped => s.writer.Marking?
    case WriteHeader(stamp) => s.writer.Filling? && !s.writer.header && |stamp| == 8
    case CopyByte(k) => s.writer.Filling? && s.writer.header && k < |s.writer.msg| && k !in s.writer.copied
    case Publish => s.writer.Filling? && s.writer.header
                    && forall k :: 0 <= k < |s.writer.msg| ==> k in s.writer.copied
    case Get(reader, bufSize) => reader < |s.conflicts|
  }

  function Step(s: State, a: Action): State
    requires Enabled(s, a)
  {
    match a
    case Reserve(msg) =>
      (match Reserved(s.c, s.head, s.tail, |msg|)
       case At(idx, newTail) =>
         var nr := NumNodes(s.c, |msg|);
         if idx == 0 && s.tail != 0 then s.(tail := newTail, writer := Marking(s.tail, nr, msg))
         else s.(tail := newTail, writer := Filling(idx, nr, msg, false, {}))
       case _ => s)
    case MarkSkipped =>
      var w := s.writer;
      var next := AddPos(s.c, w.pos, 1);
      s.(mem := SetToken(s.c, s.mem, w.pos, TOKEN_SKIPPED),
         writer := if next == 0 then Filling(0, w.nr, w.msg, false, {}) else w.(pos := next))
    case WriteHeader(stamp) =>
      var w := s.writer;
      var at := Addr(s.c, w.idx);
      s.(mem := Bytes(Put32(s.mem, at + 4, |w.msg| % WORD32), at + 8, stamp), writer := w.(header := true))
    case CopyByte(k) =>
      var w := s.writer;
      s.(mem := Bytes(s.mem, Addr(s.c, w.idx) + HEADER + k, [w.msg[k]]),
         writer := w.(copied := w.copied + {k}))
    case Publish =>
      var w := s.writer;
      s.(mem := SetToken(s.c, s.mem, w.idx, TOKEN_HAS_DATA), writer := Idle, published := s.published + [w.msg])
    case Get(reader, bufSize) =>
      var g := Fetch(s.c, s.mem, s.head, s.tail, s.conflicts[reader], bufSize);
      s.(mem := g.mem, head := g.head, conflicts := s.conflicts[reader := g.conflict],
         received := if g.ret > 0 then s.received + [g.buf] else s.received)
  }

  /** Freshly created shared memory: everything is zero. */
  ghost predicate Init(s: State) {
    && s.c.Ok() && |s.mem| == Addr(s.c, s.c.Ring())
    && (forall i :: 0 <= i < |s.mem| ==> s.mem[i] == 0)
    && s.head == s.tail == 0 && s.writer.Idle?
    && s.published == s.received == []
  }

  // ---------------------------------------------------------------- invariant

  /** What occupies the ring between head and the writer: skipped nodes and published records. */
  datatype Segment = Skip(at: nat) | Rec(at: nat, msg: Message)

  function Nodes(c: Config, g: Segment): (n: nat)
    requires c.Ok()
    ensures n >= 1
  {
    if g.Skip? then 1 else NodesFit(c, |g.msg|); NumNodes(c, |g.msg|)
  }

  /** The segment's bytes are those of a skipped node, or of a complete published record. */
  ghost predicate SegOk(c: Config, mem: seq<byte>, g: Segment)
    requires c.Ok()
  {
    match g
    case Skip(at) => at < c.Ring() && Token(c, mem, at) == TOKEN_SKIPPED
    case Rec(at, msg) =>
      && at + NumNodes(c, |msg|) <= c.count
      && 0 < |msg| <= MAX_SQ_DATA_LENGTH
      && Token(c, mem, at) == TOKEN_HAS_DATA
      && DataLen(c, mem, at) == |msg|
      && Slice(mem, Addr(c, at) + HEADER, |msg|) == msg
  }

  /** The segments follow one another around the ring from `from` to `to`. */
  ghost predicate Chain(c: Config, mem: seq<byte>, segs: seq<Segment>, from: nat, to: nat)
    requires c.Ok()
    decreases |segs|
  {
    if segs == [] then from == to
    else
      && segs[0].at == from && SegOk(c, mem, segs[0])
      && Nodes(c, segs[0]) <= Dist(c, from, to)
      && Chain(c, mem, segs[1..], Ahead(c, from, Nodes(c, segs[0])), to)
  }

  function Messages(segs: seq<Segment>): seq<Message> {
    if segs == [] then []
    else (if segs[0].Rec? then [segs[0].msg] else []) + Messages(segs[1..])
  }

  /** Where published segments end and the writer's unfinished work begins. */
  function Frontier(s: State): nat {
    match s.writer
    case Idle => s.tail
    case Marking(pos, _, _) => pos
    case Filling(idx, _, _, _, _) => idx
  }

  /** Nodes from head up to here may carry a token. */
  function Written(s: State): nat {
    if s.writer.Marking? then s.writer.pos else s.tail
  }

  ghost predicate Geometry(s: State) {
    && WellFormed(s) && |s.mem| == Addr(s.c, s.c.Ring())
    && Frontier(s) < s.c.Ring()
    && Dist(s.c, s.head, Frontier(s)) + Dist(s.c, Frontier(s), s.tail) == Dist(s.c, s.head, s.tail)
  }

  ghost predicate WriterOk(s: State)
    requires s.c.Ok()
  {
    match s.writer
    case Idle => true
    case Marking(pos, nr, msg) =>
      && 0 < |msg| <= MAX_SQ_DATA_LENGTH && nr == NumNodes(s.c, |msg|)
      && s.tail == nr < pos < s.c.Ring()
    case Filling(idx, nr, msg, header, copied) =>
      && 0 < |msg| <= MAX_SQ_DATA_LENGTH && nr == NumNodes(s.c, |msg|)
      && s.tail == idx + nr <= s.c.count
      && Token(s.c, s.mem, idx) == TOKEN_NO_DATA
      && (header ==> DataLen(s.c, s.mem, idx) == |msg|)
      && (forall k: nat :: k in copied ==>
            header && k < |msg| && Addr(s.c, idx) + HEADER + k < |s.mem|
            && s.mem[Addr(s.c, idx) + HEADER + k] == msg[k])
  }

  /** Nodes outside the ones in use carry no token, nor does the first node of an unpublished record. */
  ghost predicate FreeNodesClear(s: State)
    requires s.c.Ok()
  {
    forall p :: 0 <= p < s.c.Ring() && !InArc(s.c, p, s.head, Dist(s.c, s.head, Written(s)))
      ==> Token(s.c, s.mem, p) == TOKEN_NO_DATA
  }

  ghost predicate Inv(s: State, live: seq<Segment>) {
    && Geometry(s) && WriterOk(s) && FreeNodesClear(s)
    && Chain(s.c, s.mem, live, s.head, Frontier(s))
    && s.published == s.received + Messages(live)
  }

  // ---------------------------------------------------------------- chains under change

  lemma ArcSplit(c: Config, from: nat, to: nat, n: nat)
    requires from < c.Ring() && to < c.Ring() && n <= Dist(c, from, to)
    ensures Dist(c, Ahead(c, from, n), to) == Dist(c, from, to) - n
    ensures forall p: nat :: p < c.Ring() && InArc(c, p, Ahead(c, from, n), Dist(c, from, to) - n)
              ==> InArc(c, p, from, Dist(c, from, to)) && !InArc(c, p, from, n)
    ensures forall p: nat :: p < c.Ring() && InArc(c, p, from, Dist(c, from, to)) && !InArc(c, p, from, n)
              ==> InArc(c, p, Ahead(c, from, n), Dist(c, from, to) - n)
  {
  }

  lemma SegFrame(c: Config, m: seq<byte>, m': seq<byte>, g: Segment, to: nat)
    requires c.Ok() && |m| == Addr(c, c.Ring()) && SegOk(c, m, g) && g.at < c.Ring() && to < c.Ring()
    requires Nodes(c, g) <= Dist(c, g.at, to) && SameArc(c, m, m', g.at, Dist(c, g.at, to))
    ensures SegOk(c, m', g)
  {
    assert SameNode(c, m, m', g.at);
    SameNodeReads(c, m, m', g.at);
    if g.Rec? {
      var n := NumNodes(c, |g.msg|);
      forall p: nat | g.at <= p < g.at + n ensures SameNode(c, m, m', p) {
        assert InArc(c, p, g.at, Dist(c, g.at, to));
      }
      JoinNodes(c, m, m', g.at, n);
      PayloadInside(c, g.at, |g.msg|);
      assert Slice(m', Addr(c, g.at) + HEADER, |g.msg|) == Slice(m, Addr(c, g.at) + HEADER, |g.msg|);
    }
  }

  /** Header and payload of a record stay inside the record's nodes and the memory. */
  lemma PayloadInside(c: Config, at: nat, len: nat)
    requires c.Ok() && at + NumNodes(c, len) <= c.count
    ensures Addr(c, at) + HEADER + len <= Addr(c, at + NumNodes(c, len)) <= Addr(c, c.Ring())
  {
  }

  lemma {:induction false} ChainFrame(c: Config, m: seq<byte>, m': seq<byte>, segs: seq<Segment>, from: nat, to: nat)
    requires c.Ok() && |m| == Addr(c, c.Ring()) && from < c.Ring() && to < c.Ring()
    requires Chain(c, m, segs, from, to) && SameArc(c, m, m', from, Dist(c, from, to))
    ensures Chain(c, m', segs, from, to)
    decreases |segs|
  {
    if segs != [] {
      var n := Nodes(c, segs[0]);
      SegFrame(c, m, m', segs[0], to);
      ArcSplit(c, from, to, n);
      ChainFrame(c, m, m', segs[1..], Ahead(c, from, n), to);
    }
  }

  /** A chain can be prolonged by one segment at its end. */
  lemma {:induction false} ChainAppend(c: Config, m: seq<byte>, segs: seq<Segment>, from: nat, mid: nat, g: Segment,
                to: nat)
    requires c.Ok() && from < c.Ring() && mid < c.Ring() && to < c.Ring()
    requires Chain(c, m, segs, from, mid) && SegOk(c, m, g) && g.at == mid
    requires to == Ahead(c, mid, Nodes(c, g))
    requires Dist(c, from, mid) + Nodes(c, g) == Dist(c, from, to)
    ensures Chain(c, m, segs + [g], from, to)
    ensures Messages(segs + [g]) == Messages(segs) + (if g.Rec? then [g.msg] else [])
    decreases |segs|
  {
    hide SegOk;
    if segs == [] {
      assert [g][1..] == [];
    } else {
      var n := Nodes(c, segs[0]);
      ArcSplit(c, from, mid, n);
      ArcSplit(c, from, to, n);
      ChainAppend(c, m, segs[1..], Ahead(c, from, n), mid, g, to);
      assert (segs + [g])[1..] == segs[1..] + [g];
    }
  }

  // ---------------------------------------------------------------- the writer's steps

  lemma InitInv(s: State)
    requires Init(s)
    ensures Inv(s, [])
  {
  }

  /** A successful reservation takes exactly the record's nodes, plus the skipped ones when it
      wraps; the record is contiguous, ends before the last node and leaves the reserve free. */
  lemma ReservationShape(c: Config, head: nat, tail: nat, datalen: nat, idx: nat, newTail: nat)
    requires c.Ok() && head < c.Ring() && tail < c.Ring()
    requires Reserved(c, head, tail, datalen) == At(idx, newTail)
    ensures 0 < datalen <= MAX_SQ_DATA_LENGTH
    ensures newTail == idx + NumNodes(c, datalen) <= c.count
    ensures idx == tail || (idx == 0 && newTail < head <= tail)
    ensures Dist(c, head, newTail) == Dist(c, head, tail) + Dist(c, tail, newTail)
    ensures Dist(c, tail, newTail) == NumNodes(c, datalen) + (if idx == tail then 0 else c.Ring() - tail)
    ensures idx == tail ==> EmptyNodes(c, head, newTail) >= RESERVE_BLOCK_COUNT
  {
    hide Addr;
    hide NumNodes;
    NodesFit(c, datalen);
    UsedIsDist(c, head, tail);
    var nr := NumNodes(c, datalen);
    AddPosIsAhead(c, tail, nr);
    UsedIsDist(c, head, newTail);
  }

  /** Gets that run between the two reads and the exchange only help: what was granted for the heads read is
      what the head at the exchange grants. So a successful reservation is one step of the current state. */
  lemma StaleReservation(c: Config, head0: nat, head1: nat, head: nat, tail: nat, datalen: int, idx: nat, newTail: nat)
    requires c.Ok() && head0 < c.Ring() && head1 < c.Ring() && head < c.Ring() && tail < c.Ring()
    requires Dist(c, head, tail) <= Dist(c, head1, tail) <= Dist(c, head0, tail)
    requires ReservedAt(c, head0, head1, tail, datalen) == At(idx, newTail)
    ensures Reserved(c, head, tail, datalen) == At(idx, newTail)
  {
    hide NumNodes;
    hide EmptyNodes;
    hide AddPos;
    UsedIsDist(c, head0, tail);
    UsedIsDist(c, head, tail);
    AddPosIsAhead(c, tail, NumNodes(c, datalen));
  }

  /** A put is refused exactly when fewer nodes are free than the record and the reserve take, or the record
      does not fit before the end of the ring and fewer nodes than it takes, and one, lie before the head. */
  lemma FullIff(c: Config, head: nat, tail: nat, datalen: int)
    requires c.Ok() && head < c.Ring() && tail < c.Ring() && 0 < datalen <= MAX_SQ_DATA_LENGTH
    ensures var nr := NumNodes(c, datalen);
            Reserved(c, head, tail, datalen) == Full
            <==> c.count - Dist(c, head, tail) < nr + RESERVE_BLOCK_COUNT || (tail + nr > c.count && head <= nr)
  {
    hide NumNodes;
    hide EmptyNodes;
    hide AddPos;
    NodesFit(c, datalen);
    UsedIsDist(c, head, tail);
    if NumNodes(c, datalen) <= c.Ring() { AddPosIsAhead(c, tail, NumNodes(c, datalen)); }
  }

  lemma ReservePreserves(s: State, live: seq<Segment>, msg: Message)
    requires Inv(s, live) && Enabled(s, Reserve(msg))
    ensures Inv(Step(s, Reserve(msg)), live)
  {
    hide NumNodes;
    hide Token;
    hide Chain;
    hide Reserved;
    var r := Reserved(s.c, s.head, s.tail, |msg|);
    if r.At? {
      ReservationShape(s.c, s.head, s.tail, |msg|, r.idx, r.newTail);
      var t := Step(s, Reserve(msg));
      NodesFit(s.c, |msg|);
      assert !InArc(s.c, s.tail, s.head, Dist(s.c, s.head, s.tail));
      assert Token(s.c, s.mem, s.tail) == TOKEN_NO_DATA;
      assert Geometry(t);
      assert WriterOk(t);
      assert FreeNodesClear(t);
    }
  }

  /** Changing nodes outside an arc leaves the arc alone. */
  lemma ArcAvoids(c: Config, m: seq<byte>, m': seq<byte>, lo: nat, hi: nat, from: nat, len: int)
    requires |m| == |m'|
    requires forall i :: 0 <= i < |m| && !(Addr(c, lo) <= i < Addr(c, hi)) ==> m'[i] == m[i]
    requires forall p: nat :: p < c.Ring() && InArc(c, p, from, len) ==> p < lo || hi <= p
    ensures SameArc(c, m, m', from, len)
  {
    forall p: nat | p < c.Ring() && InArc(c, p, from, len) ensures SameNode(c, m, m', p) {
      OtherNodesSame(c, m, m', lo, hi, p);
    }
  }

  lemma MarkPreserves(s: State, live: seq<Segment>) returns (live': seq<Segment>)
    requires Inv(s, live) && Enabled(s, MarkSkipped)
    ensures Inv(Step(s, MarkSkipped), live')
  {
    hide Chain;
    hide NumNodes;
    hide Get32;
    hide Addr;
    var c, pos := s.c, s.writer.pos;
    var t := Step(s, MarkSkipped);
    AddPosIsAhead(c, pos, 1);
    NodesFit(c, |s.writer.msg|);
    SetTokenReads(c, s.mem, pos, TOKEN_SKIPPED);
    forall p: nat | p < c.Ring() && p != pos ensures SameNode(c, s.mem, t.mem, p) {
      SetTokenFrame(c, s.mem, pos, TOKEN_SKIPPED, p);
    }
    assert !InArc(c, pos, s.head, Dist(c, s.head, pos));
    ChainFrame(c, s.mem, t.mem, live, s.head, pos);
    live' := live + [Skip(pos)];
    var next := AddPos(c, pos, 1);
    assert Geometry(t);
    ChainAppend(c, t.mem, live, s.head, pos, Skip(pos), next);
    forall p: nat | p < c.Ring() && p != pos ensures Token(c, t.mem, p) == Token(c, s.mem, p) {
      SameNodeReads(c, s.mem, t.mem, p);
    }
    MarkClears(s, t);
  }

  lemma MarkClears(s: State, t: State)
    requires WellFormed(s) && Geometry(s) && WriterOk(s) && FreeNodesClear(s) && Enabled(s, MarkSkipped)
    requires t == Step(s, MarkSkipped) && Geometry(t)
    requires AddPos(s.c, s.writer.pos, 1) == Ahead(s.c, s.writer.pos, 1)
    requires NumNodes(s.c, |s.writer.msg|) >= 1
    requires forall p: nat :: p < s.c.Ring() && p != s.writer.pos ==> Token(s.c, t.mem, p) == Token(s.c, s.mem, p)
    ensures WriterOk(t) && FreeNodesClear(t)
  {
  }

  /** The nodes of the unpublished record belong to no live segment and to no free node. */
  lemma PendingNodes(s: State)
    requires Geometry(s) && WriterOk(s) && s.writer.Filling?
    ensures forall p: nat :: p < s.c.Ring() && InArc(s.c, p, s.head, Dist(s.c, s.head, s.writer.idx))
              ==> p < s.writer.idx || s.tail <= p
    ensures forall p: nat :: p < s.c.Ring() && !InArc(s.c, p, s.head, Dist(s.c, s.head, s.tail))
              ==> p < s.writer.idx || s.tail <= p
    ensures s.writer.idx < s.tail
  {
    hide NumNodes;
    NodesFit(s.c, |s.writer.msg|);
  }

  /** Writing inside the unpublished record keeps live segments and free nodes. */
  lemma FillingFrame(s: State, live: seq<Segment>, m': seq<byte>)
    requires Inv(s, live) && s.writer.Filling? && |m'| == |s.mem|
    requires forall i :: 0 <= i < |m'| && !(Addr(s.c, s.writer.idx) <= i < Addr(s.c, s.tail)) ==> m'[i] == s.mem[i]
    ensures Chain(s.c, m', live, s.head, s.writer.idx)
    ensures forall p :: 0 <= p < s.c.Ring() && !InArc(s.c, p, s.head, Dist(s.c, s.head, s.tail))
              ==> Token(s.c, m', p) == TOKEN_NO_DATA
  {
    hide Chain;
    hide Addr;
    hide NumNodes;
    var c := s.c;
    PendingNodes(s);
    ArcAvoids(c, s.mem, m', s.writer.idx, s.tail, s.head, Dist(c, s.head, s.writer.idx));
    ChainFrame(c, s.mem, m', live, s.head, s.writer.idx);
    forall p | 0 <= p < c.Ring() && !InArc(c, p, s.head, Dist(c, s.head, s.tail))
      ensures Token(c, m', p) == TOKEN_NO_DATA
    {
      OtherNodesSame(c, s.mem, m', s.writer.idx, s.tail, p);
      SameNodeReads(c, s.mem, m', p);
    }
  }

  /** Bounds of the record being written. */
  lemma RecordBounds(s: State)
    requires s.c.Ok() && WriterOk(s) && s.writer.Filling? && |s.mem| == Addr(s.c, s.c.Ring())
    ensures var at := Addr(s.c, s.writer.idx);
            at + HEADER + |s.writer.msg| <= Addr(s.c, s.tail) <= |s.mem|
    ensures Addr(s.c, s.writer.idx) + s.c.ns <= Addr(s.c, s.tail)
  {
    NodesFit(s.c, |s.writer.msg|);
    PayloadInside(s.c, s.writer.idx, |s.writer.msg|);
    AddrOrder(s.c, s.writer.idx, s.tail);
  }

  lemma HeaderPreserves(s: State, live: seq<Segment>, stamp: seq<byte>)
    requires Inv(s, live) && Enabled(s, WriteHeader(stamp))
    ensures Inv(Step(s, WriteHeader(stamp)), live)
  {
    hide Chain;
    hide Addr;
    hide NumNodes;
    hide Dist;
    var c, w := s.c, s.writer;
    var t := Step(s, WriteHeader(stamp));
    RecordBounds(s);
    FillingFrame(s, live, t.mem);
    HeaderReads(s, stamp);
  }

  /** The header stores the length next to the still empty token. */
  lemma HeaderReads(s: State, stamp: seq<byte>)
    requires s.c.Ok() && WriterOk(s) && |s.mem| == Addr(s.c, s.c.Ring()) && Enabled(s, WriteHeader(stamp))
    ensures WriterOk(Step(s, WriteHeader(stamp)))
  {
    hide Addr;
    hide NumNodes;
    hide Get32;
    hide Put32;
    var at := Addr(s.c, s.writer.idx);
    var m := Put32(s.mem, at + 4, |s.writer.msg|);
    RecordBounds(s);
    Get32Put32(s.mem, at + 4, |s.writer.msg|);
    Get32Same(s.mem, m, at);
    Get32Same(m, Bytes(m, at + 8, stamp), at);
    Get32Same(m, Bytes(m, at + 8, stamp), at + 4);
  }

  lemma Get32Same(m: seq<byte>, m': seq<byte>, a: nat)
    requires |m| == |m'| && forall i :: a <= i < a + 4 && i < |m| ==> m'[i] == m[i]
    ensures Get32(m', a) == Get32(m, a)
  {
  }

  lemma CopyPreserves(s: State, live: seq<Segment>, k: nat)
    requires Inv(s, live) && Enabled(s, CopyByte(k))
    ensures Inv(Step(s, CopyByte(k)), live)
  {
    hide Chain;
    hide Addr;
    hide NumNodes;
    hide Dist;
    var t := Step(s, CopyByte(k));
    RecordBounds(s);
    FillingFrame(s, live, t.mem);
    assert WriterOk(t);
  }

  lemma PublishPreserves(s: State, live: seq<Segment>) returns (live': seq<Segment>)
    requires Inv(s, live) && Enabled(s, Publish)
    ensures Inv(Step(s, Publish), live')
  {
    hide Chain;
    hide Addr;
    hide NumNodes;
    var c, w := s.c, s.writer;
    var t := Step(s, Publish);
    RecordBounds(s);
    FillingFrame(s, live, t.mem);
    SetTokenReads(c, s.mem, w.idx, TOKEN_HAS_DATA);
    var g := Rec(w.idx, w.msg);
    RecordComplete(s, t.mem);
    NodesFit(c, |w.msg|);
    ChainAppend(c, t.mem, live, s.head, w.idx, g, s.tail);
    live' := live + [g];
    assert Geometry(t) && WriterOk(t) && FreeNodesClear(t);
  }

  /** With the token stored, the finished bytes read back as the message. */
  lemma RecordComplete(s: State, m': seq<byte>)
    requires s.c.Ok() && WriterOk(s) && |s.mem| == Addr(s.c, s.c.Ring()) && Enabled(s, Publish)
    requires m' == SetToken(s.c, s.mem, s.writer.idx, TOKEN_HAS_DATA)
    ensures SegOk(s.c, m', Rec(s.writer.idx, s.writer.msg))
  {
    hide Addr;
    hide NumNodes;
    var c, w := s.c, s.writer;
    RecordBounds(s);
    SetTokenReads(c, s.mem, w.idx, TOKEN_HAS_DATA);
    var at := Addr(c, w.idx) + HEADER;
    assert Slice(m', at, |w.msg|) == w.msg by {
      forall k | 0 <= k < |w.msg| ensures m'[at + k] == w.msg[k] {
        assert k in w.copied;
      }
    }
  }

  // ---------------------------------------------------------------- the reader's step

  /** Dropping k segments from a chain leaves a chain from a later position. */
  lemma {:induction false} ChainDrop(c: Config, m: seq<byte>, segs: seq<Segment>, from: nat, to: nat, k: nat)
    returns (pos: nat)
    requires c.Ok() && from < c.Ring() && to < c.Ring() && k <= |segs|
    requires Chain(c, m, segs, from, to)
    ensures pos < c.Ring() && Chain(c, m, segs[k..], pos, to)
    ensures Dist(c, from, pos) + Dist(c, pos, to) == Dist(c, from, to)
    ensures k < |segs| ==> pos == segs[k].at && SegOk(c, m, segs[k])
    ensures k == |segs| ==> pos == to
    decreases k
  {
    hide SegOk;
    if k == 0 {
      pos := from;
      assert segs[0..] == segs;
    } else {
      var n := Nodes(c, segs[0]);
      ArcSplit(c, from, to, n);
      pos := ChainDrop(c, m, segs[1..], Ahead(c, from, n), to, k - 1);
      assert segs[1..][k - 1..] == segs[k..];
      DistChain(c, from, Ahead(c, from, n), pos, to);
    }
  }

  /** The position right behind segment k. */
  lemma ChainNext(c: Config, m: seq<byte>, segs: seq<Segment>, from: nat, to: nat, k: nat) returns (next: nat)
    requires c.Ok() && from < c.Ring() && to < c.Ring() && k < |segs|
    requires Chain(c, m, segs, from, to)
    ensures next == Ahead(c, segs[k].at, Nodes(c, segs[k])) < c.Ring()
    ensures Chain(c, m, segs[k + 1..], next, to)
    ensures Dist(c, from, next) + Dist(c, next, to) == Dist(c, from, to)
    ensures Dist(c, segs[k].at, to) == Dist(c, next, to) + Nodes(c, segs[k])
  {
    hide SegOk;
    var pos := ChainDrop(c, m, segs, from, to, k);
    assert segs[k..][1..] == segs[k + 1..];
    next := Ahead(c, pos, Nodes(c, segs[k]));
    ArcSplit(c, pos, to, Nodes(c, segs[k]));
  }

  lemma DistChain(c: Config, a: nat, b: nat, p: nat, to: nat)
    requires a < c.Ring() && b < c.Ring() && p < c.Ring() && to < c.Ring()
    requires Dist(c, a, b) + Dist(c, b, to) == Dist(c, a, to)
    requires Dist(c, b, p) + Dist(c, p, to) == Dist(c, b, to)
    ensures Dist(c, a, p) + Dist(c, p, to) == Dist(c, a, to)
  {
  }

  /** Index of the first record among the segments. */
  function FirstRecord(segs: seq<Segment>): (k: nat)
    ensures k <= |segs|
    ensures forall i :: 0 <= i < k ==> segs[i].Skip?
    ensures k < |segs| ==> segs[k].Rec?
  {
    if segs == [] || segs[0].Rec? then 0 else 1 + FirstRecord(segs[1..])
  }

  lemma MessagesSplit(segs: seq<Segment>)
    ensures var k := FirstRecord(segs);
            Messages(segs) == if k < |segs| then [segs[k].msg] + Messages(segs[k + 1..]) else []
  {
    MessagesFrom(segs, FirstRecord(segs));
  }

  lemma {:induction false} MessagesFrom(segs: seq<Segment>, k: nat)
    requires k <= |segs| && forall i :: 0 <= i < k ==> segs[i].Skip?
    requires k < |segs| ==> segs[k].Rec?
    ensures Messages(segs) == if k < |segs| then [segs[k].msg] + Messages(segs[k + 1..]) else []
    decreases k
  {
    if k > 0 {
      var rest := segs[1..];
      MessagesFrom(rest, k - 1);
      if k < |segs| {
        assert rest[k..] == segs[k + 1..];
      }
    }
  }

  /** The search passes over skipped nodes and stops at the first record, or at the end of the chain. */
  lemma {:induction false} SearchFinds(c: Config, m: seq<byte>, segs: seq<Segment>, from: nat, mid: nat, tail: nat,
                conflict: nat)
    requires c.Ok() && from < c.Ring() && mid < c.Ring() && tail < c.Ring()
    requires Chain(c, m, segs, from, mid)
    requires Dist(c, from, mid) + Dist(c, mid, tail) == Dist(c, from, tail)
    ensures var k := FirstRecord(segs);
            Search(c, m, from, tail, conflict)
            == if k < |segs| then Found(segs[k].at, |segs[k].msg|) else Search(c, m, mid, tail, conflict)
    decreases |segs|
  {
    if segs != [] {
      hide Addr;
      hide Get32;
      hide NumNodes;
      var n := Nodes(c, segs[0]);
      UsedIsDist(c, from, tail);
      if segs[0].Skip? {
        ArcSplit(c, from, mid, n);
        ArcSplit(c, from, tail, n);
        SearchFinds(c, m, segs[1..], Ahead(c, from, 1), mid, tail, conflict);
      }
    }
  }

  /** The closing loop clears the tokens of exactly the consumed nodes. */
  lemma {:induction false} ClearedTokens(c: Config, m: seq<byte>, from: nat, to: nat)
    requires c.Ok() && from < c.Ring() && to < c.Ring() && |m| == Addr(c, c.Ring())
    ensures var m' := ClearTokens(c, m, from, to);
            && |m'| == |m|
            && (forall p: nat :: p < c.Ring() && InArc(c, p, from, Dist(c, from, to)) ==>
                 Token(c, m', p) == TOKEN_NO_DATA)
            && (forall p: nat :: p < c.Ring() && !InArc(c, p, from, Dist(c, from, to)) ==> SameNode(c, m, m', p))
    decreases Dist(c, from, to)
  {
    hide Get32;
    hide Put32;
    hide Addr;
    if from != to {
      var next := Ahead(c, from, 1);
      var m1 := SetToken(c, m, from, TOKEN_NO_DATA);
      var m' := ClearTokens(c, m, from, to);
      ClearedTokens(c, m1, next, to);
      ArcSplit(c, from, to, 1);
      SetTokenReads(c, m, from, TOKEN_NO_DATA);
      forall p: nat | p < c.Ring() && InArc(c, p, from, Dist(c, from, to)) ensures Token(c, m', p) == TOKEN_NO_DATA {
        if p == from {
          assert !InArc(c, p, next, Dist(c, next, to));
          SameNodeReads(c, m1, m', p);
        }
      }
      forall p: nat | p < c.Ring() && !InArc(c, p, from, Dist(c, from, to)) ensures SameNode(c, m, m', p) {
        SetTokenFrame(c, m, from, TOKEN_NO_DATA, p);
        assert !InArc(c, p, next, Dist(c, next, to));
        SameNodeTrans(c, m, m1, m', p);
      }
    }
  }

  lemma SameNodeTrans(c: Config, a: seq<byte>, b: seq<byte>, d: seq<byte>, p: nat)
    requires SameNode(c, a, b, p) && SameNode(c, b, d, p)
    ensures SameNode(c, a, d, p)
  {
  }

  /** t is s after the reader has consumed all nodes from head up to newHead. */
  ghost predicate Consumed(s: State, t: State, newHead: nat)
    requires WellFormed(s) && newHead < s.c.Ring()
  {
    && t.c == s.c && t.tail == s.tail && t.writer == s.writer
    && t.head == newHead && t.mem == ClearTokens(s.c, s.mem, s.head, newHead)
  }

  lemma ConsumeGeometry(s: State, t: State, newHead: nat)
    requires Geometry(s) && newHead < s.c.Ring() && Consumed(s, t, newHead)
    requires Dist(s.c, s.head, newHead) + Dist(s.c, newHead, Frontier(s)) == Dist(s.c, s.head, Frontier(s))
    ensures Geometry(t)
    ensures forall p: nat :: p < s.c.Ring() && InArc(s.c, p, newHead, Dist(s.c, newHead, s.tail))
              ==> !InArc(s.c, p, s.head, Dist(s.c, s.head, newHead))
    ensures forall p: nat :: p < s.c.Ring() && InArc(s.c, p, Frontier(s), Dist(s.c, Frontier(s), s.tail))
              ==> InArc(s.c, p, newHead, Dist(s.c, newHead, s.tail))
    ensures forall p: nat :: p < s.c.Ring() && InArc(s.c, p, newHead, Dist(s.c, newHead, Frontier(s)))
              ==> InArc(s.c, p, newHead, Dist(s.c, newHead, s.tail))
  {
  }

  lemma ConsumeClears(s: State, t: State, newHead: nat)
    requires Geometry(s) && FreeNodesClear(s) && newHead < s.c.Ring() && Consumed(s, t, newHead)
    requires Dist(s.c, s.head, newHead) + Dist(s.c, newHead, Frontier(s)) == Dist(s.c, s.head, Frontier(s))
    ensures FreeNodesClear(t)
  {
    hide Token;
    hide ClearTokens;
    var c := s.c;
    ClearedTokens(c, s.mem, s.head, newHead);
    forall p | 0 <= p < c.Ring() && !InArc(c, p, t.head, Dist(c, t.head, Written(t)))
      ensures Token(c, t.mem, p) == TOKEN_NO_DATA
    {
      if !InArc(c, p, s.head, Dist(c, s.head, newHead)) {
        assert !InArc(c, p, s.head, Dist(c, s.head, Written(s)));
        SameNodeReads(c, s.mem, t.mem, p);
      }
    }
  }

  lemma ConsumeKeepsRecord(s: State, t: State, newHead: nat)
    requires Geometry(s) && WriterOk(s) && newHead < s.c.Ring() && Consumed(s, t, newHead)
    requires Dist(s.c, s.head, newHead) + Dist(s.c, newHead, Frontier(s)) == Dist(s.c, s.head, Frontier(s))
    ensures WriterOk(t)
  {
    if s.writer.Filling? {
      hide ClearTokens;
      hide Get32;
      hide Addr;
      hide NumNodes;
      var c, w := s.c, s.writer;
      NodesFit(c, |w.msg|);
      ClearedTokens(c, s.mem, s.head, newHead);
      ConsumeGeometry(s, t, newHead);
      forall p: nat | w.idx <= p < w.idx + w.nr ensures SameNode(c, s.mem, t.mem, p) {
        assert InArc(c, p, Frontier(s), Dist(c, Frontier(s), s.tail));
      }
      SameNodeReads(c, s.mem, t.mem, w.idx);
      JoinNodes(c, s.mem, t.mem, w.idx, w.nr);
      RecordBounds(s);
    }
  }

  /** Consuming the first k segments keeps the invariant. */
  lemma ConsumePreserves(s: State, live: seq<Segment>, k: nat, newHead: nat, t: State)
    requires Inv(s, live) && k <= |live| && newHead < s.c.Ring() && Consumed(s, t, newHead)
    requires Dist(s.c, s.head, newHead) + Dist(s.c, newHead, Frontier(s)) == Dist(s.c, s.head, Frontier(s))
    requires Chain(s.c, s.mem, live[k..], newHead, Frontier(s))
    requires t.published == t.received + Messages(live[k..])
    ensures Inv(t, live[k..])
  {
    hide ClearTokens;
    hide Token;
    hide SegOk;
    var c := s.c;
    ConsumeGeometry(s, t, newHead);
    ConsumeClears(s, t, newHead);
    ConsumeKeepsRecord(s, t, newHead);
    ClearedTokens(c, s.mem, s.head, newHead);
    assert SameArc(c, s.mem, t.mem, newHead, Dist(c, newHead, Frontier(s)));
    ChainFrame(c, s.mem, t.mem, live[k..], newHead, Frontier(s));
  }

  /** What sq_get returns: the oldest published message, or nothing when there is none. */
  lemma FetchResult(s: State, live: seq<Segment>, conflict: nat, bufSize: nat)
    requires Inv(s, live) && bufSize >= 1
    requires FirstRecord(live) < |live| ==> |live[FirstRecord(live)].msg| <= bufSize
    requires conflict < SQ_MAX_CONFLICT_TRIES || Search(s.c, s.mem, s.head, s.tail, 0) != Conflict
    ensures var g := Fetch(s.c, s.mem, s.head, s.tail, conflict, bufSize);
            var k := FirstRecord(live);
            if k < |live| then
              && g.ret == |live[k].msg| > 0 && g.buf == live[k].msg && g.conflict == 0
              && g.head == Ahead(s.c, live[k].at, NumNodes(s.c, |live[k].msg|))
              && g.mem == ClearTokens(s.c, s.mem, s.head, g.head)
            else if s.writer.Idle? then
              && g.ret == 0 && g.conflict == 0 && g.head == s.tail
              && g.mem == ClearTokens(s.c, s.mem, s.head, g.head)
            else
              && g.ret == 0 && g.conflict == conflict + 1 && g.head == s.head && g.mem == s.mem
  {
    hide Addr;
    hide Get32;
    hide NumNodes;
    hide ClearTokens;
    var k := FirstRecord(live);
    SearchFinds(s.c, s.mem, live, s.head, Frontier(s), s.tail, conflict);
    SearchFinds(s.c, s.mem, live, s.head, Frontier(s), s.tail, 0);
    if k < |live| {
      var pos := ChainDrop(s.c, s.mem, live, s.head, Frontier(s), k);
      AddPosIsAhead(s.c, pos, NumNodes(s.c, |live[k].msg|));
    } else if !s.writer.Idle? {
      FrontierUnmarked(s);
    }
  }

  /** A buffer that is not too short takes the first record. */
  lemma BufferTakesFirst(s: State, live: seq<Segment>, reader: nat, bufSize: nat)
    requires Inv(s, live) && reader < |s.conflicts| && !ShortBuffer(s, reader, bufSize)
    ensures FirstRecord(live) < |live| ==> |live[FirstRecord(live)].msg| <= bufSize
  {
    hide Search;
    hide Chain;
    SearchFinds(s.c, s.mem, live, s.head, Frontier(s), s.tail, s.conflicts[reader]);
  }

  lemma FrontierUnmarked(s: State)
    requires Geometry(s) && WriterOk(s) && FreeNodesClear(s) && !s.writer.Idle?
    ensures Frontier(s) != s.tail && Token(s.c, s.mem, Frontier(s)) == TOKEN_NO_DATA
  {
  }

  lemma InvParts(s: State, live: seq<Segment>)
    requires Inv(s, live)
    ensures WellFormed(s) && s.c.Ok() && s.head < s.c.Ring() && Frontier(s) < s.c.Ring()
    ensures Chain(s.c, s.mem, live, s.head, Frontier(s))
    ensures s.published == s.received + Messages(live)
  {
  }

  /** Get meets a record: what it changes. */
  lemma GetRecordStep(s: State, live: seq<Segment>, reader: nat, bufSize: nat, next: nat)
    requires Inv(s, live) && Enabled(s, Get(reader, bufSize)) && FirstRecord(live) < |live|
    requires bufSize >= 1 && !GivesUp(s, reader) && !ShortBuffer(s, reader, bufSize)
    requires next < s.c.Ring()
    requires next == Ahead(s.c, live[FirstRecord(live)].at, NumNodes(s.c, |live[FirstRecord(live)].msg|))
    ensures var t := Step(s, Get(reader, bufSize));
            && Consumed(s, t, next) && t.published == s.published
            && t.received == s.received + [live[FirstRecord(live)].msg]
  {
    hide Inv;
    hide NumNodes;
    hide Ahead;
    hide ClearTokens;
    hide Search;
    hide Fetch;
    hide Dist;
    BufferTakesFirst(s, live, reader, bufSize);
    FetchResult(s, live, s.conflicts[reader], bufSize);
  }

  lemma GetRecord(s: State, live: seq<Segment>, reader: nat, bufSize: nat)
    requires Inv(s, live) && Enabled(s, Get(reader, bufSize)) && FirstRecord(live) < |live|
    requires bufSize >= 1 && !GivesUp(s, reader) && !ShortBuffer(s, reader, bufSize)
    ensures Inv(Step(s, Get(reader, bufSize)), live[FirstRecord(live) + 1..])
  {
    hide ShortBuffer;
    hide Frontier;
    hide Enabled;
    hide FirstRecord;
    hide Inv;
    hide NumNodes;
    hide Ahead;
    hide Consumed;
    hide Step;
    hide GivesUp;
    hide Chain;
    hide Dist;
    hide Messages;
    InvParts(s, live);
    var k := FirstRecord(live);
    MessagesSplit(live);
    var next := ChainNext(s.c, s.mem, live, s.head, Frontier(s), k);
    GetRecordStep(s, live, reader, bufSize, next);
    var t := Step(s, Get(reader, bufSize));
    Delivered(s.received, live[k].msg, Messages(live[k + 1..]));
    ConsumePreserves(s, live, k + 1, next, t);
  }

  lemma Delivered(received: seq<Message>, msg: Message, rest: seq<Message>)
    ensures received + ([msg] + rest) == (received + [msg]) + rest
  {
  }

  /** Get finds skipped nodes only and the writer idle: it releases them. */
  lemma GetNothing(s: State, live: seq<Segment>, reader: nat, bufSize: nat)
    requires Inv(s, live) && Enabled(s, Get(reader, bufSize)) && FirstRecord(live) == |live| && s.writer.Idle?
    requires bufSize >= 1 && !GivesUp(s, reader) && !ShortBuffer(s, reader, bufSize)
    ensures Inv(Step(s, Get(reader, bufSize)), [])
  {
    hide Inv;
    hide ClearTokens;
    hide Search;
    hide Fetch;
    hide Chain;
    hide Dist;
    hide Messages;
    InvParts(s, live);
    var t := Step(s, Get(reader, bufSize));
    BufferTakesFirst(s, live, reader, bufSize);
    FetchResult(s, live, s.conflicts[reader], bufSize);
    MessagesSplit(live);
    MessagesSplit([]);
    var next := ChainDrop(s.c, s.mem, live, s.head, Frontier(s), |live|);
    assert live[|live|..] == [];
    ConsumePreserves(s, live, |live|, next, t);
  }

  lemma ConflictCountFree(s: State, live: seq<Segment>, conflicts: seq<nat>)
    requires Inv(s, live)
    ensures Inv(s.(conflicts := conflicts), live)
  {
  }

  lemma GetPreserves(s: State, live: seq<Segment>, reader: nat, bufSize: nat) returns (live': seq<Segment>)
    requires Inv(s, live) && Enabled(s, Get(reader, bufSize))
    requires bufSize >= 1 && !GivesUp(s, reader) && !ShortBuffer(s, reader, bufSize)
    ensures Inv(Step(s, Get(reader, bufSize)), live')
  {
    hide Search;
    hide Fetch;
    hide Inv;
    if FirstRecord(live) < |live| {
      GetRecord(s, live, reader, bufSize);
      live' := live[FirstRecord(live) + 1..];
    } else if s.writer.Idle? {
      GetNothing(s, live, reader, bufSize);
      live' := [];
    } else {
      BufferTakesFirst(s, live, reader, bufSize);
      FetchResult(s, live, s.conflicts[reader], bufSize);
      live' := live;
      ConflictCountFree(s, live, s.conflicts[reader := s.conflicts[reader] + 1]);
    }
  }

  // ---------------------------------------------------------------- when the reader gives up

  /** The search never ends behind the tail, and it waits only while the conflict count is not exhausted. */
  lemma {:induction false} SearchPasses(c: Config, m: seq<byte>, pos: nat, tail: nat, conflict: nat)
    requires c.Ok() && pos < c.Ring() && tail < c.Ring()
    ensures match Search(c, m, pos, tail, conflict)
            case AtTail(p) => p == tail
            case Conflict => conflict < SQ_MAX_CONFLICT_TRIES
            case Found(p, len) =>
              p < c.Ring() && Dist(c, p, tail) <= Dist(c, pos, tail) && 1 <= NumNodes(c, len) <= Dist(c, p, tail)
    decreases Dist(c, pos, tail)
  {
    hide Get32;
    hide Addr;
    hide NumNodes;
    UsedIsDist(c, pos, tail);
    if pos != tail {
      if Token(c, m, pos) != TOKEN_HAS_DATA || UsedNodes(c, pos, tail) < NumNodes(c, DataLen(c, m, pos)) {
        SearchPasses(c, m, Ahead(c, pos, 1), tail, conflict);
      } else {
        NodesFit(c, DataLen(c, m, pos));
      }
    }
  }

  /** An sq_get never moves head_pos away from tail_pos. */
  lemma HeadApproachesTail(s: State, reader: nat, bufSize: nat)
    requires Enabled(s, Get(reader, bufSize))
    ensures var t := Step(s, Get(reader, bufSize));
            t.head < s.c.Ring() && Dist(s.c, t.head, s.tail) <= Dist(s.c, s.head, s.tail)
  {
    hide NumNodes;
    hide ClearTokens;
    hide Search;
    var c := s.c;
    SearchPasses(c, s.mem, s.head, s.tail, s.conflicts[reader]);
    var r := Search(c, s.mem, s.head, s.tail, s.conflicts[reader]);
    if r.Found? {
      AddPosIsAhead(c, r.pos, NumNodes(c, r.len));
      ArcSplit(c, r.pos, s.tail, NumNodes(c, r.len));
    }
  }

  /** First node of the record being written. */
  function RecordNode(w: Writer): (idx: nat)
    requires !w.Idle?
  {
    if w.Marking? then 0 else w.idx
  }

  /** The record being written starts outside head..tail, where no reader looks for it. */
  ghost predicate Stranded(s: State) {
    && WellFormed(s) && |s.mem| == Addr(s.c, s.c.Ring()) && !s.writer.Idle?
    && RecordNode(s.writer) < s.tail && (s.writer.Marking? ==> s.writer.pos < s.c.Ring())
    && !InArc(s.c, RecordNode(s.writer), s.head, Dist(s.c, s.head, s.tail))
  }

  /** With the conflict count exhausted, nodes without a token are all passed over. */
  lemma {:induction false} UnmarkedToTail(c: Config, m: seq<byte>, pos: nat, tail: nat, conflict: nat)
    requires c.Ok() && pos < c.Ring() && tail < c.Ring() && conflict >= SQ_MAX_CONFLICT_TRIES
    requires forall p: nat :: p < c.Ring() && InArc(c, p, pos, Dist(c, pos, tail)) ==> Token(c, m, p) == TOKEN_NO_DATA
    ensures Search(c, m, pos, tail, conflict) == AtTail(tail)
    decreases Dist(c, pos, tail)
  {
    hide Token;
    hide NumNodes;
    if pos != tail {
      assert InArc(c, pos, pos, Dist(c, pos, tail));
      ArcSplit(c, pos, tail, 1);
      UnmarkedToTail(c, m, Ahead(c, pos, 1), tail, conflict);
    }
  }

  /** Giving up means searching on behind the first node the writer has not finished. */
  lemma GivesUpSearch(s: State, live: seq<Segment>, reader: nat)
    requires Inv(s, live) && reader < |s.conflicts| && GivesUp(s, reader)
    ensures !s.writer.Idle? && Frontier(s) != s.tail
    ensures var c, next := s.c, Ahead(s.c, Frontier(s), 1);
            && 0 <= next < c.Ring() && Dist(c, next, s.tail) == Dist(c, Frontier(s), s.tail) - 1
            && Search(c, s.mem, s.head, s.tail, s.conflicts[reader])
               == Search(c, s.mem, next, s.tail, s.conflicts[reader])
  {
    hide Addr;
    hide Get32;
    hide NumNodes;
    SearchFinds(s.c, s.mem, live, s.head, Frontier(s), s.tail, 0);
    SearchFinds(s.c, s.mem, live, s.head, Frontier(s), s.tail, s.conflicts[reader]);
    FrontierUnmarked(s);
    ArcSplit(s.c, Frontier(s), s.tail, 1);
  }

  /** While nodes are still being marked, giving up leads to the tail. */
  lemma GivingUpWhileMarking(s: State, live: seq<Segment>, reader: nat)
    requires Inv(s, live) && reader < |s.conflicts| && GivesUp(s, reader) && s.writer.Marking?
    ensures Search(s.c, s.mem, s.head, s.tail, s.conflicts[reader]) == AtTail(s.tail)
  {
    hide Token;
    hide NumNodes;
    hide Chain;
    hide Search;
    GivesUpSearch(s, live, reader);
    UnmarkedToTail(s.c, s.mem, Ahead(s.c, Frontier(s), 1), s.tail, s.conflicts[reader]);
  }

  /** A reader that gives up moves head_pos past the first node of the record being written. */
  lemma GivingUpStrands(s: State, live: seq<Segment>, reader: nat, bufSize: nat)
    requires Inv(s, live) && Enabled(s, Get(reader, bufSize)) && bufSize >= 1
    requires GivesUp(s, reader)
    ensures !s.writer.Idle?
    ensures var t := Step(s, Get(reader, bufSize));
            && t.head < s.c.Ring() && Dist(s.c, t.head, s.tail) < Dist(s.c, Frontier(s), s.tail)
            && Stranded(t)
  {
    hide Token;
    hide NumNodes;
    hide ClearTokens;
    hide Chain;
    hide Search;
    hide GivesUp;
    var c := s.c;
    GivesUpSearch(s, live, reader);
    if s.writer.Marking? {
      NodesFit(c, |s.writer.msg|);
      GivingUpWhileMarking(s, live, reader);
    } else {
      var next := Ahead(c, Frontier(s), 1);
      SearchPasses(c, s.mem, next, s.tail, s.conflicts[reader]);
      GivesUpCount(s, reader);
      var r := Search(c, s.mem, next, s.tail, s.conflicts[reader]);
      if r.Found? {
        AddPosIsAhead(c, r.pos, NumNodes(c, r.len));
        ArcSplit(c, r.pos, s.tail, NumNodes(c, r.len));
      }
    }
  }

  lemma GivesUpCount(s: State, reader: nat)
    requires WellFormed(s) && reader < |s.conflicts| && GivesUp(s, reader)
    ensures s.conflicts[reader] >= SQ_MAX_CONFLICT_TRIES
  {
  }

  /** Until the writer publishes, every step of the writer and every sq_get leaves the record stranded. */
  lemma StrandedStays(s: State, a: Action)
    requires Stranded(s) && Enabled(s, a) && !a.Publish?
    ensures Stranded(Step(s, a))
  {
    hide NumNodes;
    hide Addr;
    hide Search;
    hide ClearTokens;
    match a
    case Get(reader, bufSize) => HeadApproachesTail(s, reader, bufSize);
    case MarkSkipped => AddPosIsAhead(s.c, s.writer.pos, 1);
    case _ =>
  }

  /** Publishing a stranded record leaves its token in a free node. */
  lemma StrandedPublish(s: State)
    requires Stranded(s) && Enabled(s, Publish)
    ensures var t := Step(s, Publish);
            && !InArc(s.c, s.writer.idx, t.head, Dist(s.c, t.head, t.tail))
            && Token(s.c, t.mem, s.writer.idx) == TOKEN_HAS_DATA && !FreeNodesClear(t)
  {
    SetTokenReads(s.c, s.mem, s.writer.idx, TOKEN_HAS_DATA);
  }

  /** A run of any steps, also of readers that give up or lack room. */
  ghost predicate Steps(s: State, run: seq<Action>, t: State)
    decreases |run|
  {
    if run == [] then s == t else Enabled(s, run[0]) && Steps(Step(s, run[0]), run[1..], t)
  }

  lemma {:induction false} StrandedRun(s: State, run: seq<Action>, t: State)
    requires Stranded(s) && Steps(s, run, t) && Publish !in run
    ensures Stranded(t)
    decreases |run|
  {
    hide Step;
    hide Stranded;
    hide Enabled;
    if run != [] {
      StrandedStays(s, run[0]);
      StrandedRun(Step(s, run[0]), run[1..], t);
    }
  }

  /** After a reader has given up, whatever the others do until the writer publishes, the published record
      lies outside head..tail: no reader finds it there, and a free node carries its token. */
  lemma GivingUpStrandsRecord(s: State, live: seq<Segment>, reader: nat, bufSize: nat, run: seq<Action>, t: State)
    requires Inv(s, live) && Enabled(s, Get(reader, bufSize)) && bufSize >= 1
    requires GivesUp(s, reader)
    requires Steps(Step(s, Get(reader, bufSize)), run, t) && Publish !in run && Enabled(t, Publish)
    ensures var u := Step(t, Publish);
            && !InArc(t.c, t.writer.idx, u.head, Dist(t.c, u.head, u.tail))
            && Token(t.c, u.mem, t.writer.idx) == TOKEN_HAS_DATA && !FreeNodesClear(u)
  {
    hide Step;
    hide Enabled;
    hide Inv;
    hide Stranded;
    hide GivesUp;
    hide Steps;
    GivingUpStrands(s, live, reader, bufSize);
    StrandedRun(Step(s, Get(reader, bufSize)), run, t);
    StrandedPublish(t);
  }

  lemma ShortBufferStep(s: State, live: seq<Segment>, reader: nat, bufSize: nat)
    requires Inv(s, live) && Enabled(s, Get(reader, bufSize)) && bufSize >= 1
    requires !GivesUp(s, reader) && ShortBuffer(s, reader, bufSize)
    ensures var k, t := FirstRecord(live), Step(s, Get(reader, bufSize));
            && Fetch(s.c, s.mem, s.head, s.tail, s.conflicts[reader], bufSize).ret == -2
            && k < |live| && t.mem == s.mem && t.head == AddPos(s.c, live[k].at, NumNodes(s.c, |live[k].msg|))
  {
    hide Get32;
    hide Addr;
    hide NumNodes;
    hide Chain;
    SearchFinds(s.c, s.mem, live, s.head, Frontier(s), s.tail, s.conflicts[reader]);
    SearchFinds(s.c, s.mem, live, s.head, Frontier(s), s.tail, 0);
    if !s.writer.Idle? { FrontierUnmarked(s); }
  }

  /** An sq_get whose buffer is too short moves head_pos behind the oldest record without delivering it,
      and leaves the record's token in a node that is free now. */
  lemma ShortBufferStrandsRecord(s: State, live: seq<Segment>, reader: nat, bufSize: nat)
    requires Inv(s, live) && Enabled(s, Get(reader, bufSize)) && bufSize >= 1
    requires !GivesUp(s, reader) && ShortBuffer(s, reader, bufSize)
    ensures var t := Step(s, Get(reader, bufSize)); var k := FirstRecord(live);
            && Fetch(s.c, s.mem, s.head, s.tail, s.conflicts[reader], bufSize).ret == -2 && t.received == s.received
            && k < |live| && live[k].at < s.c.Ring() && t.head == Ahead(s.c, live[k].at, NumNodes(s.c, |live[k].msg|))
            && !InArc(s.c, live[k].at, t.head, Dist(s.c, t.head, t.tail))
            && Token(s.c, t.mem, live[k].at) == TOKEN_HAS_DATA && !FreeNodesClear(t)
  {
    hide Get32;
    hide Addr;
    hide NumNodes;
    hide Chain;
    hide Search;
    hide Fetch;
    ShortBufferStep(s, live, reader, bufSize);
    var c, k := s.c, FirstRecord(live);
    var pos := ChainDrop(c, s.mem, live, s.head, Frontier(s), k);
    var next := ChainNext(c, s.mem, live, s.head, Frontier(s), k);
    NodesFit(c, |live[k].msg|);
    AddPosIsAhead(c, pos, NumNodes(c, |live[k].msg|));
    var t := Step(s, Get(reader, bufSize));
    assert Written(t) == Written(s);
    assert !InArc(c, pos, t.head, Dist(c, t.head, Written(t)));
    assert !InArc(c, pos, t.head, Dist(c, t.head, t.tail));
  }

  /** What the two exclusions mean for a caller, in terms of the messages still to be delivered. */
  lemma ExclusionsMean(s: State, live: seq<Segment>, reader: nat, bufSize: nat)
    requires Inv(s, live) && reader < |s.conflicts|
    ensures GivesUp(s, reader)
            <==> s.conflicts[reader] >= SQ_MAX_CONFLICT_TRIES && Messages(live) == [] && !s.writer.Idle?
    ensures !GivesUp(s, reader) ==>
              (ShortBuffer(s, reader, bufSize) <==> Messages(live) != [] && |Messages(live)[0]| > bufSize)
  {
    hide Token;
    hide NumNodes;
    hide Chain;
    SearchFinds(s.c, s.mem, live, s.head, Frontier(s), s.tail, 0);
    SearchFinds(s.c, s.mem, live, s.head, Frontier(s), s.tail, s.conflicts[reader]);
    MessagesSplit(live);
    if !s.writer.Idle? { FrontierUnmarked(s); }
  }

  /** An sq_get keeps the queue consistent exactly when it does not give up, that is when it has met fewer
      than ten conflicts in a row or a message waits or no put is under way, and when its buffer holds the
      message that waits. */
  lemma GetSafeIff(s: State, live: seq<Segment>, reader: nat, bufSize: nat)
    requires Inv(s, live) && Enabled(s, Get(reader, bufSize)) && bufSize >= 1
    ensures var waiting := Messages(live);
            && s.published == s.received + waiting
            && ((exists live' :: Inv(Step(s, Get(reader, bufSize)), live'))
                <==> && (s.conflicts[reader] < SQ_MAX_CONFLICT_TRIES || waiting != [] || s.writer.Idle?)
                     && (waiting != [] ==> |waiting[0]| <= bufSize))
  {
    hide Search;
    hide Fetch;
    ExclusionsMean(s, live, reader, bufSize);
    var t := Step(s, Get(reader, bufSize));
    if GivesUp(s, reader) {
      GivingUpStrands(s, live, reader, bufSize);
      assert Frontier(t) == Frontier(s);
      assert !Geometry(t);
    } else if ShortBuffer(s, reader, bufSize) {
      ShortBufferStrandsRecord(s, live, reader, bufSize);
    } else {
      var live' := GetPreserves(s, live, reader, bufSize);
    }
  }

  // ---------------------------------------------------------------- runs

  /** The assumptions on readers: a real buffer with room for the next message, and no conflict
      with the record being written after ten conflicts in a row. */
  predicate Allowed(s: State, a: Action)
    requires Enabled(s, a)
  {
    a.Get? ==> a.bufSize >= 1 && !GivesUp(s, a.reader) && !ShortBuffer(s, a.reader, a.bufSize)
  }

  lemma StepPreserves(s: State, live: seq<Segment>, a: Action) returns (live': seq<Segment>)
    requires Inv(s, live) && Enabled(s, a) && Allowed(s, a)
    ensures Inv(Step(s, a), live')
  {
    hide Step;
    hide Inv;
    hide GivesUp;
    match a
    case Reserve(msg) => ReservePreserves(s, live, msg); live' := live;
    case MarkSkipped => live' := MarkPreserves(s, live);
    case WriteHeader(stamp) => HeaderPreserves(s, live, stamp); live' := live;
    case CopyByte(k) => CopyPreserves(s, live, k); live' := live;
    case Publish => live' := PublishPreserves(s, live);
    case Get(reader, bufSize) => live' := GetPreserves(s, live, reader, bufSize);
  }

  ghost predicate Reaches(s: State, run: seq<Action>, t: State)
    decreases |run|
  {
    if run == [] then s == t
    else Enabled(s, run[0]) && Allowed(s, run[0]) && Reaches(Step(s, run[0]), run[1..], t)
  }

  lemma {:induction false} RunPreserves(s: State, live: seq<Segment>, run: seq<Action>, t: State)
    returns (live': seq<Segment>)
    requires Inv(s, live) && Reaches(s, run, t)
    ensures Inv(t, live')
    decreases |run|
  {
    hide Step;
    hide Inv;
    hide Enabled;
    hide Allowed;
    hide GivesUp;
    if run == [] {
      live' := live;
    } else {
      var mid := StepPreserves(s, live, run[0]);
      live' := RunPreserves(Step(s, run[0]), mid, run[1..], t);
    }
  }

  /** Main result: under every interleaving the readers together have received a prefix of the
      published messages, and the segments in the ring hold the rest, in order. */
  lemma ExactlyOnceInOrder(s: State, run: seq<Action>, t: State) returns (live: seq<Segment>)
    requires Init(s) && Reaches(s, run, t)
    ensures t.received <= t.published
    ensures Inv(t, live) && t.published[|t.received|..] == Messages(live)
  {
    InitInv(s);
    live := RunPreserves(s, [], run, t);
  }

  /** The next sq_get of any reader returns the oldest undelivered message whole, and reports an
      empty queue only if every published message has been delivered. */
  lemma GetDeliversOldest(s: State, run: seq<Action>, t: State, reader: nat, bufSize: nat)
    requires Init(s) && Reaches(s, run, t)
    requires Enabled(t, Get(reader, bufSize)) && Allowed(t, Get(reader, bufSize))
    ensures var g := Fetch(t.c, t.mem, t.head, t.tail, t.conflicts[reader], bufSize);
            var n := |t.received|;
            if n < |t.published| then g.ret == |t.published[n]| && g.buf == t.published[n] else g.ret == 0
  {
    hide Fetch;
    hide Search;
    hide Reaches;
    hide Messages;
    hide Chain;
    var live := ExactlyOnceInOrder(s, run, t);
    BufferTakesFirst(t, live, reader, bufSize);
    FetchResult(t, live, t.conflicts[reader], bufSize);
    MessagesSplit(live);
  }

  // ---------------------------------------------------------------- both exclusions are met in runs

  lemma {:induction false} ReachesMore(s: State, run: seq<Action>, t: State, a: Action)
    requires Reaches(s, run, t) && Enabled(t, a) && Allowed(t, a)
    ensures Reaches(s, run + [a], Step(t, a))
    decreases |run|
  {
    hide Step;
    hide Enabled;
    hide Allowed;
    if run == [] {
      assert [a][1..] == [];
    } else {
      ReachesMore(Step(s, run[0]), run[1..], t, a);
      assert (run + [a])[1..] == run[1..] + [a];
    }
  }

  /** With an unpublished record and nothing else in the ring, a get only counts a conflict. */
  lemma ConflictStep(s: State, live: seq<Segment>, reader: nat)
    requires Inv(s, live) && Messages(live) == [] && !s.writer.Idle?
    requires reader < |s.conflicts| && s.conflicts[reader] < SQ_MAX_CONFLICT_TRIES
    ensures Enabled(s, Get(reader, 1)) && Allowed(s, Get(reader, 1))
    ensures Step(s, Get(reader, 1)) == s.(conflicts := s.conflicts[reader := s.conflicts[reader] + 1])
  {
    hide Search;
    hide Fetch;
    hide Chain;
    ExclusionsMean(s, live, reader, 1);
    MessagesSplit(live);
    FetchResult(s, live, s.conflicts[reader], 1);
  }

  lemma {:induction false} ManyConflicts(init: State, run: seq<Action>, s: State, live: seq<Segment>, reader: nat)
    returns (run': seq<Action>, t: State)
    requires Reaches(init, run, s) && Inv(s, live) && Messages(live) == [] && !s.writer.Idle?
    requires reader < |s.conflicts| && s.conflicts[reader] <= SQ_MAX_CONFLICT_TRIES
    ensures Reaches(init, run', t) && Inv(t, live) && !t.writer.Idle?
    ensures reader < |t.conflicts| && t.conflicts[reader] == SQ_MAX_CONFLICT_TRIES
    ensures |run'| == |run| + SQ_MAX_CONFLICT_TRIES - s.conflicts[reader]
    decreases SQ_MAX_CONFLICT_TRIES - s.conflicts[reader]
  {
    hide Step;
    hide Inv;
    hide Reaches;
    hide Messages;
    if s.conflicts[reader] == SQ_MAX_CONFLICT_TRIES {
      run', t := run, s;
    } else {
      ConflictStep(s, live, reader);
      ReachesMore(init, run, s, Get(reader, 1));
      ConflictCountFree(s, live, s.conflicts[reader := s.conflicts[reader] + 1]);
      run', t := ManyConflicts(init, run + [Get(reader, 1)], Step(s, Get(reader, 1)), live, reader);
    }
  }

  /** The first reservation in an empty queue. */
  lemma FirstReserve(s: State, msg: Message)
    requires Init(s) && 1 <= |msg| <= 8
    ensures Enabled(s, Reserve(msg)) && Allowed(s, Reserve(msg))
    ensures var t := Step(s, Reserve(msg));
            t == s.(tail := t.tail, writer := Filling(0, NumNodes(s.c, |msg|), msg, false, {}))
  {
    OneNode(s.c, |msg|);
    UsedIsDist(s.c, 0, 0);
    AddPosIsAhead(s.c, 0, 1);
  }

  lemma OneNode(c: Config, len: nat)
    requires c.Ok() && 1 <= len <= 8
    ensures NumNodes(c, len) == 1
  {
    ModUnique(len + HEADER + c.ns - 1, c.ns, 1, len + HEADER - 1);
  }

  /** From any fresh queue: one reservation and ten gets bring a reader to the point of giving up. */
  lemma GivingUpHappens(s: State, reader: nat) returns (run: seq<Action>, t: State)
    requires Init(s) && reader < |s.conflicts| && s.conflicts[reader] == 0
    ensures Reaches(s, run, t) && |run| == 1 + SQ_MAX_CONFLICT_TRIES
    ensures reader < |t.conflicts| && WellFormed(t) && GivesUp(t, reader)
  {
    InitInv(s);
    FirstReserve(s, [0]);
    var s1 := Step(s, Reserve([0]));
    ReachesMore(s, [], s, Reserve([0]));
    ReservePreserves(s, [], [0]);
    assert [] + [Reserve([0])] == [Reserve([0])];
    run, t := ManyConflicts(s, [Reserve([0])], s1, [], reader);
    ExclusionsMean(t, [], reader, 1);
  }

  /** From any fresh queue: one put of two bytes brings any reader with a buffer of one byte to the -2 exit. */
  lemma ShortBufferHappens(s: State, reader: nat, stamp: seq<byte>) returns (run: seq<Action>, t: State)
    requires Init(s) && reader < |s.conflicts| && |stamp| == 8
    ensures Reaches(s, run, t) && WellFormed(t) && reader < |t.conflicts| && !GivesUp(t, reader)
    ensures ShortBuffer(t, reader, 1)
  {
    InitInv(s);
    run, t := PutRun(s, [0, 0], stamp);
    var live := RunPreserves(s, [], run, t);
    hide *;
    OneWaits(t, live, [0, 0]);
    ExclusionsMean(t, live, reader, 1);
  }

  lemma OneWaits(t: State, live: seq<Segment>, msg: Message)
    requires Inv(t, live) && t.published == [msg] && t.received == []
    ensures WellFormed(t) && Messages(live) == [msg]
  {
    assert Messages(live) == t.received + Messages(live);
  }

  /** A put without interruption. */
  lemma PutRun(s: State, msg: Message, stamp: seq<byte>) returns (run: seq<Action>, t: State)
    requires Init(s) && |msg| == 2 && |stamp| == 8
    ensures Reaches(s, run, t)
    ensures t.published == [msg] && t.received == [] && t.writer.Idle? && t.conflicts == s.conflicts
  {
    FirstReserve(s, msg);
    hide Reaches;
    hide NumNodes;
    hide Addr;
    hide Put32;
    NoSteps(s);
    ReachesMore(s, [], s, Reserve(msg));
    run, t := [] + [Reserve(msg)], Step(s, Reserve(msg));
    ReachesMore(s, run, t, WriteHeader(stamp));
    run, t := run + [WriteHeader(stamp)], Step(t, WriteHeader(stamp));
    ReachesMore(s, run, t, CopyByte(0));
    run, t := run + [CopyByte(0)], Step(t, CopyByte(0));
    ReachesMore(s, run, t, CopyByte(1));
    run, t := run + [CopyByte(1)], Step(t, CopyByte(1));
    ReachesMore(s, run, t, Publish);
    run, t := run + [Publish], Step(t, Publish);
  }

  lemma NoSteps(s: State)
    ensures Reaches(s, [], s)
  {
  }

  // ---------------------------------------------------------------- the functions, run without interruption

  /** Stores a 32-bit word, least significant byte first. */
  method StoreWord(nodes: array<byte>, a: nat, v: nat)
    requires v < WORD32
    modifies nodes
    ensures nodes[..] == Put32(old(nodes[..]), a, v)
  {
    if a + 4 <= nodes.Length {
      nodes[a] := v % 0x100;
      nodes[a + 1] := v / 0x100 % 0x100;
      nodes[a + 2] := v / 0x1_0000 % 0x100;
      nodes[a + 3] := v / 0x100_0000;
    }
  }

  method StoreBytes(nodes: array<byte>, a: nat, data: seq<byte>)
    requires a + |data| <= nodes.Length
    modifies nodes
    ensures nodes[..] == Bytes(old(nodes[..]), a, data)
  {
    forall k | 0 <= k < |data| {
      nodes[a + k] := data[k];
    }
    assert forall i :: a <= i < a + |data| ==> nodes[i] == data[i - a] by {
      forall i | a <= i < a + |data| ensures nodes[i] == data[i - a] {
        var k := i - a;
        assert nodes[a + k] == data[k];
      }
    }
  }

  /** What the successful end of sq_get relies on. */
  lemma DeliveryFacts(s: State, l: seq<Segment>, bufSize: nat)
    requires Inv(s, l) && s.writer.Idle? && |s.conflicts| == 1 && bufSize >= 1 && FirstRecord(l) < |l|
    requires |l[FirstRecord(l)].msg| <= bufSize
    ensures s.c.Ok() && WellFormed(s)
    ensures var g := l[FirstRecord(l)];
            var at, next := Addr(s.c, g.at) + HEADER, AddPos(s.c, g.at, NumNodes(s.c, |g.msg|));
            && at + |g.msg| <= |s.mem| && s.mem[at..at + |g.msg|] == g.msg
            && next < s.c.Ring() && Inv(Released(s, next, l[FirstRecord(l) + 1..]), l[FirstRecord(l) + 1..])
  {
    InvParts(s, l);
    hide Inv;
    hide Search;
    hide ClearTokens;
    hide NumNodes;
    hide Addr;
    hide AddPos;
    hide Messages;
    IdleSearch(s, l, 0);
    AfterGet(s, l, bufSize);
  }

  class Queue {
    const ele_size: nat
    const ele_count: nat
    const nodes: array<byte>
    var head_pos: nat
    var tail_pos: nat
    var rw_conflict: nat
    ghost var live: seq<Segment>

    ghost function Snapshot(): State
      reads this, nodes
    {
      State(Config(HEADER + ele_size, ele_count), nodes[..], head_pos, tail_pos,
            Idle, [rw_conflict], Messages(live), [])
    }

    ghost predicate Valid()
      reads this, nodes
    {
      Inv(Snapshot(), live)
    }

    /** The messages put and not yet fetched, oldest first. */
    ghost function Contents(): seq<Message>
      reads this
    {
      Messages(live)
    }

    /** sq_create with new shared memory: rounds the element size up to eight bytes and clears all nodes. */
    constructor (size: nat, count: nat)
      requires size > 0 && count > RESERVE_BLOCK_COUNT
      ensures Valid() && Contents() == [] && fresh(nodes)
      ensures ele_count == count && ele_size % 8 == 0 && size <= ele_size < size + 8
      ensures head_pos == tail_pos == 0
    {
      var aligned := (size + 7) / 8 * 8;
      ele_size := aligned;
      ele_count := count;
      var c := Config(HEADER + aligned, count);
      nodes := new byte[Addr(c, count + 1)](_ => 0);
      head_pos, tail_pos, rw_conflict := 0, 0, 0;
      live := [];
      new;
      InitInv(Snapshot());
    }

    /** s describes the fields while a put is under way. */
    ghost predicate Mirrors(s: State)
      reads this, nodes
    {
      && s.c == Config(HEADER + ele_size, ele_count) && s.mem == nodes[..]
      && s.head == head_pos && s.tail == tail_pos && s.conflicts == [rw_conflict] && s.received == []
    }

    /** The do-while loop that marks the nodes skipped at the end of the ring. */
    method MarkSkippedNodes(old_tail: nat, ghost s: State, ghost l: seq<Segment>)
      returns (ghost s': State, ghost l': seq<Segment>)
      requires Mirrors(s) && Inv(s, l) && s.writer.Marking? && s.writer.pos == old_tail
      modifies nodes
      ensures Mirrors(s') && Inv(s', l') && s'.published == s.published
      ensures s'.writer == Filling(0, s.writer.nr, s.writer.msg, false, {})
    {
      hide Inv;
      var c := Config(HEADER + ele_size, ele_count);
      s', l' := s, l;
      var n, again := old_tail, true;
      while again
        invariant Mirrors(s') && Inv(s', l') && s'.published == s.published
        invariant s'.writer == if again then s.writer.(pos := n) else Filling(0, s.writer.nr, s.writer.msg, false, {})
        decreases if again then 1 + ele_count + 1 - n else 0
      {
        MarkRange(s', l');
        StoreWord(nodes, Addr(c, n), TOKEN_SKIPPED);
        l' := MarkPreserves(s', l');
        s' := Step(s', MarkSkipped);
        AddPosIsAhead(c, n, 1);
        n := AddPos(c, n, 1);
        again := n != 0;
      }
    }

    /** memcpy of the payload, byte by byte. */
    method CopyPayload(at: nat, data: array<byte>, ghost s: State, ghost l: seq<Segment>) returns (ghost s': State)
      requires Mirrors(s) && Inv(s, l) && data != nodes && s.writer.Filling?
      requires s.writer.header && s.writer.msg == data[..] && s.writer.copied == {}
               && at == Addr(s.c, s.writer.idx) + HEADER
      modifies nodes
      ensures Mirrors(s') && Inv(s', l)
      ensures s' == s.(mem := s'.mem, writer := s.writer.(copied := UpTo(data.Length)))
    {
      hide Inv;
      hide Addr;
      hide Bytes;
      var k := 0;
      s' := s;
      while k < data.Length
        invariant k <= data.Length && data[..] == old(data[..])
        invariant Mirrors(s') && Inv(s', l)
        invariant s' == s.(mem := s'.mem, writer := s.writer.(copied := UpTo(k)))
      {
        FillRange(s', l);
        CopyPreserves(s', l, k);
        StoreBytes(nodes, at + k, [data[k]]);
        s' := Step(s', CopyByte(k));
        k := k + 1;
      }
    }

    /** Header, payload and finally the token of the record at node idx. */
    method FillRecord(idx: nat, data: array<byte>, stamp: seq<byte>, ghost s: State, ghost l: seq<Segment>)
      returns (ghost s': State, ghost l': seq<Segment>)
      requires Mirrors(s) && Inv(s, l) && |stamp| == 8 && data != nodes
      requires s.writer == Filling(idx, NumNodes(s.c, data.Length), data[..], false, {})
      modifies nodes
      ensures Mirrors(s') && Inv(s', l') && s'.writer.Idle?
      ensures s'.published == s.published + [data[..]]
    {
      hide Inv;
      hide Addr;
      hide NumNodes;
      hide Bytes;
      hide Put32;
      var c := Config(HEADER + ele_size, ele_count);
      FillRange(s, l);
      var at := Addr(c, idx);
      SmallWord(data.Length);
      HeaderPreserves(s, l, stamp);
      StoreWord(nodes, at + 4, data.Length);
      StoreBytes(nodes, at + 8, stamp);
      s' := Step(s, WriteHeader(stamp));
      s' := CopyPayload(at + HEADER, data, s', l);
      l' := PublishPreserves(s', l);
      StoreWord(nodes, at, TOKEN_HAS_DATA);
      s' := Step(s', Publish);
    }

    /** sq_put without other writers. The message is refused exactly when Reserved says so. */
    method SqPut(data: array<byte>, stamp: seq<byte>) returns (ret: int)
      requires Valid() && |stamp| == 8 && data != nodes
      modifies this`tail_pos, this`live, nodes
      ensures Valid()
      ensures ret == match old(Reserved(Snapshot().c, head_pos, tail_pos, data.Length))
                     case BadArgument => -1
                     case Full => -2
                     case At(_, _) => 0
      ensures ret == -1 <==> data.Length == 0 || data.Length > MAX_SQ_DATA_LENGTH
      ensures ret == -2 <==>
                && 0 < data.Length <= MAX_SQ_DATA_LENGTH
                && var (c, head, tail) := old((Snapshot().c, head_pos, tail_pos));
                   var nr := NumNodes(c, data.Length);
                   c.count - Dist(c, head, tail) < nr + RESERVE_BLOCK_COUNT || (tail + nr > c.count && head <= nr)
      ensures ret == 0 ==> Contents() == old(Contents()) + [data[..]]
      ensures ret != 0 ==> nodes[..] == old(nodes[..]) && tail_pos == old(tail_pos) && live == old(live)
    {
      hide Inv;
      var c := Config(HEADER + ele_size, ele_count);
      ghost var s, msg := Snapshot(), data[..];
      InvParts(s, live);
      var datalen := data.Length;
      if datalen <= 0 || datalen > MAX_SQ_DATA_LENGTH {
        return -1;
      }
      FullIff(c, head_pos, tail_pos, datalen);
      var old_tail := tail_pos;
      var nr_nodes := NumNodes(c, datalen);
      if EmptyNodes(c, head_pos, tail_pos) < nr_nodes + RESERVE_BLOCK_COUNT {
        return -2;
      }
      var idx := old_tail;
      var new_tail := AddPos(c, tail_pos, nr_nodes);
      if new_tail < old_tail {
        idx := 0;
        new_tail := nr_nodes;
        if head_pos - 1 < nr_nodes {
          return -2;
        }
      }
      ReservePreserves(s, live, msg);
      s := Step(s, Reserve(msg));
      tail_pos := new_tail;
      ghost var l := live;
      if idx == 0 && old_tail != 0 {
        s, l := MarkSkippedNodes(old_tail, s, l);
      }
      s, l := FillRecord(idx, data, stamp, s, l);
      live := l;
      PublishedAreLive(s, l);
      ret := 0;
    }

    /** The search loop of sq_get. */
    method FindRecord() returns (r: Scan)
      requires Valid()
      ensures r == Search(Snapshot().c, nodes[..], head_pos, tail_pos, rw_conflict)
    {
      hide Inv;
      hide Get32;
      hide Addr;
      hide NumNodes;
      InvParts(Snapshot(), live);
      var c := Config(HEADER + ele_size, ele_count);
      var head: nat := head_pos;
      while true
        invariant head < c.Ring()
        invariant Search(c, nodes[..], head_pos, tail_pos, rw_conflict)
                  == Search(c, nodes[..], head, tail_pos, rw_conflict)
        decreases Dist(c, head, tail_pos)
      {
        if tail_pos == head {
          return AtTail(head);
        }
        AddPosIsAhead(c, head, 1);
        var token := Get32(nodes[..], Addr(c, head));
        if token != TOKEN_HAS_DATA {
          if token == TOKEN_NO_DATA && rw_conflict < SQ_MAX_CONFLICT_TRIES {
            return Conflict;
          }
          head := AddPos(c, head, 1);
          continue;
        }
        var datalen := Get32(nodes[..], Addr(c, head) + 4);
        if UsedNodes(c, head, tail_pos) < NumNodes(c, datalen) {
          head := AddPos(c, head, 1);
          continue;
        }
        return Found(head, datalen);
      }
    }

    /** The closing loop of sq_get. */
    method ResetTokens(old_head: nat, new_head: nat)
      requires var c := Snapshot().c; c.Ok() && old_head < c.Ring() && new_head < c.Ring()
      modifies nodes
      ensures nodes[..] == ClearTokens(Snapshot().c, old(nodes[..]), old_head, new_head)
    {
      var c := Config(HEADER + ele_size, ele_count);
      var n: nat := old_head;
      while n != new_head
        invariant n < c.Ring()
        invariant ClearTokens(c, nodes[..], n, new_head) == ClearTokens(c, old(nodes[..]), old_head, new_head)
        decreases Dist(c, n, new_head)
      {
        AddPosIsAhead(c, n, 1);
        StoreWord(nodes, Addr(c, n), TOKEN_NO_DATA);
        n := AddPos(c, n, 1);
      }
    }

    /** The successful end of sq_get: advance head_pos, copy the payload out, reset the tokens. */
    method Deliver(buf: array<byte>, pos: nat, datalen: nat)
      requires Valid() && buf != nodes && datalen <= buf.Length
      requires FirstRecord(live) < |live|
      requires live[FirstRecord(live)] == Rec(pos, live[FirstRecord(live)].msg)
               && datalen == |live[FirstRecord(live)].msg| > 0
      modifies this`head_pos, this`rw_conflict, this`live, nodes, buf
      ensures Valid() && live == old(live[FirstRecord(live) + 1..])
      ensures buf[..datalen] == old(live[FirstRecord(live)].msg) && buf[datalen..] == old(buf[datalen..])
    {
      hide Inv;
      hide Search;
      hide ClearTokens;
      hide NumNodes;
      hide Addr;
      hide AddPos;
      hide Messages;
      var c := Config(HEADER + ele_size, ele_count);
      ghost var s, l := Snapshot(), live;
      var old_head := head_pos;
      DeliveryFacts(s, l, buf.Length);
      hide FirstRecord;
      hide Dist;
      var new_head := AddPos(c, pos, NumNodes(c, datalen));
      head_pos := new_head;
      CopyPayloadOut(buf, Addr(c, pos) + HEADER, datalen);
      ResetTokens(old_head, new_head);
      rw_conflict := 0;
      live := l[FirstRecord(l) + 1..];
      assert Snapshot() == Released(s, new_head, live);
    }

    /** The other end of sq_get: only skipped nodes lie before the tail. */
    method ReleaseSkipped(pos: nat)
      requires Valid() && FirstRecord(live) == |live| && pos == tail_pos
      modifies this`head_pos, this`rw_conflict, this`live, nodes
      ensures Valid() && live == [] && Contents() == []
    {
      hide Inv;
      hide Search;
      hide ClearTokens;
      hide Messages;
      ghost var s := Snapshot();
      var old_head := head_pos;
      InvParts(s, live);
      AfterEmptyGet(s, live, 1);
      MessagesSplit([]);
      head_pos := pos;
      ResetTokens(old_head, pos);
      rw_conflict := 0;
      live := [];
      assert Snapshot() == Released(s, pos, []);
    }

    /** The head is right behind the oldest of these records, of the length len, and the nodes are as before. */
    ghost predicate LeftBehind(l: seq<Segment>, mem: seq<byte>, len: nat)
      reads this, nodes
    {
      var c := Config(HEADER + ele_size, ele_count);
      && nodes[..] == mem && live == l && c.Ok()
      && FirstRecord(l) < |l| && head_pos == AddPos(c, l[FirstRecord(l)].at, NumNodes(c, len))
    }

    /** sq_get while no put is under way: the oldest message comes out whole; a buffer that is too
        short leaves it behind undelivered (-2), with the head moved past it. */
    method SqGet(buf: array<byte>) returns (ret: int)
      requires Valid() && buf != nodes
      modifies this`head_pos, this`rw_conflict, this`live, nodes, buf
      ensures buf.Length < 1 ==> ret == -1
      ensures buf.Length >= 1 && old(Contents()) == [] ==> ret == 0 && Valid() && Contents() == []
      ensures buf.Length >= 1 && old(Contents()) != [] && |old(Contents())[0]| <= buf.Length ==>
                && ret == |old(Contents())[0]| && buf[..ret] == old(Contents())[0] && buf[ret..] == old(buf[ret..])
                && Valid() && Contents() == old(Contents())[1..]
      ensures buf.Length >= 1 && old(Contents()) != [] && |old(Contents())[0]| > buf.Length ==>
                ret == -2 && LeftBehind(old(live), old(nodes[..]), |old(Contents())[0]|)
      ensures ret <= 0 ==> buf[..] == old(buf[..])
    {
      hide Messages;
      hide Inv;
      hide Search;
      hide NumNodes;
      hide Addr;
      hide AddPos;
      if buf.Length < 1 {
        return -1;
      }
      IdleSearch(Snapshot(), live, rw_conflict);
      MessagesSplit(live);
      var r := FindRecord();
      match r {
        case AtTail(pos) =>
          ReleaseSkipped(pos);
          return 0;
        case Found(pos, datalen) =>
          if datalen > buf.Length {
            InvParts(Snapshot(), live);
            var c := Config(HEADER + ele_size, ele_count);
            head_pos := AddPos(c, pos, NumNodes(c, datalen));
            return -2;
          }
          Deliver(buf, pos, datalen);
          return datalen;
      }
    }

    method CopyPayloadOut(buf: array<byte>, at: nat, len: nat)
      requires buf != nodes && len <= buf.Length && at + len <= nodes.Length
      modifies buf
      ensures buf[..len] == nodes[at..at + len] && buf[len..] == old(buf[len..])
    {
      forall k | 0 <= k < len {
        buf[k] := nodes[at + k];
      }
    }
  }

  /** The indices below k. */
  ghost function UpTo(k: nat): (r: set<nat>)
    ensures forall j: nat :: j in r <==> j < k
  {
    if k == 0 then {} else UpTo(k - 1) + {k - 1}
  }

  /** Without a put under way the search ends at the oldest record or, if there is none, at the tail. */
  lemma IdleSearch(s: State, l: seq<Segment>, conflict: nat)
    requires Inv(s, l) && s.writer.Idle?
    ensures var k := FirstRecord(l);
            if k < |l| then
              && Search(s.c, s.mem, s.head, s.tail, conflict) == Found(l[k].at, |l[k].msg|)
              && Addr(s.c, l[k].at) + HEADER + |l[k].msg| <= |s.mem|
              && Slice(s.mem, Addr(s.c, l[k].at) + HEADER, |l[k].msg|) == l[k].msg
              && 0 < |l[k].msg| && AddPos(s.c, l[k].at, NumNodes(s.c, |l[k].msg|)) < s.c.Ring()
            else Search(s.c, s.mem, s.head, s.tail, conflict) == AtTail(s.tail)
  {
    hide Search;
    hide Chain;
    hide Get32;
    hide Addr;
    hide NumNodes;
    var k := FirstRecord(l);
    SearchFinds(s.c, s.mem, l, s.head, s.tail, s.tail, conflict);
    if k < |l| {
      var pos := ChainDrop(s.c, s.mem, l, s.head, s.tail, k);
      PayloadInside(s.c, pos, |l[k].msg|);
      AddPosIsAhead(s.c, pos, NumNodes(s.c, |l[k].msg|));
    } else {
      SearchAtTail(s.c, s.mem, s.tail, conflict);
    }
  }

  lemma SearchAtTail(c: Config, m: seq<byte>, tail: nat, conflict: nat)
    requires c.Ok() && tail < c.Ring()
    ensures Search(c, m, tail, tail, conflict) == AtTail(tail)
  {
  }

  /** The ring with the first nodes released, and its contents without the oldest message. */
  ghost function Released(s: State, newHead: nat, l: seq<Segment>): State
    requires WellFormed(s) && newHead < s.c.Ring()
  {
    State(s.c, ClearTokens(s.c, s.mem, s.head, newHead), newHead, s.tail, Idle, [0], Messages(l), [])
  }

  lemma HistoryFree(s: State, l: seq<Segment>)
    requires Inv(s, l)
    ensures Inv(s.(published := Messages(l), received := []), l)
  {
  }

  /** The state an uninterrupted sq_get leaves behind is again consistent. */
  lemma AfterGet(s: State, l: seq<Segment>, bufSize: nat)
    requires Inv(s, l) && s.writer.Idle? && |s.conflicts| == 1 && bufSize >= 1 && FirstRecord(l) < |l|
    requires |l[FirstRecord(l)].msg| <= bufSize
    ensures var k := FirstRecord(l);
            var next := AddPos(s.c, l[k].at, NumNodes(s.c, |l[k].msg|));
            next < s.c.Ring() && Inv(Released(s, next, l[k + 1..]), l[k + 1..])
  {
    hide Inv;
    hide Search;
    hide ClearTokens;
    hide NumNodes;
    hide AddPos;
    hide Messages;
    InvParts(s, l);
    IdleSearch(s, l, 0);
    IdleSearch(s, l, s.conflicts[0]);
    GetRecord(s, l, 0, bufSize);
    var t := Step(s, Get(0, bufSize));
    assert t.conflicts == [0];
    HistoryFree(t, l[FirstRecord(l) + 1..]);
  }

  lemma AfterEmptyGet(s: State, l: seq<Segment>, bufSize: nat)
    requires Inv(s, l) && s.writer.Idle? && |s.conflicts| == 1 && bufSize >= 1 && FirstRecord(l) == |l|
    ensures Inv(Released(s, s.tail, []), [])
  {
    hide Inv;
    hide Search;
    hide ClearTokens;
    hide Messages;
    InvParts(s, l);
    IdleSearch(s, l, 0);
    IdleSearch(s, l, s.conflicts[0]);
    GetNothing(s, l, 0, bufSize);
    var t := Step(s, Get(0, bufSize));
    assert t.conflicts == [0];
    HistoryFree(t, []);
  }

  lemma SmallWord(v: nat)
    requires v < WORD32
    ensures v % WORD32 == v
  {
  }

  lemma MarkRange(s: State, l: seq<Segment>)
    requires Inv(s, l) && s.writer.Marking?
    ensures s.c.Ok() && s.writer.pos < s.c.Ring() && Enabled(s, MarkSkipped)
  {
  }

  lemma FillRange(s: State, l: seq<Segment>)
    requires Inv(s, l) && s.writer.Filling?
    ensures s.c.Ok() && WellFormed(s) && 0 < |s.writer.msg| < WORD32
    ensures Addr(s.c, s.writer.idx) + HEADER + |s.writer.msg| <= |s.mem|
  {
    RecordBounds(s);
  }

  lemma PublishedAreLive(s: State, l: seq<Segment>)
    requires Inv(s, l) && s.received == []
    ensures s.published == Messages(l)
  {
  }
}
