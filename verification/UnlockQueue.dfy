/**
 The lock-free single-producer, single-consumer byte ring.

 `Put` and `Get` are split into the steps another thread can observe: sampling the other
 side's index, copying one byte of the two memcpy calls (in any order), and committing the
 own index. `accepted` and `delivered` record, besides the machine fields, the bytes whose
 Put or Get has committed.
 */
module UnlockQueue {
  import opened Arithmetic

  // ---------------------------------------------------------------- size of the ring

  /** r is the least power of two that is not below n. */
  ghost predicate IsLeastPow2(r: nat, n: nat) {
    IsPow2(r) && n <= r && forall k: nat :: n <= Pow2(k) ==> r <= Pow2(k)
  }

  /** The search for the highest set bit, from the top of the word downwards. */
  method HighestBit(val: nat, maxulong: nat, ghost top: nat) returns (andv: nat)
    requires 0 < val <= maxulong == 2 * Pow2(top) - 1
    ensures IsPow2(andv) && andv <= val < 2 * andv
  {
    TopBit(maxulong, top);
    andv := maxulong - BitAnd(maxulong, maxulong / 2);
    ghost var k := top;
    while BitAnd(andv, val) == 0
      invariant andv == Pow2(k)
      invariant val < 2 * Pow2(k)
      decreases k
    {
      AndBit(k, val);
      TopBitClear(val, Pow2(k));
      andv := andv / 2;
      k := k - 1;
    }
    AndBit(k, val);
    if val < Pow2(k) { ModUnique(val, Pow2(k), 0, val); }
  }

  lemma TopBit(maxulong: nat, top: nat)
    requires maxulong == 2 * Pow2(top) - 1
    ensures BitAnd(maxulong, maxulong / 2) == maxulong - Pow2(top)
  {
  }

  lemma WordTop() returns (top: nat)
    ensures WORD64 == 2 * Pow2(top)
  {
    Pow2Words();
    top := 63;
  }

  lemma DoubledBitIsLeast(bit: nat, val: nat)
    requires IsPow2(bit) && bit <= val < 2 * bit && !IsPow2(val)
    ensures bit < val
    ensures IsLeastPow2(2 * bit, val)
  {
    var k: nat :| bit == Pow2(k);
    assert 2 * bit == Pow2(k + 1);
    forall j: nat | val <= Pow2(j) ensures 2 * bit <= Pow2(j) {
      if j <= k { Pow2Monotone(j, k); } else { Pow2Monotone(k + 1, j); }
    }
  }

  /** unsigned long arithmetic: the result for arguments above 2^63 is the wrapped shift. */
  method RoundupPowerOfTwo(val: nat) returns (r: nat)
    requires val < WORD64
    ensures 0 < val <= 0x8000_0000_0000_0000 ==> IsLeastPow2(r, val)
    ensures val == 0 || val > 0x8000_0000_0000_0000 ==> r == 0
  {
    PassesBitTest(val);
    if BitAnd(val, (val - 1) % WORD64) == 0 {
      return val;
    }
    ghost var top := WordTop();
    var andv := HighestBit(val, WORD64 - 1, top);
    DoubledBitIsLeast(andv, val);
    HalfWord(andv, val);
    r := andv * 2 % WORD64;
  }

  lemma PassesBitTest(val: nat)
    requires val < WORD64
    ensures val == 0 ==> BitAnd(val, (val - 1) % WORD64) == 0
    ensures val > 0 ==> (BitAnd(val, (val - 1) % WORD64) == 0 <==> IsPow2(val))
    ensures val > 0 && IsPow2(val) ==> IsLeastPow2(val, val) && val <= 0x8000_0000_0000_0000
  {
    if val > 0 {
      SingleBitTest(val);
      assert (val - 1) % WORD64 == val - 1;
      if IsPow2(val) {
        NoHighPow2(val);
        LeastOfItself(val);
      }
    }
  }

  /** The doubled bit leaves the word exactly when the argument is above 2^63. */
  lemma HalfWord(bit: nat, val: nat)
    requires IsPow2(bit) && bit < val < 2 * bit && val < WORD64
    ensures val > 0x8000_0000_0000_0000 <==> bit == 0x8000_0000_0000_0000
    ensures bit <= 0x8000_0000_0000_0000
  {
    Pow2Words();
    var k: nat :| bit == Pow2(k);
    if k >= 64 { Pow2Monotone(64, k); } else if k < 63 { Pow2Monotone(k, 63); }
  }

  lemma TopBitClear(val: nat, p: nat)
    requires p > 0 && val < 2 * p && val / p % 2 == 0
    ensures val < p
  {
  }

  /** A ring size the constructor can produce. */
  ghost predicate RingSize(size: nat) {
    size == 0 || exists e: nat :: e <= 31 && size == Pow2(e)
  }

  /** Position of the n-th byte ever accepted. */
  function Slot(n: nat, size: nat): (p: nat)
    ensures size > 0 ==> p < size
  {
    if size == 0 then 0 else n % size
  }

  /** The masked 32-bit counter is the slot of the true count, however often it wrapped. */
  lemma MaskedCounter(n: nat, size: nat)
    requires RingSize(size) && size > 0
    ensures BitAnd(n % WORD32, size - 1) == Slot(n, size)
  {
    var e: nat :| e <= 31 && size == Pow2(e);
    Pow2Words();
    Pow2Divides(e, 32);
    var c: nat :| c > 0 && WORD32 == size * c;
    ModOfMod(n, size, c);
    AndMask(n % WORD32, e);
  }

  // ---------------------------------------------------------------- unsigned expressions of Put and Get

  function FreeSpace(size: nat, nIn: nat, nOut: nat): (r: nat) { (size - nIn + nOut) % WORD32 }

  function DataLen(nIn: nat, nOut: nat): (r: nat) { (nIn - nOut) % WORD32 }

  function Masked(counter: nat, size: nat): (r: nat) { BitAnd(counter, (size - 1) % WORD32) }

  /** Bytes the first memcpy moves; the rest starts again at the beginning of the buffer. */
  function FirstPart(len: nat, counter: nat, size: nat): (r: nat) {
    Min(len, (size - Masked(counter, size)) % WORD32)
  }

  /** Address the k-th byte of a Put or Get is copied to or from. */
  function Address(k: nat, first: nat, counter: nat, size: nat): (r: nat)
  {
    if k < first then Masked(counter, size) + k else k - first
  }

  /** The masked counter and the split of a copy, in terms of the true count n. */
  lemma PartsFit(len: nat, n: nat, counter: nat, size: nat)
    requires RingSize(size) && len <= size && size > 0 && counter == n % WORD32
    ensures Masked(counter, size) == n % size
    ensures FirstPart(len, counter, size) == Min(len, size - n % size)
  {
    MaskIs(n, size);
    SizeBound(size);
    SmallMod(size - n % size);
  }

  lemma MaskIs(n: nat, size: nat)
    requires RingSize(size) && size > 0
    ensures Masked(n % WORD32, size) == n % size
  {
    SizeBound(size);
    SmallMod(size - 1);
    MaskedCounter(n, size);
  }

  lemma SmallMod(x: nat)
    requires x < WORD32
    ensures x % WORD32 == x
  {
  }

  /** The two-part copy visits the slots that follow the counter, wrapping once at most. */
  lemma AddressIsSlot(k: nat, len: nat, n: nat, size: nat)
    requires RingSize(size) && k < len <= size
    ensures Address(k, FirstPart(len, n % WORD32, size), n % WORD32, size) == Slot(n + k, size)
  {
    PartsFit(len, n, n % WORD32, size);
    SlotAdvance(n, k, size);
  }

  lemma CounterDifference(n: nat, m: nat)
    requires m <= n && n - m < WORD32
    ensures DataLen(n % WORD32, m % WORD32) == n - m
  {
  }

  lemma FreeDifference(size: nat, n: nat, m: nat)
    requires m <= n <= m + size && size < WORD32
    ensures FreeSpace(size, n % WORD32, m % WORD32) == size - (n - m)
  {
  }

  // ---------------------------------------------------------------- the step system

  datatype Producer = PutIdle | Putting(data: seq<byte>, first: nat, copied: set<nat>)
  datatype Consumer = GetIdle | Getting(first: nat, got: seq<byte>, copied: set<nat>)

  datatype State = State(
    size: nat, buffer: seq<byte>, nIn: nat, nOut: nat,
    producer: Producer, consumer: Consumer,
    accepted: seq<byte>, delivered: seq<byte>)

  datatype Action =
    | PutSample(bytes: seq<byte>)
    | PutByte(k: nat)
    | PutCommit
    | GetSample(len: nat)
    | GetByte(k: nat)
    | GetCommit

  predicate Enabled(s: State, a: Action) {
    match a
    case PutSample(bytes) => s.producer.PutIdle? && |bytes| < WORD32
    case PutByte(k) => s.producer.Putting? && k < |s.producer.data| && k !in s.producer.copied
    case PutCommit => s.producer.Putting? && forall k :: 0 <= k < |s.producer.data| ==> k in s.producer.copied
    case GetSample(len) => s.consumer.GetIdle? && len < WORD32
    case GetByte(k) => s.consumer.Getting? && k < |s.consumer.got| && k !in s.consumer.copied
    case GetCommit => s.consumer.Getting? && forall k :: 0 <= k < |s.consumer.got| ==> k in s.consumer.copied
  }

  /** The longest prefix of at most n bytes. */
  function Front(bytes: seq<byte>, n: int): (r: seq<byte>) {
    if n < 0 then [] else bytes[..Min(|bytes|, n)]
  }

  function Store(buffer: seq<byte>, at: nat, b: byte): (r: seq<byte>) {
    if at < |buffer| then buffer[at := b] else buffer
  }

  function Load(buffer: seq<byte>, at: nat): byte {
    if at < |buffer| then buffer[at] else 0
  }

  function Step(s: State, a: Action): State
    requires Enabled(s, a)
  {
    match a
    case PutSample(bytes) =>
      var len := Min(|bytes|, FreeSpace(s.size, s.nIn, s.nOut));
      s.(producer := Putting(bytes[..len], FirstPart(len, s.nIn, s.size), {}))
    case PutByte(k) =>
      var p := s.producer;
      s.(buffer := Store(s.buffer, Address(k, p.first, s.nIn, s.size), p.data[k]),
         producer := p.(copied := p.copied + {k}))
    case PutCommit =>
      s.(nIn := (s.nIn + |s.producer.data|) % WORD32,
         accepted := s.accepted + s.producer.data,
         producer := PutIdle)
    case GetSample(len) =>
      var n := Min(len, DataLen(s.nIn, s.nOut));
      s.(consumer := Getting(FirstPart(n, s.nOut, s.size), seq(n, _ => 0), {}))
    case GetByte(k) =>
      var c := s.consumer;
      s.(consumer := c.(got := c.got[k := Load(s.buffer, Address(k, c.first, s.nOut, s.size))],
                        copied := c.copied + {k}))
    case GetCommit =>
      s.(nOut := (s.nOut + |s.consumer.got|) % WORD32,
         delivered := s.delivered + s.consumer.got,
         consumer := GetIdle)
  }

  /** A queue right after construction with the given rounded size and Initialize. */
  ghost predicate Init(s: State) {
    && RingSize(s.size) && |s.buffer| == s.size
    && s.nIn == s.nOut == 0
    && s.producer.PutIdle? && s.consumer.GetIdle?
    && s.accepted == s.delivered == []
  }

  // ---------------------------------------------------------------- invariant

  ghost predicate Indices(s: State) {
    && RingSize(s.size) && |s.buffer| == s.size
    && |s.delivered| <= |s.accepted| <= |s.delivered| + s.size
    && s.nIn == |s.accepted| % WORD32
    && s.nOut == |s.delivered| % WORD32
  }

  /** Every committed, undelivered byte is in its slot. */
  ghost predicate UnreadKept(s: State)
    requires Indices(s)
  {
    forall i :: |s.delivered| <= i < |s.accepted| ==> s.buffer[Slot(i, s.size)] == s.accepted[i]
  }

  ghost predicate ProducerOk(s: State)
    requires Indices(s)
  {
    s.producer.Putting? ==>
      var p := s.producer;
      var n := |s.accepted|;
      && n + |p.data| <= |s.delivered| + s.size
      && p.first == FirstPart(|p.data|, s.nIn, s.size)
      && forall k: nat :: k in p.copied ==> k < |p.data| && s.buffer[Slot(n + k, s.size)] == p.data[k]
  }

  ghost predicate ConsumerOk(s: State)
    requires Indices(s)
  {
    s.consumer.Getting? ==>
      var c := s.consumer;
      var n := |s.delivered|;
      && n + |c.got| <= |s.accepted|
      && c.first == FirstPart(|c.got|, s.nOut, s.size)
      && forall k: nat :: k in c.copied ==> k < |c.got| && c.got[k] == s.accepted[n + k]
  }

  ghost predicate Inv(s: State) {
    && Indices(s)
    && s.delivered == s.accepted[..|s.delivered|]
    && UnreadKept(s) && ProducerOk(s) && ConsumerOk(s)
  }

  lemma SizeBound(size: nat)
    requires RingSize(size)
    ensures size <= 0x8000_0000 < WORD32
  {
    Pow2Words();
    if size > 0 {
      var e: nat :| e <= 31 && size == Pow2(e);
      Pow2Monotone(e, 31);
    }
  }

  /** What each side samples: the true fill level and the true free space at that moment. */
  lemma SampledLengths(s: State)
    requires Indices(s)
    ensures DataLen(s.nIn, s.nOut) == |s.accepted| - |s.delivered| <= s.size
    ensures FreeSpace(s.size, s.nIn, s.nOut) == s.size - (|s.accepted| - |s.delivered|)
  {
    SizeBound(s.size);
    CounterDifference(|s.accepted|, |s.delivered|);
    FreeDifference(s.size, |s.accepted|, |s.delivered|);
  }

  /** The slot a running Put writes is not the slot of any unread byte nor of another byte of the same Put. */
  lemma PutByteSlot(s: State, k: nat)
    requires Inv(s) && Enabled(s, PutByte(k))
    ensures Address(k, s.producer.first, s.nIn, s.size) == Slot(|s.accepted| + k, s.size) < |s.buffer|
    ensures forall i :: |s.delivered| <= i < |s.accepted| + |s.producer.data| && i != |s.accepted| + k
                ==> Slot(i, s.size) != Slot(|s.accepted| + k, s.size)
  {
    var n := |s.accepted|;
    AddressIsSlot(k, |s.producer.data|, n, s.size);
    forall i | |s.delivered| <= i < n + |s.producer.data| && i != n + k
      ensures Slot(i, s.size) != Slot(n + k, s.size)
    {
      if i < n + k { SlotsDiffer(i, n + k, s.size); } else { SlotsDiffer(n + k, i, s.size); }
    }
  }

  lemma PutByteKeepsUnread(s: State, k: nat)
    requires Inv(s) && Enabled(s, PutByte(k))
    ensures Indices(Step(s, PutByte(k))) && UnreadKept(Step(s, PutByte(k)))
  {
    PutByteSlot(s, k);
    var t := Step(s, PutByte(k));
    forall i | |s.delivered| <= i < |s.accepted| ensures t.buffer[Slot(i, t.size)] == t.accepted[i] {
      assert s.buffer[Slot(i, s.size)] == s.accepted[i];
    }
  }

  lemma PutByteKeepsCopied(s: State, k: nat, j: nat)
    requires Inv(s) && Enabled(s, PutByte(k))
    requires j in s.producer.copied + {k}
    ensures j < |s.producer.data| && Slot(|s.accepted| + j, s.size) < |s.buffer|
    ensures Step(s, PutByte(k)).buffer[Slot(|s.accepted| + j, s.size)] == s.producer.data[j]
  {
    PutByteSlot(s, k);
    if j != k {
      assert s.buffer[Slot(|s.accepted| + j, s.size)] == s.producer.data[j];
      assert Slot(|s.accepted| + j, s.size) != Slot(|s.accepted| + k, s.size);
    }
  }

  lemma PutBytePreserves(s: State, k: nat)
    requires Inv(s) && Enabled(s, PutByte(k))
    ensures Inv(Step(s, PutByte(k)))
  {
    PutByteKeepsUnread(s, k);
    var t := Step(s, PutByte(k));
    forall j: nat | j in t.producer.copied
      ensures j < |t.producer.data| && t.buffer[Slot(|t.accepted| + j, t.size)] == t.producer.data[j]
    {
      PutByteKeepsCopied(s, k, j);
    }
    assert ConsumerOk(t);
  }

  lemma GetBytePreserves(s: State, k: nat)
    requires Inv(s) && Enabled(s, GetByte(k))
    ensures Inv(Step(s, GetByte(k)))
  {
    var t := Step(s, GetByte(k));
    var n := |s.delivered|;
    AddressIsSlot(k, |s.consumer.got|, n, s.size);
    assert s.buffer[Slot(n + k, s.size)] == s.accepted[n + k];
    assert t.consumer.got[k] == s.accepted[n + k];
  }

  lemma AdvanceCounter(n: nat, len: nat)
    ensures (n % WORD32 + len) % WORD32 == (n + len) % WORD32
  {
  }

  /** A finished copy fills exactly the slots that the commit turns into unread ones. */
  lemma CopiedIsAccepted(s: State)
    requires Inv(s) && Enabled(s, PutCommit)
    ensures |s.accepted| + |s.producer.data| <= |s.delivered| + s.size
    ensures forall i :: |s.delivered| <= i < |s.accepted| + |s.producer.data| ==>
              s.buffer[Slot(i, s.size)] == (s.accepted + s.producer.data)[i]
  {
    var n := |s.accepted|;
    forall i | |s.delivered| <= i < n + |s.producer.data|
      ensures s.buffer[Slot(i, s.size)] == (s.accepted + s.producer.data)[i]
    {
      if i < n {
        assert s.buffer[Slot(i, s.size)] == s.accepted[i];
      } else {
        var k := i - n;
        assert k in s.producer.copied;
        assert s.buffer[Slot(n + k, s.size)] == s.producer.data[k];
      }
    }
  }

  lemma PutCommitKeepsUnread(s: State)
    requires Inv(s) && Enabled(s, PutCommit)
    ensures Indices(Step(s, PutCommit)) && UnreadKept(Step(s, PutCommit))
  {
    AdvanceCounter(|s.accepted|, |s.producer.data|);
    CopiedIsAccepted(s);
  }

  lemma PutCommitPreserves(s: State)
    requires Inv(s) && Enabled(s, PutCommit)
    ensures Inv(Step(s, PutCommit))
  {
    PutCommitKeepsUnread(s);
    var t := Step(s, PutCommit);
    assert ConsumerOk(t) by {
      if t.consumer.Getting? {
        forall k: nat | k in t.consumer.copied
          ensures k < |t.consumer.got| && t.consumer.got[k] == t.accepted[|t.delivered| + k]
        {
          assert s.consumer.got[k] == s.accepted[|s.delivered| + k];
        }
      }
    }
  }

  lemma GetCommitPreserves(s: State)
    requires Inv(s) && Enabled(s, GetCommit)
    ensures Inv(Step(s, GetCommit))
  {
    var t := Step(s, GetCommit);
    var n := |s.delivered|;
    var g := s.consumer.got;
    AdvanceCounter(n, |g|);
    GotIsNext(s);
    forall i | |t.delivered| <= i < |t.accepted| ensures t.buffer[Slot(i, t.size)] == t.accepted[i] {
      assert s.buffer[Slot(i, s.size)] == s.accepted[i];
    }
    assert ProducerOk(t);
  }

  /** A finished copy holds exactly the next unread bytes. */
  lemma GotIsNext(s: State)
    requires Inv(s) && Enabled(s, GetCommit)
    ensures |s.delivered| + |s.consumer.got| <= |s.accepted|
    ensures s.delivered + s.consumer.got == s.accepted[..|s.delivered| + |s.consumer.got|]
  {
  }

  lemma PutSamplePreserves(s: State, bytes: seq<byte>)
    requires Inv(s) && Enabled(s, PutSample(bytes))
    ensures Inv(Step(s, PutSample(bytes)))
  {
    SampledLengths(s);
    var t := Step(s, PutSample(bytes));
    assert Indices(t) && UnreadKept(t) && ConsumerOk(t);
    assert ProducerOk(t);
  }

  lemma GetSamplePreserves(s: State, len: nat)
    requires Inv(s) && Enabled(s, GetSample(len))
    ensures Inv(Step(s, GetSample(len)))
  {
    SampledLengths(s);
    var t := Step(s, GetSample(len));
    assert Indices(t) && UnreadKept(t) && ProducerOk(t);
    assert ConsumerOk(t);
  }

  lemma StepPreserves(s: State, a: Action)
    requires Inv(s) && Enabled(s, a)
    ensures Inv(Step(s, a))
  {
    match a
    case PutSample(bytes) => PutSamplePreserves(s, bytes);
    case PutByte(k) => PutBytePreserves(s, k);
    case PutCommit => PutCommitPreserves(s);
    case GetSample(len) => GetSamplePreserves(s, len);
    case GetByte(k) => GetBytePreserves(s, k);
    case GetCommit => GetCommitPreserves(s);
  }

  // ---------------------------------------------------------------- runs

  /** t is reached from s by an interleaving of producer and consumer steps. */
  ghost predicate Reaches(s: State, run: seq<Action>, t: State)
    decreases |run|
  {
    if run == [] then s == t
    else Enabled(s, run[0]) && Reaches(Step(s, run[0]), run[1..], t)
  }

  lemma {:induction false} RunPreserves(s: State, run: seq<Action>, t: State)
    requires Inv(s) && Reaches(s, run, t)
    ensures Inv(t)
    decreases |run|
  {
    if run != [] {
      StepPreserves(s, run[0]);
      RunPreserves(Step(s, run[0]), run[1..], t);
    }
  }

  /** Main result: after any interleaving what was read is a prefix of what was written, the
      difference of the wrapped counters is the true fill level, and the bytes still owed are intact. */
  lemma FifoSafety(s: State, run: seq<Action>, t: State)
    requires Init(s) && Reaches(s, run, t)
    ensures t.delivered <= t.accepted
    ensures DataLen(t.nIn, t.nOut) == |t.accepted| - |t.delivered| <= s.size
    ensures forall i :: |t.delivered| <= i < |t.accepted| ==>
                0 <= Slot(i, s.size) < |t.buffer| && t.buffer[Slot(i, s.size)] == t.accepted[i]
  {
    assert Inv(s);
    RunPreserves(s, run, t);
    RunKeepsSize(s, run, t);
    SampledLengths(t);
    forall i | |t.delivered| <= i < |t.accepted|
      ensures 0 <= Slot(i, s.size) < |t.buffer| && t.buffer[Slot(i, s.size)] == t.accepted[i]
    {
      assert t.size > 0;
    }
  }

  lemma {:induction false} RunKeepsSize(s: State, run: seq<Action>, t: State)
    requires Reaches(s, run, t)
    ensures t.size == s.size
    decreases |run|
  {
    if run != [] {
      RunKeepsSize(Step(s, run[0]), run[1..], t);
    }
  }

  /** No step of either side changes a byte that is committed and not yet read. */
  lemma UnreadNeverOverwritten(s: State, a: Action, i: nat)
    requires Inv(s) && Enabled(s, a)
    requires |s.delivered| <= i < |s.accepted|
    ensures 0 <= Slot(i, s.size) < |s.buffer| == |Step(s, a).buffer|
    ensures Step(s, a).buffer[Slot(i, s.size)] == s.buffer[Slot(i, s.size)] == s.accepted[i]
  {
    assert s.size > 0;
    if a.PutByte? {
      PutByteSlot(s, a.k);
    }
  }

  /** Every address either side copies through lies inside the buffer. */
  lemma CopiesInBounds(s: State, run: seq<Action>, t: State, a: Action)
    requires Init(s) && Reaches(s, run, t) && Enabled(t, a)
    ensures a.PutByte? ==> Address(a.k, t.producer.first, t.nIn, t.size) < |t.buffer|
    ensures a.GetByte? ==> Address(a.k, t.consumer.first, t.nOut, t.size) < |t.buffer|
  {
    RunPreserves(s, run, t);
    if a.PutByte? {
      PutByteSlot(t, a.k);
    } else if a.GetByte? {
      AddressIsSlot(a.k, |t.consumer.got|, |t.delivered|, t.size);
    }
  }

  /** What one call transfers: a Put takes the longest prefix of its argument for which there
      was room when it sampled, a Get the longest front of the unread bytes it asked for. */
  lemma CallsTransferAllTheyCan(s: State, run: seq<Action>, t: State, bytes: seq<byte>, len: nat)
    requires Init(s) && Reaches(s, run, t)
    ensures Enabled(t, PutSample(bytes)) ==>
              Step(t, PutSample(bytes)).producer.data
              == Front(bytes, s.size - (|t.accepted| - |t.delivered|))
    ensures Enabled(t, GetSample(len)) ==>
              |Step(t, GetSample(len)).consumer.got| == Min(len, |t.accepted| - |t.delivered|)
    ensures Enabled(t, PutCommit) ==> Step(t, PutCommit).accepted == t.accepted + t.producer.data
    ensures Enabled(t, GetCommit) ==>
              var n := |t.delivered| + |t.consumer.got|;
              n <= |t.accepted| && Step(t, GetCommit).delivered == t.accepted[..n]
  {
    RunPreserves(s, run, t);
    RunKeepsSize(s, run, t);
    SampledLengths(t);
    if Enabled(t, GetCommit) {
      GotIsNext(t);
    }
  }

  /** A Put never claims more than the space free when it commits, even though it sampled earlier. */
  lemma PutNeverOverfills(s: State, run: seq<Action>, t: State)
    requires Init(s) && Reaches(s, run, t) && t.producer.Putting?
    ensures |t.producer.data| <= FreeSpace(t.size, t.nIn, t.nOut)
  {
    RunPreserves(s, run, t);
    SampledLengths(t);
  }

  /** A Get never takes more than is committed when it commits. */
  lemma GetNeverOverruns(s: State, run: seq<Action>, t: State)
    requires Init(s) && Reaches(s, run, t) && t.consumer.Getting?
    ensures |t.consumer.got| <= DataLen(t.nIn, t.nOut)
  {
    RunPreserves(s, run, t);
    SampledLengths(t);
  }

  // ---------------------------------------------------------------- the class, used from one thread

  /** `count` bytes of the ring starting at the slot of position `from`. */
  ghost function Span(ring: seq<byte>, from: nat, count: nat): (r: seq<byte>)
    requires count <= |ring|
    ensures |r| == count
    ensures forall i :: 0 <= i < count ==> r[i] == ring[Slot(from + i, |ring|)]
  {
    seq(count, i requires 0 <= i < count => ring[Slot(from + i, |ring|)])
  }

  /** The ring after the two memcpy calls of Put. */
  ghost function Copied(ring: seq<byte>, data: seq<byte>, at: nat, first: nat): (r: seq<byte>)
    requires first <= |data|
    ensures |r| == |ring|
    ensures forall p :: 0 <= p < |ring| ==>
              r[p] == if at <= p < at + first then data[p - at]
                      else if p < |data| - first then data[first + p] else ring[p]
  {
    seq(|ring|, p requires 0 <= p < |ring| =>
      if at <= p < at + first then data[p - at]
      else if p < |data| - first then data[first + p] else ring[p])
  }

  /** The two-part copy appends to the unread span and leaves it otherwise alone. */
  lemma CopyAppends(ring: seq<byte>, data: seq<byte>, n: nat, out: nat)
    requires |ring| > 0 && out <= n && n + |data| <= out + |ring|
    ensures Span(Copied(ring, data, n % |ring|, Min(|data|, |ring| - n % |ring|)), out, n - out + |data|)
         == Span(ring, out, n - out) + data
  {
    var size, len := |ring|, |data|;
    var at := n % size;
    var l := Min(len, size - at);
    var was, now := Span(ring, out, n - out) + data, Span(Copied(ring, data, at, l), out, n - out + len);
    forall i | 0 <= i < n - out + len ensures now[i] == was[i] {
      var p := Slot(out + i, size);
      if i >= n - out {
        SlotAdvance(n, i - (n - out), size);
      } else {
        if at <= p < at + l {
          SlotAdvance(n, p - at, size);
          SlotsDiffer(out + i, n + (p - at), size);
          assert false;
        }
        if p < len - l {
          SlotAdvance(n, l + p, size);
          SlotsDiffer(out + i, n + (l + p), size);
          assert false;
        }
      }
    }
  }

  lemma SpanSuffix(ring: seq<byte>, from: nat, count: nat, len: nat)
    requires len <= count <= |ring|
    ensures Span(ring, from, count)[..len] == Span(ring, from, len)
    ensures Span(ring, from, count)[len..] == Span(ring, from + len, count - len)
  {
  }

  lemma SpanOfWrapped(ring: seq<byte>, from: nat, count: nat)
    requires RingSize(|ring|) && count <= |ring|
    ensures Span(ring, from % WORD32, count) == Span(ring, from, count)
  {
    forall i | 0 <= i < count
      ensures Span(ring, from % WORD32, count)[i] == Span(ring, from, count)[i]
    {
      SlotOfWrapped(from, i, |ring|);
    }
  }

  method CopyIn(ring: array<byte>, bytes: array<byte>, at: nat, l: nat, len: nat)
    requires ring != bytes
    requires l <= len <= bytes.Length && at + l <= ring.Length && len - l <= at
    modifies ring
    ensures ring[..] == Copied(old(ring[..]), bytes[..len], at, l)
  {
    forall k | 0 <= k < l {
      ring[at + k] := bytes[k];
    }
    forall k | 0 <= k < len - l {
      ring[k] := bytes[l + k];
    }
    assert forall p :: at <= p < at + l ==> ring[p] == bytes[p - at] by {
      forall p | at <= p < at + l ensures ring[p] == bytes[p - at] {
        var k := p - at;
        assert ring[at + k] == bytes[k];
      }
    }
  }

  method CopyOut(ring: array<byte>, bytes: array<byte>, ghost out: nat, at: nat, l: nat, len: nat)
    requires ring != bytes && ring.Length > 0
    requires len <= bytes.Length && len <= ring.Length
    requires at == out % ring.Length && l == Min(len, ring.Length - at)
    modifies bytes
    ensures bytes[..len] == Span(ring[..], out, len)
    ensures bytes[len..] == old(bytes[len..])
  {
    forall k | 0 <= k < l {
      bytes[k] := ring[at + k];
    }
    forall k | 0 <= k < len - l {
      bytes[l + k] := ring[k];
    }
    forall k | 0 <= k < len ensures bytes[k] == Span(ring[..], out, len)[k] {
      SlotAdvance(out, k, ring.Length);
      if k >= l {
        assert bytes[l + (k - l)] == ring[k - l];
      }
    }
  }

  /** The member initialiser and the rounding of the constructor; nSize is a 32-bit int
      that both conversions sign-extend. */
  method RoundedSize(nSize: int) returns (size: nat)
    requires -0x8000_0000 <= nSize < 0x8000_0000
    ensures RingSize(size)
    ensures nSize > 0 ==> IsLeastPow2(size, nSize)
    ensures nSize <= 0 ==> size == 0
  {
    hide IsLeastPow2;
    hide RingSize;
    hide BitAnd;
    EmptyRing();
    size := nSize % WORD32;
    var n := nSize % WORD64;
    if nSize == 0 {
      return 0;
    }
    SignExtended(nSize);
    SingleBitTest(n);
    if BitAnd(n, n - 1) != 0 {
      var r := RoundupPowerOfTwo(n);
      if nSize > 0 { RequestFits(r, n); }
      size := r % WORD32;
    } else {
      NoHighPow2(n);
      LeastOfItself(n);
      RequestFits(n, n);
    }
  }

  lemma EmptyRing()
    ensures RingSize(0)
  {
  }

  lemma SignExtended(nSize: int)
    requires -0x8000_0000 <= nSize < 0x8000_0000
    ensures nSize >= 0 ==> nSize % WORD64 == nSize && nSize % WORD32 == nSize
    ensures nSize < 0 ==> nSize % WORD64 == nSize + WORD64
  {
  }

  lemma LeastOfItself(n: nat)
    requires IsPow2(n)
    ensures IsLeastPow2(n, n)
  {
  }

  lemma RequestFits(r: nat, n: nat)
    requires 0 < n < 0x8000_0000 && IsLeastPow2(r, n)
    ensures RingSize(r) && r <= 0x8000_0000
  {
    Pow2Words();
    var k: nat :| r == Pow2(k);
    if k > 31 { Pow2Monotone(32, k); }
  }

  lemma NoHighPow2(n: nat)
    requires IsPow2(n) && n < WORD64
    ensures n <= 0x8000_0000_0000_0000
  {
    Pow2Words();
    var k: nat :| n == Pow2(k);
    if k >= 64 { Pow2Monotone(64, k); } else { Pow2Monotone(k, 63); }
  }

  lemma NothingInSpan(ring: seq<byte>, n: nat)
    ensures Span(ring, n, 0) == []
  {
  }

  class Queue {
    var m_pBuffer: array<byte>
    var m_nSize: nat
    var m_nIn: nat
    var m_nOut: nat

    ghost predicate Valid()
      reads this, m_pBuffer
    {
      && RingSize(m_nSize) && m_pBuffer.Length == m_nSize
      && m_nIn < WORD32 && m_nOut < WORD32
      && DataLen(m_nIn, m_nOut) <= m_nSize
      && (m_nSize == 0 ==> m_nIn == m_nOut == 0)
    }

    ghost function Contents(): (r: seq<byte>)
      requires Valid()
      reads this, m_pBuffer
    {
      Span(m_pBuffer[..], m_nOut, DataLen(m_nIn, m_nOut))
    }

    /** The constructor followed by Initialize; a request that is not positive yields an empty ring. */
    constructor (nSize: int)
      requires -0x8000_0000 <= nSize < 0x8000_0000
      ensures Valid() && Contents() == [] && fresh(m_pBuffer)
      ensures nSize > 0 ==> IsLeastPow2(m_nSize, nSize)
      ensures nSize <= 0 ==> m_nSize == 0
    {
      var size := RoundedSize(nSize);
      m_nSize := size;
      m_pBuffer := new byte[size];
      m_nIn, m_nOut := 0, 0;
    }

    method Clean()
      requires Valid()
      modifies this`m_nIn, this`m_nOut
      ensures Valid() && Contents() == []
    {
      m_nIn, m_nOut := 0, 0;
    }

    method GetDataLen() returns (r: nat)
      requires Valid()
      ensures r == |Contents()|
    {
      r := (m_nIn - m_nOut) % WORD32;
    }

    method Put(bytes: array<byte>) returns (len: nat)
      requires Valid() && bytes.Length < WORD32 && bytes != m_pBuffer
      modifies this`m_nIn, m_pBuffer
      ensures Valid()
      ensures len == Min(bytes.Length, m_nSize - |old(Contents())|)
      ensures Contents() == old(Contents()) + bytes[..len]
    {
      hide Span;
      hide Copied;
      hide RingSize;
      ghost var fill := DataLen(m_nIn, m_nOut);
      ghost var n := m_nOut + fill;
      Rebase(m_nIn, m_nOut);
      FreeAndFill(m_nSize, m_nIn, m_nOut);
      len := Min(bytes.Length, FreeSpace(m_nSize, m_nIn, m_nOut));
      if m_nSize > 0 {
        CopyAppends(m_pBuffer[..], bytes[..len], n, m_nOut);
        WriteBack(m_pBuffer, bytes, m_nIn, len, n);
      } else {
        NothingInSpan(m_pBuffer[..], m_nOut);
      }
      Committed(m_nIn, m_nOut, len, m_nSize);
      m_nIn := (m_nIn + len) % WORD32;
    }

    method Get(bytes: array<byte>) returns (len: nat)
      requires Valid() && bytes.Length < WORD32 && bytes != m_pBuffer
      modifies this`m_nOut, bytes
      ensures Valid()
      ensures len == Min(bytes.Length, |old(Contents())|)
      ensures bytes[..len] == old(Contents())[..len] && bytes[len..] == old(bytes[len..])
      ensures Contents() == old(Contents())[len..]
    {
      ghost var ring, fill, out := m_pBuffer[..], DataLen(m_nIn, m_nOut), m_nOut;
      len := Min(bytes.Length, DataLen(m_nIn, m_nOut));
      AfterGet(ring, out, fill, len);
      Consumed(m_nIn, m_nOut, len, m_nSize);
      if m_nSize > 0 {
        ReadFront(m_pBuffer, bytes, m_nOut, len);
      }
      m_nOut := (m_nOut + len) % WORD32;
      assert m_pBuffer[..] == ring;
    }
  }

  /** The copying half of Put: the masked address and the two memcpy calls. */
  method WriteBack(ring: array<byte>, bytes: array<byte>, nIn: nat, len: nat, ghost n: nat)
    requires RingSize(ring.Length) && ring.Length > 0 && ring != bytes
    requires len <= bytes.Length && len <= ring.Length && nIn == n % WORD32
    modifies ring
    ensures ring[..] == Copied(old(ring[..]), bytes[..len], n % ring.Length, Min(len, ring.Length - n % ring.Length))
  {
    var at, l := Masked(nIn, ring.Length), FirstPart(len, nIn, ring.Length);
    PartsFit(len, n, nIn, ring.Length);
    CopyIn(ring, bytes, at, l, len);
  }

  /** The copying half of Get: the masked address and the two memcpy calls. */
  method ReadFront(ring: array<byte>, bytes: array<byte>, nOut: nat, len: nat)
    requires RingSize(ring.Length) && ring.Length > 0 && ring != bytes
    requires len <= bytes.Length && len <= ring.Length && nOut < WORD32
    modifies bytes
    ensures bytes[..len] == Span(ring[..], nOut, len)
    ensures bytes[len..] == old(bytes[len..])
  {
    var at, l := Masked(nOut, ring.Length), FirstPart(len, nOut, ring.Length);
    SmallMod(nOut);
    PartsFit(len, nOut, nOut, ring.Length);
    CopyOut(ring, bytes, nOut, at, l, len);
  }

  /** The contents after a Get are those before it without the bytes read. */
  lemma AfterGet(ring: seq<byte>, nOut: nat, fill: nat, len: nat)
    requires RingSize(|ring|) && len <= fill <= |ring|
    ensures Span(ring, nOut, fill)[..len] == Span(ring, nOut, len)
    ensures Span(ring, nOut, fill)[len..] == Span(ring, (nOut + len) % WORD32, fill - len)
  {
    SpanOfWrapped(ring, nOut + len, fill - len);
    SpanSuffix(ring, nOut, fill, len);
  }

  lemma Committed(nIn: nat, nOut: nat, len: nat, size: nat)
    requires RingSize(size) && nIn < WORD32 && nOut < WORD32 && DataLen(nIn, nOut) + len <= size
    ensures DataLen((nIn + len) % WORD32, nOut) == DataLen(nIn, nOut) + len
  {
    SizeBound(size);
    var fill := DataLen(nIn, nOut);
    Rebase(nIn, nOut);
    CommitArith(nOut, fill, len);
  }

  lemma CommitArith(nOut: nat, fill: nat, len: nat)
    requires nOut < WORD32 && fill + len < WORD32
    ensures (((nOut + fill) % WORD32 + len) % WORD32 - nOut) % WORD32 == fill + len
  {
  }

  lemma Consumed(nIn: nat, nOut: nat, len: nat, size: nat)
    requires RingSize(size) && nIn < WORD32 && nOut < WORD32 && len <= DataLen(nIn, nOut) <= size
    ensures DataLen(nIn, (nOut + len) % WORD32) == DataLen(nIn, nOut) - len
  {
    Rebase(nIn, nOut);
    SizeBound(size);
    CounterDifference(nOut + DataLen(nIn, nOut), nOut + len);
  }

  lemma FreeAndFill(size: nat, nIn: nat, nOut: nat)
    requires RingSize(size) && nIn < WORD32 && nOut < WORD32 && DataLen(nIn, nOut) <= size
    ensures FreeSpace(size, nIn, nOut) == size - DataLen(nIn, nOut)
  {
    SizeBound(size);
    FreeArith(size, nIn, nOut);
  }

  lemma FreeArith(size: nat, nIn: nat, nOut: nat)
    requires size < WORD32 && nIn < WORD32 && nOut < WORD32 && (nIn - nOut) % WORD32 <= size
    ensures (size - nIn + nOut) % WORD32 == size - (nIn - nOut) % WORD32
  {
  }

  lemma Rebase(nIn: nat, nOut: nat)
    requires nIn < WORD32 && nOut < WORD32
    ensures (nOut + DataLen(nIn, nOut)) % WORD32 == nIn
  {
  }

  lemma SlotOfWrapped(n: nat, i: nat, size: nat)
    requires RingSize(size) && size > 0 && i < size
    ensures Slot(n % WORD32 + i, size) == Slot(n + i, size)
  {
    var e: nat :| e <= 31 && size == Pow2(e);
    Pow2Words();
    Pow2Divides(e, 32);
    var c: nat :| c > 0 && WORD32 == size * c;
    ModOfMod(n, size, c);
    SlotAdvance(n, i, size);
    SlotAdvance(n % WORD32, i, size);
  }
}
