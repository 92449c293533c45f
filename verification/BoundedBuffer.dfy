/**
 The bounded buffer guarded by one mutex and two condition variables, for any capacity and any
 number of producers and customers, as a system of the steps other threads can observe.
 */
module BoundedBuffer {

  datatype Role = Producer | Customer

  /** Ready: about to lock; Woken: out of the wait set, about to relock; Checking: holds the lock at
      the while test; Waiting: in the wait set of its condition; Signalling: has changed the store and
      is about to broadcast; Leaving: about to unlock. */
  datatype Pc = Ready | Woken | Checking | Waiting | Signalling | Leaving | Finished

  /** quota is the number of turns of the for loop, left those not completed. */
  datatype Thread = Thread(role: Role, quota: nat, left: nat, pc: Pc)

  datatype State = State(
    store: seq<int>, size: int, owner: int, threads: seq<Thread>,
    pushed: seq<int>, popped: seq<int>)

  const NOBODY := -1

  datatype Action = Lock(t: nat) | Wait(t: nat) | Work(t: nat) | Broadcast(t: nat) | Unlock(t: nat) | Spurious(t: nat)

  function Capacity(s: State): nat { |s.store| }

  /** The while condition under which a thread waits. */
  predicate Blocked(s: State, r: Role) {
    if r.Producer? then s.size == Capacity(s) else s.size == 0
  }

  predicate Holds(t: Thread) {
    t.pc.Checking? || t.pc.Signalling? || t.pc.Leaving?
  }

  predicate Enabled(s: State, a: Action) {
    a.t < |s.threads| &&
    var th := s.threads[a.t];
    match a
    case Lock(_) => s.owner == NOBODY && (th.pc.Ready? || th.pc.Woken?)
    case Wait(_) => s.owner == a.t && th.pc.Checking? && Blocked(s, th.role)
    case Work(_) => s.owner == a.t && th.pc.Checking? && !Blocked(s, th.role)
                    && (if th.role.Producer? then 0 <= s.size < |s.store| else 0 < s.size <= |s.store|)
    case Broadcast(_) => s.owner == a.t && th.pc.Signalling?
    case Unlock(_) => s.owner == a.t && th.pc.Leaving? && th.left > 0
    case Spurious(_) => th.pc.Waiting?
  }

  /** Broadcast by a producer wakes the waiting customers and the other way round. */
  function Wake(threads: seq<Thread>, waker: Role): (r: seq<Thread>)
    ensures |r| == |threads|
    ensures forall i :: 0 <= i < |threads| ==>
              r[i] == if threads[i].pc.Waiting? && threads[i].role != waker then threads[i].(pc := Woken)
                      else threads[i]
  {
    if threads == [] then []
    else
      var first := threads[0];
      [if first.pc.Waiting? && first.role != waker then first.(pc := Woken) else first] + Wake(threads[1..], waker)
  }

  function Step(s: State, a: Action): State
    requires Enabled(s, a)
  {
    var th := s.threads[a.t];
    match a
    case Lock(t) => s.(owner := t, threads := s.threads[t := th.(pc := Checking)])
    case Wait(t) => s.(owner := NOBODY, threads := s.threads[t := th.(pc := Waiting)])
    case Work(t) =>
      var threads := s.threads[t := th.(pc := Signalling)];
      if th.role.Producer? then
        var c := th.quota - th.left;
        s.(store := s.store[s.size := c], size := s.size + 1, threads := threads, pushed := s.pushed + [c])
      else
        s.(size := s.size - 1, threads := threads, popped := s.popped + [s.store[s.size - 1]])
    case Broadcast(t) => s.(threads := Wake(s.threads[t := th.(pc := Leaving)], th.role))
    case Unlock(t) =>
      s.(owner := NOBODY,
         threads := s.threads[t := th.(left := th.left - 1, pc := if th.left == 1 then Finished else Ready)])
    case Spurious(t) => s.(threads := s.threads[t := th.(pc := Woken)])
  }

  // ---------------------------------------------------------------- sums over threads

  /** Pushes or pops the thread has still to make. */
  function Todo(t: Thread): nat {
    if (t.pc.Signalling? || t.pc.Leaving?) && t.left > 0 then t.left - 1 else t.left
  }

  function Share(t: Thread, r: Role): nat { if t.role == r then Todo(t) else 0 }

  function Total(threads: seq<Thread>, r: Role): nat {
    if threads == [] then 0 else Share(threads[0], r) + Total(threads[1..], r)
  }

  lemma {:induction false} TotalUpdate(threads: seq<Thread>, i: nat, t: Thread, r: Role)
    requires i < |threads|
    ensures Total(threads[i := t], r) + Share(threads[i], r) == Total(threads, r) + Share(t, r)
    decreases |threads|
  {
    if i == 0 {
      assert threads[0 := t][1..] == threads[1..];
    } else {
      TotalUpdate(threads[1..], i - 1, t, r);
      assert threads[i := t][1..] == threads[1..][i - 1 := t];
    }
  }

  lemma {:induction false} TotalWake(threads: seq<Thread>, waker: Role, r: Role)
    ensures Total(Wake(threads, waker), r) == Total(threads, r)
    decreases |threads|
  {
    if threads != [] {
      TotalWake(threads[1..], waker, r);
      assert Wake(threads, waker)[1..] == Wake(threads[1..], waker);
    }
  }

  lemma {:induction false} TotalAtLeast(threads: seq<Thread>, i: nat, r: Role)
    requires i < |threads|
    ensures Total(threads, r) >= Share(threads[i], r)
    decreases |threads|
  {
    if i > 0 { TotalAtLeast(threads[1..], i - 1, r); }
  }

  lemma {:induction false} TotalZero(threads: seq<Thread>, r: Role)
    requires forall i :: 0 <= i < |threads| ==> Share(threads[i], r) == 0
    ensures Total(threads, r) == 0
    decreases |threads|
  {
    if threads != [] { TotalZero(threads[1..], r); }
  }

  // ---------------------------------------------------------------- invariant

  /** A thread is finished exactly when no turns are left. */
  predicate ThreadOk(t: Thread) {
    t.left <= t.quota && (t.pc.Finished? <==> t.left == 0)
  }

  ghost predicate LockOk(s: State) {
    && -1 <= s.owner < |s.threads|
    && (forall i :: 0 <= i < |s.threads| ==> ThreadOk(s.threads[i]) && (Holds(s.threads[i]) <==> s.owner == i))
  }

  /** A thread of this role has changed the store and not yet told the others. */
  predicate Pending(s: State, r: Role) {
    0 <= s.owner < |s.threads| && s.threads[s.owner].role == r && s.threads[s.owner].pc.Signalling?
  }

  /** No thread waits for something that has happened, unless the broadcast is about to come. */
  ghost predicate WaitersJustified(s: State) {
    forall i :: 0 <= i < |s.threads| && s.threads[i].pc.Waiting? ==>
      if s.threads[i].role.Customer? then s.size == 0 || Pending(s, Producer)
      else s.size == Capacity(s) || Pending(s, Customer)
  }

  ghost predicate Balanced(s: State) {
    && 0 <= s.size <= Capacity(s) && Capacity(s) >= 1
    && |s.pushed| - |s.popped| == s.size
    && multiset(s.pushed) == multiset(s.popped) + multiset(s.store[..s.size])
  }

  /** What the store will hold when all turns are taken: pushes less pops, never changed by a step. */
  ghost function Surplus(s: State): int {
    s.size + Total(s.threads, Producer) - Total(s.threads, Customer)
  }

  ghost predicate Inv(s: State) {
    LockOk(s) && WaitersJustified(s) && Balanced(s)
  }

  /** Start of main: empty store, all threads created, with any numbers of pushes and pops to make. */
  ghost predicate Init(s: State) {
    && |s.store| >= 1 && s.size == 0 && s.owner == NOBODY && s.pushed == s.popped == []
    && (forall i :: 0 <= i < |s.threads| ==>
          s.threads[i].left == s.threads[i].quota
            && s.threads[i].pc == (if s.threads[i].quota == 0 then Finished else Ready))
  }

  lemma LockPreserved(s: State, a: Action)
    requires Inv(s) && Enabled(s, a)
    ensures LockOk(Step(s, a))
  {
    hide Balanced;
  }

  lemma WaitersPreserved(s: State, a: Action)
    requires Inv(s) && Enabled(s, a)
    ensures WaitersJustified(Step(s, a))
  {
  }

  lemma ThreadStepKeepsTotals(s: State, a: Action, r: Role)
    requires LockOk(s) && Enabled(s, a) && !a.Broadcast?
    ensures Total(Step(s, a).threads, r)
         == Total(s.threads, r) - (if a.Work? && s.threads[a.t].role == r then 1 else 0)
  {
    hide Total;
    TotalUpdate(s.threads, a.t, Step(s, a).threads[a.t], r);
    assert Step(s, a).threads == s.threads[a.t := Step(s, a).threads[a.t]];
  }

  lemma BroadcastKeepsTotals(s: State, t: nat, r: Role)
    requires LockOk(s) && Enabled(s, Broadcast(t))
    ensures Total(Step(s, Broadcast(t)).threads, r) == Total(s.threads, r)
  {
    hide Total;
    var th := s.threads[t];
    TotalUpdate(s.threads, t, th.(pc := Leaving), r);
    TotalWake(s.threads[t := th.(pc := Leaving)], th.role, r);
  }

  /** The letters of the store that count, the newest last. */
  function Held(s: State): seq<int>
    requires 0 <= s.size <= Capacity(s)
  {
    s.store[..s.size]
  }

  /** A customer's turn takes the newest letter of the store and nothing else. */
  lemma PopTakesTop(s: State, n: nat)
    requires Enabled(s, Work(n)) && 0 <= s.size <= Capacity(s) && s.threads[n].role.Customer?
    ensures var t := Step(s, Work(n));
            && 0 <= t.size <= Capacity(t) && |t.popped| == |s.popped| + 1
            && Held(s) == Held(t) + [t.popped[|s.popped|]]
            && t.popped == s.popped + [t.popped[|s.popped|]] && t.pushed == s.pushed
  {
    hide Wake;
  }

  /** A producer's turn puts its next letter on top of the store. */
  lemma PushOnTop(s: State, n: nat)
    requires Enabled(s, Work(n)) && 0 <= s.size <= Capacity(s) && s.threads[n].role.Producer?
    ensures var t, letter := Step(s, Work(n)), s.threads[n].quota - s.threads[n].left;
            && 0 <= t.size <= Capacity(t) && Held(t) == Held(s) + [letter]
            && t.pushed == s.pushed + [letter] && t.popped == s.popped
  {
    hide Wake;
  }

  /** Every other step leaves the store, the letters pushed and the letters popped alone. */
  lemma OthersLeaveStore(s: State, a: Action)
    requires Enabled(s, a) && !a.Work?
    ensures var t := Step(s, a);
            t.store == s.store && t.size == s.size && t.pushed == s.pushed && t.popped == s.popped
  {
    hide Wake;
  }

  /** A push adds its element on top of the store, a pop takes the top element. */
  lemma ContentsPreserved(s: State, n: nat)
    requires Enabled(s, Work(n)) && 0 <= s.size <= Capacity(s)
    requires multiset(s.pushed) == multiset(s.popped) + multiset(s.store[..s.size])
    ensures var t := Step(s, Work(n));
            0 <= t.size <= Capacity(t) && multiset(t.pushed) == multiset(t.popped) + multiset(t.store[..t.size])
  {
    if s.threads[n].role.Producer? { PushOnTop(s, n); } else { PopTakesTop(s, n); }
  }

  lemma BalancePreserved(s: State, a: Action)
    requires Inv(s) && Enabled(s, a)
    ensures Balanced(Step(s, a)) && Surplus(Step(s, a)) == Surplus(s)
  {
    hide Total;
    hide WaitersJustified;
    var t := Step(s, a);
    if a.Broadcast? {
      BroadcastKeepsTotals(s, a.t, Producer);
      BroadcastKeepsTotals(s, a.t, Customer);
    } else {
      ThreadStepKeepsTotals(s, a, Producer);
      ThreadStepKeepsTotals(s, a, Customer);
    }
    if a.Work? { ContentsPreserved(s, a.t); }
  }

  lemma StepPreserves(s: State, a: Action)
    requires Inv(s) && Enabled(s, a)
    ensures Inv(Step(s, a)) && Surplus(Step(s, a)) == Surplus(s) && Capacity(Step(s, a)) == Capacity(s)
  {
    StepKeepsCapacity(s, a);
    hide Step;
    LockPreserved(s, a);
    WaitersPreserved(s, a);
    BalancePreserved(s, a);
  }

  lemma StepKeepsCapacity(s: State, a: Action)
    requires Inv(s) && Enabled(s, a)
    ensures Capacity(Step(s, a)) == Capacity(s)
  {
    hide Total;
  }

  ghost predicate Reaches(s: State, run: seq<Action>, t: State)
    decreases |run|
  {
    if run == [] then s == t else Enabled(s, run[0]) && Reaches(Step(s, run[0]), run[1..], t)
  }

  lemma {:induction false} RunPreserves(s: State, run: seq<Action>, t: State)
    requires Inv(s) && Reaches(s, run, t)
    ensures Inv(t) && Surplus(t) == Surplus(s) && Capacity(t) == Capacity(s)
    decreases |run|
  {
    hide Inv;
    hide Surplus;
    hide Capacity;
    hide Step;
    hide Enabled;
    if run != [] {
      StepPreserves(s, run[0]);
      RunPreserves(Step(s, run[0]), run[1..], t);
    }
  }

  lemma InitInv(s: State)
    requires Init(s)
    ensures Inv(s)
  {
  }

  // ---------------------------------------------------------------- last in, first out

  /** The lines PUSH and POP, with the thread that prints them. */
  datatype Line = Push(who: nat, letter: int) | Pop(who: nat, letter: int)

  /** What a step prints, read off the letters pushed and popped before and after it. */
  function Printed(s: State, a: Action): seq<Line>
    requires Enabled(s, a)
  {
    var t := Step(s, a);
    if |s.pushed| < |t.pushed| then [Push(a.t, t.pushed[|s.pushed|])]
    else if |s.popped| < |t.popped| then [Pop(a.t, t.popped[|s.popped|])]
    else []
  }

  ghost function Lines(s: State, run: seq<Action>, t: State): seq<Line>
    requires Reaches(s, run, t)
    decreases |run|
  {
    if run == [] then [] else Printed(s, run[0]) + Lines(Step(s, run[0]), run[1..], t)
  }

  /** The lines are those of a stack that holds these letters first and last. */
  predicate Stack(held: seq<int>, lines: seq<Line>, last: seq<int>)
    decreases |lines|
  {
    if lines == [] then held == last
    else match lines[0]
      case Push(_, c) => Stack(held + [c], lines[1..], last)
      case Pop(_, c) => held != [] && held[|held| - 1] == c && Stack(held[..|held| - 1], lines[1..], last)
  }

  lemma PrintedLine(s: State, a: Action)
    requires Enabled(s, a) && 0 <= s.size <= Capacity(s)
    ensures var th := s.threads[a.t];
            Printed(s, a) == if !a.Work? then []
                             else if th.role.Producer? then [Push(a.t, th.quota - th.left)]
                             else [Pop(a.t, Held(s)[s.size - 1])]
  {
    hide Step;
    if !a.Work? {
      OthersLeaveStore(s, a);
    } else if s.threads[a.t].role.Producer? {
      PushOnTop(s, a.t);
    } else {
      PopTakesTop(s, a.t);
    }
  }

  lemma StackFirst(held: seq<int>, line: Line, rest: seq<Line>, next: seq<int>, last: seq<int>)
    requires Stack(next, rest, last)
    requires if line.Push? then next == held + [line.letter] else held == next + [line.letter]
    ensures Stack(held, [line] + rest, last)
  {
    assert ([line] + rest)[1..] == rest;
    if line.Pop? { assert held[..|held| - 1] == next; }
  }

  lemma StackStep(s: State, a: Action, rest: seq<Line>, last: seq<int>)
    requires Inv(s) && Enabled(s, a) && Balanced(Step(s, a)) && Stack(Held(Step(s, a)), rest, last)
    ensures Stack(Held(s), Printed(s, a) + rest, last)
  {
    hide Step;
    hide Stack;
    hide LockOk;
    hide WaitersJustified;
    PrintedLine(s, a);
    if !a.Work? {
      OthersLeaveStore(s, a);
      assert [] + rest == rest;
    } else {
      if s.threads[a.t].role.Producer? { PushOnTop(s, a.t); } else { PopTakesTop(s, a.t); }
      StackFirst(Held(s), Printed(s, a)[0], rest, Held(Step(s, a)), last);
    }
  }

  lemma {:induction false} StackSteps(s: State, run: seq<Action>, t: State)
    requires Inv(s) && Reaches(s, run, t)
    ensures Inv(t) && Stack(Held(s), Lines(s, run, t), Held(t))
    decreases |run|
  {
    hide Step;
    hide Enabled;
    hide LockOk;
    hide WaitersJustified;
    hide Printed;
    if run != [] {
      StepPreserves(s, run[0]);
      StackSteps(Step(s, run[0]), run[1..], t);
      StackStep(s, run[0], Lines(Step(s, run[0]), run[1..], t), Held(t));
    }
  }

  /** Main result: on every schedule each POP prints the newest letter pushed and not popped before it, and the
      store ends with what is left. */
  lemma LastInFirstOut(s: State, run: seq<Action>, t: State)
    requires Init(s) && Reaches(s, run, t)
    ensures 0 <= t.size <= Capacity(t) && Stack([], Lines(s, run, t), t.store[..t.size])
  {
    InitInv(s);
    StackSteps(s, run, t);
    assert Held(s) == [];
  }

  /** The letters of the lines this thread prints, in order. */
  function LettersBy(lines: seq<Line>, k: nat): (r: seq<int>)
    ensures |r| <= |lines|
  {
    if lines == [] then []
    else (if lines[0].who == k then [lines[0].letter] else []) + LettersBy(lines[1..], k)
  }

  lemma {:induction false} LettersByJoin(first: seq<Line>, second: seq<Line>, k: nat)
    ensures LettersBy(first + second, k) == LettersBy(first, k) + LettersBy(second, k)
    decreases |first|
  {
    if first == [] {
      assert first + second == second;
    } else {
      LettersByJoin(first[1..], second, k);
      assert (first + second)[1..] == first[1..] + second;
    }
  }

  lemma StepTurn(s: State, a: Action, k: nat)
    requires Inv(s) && Enabled(s, a) && k < |s.threads|
    ensures |Step(s, a).threads| == |s.threads|
    ensures var th, next := s.threads[k], Step(s, a).threads[k];
            th.role == next.role && th.quota == next.quota
              && Todo(next) == Todo(th) - (if a.Work? && a.t == k then 1 else 0) && Todo(th) <= th.quota
    ensures a.Work? && a.t == k ==> Todo(s.threads[k]) == s.threads[k].left
  {
    hide Balanced;
    hide WaitersJustified;
  }

  lemma LetterOfStep(s: State, a: Action, k: nat)
    requires Inv(s) && Enabled(s, a) && k < |s.threads|
    ensures var letters := LettersBy(Printed(s, a), k);
            && (|letters| == if a.Work? && a.t == k then 1 else 0)
            && (s.threads[k].role.Producer? && letters != [] ==>
                  letters == [s.threads[k].quota - Todo(s.threads[k])])
  {
    hide Printed;
    hide Step;
    hide LockOk;
    hide WaitersJustified;
    PrintedLine(s, a);
    StepTurn(s, a, k);
    assert Printed(s, a) != [] ==> Printed(s, a)[1..] == [];
  }

  lemma {:induction false} TurnsOnRun(s: State, run: seq<Action>, t: State, k: nat)
    requires Inv(s) && Reaches(s, run, t) && k < |s.threads|
    ensures |t.threads| == |s.threads| && t.threads[k].quota == s.threads[k].quota
    ensures t.threads[k].role == s.threads[k].role
    ensures Todo(t.threads[k]) + |LettersBy(Lines(s, run, t), k)| == Todo(s.threads[k])
    ensures s.threads[k].role.Producer? ==>
              forall i :: 0 <= i < |LettersBy(Lines(s, run, t), k)| ==>
                LettersBy(Lines(s, run, t), k)[i] == s.threads[k].quota - Todo(s.threads[k]) + i
    decreases |run|
  {
    hide Inv;
    hide Step;
    hide Enabled;
    hide Printed;
    hide LettersBy;
    hide Todo;
    if run != [] {
      var u := Step(s, run[0]);
      StepPreserves(s, run[0]);
      StepTurn(s, run[0], k);
      LetterOfStep(s, run[0], k);
      TurnsOnRun(u, run[1..], t, k);
      LettersByJoin(Printed(s, run[0]), Lines(u, run[1..], t), k);
    }
  }

  /** Every thread has printed one line for each turn taken, and a producer its letters in order from the first. */
  lemma LettersInOrder(s: State, run: seq<Action>, t: State, k: nat)
    requires Init(s) && Reaches(s, run, t) && k < |s.threads|
    ensures |t.threads| == |s.threads|
    ensures var letters := LettersBy(Lines(s, run, t), k);
            && |letters| == s.threads[k].quota - Todo(t.threads[k])
            && (s.threads[k].role.Producer? ==> forall i :: 0 <= i < |letters| ==> letters[i] == i)
  {
    InitInv(s);
    TurnsOnRun(s, run, t, k);
  }

  // ---------------------------------------------------------------- safety

  /** The store never over- or underflows and every element pushed is popped at most once. */
  lemma StoreSafe(s: State, run: seq<Action>, t: State)
    requires Init(s) && Reaches(s, run, t)
    ensures 0 <= t.size <= Capacity(t) && |t.pushed| - |t.popped| == t.size
    ensures multiset(t.pushed) == multiset(t.popped) + multiset(t.store[..t.size])
  {
    InitInv(s);
    RunPreserves(s, run, t);
  }

  /** With the lock free, a waiting customer implies an empty store, a waiting producer a full one. */
  lemma WaitersMatchStore(s: State, run: seq<Action>, t: State, i: nat)
    requires Init(s) && Reaches(s, run, t) && t.owner == NOBODY && i < |t.threads| && t.threads[i].pc.Waiting?
    ensures Blocked(t, t.threads[i].role)
  {
    InitInv(s);
    RunPreserves(s, run, t);
  }

  predicate Done(s: State) {
    forall i :: 0 <= i < |s.threads| ==> s.threads[i].pc.Finished?
  }

  /** An action of the program itself, as opposed to a spurious wakeup. */
  ghost predicate CanMove(s: State) {
    exists a: Action :: Enabled(s, a) && !a.Spurious?
  }

  /** The pushes and pops to make fit the store. */
  ghost predicate Fits(s: State) {
    0 <= Surplus(s) <= Capacity(s)
  }

  lemma SleepersImpossible(s: State)
    requires Inv(s) && s.owner == NOBODY && Fits(s)
    requires forall i :: 0 <= i < |s.threads| ==> s.threads[i].pc.Waiting? || s.threads[i].pc.Finished?
    ensures Done(s)
  {
    hide Total;
    forall i | 0 <= i < |s.threads| ensures s.threads[i].pc.Finished? {
      if s.threads[i].pc.Waiting? {
        var r := s.threads[i].role;
        var other := if r.Producer? then Customer else Producer;
        assert Blocked(s, r);
        forall j | 0 <= j < |s.threads| ensures Share(s.threads[j], other) == 0 {
          assert !(s.threads[j].pc.Waiting? && s.threads[j].role == other);
        }
        TotalZero(s.threads, other);
        TotalAtLeast(s.threads, i, r);
        assert false;
      }
    }
  }

  /** No deadlock when the pushes and pops fit the store: unless all threads are finished, some thread can
      take a step of its own. */
  lemma DeadlockFree(s: State, run: seq<Action>, t: State)
    requires Init(s) && Fits(s) && Reaches(s, run, t)
    ensures Done(t) || CanMove(t)
  {
    InitInv(s);
    RunPreserves(s, run, t);
    if t.owner != NOBODY {
      var th := t.threads[t.owner];
      var a := if th.pc.Signalling? then Broadcast(t.owner)
               else if th.pc.Leaving? then Unlock(t.owner)
               else if Blocked(t, th.role) then Wait(t.owner) else Work(t.owner);
      assert Enabled(t, a);
    } else if i :| 0 <= i < |t.threads| && (t.threads[i].pc.Ready? || t.threads[i].pc.Woken?) {
      assert Enabled(t, Lock(i));
    } else {
      SleepersImpossible(t);
    }
  }

  // ---------------------------------------------------------------- termination

  function Rank(t: Thread, n: nat): nat {
    match t.pc
    case Finished => 0
    case Waiting => 0
    case Checking => 1
    case Ready => 2
    case Woken => 2
    case Leaving => 3
    case Signalling => 2 * n + 4
  }

  function Ranks(threads: seq<Thread>, n: nat): nat {
    if threads == [] then 0 else Rank(threads[0], n) + Ranks(threads[1..], n)
  }

  lemma {:induction false} RanksUpdate(threads: seq<Thread>, i: nat, t: Thread, n: nat)
    requires i < |threads|
    ensures Ranks(threads[i := t], n) + Rank(threads[i], n) == Ranks(threads, n) + Rank(t, n)
    decreases |threads|
  {
    if i == 0 {
      assert threads[0 := t][1..] == threads[1..];
    } else {
      RanksUpdate(threads[1..], i - 1, t, n);
      assert threads[i := t][1..] == threads[1..][i - 1 := t];
    }
  }

  /** Waking threads costs at most two units each. */
  lemma {:induction false} RanksWake(threads: seq<Thread>, waker: Role, n: nat)
    ensures Ranks(Wake(threads, waker), n) <= Ranks(threads, n) + 2 * |threads|
    decreases |threads|
  {
    if threads != [] {
      RanksWake(threads[1..], waker, n);
      assert Wake(threads, waker)[1..] == Wake(threads[1..], waker);
    }
  }

  /** Remaining work weighs more than any waking up it can cause. */
  function Measure(s: State): nat {
    (Total(s.threads, Producer) + Total(s.threads, Customer)) * (2 * |s.threads| + 4) + Ranks(s.threads, |s.threads|)
  }

  /** Every step that is not a spurious wakeup brings the system closer to the end. */
  lemma StepDecreases(s: State, a: Action)
    requires Inv(s) && Enabled(s, a) && !a.Spurious?
    ensures Measure(Step(s, a)) < Measure(s)
    ensures |Step(s, a).threads| == |s.threads|
  {
    hide Total;
    hide Ranks;
    hide WaitersJustified;
    hide Balanced;
    var n, th, t := |s.threads|, s.threads[a.t], Step(s, a);
    var weight := 2 * n + 4;
    var work := Total(s.threads, Producer) + Total(s.threads, Customer);
    if a.Broadcast? {
      BroadcastKeepsTotals(s, a.t, Producer);
      BroadcastKeepsTotals(s, a.t, Customer);
      RanksUpdate(s.threads, a.t, th.(pc := Leaving), n);
      RanksWake(s.threads[a.t := th.(pc := Leaving)], th.role, n);
    } else {
      ThreadStepKeepsTotals(s, a, Producer);
      ThreadStepKeepsTotals(s, a, Customer);
      RanksUpdate(s.threads, a.t, t.threads[a.t], n);
      assert t.threads == s.threads[a.t := t.threads[a.t]];
      OneLess(work, weight);
    }
  }

  lemma OneLess(work: int, weight: int)
    ensures (work - 1) * weight == work * weight - weight
  {
  }

  /** A run without spurious wakeups has at most as many steps as the measure of its first state. */
  lemma {:induction false} RunsTerminate(s: State, run: seq<Action>, t: State)
    requires Inv(s) && Reaches(s, run, t) && forall i :: 0 <= i < |run| ==> !run[i].Spurious?
    ensures |run| + Measure(t) <= Measure(s)
    decreases |run|
  {
    hide Inv;
    hide Step;
    hide Enabled;
    hide Measure;
    if run != [] {
      StepPreserves(s, run[0]);
      StepDecreases(s, run[0]);
      RunsTerminate(Step(s, run[0]), run[1..], t);
    }
  }

  /** If the pushes and pops fit the store, a run that cannot be continued without a spurious wakeup has
      finished all threads and left the surplus in the store; without a surplus everything is delivered. */
  lemma MaximalRunsDeliverAll(s: State, run: seq<Action>, t: State)
    requires Init(s) && Fits(s) && Reaches(s, run, t) && !CanMove(t)
    ensures Done(t) && t.size == Surplus(s) && 0 <= t.size <= |t.store|
    ensures multiset(t.pushed) == multiset(t.popped) + multiset(t.store[..t.size])
    ensures Surplus(s) == 0 ==> multiset(t.pushed) == multiset(t.popped)
  {
    DeadlockFree(s, run, t);
    InitInv(s);
    RunPreserves(s, run, t);
    DoneLeavesSurplus(t);
    assert t.size == 0 ==> t.store[..t.size] == [];
  }

  lemma DoneLeavesSurplus(t: State)
    requires Inv(t) && Done(t)
    ensures t.size == Surplus(t)
  {
    TotalZero(t.threads, Producer);
    TotalZero(t.threads, Customer);
  }

  /** Some run without spurious wakeups goes on until no thread can move. */
  lemma {:induction false} SomeRunEnds(s: State) returns (run: seq<Action>, t: State)
    requires Inv(s)
    ensures Reaches(s, run, t) && NoSpurious(run) && !CanMove(t)
    decreases Measure(s)
  {
    hide Step;
    hide Inv;
    hide Measure;
    hide Enabled;
    if a: Action :| Enabled(s, a) && !a.Spurious? {
      StepPreserves(s, a);
      StepDecreases(s, a);
      var rest;
      rest, t := SomeRunEnds(Step(s, a));
      run := [a] + rest;
      assert run[1..] == rest;
    } else {
      run, t := [], s;
    }
  }

  predicate NoSpurious(run: seq<Action>) {
    forall i :: 0 <= i < |run| ==> !run[i].Spurious?
  }

  /** Every run without spurious wakeups that cannot go on has finished all threads. */
  ghost predicate AlwaysFinishes(s: State) {
    forall run: seq<Action>, t: State :: Reaches(s, run, t) && NoSpurious(run) && !CanMove(t) ==> Done(t)
  }

  /** The program finishes on every schedule if and only if its pushes less its pops lie between zero and the
      capacity of the store. */
  lemma FinishesIff(s: State)
    requires Init(s)
    ensures AlwaysFinishes(s) <==> 0 <= Total(s.threads, Producer) - Total(s.threads, Customer) <= Capacity(s)
  {
    hide Reaches;
    hide Done;
    hide CanMove;
    InitInv(s);
    if Fits(s) {
      forall run: seq<Action>, t: State | Reaches(s, run, t) && NoSpurious(run) && !CanMove(t) ensures Done(t) {
        DeadlockFree(s, run, t);
      }
    } else {
      var run, t := SomeRunEnds(s);
      RunPreserves(s, run, t);
      if Done(t) { DoneLeavesSurplus(t); }
    }
  }
}
