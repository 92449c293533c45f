/**
 The coroutine scheduler with one shared stack. Bodies of coroutines are arbitrary: they may
 write the shared stack, create coroutines, yield and finish in any order.
 */
module Coroutine {
  import opened Arithmetic

  const DEFAULT_COROUTINE := 16
  const NONE := -1

  datatype Status = Ready | Running | Suspend

  /** struct coroutine: cap is the length of the private stack copy, size the part in use; id is
      what mainfunc read from S->running when the coroutine first ran. */
  datatype Co = Co(status: Status, size: nat, stack: seq<byte>, id: int)

  datatype Cell = Null | Task(co: Co)

  /** struct schedule; cap is |co|. */
  datatype Schedule = Schedule(stack: seq<byte>, nco: int, running: int, co: seq<Cell>)

  datatype Action =
    | New
    | Resume(id: int)
    | Yield(size: nat)
    | Finish
    | Scribble(bytes: seq<byte>)

  /** The bytes from &dummy up to the top of the shared stack. */
  function Top(stack: seq<byte>, n: nat): (r: seq<byte>) {
    if n <= |stack| then stack[|stack| - n..] else stack
  }

  function WithTop(stack: seq<byte>, bytes: seq<byte>): (r: seq<byte>)
    ensures |bytes| <= |stack| ==> |r| == |stack| && Top(r, |bytes|) == bytes
  {
    if |bytes| <= |stack| then stack[..|stack| - |bytes|] + bytes else stack
  }

  function Count(co: seq<Cell>): nat {
    if co == [] then 0 else (if co[0].Task? then 1 else 0) + Count(co[1..])
  }

  function Nulls(n: nat): (r: seq<Cell>)
    ensures |r| == n && forall i :: 0 <= i < n ==> r[i] == Null
  {
    seq(n, _ => Null)
  }

  // ---------------------------------------------------------------- coroutine_new

  /** The i-th cell the search looks at. */
  function Visited(i: nat, nco: nat, cap: nat): (j: nat)
    requires cap > 0
    ensures j < cap
  {
    (i + nco) % cap
  }

  /** The search for a free cell, beginning at cell nco; -1 stands for reaching assert(0). */
  function FreeCell(co: seq<Cell>, nco: nat, i: nat): int
    requires |co| > 0
    decreases |co| - i
  {
    if i >= |co| then -1
    else if co[Visited(i, nco, |co|)] == Null then Visited(i, nco, |co|)
    else FreeCell(co, nco, i + 1)
  }

  const FRESH := Task(Co(Ready, 0, [], NONE))

  /** The new cells and the id coroutine_new returns. */
  function Added(co: seq<Cell>, nco: nat): (seq<Cell>, int)
    requires |co| > 0
  {
    if nco >= |co| then ((co + Nulls(|co|))[|co| := FRESH], |co|)
    else
      var id := FreeCell(co, nco, 0);
      if 0 <= id < |co| then (co[id := FRESH], id) else (co, -1)
  }

  // ---------------------------------------------------------------- steps

  /** The asserts of the code: resume only from the main context and with an id in range; yield only
      from a running coroutine whose stack fits. */
  predicate Enabled(s: Schedule, a: Action) {
    |s.co| > 0 && s.nco >= 0 &&
    match a
    case New => true
    case Resume(id) => s.running == NONE && 0 <= id < |s.co|
    case Yield(size) => 0 <= s.running < |s.co| && s.co[s.running].Task? && size <= |s.stack|
    case Finish => 0 <= s.running < |s.co| && s.co[s.running].Task?
    case Scribble(bytes) => s.running != NONE && |bytes| == |s.stack|
  }

  /** _save_stack: the private copy grows when it is too small and keeps its length otherwise. */
  function Saved(c: Co, bytes: seq<byte>): (r: Co)
    ensures |bytes| <= |r.stack| && r.size == |bytes| && r.stack[..r.size] == bytes
  {
    if |c.stack| < |bytes| then c.(stack := bytes, size := |bytes|)
    else c.(stack := bytes + c.stack[|bytes|..], size := |bytes|)
  }

  function Step(s: Schedule, a: Action): Schedule
    requires Enabled(s, a)
  {
    match a
    case New => s.(co := Added(s.co, s.nco).0, nco := s.nco + 1)
    case Resume(id) =>
      if s.co[id].Null? then s
      else
        var c := s.co[id].co;
        (match c.status
         case Ready => s.(running := id, co := s.co[id := Task(c.(status := Running, id := id))])
         case Suspend =>
           s.(stack := if c.size <= |c.stack| then WithTop(s.stack, c.stack[..c.size]) else s.stack,
              running := id, co := s.co[id := Task(c.(status := Running))])
         case Running => s)
    case Yield(size) =>
      var c := s.co[s.running].co;
      s.(co := s.co[s.running := Task(Saved(c, Top(s.stack, size)).(status := Suspend))], running := NONE)
    case Finish =>
      var id := s.co[s.running].co.id;
      s.(co := if 0 <= id < |s.co| then s.co[id := Null] else s.co, nco := s.nco - 1, running := NONE)
    case Scribble(bytes) => s.(stack := bytes)
  }

  /** coroutine_open */
  ghost predicate Opened(s: Schedule) {
    s.nco == 0 && s.running == NONE && s.co == Nulls(DEFAULT_COROUTINE)
  }

  // ---------------------------------------------------------------- invariant

  ghost predicate CellsOk(s: Schedule) {
    forall i :: 0 <= i < |s.co| && s.co[i].Task? ==>
      var c := s.co[i].co;
      && (c.status == Running <==> i == s.running)
      && (c.status != Ready ==> c.id == i)
      && c.size <= |c.stack| && c.size <= |s.stack|
  }

  ghost predicate Inv(s: Schedule) {
    && |s.co| > 0 && s.nco == Count(s.co)
    && (s.running == NONE || (0 <= s.running < |s.co| && s.co[s.running].Task?))
    && CellsOk(s)
  }

  lemma {:induction false} CountUpdate(co: seq<Cell>, i: nat, c: Cell)
    requires i < |co|
    ensures Count(co[i := c]) + (if co[i].Task? then 1 else 0) == Count(co) + (if c.Task? then 1 else 0)
    decreases |co|
  {
    if i == 0 {
      assert co[0 := c][1..] == co[1..];
    } else {
      CountUpdate(co[1..], i - 1, c);
      assert co[i := c][1..] == co[1..][i - 1 := c];
    }
  }

  lemma {:induction false} CountGrown(co: seq<Cell>, n: nat)
    ensures Count(co + Nulls(n)) == Count(co)
    decreases |co| + n
  {
    if co != [] {
      CountGrown(co[1..], n);
      assert (co + Nulls(n))[1..] == co[1..] + Nulls(n);
    } else if n > 0 {
      CountGrown([], n - 1);
      assert ([] + Nulls(n))[1..] == [] + Nulls(n - 1);
    }
  }

  lemma {:induction false} CountFull(co: seq<Cell>)
    ensures Count(co) <= |co|
    ensures Count(co) == |co| <==> forall i :: 0 <= i < |co| ==> co[i].Task?
    decreases |co|
  {
    if co != [] {
      CountFull(co[1..]);
      if forall i :: 0 <= i < |co[1..]| ==> co[1..][i].Task? {
        forall i | 1 <= i < |co| ensures co[i].Task? {
          assert co[i] == co[1..][i - 1];
        }
      }
      assert forall i :: 0 <= i < |co[1..]| ==> co[1..][i] == co[i + 1];
    }
  }

  /** Starting anywhere, the rotation reaches every cell. */
  lemma VisitsAll(j: nat, nco: nat, cap: nat) returns (k: nat)
    requires j < cap && nco < cap
    ensures k < cap && Visited(k, nco, cap) == j
  {
    k := if j >= nco then j - nco else j + cap - nco;
    ModUnique(k + nco, cap, if j >= nco then 0 else 1, j);
  }

  /** The rotated search looks at every cell, so a free one is found. */
  lemma {:induction false} FreeCellFinds(co: seq<Cell>, nco: nat, i: nat)
    requires 0 < |co| && nco < |co| && i <= |co|
    requires forall k: nat :: k < i ==> co[Visited(k, nco, |co|)].Task?
    ensures var id := FreeCell(co, nco, i);
            if id == -1 then forall j :: 0 <= j < |co| ==> co[j].Task? else 0 <= id < |co| && co[id].Null?
    decreases |co| - i
  {
    hide Visited;
    if i < |co| {
      if co[Visited(i, nco, |co|)] != Null {
        FreeCellFinds(co, nco, i + 1);
      }
    } else {
      forall j | 0 <= j < |co| ensures co[j].Task? {
        var k := VisitsAll(j, nco, |co|);
      }
    }
  }

  /** All cells from nco up to id, going round at the end, are taken. */
  ghost predicate TakenUpTo(co: seq<Cell>, nco: nat, id: nat) {
    if nco <= id then forall j :: nco <= j < id && j < |co| ==> co[j].Task?
    else (forall j :: nco <= j < |co| ==> co[j].Task?) && (forall j :: 0 <= j < id && j < |co| ==> co[j].Task?)
  }

  /** The search takes the first free cell from cell nco on. */
  lemma {:induction false} FreeCellIsFirst(co: seq<Cell>, nco: nat, i: nat)
    requires 0 < |co| && nco < |co| && i <= |co|
    requires forall k: nat :: k < i ==> co[Visited(k, nco, |co|)].Task?
    ensures var id := FreeCell(co, nco, i); id >= 0 ==> id < |co| && TakenUpTo(co, nco, id)
    decreases |co| - i
  {
    if i < |co| {
      if co[Visited(i, nco, |co|)] != Null {
        hide Visited;
        FreeCellIsFirst(co, nco, i + 1);
      } else {
        var id := Visited(i, nco, |co|);
        ModUnique(i + nco, |co|, if i + nco < |co| then 0 else 1, if i + nco < |co| then i + nco else i + nco - |co|);
        hide Visited;
        forall j | 0 <= j < |co| && (if nco <= id then nco <= j < id else nco <= j || j < id) ensures co[j].Task? {
          var k := VisitsAll(j, nco, |co|);
          VisitedAt(k, nco, |co|);
        }
      }
    }
  }

  lemma VisitedAt(k: nat, nco: nat, cap: nat)
    requires k < cap && nco < cap
    ensures Visited(k, nco, cap) == if k + nco < cap then k + nco else k + nco - cap
  {
    ModUnique(k + nco, cap, if k + nco < cap then 0 else 1, if k + nco < cap then k + nco else k + nco - cap);
  }

  /** coroutine_new puts a READY coroutine into the first free cell from cell nco on, or doubles the cells
      when none is free; it never reaches assert(0) and changes no other cell. */
  lemma NewTakesFreeCell(s: Schedule)
    requires Inv(s)
    ensures var (co, id) := Added(s.co, s.nco);
            && 0 <= id < |co| && co[id] == FRESH
            && (if s.nco < |s.co| then |co| == |s.co| && s.co[id].Null? && TakenUpTo(s.co, s.nco, id)
                else |co| == 2 * |s.co| && id == |s.co|)
            && (forall j :: 0 <= j < |s.co| && j != id ==> co[j] == s.co[j])
            && (forall j :: |s.co| <= j < |co| && j != id ==> co[j].Null?)
            && Count(co) == s.nco + 1
  {
    hide FreeCell;
    hide CellsOk;
    hide Count;
    hide TakenUpTo;
    if s.nco >= |s.co| {
      CountGrown(s.co, |s.co|);
      CountUpdate(s.co + Nulls(|s.co|), |s.co|, FRESH);
    } else {
      FreeCellFinds(s.co, s.nco, 0);
      FreeCellIsFirst(s.co, s.nco, 0);
      CountFull(s.co);
      CountUpdate(s.co, FreeCell(s.co, s.nco, 0), FRESH);
    }
  }

  lemma NewPreserves(s: Schedule)
    requires Inv(s)
    ensures Inv(Step(s, New))
  {
    hide Added;
    hide Count;
    NewTakesFreeCell(s);
    var t := Step(s, New);
    forall i | 0 <= i < |t.co| && t.co[i].Task?
      ensures var c := t.co[i].co;
              && (c.status == Running <==> i == t.running) && (c.status != Ready ==> c.id == i)
              && c.size <= |c.stack| && c.size <= |t.stack|
    {
      if i < |s.co| && i != Added(s.co, s.nco).1 {
        assert s.co[i].Task?;
      }
    }
  }

  lemma StepPreserves(s: Schedule, a: Action)
    requires Inv(s) && Enabled(s, a)
    ensures Inv(Step(s, a))
    ensures |Step(s, a).stack| == |s.stack|
  {
    hide Count;
    if a.New? {
      NewPreserves(s);
    } else if a.Resume? && s.co[a.id].Task? {
      CountUpdate(s.co, a.id, Step(s, a).co[a.id]);
    } else if a.Yield? {
      CountUpdate(s.co, s.running, Step(s, a).co[s.running]);
    } else if a.Finish? {
      CountUpdate(s.co, s.running, Null);
    }
  }

  // ---------------------------------------------------------------- what each step does

  /** coroutine_resume runs the coroutine. A READY one finds the shared stack as it is, a suspended one its
      saved bytes at the top of it; nothing else changes, and a dead coroutine's resume does nothing. */
  ghost predicate Resumed(s: Schedule, id: nat, t: Schedule)
    requires id < |s.co|
  {
    if s.co[id].Null? then t == s
    else
      var c := s.co[id].co;
      && t.running == id && |t.co| == |s.co| && t.co == s.co[id := t.co[id]] && t.nco == s.nco
      && t.co[id].Task? && t.co[id].co.status == Running
      && t.co[id].co.size == c.size && t.co[id].co.stack == c.stack
      && |t.stack| == |s.stack|
      && if c.status == Ready then t.stack == s.stack && t.co[id].co.id == id
         else
           && c.size <= |c.stack| && c.size <= |s.stack| && t.co[id].co.id == c.id
           && t.stack == s.stack[..|s.stack| - c.size] + c.stack[..c.size]
  }

  lemma ResumeRuns(s: Schedule, id: nat)
    requires Inv(s) && Enabled(s, Resume(id))
    ensures Resumed(s, id, Step(s, Resume(id)))
  {
    hide Count;
  }

  /** coroutine_yield suspends the running coroutine with the top of the shared stack saved. */
  ghost predicate Yielded(s: Schedule, size: nat, t: Schedule)
    requires 0 <= s.running < |s.co| && s.co[s.running].Task? && size <= |s.stack|
  {
    var id := s.running;
    && t.running == NONE && t.nco == s.nco && t.stack == s.stack
    && |t.co| == |s.co| && t.co == s.co[id := t.co[id]] && t.co[id].Task?
    && var c := t.co[id].co;
       && c.status == Suspend && c.id == s.co[id].co.id && c.size == size <= |c.stack|
       && c.stack[..size] == s.stack[|s.stack| - size..]
       && |c.stack| == if |s.co[id].co.stack| < size then size else |s.co[id].co.stack|
  }

  lemma YieldSuspends(s: Schedule, size: nat)
    requires Inv(s) && Enabled(s, Yield(size))
    ensures Yielded(s, size, Step(s, Yield(size)))
  {
    hide Count;
  }

  lemma FinishEnds(s: Schedule)
    requires Inv(s) && Enabled(s, Finish)
    ensures Step(s, Finish) == s.(co := s.co[s.running := Null], nco := Count(s.co) - 1, running := NONE)
  {
    hide Count;
  }

  // ---------------------------------------------------------------- runs

  ghost predicate Reaches(s: Schedule, run: seq<Action>, t: Schedule)
    decreases |run|
  {
    if run == [] then s == t else Enabled(s, run[0]) && Reaches(Step(s, run[0]), run[1..], t)
  }

  lemma {:induction false} RunPreserves(s: Schedule, run: seq<Action>, t: Schedule)
    requires Inv(s) && Reaches(s, run, t)
    ensures Inv(t) && |t.stack| == |s.stack|
    decreases |run|
  {
    hide Inv;
    hide Step;
    hide Enabled;
    if run != [] {
      StepPreserves(s, run[0]);
      RunPreserves(Step(s, run[0]), run[1..], t);
    }
  }

  lemma OpenedInv(s: Schedule)
    requires Opened(s)
    ensures Inv(s)
  {
    CountGrown([], DEFAULT_COROUTINE);
    assert [] + Nulls(DEFAULT_COROUTINE) == Nulls(DEFAULT_COROUTINE);
  }

  /** Main result on the table: nco counts the live coroutines, so a new one always finds a cell; at
      most one coroutine is RUNNING, and it is exactly the one `running` names. */
  lemma SchedulerConsistent(s: Schedule, run: seq<Action>, t: Schedule)
    requires Opened(s) && Reaches(s, run, t)
    ensures |t.co| > 0 && t.nco == Count(t.co) && Added(t.co, t.nco).1 >= 0
    ensures forall i :: 0 <= i < |t.co| && t.co[i].Task? ==> (t.co[i].co.status == Running <==> i == t.running)
    ensures t.running == NONE || (0 <= t.running < |t.co| && t.co[t.running].Task?)
  {
    hide Added;
    OpenedInv(s);
    RunPreserves(s, run, t);
    NewTakesFreeCell(t);
  }

  /** mainfunc clears the cell of the very coroutine that finishes, whatever was created, resumed and
      suspended since it started, and no other. */
  lemma FinishClearsOwnCell(s: Schedule, run: seq<Action>, t: Schedule)
    requires Opened(s) && Reaches(s, run, t) && Enabled(t, Finish)
    ensures t.co[t.running].co.id == t.running
    ensures Step(t, Finish).co == t.co[t.running := Null] && Step(t, Finish).nco == Count(t.co) - 1
  {
    OpenedInv(s);
    RunPreserves(s, run, t);
  }

  /** id is suspended with these bytes saved. */
  ghost predicate Sleeps(s: Schedule, id: nat, bytes: seq<byte>) {
    && id < |s.co| && s.co[id].Task? && s.co[id].co.status == Suspend
    && s.co[id].co.size == |bytes| <= |s.co[id].co.stack| && s.co[id].co.stack[..|bytes|] == bytes
  }

  lemma YieldSleeps(s: Schedule, size: nat)
    requires Inv(s) && Enabled(s, Yield(size))
    ensures Sleeps(Step(s, Yield(size)), s.running, Top(s.stack, size))
  {
  }

  lemma SleepsOn(s: Schedule, a: Action, id: nat, bytes: seq<byte>)
    requires Inv(s) && Enabled(s, a) && Sleeps(s, id, bytes) && a != Resume(id)
    ensures Sleeps(Step(s, a), id, bytes)
  {
    hide Count;
    hide Added;
    NewTakesFreeCell(s);
  }

  lemma {:induction false} SleepsThrough(s: Schedule, run: seq<Action>, t: Schedule, id: nat, bytes: seq<byte>)
    requires Inv(s) && Reaches(s, run, t) && Sleeps(s, id, bytes) && Resume(id) !in run
    ensures Sleeps(t, id, bytes) && Inv(t) && |t.stack| == |s.stack|
    decreases |run|
  {
    hide Inv;
    hide Step;
    hide Enabled;
    hide Sleeps;
    if run != [] {
      StepPreserves(s, run[0]);
      SleepsOn(s, run[0], id, bytes);
      SleepsThrough(Step(s, run[0]), run[1..], t, id, bytes);
    }
  }

  /** Main result on the stack: whatever other coroutines do between a coroutine's yield and its next
      resume, it finds the top of the shared stack exactly as it left it. */
  lemma StackRestored(s: Schedule, before: seq<Action>, y: Schedule, size: nat, between: seq<Action>, t: Schedule)
    requires Opened(s) && Reaches(s, before, y) && Enabled(y, Yield(size))
    requires Reaches(Step(y, Yield(size)), between, t) && Resume(y.running) !in between
    requires Enabled(t, Resume(y.running))
    ensures var r := Step(t, Resume(y.running));
            r.running == y.running && Top(r.stack, size) == Top(y.stack, size)
  {
    OpenedInv(s);
    RunPreserves(s, before, y);
    YieldSleeps(y, size);
    StepPreserves(y, Yield(size));
    SleepsThrough(Step(y, Yield(size)), between, t, y.running, Top(y.stack, size));
  }

  // ---------------------------------------------------------------- the functions

  class Scheduler {
    var stack: array<byte>
    var nco: int
    var cap: nat
    var running: int
    var co: array<Cell>

    ghost function View(): Schedule
      reads this, stack, co
    {
      Schedule(stack[..], nco, running, co[..])
    }

    ghost predicate Valid()
      reads this, stack, co
    {
      Inv(View()) && cap == co.Length
    }

    constructor (stackSize: nat)
      ensures Valid() && Opened(View()) && fresh(stack) && fresh(co)
    {
      stack := new byte[stackSize](_ => 0);
      nco, cap, running := 0, DEFAULT_COROUTINE, NONE;
      co := new Cell[DEFAULT_COROUTINE](_ => Null);
      new;
      assert co[..] == Nulls(DEFAULT_COROUTINE);
      OpenedInv(View());
    }

    /** The reallocation in coroutine_new: twice the cells, the upper half cleared, and the new
        coroutine in the first of them. */
    method GrowAndAdd() returns (id: int)
      requires cap == co.Length > 0
      modifies this`co, this`cap, this`nco
      ensures fresh(co) && cap == co.Length && nco == old(nco) + 1
      ensures co[..] == (old(co[..]) + Nulls(old(cap)))[old(cap) := FRESH] && id == old(cap)
    {
      id := cap;
      var grown := new Cell[cap * 2](_ => Null);
      forall i | 0 <= i < cap {
        grown[i] := co[i];
      }
      grown[cap] := FRESH;
      assert grown[..] == (co[..] + Nulls(cap))[cap := FRESH];
      co := grown;
      cap := cap * 2;
      nco := nco + 1;
    }

    /** coroutine_new; -1 would be the failed assertion and is never returned. */
    method New() returns (id: int)
      requires Valid()
      modifies this`co, this`cap, this`nco, co
      ensures Valid() && View() == old(Step(View(), Action.New)) && id == old(Added(View().co, View().nco).1)
      ensures 0 <= id < co.Length && co[id] == FRESH && running == old(running)
      ensures if old(nco) < old(co.Length) then
                && co == old(co) && co[..] == old(co[..])[id := FRESH]
                && old(co[..])[id].Null? && TakenUpTo(old(co[..]), old(nco), id)
              else co.Length == 2 * old(co.Length) && id == old(co.Length)
      ensures stack == old(stack) && (fresh(co) || co == old(co))
    {
      hide Count;
      hide CellsOk;
      hide FreeCell;
      ghost var s := View();
      NewTakesFreeCell(s);
      NewPreserves(s);
      if nco >= cap {
        id := GrowAndAdd();
        assert View() == Step(s, Action.New);
      } else {
        id := FindFree();
        co[id] := FRESH;
        nco := nco + 1;
        assert View() == Step(s, Action.New);
      }
    }

    method FindFree() returns (id: int)
      requires cap == co.Length > 0 && nco >= 0
      ensures id == FreeCell(co[..], nco, 0)
    {
      var i := 0;
      while i < cap
        invariant 0 <= i <= cap
        invariant FreeCell(co[..], nco, 0) == FreeCell(co[..], nco, i)
      {
        id := Visited(i, nco, cap);
        if co[id] == Null {
          return;
        }
        i := i + 1;
      }
      return -1;
    }

    /** coroutine_resume up to the switch into the coroutine. */
    method Resume(id: int)
      requires Valid() && Enabled(View(), Action.Resume(id))
      modifies this`running, stack, co
      ensures Valid() && View() == old(Step(View(), Action.Resume(id))) && Resumed(old(View()), id, View())
    {
      hide Count;
      ghost var s := View();
      StepPreserves(s, Action.Resume(id));
      ResumeRuns(s, id);
      hide Resumed;
      if co[id].Null? {
        return;
      }
      var c := co[id].co;
      match c.status {
        case Ready =>
          running := id;
          co[id] := Task(c.(status := Running, id := id));
        case Suspend =>
          var at := stack.Length - c.size;
          forall k | 0 <= k < c.size {
            stack[at + k] := c.stack[k];
          }
          running := id;
          co[id] := Task(c.(status := Running));
          TopWritten(s.stack, stack[..], c.stack[..c.size]);
      }
      assert View() == Step(s, Action.Resume(id));
    }

    /** coroutine_yield up to the switch to the main context; size is the distance of the saved
        frame from the top of the shared stack. */
    method Yield(size: nat)
      requires Valid() && Enabled(View(), Action.Yield(size))
      modifies this`running, co
      ensures Valid() && View() == old(Step(View(), Action.Yield(size))) && Yielded(old(View()), size, View())
    {
      hide Count;
      ghost var s := View();
      StepPreserves(s, Action.Yield(size));
      YieldSuspends(s, size);
      hide Yielded;
      var id := running;
      var c := co[id].co;
      var saved := stack[stack.Length - size..];
      if |c.stack| < size {
        c := c.(stack := saved);
      } else {
        c := c.(stack := saved + c.stack[size..]);
      }
      co[id] := Task(c.(size := size, status := Suspend));
      running := NONE;
      assert View() == Step(s, Action.Yield(size));
    }

    /** The end of mainfunc, after the coroutine function has returned. */
    method Finish()
      requires Valid() && Enabled(View(), Action.Finish)
      modifies this`running, this`nco, co
      ensures Valid() && View() == old(Step(View(), Action.Finish))
      ensures co[..] == old(co[..])[old(running) := Null] && nco == old(nco) - 1 && running == NONE
    {
      hide Count;
      ghost var s := View();
      StepPreserves(s, Action.Finish);
      var id := co[running].co.id;
      co[id] := Null;
      nco := nco - 1;
      running := NONE;
      assert View() == Step(s, Action.Finish);
    }
  }

  lemma TopWritten(before: seq<byte>, after: seq<byte>, bytes: seq<byte>)
    requires |bytes| <= |before| == |after|
    requires forall k :: 0 <= k < |bytes| ==> after[|after| - |bytes| + k] == bytes[k]
    requires forall k :: 0 <= k < |before| - |bytes| ==> after[k] == before[k]
    ensures after == WithTop(before, bytes)
  {
    forall i | |after| - |bytes| <= i < |after| ensures after[i] == bytes[i - (|after| - |bytes|)] {
      var k := i - (|after| - |bytes|);
      assert after[|after| - |bytes| + k] == bytes[k];
    }
  }
}
