/** The round-robin process queue and the system clock. */
module Sched {
  import opened Arithmetic
  import opened Words

  const QUE_SIZE: nat := 128

  const NAME_LEN: nat := 32

  /** Of a task: its name, saved stack pointer, priority and time slice. */
  datatype Task = Task(name: string, stack: nat, priority: int, time: nat)

  function PriTime(pri: int): nat {
    match pri
    case 0 => 100
    case 1 => 10
    case 2 => 5
    case 3 => 2
    case 4 => 1
    case _ => 0
  }

  /** A task of priority 0 to 4 runs for 100, 10, 5, 2 or 1 ticks. */
  lemma PriorityTimes(pri: int)
    ensures PriTime(pri) == if 0 <= pri < 5 then [100, 10, 5, 2, 1][pri] else 0
  {}

  /** strncpy keeps no more than 32 characters. */
  function Shortened(name: string): (r: string)
    ensures r <= name && |r| == if |name| < 32 then |name| else 32
  {
    if |name| <= NAME_LEN then name else name[..NAME_LEN]
  }

  // ---------- rotation ----------

  function Rotated(q: seq<Task>, k: nat): (r: seq<Task>)
    ensures |r| == |q|
  {
    if q == [] then q else q[k % |q|..] + q[..k % |q|]
  }

  /** First to last. */
  function Cycled(q: seq<Task>): seq<Task> {
    if q == [] then q else q[1..] + q[..1]
  }

  lemma RotatedOnce(q: seq<Task>, k: nat)
    requires q != []
    ensures Cycled(Rotated(q, k)) == Rotated(q, k + 1)
  {
    NextIndex(k, |q|);
  }

  lemma NextIndex(k: nat, n: nat)
    requires n > 0
    ensures (k + 1) % n == if k % n == n - 1 then 0 else k % n + 1
  {
    var q, r := k / n, k % n;
    assert k == q * n + r;
    if r == n - 1 {
      assert k + 1 == (q + 1) * n;
      DivModOf(q + 1, 0, n);
    } else {
      DivModOf(q, r + 1, n);
    }
  }

  /** The task whose turn the i-th tick after the k-th is. */
  function TurnAt(k: nat, i: nat, n: nat): nat
    requires n > 0
  {
    (k + i) % n
  }

  lemma TurnAtIs(k: nat, i: nat, n: nat)
    requires i < n
    ensures TurnAt(k, i, n) == if k % n + i < n then k % n + i else k % n + i - n
  {
    var q, r := k / n, k % n;
    assert k == q * n + r;
    if r + i < n {
      DivModOf(q, r + i, n);
    } else {
      assert (q + 1) * n == q * n + n;
      DivModOf(q + 1, r + i - n, n);
    }
  }

  /** Any n consecutive ticks give each of n tasks exactly one turn. */
  lemma EveryTaskOnce(k: nat, n: nat, j: nat) returns (i: nat)
    requires j < n
    ensures i < n && TurnAt(k, i, n) == j
    ensures forall i': nat :: i' < n && TurnAt(k, i', n) == j ==> i' == i
  {
    var r := k % n;
    i := if r <= j then j - r else n + j - r;
    TurnAtIs(k, i, n);
    forall i': nat | i' < n && TurnAt(k, i', n) == j ensures i' == i {
      TurnAtIs(k, i', n);
    }
  }

  // ---------- the ring buffer ----------

  /** The `n` slots from `front` on, wrapping at the end of the buffer. */
  function Ring(a: seq<Task>, front: nat, n: nat): (q: seq<Task>)
    requires |a| == QUE_SIZE
    ensures |q| == n && forall i :: 0 <= i < n ==> q[i] == a[(front + i) % QUE_SIZE]
  {
    seq(n, i requires 0 <= i => a[(front + i) % QUE_SIZE])
  }

  lemma SlotShift(front: nat, n: nat, i: nat)
    requires front < QUE_SIZE && 0 < n < QUE_SIZE && i < n
    ensures ((front + 1) % QUE_SIZE + i) % QUE_SIZE == (front + (i + 1)) % QUE_SIZE
    ensures (front + (i + 1)) % QUE_SIZE == (front + n) % QUE_SIZE <==> i == n - 1
  {}

  lemma RingAdvances(a: seq<Task>, front: nat, n: nat)
    requires |a| == QUE_SIZE && front < QUE_SIZE && 0 < n < QUE_SIZE
    ensures Ring(a[(front + n) % QUE_SIZE := a[front]], (front + 1) % QUE_SIZE, n) == Cycled(Ring(a, front, n))
  {
    var end := (front + n) % QUE_SIZE;
    var q, q' := Ring(a, front, n), Ring(a[end := a[front]], (front + 1) % QUE_SIZE, n);
    forall i | 0 <= i < n ensures q'[i] == Cycled(q)[i] {
      SlotShift(front, n, i);
      assert Cycled(q)[i] == if i < n - 1 then q[i + 1] else q[0];
    }
  }

  lemma RingGrows(a: seq<Task>, front: nat, end: nat, n: nat, t: Task)
    requires |a| == QUE_SIZE && front < QUE_SIZE && n < QUE_SIZE && end == (front + n) % QUE_SIZE
    ensures Ring(a[end := t], front, n + 1) == Ring(a, front, n) + [t]
  {
    var q, q' := Ring(a, front, n), Ring(a[end := t], front, n + 1);
    forall i | 0 <= i < n ensures q'[i] == q[i] {
      assert (front + i) % QUE_SIZE != end;
    }
  }

  /** The ring holds the created tasks, rotated once per turn, each with the time of its priority. */
  ghost predicate Rotating(a: seq<Task>, front: nat, end: nat, created: seq<Task>, turns: nat) {
    && |a| == QUE_SIZE && front < QUE_SIZE && end < QUE_SIZE && |created| < QUE_SIZE
    && end == (front + |created|) % QUE_SIZE
    && Ring(a, front, |created|) == Rotated(created, turns)
    && (forall t :: t in created ==> t.time == PriTime(t.priority))
  }

  function Next(i: nat): nat {
    if i + 1 >= QUE_SIZE then 0 else i + 1
  }

  lemma NextEnd(front: nat, n: nat)
    requires front < QUE_SIZE && n < QUE_SIZE
    ensures (Next(front) + n) % QUE_SIZE == Next((front + n) % QUE_SIZE)
    ensures (front + n) % QUE_SIZE == front <==> n == 0
    ensures (front + 1) % QUE_SIZE == Next(front)
  {}

  /** The queue alone: one turn rotates it by one. */
  lemma TurnRotates(a: seq<Task>, front: nat, created: seq<Task>, turns: nat)
    requires |a| == QUE_SIZE && front < QUE_SIZE && 0 < |created| < QUE_SIZE
    requires Ring(a, front, |created|) == Rotated(created, turns)
    ensures Ring(a[(front + |created|) % QUE_SIZE := a[front]], Next(front), |created|) == Rotated(created, turns + 1)
  {
    calc {
      Ring(a[(front + |created|) % QUE_SIZE := a[front]], Next(front), |created|);
      { NextEnd(front, |created|); RingAdvances(a, front, |created|); }
      Cycled(Ring(a, front, |created|));
      Cycled(Rotated(created, turns));
      { RotatedOnce(created, turns); }
      Rotated(created, turns + 1);
    }
  }

  lemma EmptyKeepsRotating(a: seq<Task>, front: nat, end: nat, turns: nat)
    requires Rotating(a, front, end, [], turns)
    ensures Rotating(a, front, end, [], turns + 1) && front == end
  {
    assert Rotated([], turns) == [] && Rotated([], turns + 1) == [];
    NextEnd(front, 0);
  }

  lemma TurnKeepsRotating(a: seq<Task>, front: nat, end: nat, created: seq<Task>, turns: nat)
    requires Rotating(a, front, end, created, turns)
    ensures created == [] <==> front == end
    ensures created == [] ==> Rotating(a, front, end, created, turns + 1)
    ensures created != [] ==> Rotating(a[end := a[front]], Next(front), Next(end), created, turns + 1)
  {
    if created == [] {
      EmptyKeepsRotating(a, front, end, turns);
    } else {
      NextEnd(front, |created|);
      var a' := a[end := a[front]];
      assert Ring(a', Next(front), |created|) == Rotated(created, turns + 1) by {
        TurnRotates(a, front, created, turns);
      }
      assert Next(end) == (Next(front) + |created|) % QUE_SIZE;
    }
  }

  /** The front task is the one whose turn it is. */
  lemma FrontTask(a: seq<Task>, front: nat, end: nat, created: seq<Task>, turns: nat)
    requires Rotating(a, front, end, created, turns) && created != []
    ensures a[front] == created[turns % |created|] && a[front].time == PriTime(a[front].priority)
  {
    assert a[front] == Ring(a, front, |created|)[0];
    assert created[turns % |created|] in created;
  }

  /** A task stored at the end of a queue that does not wrap there.  Since `end` is not wrapped when a task is made,
      the queue survives exactly when it is neither full nor at the end of the buffer. */
  lemma TaskKeepsRotating(a: seq<Task>, front: nat, end: nat, created: seq<Task>, turns: nat, t: Task)
    requires Rotating(a, front, end, created, turns) && t.time == PriTime(t.priority)
    ensures Rotating(a[end := t], front, end + 1, Rotated(created, turns) + [t], 0) <==>
            |created| < QUE_SIZE - 1 && end < QUE_SIZE - 1
  {
    if |created| < QUE_SIZE - 1 && end < QUE_SIZE - 1 {
      RingGrows(a, front, end, |created|, t);
      RotatedByNone(Rotated(created, turns) + [t]);
      TimesKept(created, turns, t);
    }
  }

  lemma TimesKept(created: seq<Task>, turns: nat, t: Task)
    requires (forall u :: u in created ==> u.time == PriTime(u.priority)) && t.time == PriTime(t.priority)
    ensures forall u :: u in Rotated(created, turns) + [t] ==> u.time == PriTime(u.priority)
  {
    forall u | u in Rotated(created, turns) + [t] ensures u.time == PriTime(u.priority) {
      if u in Rotated(created, turns) {
        RotatedHolds(created, turns, u);
      }
    }
  }

  lemma RotatedHolds(q: seq<Task>, k: nat, t: Task)
    requires t in Rotated(q, k)
    ensures t in q
  {}

  lemma RotatedByNone(q: seq<Task>)
    ensures Rotated(q, 0) == q
  {}

  // ---------- a round of turns ----------

  function Stacks(q: seq<Task>): (r: seq<nat>)
    ensures |r| == |q| && forall i :: 0 <= i < |r| ==> r[i] == q[i].stack
  {
    if q == [] then [] else [q[0].stack] + Stacks(q[1..])
  }

  lemma {:induction false} StacksConcat(a: seq<Task>, b: seq<Task>)
    ensures Stacks(a + b) == Stacks(a) + Stacks(b)
  {
    if a == [] {
      assert a + b == b;
    } else {
      assert (a + b)[1..] == a[1..] + b;
      StacksConcat(a[1..], b);
    }
  }

  /** The stacks selected by k ticks after `turns` turns. */
  ghost predicate Selected(created: seq<Task>, turns: nat, stacks: seq<nat>) {
    created != [] ==> forall i :: 0 <= i < |stacks| ==> stacks[i] == created[TurnAt(turns + 1, i, |created|)].stack
  }

  lemma OneMoreSelected(created: seq<Task>, turns: nat, stacks: seq<nat>, stack: nat)
    requires Selected(created, turns, stacks)
    requires created != [] ==> stack == created[(turns + 1 + |stacks|) % |created|].stack
    ensures Selected(created, turns, stacks + [stack])
  {}

  /** As many ticks as there are tasks select every task once, in order of creation from some task on. */
  lemma RoundIsFair(created: seq<Task>, turns: nat, stacks: seq<nat>)
    requires created != [] && |stacks| == |created| && Selected(created, turns, stacks)
    ensures stacks == Stacks(Rotated(created, turns + 1))
    ensures multiset(stacks) == multiset(Stacks(created))
  {
    var n := |created|;
    var m := (turns + 1) % n;
    var r := Rotated(created, turns + 1);
    forall i | 0 <= i < n ensures stacks[i] == Stacks(r)[i] {
      TurnAtIs(turns + 1, i, n);
    }
    assert created == created[..m] + created[m..];
    StacksConcat(created[..m], created[m..]);
    StacksConcat(created[m..], created[..m]);
  }

  // ---------- the clock ----------

  /** Counting one tick keeps the total in step with seconds and ticks, also when a second ends. */
  lemma TickKeepsTotal(sysTime: nat, ticks: nat)
    requires sysTime < WORD && ticks < 100
    ensures ((100 * sysTime + ticks) % WORD + 1) % WORD ==
            if ticks == 99 then (100 * ((sysTime + 1) % WORD)) % WORD else (100 * sysTime + (ticks + 1)) % WORD
  {
    TickAdds(100 * sysTime + ticks, 0);
    if ticks == 99 {
      SecondEnds(sysTime);
    }
  }

  lemma SecondEnds(sysTime: nat)
    requires sysTime < WORD
    ensures (100 * sysTime + 100) % WORD == (100 * ((sysTime + 1) % WORD)) % WORD
  {}

  lemma TickAdds(total: nat, i: nat)
    ensures ((total + i) % WORD + 1) % WORD == (total + (i + 1)) % WORD
  {}

  class Scheduler {
    const rrq: array<Task>
    var front: nat
    var end: nat
    var ticks: nat
    var sysTime: nat
    var totalTicks: nat
    /** The tasks in the order of their turns, and the number of turns given since the last one was made. */
    ghost var created: seq<Task>
    ghost var turns: nat

    ghost predicate Valid()
      reads this, rrq
    {
      QueueOk() && ClockOk()
    }

    ghost predicate QueueOk()
      reads this`front, this`end, this`created, this`turns, rrq
    {
      rrq.Length == QUE_SIZE && Rotating(rrq[..], front, end, created, turns)
    }

    ghost predicate ClockOk()
      reads this`ticks, this`sysTime, this`totalTicks
    {
      ticks < 100 && sysTime < WORD && totalTicks == (100 * sysTime + ticks) % WORD
    }

    constructor ()
      ensures Valid() && created == [] && turns == 0 && end == 0 && totalTicks == 0 && fresh(rrq)
    {
      rrq := new Task[QUE_SIZE](_ => Task("", 0, 0, 0));
      front, end := 0, 0;
      ticks, sysTime, totalTicks := 0, 0, 0;
      created, turns := [], 0;
    }

    /** The new task takes its turn after those in the queue, in the order in which they stand there.  The queue
        survives exactly when there is room and `end` is not the last slot of the buffer. */
    method MakeTask(pri: int, name: string, stack: nat)
      requires QueueOk()
      modifies this`end, this`created, this`turns, rrq
      ensures rrq[..] == old(rrq[..])[old(end) := Task(Shortened(name), stack, pri, PriTime(pri))]
      ensures end == old(end) + 1 && turns == 0
      ensures created == Rotated(old(created), old(turns)) + [Task(Shortened(name), stack, pri, PriTime(pri))]
      ensures QueueOk() <==> |old(created)| < 127 && old(end) < 127
    {
      ghost var a, t := rrq[..], Task(Shortened(name), stack, pri, PriTime(pri));
      TaskKeepsRotating(a, front, end, created, turns, t);
      rrq[end] := Task(Shortened(name), stack, pri, PriTime(pri));
      assert rrq[..] == a[end := t];
      created, turns := Rotated(created, turns) + [t], 0;
      end := end + 1;
    }

    method Clock()
      requires ClockOk()
      modifies this`ticks, this`sysTime, this`totalTicks
      ensures ClockOk() && totalTicks == (old(totalTicks) + 1) % WORD
    {
      TickKeepsTotal(sysTime, ticks);
      ticks := ticks + 1;
      totalTicks := (totalTicks + 1) % WORD;
      if ticks >= 100 {
        sysTime := (sysTime + 1) % WORD;
        ticks := 0;
      }
    }

    /** The front task goes to the end of the queue. */
    method FrontToEnd()
      requires QueueOk()
      modifies this`front, this`end, this`turns, rrq
      ensures QueueOk() && turns == old(turns) + 1
    {
      TurnKeepsRotating(rrq[..], front, end, created, turns);
      turns := turns + 1;
      if front == end {
        return;
      }
      rrq[end] := rrq[front];
      end := end + 1;
      if end >= QUE_SIZE {
        end := 0;
      }
      front := front + 1;
      if front >= QUE_SIZE {
        front := 0;
      }
    }

    /** Gives the running task the time of its priority, moves it to the end and selects the next. */
    method Schedule() returns (stack: nat)
      requires QueueOk()
      modifies this`front, this`end, this`turns, rrq
      ensures QueueOk() && turns == old(turns) + 1
      ensures created != [] ==> stack == created[turns % |created|].stack
    {
      TurnKeepsRotating(rrq[..], front, end, created, turns);
      if front != end {
        ghost var a := rrq[..];
        FrontTask(a, front, end, created, turns);
        rrq[front] := rrq[front].(time := PriTime(rrq[front].priority));
        assert rrq[..] == a;
      }
      FrontToEnd();
      stack := rrq[front].stack;
      if created != [] {
        FrontTask(rrq[..], front, end, created, turns);
      }
    }

    /** The timer interrupt: clock, then the next task in creation order. */
    method TaskTimer() returns (stack: nat)
      requires Valid()
      modifies this, rrq
      ensures Valid() && created == old(created) && turns == old(turns) + 1
      ensures totalTicks == (old(totalTicks) + 1) % WORD
      ensures created != [] ==> stack == created[turns % |created|].stack
    {
      Clock();
      stack := Schedule();
    }

    /** Since the queue had `before` turns and the clock `total` ticks, `stacks` were selected. */
    ghost predicate Ran(tasks: seq<Task>, before: nat, total: nat, stacks: seq<nat>)
      reads this
    {
      && created == tasks && turns == before + |stacks| && totalTicks == (total + |stacks|) % WORD
      && Selected(tasks, before, stacks)
    }

    method TickOnce(ghost tasks: seq<Task>, ghost before: nat, ghost total: nat, stacks: seq<nat>)
        returns (stacks': seq<nat>)
      requires Valid() && Ran(tasks, before, total, stacks)
      modifies this, rrq
      ensures Valid() && Ran(tasks, before, total, stacks') && |stacks'| == |stacks| + 1
    {
      var stack := TaskTimer();
      OneMoreSelected(tasks, before, stacks, stack);
      stacks' := stacks + [stack];
      assert totalTicks == (total + |stacks'|) % WORD by { TickAdds(total, |stacks|); }
    }

    /** Any run of ticks: the stacks selected, in order. */
    method Ticks(k: nat) returns (stacks: seq<nat>)
      requires Valid()
      modifies this, rrq
      ensures Valid() && |stacks| == k && Ran(old(created), old(turns), old(totalTicks), stacks)
    {
      stacks := [];
      var i := 0;
      ghost var tasks, before, total := created, turns, totalTicks;
      while i < k
        invariant 0 <= i <= k && |stacks| == i && Valid() && Ran(tasks, before, total, stacks)
      {
        stacks := TickOnce(tasks, before, total, stacks);
        i := i + 1;
      }
    }
  }
}
