/**
 * The preemptive scheduler of kernel/sched/sched.c: a circular list of tasks,
 * a list of dead ones, a reaper task that frees them, and the switch that runs
 * at the end of an interrupt. One processor; interrupts come between any two steps.
 */
module Sched {
  import opened Basics

  datatype State = Ready | Running | Dead

  /** What a task finds on the processor: its stack pointer and FPU/SSE state. */
  datatype Context = Context(rsp: nat, fpu: nat)

  /** A task structure; next is the address of another one, or NULL. */
  datatype Task = Task(id: nat, cr3: nat, stack: nat, next: nat, state: State, rsp: nat, fpu: nat)

  const NULL := 0

  /** The task structures in memory, by address. */
  type Tasks = map<nat, Task>

  // ------------------------------------------------- the ring as a queue

  /** The ring read from the current task on, after a switch away from its first task. */
  function Advance<T>(ring: seq<T>, dead: bool): (r: seq<T>)
    requires |ring| >= 1
    ensures |r| == if dead then |ring| - 1 else |ring|
  {
    if dead then ring[1..] else ring[1..] + [ring[0]]
  }

  /** A run of switches; each flag says whether the task switched away from was dead. */
  function AdvanceAll<T>(ring: seq<T>, dead: seq<bool>): (r: seq<T>)
    requires |dead| < |ring|
    decreases |dead|
  {
    if dead == [] then ring else AdvanceAll(Advance(ring, dead[0]), dead[1..])
  }

  /** Fairness: the task k places behind the current one is k - j places behind after j switches, and runs after k. */
  lemma {:induction false} Fairness<T>(ring: seq<T>, dead: seq<bool>, k: nat)
    requires |dead| <= k < |ring|
    ensures |AdvanceAll(ring, dead)| > k - |dead| && AdvanceAll(ring, dead)[k - |dead|] == ring[k]
    decreases |dead|
  {
    if dead != [] { Fairness(Advance(ring, dead[0]), dead[1..], k - 1); }
  }

  function InsertAt<T>(ring: seq<T>, k: nat, t: T): seq<T>
    requires k <= |ring|
  {
    ring[..k] + [t] + ring[k..]
  }

  lemma DistinctAdvance<T>(ring: seq<T>, dead: bool)
    requires |ring| >= 1 && Distinct(ring)
    ensures Distinct(Advance(ring, dead))
    ensures forall t :: t in Advance(ring, dead) <==> t in ring && !(dead && t == ring[0])
  {
    var r := Advance(ring, dead);
    forall t ensures t in r <==> t in ring && !(dead && t == ring[0]) {
      if t in ring && !(dead && t == ring[0]) {
        var i :| 0 <= i < |ring| && ring[i] == t;
        if i == 0 { assert r[|ring| - 1] == t; } else { assert r[i - 1] == t; }
      }
    }
  }

  lemma InsertItems<T>(ring: seq<T>, k: nat, t: T)
    requires k <= |ring|
    ensures |InsertAt(ring, k, t)| == |ring| + 1 && InsertAt(ring, k, t)[k] == t
    ensures forall i :: 0 <= i < k ==> InsertAt(ring, k, t)[i] == ring[i]
    ensures forall i :: k < i <= |ring| ==> InsertAt(ring, k, t)[i] == ring[i - 1]
  {
  }

  lemma DistinctInsert<T>(ring: seq<T>, k: nat, t: T)
    requires k <= |ring| && Distinct(ring) && t !in ring
    ensures Distinct(InsertAt(ring, k, t))
    ensures forall u :: u in InsertAt(ring, k, t) <==> u in ring || u == t
  {
    var r := InsertAt(ring, k, t);
    InsertItems(ring, k, t);
    forall u | u in ring ensures u in r {
      var i :| 0 <= i < |ring| && ring[i] == u;
      assert r[if i < k then i else i + 1] == u;
    }
    assert r[k] == t;
  }

  function Successor<T>(ring: seq<T>, i: nat): T
    requires i < |ring|
  {
    if i + 1 < |ring| then ring[i + 1] else ring[0]
  }

  /** Every task of the sequence points to the one after it, the last one to the first. */
  ghost predicate Circular(mem: Tasks, ring: seq<nat>)
  {
    && (forall i :: 0 <= i < |ring| ==> ring[i] in mem && ring[i] != NULL)
    && forall i :: 0 <= i < |ring| ==> mem[ring[i]].next == Successor(ring, i)
  }

  /** A null-terminated list. */
  ghost predicate Linear(mem: Tasks, list: seq<nat>, first: nat)
  {
    && (forall i :: 0 <= i < |list| ==> list[i] in mem && list[i] != NULL)
    && first == (if |list| > 0 then list[0] else NULL)
    && forall i :: 0 <= i < |list| ==> mem[list[i]].next == Follower(list, i)
  }

  function Follower(list: seq<nat>, i: nat): nat
    requires i < |list|
  {
    if i + 1 < |list| then list[i + 1] else NULL
  }

  /** Every other task of the ring is READY, the first one is not, and the reaper is not DEAD. */
  ghost predicate States(mem: Tasks, ring: seq<nat>, reaper: nat)
  {
    && (forall i :: 0 <= i < |ring| ==> ring[i] in mem)
    && (forall i :: 1 <= i < |ring| ==> mem[ring[i]].state == Ready)
    && |ring| >= 1 && mem[ring[0]].state != Ready && reaper in ring && mem[reaper].state != Dead
  }

  /** Whatever is not in the ring has exited. */
  ghost predicate Exited(mem: Tasks, ring: seq<nat>)
  {
    forall t :: t in mem && t !in ring ==> mem[t].state == Dead
  }

  /** Every task in memory is in exactly one place: ring, dead list, or the reaper's hands. */
  ghost predicate Partition(mem: Tasks, ring: seq<nat>, corpses: seq<nat>, held: nat)
  {
    && (forall t :: t in ring ==> t !in corpses && t != held)
    && (forall t :: t in corpses ==> t != held)
    && (held != NULL ==> held in mem)
    && (forall t :: t in mem ==> t in ring || t in corpses || (t == held && held != NULL))
  }

  /** Every task number given out belongs to one task in memory, or to a freed one, and not to both. */
  ghost predicate Numbers(mem: Tasks, freed: set<nat>, nextId: nat)
  {
    && (forall t :: t in mem ==> mem[t].id < nextId && mem[t].id !in freed)
    && (forall s, t :: s in mem && t in mem && s != t ==> mem[s].id != mem[t].id)
    && (forall n :: n in freed ==> n < nextId)
    && (forall n :: 0 <= n < nextId && n !in freed ==> Living(mem, n))
  }

  ghost predicate Living(mem: Tasks, n: nat)
  {
    exists t :: t in mem && mem[t].id == n
  }

  /** What the reaper has not freed yet of the task in its hands. */
  datatype Phase = Whole | NoPml4 | NoStack

  predicate HasStack(held: nat, phase: Phase, t: nat)
  {
    t != held || phase != NoStack
  }

  predicate HasPml4(held: nat, phase: Phase, t: nat)
  {
    t != held || phase == Whole
  }

  /** Tasks have their own stacks, and their own PML4s unless they use the kernel's, as long as these are not freed. */
  ghost predicate Private(mem: Tasks, kernel: nat, held: nat, phase: Phase)
  {
    forall s, t :: s in mem && t in mem && s != t ==>
      && (HasStack(held, phase, s) && HasStack(held, phase, t) ==> mem[s].stack != mem[t].stack)
      && (HasPml4(held, phase, s) && HasPml4(held, phase, t) && mem[s].cr3 == mem[t].cr3 ==> mem[s].cr3 == kernel)
  }

  /** Every waiting task holds the context it was suspended with. */
  ghost predicate Contexts(mem: Tasks, ring: seq<nat>, saved: map<nat, Context>)
  {
    forall i :: 1 <= i < |ring| ==>
        ring[i] in mem && ring[i] in saved && saved[ring[i]] == Context(mem[ring[i]].rsp, mem[ring[i]].fpu)
  }

  /** The scheduler's state between two steps, apart from the processor. */
  datatype View = View(
    mem: Tasks, ring: seq<nat>, reaper: nat, head: nat, corpses: seq<nat>, deadList: nat, held: nat, phase: Phase,
    freed: set<nat>, nextId: nat, kernel: nat, saved: map<nat, Context>)

  /** What holds between any two steps. */
  ghost predicate Inv(v: View)
  {
    && Circular(v.mem, v.ring) && States(v.mem, v.ring, v.reaper) && Exited(v.mem, v.ring) && v.head in v.ring
    && Distinct(v.ring)
    && Linear(v.mem, v.corpses, v.deadList) && Distinct(v.corpses)
    && Partition(v.mem, v.ring, v.corpses, v.held) && Numbers(v.mem, v.freed, v.nextId)
    && Private(v.mem, v.kernel, v.held, v.phase) && Contexts(v.mem, v.ring, v.saved)
  }

  class Scheduler {
    var mem: Tasks
    var current: nat
    var head: nat
    var deadList: nat
    var held: nat
    var phase: Phase
    var needResched: bool
    var cpu: Context
    var loaded: nat
    const kernel: nat
    const reaper: nat
    ghost var ring: seq<nat>
    ghost var corpses: seq<nat>
    ghost var freed: set<nat>
    var nextId: nat
    ghost var saved: map<nat, Context>

    ghost function Now(): View
      reads this
    {
      View(mem, ring, reaper, head, corpses, deadList, held, phase, freed, nextId, kernel, saved)
    }

    ghost predicate Valid()
      reads this
    {
      && Inv(Now())
      && current == ring[0] && loaded == mem[current].cr3
    }

    /** sched_init: kmain as the running task, and the reaper behind it. */
    constructor (kernel: nat, t0: nat, t1: nat, stack: nat, reaperStack: nat, context: Context, reaperContext: Context)
      requires stack != reaperStack && t0 != t1 && t0 != NULL && t1 != NULL
      ensures Valid() && ring == [t0, t1] && reaper == t1 && mem.Keys == {t0, t1} && freed == {}
    {
      mem := map[t0 := Task(0, kernel, stack, t1, Running, context.rsp, context.fpu),
                 t1 := Task(1, kernel, reaperStack, t0, Ready, reaperContext.rsp, reaperContext.fpu)];
      this.kernel, reaper, current, head, deadList, held := kernel, t1, t0, t0, NULL, NULL;
      needResched, cpu, loaded, nextId, phase := false, context, kernel, 2, Whole;
      ring, corpses, freed, saved := [t0, t1], [], {}, map[t1 := reaperContext];
      new;
      InitialInv(mem, t0, t1, kernel, saved);
    }

    /** list_insert, with the rest of task_create: the new task goes right behind the list head. */
    method Insert(a: nat, t: Task)
      requires Valid() && a !in mem && a != NULL && t.state == Ready && t.id == nextId
      requires Unused(mem, held, phase, kernel, t.cr3, t.stack)
      modifies this`mem, this`ring, this`saved, this`nextId
      ensures Valid() && mem.Keys == old(mem).Keys + {a} && nextId == old(nextId) + 1
      ensures exists k :: 0 <= k < |old(ring)| && old(ring)[k] == head && ring == InsertAt(old(ring), k + 1, a)
      ensures saved == old(saved)[a := Context(t.rsp, t.fpu)]
    {
      hide Inv, InsertAt, Circular, Distinct;
      InvRing(Now());
      ghost var k :| 0 <= k < |ring| && ring[k] == head;
      InsertInv(Now(), k, a, t);
      mem := mem[a := t.(next := mem[head].next)];
      mem := mem[head := mem[head].(next := a)];
      ring := InsertAt(ring, k + 1, a);
      saved, nextId := saved[a := Context(t.rsp, t.fpu)], nextId + 1;
    }

    /** pick_next_ready: the first READY task behind the current one, else the current one unless it is DEAD. */
    method PickNextReady() returns (p: nat)
      requires |ring| >= 1 && Circular(mem, ring) && Distinct(ring) && current == ring[0]
      ensures (exists k :: 1 <= k < |ring| && FirstReady(mem, ring, k) && p == ring[k])
              || (NoneReady(mem, ring, |ring|) && p == if mem[current].state == Dead then NULL else current)
    {
      p := mem[current].next;
      ghost var i := 1;
      while p != current
        invariant 1 <= i <= |ring| && p == (if i < |ring| then ring[i] else ring[0]) && NoneReady(mem, ring, i)
        decreases |ring| - i
      {
        if mem[p].state == Ready {
          assert FirstReady(mem, ring, i);
          return;
        }
        assert mem[ring[i]].next == Successor(ring, i);
        p := mem[p].next;
        i := i + 1;
      }
      if mem[current].state == Dead { p := NULL; }
    }

    /** list_remove of the task the ring starts with: its predecessor is found from the list head on. */
    method ListRemove(t: nat)
      requires |ring| >= 1 && Circular(mem, ring) && Distinct(ring) && t == ring[0] && head in ring
      modifies this`mem, this`head
      ensures mem == Unlinked(old(mem), ring) && if |ring| == 1 then head == NULL else head in ring[1..]
      ensures |ring| > 1 ==> head == if old(head) == t then ring[1] else old(head)
    {
      hide Distinct, Successor;
      ghost var i :| 0 <= i < |ring| && ring[i] == head;
      var p := head;
      while mem[p].next != t
        invariant 0 <= i < |ring| && p == ring[i] && mem == old(mem) && head == old(head)
        decreases |ring| - i
      {
        SuccessorAt(ring, i);
        p := mem[p].next;
        i := i + 1;
      }
      SuccessorAt(ring, i);
      SuccessorAt(ring, 0);
      if head != t {
        ghost var h :| 0 <= h < |ring| && ring[h] == head;
        assert ring[1..][h - 1] == head;
      }
      mem := mem[p := mem[p].(next := mem[t].next)];
      if head == t { head := if mem[t].next == t then NULL else mem[t].next; }
      mem := mem[t := mem[t].(next := NULL)];
    }

    /**
     * sched_maybe_switch, called with the interrupt frame's address. A switch
     * moves the ring on by one task; the task that resumes finds exactly the
     * context it was suspended with, and CR3 becomes its own. A dead task goes
     * to the dead list. The panic is never reached.
     */
    method MaybeSwitch(frame: nat) returns (rsp: nat, panicked: bool)
      requires Valid()
      modifies this`mem, this`current, this`head, this`deadList, this`needResched, this`cpu, this`loaded, this`ring,
               this`corpses, this`saved
      ensures Valid() && !panicked && !needResched && mem.Keys == old(mem).Keys
      ensures !(old(needResched) && |old(ring)| >= 2) ==>
                rsp == 0 && mem == old(mem) && ring == old(ring) && corpses == old(corpses) && saved == old(saved)
                    && cpu == old(cpu)
      ensures old(needResched) && |old(ring)| >= 2 ==>
                var dead := old(mem[current]).state == Dead;
                && ring == Advance(old(ring), dead)
                && corpses == (if dead then [old(current)] + old(corpses) else old(corpses))
                && saved == (if dead then old(saved) else old(saved)[old(current) := Context(frame, old(cpu.fpu))])
                && current in old(saved) && cpu == old(saved)[current] && rsp == cpu.rsp
    {
      hide Inv, Advance;
      panicked, rsp := false, 0;
      if !needResched { return; }
      needResched := false;
      var prev := current;
      InvRing(Now());
      var next := Choose();
      if next == NULL || next == prev {
        panicked := mem[prev].state == Dead;
        return;
      }
      rsp := Switch(prev, next, frame);
    }

    /** The choice of the next task: the second of the ring, or a lone task that is not dead. */
    method Choose() returns (next: nat)
      requires Valid()
      ensures if |ring| >= 2 then next == ring[1] && next in mem && next != current && next != NULL
              else next == current && mem[current].state != Dead
    {
      hide Inv, Circular, Distinct, NoneReady, FirstReady;
      InvRing(Now());
      next := PickNextReady();
      PickedNext(Now(), next);
    }

    /** The switch from prev to next: prev leaves, next resumes. */
    method Switch(prev: nat, next: nat, frame: nat) returns (rsp: nat)
      requires Valid() && |ring| >= 2 && prev == current && next == ring[1]
      modifies this`mem, this`current, this`head, this`deadList, this`cpu, this`loaded, this`ring, this`corpses,
               this`saved
      ensures Valid() && mem.Keys == old(mem).Keys
      ensures var dead := old(mem[prev]).state == Dead;
              && ring == Advance(old(ring), dead)
              && corpses == (if dead then [prev] + old(corpses) else old(corpses))
              && saved == (if dead then old(saved) else old(saved)[prev := Context(frame, old(cpu.fpu))])
      ensures current in old(saved) && cpu == old(saved)[current] && rsp == cpu.rsp
    {
      hide Inv, Circular, Distinct, Unlinked, Advance, Suspended, Pushed, Resumed;
      InvRing(Now());
      Leave(prev, next, frame);
      ResumedCr3(mem, next);
      rsp := Resume(prev, next);
    }

    /** What happens before next resumes. */
    method Leave(prev: nat, next: nat, frame: nat)
      requires |ring| >= 2 && Inv(Now()) && prev == ring[0] && prev in mem && next == ring[1]
      modifies this`mem, this`head, this`deadList, this`ring, this`corpses, this`saved
      ensures ring == Advance(old(ring), old(mem)[prev].state == Dead) && ring[0] == next
      ensures corpses == if old(mem)[prev].state == Dead then [prev] + old(corpses) else old(corpses)
      ensures saved == if old(mem)[prev].state == Dead then old(saved) else old(saved)[prev := Context(frame, cpu.fpu)]
      ensures next in old(saved) && Leaves(old(mem), mem, prev, next, old(saved)[next])
      ensures Inv(Now().(mem := Resumed(mem, next)))
    {
      hide Inv, Resumed, Advance, Leaves;
      if mem[prev].state != Dead {
        LeaveAlive(prev, next, frame);
      } else {
        LeaveDead(prev, next);
      }
    }

    /** The same for a task that goes on living. */
    method LeaveAlive(prev: nat, next: nat, frame: nat)
      requires |ring| >= 2 && Inv(Now()) && prev == ring[0] && prev in mem && mem[prev].state != Dead && next == ring[1]
      modifies this`mem, this`ring, this`saved
      ensures ring == Advance(old(ring), false) && ring[0] == next
              && saved == old(saved)[prev := Context(frame, cpu.fpu)]
      ensures next in old(saved) && Leaves(old(mem), mem, prev, next, old(saved)[next])
      ensures Inv(Now().(mem := Resumed(mem, next)))
    {
      hide Inv, Suspended, Resumed, Advance;
      AliveSwitch(Now(), Context(frame, cpu.fpu));
      SaveContext(prev, frame);
      ring, saved := Advance(ring, false), saved[prev := Context(frame, cpu.fpu)];
    }

    /** The same for a task that has exited. */
    method LeaveDead(prev: nat, next: nat)
      requires |ring| >= 2 && Inv(Now()) && prev == ring[0] && prev in mem && mem[prev].state == Dead && next == ring[1]
      modifies this`mem, this`head, this`deadList, this`ring, this`corpses
      ensures ring == Advance(old(ring), true) && ring[0] == next && corpses == [prev] + old(corpses)
      ensures next in saved && Leaves(old(mem), mem, prev, next, saved[next])
      ensures Inv(Now().(mem := Resumed(mem, next)))
    {
      hide Inv, Unlinked, Pushed, Resumed, Advance, Circular, Distinct;
      InvRing(Now());
      DeadSwitch(Now());
      ListRemove(prev);
      Bury(prev);
      ring, corpses := Advance(ring, true), [prev] + corpses;
    }

    /** task_exit before its interrupt; the reaper never calls it. */
    method Exit()
      requires Valid() && current != reaper
      modifies this`mem, this`needResched
      ensures Valid() && current in old(mem) && mem == old(mem)[current := old(mem)[current].(state := Dead)]
              && needResched
    {
      hide Inv;
      InvRing(Now());
      ExitInv(Now());
      mem := mem[current := mem[current].(state := Dead)];
      needResched := true;
    }

    /** The timer, or task_yield before its interrupt. */
    method RequestSwitch()
      requires Valid()
      modifies this`needResched
      ensures Valid() && needResched
    {
      hide Inv;
      needResched := true;
    }

    /** The current task computes: any change of its stack pointer and FPU state. */
    method Compute(c: Context)
      requires Valid()
      modifies this`cpu
      ensures Valid() && cpu == c
    {
      hide Inv;
      cpu := c;
    }

    /** The reaper's pop: the head of the dead list passes into its hands. */
    method ReaperPop()
      requires Valid() && current == reaper && held == NULL
      modifies this`deadList, this`held, this`phase, this`corpses
      ensures Valid()
      ensures phase == Whole || held == NULL
      ensures if old(corpses) == [] then held == NULL && corpses == []
              else held == old(corpses)[0] && corpses == old(corpses)[1..]
    {
      hide Inv;
      PopInv(Now());
      var dead := deadList;
      if dead != NULL {
        deadList := mem[dead].next;
        held, phase := dead, Whole;
        corpses := corpses[1..];
      }
    }

    /**
     * The reaper's round, one free at a time: first the PML4, unless it is the
     * kernel's. No other task has it, and it is not loaded in CR3.
     */
    method FreePml4() returns (pml4: nat)
      requires Valid() && current == reaper && held != NULL && phase == Whole
      modifies this`phase
      ensures Valid() && phase == NoPml4 && held in mem && mem[held].state == Dead && held != current
      ensures pml4 == if mem[held].cr3 == kernel then NULL else mem[held].cr3
      ensures pml4 != NULL ==> pml4 != loaded && forall t :: t in mem && t != held ==> mem[t].cr3 != pml4
    {
      hide Inv, Private;
      HeldFacts(Now());
      ReleasedInv(Now(), NoPml4);
      pml4 := NULL;
      if mem[held].cr3 != NULL && mem[held].cr3 != kernel { pml4 := mem[held].cr3; }
      phase := NoPml4;
    }

    /** Then the stack, which no other task has. */
    method FreeStack() returns (stack: nat)
      requires Valid() && current == reaper && held != NULL && phase == NoPml4
      modifies this`phase
      ensures Valid() && phase == NoStack && held in mem && mem[held].state == Dead && held != current
      ensures stack == mem[held].stack && forall t :: t in mem && t != held ==> mem[t].stack != stack
    {
      hide Inv, Private;
      HeldFacts(Now());
      ReleasedInv(Now(), NoStack);
      stack := mem[held].stack;
      phase := NoStack;
    }

    /** Then the task structure itself. */
    method FreeTask()
      requires Valid() && current == reaper && held != NULL && phase == NoStack
      modifies this`mem, this`held, this`phase, this`freed
      ensures Valid() && held == NULL && old(held) in old(mem) && old(mem)[old(held)].state == Dead
              && old(held) != current
      ensures mem == old(mem) - {old(held)} && freed == old(freed) + {old(mem)[old(held)].id}
    {
      hide Inv, Private;
      HeldFacts(Now());
      FreeInv(Now());
      freed := freed + {mem[held].id};
      mem := mem - {held};
      held, phase := NULL, Whole;
    }

    method SaveContext(prev: nat, frame: nat)
      requires prev in mem
      modifies this`mem
      ensures mem == Suspended(old(mem), prev, Context(frame, cpu.fpu))
    {
      mem := mem[prev := mem[prev].(rsp := frame, fpu := cpu.fpu)];
      if mem[prev].state == Running { mem := mem[prev := mem[prev].(state := Ready)]; }
    }

    method Bury(prev: nat)
      requires prev in mem
      modifies this`mem, this`deadList
      ensures mem == Pushed(old(mem), prev, old(deadList)) && deadList == prev
    {
      mem := mem[prev := mem[prev].(next := deadList)];
      deadList := prev;
    }

    method Resume(prev: nat, next: nat) returns (rsp: nat)
      requires prev in mem && next in mem
      modifies this`mem, this`current, this`cpu, this`loaded
      ensures mem == Resumed(old(mem), next) && current == next && rsp == cpu.rsp
      ensures cpu == Context(old(mem)[next].rsp, old(mem)[next].fpu)
      ensures old(loaded) == old(mem)[prev].cr3 ==> loaded == old(mem)[next].cr3
    {
      mem := mem[next := mem[next].(state := Running)];
      current := next;
      cpu := Context(mem[next].rsp, mem[next].fpu);
      if mem[prev].cr3 != mem[next].cr3 { loaded := mem[next].cr3; }
      rsp := mem[next].rsp;
    }
  }

  /**
   * No task has this stack, and none this PML4 unless it is the kernel's; what the
   * reaper has freed may be used again.
   */
  predicate Unused(mem: Tasks, held: nat, phase: Phase, kernel: nat, cr3: nat, stack: nat)
  {
    forall s :: s in mem ==>
      && (HasStack(held, phase, s) ==> mem[s].stack != stack)
      && (HasPml4(held, phase, s) && mem[s].cr3 == cr3 ==> cr3 == kernel)
  }

  /** What the resumption needs of the memory it finds: next still holds its saved context, and no PML4 changed. */
  ghost predicate Leaves(mem: Tasks, mem': Tasks, prev: nat, next: nat, c: Context)
  {
    && mem'.Keys == mem.Keys && prev in mem && next in mem
    && mem'[prev].cr3 == mem[prev].cr3 && mem'[next].cr3 == mem[next].cr3
    && c == Context(mem'[next].rsp, mem'[next].fpu)
  }

  lemma ResumedCr3(mem: Tasks, p: nat)
    requires p in mem
    ensures Resumed(mem, p)[p].cr3 == mem[p].cr3
  {
  }

  function Suspended(mem: Tasks, p: nat, c: Context): (r: Tasks)
    requires p in mem
    ensures r.Keys == mem.Keys
  {
    mem[p := mem[p].(rsp := c.rsp, fpu := c.fpu, state := if mem[p].state == Running then Ready else mem[p].state)]
  }

  function Pushed(mem: Tasks, p: nat, deadList: nat): (r: Tasks)
    requires p in mem
    ensures r.Keys == mem.Keys
  {
    mem[p := mem[p].(next := deadList)]
  }

  function Resumed(mem: Tasks, p: nat): (r: Tasks)
    requires p in mem
    ensures r.Keys == mem.Keys
  {
    mem[p := mem[p].(state := Running)]
  }

  datatype Step =
    | Spawn(address: nat, cr3: nat, stack: nat, context: Context)
    | Request
    | Work(context: Context)
    | Interrupt(frame: nat)
    | Exiting
    | Reap

  /** One step; a step that is not possible in the state is skipped. */
  method TakeStep(s: Scheduler, step: Step) returns (switched: bool, panicked: bool)
    requires s.Valid()
    modifies s
    ensures s.Valid() && !panicked
    ensures forall x :: x in old(s.ring) && x != old(s.current) ==>
              && x in s.ring && x in old(s.saved) && x in s.saved && s.saved[x] == old(s.saved)[x]
              && (s.current == x ==> s.cpu == old(s.saved)[x])
    ensures !step.Spawn? && !switched ==> s.ring == old(s.ring)
    ensures switched ==>
            |old(s.ring)| >= 2 && (s.ring == Advance(old(s.ring), false) || s.ring == Advance(old(s.ring), true))
  {
    hide Inv, Advance, InsertAt;
    switched, panicked := false, false;
    InvWaiting(s.Now());
    match step
    case Spawn(a, cr3, stack, c) =>
      if a !in s.mem && a != NULL && Unused(s.mem, s.held, s.phase, s.kernel, cr3, stack) {
        InsertKeeps(s.ring, a);
        s.Insert(a, Task(s.nextId, cr3, stack, NULL, Ready, c.rsp, c.fpu));
      }
    case Request => s.RequestSwitch();
    case Work(c) => s.Compute(c);
    case Interrupt(frame) =>
      switched := s.needResched;
      AdvanceKeeps(s.ring);
      SingleRing(s.ring);
      var rsp;
      var before := s.current;
      rsp, panicked := s.MaybeSwitch(frame);
      switched := switched && s.current != before;
    case Exiting =>
      if s.current != s.reaper { s.Exit(); }
    case Reap =>
      if s.current == s.reaper {
        if s.held == NULL {
          s.ReaperPop();
        } else if s.phase == Whole {
          var pml4 := s.FreePml4();
        } else if s.phase == NoPml4 {
          var stack := s.FreeStack();
        } else {
          s.FreeTask();
        }
      }
  }

  /** Every run: any interleaving of the steps keeps the invariant, and the scheduler never panics. */
  method Run(s: Scheduler, steps: seq<Step>) returns (panicked: bool)
    requires s.Valid()
    modifies s
    ensures s.Valid() && !panicked
  {
    hide Inv;
    panicked := false;
    for k := 0 to |steps|
      invariant s.Valid() && !panicked
    {
      var switched;
      switched, panicked := TakeStep(s, steps[k]);
    }
  }

  /**
   * A run observed until the waiting task t resumes: t then finds exactly the
   * context it was suspended with, and CR3 is its own. With no task created,
   * each switch brings t one place nearer, so that it runs after k switches.
   */
  method RunToward(s: Scheduler, steps: seq<Step>, t: nat, ghost k: nat) returns (ghost switches: nat)
    requires s.Valid() && 1 <= k < |s.ring| && s.ring[k] == t
    modifies s
    ensures s.Valid() && t in s.mem && t in s.ring && t in old(s.saved)
    ensures s.current == t ==> s.cpu == old(s.saved)[t] && s.loaded == s.mem[t].cr3
    ensures (forall step :: step in steps ==> !step.Spawn?) ==>
              switches <= k && k - switches < |s.ring| && s.ring[k - switches] == t
                  && (s.current == t <==> switches == k)
  {
    hide Inv, Advance;
    switches := 0;
    var i := 0;
    InvWaiting(s.Now());
    InvDistinct(s.Now(), k);
    while i < |steps| && s.current != t
      invariant 0 <= i <= |steps| && s.Valid() && t in s.ring && t in old(s.saved)
      invariant s.current != t ==> t in s.saved && s.saved[t] == old(s.saved)[t]
      invariant s.current == t ==> s.cpu == old(s.saved)[t]
      invariant (forall step :: step in steps ==> !step.Spawn?) ==>
                  switches <= k && k - switches < |s.ring| && s.ring[k - switches] == t
                      && (s.current == t <==> switches == k)
    {
      ghost var ring := s.ring;
      var switched, panicked := TakeStep(s, steps[i]);
      if (forall step :: step in steps ==> !step.Spawn?) && switched {
        AdvanceIndex(ring, k - switches);
        switches := switches + 1;
        InvDistinct(s.Now(), k - switches);
      }
      i := i + 1;
    }
    InvIn(s.Now(), t);
  }

  lemma AdvanceIndex<T>(ring: seq<T>, k: nat)
    requires 1 <= k < |ring|
    ensures forall dead :: k - 1 < |Advance(ring, dead)| && Advance(ring, dead)[k - 1] == ring[k]
  {
  }

  lemma AdvanceKeeps(ring: seq<nat>)
    requires |ring| >= 1
    ensures forall x, dead :: x in ring && x != ring[0] ==> x in Advance(ring, dead)
    ensures |ring| >= 2 && Distinct(ring) ==> forall dead :: Advance(ring, dead)[0] != ring[0]
  {
    forall x, dead | x in ring && x != ring[0] ensures x in Advance(ring, dead) {
      var i :| 0 <= i < |ring| && ring[i] == x;
      assert Advance(ring, dead)[i - 1] == x;
    }
  }

  lemma SingleRing(ring: seq<nat>)
    requires |ring| >= 1
    ensures |ring| == 1 ==> forall x :: x in ring ==> x == ring[0]
  {
  }

  lemma InsertKeeps(ring: seq<nat>, a: nat)
    ensures forall k, x :: 0 <= k <= |ring| && x in ring ==> x in InsertAt(ring, k, a)
  {
    forall k, x | 0 <= k <= |ring| && x in ring ensures x in InsertAt(ring, k, a) {
      assert ring == ring[..k] + ring[k..];
    }
  }

  lemma InvWaiting(v: View)
    requires Inv(v)
    ensures |v.ring| >= 1 && Distinct(v.ring) && forall x :: x in v.ring ==>
            x in v.mem && (x != v.ring[0] ==> x in v.saved)
  {
    hide Distinct, Partition, Private, Numbers, Linear, Exited;
    forall x | x in v.ring ensures x in v.mem && (x != v.ring[0] ==> x in v.saved) {
      var i :| 0 <= i < |v.ring| && v.ring[i] == x;
    }
  }

  lemma InvIn(v: View, t: nat)
    requires Inv(v) && t in v.ring
    ensures t in v.mem
  {
    hide Distinct, Partition, Private, Numbers, Linear, Exited;
  }

  lemma InvDistinct(v: View, k: nat)
    requires Inv(v) && k < |v.ring|
    ensures v.ring[k] == v.ring[0] <==> k == 0
  {
    hide Partition, Private, Numbers, Linear, Exited;
  }

  lemma InitialInv(mem: Tasks, t0: nat, t1: nat, kernel: nat, saved: map<nat, Context>)
    requires t0 != t1 && t0 != NULL && t1 != NULL && mem.Keys == {t0, t1} && mem[t0].next == t1 && mem[t1].next == t0
    requires mem[t0].id == 0 && mem[t1].id == 1 && mem[t0].stack != mem[t1].stack && mem[t0].cr3 == kernel
             && mem[t1].cr3 == kernel
    requires mem[t0].state == Running && mem[t1].state == Ready && saved == map[t1 := Context(mem[t1].rsp, mem[t1].fpu)]
    ensures Inv(View(mem, [t0, t1], t1, t0, [], NULL, NULL, Whole, {}, 2, kernel, saved))
  {
    hide Numbers;
    InitialNumbers(mem, t0, t1);
  }

  lemma InitialNumbers(mem: Tasks, t0: nat, t1: nat)
    requires mem.Keys == {t0, t1} && t0 != t1 && mem[t0].id == 0 && mem[t1].id == 1
    ensures Numbers(mem, {}, 2)
  {
    assert Living(mem, 0) by { assert mem[t0].id == 0; }
    assert Living(mem, 1) by { assert mem[t1].id == 1; }
  }

  lemma ExitInv(v: View)
    requires Inv(v) && |v.ring| >= 1 && v.ring[0] != v.reaper && v.ring[0] in v.mem
    ensures Inv(v.(mem := v.mem[v.ring[0] := v.mem[v.ring[0]].(state := Dead)]))
  {
    hide Circular, Linear, Partition, Private, Numbers, Distinct;
    ShapeKept(v, v.mem[v.ring[0] := v.mem[v.ring[0]].(state := Dead)]);
    forall i | 1 <= i < |v.ring| ensures v.ring[i] != v.ring[0] { DistinctFirst(v.ring, i); }
  }

  lemma DistinctFirst(ring: seq<nat>, i: nat)
    requires Distinct(ring) && 1 <= i < |ring|
    ensures ring[i] != ring[0]
  {
  }

  lemma PopInv(v: View)
    requires Inv(v) && v.held == NULL
    ensures v.deadList == NULL <==> v.corpses == []
    ensures v.deadList != NULL ==>
              && v.deadList in v.mem && v.corpses[0] == v.deadList
              && Inv(v.(corpses := v.corpses[1..], deadList := v.mem[v.deadList].next, held := v.deadList,
                 phase := Whole))
  {
    hide Circular, Numbers, States, Contexts, Exited, Distinct, Partition, Follower, Private;
    if v.deadList != NULL {
      PopLinear(v.mem, v.corpses, v.deadList);
      PopPartition(v.mem, v.ring, v.corpses);
      PopPrivate(v);
    }
  }

  lemma PopPrivate(v: View)
    requires Circular(v.mem, v.ring) && Linear(v.mem, v.corpses, v.deadList)
             && Partition(v.mem, v.ring, v.corpses, NULL)
    requires Private(v.mem, v.kernel, NULL, v.phase)
    ensures Private(v.mem, v.kernel, v.deadList, Whole)
  {
    hide Successor, Follower;
    assert NULL !in v.mem;
  }

  lemma PopLinear(mem: Tasks, corpses: seq<nat>, deadList: nat)
    requires Linear(mem, corpses, deadList) && Distinct(corpses) && |corpses| >= 1
    ensures deadList in mem && Linear(mem, corpses[1..], mem[deadList].next) && Distinct(corpses[1..])
  {
    var l := corpses[1..];
    assert mem[corpses[0]].next == Follower(corpses, 0);
    forall i | 0 <= i < |l| ensures l[i] in mem && l[i] != NULL && mem[l[i]].next == Follower(l, i) {
      assert mem[corpses[i + 1]].next == Follower(corpses, i + 1);
    }
  }

  lemma PopPartition(mem: Tasks, ring: seq<nat>, corpses: seq<nat>)
    requires Partition(mem, ring, corpses, NULL) && Distinct(corpses) && |corpses| >= 1 && corpses[0] in mem
    ensures Partition(mem, ring, corpses[1..], corpses[0])
  {
    hide Distinct;
    var l := corpses[1..];
    assert corpses[0] in corpses;
    forall t ensures t in l <==> t in corpses && t != corpses[0] {
      if t in corpses && t != corpses[0] {
        var i :| 0 <= i < |corpses| && corpses[i] == t;
        assert l[i - 1] == t;
      }
      if t in l {
        var i :| 0 <= i < |l| && l[i] == t;
        DistinctFirst(corpses, i + 1);
      }
    }
  }

  /** The task in the reaper's hands has exited, and shares nothing it still has with another task. */
  lemma HeldFacts(v: View)
    requires Inv(v) && v.held != NULL
    ensures v.held in v.mem && v.mem[v.held].state == Dead && |v.ring| >= 1 && v.ring[0] in v.mem && v.ring[0] != v.held
    ensures v.phase == Whole ==> forall t :: t in v.mem && t != v.held && v.mem[t].cr3 == v.mem[v.held].cr3 ==>
            v.mem[v.held].cr3 == v.kernel
    ensures v.phase != NoStack ==> forall t :: t in v.mem && t != v.held ==> v.mem[t].stack != v.mem[v.held].stack
  {
    hide Distinct, Successor, Follower, Circular, Linear, Numbers, Contexts;
    assert v.held !in v.ring;
    assert v.ring[0] in v.ring;
  }

  /** Having freed more of the held task keeps the invariant. */
  lemma ReleasedInv(v: View, phase: Phase)
    requires Inv(v) && phase != Whole && (v.phase == Whole || phase == NoStack)
    ensures Inv(v.(phase := phase))
  {
    hide Distinct, Circular, Linear, Partition, Numbers, Contexts, States, Exited;
  }

  lemma FreeInv(v: View)
    requires Inv(v) && v.held != NULL && v.held in v.mem
    ensures Inv(v.(mem := v.mem - {v.held}, held := NULL, phase := Whole, freed := v.freed + {v.mem[v.held].id}))
  {
    hide Distinct, Successor, Follower, Numbers;
    FreeNumbers(v.mem, v.held, v.freed, v.nextId);
    FreeLinks(v.mem, v.ring, v.reaper, v.corpses, v.deadList, v.held, v.saved);
  }

  lemma FreeLinks(mem: Tasks, ring: seq<nat>, reaper: nat, corpses: seq<nat>, deadList: nat, held: nat,
      saved: map<nat, Context>)
    requires Circular(mem, ring) && States(mem, ring, reaper) && Linear(mem, corpses, deadList)
             && Contexts(mem, ring, saved) && Partition(mem, ring, corpses, held) && held != NULL
    ensures Circular(mem - {held}, ring) && States(mem - {held}, ring, reaper)
            && Linear(mem - {held}, corpses, deadList) && Contexts(mem - {held}, ring, saved)
  {
    hide Successor, Follower;
    forall i | 0 <= i < |ring| ensures ring[i] != held { assert ring[i] in ring; }
    forall i | 0 <= i < |corpses| ensures corpses[i] != held { assert corpses[i] in corpses; }
  }

  lemma FreeNumbers(mem: Tasks, held: nat, freed: set<nat>, nextId: nat)
    requires Numbers(mem, freed, nextId) && held in mem
    ensures Numbers(mem - {held}, freed + {mem[held].id}, nextId)
  {
    forall n | 0 <= n < nextId && n !in freed && n != mem[held].id ensures Living(mem - {held}, n) {
      assert Living(mem, n);
      var x :| x in mem && mem[x].id == n;
      assert (mem - {held})[x].id == n;
    }
  }

  lemma HeldInMemory(v: View)
    requires Inv(v)
    ensures v.held == NULL || v.held in v.mem
  {
  }

  lemma InvRing(v: View)
    requires Inv(v)
    ensures |v.ring| >= 1 && v.ring[0] in v.mem && v.ring[0] != NULL && Circular(v.mem, v.ring) && Distinct(v.ring)
            && v.head in v.ring
  {
  }

  /**
   * With every waiting task READY, the pick is the task behind the current one, if
   * there is one; the reaper always is.
   */
  lemma PickedNext(v: View, p: nat)
    requires Inv(v)
    requires (exists k :: 1 <= k < |v.ring| && FirstReady(v.mem, v.ring, k) && p == v.ring[k])
             || (NoneReady(v.mem, v.ring, |v.ring|) && p == if v.mem[v.ring[0]].state == Dead then NULL else v.ring[0])
    ensures if |v.ring| >= 2 then p == v.ring[1] && p in v.mem && p != v.ring[0] && p != NULL
            else p == v.ring[0] && v.mem[v.ring[0]].state != Dead
  {
    hide Linear, Partition, Private, Contexts;
    if |v.ring| >= 2 { assert v.mem[v.ring[1]].state == Ready; } else { assert v.ring[0] == v.reaper; }
  }

  /** The two memories differ in no link, stack or PML4. */
  ghost predicate SameShape(mem: Tasks, mem': Tasks)
  {
    mem'.Keys == mem.Keys && forall x :: x in mem ==> mem'[x].next == mem[x].next && SameOwner(mem[x], mem'[x])
  }

  predicate SameOwner(t: Task, t': Task)
  {
    t'.id == t.id && t'.stack == t.stack && t'.cr3 == t.cr3
  }

  lemma ShapeKept(v: View, mem': Tasks)
    requires SameShape(v.mem, mem') && Circular(v.mem, v.ring) && Linear(v.mem, v.corpses, v.deadList)
             && Partition(v.mem, v.ring, v.corpses, v.held)
    requires Private(v.mem, v.kernel, v.held, v.phase) && Numbers(v.mem, v.freed, v.nextId)
    ensures Circular(mem', v.ring) && Linear(mem', v.corpses, v.deadList) && Partition(mem', v.ring, v.corpses, v.held)
    ensures Private(mem', v.kernel, v.held, v.phase) && Numbers(mem', v.freed, v.nextId)
  {
    hide Private, Numbers, Successor, Follower;
    SameNumbers(v.mem, mem', v.freed, v.nextId);
    SamePrivate(v.mem, mem', v.kernel, v.held, v.phase);
  }

  lemma SamePrivate(mem: Tasks, mem': Tasks, kernel: nat, held: nat, phase: Phase)
    requires mem'.Keys == mem.Keys && (forall x :: x in mem ==> SameOwner(mem[x], mem'[x]))
             && Private(mem, kernel, held, phase)
    ensures Private(mem', kernel, held, phase)
  {
  }

  lemma RotateCircular(mem: Tasks, ring: seq<nat>)
    requires |ring| >= 2 && Circular(mem, ring)
    ensures Circular(mem, Advance(ring, false))
  {
    var r := Advance(ring, false);
    forall i | 0 <= i < |r| ensures r[i] in mem && r[i] != NULL && mem[r[i]].next == Successor(r, i) {
      if i + 1 < |ring| {
        assert mem[ring[i + 1]].next == Successor(ring, i + 1);
      } else {
        assert mem[ring[0]].next == Successor(ring, 0);
      }
    }
  }

  lemma RotatePartition(mem: Tasks, ring: seq<nat>, corpses: seq<nat>, held: nat)
    requires |ring| >= 2 && Distinct(ring) && Partition(mem, ring, corpses, held)
    ensures Distinct(Advance(ring, false)) && Partition(mem, Advance(ring, false), corpses, held)
    ensures forall t :: t in ring ==> t in Advance(ring, false)
  {
    hide Distinct, Advance;
    DistinctAdvance(ring, false);
  }

  lemma SuspendedAt(mem: Tasks, p: nat, n: nat, c: Context, x: nat)
    requires p in mem && n in mem && p != n && x in mem
    ensures var m := Resumed(Suspended(mem, p, c), n);
            && m.Keys == mem.Keys && m[x].next == mem[x].next && SameOwner(mem[x], m[x])
            && (x != p ==> m[x].rsp == mem[x].rsp && m[x].fpu == mem[x].fpu)
            && (x == p ==> m[x].rsp == c.rsp && m[x].fpu == c.fpu)
            && m[x].state == if x == n then Running else if x == p && mem[p].state == Running then Ready
               else mem[x].state
  {
  }

  lemma AliveStates(mem: Tasks, ring: seq<nat>, reaper: nat, saved: map<nat, Context>, c: Context)
    requires |ring| >= 2 && States(mem, ring, reaper) && Distinct(ring) && Contexts(mem, ring, saved)
             && mem[ring[0]].state != Dead
    ensures ring[0] != ring[1]
    ensures States(Resumed(Suspended(mem, ring[0], c), ring[1]), Advance(ring, false), reaper)
    ensures Contexts(Resumed(Suspended(mem, ring[0], c), ring[1]), Advance(ring, false), saved[ring[0] := c])
  {
    hide Distinct, Suspended, Resumed;
    DistinctPair(ring);
    var r, m := Advance(ring, false), Resumed(Suspended(mem, ring[0], c), ring[1]);
    DistinctAdvance(ring, false);
    SuspendedAt(mem, ring[0], ring[1], c, reaper);
    forall i | 0 <= i < |r|
      ensures r[i] in m && (i >= 1 ==> m[r[i]].state == Ready)
      ensures i >= 1 ==> r[i] in saved[ring[0] := c] && saved[ring[0] := c][r[i]] == Context(m[r[i]].rsp, m[r[i]].fpu)
    {
      SuspendedAt(mem, ring[0], ring[1], c, r[i]);
      if 1 <= i < |ring| - 1 { DistinctAt(ring, i + 1); }
    }
    SuspendedAt(mem, ring[0], ring[1], c, ring[1]);
  }

  lemma AliveExited(mem: Tasks, ring: seq<nat>, c: Context)
    requires |ring| >= 2 && ring[0] in mem && ring[1] in mem && ring[0] != ring[1] && Distinct(ring)
             && Exited(mem, ring)
    ensures Exited(Resumed(Suspended(mem, ring[0], c), ring[1]), Advance(ring, false))
  {
    hide Suspended, Resumed, Advance, Distinct;
    DistinctAdvance(ring, false);
    forall x | x in mem && x !in ring ensures Resumed(Suspended(mem, ring[0], c), ring[1])[x].state == Dead {
      SuspendedAt(mem, ring[0], ring[1], c, x);
    }
  }

  /** A switch away from a living task keeps the invariant. */
  lemma AliveSwitch(v: View, c: Context)
    requires |v.ring| >= 2 && Inv(v) && v.ring[0] in v.mem && v.mem[v.ring[0]].state != Dead
    ensures v.ring[1] in v.mem && v.ring[1] in v.saved
            && v.saved[v.ring[1]] == Context(v.mem[v.ring[1]].rsp, v.mem[v.ring[1]].fpu)
    ensures var mem1 := Suspended(v.mem, v.ring[0], c);
            mem1.Keys == v.mem.Keys && mem1[v.ring[0]].cr3 == v.mem[v.ring[0]].cr3
                && mem1[v.ring[1]] == v.mem[v.ring[1]]
    ensures var mem', ring' := Resumed(Suspended(v.mem, v.ring[0], c), v.ring[1]), Advance(v.ring, false);
            && Inv(v.(mem := mem', ring := ring', saved := v.saved[v.ring[0] := c]))
            && ring'[0] == v.ring[1] && mem'.Keys == v.mem.Keys && mem'[v.ring[1]].cr3 == v.mem[v.ring[1]].cr3
  {
    hide Circular, Linear, Partition, Private, Distinct, Numbers, Exited;
    AliveStates(v.mem, v.ring, v.reaper, v.saved, c);
    AliveExited(v.mem, v.ring, c);
    var mem' := Resumed(Suspended(v.mem, v.ring[0], c), v.ring[1]);
    ShapeKept(v, mem');
    RotateCircular(mem', v.ring);
    RotatePartition(mem', v.ring, v.corpses, v.held);
  }

  lemma DistinctPair(ring: seq<nat>)
    requires Distinct(ring) && |ring| >= 2
    ensures ring[0] != ring[1]
  {
  }

  lemma DistinctAt(ring: seq<nat>, i: nat)
    requires Distinct(ring) && 2 <= i < |ring|
    ensures ring[0] != ring[i] && ring[1] != ring[i]
  {
  }

  /** Memory after a dead first task has moved to the dead list and its successor runs. */
  function Buried(mem: Tasks, ring: seq<nat>, deadList: nat): Tasks
    requires |ring| >= 2 && ring[0] in mem && ring[1] in mem && ring[|ring| - 1] in mem
  {
    Resumed(Pushed(Unlinked(mem, ring), ring[0], deadList), ring[1])
  }

  lemma BuriedAt(mem: Tasks, ring: seq<nat>, deadList: nat, x: nat)
    requires |ring| >= 2 && Circular(mem, ring) && Distinct(ring) && x in mem
    ensures var m := Buried(mem, ring, deadList);
            && x in m && m.Keys == mem.Keys && SameOwner(mem[x], m[x]) && m[x].rsp == mem[x].rsp
            && m[x].fpu == mem[x].fpu
            && m[x].state == (if x == ring[1] then Running else mem[x].state)
            && m[x].next == (if x == ring[0] then deadList else if x == ring[|ring| - 1] then ring[1] else mem[x].next)
  {
    assert mem[ring[0]].next == Successor(ring, 0);
  }

  lemma BuriedCircular(mem: Tasks, ring: seq<nat>, deadList: nat)
    requires |ring| >= 2 && Circular(mem, ring) && Distinct(ring)
    ensures Circular(Buried(mem, ring, deadList), Advance(ring, true))
  {
    hide Buried;
    var r, m := Advance(ring, true), Buried(mem, ring, deadList);
    forall i | 0 <= i < |r| ensures r[i] in m && r[i] != NULL && m[r[i]].next == Successor(r, i) {
      BuriedAt(mem, ring, deadList, ring[i + 1]);
      assert mem[ring[i + 1]].next == Successor(ring, i + 1);
    }
  }

  lemma BuriedLinear(mem: Tasks, ring: seq<nat>, corpses: seq<nat>, deadList: nat, held: nat)
    requires |ring| >= 2 && Circular(mem, ring) && Distinct(ring) && Linear(mem, corpses, deadList)
             && Partition(mem, ring, corpses, held) && Distinct(corpses)
    ensures Linear(Buried(mem, ring, deadList), [ring[0]] + corpses, ring[0]) && Distinct([ring[0]] + corpses)
  {
    hide Buried, Successor, Follower;
    var m := Buried(mem, ring, deadList);
    BuriedAt(mem, ring, deadList, ring[0]);
    assert ring[0] in ring && ring[|ring| - 1] in ring;
    forall i | 0 <= i < |corpses|
      ensures corpses[i] in m && corpses[i] != ring[0] && m[corpses[i]].next == mem[corpses[i]].next
    {
      assert corpses[i] in corpses;
      BuriedAt(mem, ring, deadList, corpses[i]);
    }
    PushedLinear(mem, m, ring[0], corpses, deadList);
  }

  /** A new first element in front of a list. */
  lemma PushedLinear(mem: Tasks, m: Tasks, p: nat, corpses: seq<nat>, deadList: nat)
    requires Linear(mem, corpses, deadList) && Distinct(corpses) && p in m && p != NULL && m[p].next == deadList
    requires forall i :: 0 <= i < |corpses| ==>
             corpses[i] in m && corpses[i] != p && m[corpses[i]].next == mem[corpses[i]].next
    ensures Linear(m, [p] + corpses, p) && Distinct([p] + corpses)
  {
    hide Follower, Distinct;
    var l := [p] + corpses;
    DistinctCons(p, corpses);
    forall i | 0 <= i < |l| ensures l[i] in m && l[i] != NULL && m[l[i]].next == Follower(l, i) {
      FollowerCons(p, corpses, i);
      if i > 0 { assert l[i] == corpses[i - 1] && mem[corpses[i - 1]].next == Follower(corpses, i - 1); }
    }
  }

  lemma FollowerCons(p: nat, list: seq<nat>, i: nat)
    requires i <= |list|
    ensures Follower([p] + list, i) == if i > 0 then Follower(list, i - 1) else if list == [] then NULL else list[0]
  {
  }

  lemma DistinctCons(p: nat, list: seq<nat>)
    requires Distinct(list) && forall i :: 0 <= i < |list| ==> list[i] != p
    ensures Distinct([p] + list)
  {
  }

  lemma BuriedPartition(v: View)
    requires |v.ring| >= 2 && Circular(v.mem, v.ring) && Distinct(v.ring) && Partition(v.mem, v.ring, v.corpses, v.held)
    requires Private(v.mem, v.kernel, v.held, v.phase) && Numbers(v.mem, v.freed, v.nextId)
    ensures var m := Buried(v.mem, v.ring, v.deadList);
            && Partition(m, Advance(v.ring, true), [v.ring[0]] + v.corpses, v.held)
            && Private(m, v.kernel, v.held, v.phase) && Numbers(m, v.freed, v.nextId)
    ensures Distinct(Advance(v.ring, true))
  {
    hide Buried, Advance, Distinct, Successor, Numbers, Private;
    var m := Buried(v.mem, v.ring, v.deadList);
    assert v.ring[0] in v.ring;
    DistinctAdvance(v.ring, true);
    BuriedAt(v.mem, v.ring, v.deadList, v.ring[0]);
    forall x | x in v.mem ensures x in m && SameOwner(v.mem[x], m[x]) {
      BuriedAt(v.mem, v.ring, v.deadList, x);
    }
    SameNumbers(v.mem, m, v.freed, v.nextId);
    SamePrivate(v.mem, m, v.kernel, v.held, v.phase);
  }

  lemma BuriedStates(mem: Tasks, ring: seq<nat>, reaper: nat, deadList: nat, saved: map<nat, Context>)
    requires |ring| >= 2 && Circular(mem, ring) && Distinct(ring) && States(mem, ring, reaper)
             && Contexts(mem, ring, saved) && mem[ring[0]].state == Dead
    ensures States(Buried(mem, ring, deadList), Advance(ring, true), reaper)
            && Contexts(Buried(mem, ring, deadList), Advance(ring, true), saved)
  {
    hide Buried, Circular, Distinct;
    forall x | x in mem
      ensures x in Buried(mem, ring, deadList)
              && Buried(mem, ring, deadList)[x].state == (if x == ring[1] then Running else mem[x].state)
              && Buried(mem, ring, deadList)[x].rsp == mem[x].rsp && Buried(mem, ring, deadList)[x].fpu == mem[x].fpu
    {
      BuriedAt(mem, ring, deadList, x);
    }
    forall i | 2 <= i < |ring| ensures ring[i] != ring[1] { DistinctAt(ring, i); }
  }

  lemma BuriedExited(mem: Tasks, ring: seq<nat>, deadList: nat)
    requires |ring| >= 2 && Circular(mem, ring) && Distinct(ring) && Exited(mem, ring) && mem[ring[0]].state == Dead
    ensures Exited(Buried(mem, ring, deadList), Advance(ring, true))
  {
    hide Buried, Advance, Distinct;
    DistinctAdvance(ring, true);
    DistinctPair(ring);
    assert ring[1] in Advance(ring, true);
    BuriedAt(mem, ring, deadList, ring[0]);
    forall x | x in mem && x !in Advance(ring, true) ensures Buried(mem, ring, deadList)[x].state == Dead {
      BuriedAt(mem, ring, deadList, x);
    }
  }

  /** A switch away from a dead task keeps the invariant. */
  lemma DeadSwitch(v: View)
    requires |v.ring| >= 2 && Inv(v) && v.ring[0] in v.mem && v.mem[v.ring[0]].state == Dead
    ensures v.ring[1] in v.mem && v.ring[|v.ring| - 1] in v.mem
    ensures v.ring[1] in v.saved && v.saved[v.ring[1]] == Context(v.mem[v.ring[1]].rsp, v.mem[v.ring[1]].fpu)
    ensures var mem', ring' := Buried(v.mem, v.ring, v.deadList), Advance(v.ring, true);
            && ring'[0] == v.ring[1] && ring' == v.ring[1..] && mem'.Keys == v.mem.Keys
            && mem'[v.ring[1]].cr3 == v.mem[v.ring[1]].cr3
            && forall head' :: head' in ring' ==>
                 Inv(v.(mem := mem', ring := ring', head := head', corpses := [v.ring[0]] + v.corpses,
                     deadList := v.ring[0]))
    ensures Unlinked(v.mem, v.ring).Keys == v.mem.Keys
    ensures var mem1 := Pushed(Unlinked(v.mem, v.ring), v.ring[0], v.deadList);
            && mem1.Keys == v.mem.Keys && mem1[v.ring[0]].cr3 == v.mem[v.ring[0]].cr3
            && mem1[v.ring[1]].cr3 == v.mem[v.ring[1]].cr3
            && mem1[v.ring[1]].rsp == v.mem[v.ring[1]].rsp && mem1[v.ring[1]].fpu == v.mem[v.ring[1]].fpu
  {
    hide Circular, Linear, Partition, Private, Distinct, Buried, Numbers, Exited;
    DistinctPair(v.ring);
    LastInRing(v.mem, v.ring);
    BuriedCircular(v.mem, v.ring, v.deadList);
    BuriedLinear(v.mem, v.ring, v.corpses, v.deadList, v.held);
    BuriedPartition(v);
    BuriedStates(v.mem, v.ring, v.reaper, v.deadList, v.saved);
    BuriedExited(v.mem, v.ring, v.deadList);
    BuriedAt(v.mem, v.ring, v.deadList, v.ring[0]);
    BuriedAt(v.mem, v.ring, v.deadList, v.ring[1]);
  }

  lemma LastInRing(mem: Tasks, ring: seq<nat>)
    requires Circular(mem, ring) && |ring| >= 1
    ensures ring[|ring| - 1] in mem && ring[0] in mem
  {
  }

  lemma SuccessorAt(ring: seq<nat>, i: nat)
    requires Distinct(ring) && i < |ring|
    ensures Successor(ring, i) == ring[0] <==> i == |ring| - 1
    ensures i + 1 < |ring| ==> Successor(ring, i) == ring[i + 1]
  {
  }

  ghost predicate NoneReady(mem: Tasks, ring: seq<nat>, k: nat)
    requires k <= |ring|
  {
    forall j :: 1 <= j < k ==> ring[j] in mem && mem[ring[j]].state != Ready
  }

  ghost predicate FirstReady(mem: Tasks, ring: seq<nat>, k: nat)
    requires k < |ring|
  {
    ring[k] in mem && mem[ring[k]].state == Ready && NoneReady(mem, ring, k)
  }

  /** Memory after the first task of the ring has been unlinked. */
  function Unlinked(mem: Tasks, ring: seq<nat>): Tasks
    requires |ring| >= 1 && ring[0] in mem && ring[|ring| - 1] in mem
  {
    mem[ring[|ring| - 1] := mem[ring[|ring| - 1]].(next := mem[ring[0]].next)][ring[0] := mem[ring[0]].(next := NULL)]
  }

  lemma InsertExited(mem: Tasks, ring: seq<nat>, k: nat, a: nat, t: Task)
    requires k < |ring| && ring[k] in mem && a !in mem && Distinct(ring) && a !in ring && Exited(mem, ring)
    ensures Exited(Inserted(mem, ring[k], a, t), InsertAt(ring, k + 1, a))
  {
    hide InsertAt, Distinct;
    DistinctInsert(ring, k + 1, a);
  }

  lemma InsertNumbers(mem: Tasks, h: nat, a: nat, t: Task, freed: set<nat>, nextId: nat)
    requires h in mem && a !in mem && Numbers(mem, freed, nextId) && t.id == nextId
    ensures Numbers(Inserted(mem, h, a, t), freed, nextId + 1)
  {
    hide Numbers;
    MoreNumbers(mem, Inserted(mem, h, a, t), a, freed, nextId);
  }

  lemma MoreNumbers(mem: Tasks, m: Tasks, a: nat, freed: set<nat>, nextId: nat)
    requires Numbers(mem, freed, nextId) && a !in mem && m.Keys == mem.Keys + {a} && m[a].id == nextId
    requires forall x :: x in mem ==> m[x].id == mem[x].id
    ensures Numbers(m, freed, nextId + 1)
  {
    forall n | 0 <= n < nextId + 1 && n !in freed ensures Living(m, n) {
      if n == nextId {
        assert m[a].id == n;
      } else {
        assert Living(mem, n);
        var x :| x in mem && mem[x].id == n;
        assert m[x].id == n;
      }
    }
  }

  lemma SameNumbers(mem: Tasks, m: Tasks, freed: set<nat>, nextId: nat)
    requires Numbers(mem, freed, nextId) && m.Keys == mem.Keys && forall x :: x in mem ==> m[x].id == mem[x].id
    ensures Numbers(m, freed, nextId)
  {
    forall n | 0 <= n < nextId && n !in freed ensures Living(m, n) {
      assert Living(mem, n);
      var x :| x in mem && mem[x].id == n;
      assert m[x].id == n;
    }
  }

  /** Memory after list_insert of task t at address a behind the task at h. */
  function Inserted(mem: Tasks, h: nat, a: nat, t: Task): Tasks
    requires h in mem
  {
    mem[a := t.(next := mem[h].next)][h := mem[h].(next := a)]
  }

  /** Inserting a new task keeps the invariant. */
  lemma InsertInv(v: View, k: nat, a: nat, t: Task)
    requires Inv(v) && k < |v.ring| && v.ring[k] == v.head && a !in v.mem && a != NULL && t.state == Ready
             && t.id == v.nextId
    requires Unused(v.mem, v.held, v.phase, v.kernel, t.cr3, t.stack)
    ensures v.head in v.mem && v.ring[0] in v.mem
    ensures Inv(v.(mem := Inserted(v.mem, v.head, a, t), ring := InsertAt(v.ring, k + 1, a),
                   saved := v.saved[a := Context(t.rsp, t.fpu)], nextId := v.nextId + 1))
    ensures InsertAt(v.ring, k + 1, a)[0] == v.ring[0]
            && Inserted(v.mem, v.head, a, t)[v.ring[0]].cr3 == v.mem[v.ring[0]].cr3
  {
    hide InsertAt, Circular, Linear, Partition, Private, Contexts, Distinct, Numbers, Exited, Unused;
    InvRing(v);
    HeldInMemory(v);
    InsertRing(v.mem, v.ring, k, a, t);
    InsertStates(v.mem, v.ring, k, a, t, v.reaper, v.saved);
    InsertExited(v.mem, v.ring, k, a, t);
    InsertPlaces(v.mem, v.ring, k, a, t, v.corpses, v.deadList, v.held);
    InsertPrivate(v.mem, v.head, a, t, v.kernel, v.held, v.phase);
    InsertNumbers(v.mem, v.head, a, t, v.freed, v.nextId);
    InsertItems(v.ring, k + 1, a);
  }

  lemma InsertRing(mem: Tasks, ring: seq<nat>, k: nat, a: nat, t: Task)
    requires Circular(mem, ring) && Distinct(ring) && k < |ring| && a !in mem && a != NULL
    ensures Circular(Inserted(mem, ring[k], a, t), InsertAt(ring, k + 1, a))
  {
    hide InsertAt, Distinct, Inserted;
    InsertItems(ring, k + 1, a);
    DistinctFrom(ring, k);
    var r, mem' := InsertAt(ring, k + 1, a), Inserted(mem, ring[k], a, t);
    forall i | 0 <= i < |ring|
      ensures ring[i] in mem' && mem'[ring[i]].next == if i == k then a else mem[ring[i]].next
    {
      InsertedAt(mem, ring[k], a, t, ring[i]);
    }
    InsertedAt(mem, ring[k], a, t, a);
    forall i | 0 <= i < |r| ensures r[i] in mem' && r[i] != NULL && mem'[r[i]].next == Successor(r, i) {
      if i < k {
        assert mem[ring[i]].next == Successor(ring, i);
      } else if i > k + 1 {
        assert mem[ring[i - 1]].next == Successor(ring, i - 1);
      } else if i == k + 1 {
        assert mem[ring[k]].next == Successor(ring, k);
      }
    }
  }

  lemma DistinctFrom(ring: seq<nat>, k: nat)
    requires Distinct(ring) && k < |ring|
    ensures forall i :: 0 <= i < |ring| && i != k ==> ring[i] != ring[k]
  {
  }

  lemma InsertedAt(mem: Tasks, h: nat, a: nat, t: Task, x: nat)
    requires h in mem && a !in mem && (x in mem || x == a)
    ensures x in Inserted(mem, h, a, t)
    ensures Inserted(mem, h, a, t)[x].next == if x == h then a else if x == a then mem[h].next else mem[x].next
  {
  }

  lemma InsertStates(mem: Tasks, ring: seq<nat>, k: nat, a: nat, t: Task, reaper: nat, saved: map<nat, Context>)
    requires k < |ring| && a !in mem && t.state == Ready && States(mem, ring, reaper) && Contexts(mem, ring, saved)
    ensures States(Inserted(mem, ring[k], a, t), InsertAt(ring, k + 1, a), reaper)
    ensures Contexts(Inserted(mem, ring[k], a, t), InsertAt(ring, k + 1, a), saved[a := Context(t.rsp, t.fpu)])
  {
    hide InsertAt;
    InsertItems(ring, k + 1, a);
    var i :| 0 <= i < |ring| && ring[i] == reaper;
    assert InsertAt(ring, k + 1, a)[if i <= k then i else i + 1] == reaper;
  }

  lemma InsertPlaces(mem: Tasks, ring: seq<nat>, k: nat, a: nat, t: Task, corpses: seq<nat>, deadList: nat, held: nat)
    requires k < |ring| && ring[k] in mem && a !in mem && a != NULL && Distinct(ring)
    requires (forall i :: 0 <= i < |ring| ==> ring[i] in mem) && Linear(mem, corpses, deadList)
             && Partition(mem, ring, corpses, held)
    ensures Linear(Inserted(mem, ring[k], a, t), corpses, deadList)
    ensures Partition(Inserted(mem, ring[k], a, t), InsertAt(ring, k + 1, a), corpses, held)
    ensures Distinct(InsertAt(ring, k + 1, a)) && ring[k] in InsertAt(ring, k + 1, a)
  {
    hide InsertAt, Distinct;
    DistinctInsert(ring, k + 1, a);
    var mem' := Inserted(mem, ring[k], a, t);
    forall i | 0 <= i < |corpses|
      ensures corpses[i] in mem' && mem'[corpses[i]] == mem[corpses[i]]
    {
      assert corpses[i] in corpses;
    }
  }

  lemma InsertPrivate(mem: Tasks, h: nat, a: nat, t: Task, kernel: nat, held: nat, phase: Phase)
    requires h in mem && a !in mem && Private(mem, kernel, held, phase)
    requires Unused(mem, held, phase, kernel, t.cr3, t.stack) && a != held
    ensures Private(Inserted(mem, h, a, t), kernel, held, phase)
  {
  }
}
