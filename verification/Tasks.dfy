/**
  Round-robin tasking (src/task.c): the ready queue as a state machine over its two
  steps, switch_task and fork, each of which runs with interrupts off.
 */
module Tasks {
  import opened Words

  /** The registers a context switch saves and loads. */
  datatype Cpu = Cpu(esp: u32, ebp: u32, eip: u32)

  /** What the queue knows of a task. Directories are named by their address. */
  datatype Record = Record(id: u32, cpu: Cpu, directory: u32)

  datatype State = State(tasks: seq<Record>, current: nat, nextPid: u32, currentDirectory: u32)

  datatype Event = Switch(cpu: Cpu) | Fork(cpu: Cpu, directory: u32)

  // ----- The two steps

  function Successor(s: State): nat {
    if s.current + 1 < |s.tasks| then s.current + 1 else 0
  }

  /** switch_task: save the registers, go on to the next task, wrap at the end. */
  function Switched(s: State, cpu: Cpu): State
    requires s.current < |s.tasks|
  {
    var tasks := s.tasks[s.current := s.tasks[s.current].(cpu := cpu)];
    State(tasks, Successor(s), s.nextPid, tasks[Successor(s)].directory)
  }

  /** fork: the child goes to the end of the queue with the parent's registers. */
  function Forked(s: State, cpu: Cpu, directory: u32): State {
    s.(tasks := s.tasks + [Record(s.nextPid, cpu, directory)], nextPid := (s.nextPid + 1) % TWO_TO_THE_32)
  }

  /** What fork returns to whoever runs its last lines: the parent, or the child once resumed there. */
  function ForkReturns(current: nat, parent: nat, childPid: u32): u32 {
    if current == parent then childPid else 0
  }

  /** The state of initialise_tasking: the kernel task alone. */
  function Initial(directory: u32): State {
    State([Record(1, Cpu(0, 0, 0), directory)], 0, 2, directory)
  }

  // ----- Runs

  ghost predicate Good(s: State) {
    && s.current < |s.tasks| && s.currentDirectory == s.tasks[s.current].directory
    && s.nextPid == Pid(|s.tasks|)
    && forall i :: 0 <= i < |s.tasks| ==> s.tasks[i].id == Pid(i)
  }

  /** The id of the task at place `i`: ids are counted in 32 bits, from 1. */
  function Pid(i: nat): u32 { (i + 1) % TWO_TO_THE_32 }

  function Next(s: State, e: Event): State
    requires s.current < |s.tasks|
  {
    match e
    case Switch(cpu) => Switched(s, cpu)
    case Fork(cpu, directory) => Forked(s, cpu, directory)
  }

  function After(s: State, es: seq<Event>): (s': State)
    requires s.current < |s.tasks|
    ensures s'.current < |s'.tasks| && |s.tasks| <= |s'.tasks|
    decreases |es|
  {
    if es == [] then s else After(Next(s, es[0]), es[1..])
  }

  function Switches(es: seq<Event>): nat {
    if es == [] then 0 else (if es[0].Switch? then 1 else 0) + Switches(es[1..])
  }

  function Forks(es: seq<Event>): nat {
    if es == [] then 0 else (if es[0].Fork? then 1 else 0) + Forks(es[1..])
  }

  /** Every state of every run is good: no task is lost, and the queue only grows at its end. */
  lemma {:induction false} RunsStayGood(s: State, es: seq<Event>)
    requires Good(s)
    ensures Good(After(s, es)) && |After(s, es).tasks| == |s.tasks| + Forks(es)
    ensures forall p :: 0 <= p < |s.tasks| ==>
      After(s, es).tasks[p].id == s.tasks[p].id && After(s, es).tasks[p].directory == s.tasks[p].directory
    decreases |es|
  {
    if es != [] {
      NextStaysGood(s, es[0]);
      RunsStayGood(Next(s, es[0]), es[1..]);
    }
  }

  lemma NextStaysGood(s: State, e: Event)
    requires Good(s)
    ensures Good(Next(s, e))
  {
    hide Pid;
    PidNext(|s.tasks|);
  }

  lemma PidNext(i: nat)
    ensures (Pid(i) + 1) % TWO_TO_THE_32 == Pid(i + 1)
  {
  }

  /** Process ids grow strictly along the queue exactly while the 32-bit counter has not wrapped. */
  lemma PidsGrowUntilWrap(s: State)
    requires Good(s)
    ensures (forall i, j :: 0 <= i < j < |s.tasks| ==> s.tasks[i].id < s.tasks[j].id) <==> |s.tasks| < TWO_TO_THE_32
  {
    if |s.tasks| >= TWO_TO_THE_32 {
      assert s.tasks[TWO_TO_THE_32 - 2].id > s.tasks[TWO_TO_THE_32 - 1].id;
    }
  }

  // ----- Bounded waiting

  /** Switches until position `p` runs again, if nobody forks. */
  function Distance(s: State, p: nat): nat
    requires s.current < |s.tasks| && p < |s.tasks|
  {
    if s.current < p then p - s.current else |s.tasks| - s.current + p
  }

  /** Some switch of `es` makes `p` the current task. */
  ghost predicate RunsIn(s: State, es: seq<Event>, p: nat)
    requires s.current < |s.tasks|
  {
    exists n :: 0 < n <= |es| && es[n - 1].Switch? && After(s, es[..n]).current == p
  }

  /** A task waits for its distance, plus the forks that happen before the queue wraps round to it. */
  lemma {:induction false} BoundedWait(s: State, es: seq<Event>, p: nat)
    requires s.current < |s.tasks| && p < |s.tasks|
    requires Switches(es) >= Distance(s, p) + (if s.current < p then 0 else Forks(es))
    ensures RunsIn(s, es, p)
    decreases |es|
  {
    var t := Next(s, es[0]);
    if es[0].Switch? && t.current == p {
      assert es[..1] == [es[0]] && After(t, []) == t;
      assert [es[0]][1..] == [];
      assert es[1 - 1].Switch? && After(s, es[..1]).current == p;
    } else {
      BoundedWait(t, es[1..], p);
      var n :| 0 < n <= |es[1..]| && es[1..][n - 1].Switch? && After(t, es[1..][..n]).current == p;
      assert es[..n + 1][1..] == es[1..][..n];
      assert es[n + 1 - 1].Switch? && After(s, es[..n + 1]).current == p;
    }
  }

  /** From a queue of n tasks, each runs again within n + k switches while k forks happen. */
  lemma EveryTaskRuns(s: State, es: seq<Event>)
    requires s.current < |s.tasks| && Switches(es) >= |s.tasks| + Forks(es)
    ensures forall p :: 0 <= p < |s.tasks| ==> RunsIn(s, es, p)
  {
    forall p | 0 <= p < |s.tasks| ensures RunsIn(s, es, p) {
      BoundedWait(s, es, p);
    }
  }

  /** A task ahead of the current one is reached by exactly as many switches as it is ahead, forks or not. */
  lemma {:induction false} AheadExactly(s: State, es: seq<Event>, p: nat)
    requires s.current < p < |s.tasks| && Switches(es) <= p - s.current
    ensures After(s, es).current == s.current + Switches(es)
    ensures After(s, es).current == p <==> Switches(es) == p - s.current
    decreases |es|
  {
    if es != [] {
      var t := Next(s, es[0]);
      if t.current < p {
        AheadExactly(t, es[1..], p);
      } else {
        NoMoreSwitches(t, es[1..]);
      }
    }
  }

  lemma {:induction false} NoMoreSwitches(s: State, es: seq<Event>)
    requires s.current < |s.tasks| && Switches(es) == 0
    ensures After(s, es).current == s.current
    decreases |es|
  {
    if es != [] { NoMoreSwitches(Next(s, es[0]), es[1..]); }
  }

  /** Without forks the queue is walked cyclically. */
  lemma {:induction false} CyclicWalk(s: State, es: seq<Event>)
    requires s.current < |s.tasks| && Forks(es) == 0 && |es| <= |s.tasks|
    ensures |After(s, es).tasks| == |s.tasks|
    ensures After(s, es).current == if s.current + |es| < |s.tasks| then s.current + |es| else s.current + |es| - |s.tasks|
    decreases |es|
  {
    if es != [] {
      var n := |es| - 1;
      ForksPrefix(es, n);
      CyclicWalk(s, es[..n]);
      AfterLast(s, es);
    }
  }

  lemma {:induction false} AfterLast(s: State, es: seq<Event>)
    requires s.current < |s.tasks| && es != []
    ensures After(s, es) == Next(After(s, es[..|es| - 1]), es[|es| - 1])
    decreases |es|
  {
    if |es| > 1 {
      AfterLast(Next(s, es[0]), es[1..]);
      assert es[..|es| - 1][1..] == es[1..][..|es| - 2];
    }
  }

  lemma {:induction false} ForksPrefix(es: seq<Event>, n: nat)
    requires Forks(es) == 0 && n <= |es|
    ensures Forks(es[..n]) == 0 && forall i :: 0 <= i < |es| ==> es[i].Switch?
    decreases |es|
  {
    if es != [] {
      ForksPrefix(es[1..], if n > 0 then n - 1 else 0);
      if n > 0 { assert es[..n][1..] == es[1..][..n - 1]; }
      forall i | 0 <= i < |es| ensures es[i].Switch? {
        if i > 0 { assert es[i] == es[1..][i - 1]; }
      }
    }
  }

  /** With no forks, n consecutive switches run each of the n tasks exactly once. */
  lemma RoundRobin(s: State, es: seq<Event>, p: nat)
    requires s.current < |s.tasks| == |es| && Forks(es) == 0 && p < |s.tasks|
    ensures forall j :: 0 < j <= |es| ==> (After(s, es[..j]).current == p <==> j == Distance(s, p))
    ensures 0 < Distance(s, p) <= |es|
  {
    forall j | 0 < j <= |es| ensures After(s, es[..j]).current == p <==> j == Distance(s, p) {
      ForksPrefix(es, j);
      CyclicWalk(s, es[..j]);
    }
  }

  // ----- Registers

  /** No switch of `es` takes the processor away from position `p`. */
  ghost predicate NotSwitchedOut(s: State, es: seq<Event>, p: nat)
    requires s.current < |s.tasks|
    decreases |es|
  {
    es == [] || ((es[0].Switch? ==> s.current != p) && NotSwitchedOut(Next(s, es[0]), es[1..], p))
  }

  /** The registers a task resumes with are those it had when it was last switched out. */
  lemma {:induction false} RegistersKept(s: State, es: seq<Event>, p: nat)
    requires s.current < |s.tasks| && p < |s.tasks| && NotSwitchedOut(s, es, p)
    ensures p < |After(s, es).tasks| && After(s, es).tasks[p].cpu == s.tasks[p].cpu
    decreases |es|
  {
    if es != [] { RegistersKept(Next(s, es[0]), es[1..], p); }
  }

  lemma ResumesWhereItLeft(s: State, cpu: Cpu, es: seq<Event>)
    requires Good(s) && NotSwitchedOut(Switched(s, cpu), es, s.current)
    ensures After(Switched(s, cpu), es).tasks[s.current].cpu == cpu
  {
    RegistersKept(Switched(s, cpu), es, s.current);
  }

  /** A forked child first resumes with the parent's registers at the fork, where fork returns 0 to it. */
  lemma ChildResumesAtFork(s: State, cpu: Cpu, directory: u32, es: seq<Event>)
    requires Good(s) && NotSwitchedOut(Forked(s, cpu, directory), es, |s.tasks|)
    ensures var t := After(Forked(s, cpu, directory), es);
      && t.tasks[|s.tasks|].cpu == cpu && t.tasks[|s.tasks|].directory == directory
      && (t.current == |s.tasks| ==> t.currentDirectory == directory && ForkReturns(t.current, s.current, s.nextPid) == 0)
    ensures ForkReturns(Forked(s, cpu, directory).current, s.current, s.nextPid) == s.nextPid
  {
    var f := Forked(s, cpu, directory);
    NextStaysGood(s, Event.Fork(cpu, directory));
    RegistersKept(f, es, |s.tasks|);
    RunsStayGood(f, es);
  }

  // ----- The linked queue

  class Task {
    var id: u32
    var esp: u32
    var ebp: u32
    var eip: u32
    var pageDirectory: u32
    var next: Task?
    ghost var place: nat  // where it stands in the queue

    constructor (id: u32, pageDirectory: u32)
      ensures this.id == id && esp == ebp == eip == 0 && this.pageDirectory == pageDirectory && next == null
    {
      this.id, this.pageDirectory, next := id, pageDirectory, null;
      esp, ebp, eip := 0, 0, 0;
    }

    ghost function AsRecord(): Record
      reads this
    {
      Record(id, Cpu(esp, ebp, eip), pageDirectory)
    }
  }

  /** The task behind place i. */
  function Following(queue: seq<Task>, i: int): Task? {
    if 0 <= i < |queue| - 1 then queue[i + 1] else null
  }

  /** The tasks are distinct, hold the records, and are linked in order, the last one to null. */
  ghost predicate Linked(queue: seq<Task>, records: seq<Record>)
    reads queue
  {
    |records| == |queue| && forall i :: 0 <= i < |queue| ==> InPlace(queue, records, i)
  }

  ghost predicate InPlace(queue: seq<Task>, records: seq<Record>, i: int)
    requires |records| == |queue| && 0 <= i < |queue|
    reads queue[i]
  {
    queue[i].place == i && queue[i].next == Following(queue, i) && queue[i].AsRecord() == records[i]
  }

  class Scheduler {
    var currentTask: Task?
    var readyQueue: Task?
    var nextPid: u32
    var currentDirectory: u32
    ghost var queue: seq<Task>
    ghost var records: seq<Record>
    ghost var position: nat

    /** The list holds the current task, once tasking is initialised. */
    ghost predicate Valid()
      reads this, queue
    {
      && Linked(queue, records)
      && if queue == [] then currentTask == null && readyQueue == null
         else position < |queue| && currentTask == queue[position] && readyQueue == queue[0]
              && currentDirectory == queue[position].pageDirectory
    }

    ghost function Abstract(): State
      reads this
    {
      State(records, position, nextPid, currentDirectory)
    }

    /** Before initialise_tasking: no task, and pid 1 is next. */
    constructor (directory: u32)
      ensures Valid() && queue == [] && nextPid == 1 && currentDirectory == directory
    {
      currentTask, readyQueue, queue, records, position := null, null, [], [], 0;
      nextPid, currentDirectory := 1, directory;
    }

    method InitialiseTasking()
      requires Valid() && queue == [] && nextPid == 1
      modifies this
      ensures Valid() && fresh(queue) && Abstract() == Initial(old(currentDirectory)) && Good(Abstract())
      ensures |queue| == 1 && currentTask == readyQueue == queue[0] && currentTask.id == 1 && nextPid == 2
      ensures currentTask.pageDirectory == currentDirectory == old(currentDirectory)
      ensures currentTask.esp == currentTask.ebp == currentTask.eip == 0
    {
      var task := new Task(nextPid, currentDirectory);
      task.place := 0;
      nextPid := (nextPid + 1) % TWO_TO_THE_32;
      currentTask, readyQueue, queue, position := task, task, [task], 0;
      records := [task.AsRecord()];
    }

    method QueueCount() returns (size: nat)
      requires Valid() && queue != []
      ensures size == |queue|
    {
      size := 1;
      var task := readyQueue;
      while task.next != null
        invariant 1 <= size <= |queue| && task == queue[size - 1] && InPlace(queue, records, size - 1)
        decreases |queue| - size
      {
        size := size + 1;
        task := task.next;
      }
    }

    /** The walk to the end of the list. */
    method LastTask() returns (last: Task)
      requires Valid() && queue != []
      ensures last == queue[|queue| - 1]
    {
      last := readyQueue;
      ghost var k := 0;
      while last.next != null
        invariant k < |queue| && last == queue[k] && InPlace(queue, records, k)
        decreases |queue| - k
      {
        last := last.next;
        k := k + 1;
      }
    }

    /** The registers go into the current task. */
    method Save(cpu: Cpu)
      requires Valid() && currentTask != null
      modifies this`records, currentTask
      ensures Valid() && records == old(records)[position := old(records)[position].(cpu := cpu)]
    {
      currentTask.eip, currentTask.esp, currentTask.ebp := cpu.eip, cpu.esp, cpu.ebp;
      records := records[position := records[position].(cpu := cpu)];
      forall i | 0 <= i < |queue| ensures InPlace(queue, records, i) {
        assert old(InPlace(queue, records, i)) && old(InPlace(queue, records, position));
        assert i != position ==> queue[i] != currentTask;
      }
    }

    /** switch_task; `cpu` holds the registers on entry, `loaded` those it jumps with. */
    method SwitchTask(cpu: Cpu) returns (loaded: Cpu)
      requires Valid()
      modifies this, currentTask
      ensures Valid() && queue == old(queue)
      ensures old(currentTask) == null ==> loaded == cpu && Abstract() == old(Abstract())
      ensures old(currentTask) != null ==>
        && Abstract() == Switched(old(Abstract()), cpu)
        && loaded == Abstract().tasks[Abstract().current].cpu
    {
      if currentTask == null { return cpu; }
      Save(cpu);
      assert InPlace(queue, records, position);
      currentTask := currentTask.next;
      position := position + 1;
      if currentTask == null {
        currentTask := readyQueue;
        position := 0;
      }
      assert InPlace(queue, records, position);
      loaded := Cpu(currentTask.esp, currentTask.ebp, currentTask.eip);
      currentDirectory := currentTask.pageDirectory;
    }

    /**
      fork; `directory` is the clone of the current address space and `cpu` holds the
      registers where the child will start.
     */
    method Fork(cpu: Cpu, directory: u32) returns (rv: u32)
      requires Valid() && currentTask != null
      modifies this, queue
      ensures Valid() && |queue| == |old(queue)| + 1 && queue[..|old(queue)|] == old(queue) && fresh(queue[|queue| - 1])
      ensures Abstract() == Forked(old(Abstract()), cpu, directory)
      ensures rv == ForkReturns(position, old(position), old(nextPid)) == old(nextPid)
    {
      hide Linked;
      var pid := nextPid;
      var child := new Task(pid, directory);
      nextPid := (nextPid + 1) % TWO_TO_THE_32;
      var last := LastTask();
      child.esp, child.ebp, child.eip := cpu.esp, cpu.ebp, cpu.eip;
      Append(last, child, Record(pid, cpu, directory));
      rv := child.id;
    }

    /** The child is linked behind the last task. */
    method Append(last: Task, child: Task, ghost record: Record)
      requires Valid() && queue != [] && last == queue[|queue| - 1] && child !in queue
      requires child.next == null && child.AsRecord() == record
      modifies this`queue, this`records, last`next, child`place
      ensures Valid() && queue == old(queue) + [child] && records == old(records) + [record]
    {
      child.place := |queue|;
      last.next := child;
      queue := queue + [child];
      records := records + [record];
      forall i | 0 <= i < |queue| ensures InPlace(queue, records, i) {
        assert i < |queue| - 1 ==> old(InPlace(queue, records, i));
        assert old(InPlace(queue, records, |queue| - 1));
        assert i < |queue| - 2 ==> queue[i] != last;
      }
    }
  }
}
