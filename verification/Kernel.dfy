/**
 * Processes and the round-robin scheduler: execute, halt and PCB_init of
 * student-distrib/system_calls.c, switch_tasks of student-distrib/schedule.c and
 * page_allocate of student-distrib/paging.c, over the globals they share.
 */
module Kernel {

  const SLOTS := 7
  const MAX_TASKS := 7
  const FOURMB := 0x400000
  const EIGHTMB := 0x800000
  const EIGHTKB := 0x2000
  /** Present, writable, user, 4 MB. */
  const USER_PAGE := 0x87

  /** Top of the kernel stack of a process. */
  function StackTop(pid: int): int { EIGHTMB - pid * EIGHTKB }

  /** The process control block lies at the bottom of the 8 KB kernel stack. */
  function PcbAddr(pid: int): int { StackTop(pid) - EIGHTKB }

  /** First byte of the 4 MB frame of a process. */
  function FrameBase(pid: int): int { (pid - 1) * FOURMB + EIGHTMB }

  /** The 4 MB directory entry of a process; the frame's low 22 bits are clear, so the flags can be added. */
  function PageEntry(pid: int): int { FrameBase(pid) + USER_PAGE }

  datatype PCB = PCB(pid: int, parentAddr: int, kernelStack: int)

  /**
   * The shared globals. pageEntry is page-directory entry 32; running is the process
   * on whose kernel stack the processor is, 0 for the boot stack; memory holds the
   * control blocks by address.
   */
  datatype State = State(
    bits: seq<int>,
    slots: seq<int>,
    current: int,
    total: int,
    started: bool,
    terminal: int,
    memory: map<int, PCB>,
    pageEntry: int,
    esp0: int,
    running: int)
  {
    function PcbAt(a: int): PCB { if a in memory then memory[a] else PCB(0, -1, 0) }

    function Self(): PCB { PcbAt(PcbAddr(running)) }

    predicate Shaped() {
      |bits| == SLOTS && |slots| == SLOTS && -1 <= current < SLOTS
    }
  }

  // ---------------------------------------------------------------- the searches

  /** Index of the first clear bit, or the length. */
  function FirstZero(b: seq<int>): (r: nat)
    ensures r <= |b| && (forall k :: 0 <= k < r ==> b[k] != 0) && (r < |b| ==> b[r] == 0)
  {
    if b == [] || b[0] == 0 then 0 else 1 + FirstZero(b[1..])
  }

  /** Index of the first slot that holds pid, or the length. */
  function SlotOf(slots: seq<int>, pid: int): (r: nat)
    ensures r <= |slots| && (forall k :: 0 <= k < r ==> slots[k] != pid) && (r < |slots| ==> slots[r] == pid)
  {
    if slots == [] || slots[0] == pid then 0 else 1 + SlotOf(slots[1..], pid)
  }

  /** Index of the first slot without a process, or the length. */
  function FirstEmpty(slots: seq<int>): (r: nat)
    ensures r <= |slots| && (forall k :: 0 <= k < r ==> slots[k] > 0) && (r < |slots| ==> slots[r] <= 0)
  {
    if slots == [] || slots[0] <= 0 then 0 else 1 + FirstEmpty(slots[1..])
  }

  /** The slot j places after c, going round, holds a process. */
  predicate OccupiedAt(slots: seq<int>, c: int, j: int)
    requires |slots| == SLOTS
  {
    slots[(c + j) % SLOTS] >= 0
  }

  ghost predicate SomeOccupied(slots: seq<int>)
    requires |slots| == SLOTS
  {
    exists k :: 0 <= k < SLOTS && slots[k] >= 0
  }

  /** The least distance, at least d, from c to an occupied slot, going round. */
  function Gap(slots: seq<int>, c: int, d: int): (r: int)
    requires |slots| == SLOTS && 1 <= d <= SLOTS
    ensures d <= r <= SLOTS
    decreases SLOTS - d
  {
    if d == SLOTS || OccupiedAt(slots, c, d) then d else Gap(slots, c, d + 1)
  }

  lemma {:induction false} GapIsFirst(slots: seq<int>, c: int, d: int)
    requires |slots| == SLOTS && 1 <= d <= SLOTS
    ensures forall j :: d <= j < Gap(slots, c, d) ==> !OccupiedAt(slots, c, j)
    ensures OccupiedAt(slots, c, Gap(slots, c, d)) || Gap(slots, c, d) == SLOTS
    decreases SLOTS - d
  {
    if d == SLOTS {
    } else {
      GapIsFirst(slots, c, d + 1);
    }
  }

  /** The slot that the scheduler turns to after slot c. */
  function Next(slots: seq<int>, c: int): (q: int)
    requires |slots| == SLOTS
    ensures 0 <= q < SLOTS
  {
    (c + Gap(slots, c, 1)) % SLOTS
  }

  // ---------------------------------------------------------------- the steps

  /** The slot that a new process takes: its parent's, or for a root shell the first empty one. */
  function ChosenSlot(slots: seq<int>, parent: int, pid: int): (slot: nat)
    ensures slot <= |slots|
  {
    if pid > 3 then SlotOf(slots, parent) else FirstEmpty(slots)
  }

  function Entered(slots: seq<int>, slot: nat, pid: int): seq<int> {
    if slot < |slots| then slots[slot := pid] else slots
  }

  /** The accepted part of execute: a new process takes a pid and a slot and runs. */
  function Spawn(s: State): (s': State)
    requires s.Shaped()
    ensures s'.Shaped()
  {
    var bit := FirstZero(s.bits);
    if bit == SLOTS then s
    else
      var pid := bit + 1;
      var slot := ChosenSlot(s.slots, s.Self().pid, pid);
      var parent := if pid > 3 then PcbAddr(s.running) else -1;
      State(s.bits[bit := 1],
            Entered(s.slots, slot, pid),
            if slot < SLOTS then slot else s.current,
            s.total + 1, s.started, s.terminal,
            s.memory[PcbAddr(pid) := PCB(pid, parent, StackTop(pid))],
            PageEntry(pid), StackTop(pid), pid)
  }

  /** execute: ok says that the command names an executable file. */
  function Exec(s: State, ok: bool): (s': State)
    requires s.Shaped()
    ensures s'.Shaped()
  {
    if ok && s.total < MAX_TASKS then Spawn(s) else s
  }

  /** halt of the running process. */
  function Halted(s: State): (s': State)
    requires s.Shaped()
    ensures s'.Shaped()
  {
    var self := s.Self();
    if self.pid > 3 then
      var parent := s.PcbAt(self.parentAddr);
      var slot := SlotOf(s.slots, self.pid);
      s.(total := s.total - 1,
         slots := if slot < SLOTS then s.slots[slot := parent.pid] else s.slots,
         pageEntry := PageEntry(parent.pid), esp0 := parent.kernelStack, running := parent.pid)
    else if 1 <= self.pid then
      Exec(s.(total := s.total - 1, bits := s.bits[self.pid - 1 := 0]), true)
    else s
  }

  /** One timer tick: switch_tasks. */
  function Ticked(s: State): (s': State)
    requires s.Shaped()
    ensures s'.Shaped()
  {
    if s.started then
      var slot := Next(s.slots, s.current);
      var pid := s.slots[slot];
      s.(current := slot, pageEntry := PageEntry(pid), esp0 := StackTop(pid), running := pid)
    else
      Exec(s.(terminal := s.terminal - 1, started := s.terminal == 1), true)
  }

  /** After scheduler_init. */
  function Initial(): State {
    State(seq(SLOTS, _ => 0), seq(SLOTS, _ => -1), -1, 1, false, 3, map[], 0, 0, 0)
  }

  // ---------------------------------------------------------------- the program

  class Machine {
    const pidBits: array<int>
    const slots: array<int>
    var current: int
    var total: int
    var started: bool
    var terminal: int
    var memory: map<int, PCB>
    var pageEntry: int
    var esp0: int
    var running: int

    ghost predicate Valid()
      reads this, pidBits, slots
    {
      pidBits != slots && pidBits.Length == SLOTS && slots.Length == SLOTS && -1 <= current < SLOTS
    }

    ghost function Now(): (s: State)
      requires Valid()
      reads this, pidBits, slots
      ensures s.Shaped()
    {
      State(pidBits[..], slots[..], current, total, started, terminal, memory, pageEntry, esp0, running)
    }

    constructor ()
      ensures Valid() && Now() == Initial() && fresh(pidBits) && fresh(slots)
    {
      pidBits := new int[SLOTS](_ => 0);
      slots := new int[SLOTS](_ => -1);
      current, total, started, terminal := -1, 1, false, 3;
      memory, pageEntry, esp0, running := map[], 0, 0, 0;
      new;
      assert pidBits[..] == Initial().bits && slots[..] == Initial().slots;
    }

    /** The pid search of execute; stale is what the pid variable, which is not initialised, happens to hold. */
    method TakePid(stale: int) returns (pid: int)
      requires Valid()
      modifies pidBits
      ensures pid == if FirstZero(old(pidBits[..])) < SLOTS then FirstZero(old(pidBits[..])) + 1 else stale
      ensures FirstZero(old(pidBits[..])) < SLOTS ==> pidBits[..] == old(pidBits[..])[pid - 1 := 1]
      ensures FirstZero(old(pidBits[..])) == SLOTS ==> pidBits[..] == old(pidBits[..])
    {
      pid := stale;
      var i := 0;
      while i < SLOTS
        invariant 0 <= i <= FirstZero(pidBits[..]) && pidBits[..] == old(pidBits[..])
      {
        if pidBits[i] == 0 {
          assert pidBits[..][i] == 0;
          pidBits[i] := 1;
          pid := i + 1;
          break;
        }
        assert pidBits[..][i] != 0;
        i := i + 1;
      }
    }

    /** The loop over the scheduler's list for a pid; 7 if it is not there. */
    method FindSlot(pid: int) returns (i: nat)
      requires Valid()
      ensures i == SlotOf(slots[..], pid)
    {
      i := 0;
      while i < SLOTS && slots[i] != pid
        invariant i <= SlotOf(slots[..], pid)
      {
        assert slots[..][i] != pid;
        i := i + 1;
      }
      assert i < SLOTS ==> slots[..][i] == pid;
    }

    /** PCB_init: build the control block and enter the pid in the scheduler's list. */
    method PcbInit(pid: int) returns (pcb: PCB, ret: int)
      requires Valid()
      requires pid > 3 ==> SlotOf(slots[..], Now().Self().pid) < SLOTS
      modifies this`current, slots
      ensures Valid()
      ensures pcb.pid == pid && pcb.parentAddr == if pid > 3 then PcbAddr(running) else -1
      ensures var slot := ChosenSlot(old(slots[..]), old(Now().Self().pid), pid);
        && (ret == 0 <==> slot < SLOTS)
        && slots[..] == Entered(old(slots[..]), slot, pid)
        && current == if slot < SLOTS then slot else old(current)
    {
      pcb := PCB(pid, -1, 0);
      var i := 0;
      if pid > 3 {
        var parent := PcbAddr(running);
        var parentPid := if parent in memory then memory[parent].pid else 0;
        pcb := pcb.(parentAddr := parent);
        i := FindSlot(parentPid);
      } else {
        var j := 0;
        while slots[i] > 0
          invariant 0 <= i == j <= FirstEmpty(slots[..]) && i < SLOTS
          decreases SLOTS - i
        {
          assert slots[..][i] > 0;
          i, j := i + 1, j + 1;
          if i > 6 { i := 0; }
          if j > 6 { return pcb, -1; }
        }
        assert slots[..][i] <= 0;
      }
      slots[i] := pid;
      current := i;
      ret := 0;
    }

    /** execute, for a command that names an executable file or not. */
    method Execute(ok: bool) returns (ret: int)
      requires Valid()
      requires ok && total < MAX_TASKS ==>
        && FirstZero(pidBits[..]) < SLOTS
        && (FirstZero(pidBits[..]) >= 3 ==> SlotOf(slots[..], Now().Self().pid) < SLOTS)
      modifies this, pidBits, slots
      ensures Valid() && Now() == Exec(old(Now()), ok)
      ensures ret == -1 <==> !ok || old(total) >= 7
    {
      if total >= MAX_TASKS || !ok {
        return -1;
      }
      Start();
      ret := 0;
    }

    /** The pid and the slot of a new process, and its control block. */
    method Admit() returns (pid: int, pcb: PCB)
      requires Valid() && FirstZero(pidBits[..]) < SLOTS
      requires FirstZero(pidBits[..]) >= 3 ==> SlotOf(slots[..], Now().Self().pid) < SLOTS
      modifies this`current, pidBits, slots
      ensures Valid() && pid == FirstZero(old(pidBits[..])) + 1 && pidBits[..] == old(pidBits[..])[pid - 1 := 1]
      ensures pcb.pid == pid && pcb.parentAddr == if pid > 3 then PcbAddr(running) else -1
      ensures var slot := ChosenSlot(old(slots[..]), old(Now().Self().pid), pid);
        slots[..] == Entered(old(slots[..]), slot, pid) && current == if slot < SLOTS then slot else old(current)
    {
      ghost var was := slots[..];
      pid := TakePid(0);
      assert slots[..] == was;
      var ret;
      pcb, ret := PcbInit(pid);
    }

    /** execute after its checks: pid, page, control block, slot and kernel stack of the new process. */
    method Start()
      requires Valid() && FirstZero(pidBits[..]) < SLOTS
      requires FirstZero(pidBits[..]) >= 3 ==> SlotOf(slots[..], Now().Self().pid) < SLOTS
      modifies this, pidBits, slots
      ensures Valid() && Now() == Spawn(old(Now()))
    {
      ghost var s := Now();
      total := total + 1;
      assert Now().Self() == s.Self();
      var pid, pcb := Admit();
      pageEntry := PageEntry(pid);
      var stack := EIGHTMB - pid * EIGHTKB;
      memory := memory[stack - EIGHTKB := pcb.(kernelStack := stack)];
      esp0 := stack;
      running := pid;
      SpawnIs(s, Now(), pid, ChosenSlot(s.slots, s.Self().pid, pid));
    }

    /** halt of a process that has a parent: control, page, stack and slot return to it. */
    method Halt()
      requires Valid() && Now().Self().pid > 3
      modifies this, slots
      ensures Valid() && Now() == Halted(old(Now()))
    {
      var self := memory[PcbAddr(running)];
      total := total - 1;
      var parent := if self.parentAddr in memory then memory[self.parentAddr] else PCB(0, -1, 0);
      esp0 := parent.kernelStack;
      pageEntry := PageEntry(parent.pid);
      var task := parent.pid;
      var i := FindSlot(self.pid);
      if i < SLOTS {
        slots[i] := task;
      }
      running := task;
    }

    /** halt of a root shell: a new shell is started in its place. */
    method HaltRoot()
      requires Valid() && 1 <= Now().Self().pid <= 3 && total <= MAX_TASKS
      requires FirstZero(pidBits[..]) >= 3
      modifies this, pidBits, slots
      ensures Valid() && Now() == Halted(old(Now()))
    {
      var self := memory[PcbAddr(running)];
      total := total - 1;
      assert forall k :: 0 <= k < 3 ==> pidBits[..][k] != 0;
      pidBits[self.pid - 1] := 0;
      assert FirstZero(pidBits[..]) <= self.pid - 1 by {
        assert pidBits[..][self.pid - 1] == 0;
      }
      var _ := Execute(true);
    }

    /** The cyclic search of switch_tasks; its measure is the distance to the next occupied slot. */
    method PlannedSlot() returns (planned: int)
      requires Valid() && SomeOccupied(slots[..])
      ensures planned == Next(slots[..], current)
    {
      planned := (current + 1) % 7;
      ghost var d := 1;
      SomeoneIsNext(slots[..], current);
      GapIsFirst(slots[..], current, 1);
      while slots[planned] < 0
        invariant 1 <= d <= Gap(slots[..], current, 1) && planned == (current + d) % SLOTS
        decreases Gap(slots[..], current, 1) - d
      {
        assert !OccupiedAt(slots[..], current, d);
        OneFurther(current + d);
        planned := planned + 1;
        if planned > 6 {
          planned := 0;
        }
        d := d + 1;
      }
      assert OccupiedAt(slots[..], current, d);
    }

    /** switch_tasks: one timer tick. */
    method SwitchTasks()
      requires Valid()
      requires started ==> SomeOccupied(slots[..])
      requires !started && total < MAX_TASKS ==> FirstZero(pidBits[..]) < 3
      modifies this, pidBits, slots
      ensures Valid() && Now() == Ticked(old(Now()))
    {
      if started {
        var planned := PlannedSlot();
        var pid := slots[planned];
        pageEntry := PageEntry(pid);
        current := planned;
        esp0 := EIGHTMB - pid * EIGHTKB;
        running := pid;
      } else {
        terminal := terminal - 1;
        if terminal == 0 {
          started := true;
        }
        var _ := Execute(true);
      }
    }
  }

  lemma {:induction false} SpawnIs(s: State, s': State, pid: int, slot: nat)
    requires s.Shaped() && pid == FirstZero(s.bits) + 1 <= SLOTS && slot == ChosenSlot(s.slots, s.Self().pid, pid)
    requires s'.bits == s.bits[pid - 1 := 1] && s'.slots == Entered(s.slots, slot, pid)
    requires s'.current == (if slot < SLOTS then slot else s.current) && s'.total == s.total + 1
    requires s'.started == s.started && s'.terminal == s.terminal
    requires s'.memory == s.memory[PcbAddr(pid) := PCB(pid, if pid > 3 then PcbAddr(s.running) else -1, StackTop(pid))]
    requires s'.pageEntry == PageEntry(pid) && s'.esp0 == StackTop(pid) && s'.running == pid
    ensures s' == Spawn(s)
  {
  }

  lemma {:induction false} OneFurther(x: int)
    ensures (x + 1) % SLOTS == if x % SLOTS == 6 then 0 else x % SLOTS + 1
  {
  }

  /** Some occupied slot lies within one round, so the search ends at an occupied slot. */
  lemma {:induction false} SomeoneIsNext(slots: seq<int>, c: int)
    requires |slots| == SLOTS && SomeOccupied(slots) && c >= -1
    ensures slots[Next(slots, c)] >= 0
  {
    var k :| 0 <= k < SLOTS && slots[k] >= 0;
    var d := (k - c - 1) % SLOTS + 1;
    assert (c + d) % SLOTS == k;
    assert OccupiedAt(slots, c, d);
    GapIsFirst(slots, c, 1);
  }
}
