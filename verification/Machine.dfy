/**
  What the process kernel is for, without slots' bookkeeping, links or tables: three stacks of
  processes, one per terminal, one of which has the processor. Every kernel entry is one atomic step;
  Interrupted says what becomes of halt and execute when it is not. A saved esp/ebp pair is an opaque
  token.
*/
module Machine {
  import opened Common
  import opened Bytes
  import opened FileSystem
  import Scheduler

  const PROCESS_NUM_MAX := 6
  const FD_N := 8
  const FILE_TYPE_FILE := 2
  const FILE_TYPE_TERM := 3

  datatype Context = Context(esp: int, ebp: int)

  /**
    What a process slot's control block remembers: descriptors, the context of the execute call that
    created the process, the context saved when it lost the processor, and its argument. The memory
    of a free slot keeps what the last process left there.
  */
  datatype Slot = Slot(fds: seq<FileDesc>, call: Context, saved: Context, argument: seq<Byte>)

  datatype State = State(stacks: seq<seq<nat>>, running: nat, displayed: nat, slots: seq<Slot>)

  /**
    The kernel entries. What the file system makes of a command or a name is part of the event: the
    argument of a command that names a program, and the directory entry a name stands for. `call` is
    the context inside execute, `saved` the one in which the timer or the keyboard interrupted.
  */
  datatype Event =
    | Execute(program: Option<seq<Byte>>, call: Context)
    | Halt(call: Context)
    | Tick(saved: Context)
    | Switch(terminal: nat, saved: Context, call: Context)
    | Open(entry: Option<Dentry>)
    | Close(fd: int)

  /** The shell, which takes no argument, as a program. */
  const SHELL: Option<seq<Byte>> := Some([])

  // ---- shape ----

  predicate InUse(m: State, s: nat)
    requires |m.stacks| == TERMINAL_NUM
  {
    s in m.stacks[0] || s in m.stacks[1] || s in m.stacks[2]
  }

  /** No slot stands twice in the stacks. */
  predicate Distinct(stacks: seq<seq<nat>>) {
    forall t, i, u, j {:trigger stacks[t][i], stacks[u][j]} |
      0 <= t < |stacks| && 0 <= i < |stacks[t]| && 0 <= u < |stacks| && 0 <= j < |stacks[u]| ::
      stacks[t][i] == stacks[u][j] ==> t == u && i == j
  }

  predicate InRange(stacks: seq<seq<nat>>) {
    forall t, i {:trigger stacks[t][i]} :: 0 <= t < |stacks| && 0 <= i < |stacks[t]|
      ==> 1 <= stacks[t][i] <= PROCESS_NUM_MAX
  }

  predicate Shape(m: State) {
    && |m.stacks| == TERMINAL_NUM && m.running < TERMINAL_NUM && m.displayed < TERMINAL_NUM
    && |m.slots| == PROCESS_NUM_MAX + 1
    && (forall s :: 0 <= s < |m.slots| ==> |m.slots[s].fds| == FD_N)
    && InRange(m.stacks) && Distinct(m.stacks)
  }

  /** Between kernel entries terminal 0 and the running terminal always have a process. */
  predicate Valid(m: State) {
    Shape(m) && m.stacks[0] != [] && m.stacks[m.running] != []
  }

  function Top(m: State): nat
    requires m.running < |m.stacks| && m.stacks[m.running] != []
  {
    m.stacks[m.running][0]
  }

  function Flags(m: State): seq<bool> {
    seq(|m.stacks|, t requires 0 <= t < |m.stacks| => m.stacks[t] != [])
  }

  // ---- steps ----

  /** The least free slot from s on; PROCESS_NUM_MAX + 1 if there is none. */
  function LeastFree(m: State, s: nat): (r: nat)
    requires |m.stacks| == TERMINAL_NUM && s <= PROCESS_NUM_MAX + 1
    ensures s <= r <= PROCESS_NUM_MAX + 1
    ensures r <= PROCESS_NUM_MAX ==> !InUse(m, r)
    ensures forall k :: s <= k < r ==> InUse(m, k)
    decreases PROCESS_NUM_MAX + 1 - s
  {
    if s == PROCESS_NUM_MAX + 1 || !InUse(m, s) then s else LeastFree(m, s + 1)
  }

  /** execute sets up the two standard descriptors, and only those. */
  function StartFds(fds: seq<FileDesc>): (r: seq<FileDesc>)
    requires |fds| == FD_N
    ensures |r| == FD_N
    ensures r[0].inUse && r[1].inUse && r[0].kind == r[1].kind == FILE_TYPE_TERM && r[2..] == fds[2..]
  {
    fds[0 := fds[0].(kind := FILE_TYPE_TERM, inUse := true)][1 := fds[1].(kind := FILE_TYPE_TERM, inUse := true)]
  }

  /** halt closes every descriptor above the standard two. */
  function EndFds(fds: seq<FileDesc>): (r: seq<FileDesc>)
    ensures |r| == |fds|
    ensures forall i :: 0 <= i < |fds| ==> r[i] == if i < 2 then fds[i] else fds[i].(inUse := false)
  {
    seq(|fds|, i requires 0 <= i < |fds| => if i < 2 then fds[i] else fds[i].(inUse := false))
  }

  /** A new process on top of the running terminal's stack, in the least free slot. */
  function Push(m: State, argument: seq<Byte>, call: Context): State
    requires Shape(m) && LeastFree(m, 1) <= PROCESS_NUM_MAX
  {
    var s := LeastFree(m, 1);
    var slot := m.slots[s].(fds := StartFds(m.slots[s].fds), call := call, argument := argument);
    m.(stacks := m.stacks[m.running := [s] + m.stacks[m.running]], slots := m.slots[s := slot])
  }

  function DoExecute(m: State, program: Option<seq<Byte>>, call: Context): State
    requires Shape(m)
  {
    if LeastFree(m, 1) <= PROCESS_NUM_MAX && program.Some? then Push(m, program.value, call) else m
  }

  function Pop(m: State): State
    requires Shape(m) && m.stacks[m.running] != []
  {
    m.(stacks := m.stacks[m.running := m.stacks[m.running][1..]])
  }

  lemma PopStacks(stacks: seq<seq<nat>>, t: nat)
    requires t < |stacks| && stacks[t] != [] && InRange(stacks) && Distinct(stacks)
    ensures var popped := stacks[t := stacks[t][1..]];
      InRange(popped) && Distinct(popped) && forall u :: 0 <= u < |stacks| ==> stacks[t][0] !in popped[u]
  {
    var popped := stacks[t := stacks[t][1..]];
    forall u, i | 0 <= u < |stacks| && 0 <= i < |popped[u]|
      ensures popped[u][i] == stacks[u][if u == t then i + 1 else i]
    {
    }
  }

  lemma PopShape(m: State)
    requires Shape(m) && m.stacks[m.running] != []
    ensures Shape(Pop(m)) && !InUse(Pop(m), Top(m))
  {
    PopStacks(m.stacks, m.running);
  }

  /** The last process of a terminal is replaced by a shell; any other returns to its parent. */
  function DoHalt(m: State, call: Context): State
    requires Valid(m)
  {
    if |m.stacks[m.running]| == 1 then
      PopShape(m);
      DoExecute(Pop(m), SHELL, call)
    else
      var s := Top(m);
      Pop(m).(slots := m.slots[s := m.slots[s].(fds := EndFds(m.slots[s].fds))])
  }

  function Save(m: State, saved: Context): State
    requires Valid(m)
  {
    m.(slots := m.slots[Top(m) := m.slots[Top(m)].(saved := saved)])
  }

  function DoTick(m: State, saved: Context): State
    requires Valid(m)
  {
    if m.stacks[1] == [] && m.stacks[2] == [] then m
    else Save(m, saved).(running := Scheduler.Next(Flags(m), m.running))
  }

  /** The running terminal's process is put aside and a shell started on the new one, if a slot is free. */
  function Spawn(m: State, terminal: nat, saved: Context, call: Context): State
    requires Valid(m) && terminal < TERMINAL_NUM && m.stacks[terminal] == []
  {
    var aside := Save(m, saved).(displayed := terminal, running := terminal);
    if LeastFree(m, 1) <= PROCESS_NUM_MAX then DoExecute(aside, SHELL, call) else aside.(running := m.running)
  }

  /** Display another terminal; one that has no process yet gets a shell and the processor, if a slot is free. */
  function DoSwitch(m: State, terminal: nat, saved: Context, call: Context): State
    requires Valid(m) && terminal < TERMINAL_NUM
  {
    if terminal == m.displayed then m
    else if terminal == 0 || m.stacks[terminal] != [] then m.(displayed := terminal)
    else Spawn(m, terminal, saved, call)
  }

  /** The least free descriptor from i on; FD_N if there is none. */
  function LeastFreeFd(fds: seq<FileDesc>, i: nat): (r: nat)
    requires i <= |fds|
    ensures i <= r <= |fds|
    ensures r < |fds| ==> !fds[r].inUse
    ensures forall k :: i <= k < r ==> fds[k].inUse
    decreases |fds| - i
  {
    if i == |fds| || !fds[i].inUse then i else LeastFreeFd(fds, i + 1)
  }

  /** The descriptor open returns; -1 when the name is unknown or descriptors 2 to 7 are all in use. */
  function OpenResult(fds: seq<FileDesc>, entry: Option<Dentry>): int
    requires |fds| == FD_N
  {
    if entry.None? || LeastFreeFd(fds, 2) == FD_N then -1 else LeastFreeFd(fds, 2)
  }

  function OpenFds(fds: seq<FileDesc>, entry: Option<Dentry>): (r: seq<FileDesc>)
    requires |fds| == FD_N
    ensures |r| == FD_N
  {
    var i := OpenResult(fds, entry);
    if i == -1 then fds
    else
      var d := entry.value;
      fds[i := FileDesc(d.fileType, if d.fileType == FILE_TYPE_FILE then d.inodeNum else 0, 0, true)]
  }

  function CloseResult(fds: seq<FileDesc>, fd: int): int
    requires |fds| == FD_N
  {
    if fd <= 1 || fd >= FD_N || !fds[fd].inUse then -1 else 0
  }

  function CloseFds(fds: seq<FileDesc>, fd: int): (r: seq<FileDesc>)
    requires |fds| == FD_N
    ensures |r| == FD_N
  {
    if CloseResult(fds, fd) == -1 then fds else fds[fd := fds[fd].(inUse := false)]
  }

  function WithFds(m: State, fds: seq<FileDesc>): State
    requires Valid(m)
  {
    m.(slots := m.slots[Top(m) := m.slots[Top(m)].(fds := fds)])
  }

  function Fds(m: State): (fds: seq<FileDesc>)
    requires Valid(m)
    ensures |fds| == FD_N
  {
    m.slots[Top(m)].fds
  }

  predicate Admissible(e: Event) {
    e.Switch? ==> e.terminal < TERMINAL_NUM
  }

  function Step(m: State, e: Event): State
    requires Valid(m) && Admissible(e)
  {
    match e
    case Execute(program, call) => DoExecute(m, program, call)
    case Halt(call) => DoHalt(m, call)
    case Tick(saved) => DoTick(m, saved)
    case Switch(terminal, saved, call) => DoSwitch(m, terminal, saved, call)
    case Open(entry) => WithFds(m, OpenFds(Fds(m), entry))
    case Close(fd) => WithFds(m, CloseFds(Fds(m), fd))
  }

  // ---- what every step keeps ----

  lemma PushStacks(stacks: seq<seq<nat>>, t: nat, s: nat)
    requires t < |stacks| && InRange(stacks) && Distinct(stacks)
    requires 1 <= s <= PROCESS_NUM_MAX && forall u :: 0 <= u < |stacks| ==> s !in stacks[u]
    ensures InRange(stacks[t := [s] + stacks[t]]) && Distinct(stacks[t := [s] + stacks[t]])
  {
    var pushed := stacks[t := [s] + stacks[t]];
    forall u, i | 0 <= u < |stacks| && 0 <= i < |pushed[u]|
      ensures pushed[u][i] == if u == t && i == 0 then s else stacks[u][if u == t then i - 1 else i]
    {
    }
    forall u, i | 0 <= u < |stacks| && 0 <= i < |stacks[u]| ensures stacks[u][i] != s {
      assert s !in stacks[u];
    }
  }

  lemma PushShape(m: State, argument: seq<Byte>, call: Context)
    requires Shape(m) && LeastFree(m, 1) <= PROCESS_NUM_MAX
    ensures Shape(Push(m, argument, call))
    ensures Push(m, argument, call).stacks[m.running] != [] && Top(Push(m, argument, call)) == LeastFree(m, 1)
  {
    var s := LeastFree(m, 1);
    assert !InUse(m, s);
    PushStacks(m.stacks, m.running, s);
    var p := Push(m, argument, call);
    assert p.stacks == m.stacks[m.running := [s] + m.stacks[m.running]];
    assert forall k :: 0 <= k < |m.slots| ==> |p.slots[k].fds| == FD_N;
  }

  /** After a pop there is a free slot, so a terminal's last process always gets its new shell. */
  lemma ShellFindsSlot(m: State)
    requires Valid(m)
    ensures LeastFree(Pop(m), 1) <= Top(m) <= PROCESS_NUM_MAX
  {
    PopShape(m);
  }

  /** Only the stacks matter for which slot is free. */
  lemma {:induction false} SameFree(a: State, b: State, s: nat)
    requires |a.stacks| == TERMINAL_NUM && a.stacks == b.stacks && s <= PROCESS_NUM_MAX + 1
    ensures LeastFree(a, s) == LeastFree(b, s)
    decreases PROCESS_NUM_MAX + 1 - s
  {
    if s <= PROCESS_NUM_MAX { SameFree(a, b, s + 1); }
  }

  lemma SpawnPushes(m: State, terminal: nat, saved: Context, call: Context)
    requires Valid(m) && terminal < TERMINAL_NUM && m.stacks[terminal] == []
    ensures Valid(Spawn(m, terminal, saved, call))
    ensures var aside := Save(m, saved).(displayed := terminal, running := terminal);
      Spawn(m, terminal, saved, call)
      == if LeastFree(aside, 1) <= PROCESS_NUM_MAX then Push(aside, [], call) else aside.(running := m.running)
  {
    var aside := Save(m, saved).(displayed := terminal, running := terminal);
    SameFree(m, aside, 1);
    if LeastFree(aside, 1) <= PROCESS_NUM_MAX { PushShape(aside, [], call); }
  }

  lemma StepKeepsValid(m: State, e: Event)
    requires Valid(m) && Admissible(e)
    ensures Valid(Step(m, e))
  {
    match e
    case Execute(program, call) =>
      if LeastFree(m, 1) <= PROCESS_NUM_MAX && program.Some? { PushShape(m, program.value, call); }
    case Halt(call) =>
      PopShape(m);
      if |m.stacks[m.running]| == 1 {
        ShellFindsSlot(m);
        PushShape(Pop(m), SHELL.value, call);
      }
    case Tick(saved) =>
      assert Flags(m)[m.running];
    case Switch(terminal, saved, call) =>
      if terminal != m.displayed && m.stacks[terminal] == [] { SpawnPushes(m, terminal, saved, call); }
    case Open(_) =>
    case Close(_) =>
  }

  lemma PushUses(m: State, argument: seq<Byte>, call: Context, s: nat)
    requires Shape(m)
    ensures LeastFree(m, 1) <= PROCESS_NUM_MAX ==>
      (InUse(Push(m, argument, call), s) <==> InUse(m, s) || s == LeastFree(m, 1))
  {
    if LeastFree(m, 1) <= PROCESS_NUM_MAX {
      var p := Push(m, argument, call);
      assert s in p.stacks[m.running] <==> s == LeastFree(m, 1) || s in m.stacks[m.running];
      assert forall t :: 0 <= t < TERMINAL_NUM && t != m.running ==> p.stacks[t] == m.stacks[t];
    }
  }

  lemma PopUses(m: State, s: nat)
    requires Shape(m) && m.stacks[m.running] != []
    ensures InUse(Pop(m), s) <==> InUse(m, s) && s != Top(m)
  {
    PopShape(m);
    var p := Pop(m);
    assert s in m.stacks[m.running] <==> s == Top(m) || s in p.stacks[m.running];
    assert forall t :: 0 <= t < TERMINAL_NUM && t != m.running ==> p.stacks[t] == m.stacks[t];
  }
}
