/**
 * The Secure monitor's thread table (SecureMonitor/Thread.cpp): up to 64
 * Non-Secure threads, each owning a shadow exception stack carved from an
 * 8 KiB linear arena, and the switch of the active shadow stack when the
 * Non-Secure scheduler activates another thread.
 */
module Threads {
  import opened Wrappers
  import opened Words
  import LinearAllocator
  import opened ShadowStack

  const SlotCount: nat := 64

  /** `LinearAllocator<8192>`: the arena's capacity in bytes. */
  const ArenaBytes: word := 8192

  /** The bytes reserved for each thread's shadow exception stack, 4-aligned. */
  const ShadowStackBytes: word := 128

  /** `sizeof` and `alignof` of `NonSecureThread`: one `ShadowExceptionStackState` of three pointers. */
  const ThreadLayout: LinearAllocator.Layout := LinearAllocator.Layout(12, 4)

  /** The 32 entries of the default shadow stack, `g_shadowStack`. */
  const DefaultStackEntries: nat := 32

  /** `TCResult` as far as these operations return it. */
  datatype TCResult = Success | ErrorOutOfMemory | ErrorInvalidArgument

  /** `NonSecureThread`. */
  datatype Thread = Thread(ses: StackState)

  type Slot = i: nat | i < SlotCount

  /** `g_threads`: each slot is null or the address of a thread record in the arena. */
  type Slots = s: seq<Option<word>> | |s| == SlotCount witness seq(SlotCount, _ => None)

  /**
   * The monitor's thread state: the arena, the thread records written into it
   * (by address), the table, the next free slot, the active slot, and the
   * shadow stack currently in use (`g_shadowStackCurrent`, `g_shadowStackTop`,
   * `g_shadowStackLimit`). Two slots holding the same address share one record.
   */
  datatype Monitor = Monitor(
    arena: LinearAllocator.Allocator, view: LinearAllocator.StorageView,
    records: map<word, Thread>, slots: Slots, nextFree: nat, active: Slot, current: StackState)

  /** The state at boot: empty arena and table, the default stack in use. */
  function Initial(arenaAddress: word, defaultStack: word): (m: Monitor)
    ensures Valid(m) && m.nextFree == 0 && m.current.entries == []
  {
    Monitor(LinearAllocator.Empty, LinearAllocator.StorageView(arenaAddress, ArenaBytes),
            map[], seq(SlotCount, _ => None), 0, 0,
            StackState(defaultStack, AddW(defaultStack, DefaultStackEntries * FrameBytes), []))
  }

  /** The record slot `i` points to, `*g_threads[i]`, if the slot is filled. */
  function ThreadOf(m: Monitor, i: Slot): Option<Thread> {
    if m.slots[i].Some? && m.slots[i].value in m.records then Some(m.records[m.slots[i].value]) else None
  }

  /** Every filled slot points to a record that has been written. */
  predicate Resolved(m: Monitor) {
    forall i :: 0 <= i < SlotCount && m.slots[i].Some? ==> m.slots[i].value in m.records
  }

  /** The table is filled exactly below `nextFree`, and the arena stays inside its storage. */
  predicate Valid(m: Monitor) {
    m.nextFree <= SlotCount
    && (forall i :: 0 <= i < SlotCount ==> (m.slots[i].Some? <==> i < m.nextFree))
    && Resolved(m)
    && m.view.size == ArenaBytes && m.arena.top <= m.view.size
  }

  /**
   * Every filled slot's record lies in the part of the arena allocated so
   * far, so the next allocation cannot land on it.
   */
  predicate RecordsAllocated(m: Monitor) {
    forall i :: 0 <= i < SlotCount && m.slots[i].Some? ==> SubW(m.slots[i].value, m.view.data) < m.arena.top
  }

  /**
   * `Reset`: only the arena is emptied; the table, the records it points to
   * and both indices stay as they are.
   */
  function Reset(m: Monitor): (r: (Monitor, TCResult))
    ensures r.1 == Success && r.0.arena.top == 0
    ensures r.0.slots == m.slots && r.0.records == m.records && r.0.nextFree == m.nextFree && r.0.active == m.active
    ensures r.0.current == m.current && r.0.view == m.view
    ensures Valid(m) ==> Valid(r.0)
    ensures (exists i :: 0 <= i < SlotCount && m.slots[i].Some?) ==> !RecordsAllocated(r.0)
  {
    (m.(arena := LinearAllocator.Reset(m.arena)), Success)
  }

  /**
   * `CreateThread`: take the next free slot, allocate the thread record and
   * its 128-byte shadow stack from the arena, initialise the stack in the
   * record, and point the slot at the record. The new thread's ID is the
   * slot's index. On any failure the table and the records are left alone,
   * but arena space taken by an earlier step is not given back. The record is
   * written at a fresh arena offset, which after a `Reset` is where an
   * earlier thread's record still lives.
   */
  function CreateThread(m: Monitor, info: CreateInfo, isRunning: bool): (r: (Monitor, TCResult, Option<nat>))
    ensures r.1 != Success ==> r.1 == ErrorOutOfMemory && r.2.None?
    ensures r.1 != Success ==> r.0 == m.(arena := r.0.arena)
    ensures m.nextFree >= SlotCount ==> r == (m, ErrorOutOfMemory, None)
    ensures r.1 == Success ==> m.nextFree < SlotCount && r.2 == Some(m.nextFree) && r.0.nextFree == m.nextFree + 1
    ensures r.1 == Success ==> r.0.slots[m.nextFree].Some? && r.0.slots == m.slots[m.nextFree := r.0.slots[m.nextFree]]
    ensures r.1 == Success ==> var p := r.0.slots[m.nextFree].value;
              m.arena.top <= SubW(p, m.view.data) && p in r.0.records && r.0.records == m.records[p := r.0.records[p]]
    ensures r.1 == Success ==> r.0.active == m.active && r.0.current == m.current && r.0.view == m.view
    ensures Valid(m) ==> Valid(r.0)
    ensures RecordsAllocated(m) ==> RecordsAllocated(r.0)
  {
    if m.nextFree >= SlotCount then (m, ErrorOutOfMemory, None)
    else
      var (a1, rec) := LinearAllocator.Allocate(m.arena, m.view, ThreadLayout);
      if rec.None? then (m.(arena := a1), ErrorOutOfMemory, None)
      else
        var (a2, ses) := LinearAllocator.AllocateBytes(a1, m.view, ShadowStackBytes, 4);
        if ses.None? then (m.(arena := a2), ErrorOutOfMemory, None)
        else
          var st := Create(info, ses.value.ptr, AddW(ses.value.ptr, ShadowStackBytes), isRunning);
          assert st.Ok?;
          (Install(m, a2, rec.value.0, Thread(st.value)), Success, Some(m.nextFree))
  }

  /**
   * The last step of a successful `CreateThread`: write the record at `p`,
   * point the next free slot at it, and keep the grown arena.
   */
  function Install(m: Monitor, a: LinearAllocator.Allocator, p: word, t: Thread): (r: Monitor)
    requires m.nextFree < SlotCount
    ensures r.slots[m.nextFree] == Some(p) && p in r.records && r.records[p] == t && r.nextFree == m.nextFree + 1
    ensures r.slots == m.slots[m.nextFree := Some(p)] && r.records == m.records[p := t] && r.arena == a
    ensures r.active == m.active && r.current == m.current && r.view == m.view
    ensures Valid(m) && a.top <= m.view.size ==> Valid(r)
    ensures RecordsAllocated(m) && m.arena.top <= a.top && SubW(p, m.view.data) < a.top ==> RecordsAllocated(r)
  {
    m.(arena := a, records := m.records[p := t], slots := m.slots[m.nextFree := Some(p)], nextFree := m.nextFree + 1)
  }

  /**
   * While every record lies in the allocated part of the arena (no `Reset`
   * since the records were made), creating a thread leaves every other
   * thread's record exactly as it was.
   */
  lemma CreateKeepsOtherThreads(m: Monitor, info: CreateInfo, isRunning: bool)
    requires RecordsAllocated(m)
    ensures var (n, res, _) := CreateThread(m, info, isRunning);
            res == Success ==> forall i: Slot :: i != m.nextFree ==> ThreadOf(n, i) == ThreadOf(m, i)
  {
    var (n, res, _) := CreateThread(m, info, isRunning);
    if res == Success {
      var p := n.slots[m.nextFree].value;
      forall i: Slot | i != m.nextFree
        ensures ThreadOf(n, i) == ThreadOf(m, i)
      {
        if m.slots[i].Some? {
          assert SubW(m.slots[i].value, m.view.data) < m.arena.top <= SubW(p, m.view.data);
        }
      }
    }
  }

  /**
   * A successfully created thread owns a 4-aligned region of the arena of
   * exactly 128 bytes: its limit is its start plus 128, and a running thread's
   * stack starts empty while a suspended one holds the simulated frame.
   */
  lemma CreatedThreadStack(m: Monitor, info: CreateInfo, isRunning: bool)
    ensures var (n, res, _) := CreateThread(m, info, isRunning);
            res == Success ==>
              var s := n.records[n.slots[m.nextFree].value].ses;
              s.limit == AddW(s.start, ShadowStackBytes)
              && SubW(s.start, m.view.data) % 4 == 0
              && SubW(s.start, m.view.data) + ShadowStackBytes <= m.view.size
              && (isRunning ==> s.entries == [])
              && (!isRunning ==> s.entries == [Frame(info.initialPc, info.initialLr, info.excReturn, info.exceptionFrame)])
  {
    if m.nextFree < SlotCount {
      var (a1, rec) := LinearAllocator.Allocate(m.arena, m.view, ThreadLayout);
      if rec.Some? {
        Pow2Four();
        LinearAllocator.AllocateBytesAligned(a1, m.view, ShadowStackBytes, 4);
      }
    }
  }

  lemma Pow2Four()
    ensures IsPow2(4)
  {
    assert IsPow2(1);
    assert IsPow2(2);
  }

  /**
   * When the record fits but the shadow stack does not, creation fails and the
   * arena keeps the record's bytes: the table is unchanged, the arena is not.
   */
  lemma FailedCreateKeepsRecord(m: Monitor, info: CreateInfo, isRunning: bool)
    requires m.nextFree < SlotCount
    requires LinearAllocator.Allocate(m.arena, m.view, ThreadLayout).1.Some?
    requires var a1 := LinearAllocator.Allocate(m.arena, m.view, ThreadLayout).0;
             LinearAllocator.AllocateBytes(a1, m.view, ShadowStackBytes, 4).1.None?
    ensures var (n, res, _) := CreateThread(m, info, isRunning);
            res == ErrorOutOfMemory && n.slots == m.slots && n.records == m.records && n.arena.top >= m.arena.top + 12
  {
  }

  /** `threadId & (g_threads.size() - 1)`. */
  function MaskId(id: word): (r: Slot)
    ensures r == id % SlotCount
  {
    LowBits(id, 6);
    assert Pow2(6) == 64;
    AndBits(id, SlotCount - 1)
  }

  /**
   * `ActivateThread`: the ID is masked into the table; an empty slot is an
   * invalid argument and changes nothing. Otherwise the shadow stack in use is
   * saved into the active thread's record, the target thread's record is
   * loaded, and the target becomes active. The active slot must be filled and
   * the records resolved: the source dereferences both pointers without a check.
   */
  function ActivateThread(m: Monitor, id: word): (r: (Monitor, TCResult))
    requires Resolved(m) && m.slots[m.active].Some?
    ensures r.1 == Success <==> m.slots[id % SlotCount].Some?
    ensures r.1 != Success ==> r == (m, ErrorInvalidArgument)
    ensures r.1 == Success ==> r.0.active == id % SlotCount
    ensures r.1 == Success ==> r.0.records == m.records[m.slots[m.active].value := Thread(m.current)]
    ensures r.1 == Success ==> r.0.current == (if m.slots[id % SlotCount] == m.slots[m.active] then m.current
                                                else m.records[m.slots[id % SlotCount].value].ses)
    ensures r.0.slots == m.slots && r.0.arena == m.arena && r.0.nextFree == m.nextFree && r.0.view == m.view
    ensures Resolved(r.0) && r.0.slots[r.0.active].Some?
    ensures Valid(m) ==> Valid(r.0)
  {
    var t := MaskId(id);
    if m.slots[t].None? then (m, ErrorInvalidArgument)
    else
      var saved := m.records[m.slots[m.active].value := Thread(m.current)];
      (m.(records := saved, current := saved[m.slots[t].value].ses, active := t), Success)
  }

  /**
   * Switching to another thread and back restores the shadow stack in use
   * exactly, and leaves everything as it was except that the active thread's
   * record now holds its up-to-date stack.
   */
  lemma ActivateRoundTrip(m: Monitor, id: word)
    requires Resolved(m) && m.slots[m.active].Some? && m.slots[id % SlotCount].Some?
    ensures var m1 := ActivateThread(m, id).0;
            var (m2, res) := ActivateThread(m1, m.active);
            res == Success && m2 == m.(records := m.records[m.slots[m.active].value := Thread(m.current)])
  {
    var m1 := ActivateThread(m, id).0;
    var m2 := ActivateThread(m1, m.active).0;
    var pa, pt := m.slots[m.active].value, m.slots[id % SlotCount].value;
    assert m.active % SlotCount == m.active;
    assert m1.records[pt] == Thread(m1.current);
    assert m2.records == m.records[pa := Thread(m.current)];
  }

  /**
   * `InitializeDefaultThread`: the code already running becomes thread 0; any
   * other outcome is fatal.
   */
  function InitializeDefaultThread(m: Monitor): (r: Result<Monitor, string>)
    ensures r.Ok? <==> CreateThread(m, CreateInfo(0, 0, 0, 0), true).1 == Success && m.nextFree == 0
    ensures r.Ok? ==> r.value == CreateThread(m, CreateInfo(0, 0, 0, 0), true).0
  {
    var (n, res, id) := CreateThread(m, CreateInfo(0, 0, 0, 0), true);
    if res != Success then Err("CreateThread failed for the default thread.")
    else if id != Some(0) then Err("CreateThread unexpectedly returned a non-zero thread ID.")
    else Ok(n)
  }

  /**
   * At boot the default thread always fits: it becomes thread 0, the active
   * slot is filled, and its shadow stack is empty because it is already
   * running.
   */
  lemma BootDefaultThread(arenaAddress: word, defaultStack: word)
    ensures var r := InitializeDefaultThread(Initial(arenaAddress, defaultStack));
            r.Ok? && Valid(r.value) && r.value.nextFree == 1 && r.value.active == 0
            && ThreadOf(r.value, 0).Some? && ThreadOf(r.value, 0).value.ses.entries == []
            && RecordsAllocated(r.value)
  {
    var m := Initial(arenaAddress, defaultStack);
    EmptyArenaCreates(m, CreateInfo(0, 0, 0, 0), true);
    CreatedThreadStack(m, CreateInfo(0, 0, 0, 0), true);
  }

  /** The address of the first record allocated from an empty arena. */
  function FirstRecord(view: LinearAllocator.StorageView): word {
    AddW(view.data, 0)
  }

  /**
   * From an empty arena a thread is always created, and its record is the
   * first 12 bytes of the arena.
   */
  lemma EmptyArenaCreates(m: Monitor, info: CreateInfo, isRunning: bool)
    requires m.arena == LinearAllocator.Empty && m.view.size == ArenaBytes && m.nextFree < SlotCount
    ensures var (n, res, _) := CreateThread(m, info, isRunning);
            res == Success && n.slots[m.nextFree] == Some(FirstRecord(m.view))
  {
    Pow2Four();
    LinearAllocator.AlignUpValue(0, 4);
    assert LinearAllocator.AlignUp(0, 4) == 0;
    var a1 := LinearAllocator.Allocate(m.arena, m.view, ThreadLayout).0;
    assert a1.top == 12;
    LinearAllocator.AlignUpValue(12, 4);
    assert LinearAllocator.AlignUp(12, 4) == 12;
  }

  /**
   * `TCReset` keeps the table, so the next thread's record is allocated at
   * arena offset 0, where thread 0's record still is: the new slot and slot 0
   * point to one record. Whatever thread 0's live shadow stack holds,
   * switching to the new thread then keeps that stack in use instead of the
   * new thread's empty one.
   */
  lemma ResetAliasesThreadZero(arenaAddress: word, defaultStack: word, live: StackState, info: CreateInfo, out: word)
    ensures var r := InitializeDefaultThread(Initial(arenaAddress, defaultStack));
            r.Ok?
            && var (n, res, id) := TCCreateThread(Reset(r.value.(current := live)).0, info, out);
               res == Success && id == 1 && n.slots[1] == n.slots[0] && Resolved(n) && n.slots[n.active].Some?
               && var (n2, res2) := ActivateThread(n, 1);
                  res2 == Success && n2.active == 1 && n2.current == live
  {
    var boot := Initial(arenaAddress, defaultStack);
    BootDefaultThread(arenaAddress, defaultStack);
    EmptyArenaCreates(boot, CreateInfo(0, 0, 0, 0), true);
    var m := InitializeDefaultThread(boot).value.(current := live);
    var m1 := Reset(m).0;
    EmptyArenaCreates(m1, info, true);
    var m0 := InitializeDefaultThread(boot).value;
    assert m0 == CreateThread(boot, CreateInfo(0, 0, 0, 0), true).0;
    assert m0.slots[0] == Some(FirstRecord(boot.view));
    assert m1.slots == m0.slots && m1.nextFree == 1 && m1.active == 0 && m1.current == live;
    var n := CreateThread(m1, info, true).0;
    assert n.slots[1] == Some(FirstRecord(boot.view)) == n.slots[0];
    assert TCCreateThread(m1, info, out) == (n, Success, 1);
    assert n.active == 0 && n.current == live && Resolved(n);
    var n2 := ActivateThread(n, 1).0;
    assert n2.current == live;
  }

  /**
   * `TCCreateThread`: create a thread that counts as running, and write its
   * ID to the caller's variable only on success.
   */
  function TCCreateThread(m: Monitor, info: CreateInfo, out: word): (r: (Monitor, TCResult, word))
    ensures r.1 == CreateThread(m, info, true).1 && r.0 == CreateThread(m, info, true).0
    ensures r.1 == Success ==> r.2 == m.nextFree
    ensures r.1 != Success ==> r.2 == out
  {
    var (n, res, id) := CreateThread(m, info, true);
    if res == Success then (n, res, id.value) else (n, res, out)
  }

  /**
   * Because `TCCreateThread` always creates a running thread, the initial
   * frame in `info` is dropped: the new thread's shadow stack is empty, so an
   * exception return checked against it fails whatever the stack pointers.
   */
  lemma CreatedThreadIgnoresInitialFrame(m: Monitor, info: CreateInfo, out: word, env: Env, msp: word, psp: word)
    requires ValidConfig(env.c)
    ensures var (n, res, id) := TCCreateThread(m, info, out);
            res == Success ==>
              ThreadOf(n, id).Some? && ThreadOf(n, id).value.ses.entries == []
              && Assert(ThreadOf(n, id).value.ses, msp, psp, env).Err?
  {
    CreatedThreadStack(m, info, true);
  }
}
