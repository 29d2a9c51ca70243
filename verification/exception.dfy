/**
 * The Secure monitor's shadow exception stack (SecureMonitor/Exception.cpp).
 * On every Non-Secure exception entry the monitor walks the chain of
 * exception frames that are still at a trampoline's first instruction and
 * records them; on every exception return it checks the top one or two
 * recorded frames against the live stack and pops one.
 *
 * The Non-Secure memory is a total function from address to word; the
 * vector-table header constants and the EXC_RETURN bit masks come from headers
 * outside this model and are parameters (`Config`).
 */
module ShadowStack {
  import opened Wrappers
  import opened Words

  datatype Config = Config(
    sigMask: word, signature: word, sizeMask: word,
    stride: word,
    modeBit: word, spselBit: word, ftypeBit: word)

  /** The trampoline stride is a non-zero constant; the remainder by it must be defined. */
  predicate ValidConfig(c: Config) {
    c.stride > 0
  }

  predicate HasBits(x: word, mask: word) {
    AndBits(x, mask) != 0
  }

  type Memory = word -> word

  // ---------------------------------------------------------------------------
  // The exception-entry PC set (`ExecptionEntryPCSet`)

  /** The trampolines' addresses: every `stride`-th byte from `start`, `len` bytes long. */
  datatype PcSet = PcSet(start: word, len: word)

  /** The table's size field (`nonSecureVectorTable[0] & TC_VEC_TABLE_HDR_SIZE_MASK`). */
  function TableSize(table: nat -> word, c: Config): nat {
    AndBits(table(0), c.sizeMask)
  }

  /** The address of the `i`-th trampoline, when the first sits at `first`. */
  function Entry(first: word, stride: word, i: nat): word
    requires i >= 2
  {
    (first + (i - 2) * stride) % Modulus
  }

  /** The trampolines are laid out evenly from entry 2 up to the table's end. */
  predicate Laid(table: nat -> word, first: word, stride: word, size: nat) {
    forall i :: 2 <= i < size ==> table(i) == Entry(first, stride, i)
  }

  /** The layout sanity check, entry by entry, as the loop of `InitializeFromVectorTable` runs it. */
  method CheckLayout(table: nat -> word, first: word, stride: word, size: nat) returns (ok: bool)
    ensures ok <==> Laid(table, first, stride, size)
  {
    var i := 2;
    while i < size
      invariant 2 <= i
      invariant forall j :: 2 <= j < i && j < size ==> table(j) == Entry(first, stride, j)
      decreases size - i
    {
      if table(i) != Entry(first, stride, i) {
        return false;
      }
      i := i + 1;
    }
    return true;
  }

  /**
   * `InitializeFromVectorTable`: check the header's signature and size, and
   * the layout of the trampolines, then record where they lie. A table of two
   * entries has no trampoline, and only the length is reset.
   */
  function InitializeFromVectorTable(prev: PcSet, table: nat -> word, c: Config): (r: Result<PcSet, string>)
    ensures r.Ok? <==> AndBits(table(0), c.sigMask) == c.signature && 2 <= TableSize(table, c) <= 256
                       && (TableSize(table, c) == 2 || (table(2) % 2 == 1 && Laid(table, table(2), c.stride, TableSize(table, c))))
    ensures r.Ok? && TableSize(table, c) == 2 ==> r.value == prev.(len := 0)
    ensures r.Ok? && TableSize(table, c) > 2 ==>
              r.value.start == table(2) - 1 && r.value.len == ((TableSize(table, c) - 2) * c.stride) % Modulus
  {
    var n := TableSize(table, c);
    if AndBits(table(0), c.sigMask) != c.signature then
      Err("TZmCFI magic number was not found in the Non-Secure exception vector table.")
    else if n < 2 then Err("The Non-Secure exception vector table is too small.")
    else if n > 256 then Err("The Non-Secure exception vector table is too large.")
    else if n == 2 then Ok(prev.(len := 0))
    else
      ClearBitZero(table(2));
      if AndBits(table(2), 1) == 0 then Err("The address of an exception trampoline is malformed.")
      else if !Laid(table, table(2), c.stride, n) then
        Err("Some exception trampolines are not layouted as expected.")
      else Ok(PcSet(AndBits(table(2), Complement(1)), ((n - 2) * c.stride) % Modulus))
  }

  /** `x & 1` is the low bit, and `x & ~1` clears it. */
  lemma ClearBitZero(x: word)
    ensures AndBits(x, 1) == x % 2
    ensures AndBits(x, Complement(1)) == x - x % 2
  {
    ModulusIsPow2();
    assert Pow2(1) == 2;
    ClearLowBits(x, 2, 32);
  }

  /** `Contains`: the distance from `start`, in wrapping arithmetic, is below `len` and a multiple of the stride. */
  function Contains(s: PcSet, stride: word, pc: word): bool
    requires stride > 0
  {
    SubW(pc, s.start) < s.len && SubW(pc, s.start) % stride == 0
  }

  /**
   * Once the table is accepted, and the trampolines do not run past the end of
   * the address space, `Contains` holds exactly for the trampolines'
   * addresses with the Thumb bit cleared; for a table of two entries it holds
   * for none.
   */
  lemma ContainsEntries(prev: PcSet, table: nat -> word, c: Config, pc: word)
    requires ValidConfig(c)
    requires InitializeFromVectorTable(prev, table, c).Ok?
    requires (TableSize(table, c) - 2) * c.stride < Modulus
    ensures Contains(InitializeFromVectorTable(prev, table, c).value, c.stride, pc) <==>
            exists i :: 2 <= i < TableSize(table, c) && pc == SubW(table(i), 1)
  {
    var n := TableSize(table, c);
    var s := InitializeFromVectorTable(prev, table, c).value;
    Accepted(prev, table, c);
    if n > 2 {
      ContainsIffEntry(table, c, s, n, pc);
    }
  }

  /** What an accepted table guarantees, with the length's wrap ruled out. */
  lemma Accepted(prev: PcSet, table: nat -> word, c: Config)
    requires InitializeFromVectorTable(prev, table, c).Ok?
    requires (TableSize(table, c) - 2) * c.stride < Modulus
    ensures var s := InitializeFromVectorTable(prev, table, c).value;
            var n := TableSize(table, c);
            (n == 2 ==> s.len == 0)
            && (n > 2 ==> table(2) % 2 == 1 && Laid(table, table(2), c.stride, n)
                          && s.start == table(2) - 1 && s.len == (n - 2) * c.stride)
  {
    var n := TableSize(table, c);
    var s := InitializeFromVectorTable(prev, table, c).value;
    if n > 2 {
      assert s.len == ((n - 2) * c.stride) % Modulus;
      LengthNoWrap(n - 2, c.stride);
    }
  }

  /** A length below the modulus is not wrapped. */
  lemma LengthNoWrap(k: nat, stride: word)
    requires k * stride < Modulus
    ensures (k * stride) % Modulus == k * stride
  {
    if stride > 0 {
      MulStep(stride, k);
    }
  }

  lemma ContainsIffEntry(table: nat -> word, c: Config, s: PcSet, n: nat, pc: word)
    requires ValidConfig(c) && 2 < n && (n - 2) * c.stride < Modulus
    requires table(2) % 2 == 1 && Laid(table, table(2), c.stride, n)
    requires s.start == table(2) - 1 && s.len == (n - 2) * c.stride
    ensures Contains(s, c.stride, pc) <==> exists i :: 2 <= i < n && pc == SubW(table(i), 1)
  {
    forall i | 2 <= i < n && pc == SubW(table(i), 1)
      ensures Contains(s, c.stride, pc)
    {
      EntryContained(table, c, s, n, i);
    }
    if Contains(s, c.stride, pc) {
      var k := ContainedEntry(table, c, s, n, pc);
      assert pc == SubW(table(k + 2), 1);
    }
  }

  lemma EntryContained(table: nat -> word, c: Config, s: PcSet, n: nat, i: nat)
    requires ValidConfig(c) && 2 <= i < n && (n - 2) * c.stride < Modulus
    requires table(2) % 2 == 1 && Laid(table, table(2), c.stride, n)
    requires s.start == table(2) - 1 && s.len == (n - 2) * c.stride
    ensures Contains(s, c.stride, SubW(table(i), 1))
  {
    EntryDistance(table(2), c.stride, i, n);
  }

  lemma ContainedEntry(table: nat -> word, c: Config, s: PcSet, n: nat, pc: word) returns (k: nat)
    requires ValidConfig(c) && 2 < n && (n - 2) * c.stride < Modulus
    requires table(2) % 2 == 1 && Laid(table, table(2), c.stride, n)
    requires s.start == table(2) - 1 && s.len == (n - 2) * c.stride
    requires Contains(s, c.stride, pc)
    ensures k + 2 < n && pc == SubW(table(k + 2), 1)
  {
    var d := SubW(pc, s.start);
    k := QuotientBelow(d, c.stride, n - 2);
    assert table(k + 2) == Entry(table(2), c.stride, k + 2);
    EntryDistance(table(2), c.stride, k + 2, n);
    SubCancel(SubW(table(k + 2), 1), pc, s.start);
  }

  /** A multiple of `stride` below `m * stride` is `k * stride` for some `k < m`. */
  lemma QuotientBelow(d: nat, stride: nat, m: nat) returns (k: nat)
    requires stride > 0 && d < m * stride && d % stride == 0
    ensures k < m && d == k * stride
  {
    k := d / stride;
    ModUnique(d, stride, k, 0);
    MulStep(stride, m - k);
  }

  /** Wrapping subtraction of the same value is injective on words. */
  lemma SubCancel(x: word, y: word, b: word)
    requires SubW(x, b) == SubW(y, b)
    ensures x == y
  {
  }

  /** The `i`-th trampoline, Thumb bit cleared, lies `(i - 2) * stride` bytes past the first. */
  lemma EntryDistance(first: word, stride: word, i: nat, n: nat)
    requires stride > 0 && first % 2 == 1 && 2 <= i < n && (n - 2) * stride < Modulus
    ensures SubW(SubW(Entry(first, stride, i), 1), first - 1) == (i - 2) * stride
    ensures ((i - 2) * stride) % stride == 0 && (i - 2) * stride < (n - 2) * stride
  {
    MulStep(stride, n - i);
    assert (n - 2) * stride == (i - 2) * stride + (n - i) * stride;
    ModUnique((i - 2) * stride, stride, i - 2, 0);
  }

  // ---------------------------------------------------------------------------
  // The chained exception stack (`ChainedExceptionStackIterator`)

  datatype Iterator = Iterator(excReturn: word, msp: word, psp: word)

  /** Everything the walk reads: the constants, the trampolines, and the Non-Secure memory. */
  datatype Env = Env(c: Config, entries: PcSet, mem: Memory)

  /** The frame lies on the process stack when EXC_RETURN selects it, else on the main stack. */
  function FrameAddress(it: Iterator, env: Env): word {
    if HasBits(it.excReturn, env.c.spselBit) then it.psp else it.msp
  }

  /** Word 6 of the exception frame: the interrupted PC. */
  function OriginalPc(it: Iterator, env: Env): word {
    env.mem(AddW(FrameAddress(it, env), 24))
  }

  /** Word 5 of the exception frame: the interrupted LR. */
  function OriginalLr(it: Iterator, env: Env): word {
    env.mem(AddW(FrameAddress(it, env), 20))
  }

  /** `ShadowExceptionFrame`: what the monitor remembers of one exception frame. */
  datatype Frame = Frame(pc: word, lr: word, excReturn: word, frame: word)

  function AsFrame(it: Iterator, env: Env): (r: Frame)
    ensures r.excReturn == it.excReturn && r.frame == FrameAddress(it, env)
  {
    Frame(OriginalPc(it, env), OriginalLr(it, env), it.excReturn, FrameAddress(it, env))
  }

  /** The size of an exception frame: 32 bytes, or 104 with the floating-point context. */
  function FrameSize(excReturn: word, c: Config): word {
    if HasBits(excReturn, c.ftypeBit) then 32 else 104
  }

  /** The process stack pointer when `process` holds, else the main one. */
  function StackPointer(it: Iterator, process: bool): word {
    if process then it.psp else it.msp
  }

  /**
   * `MoveNext`: the walk ends at thread mode, and at a frame whose saved PC is
   * not a trampoline entry (that activation already runs its own code).
   * Otherwise the stack holding the frame is popped past it, the other stack
   * is left alone, and the saved LR is the next EXC_RETURN; so a next frame on
   * the same stack starts right after the current one, and one on the other
   * stack starts where that stack's pointer already was.
   */
  function MoveNext(it: Iterator, env: Env): (r: Option<Iterator>)
    requires ValidConfig(env.c)
    ensures r.None? <==> HasBits(it.excReturn, env.c.modeBit) || !Contains(env.entries, env.c.stride, OriginalPc(it, env))
    ensures r.Some? ==> r.value.excReturn == OriginalLr(it, env)
    ensures r.Some? ==> var onPsp := HasBits(it.excReturn, env.c.spselBit);
              StackPointer(r.value, onPsp) == AddW(FrameAddress(it, env), FrameSize(it.excReturn, env.c))
              && StackPointer(r.value, !onPsp) == StackPointer(it, !onPsp)
    ensures r.Some? && HasBits(r.value.excReturn, env.c.spselBit) == HasBits(it.excReturn, env.c.spselBit) ==>
              FrameAddress(r.value, env) == AddW(FrameAddress(it, env), FrameSize(it.excReturn, env.c))
    ensures r.Some? && HasBits(r.value.excReturn, env.c.spselBit) != HasBits(it.excReturn, env.c.spselBit) ==>
              FrameAddress(r.value, env) == StackPointer(it, !HasBits(it.excReturn, env.c.spselBit))
  {
    if HasBits(it.excReturn, env.c.modeBit) then None
    else if !Contains(env.entries, env.c.stride, OriginalPc(it, env)) then None
    else if HasBits(it.excReturn, env.c.spselBit) then
      Some(Iterator(OriginalLr(it, env), it.msp, AddW(it.psp, FrameSize(it.excReturn, env.c))))
    else
      Some(Iterator(OriginalLr(it, env), AddW(it.msp, FrameSize(it.excReturn, env.c)), it.psp))
  }

  /**
   * Every frame of the chain from `it`, innermost first: the `do … while
   * (MoveNext())` loop for an empty shadow stack. `None` when the chain is
   * longer than `fuel` frames.
   */
  function Chain(it: Iterator, env: Env, fuel: nat): (r: Option<seq<Frame>>)
    requires ValidConfig(env.c)
    ensures r.Some? ==> |r.value| >= 1 && r.value[0] == AsFrame(it, env)
    ensures r.Some? ==> (MoveNext(it, env).Some? <==> |r.value| >= 2)
    ensures r.Some? && MoveNext(it, env).Some? ==> r.value[1] == AsFrame(MoveNext(it, env).value, env)
    decreases fuel
  {
    if fuel == 0 then None
    else
      match MoveNext(it, env)
      case None => Some([AsFrame(it, env)])
      case Some(next) =>
        match Chain(next, env, fuel - 1)
        case None => None
        case Some(rest) => Some([AsFrame(it, env)] + rest)
  }

  /**
   * Consecutive frames of a chain that lie on the same stack are adjacent:
   * each outer frame starts right where the inner one ends.
   */
  lemma {:induction false} ChainFramesAdjacent(it: Iterator, env: Env, fuel: nat, i: nat)
    requires ValidConfig(env.c)
    requires Chain(it, env, fuel).Some? && i + 1 < |Chain(it, env, fuel).value|
    ensures var fs := Chain(it, env, fuel).value;
            HasBits(fs[i + 1].excReturn, env.c.spselBit) == HasBits(fs[i].excReturn, env.c.spselBit) ==>
              fs[i + 1].frame == AddW(fs[i].frame, FrameSize(fs[i].excReturn, env.c))
    decreases fuel
  {
    var next := MoveNext(it, env).value;
    if i > 0 {
      ChainFramesAdjacent(next, env, fuel - 1, i - 1);
    }
  }

  /**
   * The frames of the chain from `it` that lie above the frame at `stop`,
   * innermost first: the loop for a non-empty shadow stack, which breaks at
   * the frame the shadow stack's top entry already records.
   */
  function ChainUntil(it: Iterator, env: Env, stop: word, fuel: nat): (r: Option<seq<Frame>>)
    requires ValidConfig(env.c)
    ensures r.Some? ==> (|r.value| == 0 <==> FrameAddress(it, env) == stop)
    ensures r.Some? && |r.value| > 0 ==> r.value[0] == AsFrame(it, env)
    ensures r.Some? ==> forall f :: f in r.value ==> f.frame != stop
    ensures r.Some? && |r.value| > 0 && MoveNext(it, env).Some? ==>
              (|r.value| == 1 <==> FrameAddress(MoveNext(it, env).value, env) == stop)
    ensures r.Some? && |r.value| > 1 ==> MoveNext(it, env).Some? && r.value[1] == AsFrame(MoveNext(it, env).value, env)
    decreases fuel
  {
    if fuel == 0 then None
    else if FrameAddress(it, env) == stop then Some([])
    else
      match MoveNext(it, env)
      case None => Some([AsFrame(it, env)])
      case Some(next) =>
        match ChainUntil(next, env, stop, fuel - 1)
        case None => None
        case Some(rest) => Some([AsFrame(it, env)] + rest)
  }

  function Reverse<T>(s: seq<T>): (r: seq<T>)
    ensures |r| == |s| && forall i :: 0 <= i < |s| ==> r[i] == s[|s| - 1 - i]
  {
    if |s| == 0 then [] else Reverse(s[1..]) + [s[0]]
  }

  // ---------------------------------------------------------------------------
  // The shadow exception stack

  /**
   * One shadow exception stack: its region, and its entries from the bottom
   * (`start`) to the top. The top pointer of the source is
   * `start + 16 * |entries|`.
   */
  datatype StackState = StackState(start: word, limit: word, entries: seq<Frame>)

  /**
   * `PushShadowExceptionStack`: record the frames of the chain that are not
   * recorded yet, outermost lowest, so the current exception's frame ends on
   * top. There is no check against `limit`. `None` when the chain outruns
   * `fuel`.
   */
  function Push(s: StackState, excReturn: word, msp: word, psp: word, env: Env, fuel: nat): (r: Option<StackState>)
    requires ValidConfig(env.c)
    ensures r.Some? ==> r.value.start == s.start && r.value.limit == s.limit
    ensures r.Some? ==> |r.value.entries| >= |s.entries| && r.value.entries[..|s.entries|] == s.entries
    ensures r.Some? && |s.entries| == 0 ==> |r.value.entries| >= 1
    ensures r.Some? && |r.value.entries| > |s.entries| ==>
              r.value.entries[|r.value.entries| - 1] == AsFrame(Iterator(excReturn, msp, psp), env)
  {
    var it := Iterator(excReturn, msp, psp);
    var pushed := if |s.entries| == 0 then Chain(it, env, fuel)
                  else ChainUntil(it, env, s.entries[|s.entries| - 1].frame, fuel);
    match pushed
    case None => None
    case Some(fs) =>
      assert (s.entries + Reverse(fs))[..|s.entries|] == s.entries;
      Some(s.(entries := s.entries + Reverse(fs)))
  }

  /**
   * `AssertShadowExceptionStack`: the top entry must match the frame the
   * exception returns through; if the chain goes on, a second entry must exist
   * and match the next frame. Then one entry is popped and its EXC_RETURN is
   * returned. Every mismatch is fatal.
   */
  function Assert(s: StackState, msp: word, psp: word, env: Env): (r: Result<(StackState, word), string>)
    requires ValidConfig(env.c)
    ensures r.Ok? ==> |s.entries| >= 1 && r.value.0 == s.(entries := s.entries[..|s.entries| - 1])
    ensures r.Ok? ==> r.value.1 == s.entries[|s.entries| - 1].excReturn
    ensures r.Ok? ==> s.entries[|s.entries| - 1] == AsFrame(Iterator(r.value.1, msp, psp), env)
    ensures r.Ok? ==> var it := Iterator(r.value.1, msp, psp);
                      MoveNext(it, env).Some? ==>
                        |s.entries| >= 2 && s.entries[|s.entries| - 2] == AsFrame(MoveNext(it, env).value, env)
    ensures |s.entries| == 0 ==> r.Err?
  {
    if |s.entries| == 0 then
      Err("Exception return trampoline was called but the shadow exception stack is empty.")
    else
      var top := s.entries[|s.entries| - 1];
      match Mismatch(s.entries, Iterator(top.excReturn, msp, psp), env)
      case Some(e) => Err(e)
      case None => Ok((s.(entries := s.entries[..|s.entries| - 1]), top.excReturn))
  }

  /** The integrity checks of `AssertShadowExceptionStack` on the top entries, with the message of the first that fails. */
  function Mismatch(entries: seq<Frame>, it: Iterator, env: Env): (r: Option<string>)
    requires ValidConfig(env.c) && |entries| >= 1
    ensures r.None? ==> entries[|entries| - 1] == AsFrame(it, env)
    ensures r.None? ==> (MoveNext(it, env).Some? ==>
                           |entries| >= 2 && entries[|entries| - 2] == AsFrame(MoveNext(it, env).value, env))
  {
    if AsFrame(it, env) != entries[|entries| - 1] then Some("Exception stack integrity check has failed.")
    else if MoveNext(it, env).Some? && |entries| == 1 then
      Some("The number of entries in the shadow exception stack is lower than expected.")
    else if MoveNext(it, env).Some? && AsFrame(MoveNext(it, env).value, env) != entries[|entries| - 2] then
      Some("Exception stack integrity check 2 has failed.")
    else None
  }

  /**
   * An exception entry followed by its return with the stack pointers as they
   * were at entry passes the check, hands back the entry's EXC_RETURN and pops
   * only what the entry pushed on top. This holds whenever the entry found the
   * shadow stack empty, or pushed at least two frames.
   */
  lemma PushThenAssert(s: StackState, excReturn: word, msp: word, psp: word, env: Env, fuel: nat)
    requires ValidConfig(env.c)
    requires Push(s, excReturn, msp, psp, env, fuel).Some?
    requires var t := Push(s, excReturn, msp, psp, env, fuel).value;
             |s.entries| == 0 || |t.entries| >= |s.entries| + 2
    ensures var t := Push(s, excReturn, msp, psp, env, fuel).value;
            Assert(t, msp, psp, env) == Ok((t.(entries := t.entries[..|t.entries| - 1]), excReturn))
  {
    var it := Iterator(excReturn, msp, psp);
    var t := Push(s, excReturn, msp, psp, env, fuel).value;
    if |s.entries| == 0 {
      var fs := Chain(it, env, fuel).value;
      assert t.entries == Reverse(fs);
      PushedOnTop(s, t, fs, it, env);
    } else {
      var fs := ChainUntil(it, env, s.entries[|s.entries| - 1].frame, fuel).value;
      assert t.entries == s.entries + Reverse(fs);
      PushedOnTop(s, t, fs, it, env);
    }
  }

  /** After pushing the reversed chain segment `fs`, its first two frames are the top two entries. */
  lemma PushedOnTop(s: StackState, t: StackState, fs: seq<Frame>, it: Iterator, env: Env)
    requires ValidConfig(env.c)
    requires t.entries == s.entries + Reverse(fs) && |fs| >= 1 && fs[0] == AsFrame(it, env)
    requires MoveNext(it, env).Some? ==> |fs| >= 2 && fs[1] == AsFrame(MoveNext(it, env).value, env)
    ensures Assert(t, it.msp, it.psp, env) == Ok((t.(entries := t.entries[..|t.entries| - 1]), it.excReturn))
  {
    var n := |t.entries|;
    assert t.entries[n - 1] == fs[0];
    if MoveNext(it, env).Some? {
      assert t.entries[n - 2] == fs[1];
    }
    AssertPasses(t, it.msp, it.psp, env);
  }

  /**
   * The return check passes exactly when the shadow stack is not empty, its
   * top entry is the live frame, and, when the walk goes on, a second entry
   * exists and is the next live frame.
   */
  lemma AssertOkIff(s: StackState, msp: word, psp: word, env: Env)
    requires ValidConfig(env.c)
    ensures Assert(s, msp, psp, env).Ok? <==>
              |s.entries| >= 1
              && var top := s.entries[|s.entries| - 1];
                 var it := Iterator(top.excReturn, msp, psp);
                 top == AsFrame(it, env)
                 && (MoveNext(it, env).Some? ==>
                       |s.entries| >= 2 && s.entries[|s.entries| - 2] == AsFrame(MoveNext(it, env).value, env))
  {
    if |s.entries| >= 1 {
      var top := s.entries[|s.entries| - 1];
      var it := Iterator(top.excReturn, msp, psp);
      if top == AsFrame(it, env)
         && (MoveNext(it, env).Some? ==>
               |s.entries| >= 2 && s.entries[|s.entries| - 2] == AsFrame(MoveNext(it, env).value, env)) {
        AssertPasses(s, msp, psp, env);
      }
    }
  }

  /** The check passes when the top entry, and the one below it if the chain goes on, match the live frames. */
  lemma AssertPasses(s: StackState, msp: word, psp: word, env: Env)
    requires ValidConfig(env.c)
    requires |s.entries| >= 1
    requires var top := s.entries[|s.entries| - 1];
             var it := Iterator(top.excReturn, msp, psp);
             top == AsFrame(it, env)
             && (MoveNext(it, env).Some? ==>
                   |s.entries| >= 2 && s.entries[|s.entries| - 2] == AsFrame(MoveNext(it, env).value, env))
    ensures Assert(s, msp, psp, env) == Ok((s.(entries := s.entries[..|s.entries| - 1]),
                                            s.entries[|s.entries| - 1].excReturn))
  {
    var top := s.entries[|s.entries| - 1];
    assert Mismatch(s.entries, Iterator(top.excReturn, msp, psp), env) == None;
  }

  // ---------------------------------------------------------------------------
  // Per-thread state

  /** The parts of `TCThreadCreateInfo` the shadow stack uses. */
  datatype CreateInfo = CreateInfo(initialPc: word, initialLr: word, excReturn: word, exceptionFrame: word)

  /** `size_t` reinterpreted as the signed `ptrdiff_t`. */
  function Signed(x: word): int {
    if x >= Modulus / 2 then x - Modulus else x
  }

  /** The size of one `ShadowExceptionFrame` in bytes. */
  const FrameBytes: int := 16

  /**
   * `CreateShadowExceptionStackState`: a running thread starts with an empty
   * stack; any other thread with one simulated frame, from which it is first
   * resumed. A region smaller than one frame is fatal.
   */
  function Create(info: CreateInfo, start: word, limit: word, isRunning: bool): (r: Result<StackState, string>)
    ensures r.Ok? <==> Signed(SubW(limit, start)) >= FrameBytes
    ensures r.Ok? ==> r.value.start == start && r.value.limit == limit
    ensures r.Ok? && isRunning ==> r.value.entries == []
    ensures r.Ok? && !isRunning ==>
              r.value.entries == [Frame(info.initialPc, info.initialLr, info.excReturn, info.exceptionFrame)]
  {
    if Signed(SubW(limit, start)) < FrameBytes then Err("The shadow exception stack is too small.")
    else if isRunning then Ok(StackState(start, limit, []))
    else Ok(StackState(start, limit, [Frame(info.initialPc, info.initialLr, info.excReturn, info.exceptionFrame)]))
  }

  /**
   * A thread created suspended resumes through its simulated frame: the
   * return from the PendSV exception, with the stack pointers at the frame,
   * passes the check and pops exactly that frame.
   */
  lemma CreateThenAssert(info: CreateInfo, start: word, limit: word, env: Env, msp: word, psp: word)
    requires ValidConfig(env.c)
    requires Create(info, start, limit, false).Ok?
    requires AsFrame(Iterator(info.excReturn, msp, psp), env)
             == Frame(info.initialPc, info.initialLr, info.excReturn, info.exceptionFrame)
    requires MoveNext(Iterator(info.excReturn, msp, psp), env).None?
    ensures var s := Create(info, start, limit, false).value;
            Assert(s, msp, psp, env) == Ok((s.(entries := []), info.excReturn))
  {
  }
}
