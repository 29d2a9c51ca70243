/**
 * The Secure monitor's stack-like bump allocator (SecureMonitor/LinearAllocator.hpp,
 * SecureMonitor/LinearAllocator.cpp). All arithmetic is on the target's 32-bit
 * `size_t` and pointers, so it wraps; the allocator checks for the wrap
 * explicitly.
 */
module LinearAllocator {
  import opened Wrappers
  import opened Words

  datatype StorageView = StorageView(data: word, size: word)

  /** An allocated region: its address, the size asked for, and the padding before it. */
  datatype Allocation = Allocation(ptr: word, size: word, pad: word)

  /** The allocator's only state: the offset of the first free byte. */
  datatype Allocator = Allocator(top: word)

  /** A freshly constructed allocator (`top{0}`). */
  const Empty: Allocator := Allocator(0)

  /** `Reset`: forget every allocation at once. */
  function Reset(a: Allocator): (r: Allocator)
    ensures r == Empty
  {
    Allocator(0)
  }

  /** The offset of `al` inside the pool, `alloc.ptr - view.data`. */
  function Offset(view: StorageView, al: Allocation): word {
    SubW(al.ptr, view.data)
  }

  /** `(top + align - 1) & ~(align - 1)`: `top` rounded up to the alignment, in wrapping arithmetic. */
  function AlignUp(top: word, align: word): word {
    AndBits(AddW(top, SubW(align, 1)), Complement(SubW(align, 1)))
  }

  /**
   * `AllocateBytes`: round `top` up to the alignment, reserve `size` bytes
   * there, and fail without changing anything when the rounding wraps, the end
   * wraps, or the end lies beyond the pool. The new state comes first.
   */
  function AllocateBytes(a: Allocator, view: StorageView, size: word, align: word): (r: (Allocator, Option<Allocation>))
    ensures r.1.None? ==> r.0 == a
    ensures r.1.Some? ==> r.1.value.size == size
    ensures r.1.Some? ==> a.top <= Offset(view, r.1.value) && Offset(view, r.1.value) == a.top + r.1.value.pad
    ensures r.1.Some? ==> Offset(view, r.1.value) + size <= view.size
    ensures r.1.Some? ==> r.0.top == Offset(view, r.1.value) + size
  {
    var topAligned := AlignUp(a.top, align);
    if topAligned < a.top then (a, None)
    else if AddW(topAligned, size) < topAligned then (a, None)
    else if AddW(topAligned, size) > view.size then (a, None)
    else (Allocator(AddW(topAligned, size)),
          Some(Allocation(AddW(view.data, topAligned), size, topAligned - a.top)))
  }

  /**
   * For a power-of-two alignment, the rounded value is, when it does not
   * wrap, the least multiple of `align` at or above `top`; when it wraps it
   * is zero.
   */
  lemma AlignUpValue(top: word, align: word)
    requires IsPow2(align)
    ensures var u := top + align - 1;
            AlignUp(top, align) == (if u < Modulus then u - u % align else 0)
  {
    ModulusIsPow2();
    Pow2DividesModulus(align, 32);
    assert SubW(align, 1) == align - 1;
    assert Complement(align - 1) == Pow2(32) - align;
    var v := AddW(top, align - 1);
    ClearLowBits(v, align, 32);
    if top + align - 1 >= Modulus {
      assert v < align;
      ModUnique(v, align, 0, v);
    }
  }

  /** With a power-of-two alignment a successful allocation is aligned and pads by less than the alignment. */
  lemma AllocateBytesAligned(a: Allocator, view: StorageView, size: word, align: word)
    requires IsPow2(align)
    ensures var r := AllocateBytes(a, view, size, align);
            r.1.Some? ==> Offset(view, r.1.value) % align == 0 && r.1.value.pad < align
  {
    var r := AllocateBytes(a, view, size, align);
    if r.1.Some? {
      var t := AlignUp(a.top, align);
      assert r.1.value == Allocation(AddW(view.data, t), size, t - a.top);
      OffsetOf(view, t);
      AlignUpNoWrap(a.top, align);
    }
  }

  /** The offset of the address `t` bytes into the pool is `t`, whatever wraps. */
  lemma OffsetOf(view: StorageView, t: word)
    ensures SubW(AddW(view.data, t), view.data) == t
  {
  }

  /** When rounding up does not wrap, it lands on a multiple of the alignment less than `align` above. */
  lemma AlignUpNoWrap(top: word, align: word)
    requires IsPow2(align) && top <= AlignUp(top, align)
    ensures AlignUp(top, align) % align == 0 && AlignUp(top, align) - top < align
  {
    AlignUpValue(top, align);
    RoundUpArith(top, align, AlignUp(top, align));
  }

  lemma RoundUpArith(top: word, align: word, t: int)
    requires align > 0 && top <= t
    requires var u := top + align - 1; t == (if u < Modulus then u - u % align else 0)
    ensures t % align == 0 && t - top < align
  {
    var u := top + align - 1;
    assert u < Modulus;
    ModUnique(t, align, u / align, 0);
  }

  /**
   * With a power-of-two alignment the allocator uses the lowest aligned offset
   * at or above `top`, so it fails only when no aligned region of that size
   * fits between `top` and the end of the pool.
   */
  lemma AllocateBytesFirstFit(a: Allocator, view: StorageView, size: word, align: word, o: word)
    requires IsPow2(align)
    requires a.top <= o && o % align == 0 && o + size <= view.size
    ensures AllocateBytes(a, view, size, align).1.Some?
    ensures Offset(view, AllocateBytes(a, view, size, align).1.value) <= o
  {
    var t := AlignUp(a.top, align);
    AlignUpValue(a.top, align);
    ModulusIsPow2();
    Pow2DividesModulus(align, 32);
    FirstFitArith(a.top, align, o, t);
    AllocatesAt(a, view, size, align, t);
    OffsetOf(view, t);
  }

  /** Once rounding up lands on `t` without wrapping and the region fits, the allocation is at `t`. */
  lemma AllocatesAt(a: Allocator, view: StorageView, size: word, align: word, t: word)
    requires AlignUp(a.top, align) == t && a.top <= t && t + size <= view.size
    ensures AllocateBytes(a, view, size, align).1 == Some(Allocation(AddW(view.data, t), size, t - a.top))
  {
    assert AddW(t, size) == t + size;
  }

  /** The least multiple of `align` at or above `top` does not wrap and is at most any multiple `o >= top`. */
  lemma FirstFitArith(top: word, align: word, o: word, t: int)
    requires align > 0 && Modulus % align == 0
    requires top <= o && o % align == 0
    requires var u := top + align - 1; t == (if u < Modulus then u - u % align else 0)
    ensures top + align - 1 < Modulus && top <= t <= o
  {
    var u := top + align - 1;
    if u >= Modulus {
      MultiplesApart(o, Modulus, align);
      assert false;
    }
    ModUnique(t, align, u / align, 0);
    if o < t {
      MultiplesApart(o, t, align);
    }
  }

  /**
   * `Deallocate`: only the most recent allocation can be returned; anything
   * else is a fatal error (`Panic`). On success `top` goes back to where it
   * was before the allocation, padding included.
   */
  function Deallocate(a: Allocator, view: StorageView, al: Allocation): (r: Result<Allocator, string>)
    ensures r.Ok? <==> AddW(Offset(view, al), al.size) == a.top
    ensures r.Ok? ==> r.value.top == SubW(Offset(view, al), al.pad)
  {
    var originalTopAligned := Offset(view, al);
    if AddW(originalTopAligned, al.size) != a.top then
      Err("LinearAllocator only can deallocate the object on the stack's top")
    else Ok(Allocator(SubW(originalTopAligned, al.pad)))
  }

  /** Deallocating what was just allocated restores the allocator exactly. */
  lemma AllocateDeallocate(a: Allocator, view: StorageView, size: word, align: word)
    ensures var (b, al) := AllocateBytes(a, view, size, align);
            al.Some? ==> Deallocate(b, view, al.value) == Ok(a)
  {
  }

  /**
   * Last in, first out: once a second region that is not empty, or that
   * needed padding, is allocated, the first can no longer be deallocated.
   */
  lemma DeallocateOutOfOrder(a: Allocator, view: StorageView, s1: word, a1: word, s2: word, a2: word)
    ensures var (b, al1) := AllocateBytes(a, view, s1, a1);
            var (c, al2) := AllocateBytes(b, view, s2, a2);
            al1.Some? && al2.Some? ==>
              (Deallocate(c, view, al1.value).Ok? <==> al2.value.pad == 0 && s2 == 0)
  {
  }

  /** `AllocateBytes` with the default alignment of one byte never pads. */
  lemma DefaultAlignmentNoPad(a: Allocator, view: StorageView, size: word)
    ensures var r := AllocateBytes(a, view, size, 1);
            r.1.Some? ==> r.1.value.pad == 0 && Offset(view, r.1.value) == a.top
    ensures AllocateBytes(a, view, size, 1).1.Some? <==> a.top + size <= view.size
  {
    AlignUpValue(a.top, 1);
  }

  /** The size and alignment of a type `T`, as `sizeof(T)` and `alignof(T)`. */
  datatype Layout = Layout(size: word, align: word)

  /**
   * `Allocate<T>`: allocate room for one `T` at its own alignment, returning
   * the typed pointer alongside the allocation.
   */
  function Allocate(a: Allocator, view: StorageView, t: Layout): (r: (Allocator, Option<(word, Allocation)>))
    ensures r.1.None? ==> r.0 == a
    ensures r.1.Some? ==> r.1.value.0 == r.1.value.1.ptr && r.1.value.1.size == t.size
    ensures r.1.Some? ==> a.top <= Offset(view, r.1.value.1)
    ensures r.1.Some? ==> Offset(view, r.1.value.1) + t.size == r.0.top <= view.size
  {
    var (b, al) := AllocateBytes(a, view, t.size, t.align);
    match al
    case None => (b, None)
    case Some(x) => (b, Some((x.ptr, x)))
  }

  /** A `T` allocated with a power-of-two alignment sits at a multiple of it, and freeing it restores the allocator. */
  lemma AllocateTyped(a: Allocator, view: StorageView, t: Layout)
    requires IsPow2(t.align)
    ensures var (b, r) := Allocate(a, view, t);
            r.Some? ==> Offset(view, r.value.1) % t.align == 0 && Deallocate(b, view, r.value.1) == Ok(a)
  {
    AllocateBytesAligned(a, view, t.size, t.align);
    AllocateDeallocate(a, view, t.size, t.align);
  }
}
