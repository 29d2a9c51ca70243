/**
 * The newlib system-call stubs of the example Secure firmware
 * (Example/Secure/LibcStub.cpp): `_sbrk_r`, which hands out heap memory
 * between the linker symbols `__heap_start` and `__heap_end`, and `_write`,
 * which sends each character to the semihosting console.
 */
module LibcStub {
  import opened Words

  /** The addresses of `__heap_start` and `__heap_end`, fixed by the linker script. */
  datatype HeapBounds = HeapBounds(start: word, limit: word)

  /** The static `heap_end`; the null pointer means "not yet initialised". */
  datatype Heap = Heap(heapEnd: word)

  const Uninitialised: Heap := Heap(0)

  /** `(char *)-1`, the failure value of `sbrk`. */
  const Failure: word := Modulus - 1

  /** An `int` argument. */
  predicate IsInt32(x: int) {
    -0x8000_0000 <= x < 0x8000_0000
  }

  /** The current end of the heap, after the first-call initialisation. */
  function CurrentEnd(h: Heap, b: HeapBounds): word {
    if h.heapEnd == 0 then b.start else h.heapEnd
  }

  /** `heap_end + incr` on 32-bit pointers. */
  function Advance(p: word, incr: int): (r: word)
    requires IsInt32(incr)
    ensures r == (p + incr) % Modulus
    ensures 0 <= p + incr < Modulus ==> r == p + incr
  {
    AddW(p, incr % Modulus)
  }

  /**
   * `_sbrk_r` as written: the end of the heap is advanced first and the new
   * end checked afterwards, so a refused request still moves `heap_end`.
   * Returns the new state and the returned pointer.
   */
  function Sbrk(h: Heap, b: HeapBounds, incr: int): (r: (Heap, word))
    requires IsInt32(incr)
    ensures r.0.heapEnd == Advance(CurrentEnd(h, b), incr)
    ensures r.1 != Failure ==> r.1 == CurrentEnd(h, b)
    ensures r.1 == Failure <==> r.0.heapEnd >= b.limit || CurrentEnd(h, b) == Failure
  {
    var prev := CurrentEnd(h, b);
    var next := Advance(prev, incr);
    if next < b.limit then (Heap(next), prev) else (Heap(next), Failure)
  }

  /**
   * `_sbrk_r` with the check made before the heap is moved: a refused request
   * leaves `heap_end` where it was.
   */
  function SbrkChecked(h: Heap, b: HeapBounds, incr: int): (r: (Heap, word))
    requires IsInt32(incr)
    ensures r.1 == Failure ==> r.0.heapEnd == CurrentEnd(h, b)
    ensures r.1 != Failure ==> r.1 == CurrentEnd(h, b) && r.0.heapEnd == Advance(r.1, incr) < b.limit
  {
    var prev := CurrentEnd(h, b);
    var next := Advance(prev, incr);
    if next < b.limit && prev != Failure then (Heap(next), prev) else (Heap(prev), Failure)
  }

  /** The heap lies inside `[__heap_start, __heap_end)`. */
  predicate InHeap(h: Heap, b: HeapBounds) {
    b.start <= CurrentEnd(h, b) < b.limit
  }

  /**
   * A successful request for `incr >= 0` bytes returns a region
   * `[p, p + incr)` inside the heap, and the next successful request starts
   * right after it: consecutive regions are contiguous and never overlap.
   * The heap is taken to lie below 2 GiB, so that adding an `int` cannot wrap.
   */
  lemma SbrkCheckedRegions(h: Heap, b: HeapBounds, incr1: int, incr2: int)
    requires b.limit <= 0x8000_0000
    requires InHeap(h, b) && 0 <= incr1 < 0x8000_0000 && 0 <= incr2 < 0x8000_0000
    ensures var (h1, p1) := SbrkChecked(h, b, incr1);
            p1 != Failure ==>
              b.start <= p1 && p1 + incr1 < b.limit && InHeap(h1, b) &&
              (var (_, p2) := SbrkChecked(h1, b, incr2);
               p2 != Failure ==> p2 == p1 + incr1)
  {
    var (h1, p1) := SbrkChecked(h, b, incr1);
    if p1 != Failure {
      assert h1.heapEnd == p1 + incr1;
    }
  }

  /** With the early check a refused request changes nothing. */
  lemma SbrkCheckedRefusalHarmless(h: Heap, b: HeapBounds, incr1: int, incr2: int)
    requires b.start != 0 && IsInt32(incr1) && IsInt32(incr2)
    ensures var (h1, p1) := SbrkChecked(h, b, incr1);
            p1 == Failure ==> SbrkChecked(h1, b, incr2).1 == SbrkChecked(h, b, incr2).1
  {
  }

  /**
   * As written, one request that does not fit poisons the heap: with the
   * heap `[0x1000, 0x2000)`, asking first for 0x2000 bytes and then for 0x10
   * bytes refuses both, although the second fits.
   */
  lemma SbrkRefusalLeaks()
    ensures var b := HeapBounds(0x1000, 0x2000);
            var (h1, p1) := Sbrk(Uninitialised, b, 0x2000);
            p1 == Failure && Sbrk(h1, b, 0x10).1 == Failure &&
            Sbrk(Uninitialised, b, 0x10).1 == 0x1000 &&
            SbrkChecked(SbrkChecked(Uninitialised, b, 0x2000).0, b, 0x10).1 == 0x1000
  {
  }

  /**
   * `_write`: each of the `nbytes` characters is handed to the console in
   * order, and the count is returned unconditionally.
   */
  method Write(buf: seq<char>) returns (console: seq<char>, written: word)
    requires |buf| < Modulus
    ensures console == buf
    ensures written == |buf|
  {
    console := [];
    var i := 0;
    while i != |buf|
      invariant 0 <= i <= |buf| && console == buf[..i]
    {
      console := console + [buf[i]];
      i := i + 1;
    }
    written := |buf|;
  }
}
