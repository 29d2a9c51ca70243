/**
 * Capturing a target's output until a marker appears
 * (`target_reset_and_get_output_until` in
 * examples/tools/runbench/src/target.rs).
 *
 * The output stream is a list of events: a read that returns a chunk (an
 * empty chunk is end of file), a read that fails, or the 35-second delay
 * winning the race against the read. A list that runs out is a read that
 * never completes, which the delay turns into a timeout.
 *
 * The marker matcher reports the occurrence that ends earliest; only its end
 * is used.
 */
module Capture {
  import opened Wrappers

  type byte = bv8
  type Bytes = seq<byte>

  /** The size of the read buffer: no read returns more. */
  const BufferSize: nat := 16384

  /** Output longer than this, with no marker found, is given up on. */
  const LengthLimit: nat := 1024 * 1024

  datatype Event = Read(data: Bytes) | ReadFailed | Timeout

  datatype CaptureError = TimedOut | TooLong

  // ---------------------------------------------------------------------------
  // Marker matching

  /** `m` occurs in `h` ending at offset `e`. */
  predicate EndsAt(h: Bytes, m: Bytes, e: int) {
    |m| <= e <= |h| && h[e - |m|..e] == m
  }

  predicate MatchEndsAt(h: Bytes, ms: seq<Bytes>, e: int) {
    exists k :: 0 <= k < |ms| && EndsAt(h, ms[k], e)
  }

  predicate NonEmptyMarkers(ms: seq<Bytes>) {
    forall k :: 0 <= k < |ms| ==> |ms[k]| > 0
  }

  function FindFrom(h: Bytes, ms: seq<Bytes>, e: nat): (r: Option<nat>)
    ensures r.Some? ==> e <= r.value <= |h| && MatchEndsAt(h, ms, r.value)
    ensures r.Some? ==> forall x :: e <= x < r.value ==> !MatchEndsAt(h, ms, x)
    ensures r.None? ==> forall x :: e <= x <= |h| ==> !MatchEndsAt(h, ms, x)
    decreases |h| + 1 - e
  {
    if e > |h| then None
    else if MatchEndsAt(h, ms, e) then Some(e)
    else FindFrom(h, ms, e + 1)
  }

  /** The end of the earliest-ending marker occurrence in `h`, if any. */
  function Find(h: Bytes, ms: seq<Bytes>): (r: Option<nat>)
    ensures r.Some? ==> r.value <= |h| && MatchEndsAt(h, ms, r.value)
    ensures r.Some? ==> forall x :: 0 <= x < r.value ==> !MatchEndsAt(h, ms, x)
    ensures r.None? ==> forall x :: 0 <= x <= |h| ==> !MatchEndsAt(h, ms, x)
  {
    FindFrom(h, ms, 0)
  }

  /** The earliest end is unique. */
  lemma FindIs(h: Bytes, ms: seq<Bytes>, e: nat)
    requires e <= |h| && MatchEndsAt(h, ms, e)
    requires forall x :: 0 <= x < e ==> !MatchEndsAt(h, ms, x)
    ensures Find(h, ms) == Some(e)
  {
  }

  /** The length of the longest marker. */
  function MaxLen(ms: seq<Bytes>): (r: nat)
    ensures forall k :: 0 <= k < |ms| ==> |ms[k]| <= r
    ensures |ms| > 0 ==> exists k :: 0 <= k < |ms| && |ms[k]| == r
  {
    if |ms| == 0 then 0
    else
      var rest := MaxLen(ms[1..]);
      assert forall k :: 1 <= k < |ms| ==> ms[k] == ms[1..][k - 1];
      if |ms[0]| >= rest then |ms[0]| else rest
  }

  function Min(a: int, b: int): int {
    if a <= b then a else b
  }

  // ---------------------------------------------------------------------------
  // Reference behaviour: rescan everything after every chunk

  /**
   * What the capture returns, reading `events` with `acc` read so far, when
   * the whole accumulated output is searched after every chunk.
   */
  function Reference(events: seq<Event>, ms: seq<Bytes>, acc: Bytes): Result<Bytes, CaptureError>
    decreases |events|
  {
    if |events| == 0 then Err(TimedOut)
    else
      match events[0]
      case Timeout => Err(TimedOut)
      case ReadFailed => Ok(acc)
      case Read(d) =>
        if |d| == 0 then Ok(acc)
        else
          var grown := acc + d;
          match Find(grown, ms)
          case Some(e) => Ok(grown[..e])
          case None =>
            if |grown| > LengthLimit then Err(TooLong)
            else Reference(events[1..], ms, grown)
  }

  /** The bytes all the chunks carry, in order. */
  function Stream(events: seq<Event>): Bytes
    decreases |events|
  {
    if |events| == 0 then []
    else (if events[0].Read? then events[0].data else []) + Stream(events[1..])
  }

  predicate ChunksFit(events: seq<Event>) {
    forall k :: 0 <= k < |events| ==> events[k].Read? ==> |events[k].data| <= BufferSize
  }

  // ---------------------------------------------------------------------------
  // The incremental scan

  /** Where the searched window of `acc` starts when its last `n` bytes are new. */
  function WindowStart(acc: Bytes, n: nat, ms: seq<Bytes>): nat {
    |acc| - Min(n + MaxLen(ms) - 1, |acc|)
  }

  /** No occurrence of a marker in `acc` starts before offset `i`. */
  ghost predicate NoneStartsBefore(acc: Bytes, ms: seq<Bytes>, i: int) {
    forall k, e :: 0 <= k < |ms| && EndsAt(acc, ms[k], e) ==> e - |ms[k]| >= i
  }

  /**
   * Split-safety: when nothing in the prev output matched, searching only the
   * last `n + MaxLen - 1` bytes after appending `n` bytes finds the same
   * earliest marker end as searching everything.
   */
  lemma WindowFind(prev: Bytes, d: Bytes, ms: seq<Bytes>)
    requires |d| > 0 && NonEmptyMarkers(ms)
    requires Find(prev, ms) == None
    ensures var acc := prev + d;
            var i := WindowStart(acc, |d|, ms);
            i <= |acc|
            && (Find(acc[i..], ms).None? <==> Find(acc, ms).None?)
            && (Find(acc[i..], ms).Some? ==> Find(acc, ms) == Some(i + Find(acc[i..], ms).value))
  {
    OldHasNoMatch(prev, d, ms);
    ShiftFind(prev + d, ms, WindowStart(prev + d, |d|, ms));
  }

  /** When no marker starts before `i`, searching `acc[i..]` finds the earliest end in `acc`, shifted. */
  lemma ShiftFind(acc: Bytes, ms: seq<Bytes>, i: nat)
    requires i <= |acc| && NoneStartsBefore(acc, ms, i)
    ensures Find(acc[i..], ms).None? <==> Find(acc, ms).None?
    ensures Find(acc[i..], ms).Some? ==> Find(acc, ms) == Some(i + Find(acc[i..], ms).value)
  {
    match Find(acc[i..], ms)
    case Some(e) =>
      WindowMatch(acc, ms, i, e);
      forall x | 0 <= x < e + i
        ensures !MatchEndsAt(acc, ms, x)
      {
        if x >= i {
          WindowMatch(acc, ms, i, x - i);
        }
      }
      FindIs(acc, ms, e + i);
    case None =>
      if Find(acc, ms).Some? {
        WindowMatch(acc, ms, i, Find(acc, ms).value - i);
      }
  }

  /** Inside the window, matches are the matches of the whole output, shifted. */
  lemma WindowMatch(acc: Bytes, ms: seq<Bytes>, i: nat, x: int)
    requires i <= |acc| && NoneStartsBefore(acc, ms, i)
    ensures 0 <= x <= |acc| - i ==> (MatchEndsAt(acc[i..], ms, x) <==> MatchEndsAt(acc, ms, x + i))
  {
    forall k | 0 <= k < |ms|
      ensures EndsAt(acc[i..], ms[k], x) <==> EndsAt(acc, ms[k], x + i)
    {
      EndsAtSuffix(acc, i, ms[k], x);
    }
  }

  lemma EndsAtSuffix(acc: Bytes, i: nat, m: Bytes, x: int)
    requires i <= |acc|
    ensures EndsAt(acc[i..], m, x) ==> EndsAt(acc, m, x + i)
    ensures EndsAt(acc, m, x + i) && x + i - |m| >= i ==> EndsAt(acc[i..], m, x)
  {
    if |m| <= x <= |acc| - i {
      assert acc[x + i - |m|..x + i] == acc[i..][x - |m|..x];
    }
  }

  /**
   * After `n` bytes are appended to output that held no marker, every
   * marker occurrence ends among the new bytes and starts inside the window.
   */
  lemma OldHasNoMatch(prev: Bytes, d: Bytes, ms: seq<Bytes>)
    requires |d| > 0 && NonEmptyMarkers(ms)
    requires Find(prev, ms) == None
    ensures forall k, e :: 0 <= k < |ms| && EndsAt(prev + d, ms[k], e) ==> e > |prev|
    ensures NoneStartsBefore(prev + d, ms, WindowStart(prev + d, |d|, ms))
  {
    forall k, e | 0 <= k < |ms| && EndsAt(prev + d, ms[k], e)
      ensures e > |prev| && e - |ms[k]| >= WindowStart(prev + d, |d|, ms)
    {
      EndsAtPrefix(prev, d, ms[k], e);
      if EndsAt(prev, ms[k], e) {
        assert MatchEndsAt(prev, ms, e);
      }
    }
  }

  lemma EndsAtPrefix(prev: Bytes, d: Bytes, m: Bytes, e: int)
    ensures EndsAt(prev + d, m, e) && e <= |prev| ==> EndsAt(prev, m, e)
  {
    if |m| <= e <= |prev| {
      assert prev[e - |m|..e] == (prev + d)[e - |m|..e];
    }
  }

  /**
   * The capture loop as the source writes it: append each chunk, search only
   * the window the new bytes can complete a marker in, truncate the output
   * just after the first marker found.
   */
  method CaptureOutput(events: seq<Event>, ms: seq<Bytes>) returns (r: Result<Bytes, CaptureError>)
    requires NonEmptyMarkers(ms) && ChunksFit(events)
    ensures r == Reference(events, ms, [])
  {
    var output: Bytes := [];
    var maxLen := MaxLen(ms);
    var k := 0;
    while k < |events|
      invariant 0 <= k <= |events|
      invariant Find(output, ms) == None
      invariant Reference(events[k..], ms, output) == Reference(events, ms, [])
    {
      var ev := events[k];
      assert events[k..][0] == ev && events[k..][1..] == events[k + 1..];
      match ev {
        case Timeout =>
          return Err(TimedOut);
        case ReadFailed =>
          return Ok(output);
        case Read(d) =>
          if |d| == 0 {
            return Ok(output);
          }
          WindowFind(output, d, ms);
          output := output + d;
          var checkLen := Min(|d| + maxLen - 1, |output|);
          if |output| >= checkLen {
            var i := |output| - checkLen;
            var m := Find(output[i..], ms);
            if m.Some? {
              output := output[..i + m.value];
              return Ok(output);
            }
          }
          if |output| > LengthLimit {
            return Err(TooLong);
          }
      }
      k := k + 1;
    }
    return Err(TimedOut);
  }

  // ---------------------------------------------------------------------------
  // Properties of the result

  /**
   * Any output returned is a prefix of everything read; it stops either at a
   * point with no marker in it, or exactly at the end of the earliest marker.
   */
  lemma {:induction false} ReferenceOutput(events: seq<Event>, ms: seq<Bytes>, acc: Bytes)
    requires Find(acc, ms) == None
    ensures var r := Reference(events, ms, acc);
            r.Ok? ==> (r.value <= acc + Stream(events)
              && (Find(r.value, ms) == None || Find(r.value, ms) == Some(|r.value|)))
    decreases |events|
  {
    if |events| > 0 && events[0].Read? && |events[0].data| > 0 {
      var d := events[0].data;
      var grown := acc + d;
      assert acc + Stream(events) == grown + Stream(events[1..]);
      match Find(grown, ms)
      case Some(e) =>
        var out := grown[..e];
        forall x | 0 <= x <= e
          ensures MatchEndsAt(out, ms, x) <==> MatchEndsAt(grown, ms, x)
        {
          forall k | 0 <= k < |ms|
            ensures EndsAt(out, ms[k], x) <==> EndsAt(grown, ms[k], x)
          {
            if |ms[k]| <= x {
              assert out[x - |ms[k]|..x] == grown[x - |ms[k]|..x];
            }
          }
        }
        FindIs(out, ms, e);
      case None =>
        if |grown| <= LengthLimit {
          ReferenceOutput(events[1..], ms, grown);
        }
    }
  }

  /** The returned output never exceeds the limit by more than one buffer. */
  lemma {:induction false} ReferenceBound(events: seq<Event>, ms: seq<Bytes>, acc: Bytes)
    requires ChunksFit(events) && |acc| <= LengthLimit
    ensures Reference(events, ms, acc).Ok? ==> |Reference(events, ms, acc).value| <= LengthLimit + BufferSize
    decreases |events|
  {
    if |events| > 0 && events[0].Read? && |events[0].data| > 0 {
      var grown := acc + events[0].data;
      if Find(grown, ms).None? && |grown| <= LengthLimit {
        assert ChunksFit(events[1..]) by {
          forall k | 0 <= k < |events[1..]|
            ensures events[1..][k].Read? ==> |events[1..][k].data| <= BufferSize
          {
            assert events[1..][k] == events[k + 1];
          }
        }
        ReferenceBound(events[1..], ms, grown);
      }
    }
  }

  /**
   * A timeout before the end of the stream leaves no way to return the bytes
   * read so far: output comes back only when a marker ended the capture first.
   */
  lemma {:induction false} TimeoutDiscards(events: seq<Event>, ms: seq<Bytes>, acc: Bytes, k: nat)
    requires k < |events| && events[k].Timeout?
    requires forall j :: 0 <= j < k ==> events[j].Read? && |events[j].data| > 0
    ensures Reference(events, ms, acc).Ok? ==> Find(Reference(events, ms, acc).value, ms).Some?
    decreases k
  {
    if k > 0 {
      var grown := acc + events[0].data;
      match Find(grown, ms)
      case Some(e) =>
        var out := grown[..e];
        var m :| 0 <= m < |ms| && EndsAt(grown, ms[m], e);
        assert out[e - |ms[m]|..e] == grown[e - |ms[m]|..e];
        assert MatchEndsAt(out, ms, e);
      case None =>
        if |grown| <= LengthLimit {
          assert forall j :: 0 <= j < k - 1 ==> events[1..][j] == events[j + 1];
          TimeoutDiscards(events[1..], ms, grown, k - 1);
        }
    }
  }
}
