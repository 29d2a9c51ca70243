/**
 * The latency recorder of the example application (Example/App/Main.cpp): the
 * Timer 1 handler appends a `LatencyRecord {timer, sp}` to a 64-entry buffer
 * and, when the buffer is full, flushes it to the UART as one Base64 line.
 * The two 32-bit fields are laid out little-endian, as on the Armv8-M target.
 */
module LatencyRecords {
  import opened Wrappers
  import opened Words
  import Base64

  type byte = Base64.byte

  datatype Record = Record(timer: word, sp: word)

  /** `records.size()`. */
  const Capacity: nat := 64

  /** The filled prefix `records[0 .. recordCount)`. */
  datatype Recorder = Recorder(records: seq<Record>)

  /** Between two interrupts the buffer is never full. */
  predicate Valid(r: Recorder) {
    |r.records| < Capacity
  }

  /** The one-time state `recordCount = 0`. */
  const Initial: Recorder := Recorder([])

  // ---------------------------------------------------------------------------
  // The in-memory layout of the records

  /** A `uint32_t` in memory, least significant byte first. */
  function WordBytes(w: word): (b: seq<byte>)
    ensures |b| == 4
  {
    var q1 := w / 256;
    var q2 := q1 / 256;
    [(w % 256) as byte, (q1 % 256) as byte, (q2 % 256) as byte, (q2 / 256) as byte]
  }

  /** The `uint32_t` four bytes in memory hold. */
  function WordOf(b: seq<byte>): (w: word)
    requires |b| == 4
  {
    b[0] as int + 256 * (b[1] as int + 256 * (b[2] as int + 256 * b[3] as int))
  }

  lemma WordRoundTrip(w: word)
    ensures WordOf(WordBytes(w)) == w
  {
    var q1 := w / 256;
    var q2 := q1 / 256;
    assert w == 256 * q1 + w % 256;
    assert q1 == 256 * q2 + q1 % 256;
    assert q2 == 256 * (q2 / 256) + q2 % 256;
    assert q2 / 256 < 256;
    ByteOf(w % 256);
    ByteOf(q1 % 256);
    ByteOf(q2 % 256);
    ByteOf(q2 / 256);
  }

  lemma ByteOf(x: int)
    requires 0 <= x < 256
    ensures (x as byte) as int == x
  {
    var y := x as byte;
    var z := y as int;
    assert z as byte == y;
    assert (z - x) % 256 == 0;
  }

  function RecordBytes(r: Record): (b: seq<byte>)
    ensures |b| == 8
  {
    WordBytes(r.timer) + WordBytes(r.sp)
  }

  /** The `recordCount * sizeof records[0]` bytes starting at `records.data()`. */
  function Bytes(rs: seq<Record>): (b: seq<byte>)
    ensures |b| == 8 * |rs| && |b| % 8 == 0
  {
    if rs == [] then [] else RecordBytes(rs[0]) + Bytes(rs[1..])
  }

  /** Reading an array of records back from memory. */
  function Records(b: seq<byte>): seq<Record>
    requires |b| % 8 == 0
  {
    if |b| == 0 then [] else [Record(WordOf(b[..4]), WordOf(b[4..8]))] + Records(b[8..])
  }

  /** The layout loses nothing: the bytes of the records read back as the records. */
  lemma {:induction false} BytesRoundTrip(rs: seq<Record>)
    ensures Records(Bytes(rs)) == rs
  {
    if rs != [] {
      BytesRoundTrip(rs[1..]);
      var b := Bytes(rs);
      assert b[..4] == WordBytes(rs[0].timer);
      assert b[4..8] == WordBytes(rs[0].sp);
      assert b[8..] == Bytes(rs[1..]);
      WordRoundTrip(rs[0].timer);
      WordRoundTrip(rs[0].sp);
    }
  }

  // ---------------------------------------------------------------------------
  // Flushing

  const LineEnd: string := "\r\n"

  /**
   * `FlushRecord`: the characters written to the UART (the Base64 text of the
   * filled part of the buffer, then CR LF) and the emptied recorder.
   */
  function Flush(r: Recorder): (res: (Recorder, string))
    ensures res.0 == Initial
    ensures |res.1| == 4 * ((8 * |r.records| + 2) / 3) + 2
    ensures res.1[|res.1| - 2..] == LineEnd
  {
    Base64.EncodeLength(Bytes(r.records));
    (Initial, Base64.Encode(Bytes(r.records)) + LineEnd)
  }

  /** What a host reading the UART recovers from one line. */
  function DecodeLine(line: string): Option<seq<Record>> {
    if |line| < 2 || line[|line| - 2..] != LineEnd then None
    else match Base64.Decode(line[..|line| - 2])
      case None => None
      case Some(b) => if |b| % 8 == 0 then Some(Records(b)) else None
  }

  /** A flushed line decodes to exactly the records that were in the buffer. */
  lemma FlushRoundTrip(r: Recorder)
    ensures DecodeLine(Flush(r).1) == Some(r.records)
  {
    var b := Bytes(r.records);
    var text := Base64.Encode(b);
    var line := text + LineEnd;
    assert Flush(r).1 == line;
    assert line[..|line| - 2] == text && line[|line| - 2..] == LineEnd;
    assert Base64.Decode(text) == Some(b) by {
      Base64.RoundTrip(b);
    }
    assert Records(b) == r.records by {
      BytesRoundTrip(r.records);
    }
  }

  // ---------------------------------------------------------------------------
  // The Timer 1 interrupt

  /** What the handler reads: `timer1[2]` (RELOAD), `timer1[1]` (VALUE) and `sp`. */
  datatype Tick = Tick(reload: word, current: word, sp: word)

  /** The record a tick writes: the ticks elapsed since the reload, in 32-bit arithmetic. */
  function RecordOf(t: Tick): (rec: Record)
    ensures t.current <= t.reload ==> rec.timer == t.reload - t.current
    ensures t.current > t.reload ==> rec.timer == Modulus - (t.current - t.reload)
    ensures rec.sp == t.sp
  {
    Record(SubW(t.reload, t.current), t.sp)
  }

  /**
   * `HandleTimer1`: write one record and flush when the buffer is full. The
   * second component is what the call writes to the UART.
   */
  function HandleTimer1(r: Recorder, t: Tick): (res: (Recorder, string))
    requires Valid(r)
    ensures Valid(res.0)
    ensures |r.records| + 1 < Capacity ==> res == (Recorder(r.records + [RecordOf(t)]), "")
    ensures |r.records| + 1 == Capacity ==>
              res.0 == Initial && DecodeLine(res.1) == Some(r.records + [RecordOf(t)])
  {
    var full := Recorder(r.records + [RecordOf(t)]);
    if |full.records| == Capacity then
      FlushRoundTrip(full);
      Flush(full)
    else (full, "")
  }

  /** The records a sequence of ticks writes, in order. */
  function TickRecords(ts: seq<Tick>): (rs: seq<Record>)
    ensures |rs| == |ts|
    ensures forall i :: 0 <= i < |ts| ==> rs[i] == RecordOf(ts[i])
  {
    if ts == [] then [] else [RecordOf(ts[0])] + TickRecords(ts[1..])
  }

  /** A run of interrupts: the final recorder and the lines written, in order. */
  function Run(r: Recorder, ts: seq<Tick>): (res: (Recorder, seq<string>))
    requires Valid(r)
    ensures Valid(res.0)
    decreases |ts|
  {
    if ts == [] then (r, [])
    else
      var (r1, out) := HandleTimer1(r, ts[0]);
      var (r2, lines) := Run(r1, ts[1..]);
      (r2, if out == "" then lines else [out] + lines)
  }

  /** The records the host recovers from a sequence of lines. */
  function DecodeAll(lines: seq<string>): seq<Record> {
    if lines == [] then []
    else (match DecodeLine(lines[0]) case Some(rs) => rs case None => []) + DecodeAll(lines[1..])
  }

  /**
   * Nothing is lost or duplicated: the records recovered from the lines,
   * followed by those still buffered, are the buffered records followed by
   * one record per tick.
   */
  lemma {:induction false} RunConserves(r: Recorder, ts: seq<Tick>)
    requires Valid(r)
    ensures var (r', lines) := Run(r, ts);
            DecodeAll(lines) + r'.records == r.records + TickRecords(ts)
    decreases |ts|
  {
    if ts != [] {
      var (r1, out) := HandleTimer1(r, ts[0]);
      var (r2, lines) := Run(r1, ts[1..]);
      RunConserves(r1, ts[1..]);
      var rec := RecordOf(ts[0]);
      var back := TickRecords(ts[1..]);
      assert TickRecords(ts) == [rec] + back;
      if |r.records| + 1 == Capacity {
        assert Run(r, ts).1 == [out] + lines;
        FlushedConserves(out, lines, r.records + [rec], r2.records, back);
        Assoc(r.records, [rec], back);
      } else {
        assert r1.records == r.records + [rec];
        Assoc(r.records, [rec], back);
      }
    }
  }

  /** One step of `RunConserves` when the tick fills the buffer and a line is written. */
  lemma FlushedConserves(out: string, lines: seq<string>, flushed: seq<Record>, kept: seq<Record>, back: seq<Record>)
    requires DecodeLine(out) == Some(flushed)
    requires DecodeAll(lines) + kept == back
    ensures DecodeAll([out] + lines) + kept == flushed + back
  {
    assert ([out] + lines)[1..] == lines;
    Assoc(flushed, DecodeAll(lines), kept);
  }

  /** A line the host decodes into a full buffer of records. */
  predicate FullLine(line: string) {
    DecodeLine(line).Some? && |DecodeLine(line).value| == Capacity
  }

  /** Every line written holds exactly 64 records, and one is written per 64 records. */
  lemma {:induction false} RunLines(r: Recorder, ts: seq<Tick>)
    requires Valid(r)
    ensures var (r', lines) := Run(r, ts);
            (forall i :: 0 <= i < |lines| ==> FullLine(lines[i])) &&
            |lines| == (|r.records| + |ts|) / Capacity
    decreases |ts|
  {
    if ts != [] {
      var (r1, out) := HandleTimer1(r, ts[0]);
      var lines := Run(r1, ts[1..]).1;
      RunLines(r1, ts[1..]);
      if |r.records| + 1 == Capacity {
        assert Run(r, ts).1 == [out] + lines;
        assert FullLine(out);
        FullLinesCons(out, lines);
      } else {
        assert Run(r, ts).1 == lines;
      }
    }
  }

  lemma FullLinesCons(line: string, lines: seq<string>)
    requires FullLine(line) && forall i :: 0 <= i < |lines| ==> FullLine(lines[i])
    ensures forall i :: 0 <= i < |[line] + lines| ==> FullLine(([line] + lines)[i])
  {
  }

  lemma Assoc<T>(a: seq<T>, b: seq<T>, c: seq<T>)
    ensures a + b + c == a + (b + c)
  {
  }
}
