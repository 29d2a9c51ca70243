/**
 * The Base64 encoder of the example firmware (Example/App/Base64.hpp), with
 * the alphabet and padding of section 4 of RFC 4648. The encoder works in two
 * layers, as the source does: bytes become a stream of sextet indices and pads
 * (`Symbols`), and each index is looked up in the character table (`Render`).
 * `EncodeAndOutput` is the byte-at-a-time loop of the source with its
 * three-byte staging array, and it agrees with `Encode`. A decoder for the same
 * alphabet closes the round trip.
 */
module Base64 {
  import opened Wrappers

  type byte = bv8

  /** A six-bit table index, as held in `char_array_4`. */
  type sextet = x: bv8 | x < 64

  // ---------------------------------------------------------------------------
  // The character table

  /** The 64-character table of the source, indexed by a sextet. */
  const Alphabet: string := "ABCDEFGHIJKLMNOPQRSTUVWXYZ" + "abcdefghijklmnopqrstuvwxyz" + "0123456789+/"

  predicate InAlphabet(c: char) {
    ('A' <= c <= 'Z') || ('a' <= c <= 'z') || ('0' <= c <= '9') || c == '+' || c == '/'
  }

  /** The table entry for sextet `v`, written by ranges. */
  function CharOf(v: int): (c: char)
    requires 0 <= v < 64
    ensures InAlphabet(c) && c != '='
  {
    if v < 26 then ('A' as int + v) as char
    else if v < 52 then ('a' as int + (v - 26)) as char
    else if v < 62 then ('0' as int + (v - 52)) as char
    else if v == 62 then '+'
    else '/'
  }

  lemma CharOfIsTableLookup(v: int)
    requires 0 <= v < 64
    ensures |Alphabet| == 64 && CharOf(v) == Alphabet[v]
  {
    var upper, lower, rest := "ABCDEFGHIJKLMNOPQRSTUVWXYZ", "abcdefghijklmnopqrstuvwxyz", "0123456789+/";
    assert Alphabet == upper + lower + rest;
    if v < 26 {
      assert Alphabet[v] == upper[v];
    } else if v < 52 {
      assert Alphabet[v] == lower[v - 26];
    } else {
      assert Alphabet[v] == rest[v - 52];
    }
  }

  /** The inverse table: the sextet a character stands for, if any. */
  function IndexOf(c: char): (r: Option<int>)
    ensures r.Some? ==> 0 <= r.value < 64
  {
    if 'A' <= c <= 'Z' then Some(c as int - 'A' as int)
    else if 'a' <= c <= 'z' then Some(c as int - 'a' as int + 26)
    else if '0' <= c <= '9' then Some(c as int - '0' as int + 52)
    else if c == '+' then Some(62)
    else if c == '/' then Some(63)
    else None
  }

  lemma IndexOfCharOf(v: int)
    requires 0 <= v < 64
    ensures IndexOf(CharOf(v)) == Some(v)
  {
  }

  /** Exactly the characters of the table have an index; in particular '=' has none. */
  lemma CharOfIndexOf(c: char)
    ensures IndexOf(c).Some? <==> InAlphabet(c)
    ensures IndexOf(c).Some? ==> CharOf(IndexOf(c).value) == c
  {
  }

  // ---------------------------------------------------------------------------
  // The symbol stream

  /** One output position: a sextet to look up in the table, or the pad '='. */
  datatype Symbol = Index(v: sextet) | Pad

  function SymbolChar(x: Symbol): char
  {
    match x
    case Index(v) => CharOf(v as int)
    case Pad => '='
  }

  /** Looks every symbol up, in order. */
  function Render(s: seq<Symbol>): (r: string)
    ensures |r| == |s|
    ensures forall k :: 0 <= k < |s| ==> r[k] == SymbolChar(s[k])
  {
    if |s| == 0 then [] else [SymbolChar(s[0])] + Render(s[1..])
  }

  lemma RenderAppend(a: seq<Symbol>, b: seq<Symbol>)
    ensures Render(a + b) == Render(a) + Render(b)
  {
    var l := Render(a + b);
    var r := Render(a) + Render(b);
    assert |l| == |r|;
    forall k | 0 <= k < |l|
      ensures l[k] == r[k]
    {
      if k < |a| {
        assert (a + b)[k] == a[k];
      } else {
        assert (a + b)[k] == b[k - |a|];
      }
    }
  }

  /** `char_array_4` computed from `char_array_3`, with the source's masks and shifts. */
  function Sextets(b0: byte, b1: byte, b2: byte): (s: seq<sextet>)
    ensures |s| == 4
  {
    [ (b0 & 0xfc) >> 2,
      ((b0 & 0x03) << 4) + ((b1 & 0xf0) >> 4),
      ((b1 & 0x0f) << 2) + ((b2 & 0xc0) >> 6),
      b2 & 0x3f ]
  }

  function GroupSymbols(b0: byte, b1: byte, b2: byte): (s: seq<Symbol>)
    ensures |s| == 4 && forall k :: 0 <= k < 4 ==> s[k].Index?
  {
    var x := Sextets(b0, b1, b2);
    [Index(x[0]), Index(x[1]), Index(x[2]), Index(x[3])]
  }

  /** A final group of one or two bytes: zero-filled, then `n + 1` indices and `3 - n` pads. */
  function TailSymbols(d: seq<byte>): (s: seq<Symbol>)
    requires 1 <= |d| <= 2
    ensures |s| == 4
    ensures forall k :: 0 <= k < 4 ==> (s[k].Pad? <==> k > |d|)
  {
    var x := Sextets(d[0], if |d| == 2 then d[1] else 0, 0);
    if |d| == 1 then [Index(x[0]), Index(x[1]), Pad, Pad]
    else [Index(x[0]), Index(x[1]), Index(x[2]), Pad]
  }

  function Symbols(d: seq<byte>): seq<Symbol>
    decreases |d|
  {
    if |d| == 0 then []
    else if |d| < 3 then TailSymbols(d)
    else
      GroupSymbols(d[0], d[1], d[2]) + Symbols(d[3..])
  }

  /** The characters handed to the sink for `d`. */
  function Encode(d: seq<byte>): string {
    Render(Symbols(d))
  }

  // ---------------------------------------------------------------------------
  // The streaming loop of the source

  /**
   * `EncodeAndOutputToFunctionByCharacter`: the characters handed to `sink`,
   * in order. `i` counts the bytes staged in `char_array_3`.
   */
  method EncodeAndOutput(data: seq<byte>) returns (out: string)
    ensures out == Encode(data)
  {
    var staged: seq<byte> := [0, 0, 0];
    var i := 0;
    var pos := 0;
    ghost var done := 0;
    out := [];
    while pos < |data|
      invariant 0 <= i < 3 && pos == done + i && pos <= |data| && done % 3 == 0
      invariant |staged| == 3 && forall j :: 0 <= j < i ==> staged[j] == data[done + j]
      invariant out == Encode(data[..done])
    {
      staged := staged[i := data[pos]];
      i := i + 1;
      pos := pos + 1;
      if i == 3 {
        var group := EmitGroup(staged);
        GroupStep(data, done, staged, out, group);
        out := out + group;
        done := pos;
        i := 0;
      }
    }
    if i != 0 {
      var tail := EmitTail(staged, i);
      TailStep(data, done, i, staged, out, tail);
      out := out + tail;
    }
    assert data[..pos] == data;
  }

  /** The `for (char c : char_array_4)` loop. */
  method EmitGroup(staged: seq<byte>) returns (group: string)
    requires |staged| == 3
    ensures group == Render(GroupSymbols(staged[0], staged[1], staged[2]))
  {
    var s := Sextets(staged[0], staged[1], staged[2]);
    group := [];
    var k := 0;
    while k < 4
      invariant 0 <= k <= 4 && |group| == k
      invariant forall j :: 0 <= j < k ==> group[j] == CharOf(s[j] as int)
    {
      group := group + [CharOf(s[k] as int)];
      k := k + 1;
    }
    RenderIndices(s, group);
  }

  /** Characters looked up one index at a time render the indices as symbols. */
  lemma RenderIndices(s: seq<sextet>, group: string)
    requires |s| == 4 && |group| == 4
    requires forall j :: 0 <= j < 4 ==> group[j] == CharOf(s[j] as int)
    ensures group == Render([Index(s[0]), Index(s[1]), Index(s[2]), Index(s[3])])
  {
  }

  /** The `if (i)` block: zero-fill the staging array, emit `i + 1` characters, then pad. */
  method EmitTail(staged0: seq<byte>, i: int) returns (tail: string)
    requires |staged0| == 3 && 1 <= i <= 2
    ensures tail == Render(TailSymbols(staged0[..i]))
  {
    var staged := staged0;
    var k := i;
    while k < 3
      invariant i <= k <= 3 && |staged| == 3 && staged[..i] == staged0[..i]
      invariant forall j :: i <= j < k ==> staged[j] == 0
    {
      staged := staged[k := 0];
      k := k + 1;
    }
    var s := Sextets(staged[0], staged[1], staged[2]);
    tail := [];
    k := 0;
    while k < i + 1
      invariant 0 <= k <= i + 1 && |tail| == k
      invariant forall j :: 0 <= j < k ==> tail[j] == CharOf(s[j] as int)
    {
      tail := tail + [CharOf(s[k] as int)];
      k := k + 1;
    }
    var j := i;
    while j < 3
      invariant i <= j <= 3 && |tail| == j + 1
      invariant forall m :: 0 <= m < i + 1 ==> tail[m] == CharOf(s[m] as int)
      invariant forall m :: i + 1 <= m < j + 1 ==> tail[m] == '='
    {
      tail := tail + ['='];
      j := j + 1;
    }
    var d := staged0[..i];
    assert staged[0] == d[0] && staged[2] == 0;
    assert staged[1] == if i == 2 then d[1] else 0;
    TailChars(d, s, tail);
  }

  /** The characters of the zero-filled sextets, then the pads, render the tail symbols. */
  lemma TailChars(d: seq<byte>, s: seq<sextet>, tail: string)
    requires 1 <= |d| <= 2 && s == Sextets(d[0], if |d| == 2 then d[1] else 0, 0)
    requires |tail| == 4
    requires forall m :: 0 <= m < |d| + 1 ==> tail[m] == CharOf(s[m] as int)
    requires forall m :: |d| + 1 <= m < 4 ==> tail[m] == '='
    ensures tail == Render(TailSymbols(d))
  {
    var r := Render(TailSymbols(d));
    forall m | 0 <= m < 4
      ensures tail[m] == r[m]
    {
    }
  }

  lemma GroupStep(data: seq<byte>, done: int, staged: seq<byte>, out: string, group: string)
    requires 0 <= done && done + 3 <= |data| && done % 3 == 0
    requires |staged| == 3 && forall j :: 0 <= j < 3 ==> staged[j] == data[done + j]
    requires out == Encode(data[..done])
    requires group == Render(GroupSymbols(staged[0], staged[1], staged[2]))
    ensures out + group == Encode(data[..done + 3])
  {
    assert staged == data[done..done + 3];
    SymbolsAppend(data[..done], staged);
    assert data[..done] + staged == data[..done + 3];
    assert staged[3..] == [];
    assert Symbols(staged) == GroupSymbols(staged[0], staged[1], staged[2]) + [];
    RenderAppend(Symbols(data[..done]), Symbols(staged));
  }

  lemma TailStep(data: seq<byte>, done: int, i: int, staged: seq<byte>, out: string, tail: string)
    requires 0 <= done && done + i == |data| && done % 3 == 0 && 1 <= i <= 2
    requires |staged| == 3 && forall j :: 0 <= j < i ==> staged[j] == data[done + j]
    requires out == Encode(data[..done])
    requires tail == Render(TailSymbols(staged[..i]))
    ensures out + tail == Encode(data)
  {
    assert staged[..i] == data[done..];
    SymbolsAppend(data[..done], data[done..]);
    assert data[..done] + data[done..] == data;
    RenderAppend(Symbols(data[..done]), Symbols(staged[..i]));
  }

  // ---------------------------------------------------------------------------
  // Properties of the encoding

  lemma AppendAssoc<T>(x: seq<T>, y: seq<T>, z: seq<T>)
    ensures (x + y) + z == x + (y + z)
  {
  }

  lemma SymbolsCons(d: seq<byte>)
    requires |d| >= 3
    ensures Symbols(d) == GroupSymbols(d[0], d[1], d[2]) + Symbols(d[3..])
  {
  }

  /** Groups are encoded independently of their neighbours. */
  lemma {:induction false} SymbolsAppend(a: seq<byte>, b: seq<byte>)
    requires |a| % 3 == 0
    ensures Symbols(a + b) == Symbols(a) + Symbols(b)
    decreases |a|
  {
    if |a| == 0 {
      assert a + b == b;
    } else {
      var ab := a + b;
      assert |a[3..]| % 3 == 0;
      SymbolsAppend(a[3..], b);
      assert ab[3..] == a[3..] + b;
      assert ab[0] == a[0] && ab[1] == a[1] && ab[2] == a[2];
      SymbolsCons(ab);
      SymbolsCons(a);
      AppendAssoc(GroupSymbols(a[0], a[1], a[2]), Symbols(a[3..]), Symbols(b));
    }
  }

  lemma {:induction false} SymbolsLength(d: seq<byte>)
    ensures |Symbols(d)| == 4 * ((|d| + 2) / 3)
    decreases |d|
  {
    if |d| >= 3 {
      SymbolsLength(d[3..]);
    }
  }

  /** Only the last (3 - n mod 3) mod 3 symbols are pads. */
  lemma {:induction false} SymbolsPadding(d: seq<byte>)
    ensures forall k :: 0 <= k < |Symbols(d)| ==>
      (Symbols(d)[k].Pad? <==> k >= |Symbols(d)| - (3 - |d| % 3) % 3)
    decreases |d|
  {
    if |d| >= 3 {
      var r := Symbols(d[3..]);
      var p := (3 - |d| % 3) % 3;
      assert |d[3..]| % 3 == |d| % 3;
      SymbolsPadding(d[3..]);
      assert p <= |r| by { SymbolsLength(d[3..]); }
      PadsAfterGroup(GroupSymbols(d[0], d[1], d[2]), r, p);
    } else if |d| > 0 {
      assert Symbols(d) == TailSymbols(d);
    }
  }

  /** A group of four indices in front keeps the pads at the end. */
  lemma PadsAfterGroup(g: seq<Symbol>, r: seq<Symbol>, p: nat)
    requires |g| == 4 && (forall k :: 0 <= k < 4 ==> g[k].Index?) && p <= |r|
    requires forall k :: 0 <= k < |r| ==> (r[k].Pad? <==> k >= |r| - p)
    ensures forall k :: 0 <= k < |g + r| ==> ((g + r)[k].Pad? <==> k >= |g + r| - p)
  {
    forall k | 0 <= k < |g + r|
      ensures (g + r)[k].Pad? <==> k >= |g + r| - p
    {
      if k >= 4 {
        assert (g + r)[k] == r[k - 4];
      }
    }
  }

  /** The output has 4 characters for every started group of 3 bytes. */
  lemma EncodeLength(d: seq<byte>)
    ensures |Encode(d)| == 4 * ((|d| + 2) / 3)
  {
    SymbolsLength(d);
  }

  /**
   * Every character is in the alphabet of RFC 4648 section 4 or is '=', and
   * exactly the last (3 - n mod 3) mod 3 characters are '=': "==" when
   * n mod 3 = 1, "=" when n mod 3 = 2, none otherwise.
   */
  lemma EncodePadding(d: seq<byte>)
    ensures forall k :: 0 <= k < |Encode(d)| ==> InAlphabet(Encode(d)[k]) || Encode(d)[k] == '='
    ensures forall k :: 0 <= k < |Encode(d)| ==>
      (Encode(d)[k] == '=' <==> k >= |Encode(d)| - (3 - |d| % 3) % 3)
  {
    SymbolsPadding(d);
  }

  // ---------------------------------------------------------------------------
  // A decoder for the same alphabet, and the round trip

  /** The inverse of `Sextets`: three bytes from four sextets. */
  function Combine(v0: int, v1: int, v2: int, v3: int): seq<byte>
    requires 0 <= v0 < 64 && 0 <= v1 < 64 && 0 <= v2 < 64 && 0 <= v3 < 64
  {
    var w0, w1, w2, w3 := v0 as byte, v1 as byte, v2 as byte, v3 as byte;
    [ (w0 << 2) | (w1 >> 4), ((w1 & 0x0f) << 4) | (w2 >> 2), ((w2 & 0x03) << 6) | w3 ]
  }

  function DecodeQuartet(q: string): Option<seq<byte>>
    requires |q| == 4
  {
    match (IndexOf(q[0]), IndexOf(q[1]), IndexOf(q[2]), IndexOf(q[3]))
    case (Some(v0), Some(v1), Some(v2), Some(v3)) => Some(Combine(v0, v1, v2, v3))
    case (Some(v0), Some(v1), Some(v2), None) =>
      if q[3] == '=' then Some(Combine(v0, v1, v2, 0)[..2]) else None
    case (Some(v0), Some(v1), None, None) =>
      if q[2] == '=' && q[3] == '=' then Some(Combine(v0, v1, 0, 0)[..1]) else None
    case _ => None
  }

  /** Decodes a padded Base64 text; '=' may appear only in the last quartet. */
  function Decode(s: string): Option<seq<byte>>
    decreases |s|
  {
    if |s| == 0 then Some([])
    else if |s| < 4 then None
    else if |s| == 4 then DecodeQuartet(s)
    else
      match (DecodeQuartet(s[..4]), Decode(s[4..]))
      case (Some(g), Some(rest)) => if |g| == 3 then Some(g + rest) else None
      case _ => None
  }

  lemma ByteRoundTrip(x: byte)
    ensures (x as int) as byte == x
  {
  }

  /** The masks and shifts of `Sextets` lose no bit of the group. */
  lemma SextetsRoundTrip(b0: byte, b1: byte, b2: byte)
    ensures var s := Sextets(b0, b1, b2);
      Combine(s[0] as int, s[1] as int, s[2] as int, s[3] as int) == [b0, b1, b2]
  {
    var s := Sextets(b0, b1, b2);
    ByteRoundTrip(s[0]);
    ByteRoundTrip(s[1]);
    ByteRoundTrip(s[2]);
    ByteRoundTrip(s[3]);
  }

  /** A table character is read back as its index, and the pad as no index. */
  lemma IndexOfSymbolChar(x: Symbol)
    ensures IndexOf(SymbolChar(x)) == if x.Index? then Some(x.v as int) else None
  {
    if x.Index? {
      IndexOfCharOf(x.v as int);
    }
  }

  /** Four indices are read back as the three bytes they were computed from. */
  lemma DecodeIndices(v0: sextet, v1: sextet, v2: sextet, v3: sextet)
    ensures DecodeQuartet(Render([Index(v0), Index(v1), Index(v2), Index(v3)]))
      == Some(Combine(v0 as int, v1 as int, v2 as int, v3 as int))
  {
    var s := [Index(v0), Index(v1), Index(v2), Index(v3)];
    var q := Render(s);
    IndexOfSymbolChar(s[0]);
    IndexOfSymbolChar(s[1]);
    IndexOfSymbolChar(s[2]);
    IndexOfSymbolChar(s[3]);
    assert IndexOf(q[0]) == Some(v0 as int) && IndexOf(q[1]) == Some(v1 as int);
    assert IndexOf(q[2]) == Some(v2 as int) && IndexOf(q[3]) == Some(v3 as int);
  }

  lemma DecodeIndicesPad(v0: sextet, v1: sextet, v2: sextet)
    ensures DecodeQuartet(Render([Index(v0), Index(v1), Index(v2), Pad]))
      == Some(Combine(v0 as int, v1 as int, v2 as int, 0)[..2])
  {
    var s := [Index(v0), Index(v1), Index(v2), Pad];
    var q := Render(s);
    IndexOfSymbolChar(s[0]);
    IndexOfSymbolChar(s[1]);
    IndexOfSymbolChar(s[2]);
    IndexOfSymbolChar(s[3]);
    assert IndexOf(q[0]) == Some(v0 as int) && IndexOf(q[1]) == Some(v1 as int);
    assert IndexOf(q[2]) == Some(v2 as int) && IndexOf(q[3]) == None && q[3] == '=';
  }

  lemma DecodeIndicesPadPad(v0: sextet, v1: sextet)
    ensures DecodeQuartet(Render([Index(v0), Index(v1), Pad, Pad]))
      == Some(Combine(v0 as int, v1 as int, 0, 0)[..1])
  {
    var s := [Index(v0), Index(v1), Pad, Pad];
    var q := Render(s);
    IndexOfSymbolChar(s[0]);
    IndexOfSymbolChar(s[1]);
    IndexOfSymbolChar(s[2]);
    IndexOfSymbolChar(s[3]);
    assert IndexOf(q[0]) == Some(v0 as int) && IndexOf(q[1]) == Some(v1 as int);
    assert IndexOf(q[2]) == None && IndexOf(q[3]) == None && q[2] == '=' && q[3] == '=';
  }

  lemma GroupRoundTrip(b0: byte, b1: byte, b2: byte)
    ensures DecodeQuartet(Render(GroupSymbols(b0, b1, b2))) == Some([b0, b1, b2])
  {
    var s := Sextets(b0, b1, b2);
    DecodeIndices(s[0], s[1], s[2], s[3]);
    SextetsRoundTrip(b0, b1, b2);
  }

  lemma TailRoundTrip1(b0: byte)
    ensures DecodeQuartet(Render(TailSymbols([b0]))) == Some([b0])
  {
    var s := Sextets(b0, 0, 0);
    assert TailSymbols([b0]) == [Index(s[0]), Index(s[1]), Pad, Pad];
    DecodeIndicesPadPad(s[0], s[1]);
    SextetsRoundTrip(b0, 0, 0);
    assert s[2] as int == 0 && s[3] as int == 0;
    var c := Combine(s[0] as int, s[1] as int, 0, 0);
    assert c == [b0, 0, 0];
    assert c[..1] == [b0];
  }

  lemma TailRoundTrip2(b0: byte, b1: byte)
    ensures DecodeQuartet(Render(TailSymbols([b0, b1]))) == Some([b0, b1])
  {
    var s := Sextets(b0, b1, 0);
    assert TailSymbols([b0, b1]) == [Index(s[0]), Index(s[1]), Index(s[2]), Pad];
    DecodeIndicesPad(s[0], s[1], s[2]);
    SextetsRoundTrip(b0, b1, 0);
    assert s[3] as int == 0;
    var c := Combine(s[0] as int, s[1] as int, s[2] as int, 0);
    assert c == [b0, b1, 0];
    assert c[..2] == [b0, b1];
  }

  lemma TailRoundTrip(d: seq<byte>)
    requires 1 <= |d| <= 2
    ensures DecodeQuartet(Render(TailSymbols(d))) == Some(d)
  {
    if |d| == 1 {
      TailRoundTrip1(d[0]);
      assert d == [d[0]];
    } else {
      TailRoundTrip2(d[0], d[1]);
      assert d == [d[0], d[1]];
    }
  }

  /** A full quartet followed by a decodable rest decodes to the group followed by the rest. */
  lemma DecodeCons(q: string, rest: string, g: seq<byte>, r: seq<byte>)
    requires |q| == 4 && DecodeQuartet(q) == Some(g) && |g| == 3
    requires Decode(rest) == Some(r)
    ensures Decode(q + rest) == Some(g + r)
  {
    if |rest| == 0 {
      assert q + rest == q;
      assert g + r == g;
    } else {
      assert (q + rest)[..4] == q;
      assert (q + rest)[4..] == rest;
    }
  }

  /** Decoding the output gives back the input. */
  lemma {:induction false} RoundTrip(d: seq<byte>)
    ensures Decode(Encode(d)) == Some(d)
    decreases |d|
  {
    if |d| == 0 {
    } else if |d| < 3 {
      TailRoundTrip(d);
    } else {
      RoundTrip(d[3..]);
      RoundTripStep(d);
    }
  }

  lemma RoundTripStep(d: seq<byte>)
    requires |d| >= 3 && Decode(Encode(d[3..])) == Some(d[3..])
    ensures Decode(Encode(d)) == Some(d)
  {
    var g := GroupSymbols(d[0], d[1], d[2]);
    SymbolsCons(d);
    RenderAppend(g, Symbols(d[3..]));
    GroupRoundTrip(d[0], d[1], d[2]);
    DecodeCons(Render(g), Encode(d[3..]), [d[0], d[1], d[2]], d[3..]);
    assert d == [d[0], d[1], d[2]] + d[3..];
  }
}
