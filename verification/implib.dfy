/**
 * The two import-library generators (tools/mkimplib/src/main.rs and
 * Tools/MakeImplib/src/main.rs). Both collect the addresses of a set of
 * symbols from the symbol tables of ELF files, refuse to go on if one of
 * them stays undefined, sort the symbols by address and print an assembler
 * file that gives each one its absolute address.
 *
 * An ELF file is its symbol table: the names, already looked up in the
 * string table, with their `st_value`s. The `HashMap` of the tools is a
 * `map`; the order in which it hands out its entries is a parameter.
 */
module ImportLib {
  import opened Wrappers
  import Strings

  /** A `u64` value. */
  type u64 = x: nat | x < 0x1_0000_0000_0000_0000

  /** A symbol table entry: its name and `st_value`. */
  datatype Sym = Sym(name: string, value: u64)

  /** An input file, reduced to its symbol table. */
  type Object = seq<Sym>

  /** `included_symbols`: every name to include, with its address once one is found. */
  type Table = map<string, Option<u64>>

  /** Symbols whose names start with this mark the entry points to include. */
  const EntryPrefix: string := "__acle_se_"

  // ---------------------------------------------------------------------------
  // Building the table

  /** The names given with `-s`, none of them resolved yet. */
  function Initial(names: seq<string>): (m: Table)
    ensures forall n :: n in m <==> n in names
    ensures forall n :: n in m ==> m[n] == None
  {
    if names == [] then map[] else Initial(names[..|names| - 1])[names[|names| - 1] := None]
  }

  /** The entry points a symbol table marks, without their prefix. */
  function Entries(syms: Object): (r: set<string>)
    ensures forall n :: n in r <==> exists i :: 0 <= i < |syms| && syms[i].name == EntryPrefix + n
  {
    if syms == [] then {}
    else
      var s := syms[|syms| - 1];
      var r := Entries(syms[..|syms| - 1]);
      assert forall i :: 0 <= i < |syms| - 1 ==> syms[..|syms| - 1][i] == syms[i];
      match Strings.StripPrefix(s.name, EntryPrefix)
      case Some(n) => r + {n}
      case None =>
        assert forall n :: s.name != EntryPrefix + n by {
          forall n ensures s.name != EntryPrefix + n {
            Strings.StripPrefixConcat(EntryPrefix, n);
          }
        }
        r
  }

  /**
   * The first pass over a file in mkimplib: every marked entry point is
   * (re)inserted as unresolved.
   */
  function AutoInclude(m: Table, syms: Object): (r: Table)
    ensures forall n :: n in r <==> n in m || n in Entries(syms)
    ensures forall n :: n in r ==> r[n] == if n in Entries(syms) then None else m[n]
  {
    if syms == [] then m
    else
      var t := AutoInclude(m, syms[..|syms| - 1]);
      var s := syms[|syms| - 1];
      match Strings.StripPrefix(s.name, EntryPrefix)
      case Some(n) => t[n := None]
      case None => t
  }

  /** The value of the last symbol of the table with this name. */
  function LastDef(syms: Object, n: string): (r: Option<u64>)
    ensures r.Some? <==> exists i :: 0 <= i < |syms| && syms[i].name == n
  {
    if syms == [] then None
    else if syms[|syms| - 1].name == n then Some(syms[|syms| - 1].value)
    else
      assert forall i :: 0 <= i < |syms| - 1 ==> syms[..|syms| - 1][i] == syms[i];
      LastDef(syms[..|syms| - 1], n)
  }

  /**
   * The second pass over a file: a symbol whose name is in the table sets
   * its address, over any address found before.
   */
  function Resolve(m: Table, syms: Object): (r: Table)
    ensures r.Keys == m.Keys
    ensures forall n :: n in r ==> r[n] == if LastDef(syms, n).Some? then LastDef(syms, n) else m[n]
  {
    if syms == [] then m
    else
      var t := Resolve(m, syms[..|syms| - 1]);
      var s := syms[|syms| - 1];
      if s.name in t then t[s.name := Some(s.value)] else t
  }

  /** One input file: mkimplib (`auto`) first includes the marked entry points. */
  function Process(m: Table, syms: Object, auto: bool): (r: Table)
    ensures r.Keys == m.Keys + (if auto then Entries(syms) else {})
  {
    Resolve(if auto then AutoInclude(m, syms) else m, syms)
  }

  /** The table after all input files, in order. */
  function Collect(names: seq<string>, files: seq<Object>, auto: bool): (m: Table)
  {
    if files == [] then Initial(names)
    else Process(Collect(names, files[..|files| - 1], auto), files[|files| - 1], auto)
  }

  /** All the symbol tables, in order. */
  function Flatten(files: seq<Object>): (r: Object)
    ensures |files| == 1 ==> r == files[0]
  {
    if files == [] then [] else Flatten(files[..|files| - 1]) + files[|files| - 1]
  }

  /** In two tables read one after the other, the second one's definition wins. */
  lemma {:induction false} LastDefAppend(a: Object, b: Object, n: string)
    ensures LastDef(a + b, n) == if LastDef(b, n).Some? then LastDef(b, n) else LastDef(a, n)
    decreases |b|
  {
    if b == [] {
      assert a + b == a;
    } else {
      var c := a + b;
      assert c[|c| - 1] == b[|b| - 1];
      assert c[..|c| - 1] == a + b[..|b| - 1];
      LastDefAppend(a, b[..|b| - 1], n);
    }
  }

  /**
   * MakeImplib: the table holds exactly the `-s` names, each with the value
   * of its last definition across all the files.
   */
  lemma {:induction false} CollectPlain(names: seq<string>, files: seq<Object>, n: string)
    ensures n in Collect(names, files, false) <==> n in names
    ensures n in names ==> Collect(names, files, false)[n] == LastDef(Flatten(files), n)
    decreases |files|
  {
    if files != [] {
      var init := files[..|files| - 1];
      CollectPlain(names, init, n);
      LastDefAppend(Flatten(init), files[|files| - 1], n);
    }
  }

  /** mkimplib: the table holds the `-s` names and every entry point marked in some file. */
  lemma {:induction false} CollectAutoKeys(names: seq<string>, files: seq<Object>, n: string)
    ensures n in Collect(names, files, true) <==>
              n in names || exists i :: 0 <= i < |files| && n in Entries(files[i])
    decreases |files|
  {
    if files != [] {
      var init := files[..|files| - 1];
      CollectAutoKeys(names, init, n);
      assert forall i :: 0 <= i < |init| ==> init[i] == files[i];
    }
  }

  /**
   * mkimplib: a name no file marks as an entry point keeps the value of its
   * last definition across all the files, as in MakeImplib.
   */
  lemma {:induction false} CollectAutoUnmarked(names: seq<string>, files: seq<Object>, n: string)
    requires n in names
    requires forall k :: 0 <= k < |files| ==> n !in Entries(files[k])
    ensures n in Collect(names, files, true)
    ensures Collect(names, files, true)[n] == LastDef(Flatten(files), n)
    decreases |files|
  {
    if files != [] {
      var init := files[..|files| - 1];
      CollectAutoUnmarked(names, init, n);
      LastDefAppend(Flatten(init), files[|files| - 1], n);
    }
  }

  /** A file read last: its definition wins, over the table's value. */
  lemma ProcessAt(m: Table, syms: Object, auto: bool, n: string)
    requires n in m || (auto && n in Entries(syms))
    ensures n in Process(m, syms, auto)
    ensures auto && n in Entries(syms) ==> Process(m, syms, auto)[n] == LastDef(syms, n)
    ensures !(auto && n in Entries(syms)) ==>
              Process(m, syms, auto)[n] == if LastDef(syms, n).Some? then LastDef(syms, n) else m[n]
  {
  }

  lemma SliceSnoc<T>(s: seq<T>, j: nat)
    requires j < |s|
    ensures s[j..] == s[..|s| - 1][j..] + [s[|s| - 1]]
  {
  }

  lemma FlattenSnoc(files: seq<Object>, f: Object)
    ensures Flatten(files + [f]) == Flatten(files) + f
  {
    assert (files + [f])[..|files|] == files;
  }

  /**
   * mkimplib: a file that marks a name as an entry point drops whatever
   * address earlier files gave it; only definitions in that file and later
   * ones count.
   */
  lemma {:induction false} CollectAutoMarked(names: seq<string>, files: seq<Object>, n: string, j: nat)
    requires j < |files| && n in Entries(files[j])
    requires forall k :: j < k < |files| ==> n !in Entries(files[k])
    ensures n in Collect(names, files, true)
    ensures Collect(names, files, true)[n] == LastDef(Flatten(files[j..]), n)
    decreases |files|
  {
    var init := files[..|files| - 1];
    var last := files[|files| - 1];
    var m := Collect(names, init, true);
    if j == |files| - 1 {
      assert files[j..] == [last];
      ProcessAt(m, last, true, n);
    } else {
      CollectAutoMarked(names, init, n, j);
      ProcessAt(m, last, true, n);
      SliceSnoc(files, j);
      FlattenSnoc(init[j..], last);
      LastDefAppend(Flatten(init[j..]), last, n);
    }
  }

  // ---------------------------------------------------------------------------
  // The undefined check and the sort

  /** The names still without an address: each one is reported, then the tool aborts. */
  function Undefined(m: Table): (u: set<string>)
    ensures forall n :: n in u <==> n in m && m[n].None?
  {
    set n | n in m && m[n].None?
  }

  /** `order` lists every key of `m` exactly once: the order the map hands out its entries. */
  predicate Enumerates(order: seq<string>, m: Table) {
    (forall i, j :: 0 <= i < j < |order| ==> order[i] != order[j]) &&
    (forall i :: 0 <= i < |order| ==> order[i] in m) &&
    (forall n :: n in m ==> n in order)
  }

  /** A resolved symbol: its name and address. */
  type Entry = (string, u64)

  /** `(name, addr.unwrap())` for every entry, in the map's order. */
  function Listed(m: Table, order: seq<string>): (r: seq<Entry>)
    requires forall i :: 0 <= i < |order| ==> order[i] in m && m[order[i]].Some?
    ensures |r| == |order|
    ensures forall i :: 0 <= i < |r| ==> r[i].0 == order[i] && m[order[i]] == Some(r[i].1)
  {
    if order == [] then []
    else Listed(m, order[..|order| - 1]) + [(order[|order| - 1], m[order[|order| - 1]].value)]
  }

  predicate SortedByAddr(s: seq<Entry>) {
    forall i, j :: 0 <= i < j < |s| ==> s[i].1 <= s[j].1
  }

  /** The entries with address `a`, in order. */
  function WithAddr(s: seq<Entry>, a: u64): (r: seq<Entry>)
    ensures |r| <= |s|
  {
    if s == [] then []
    else WithAddr(s[..|s| - 1], a) + (if s[|s| - 1].1 == a then [s[|s| - 1]] else [])
  }

  lemma {:induction false} WithAddrAppend(s: seq<Entry>, t: seq<Entry>, a: u64)
    ensures WithAddr(s + t, a) == WithAddr(s, a) + WithAddr(t, a)
    decreases |t|
  {
    if t == [] {
      assert s + t == s;
    } else {
      assert (s + t)[..|s + t| - 1] == s + t[..|t| - 1];
      WithAddrAppend(s, t[..|t| - 1], a);
    }
  }

  lemma {:induction false} WithAddrNone(s: seq<Entry>, a: u64)
    requires forall i :: 0 <= i < |s| ==> s[i].1 != a
    ensures WithAddr(s, a) == []
    decreases |s|
  {
    if s != [] {
      WithAddrNone(s[..|s| - 1], a);
    }
  }

  /**
   * Where a stable sort puts `x` into the sorted `s`: after every entry
   * with an address no greater than its own.
   */
  function Point(s: seq<Entry>, x: Entry): (k: nat)
    ensures k <= |s|
    ensures forall i :: k <= i < |s| ==> s[i].1 > x.1
    ensures k > 0 ==> s[k - 1].1 <= x.1
  {
    if s == [] || s[|s| - 1].1 <= x.1 then |s| else Point(s[..|s| - 1], x)
  }

  function Insert(s: seq<Entry>, x: Entry): (r: seq<Entry>)
    ensures |r| == |s| + 1
  {
    var k := Point(s, x);
    s[..k] + [x] + s[k..]
  }

  lemma InsertPerm(s: seq<Entry>, x: Entry)
    ensures multiset(Insert(s, x)) == multiset(s) + multiset{x}
  {
    var k := Point(s, x);
    assert s == s[..k] + s[k..];
  }

  lemma InsertSorted(s: seq<Entry>, x: Entry)
    requires SortedByAddr(s)
    ensures SortedByAddr(Insert(s, x))
  {
    var k := Point(s, x);
    var r := Insert(s, x);
    forall i, j | 0 <= i < j < |r|
      ensures r[i].1 <= r[j].1
    {
      if i < k && j < k {
        assert r[i] == s[i] && r[j] == s[j];
      } else if i < k {
        assert r[i] == s[i] && s[i].1 <= s[k - 1].1;
        assert r[j] == x || r[j] == s[j - 1];
      } else if i == k {
        assert r[i] == x && r[j] == s[j - 1];
      } else {
        assert r[i] == s[i - 1] && r[j] == s[j - 1];
      }
    }
  }

  /** Inserting keeps the entries of each address in the order they came. */
  lemma InsertStable(s: seq<Entry>, x: Entry, a: u64)
    ensures WithAddr(Insert(s, x), a) == WithAddr(s + [x], a)
  {
    var k := Point(s, x);
    var wp, wq, wx := WithAddr(s[..k], a), WithAddr(s[k..], a), WithAddr([x], a);
    InsertParts(s, x, a);
    AppendParts(s, k, x, a);
    AfterPoint(s, x, a);
    SwapEmpty(wp, wx, wq);
  }

  lemma InsertParts(s: seq<Entry>, x: Entry, a: u64)
    ensures var k := Point(s, x);
            WithAddr(Insert(s, x), a) == WithAddr(s[..k], a) + WithAddr([x], a) + WithAddr(s[k..], a)
  {
    var k := Point(s, x);
    WithAddrAppend(s[..k] + [x], s[k..], a);
    WithAddrAppend(s[..k], [x], a);
  }

  lemma AppendParts(s: seq<Entry>, k: nat, x: Entry, a: u64)
    requires k <= |s|
    ensures WithAddr(s + [x], a) == WithAddr(s[..k], a) + WithAddr(s[k..], a) + WithAddr([x], a)
  {
    assert s == s[..k] + s[k..];
    WithAddrAppend(s[..k], s[k..], a);
    WithAddrAppend(s, [x], a);
  }

  /** Nothing after the insertion point has the address of the inserted entry. */
  lemma AfterPoint(s: seq<Entry>, x: Entry, a: u64)
    ensures WithAddr([x], a) == if x.1 == a then [x] else []
    ensures x.1 == a ==> WithAddr(s[Point(s, x)..], a) == []
  {
    assert WithAddr([x], a) == if x.1 == a then [x] else [] by {
      assert [x][..0] == [];
    }
    if x.1 == a {
      var k := Point(s, x);
      var q := s[k..];
      forall i | 0 <= i < |q|
        ensures q[i].1 != a
      {
        assert q[i] == s[k + i];
      }
      WithAddrNone(q, a);
    }
  }

  lemma SwapEmpty<T>(a: seq<T>, b: seq<T>, c: seq<T>)
    requires b == [] || c == []
    ensures a + b + c == a + c + b
  {
  }

  /** `sort_by_key` on the address: an insertion sort, stable like Rust's. */
  function SortByAddr(s: seq<Entry>): (r: seq<Entry>)
    ensures |r| == |s|
  {
    if s == [] then [] else Insert(SortByAddr(s[..|s| - 1]), s[|s| - 1])
  }

  /** The sort orders by address and keeps every entry, as often as it came. */
  lemma {:induction false} SortSorted(s: seq<Entry>)
    ensures SortedByAddr(SortByAddr(s))
    ensures multiset(SortByAddr(s)) == multiset(s)
    decreases |s|
  {
    if s != [] {
      var t := SortByAddr(s[..|s| - 1]);
      SortSorted(s[..|s| - 1]);
      InsertSorted(t, s[|s| - 1]);
      InsertPerm(t, s[|s| - 1]);
      SnocMultiset(s);
    }
  }

  lemma Snoc<T>(s: seq<T>)
    requires s != []
    ensures s[..|s| - 1] + [s[|s| - 1]] == s
  {
  }

  lemma SnocMultiset(s: seq<Entry>)
    requires s != []
    ensures multiset(s) == multiset(s[..|s| - 1]) + multiset{s[|s| - 1]}
  {
    assert s == s[..|s| - 1] + [s[|s| - 1]];
  }

  lemma SortUnfold(s: seq<Entry>)
    requires s != []
    ensures SortByAddr(s) == Insert(SortByAddr(s[..|s| - 1]), s[|s| - 1])
  {
  }

  /** Entries with the same address keep the map's order. */
  lemma {:induction false} SortStable(s: seq<Entry>, a: u64)
    ensures WithAddr(SortByAddr(s), a) == WithAddr(s, a)
    decreases |s|
  {
    if s != [] {
      var init, x := s[..|s| - 1], s[|s| - 1];
      var t := SortByAddr(init);
      SortUnfold(s);
      InsertStable(t, x, a);
      WithAddrAppend(t, [x], a);
      SortStable(init, a);
      WithAddrAppend(init, [x], a);
      Snoc(s);
    }
  }

  // ---------------------------------------------------------------------------
  // Hexadecimal

  predicate IsHexDigit(c: char) {
    '0' <= c <= '9' || 'a' <= c <= 'f'
  }

  predicate AllHex(s: string) {
    forall i :: 0 <= i < |s| ==> IsHexDigit(s[i])
  }

  function DigitValue(c: char): (d: nat)
    requires IsHexDigit(c)
    ensures d < 16
  {
    if c <= '9' then c as int - '0' as int else c as int - 'a' as int + 10
  }

  /** A lower-case hexadecimal digit. */
  function HexDigit(d: nat): (c: char)
    requires d < 16
    ensures IsHexDigit(c) && DigitValue(c) == d
  {
    if d < 10 then ('0' as int + d) as char else ('a' as int + d - 10) as char
  }

  /** The value of a string of hexadecimal digits. */
  function HexValue(s: string): nat
    requires AllHex(s)
  {
    if s == [] then 0 else HexValue(s[..|s| - 1]) * 16 + DigitValue(s[|s| - 1])
  }

  /** `x` in lower-case hexadecimal, without leading zeros. */
  function Hex(x: nat): (r: string)
    ensures r != [] && AllHex(r)
    decreases x
  {
    if x < 16 then [HexDigit(x)] else Hex(x / 16) + [HexDigit(x % 16)]
  }

  lemma {:induction false} HexRoundTrip(x: nat)
    ensures HexValue(Hex(x)) == x
    decreases x
  {
    if x >= 16 {
      var h := Hex(x / 16);
      var r := Hex(x);
      assert r[..|r| - 1] == h;
      HexRoundTrip(x / 16);
    }
  }

  function Pow16(k: nat): (p: nat)
    ensures p >= 1
  {
    if k == 0 then 1 else 16 * Pow16(k - 1)
  }

  lemma {:induction false} HexLength(x: nat, k: nat)
    requires 1 <= k && x < Pow16(k)
    ensures |Hex(x)| <= k
    decreases k
  {
    if x >= 16 {
      assert k >= 2;
      assert x / 16 < Pow16(k - 1);
      HexLength(x / 16, k - 1);
    }
  }

  function Zeros(n: nat): (r: string)
    ensures |r| == n && AllHex(r)
  {
    seq(n, _ => '0')
  }

  lemma {:induction false} HexValueZeros(n: nat, s: string)
    requires AllHex(s)
    ensures HexValue(Zeros(n) + s) == HexValue(s)
    decreases |s|, n
  {
    var z := Zeros(n) + s;
    if s == [] {
      assert z == Zeros(n);
      if n > 0 {
        assert z[..|z| - 1] == Zeros(n - 1);
        HexValueZeros(n - 1, []);
        assert Zeros(n - 1) + [] == Zeros(n - 1);
      }
    } else {
      assert z[..|z| - 1] == Zeros(n) + s[..|s| - 1];
      HexValueZeros(n, s[..|s| - 1]);
    }
  }

  /** `{:08x}`: lower-case hexadecimal, padded with zeros to at least eight digits. */
  function Hex8(x: nat): (r: string)
    ensures AllHex(r) && |r| >= 8
  {
    var h := Hex(x);
    if |h| >= 8 then h else Zeros(8 - |h|) + h
  }

  /** The eight-digit field reads back as the value, and a 32-bit value fills it exactly. */
  lemma Hex8RoundTrip(x: nat)
    ensures HexValue(Hex8(x)) == x
    ensures x < 0x1_0000_0000 ==> |Hex8(x)| == 8
  {
    var h := Hex(x);
    assert HexValue(h) == x by { HexRoundTrip(x); }
    if |h| < 8 {
      assert HexValue(Zeros(8 - |h|) + h) == x by { HexValueZeros(8 - |h|, h); }
    }
    if x < 0x1_0000_0000 {
      assert |h| <= 8 by {
        assert Pow16(8) == 0x1_0000_0000;
        HexLength(x, 8);
      }
    }
  }

  // ---------------------------------------------------------------------------
  // The assembler file

  const SyntaxLine: string := ".syntax unified"

  function TypeLine(n: string): string {
    ".type " + n + " function"
  }

  function SetLine(n: string, a: nat): string {
    ".set " + n + ", 0x" + Hex8(a)
  }

  function GlobalLine(n: string): string {
    ".global " + n
  }

  /** The length of the longest run of hexadecimal digits that ends `s`. */
  function HexSuffix(s: string): (k: nat)
    ensures k <= |s| && AllHex(s[|s| - k..])
  {
    if s == [] || !IsHexDigit(s[|s| - 1]) then 0
    else
      var k := HexSuffix(s[..|s| - 1]);
      assert s[|s| - (k + 1)..] == s[..|s| - 1][|s| - 1 - k..] + [s[|s| - 1]];
      k + 1
  }

  lemma {:induction false} HexSuffixOf(u: string, h: string)
    requires AllHex(h) && u != [] && !IsHexDigit(u[|u| - 1])
    ensures HexSuffix(u + h) == |h|
    decreases |h|
  {
    var s := u + h;
    if h == [] {
      assert s == u;
    } else {
      assert s[..|s| - 1] == u + h[..|h| - 1];
      HexSuffixOf(u, h[..|h| - 1]);
    }
  }

  /** Reads a `.set` line back into the symbol's name and address. */
  function ParseSet(line: string): Option<(string, nat)> {
    match Strings.StripPrefix(line, ".set ")
    case None => None
    case Some(rest) =>
      var k := HexSuffix(rest);
      var body := rest[..|rest| - k];
      if k == 0 || |body| < 4 || body[|body| - 4..] != ", 0x" then None
      else Some((body[..|body| - 4], HexValue(rest[|rest| - k..])))
  }

  /** A `.set` line names its symbol and address unambiguously. */
  lemma ParseSetRoundTrip(n: string, a: nat)
    ensures ParseSet(SetLine(n, a)) == Some((n, a))
  {
    var h := Hex8(a);
    var u := n + ", 0x";
    Strings.StripPrefixConcat(".set ", u + h);
    assert SetLine(n, a) == ".set " + (u + h);
    HexSuffixOf(u, h);
    var rest := u + h;
    assert rest[..|rest| - |h|] == u && rest[|rest| - |h|..] == h;
    assert u[|u| - 4..] == ", 0x" && u[..|u| - 4] == n;
    Hex8RoundTrip(a);
  }

  /** mkimplib's output: the syntax line, then a type, set and global line per symbol. */
  function MkimplibLines(es: seq<Entry>): (r: seq<string>)
    ensures |r| == 1 + 3 * |es| && r[0] == SyntaxLine
  {
    if es == [] then [SyntaxLine]
    else
      var e := es[|es| - 1];
      MkimplibLines(es[..|es| - 1]) + [TypeLine(e.0), SetLine(e.0, e.1), GlobalLine(e.0)]
  }

  /** The `k`-th symbol's three lines follow the syntax line and the lines of the symbols before it. */
  lemma {:induction false} MkimplibLinesAt(es: seq<Entry>, k: nat)
    requires k < |es|
    ensures var r := MkimplibLines(es);
            r[1 + 3 * k] == TypeLine(es[k].0) && r[2 + 3 * k] == SetLine(es[k].0, es[k].1) &&
            r[3 + 3 * k] == GlobalLine(es[k].0)
    decreases |es|
  {
    var init := es[..|es| - 1];
    var e := es[|es| - 1];
    var r0 := MkimplibLines(init);
    var tail := [TypeLine(e.0), SetLine(e.0, e.1), GlobalLine(e.0)];
    var r := MkimplibLines(es);
    assert r == r0 + tail;
    var i := 1 + 3 * k;
    if k < |init| {
      MkimplibLinesAt(init, k);
      assert init[k] == es[k];
      assert i + 2 < |r0|;
      assert r[i] == r0[i] && r[i + 1] == r0[i + 1] && r[i + 2] == r0[i + 2];
    } else {
      assert k == |init| && i == |r0|;
      assert r[i] == tail[0] && r[i + 1] == tail[1] && r[i + 2] == tail[2];
    }
  }

  /** `addr & !1`: the Thumb bit cleared. */
  function ClearThumb(a: u64): (r: u64)
    ensures r % 2 == 0 && r <= a && a - r <= 1
  {
    a - a % 2
  }

  /** MakeImplib's output: the syntax line, then a set and a global line per symbol. */
  function MakeImplibLines(es: seq<Entry>): (r: seq<string>)
    ensures |r| == 1 + 2 * |es| && r[0] == SyntaxLine
  {
    if es == [] then [SyntaxLine]
    else
      var e := es[|es| - 1];
      MakeImplibLines(es[..|es| - 1]) + [SetLine(e.0, ClearThumb(e.1)), GlobalLine(e.0)]
  }

  lemma {:induction false} MakeImplibLinesAt(es: seq<Entry>, k: nat)
    requires k < |es|
    ensures var r := MakeImplibLines(es);
            r[1 + 2 * k] == SetLine(es[k].0, ClearThumb(es[k].1)) && r[2 + 2 * k] == GlobalLine(es[k].0)
    decreases |es|
  {
    var init := es[..|es| - 1];
    var e := es[|es| - 1];
    var r0 := MakeImplibLines(init);
    var tail := [SetLine(e.0, ClearThumb(e.1)), GlobalLine(e.0)];
    var r := MakeImplibLines(es);
    assert r == r0 + tail;
    var i := 1 + 2 * k;
    if k < |init| {
      MakeImplibLinesAt(init, k);
      assert init[k] == es[k];
      assert i + 1 < |r0|;
      assert r[i] == r0[i] && r[i + 1] == r0[i + 1];
    } else {
      assert k == |init| && i == |r0|;
      assert r[i] == tail[0] && r[i + 1] == tail[1];
    }
  }

  // ---------------------------------------------------------------------------
  // The tools

  /** Every listed name is resolved once nothing is undefined. */
  lemma AllResolved(m: Table, order: seq<string>)
    requires Enumerates(order, m) && Undefined(m) == {}
    ensures forall i :: 0 <= i < |order| ==> order[i] in m && m[order[i]].Some?
  {
    forall i | 0 <= i < |order|
      ensures order[i] in m && m[order[i]].Some?
    {
      assert order[i] !in Undefined(m);
    }
  }

  /** The symbols to print: all resolved entries, sorted by address. */
  function Sorted(m: Table, order: seq<string>): (es: seq<Entry>)
    requires Enumerates(order, m) && Undefined(m) == {}
    ensures |es| == |order|
  {
    AllResolved(m, order);
    SortByAddr(Listed(m, order))
  }

  /**
   * `tzmcfi_mkimplib`: the `-s` names and the marked entry points, resolved
   * over the files in order; the lines of the assembler file, or the
   * undefined names it aborts on, having printed nothing.
   */
  function Mkimplib(names: seq<string>, files: seq<Object>, order: seq<string>): (r: Result<seq<string>, set<string>>)
    requires Enumerates(order, Collect(names, files, true))
    ensures r.Err? <==> Undefined(Collect(names, files, true)) != {}
    ensures r.Err? ==> r.error == Undefined(Collect(names, files, true))
    ensures r.Ok? ==> |r.value| == 1 + 3 * |order| && r.value[0] == SyntaxLine
  {
    var m := Collect(names, files, true);
    if Undefined(m) != {} then Err(Undefined(m)) else Ok(MkimplibLines(Sorted(m, order)))
  }

  /** MakeImplib: the `-s` names only, and no type lines. */
  function MakeImplib(names: seq<string>, files: seq<Object>, order: seq<string>): (r: Result<seq<string>, set<string>>)
    requires Enumerates(order, Collect(names, files, false))
    ensures r.Err? <==> Undefined(Collect(names, files, false)) != {}
    ensures r.Err? ==> r.error == Undefined(Collect(names, files, false))
    ensures r.Ok? ==> |r.value| == 1 + 2 * |order| && r.value[0] == SyntaxLine
  {
    var m := Collect(names, files, false);
    if Undefined(m) != {} then Err(Undefined(m)) else Ok(MakeImplibLines(Sorted(m, order)))
  }

  /**
   * The symbols printed are exactly the table's, each with its resolved
   * address, in ascending address order, and entries at the same address
   * in the order the map handed them out.
   */
  lemma SortedEntries(m: Table, order: seq<string>)
    requires Enumerates(order, m) && Undefined(m) == {}
    ensures var es := Sorted(m, order);
            SortedByAddr(es) &&
            (forall k :: 0 <= k < |es| ==> es[k].0 in m && m[es[k].0] == Some(es[k].1)) &&
            (forall n :: n in m ==> exists k :: 0 <= k < |es| && es[k].0 == n) &&
            (forall a: u64 :: WithAddr(es, a) == WithAddr(Listed(m, order), a))
  {
    AllResolved(m, order);
    var ls := Listed(m, order);
    var es := Sorted(m, order);
    assert SortedByAddr(es) && multiset(es) == multiset(ls) by { SortSorted(ls); }
    forall a: u64 ensures WithAddr(es, a) == WithAddr(ls, a) {
      SortStable(ls, a);
    }
    PermutedEntries(m, order, ls, es);
  }

  /** A permutation of the listed entries holds the table's entries, each of its names at least once. */
  lemma PermutedEntries(m: Table, order: seq<string>, ls: seq<Entry>, es: seq<Entry>)
    requires multiset(es) == multiset(ls) && |ls| == |order| && (forall n :: n in m ==> n in order)
    requires forall i :: 0 <= i < |ls| ==> ls[i].0 == order[i] && order[i] in m && m[order[i]] == Some(ls[i].1)
    ensures forall k :: 0 <= k < |es| ==> es[k].0 in m && m[es[k].0] == Some(es[k].1)
    ensures forall n :: n in m ==> exists k :: 0 <= k < |es| && es[k].0 == n
  {
    forall k | 0 <= k < |es|
      ensures es[k].0 in m && m[es[k].0] == Some(es[k].1)
    {
      assert es[k] in multiset(ls);
      var i :| 0 <= i < |ls| && ls[i] == es[k];
    }
    forall n | n in m
      ensures exists k :: 0 <= k < |es| && es[k].0 == n
    {
      var i :| 0 <= i < |order| && order[i] == n;
      assert ls[i] in multiset(es);
      var k :| 0 <= k < |es| && es[k] == ls[i];
    }
  }

  /**
   * mkimplib's `k`-th symbol is declared a function, set to its address as
   * eight or more hex digits and made global; the `.set` line reads back
   * as the symbol and its address.
   */
  lemma MkimplibOutput(names: seq<string>, files: seq<Object>, order: seq<string>, k: nat)
    requires Enumerates(order, Collect(names, files, true))
    requires Mkimplib(names, files, order).Ok? && k < |order|
    ensures var m := Collect(names, files, true);
            var es := Sorted(m, order);
            var lines := Mkimplib(names, files, order).value;
            es[k].0 in m && m[es[k].0] == Some(es[k].1) &&
            lines[1 + 3 * k] == TypeLine(es[k].0) && lines[3 + 3 * k] == GlobalLine(es[k].0) &&
            ParseSet(lines[2 + 3 * k]) == Some((es[k].0, es[k].1 as nat))
  {
    var m := Collect(names, files, true);
    SortedEntries(m, order);
    MkimplibLinesAt(Sorted(m, order), k);
    ParseSetRoundTrip(Sorted(m, order)[k].0, Sorted(m, order)[k].1);
  }

  /**
   * MakeImplib's `k`-th symbol is set to its address with bit 0 cleared and
   * made global.
   */
  lemma MakeImplibOutput(names: seq<string>, files: seq<Object>, order: seq<string>, k: nat)
    requires Enumerates(order, Collect(names, files, false))
    requires MakeImplib(names, files, order).Ok? && k < |order|
    ensures var m := Collect(names, files, false);
            var es := Sorted(m, order);
            var lines := MakeImplib(names, files, order).value;
            es[k].0 in m && m[es[k].0] == Some(es[k].1) &&
            lines[2 + 2 * k] == GlobalLine(es[k].0) &&
            ParseSet(lines[1 + 2 * k]) == Some((es[k].0, ClearThumb(es[k].1) as nat))
  {
    var m := Collect(names, files, false);
    SortedEntries(m, order);
    MakeImplibLinesAt(Sorted(m, order), k);
    ParseSetRoundTrip(Sorted(m, order)[k].0, ClearThumb(Sorted(m, order)[k].1));
  }
}
