/**
 * The parser of ARM instructions (Tools/Patcher/src/arm/parse.rs): register
 * names, and the table that maps a mnemonic, optionally followed by a
 * condition suffix, to the handler that parses the rest of the line. Both
 * lookups ignore case. A branch reads its label with the `symbol` grammar:
 * separators, then the longest run of label characters.
 */
module ArmParse {
  import opened Wrappers
  import opened ArmInst
  import ArmFormat
  import Decimal
  import Strings
  import Table

  // ---------------------------------------------------------------------------
  // Register names

  /** `GPR_MAP`: `r0` to `r15`, then the aliases `sp`, `lr`, `pc`. */
  function GprTable(): (t: seq<(string, Gpr)>)
    ensures |t| == 19
  {
    [("r0", 0), ("r1", 1), ("r2", 2), ("r3", 3), ("r4", 4), ("r5", 5), ("r6", 6), ("r7", 7),
     ("r8", 8), ("r9", 9), ("r10", 10), ("r11", 11), ("r12", 12), ("r13", 13), ("r14", 14),
     ("r15", 15), ("sp", 13), ("lr", 14), ("pc", 15)]
  }

  /** A string without upper-case ASCII letters, which lower-casing leaves alone. */
  predicate NoUpper(s: string) {
    forall k :: 0 <= k < |s| ==> !('A' <= s[k] <= 'Z')
  }

  lemma LowerNoUpper(s: string)
    requires NoUpper(s)
    ensures Strings.Lower(s) == s
  {
  }

  /** Lower-casing twice is lower-casing once. */
  lemma LowerTwice(s: string)
    ensures Strings.Lower(Strings.Lower(s)) == Strings.Lower(s)
  {
    LowerNoUpper(Strings.Lower(s));
  }

  /** The table's keys are distinct and lower-case, and name registers 0 to 15. */
  lemma GprTableWellFormed()
    ensures Table.DistinctKeys(GprTable())
    ensures forall i :: 0 <= i < 19 ==> NoUpper(GprTable()[i].0) && IsRegister(GprTable()[i].1)
  {
    GprKeysDistinct();
  }

  lemma GprKeysDistinct()
    ensures Table.DistinctKeys(GprTable())
  {
    var t := GprTable();
    assert forall k :: 0 <= k < 10 ==> |t[k].0| == 2 && t[k].0[0] == 'r' && t[k].0[1] as int == 48 + k;
    assert forall k :: 10 <= k < 16 ==> |t[k].0| == 3 && t[k].0[0] == 'r' && t[k].0[2] as int == 38 + k;
    assert |t[16].0| == |t[17].0| == |t[18].0| == 2;
    assert t[16].0[0] == 's' && t[17].0[0] == 'l' && t[18].0[0] == 'p';
    ShapedKeysDistinct(t);
  }

  /**
   * Keys `r0` to `r9`, then `r10` to `r15`, then three two-letter names not
   * starting with `r`, are distinct.
   */
  lemma ShapedKeysDistinct(t: seq<(string, Gpr)>)
    requires |t| == 19
    requires forall k :: 0 <= k < 10 ==> |t[k].0| == 2 && t[k].0[0] == 'r' && t[k].0[1] as int == 48 + k
    requires forall k :: 10 <= k < 16 ==> |t[k].0| == 3 && t[k].0[0] == 'r' && t[k].0[2] as int == 38 + k
    requires |t[16].0| == |t[17].0| == |t[18].0| == 2
    requires t[16].0[0] == 's' && t[17].0[0] == 'l' && t[18].0[0] == 'p'
    ensures Table.DistinctKeys(t)
  {
    forall i, j | 0 <= i < j < 19
      ensures t[i].0 != t[j].0
    {
      if j < 10 {
        assert t[i].0[1] != t[j].0[1];
      } else if j < 16 && i >= 10 {
        assert t[i].0[2] != t[j].0[2];
      } else if j < 16 {
        assert |t[i].0| != |t[j].0|;
      } else {
        assert t[i].0[0] != t[j].0[0];
      }
    }
  }

  /** `Gpr::from_str`: a case-insensitive lookup of a register name. */
  function GprFromStr(x: string): (r: Option<Gpr>)
    ensures r.Some? ==> IsRegister(r.value)
  {
    GprTableWellFormed();
    Table.Find(GprTable(), Strings.Lower(x))
  }

  /** The table entry of register `n` below 16 is `r` followed by its number. */
  lemma NumberedEntry(n: Gpr)
    requires n < 16
    ensures GprTable()[n] == ("r" + Decimal.SignedText(n), n)
  {
    if n == 0 {
      assert Decimal.SignedText(0) == "0";
      assert "r" + "0" == "r0";
    } else if n < 10 {
      var d := OneDigit(n);
      assert GprTable()[n].0 == ['r', d];
      assert "r" + [d] == ['r', d];
    } else {
      var d := TwoDigits(n);
      assert GprTable()[n].0 == ['r', '1', d];
      assert "r" + ['1', d] == ['r', '1', d];
    }
  }

  lemma OneDigit(n: nat) returns (d: char)
    requires 0 < n < 10
    ensures d == Decimal.DigitChar(n) && Decimal.SignedText(n) == [d]
  {
    d := Decimal.DigitChar(n);
    assert Decimal.Digits(n / 10) == "";
    assert Decimal.SignedText(n) == Decimal.Digits(n / 10) + [Decimal.DigitChar(n % 10)];
  }

  lemma TwoDigits(n: nat) returns (d: char)
    requires 10 <= n < 20
    ensures d == Decimal.DigitChar(n - 10) && Decimal.SignedText(n) == ['1', d]
  {
    d := Decimal.DigitChar(n - 10);
    assert Decimal.Digits(n / 10) == "1";
    assert n % 10 == n - 10;
    assert Decimal.SignedText(n) == Decimal.Digits(n / 10) + [Decimal.DigitChar(n % 10)];
  }

  /** The alias entry of register 13, 14 or 15 is the name it prints under. */
  lemma AliasEntry(n: Gpr)
    requires 13 <= n < 16
    ensures GprTable()[n + 3] == (ArmFormat.GprText(n).value, n)
  {
  }

  /**
   * Exactly the spellings `rN` and, for 13 to 15, the alias name a register
   * prints under denote register `g`, in any mix of cases.
   */
  lemma GprFromStrSpelling(x: string, g: Gpr)
    requires IsRegister(g)
    ensures GprFromStr(x) == Some(g) <==>
              Strings.Lower(x) == "r" + Decimal.SignedText(g) ||
              (g >= 13 && Strings.Lower(x) == ArmFormat.GprText(g).value)
  {
    var key := Strings.Lower(x);
    GprTableWellFormed();
    NumberedEntry(g);
    if key == "r" + Decimal.SignedText(g) {
      Table.FindUnique(GprTable(), g);
    } else if g >= 13 && key == ArmFormat.GprText(g).value {
      AliasEntry(g);
      Table.FindUnique(GprTable(), g + 3);
    } else if GprFromStr(x) == Some(g) {
      var i :| 0 <= i < 19 && GprTable()[i] == (key, g);
      if i < 16 {
        NumberedEntry(i);
        assert false;
      } else {
        AliasEntry(i - 3);
        assert false;
      }
    }
  }

  /** A register's printed name reads back as the register. */
  lemma GprRoundTrip(g: Gpr)
    requires IsRegister(g)
    ensures GprFromStr(ArmFormat.GprText(g).value) == Some(g)
  {
    var t := ArmFormat.GprText(g).value;
    ArmFormat.GprTextShape(g);
    GprTableWellFormed();
    if g < 13 {
      NumberedEntry(g);
      LowerNoUpper(t);
    } else {
      AliasEntry(g);
      LowerNoUpper(t);
    }
    GprFromStrSpelling(t, g);
  }

  // ---------------------------------------------------------------------------
  // The mnemonic table

  /**
   * The condition suffixes a mnemonic may carry, in table order: the
   * fourteen conditions, the alternative spellings `hs` and `lo` of `cs` and
   * `cc`, and `al` and the empty suffix for "always".
   */
  function Suffixes(): (t: seq<(Cond, string)>)
    ensures |t| == 18
  {
    [(Equal, "eq"), (NotEqual, "ne"), (CarrySet, "cs"), (CarryClear, "cc"), (Minus, "mi"),
     (Plus, "pl"), (Overflow, "vs"), (NoOverflow, "vc"), (UnsignedGreaterThanOrEqual, "hi"),
     (UnsignedLessThan, "ls"), (SignedGreaterThanOrEqual, "ge"), (SignedLessThan, "lt"),
     (SignedGreaterThan, "gt"), (SignedLessThanOrEqual, "le"), (CarrySet, "hs"),
     (CarryClear, "lo"), (Always, "al"), (Always, "")]
  }

  /** No two suffixes are spelled alike, and each is empty or two lower-case letters. */
  lemma SuffixesWellFormed()
    ensures forall a, b :: 0 <= a < b < 18 ==> Suffixes()[a].1 != Suffixes()[b].1
    ensures forall a :: 0 <= a < 18 ==> NoUpper(Suffixes()[a].1) &&
                                        (|Suffixes()[a].1| == 0 || |Suffixes()[a].1| == 2)
  {
  }

  /** Where the formatter's spelling of `c` sits in the suffix table. */
  function SuffixIndex(c: Cond): (i: nat)
    ensures i < 18 && Suffixes()[i] == (c, ArmFormat.CondText(c))
  {
    if c == Always then 17 else Value(c)
  }

  /** The handlers of the table (`DirectiveHandler` implementations). */
  datatype Handler =
    | MiscHandler(kind: MiscKind, acceptsCond: bool)
    | BranchLabel(link: bool)

  /** `DirectiveHandler::key`. */
  function Key(h: Handler): string {
    match h
    case MiscHandler(k, _) => MiscName(k)
    case BranchLabel(link) => if link then "bl" else "b"
  }

  /** `DirectiveHandler::accepts_cond`; a branch always accepts a condition. */
  predicate AcceptsCond(h: Handler) {
    match h
    case MiscHandler(_, a) => a
    case BranchLabel(_) => true
  }

  function Handlers(): seq<Handler> {
    [MiscHandler(Adc, true), BranchLabel(false), BranchLabel(true)]
  }

  /** The entries one handler contributes: its key with every suffix, or its bare key. */
  function Expand(h: Handler): (es: seq<(string, (Handler, Cond))>)
    ensures AcceptsCond(h) ==> |es| == 18
  {
    if AcceptsCond(h) then
      seq(18, i requires 0 <= i < 18 => (Key(h) + Suffixes()[i].1, (h, Suffixes()[i].0)))
    else [(Key(h), (h, Always))]
  }

  /** `MAP`, before it is collected. */
  function Entries(): (es: seq<(string, (Handler, Cond))>)
    ensures |es| == 54
  {
    Expand(Handlers()[0]) + Expand(Handlers()[1]) + Expand(Handlers()[2])
  }

  /** Entry `18 q + r` is handler `q` with suffix `r`. */
  lemma EntryAt(q: nat, r: nat)
    requires q < 3 && r < 18
    ensures var h := Handlers()[q];
            Entries()[18 * q + r] == (Key(h) + Suffixes()[r].1, (h, Suffixes()[r].0))
  {
    var a, b, c := Expand(Handlers()[0]), Expand(Handlers()[1]), Expand(Handlers()[2]);
    assert |a| == 18 && |b| == 18 && |c| == 18;
    if q == 0 {
      assert (a + b + c)[r] == a[r];
    } else if q == 1 {
      assert (a + b + c)[18 + r] == b[r];
    } else {
      assert (a + b + c)[36 + r] == c[r];
    }
  }

  /** Every key occurs once in `MAP`, so collecting it loses no entry. */
  lemma EntriesDistinct()
    ensures Table.DistinctKeys(Entries())
  {
    forall i, j | 0 <= i < j < 54
      ensures Entries()[i].0 != Entries()[j].0
    {
      var q1, r1, q2, r2 := i / 18, i % 18, j / 18, j % 18;
      assert i == 18 * q1 + r1 && j == 18 * q2 + r2;
      EntryAt(q1, r1);
      EntryAt(q2, r2);
      EntryKeysDiffer(q1, r1, q2, r2);
    }
  }

  lemma EntryKeysDiffer(q1: nat, r1: nat, q2: nat, r2: nat)
    requires q1 < 3 && r1 < 18 && q2 < 3 && r2 < 18 && (q1 != q2 || r1 != r2)
    ensures Key(Handlers()[q1]) + Suffixes()[r1].1 != Key(Handlers()[q2]) + Suffixes()[r2].1
  {
    var k1, k2 := Key(Handlers()[q1]), Key(Handlers()[q2]);
    var s1, s2 := Suffixes()[r1].1, Suffixes()[r2].1;
    SuffixesWellFormed();
    if q1 == q2 {
      assert s1 != s2;
      assert (k1 + s1)[|k1|..] == s1;
      assert (k2 + s2)[|k2|..] == s2;
    } else if q1 == 0 || q2 == 0 {
      assert (k1 + s1)[0] != (k2 + s2)[0];
    } else {
      assert |k1 + s1| % 2 != |k2 + s2| % 2;
    }
  }

  // ---------------------------------------------------------------------------
  // Parsing a mnemonic and its operands

  /** The row of the suffix table that spells `s`, if any. */
  function SuffixRow(s: string): (r: Option<nat>)
    ensures r.Some? ==> r.value < 18 && Suffixes()[r.value].1 == s
    ensures r.None? ==> forall i :: 0 <= i < 18 ==> Suffixes()[i].1 != s
  {
    match s
    case "eq" => Some(0)
    case "ne" => Some(1)
    case "cs" => Some(2)
    case "cc" => Some(3)
    case "mi" => Some(4)
    case "pl" => Some(5)
    case "vs" => Some(6)
    case "vc" => Some(7)
    case "hi" => Some(8)
    case "ls" => Some(9)
    case "ge" => Some(10)
    case "lt" => Some(11)
    case "gt" => Some(12)
    case "le" => Some(13)
    case "hs" => Some(14)
    case "lo" => Some(15)
    case "al" => Some(16)
    case "" => Some(17)
    case _ => None
  }

  /** Handler `h` with the condition that `suffix` spells, if it spells one. */
  function WithSuffix(h: Handler, suffix: string): Option<(Handler, Cond)> {
    match SuffixRow(suffix)
    case Some(row) => Some((h, Suffixes()[row].0))
    case None => None
  }

  /**
   * The mnemonics read directly: `adc`, `bl` or `b`, then a condition
   * suffix. `bl` is tried before `b`, and a suffix never has one letter, so
   * `blt` is `b` with `lt` while `bllt` is `bl` with `lt`.
   */
  function Decode(k: string): Option<(Handler, Cond)> {
    if Strings.StartsWith(k, "adc") then WithSuffix(MiscHandler(Adc, true), k[3..])
    else if Strings.StartsWith(k, "bl") && SuffixRow(k[2..]).Some? then WithSuffix(BranchLabel(true), k[2..])
    else if Strings.StartsWith(k, "b") then WithSuffix(BranchLabel(false), k[1..])
    else None
  }

  /** `MAP.get(&UniCase::new(key))`: the table agrees with the direct reading, in any case. */
  function Lookup(key: string): (r: Option<(Handler, Cond)>)
    ensures r == Decode(Strings.Lower(key))
    ensures r.Some? ==> r.value.0 in Handlers()
  {
    var k := Strings.Lower(key);
    FoundDecodes(k);
    DecodedFound(k);
    Table.Find(Entries(), k)
  }

  /** What the table finds is what the key reads as. */
  lemma FoundDecodes(k: string)
    ensures var r := Table.Find(Entries(), k);
            r.Some? ==> r.value.0 in Handlers() && Decode(k) == r
  {
    var r := Table.Find(Entries(), k);
    if r.Some? {
      var i :| 0 <= i < 54 && Entries()[i] == (k, r.value);
      EntryAt(i / 18, i % 18);
      DecodeEntry(i / 18, i % 18);
    }
  }

  /** Every key of the table reads as its own handler and condition. */
  lemma DecodeEntry(q: nat, row: nat)
    requires q < 3 && row < 18
    ensures Decode(Key(Handlers()[q]) + Suffixes()[row].1) == Some((Handlers()[q], Suffixes()[row].0))
  {
    var suffix := Suffixes()[row].1;
    var p := Key(Handlers()[q]);
    var k := p + suffix;
    SuffixesWellFormed();
    assert k[|p|..] == suffix;
    assert SuffixRow(suffix) == Some(row);
    if q == 0 {
      assert k[..3] == "adc";
    } else if q == 1 {
      assert k[..1] == "b" && k[0] != 'a';
      if |k| >= 2 {
        assert |k[2..]| == 1;
      }
    } else {
      assert k[..2] == "bl" && k[0] != 'a';
    }
  }

  /** A key that reads as a handler and condition finds them in the table. */
  lemma DecodedFound(k: string)
    ensures Decode(k).Some? ==> Table.Find(Entries(), k) == Decode(k)
  {
    if Decode(k).Some? {
      var q: nat := if Strings.StartsWith(k, "adc") then 0
                    else if Strings.StartsWith(k, "bl") && SuffixRow(k[2..]).Some? then 2
                    else 1;
      var p := Key(Handlers()[q]);
      assert Strings.StartsWith(k, p);
      var row := SuffixRow(k[|p|..]).value;
      assert k[..|p|] == p;
      assert k == k[..|p|] + k[|p|..];
      EntryAt(q, row);
      EntriesDistinct();
      Table.FindUnique(Entries(), 18 * q + row);
    }
  }

  // ---------------------------------------------------------------------------
  // Labels

  /** The separators `ws!` skips around a token. */
  predicate IsSeparator(ch: char) {
    ch == ' ' || ch == '\t' || ch == '\r' || ch == '\n'
  }

  /** `is_symbol_char`: a letter, a digit, `.`, `_` or `$`. */
  predicate IsSymbolChar(ch: char) {
    'a' <= ch <= 'z' || 'A' <= ch <= 'Z' || '0' <= ch <= '9' || ch == '.' || ch == '_' || ch == '$'
  }

  /** A label as the grammar reads it: one or more label characters. */
  predicate IsSymbol(s: string) {
    |s| > 0 && forall k :: 0 <= k < |s| ==> IsSymbolChar(s[k])
  }

  /** `s` without its leading separators. */
  function SkipSeparators(s: string): (r: string)
    ensures |r| <= |s| && r == s[|s| - |r|..]
    ensures forall k :: 0 <= k < |s| - |r| ==> IsSeparator(s[k])
    ensures |r| > 0 ==> !IsSeparator(r[0])
  {
    if |s| > 0 && IsSeparator(s[0]) then SkipSeparators(s[1..]) else s
  }

  /** `take_while`: the longest prefix of `s` made of label characters. */
  function SymbolRun(s: string): (r: string)
    ensures |r| <= |s| && r == s[..|r|]
    ensures forall k :: 0 <= k < |r| ==> IsSymbolChar(r[k])
    ensures |r| < |s| ==> !IsSymbolChar(s[|r|])
  {
    if |s| > 0 && IsSymbolChar(s[0]) then [s[0]] + SymbolRun(s[1..]) else ""
  }

  /**
   * `map_iresult(symbol(rest))`: skip separators, then take at least one
   * label character and as many more as follow. Running out of text is an
   * `Incomplete`, reported as an unexpected end; any other first character
   * is a parse error. What follows the label is left unread.
   */
  function Symbol(rest: string): (r: Result<string, string>)
    ensures var t := SkipSeparators(rest);
            && (|t| == 0 ==> r == Err("unexpected EOF"))
            && (|t| > 0 && !IsSymbolChar(t[0]) ==> r == Err("failed to parse"))
            && (|t| > 0 && IsSymbolChar(t[0]) ==> r.Ok? && IsSymbol(r.value) && Strings.StartsWith(t, r.value))
            && (r.Ok? ==> |r.value| == |t| || !IsSymbolChar(t[|r.value|]))
  {
    var t := SkipSeparators(rest);
    if |t| == 0 then Err("unexpected EOF")
    else if !IsSymbolChar(t[0]) then Err("failed to parse")
    else Ok(SymbolRun(t))
  }

  /**
   * A label, after any separators and before anything that cannot continue
   * it, reads back as itself.
   */
  lemma {:induction false} SymbolReads(space: string, name: string, tail: string)
    requires forall k :: 0 <= k < |space| ==> IsSeparator(space[k])
    requires IsSymbol(name)
    requires |tail| == 0 || !IsSymbolChar(tail[0])
    ensures Symbol(space + name + tail) == Ok(name)
  {
    var t := name + tail;
    assert space + name + tail == space + t;
    assert t[0] == name[0];
    SkipSpace(space, t);
    RunOfSymbol(name, tail);
    assert SkipSeparators(space + t) == t && SymbolRun(t) == name;
  }

  /** A label alone reads as itself. */
  lemma SymbolOfName(name: string)
    requires IsSymbol(name)
    ensures Symbol(name) == Ok(name)
  {
    SymbolReads("", name, "");
    assert "" + name + "" == name;
  }

  lemma {:induction false} SkipSpace(space: string, s: string)
    requires forall k :: 0 <= k < |space| ==> IsSeparator(space[k])
    requires |s| > 0 && !IsSeparator(s[0])
    ensures SkipSeparators(space + s) == s
  {
    if |space| > 0 {
      assert (space + s)[1..] == space[1..] + s;
      SkipSpace(space[1..], s);
    }
  }

  lemma {:induction false} RunOfSymbol(name: string, tail: string)
    requires forall k :: 0 <= k < |name| ==> IsSymbolChar(name[k])
    requires |tail| == 0 || !IsSymbolChar(tail[0])
    ensures SymbolRun(name + tail) == name
  {
    if |name| > 0 {
      assert (name + tail)[1..] == name[1..] + tail;
      RunOfSymbol(name[1..], tail);
    }
  }

  /** `DirectiveHandler::parse`: what a handler makes of the operand text. */
  function Parse(h: Handler, rest: string, c: Cond): (r: Result<ArmDirective, string>)
    ensures h.MiscHandler? ==> r == Ok(Misc(h.kind, c, rest))
    ensures h.BranchLabel? ==> (r.Ok? <==> Symbol(rest).Ok?)
  {
    match h
    case MiscHandler(k, _) => Ok(Misc(k, c, rest))
    case BranchLabel(link) =>
      match Symbol(rest)
      case Ok(sym) => Ok(Instruction(Inst(Branch(Label(sym), link, false), c)))
      case Err(e) => Err(e)
  }

  /**
   * `ArmDirective::from_str`: `Ok(None)` for a mnemonic the table does not
   * know, otherwise what its handler parses from `rest`.
   */
  function ParseArm(key: string, rest: string): (r: Result<Option<ArmDirective>, string>)
    ensures r == Ok(None) <==> Decode(Strings.Lower(key)).None?
    ensures forall c :: Decode(Strings.Lower(key)) == Some((MiscHandler(Adc, true), c)) ==>
              r == Ok(Some(Misc(Adc, c, rest)))
    ensures forall link, c :: Decode(Strings.Lower(key)) == Some((BranchLabel(link), c)) ==>
              (Symbol(rest).Ok? ==>
                 r == Ok(Some(Instruction(Inst(Branch(Label(Symbol(rest).value), link, false), c))))) &&
              (Symbol(rest).Err? ==> r == Err(Symbol(rest).error))
  {
    match Lookup(key)
    case None => Ok(None)
    case Some((h, c)) =>
      match Parse(h, rest, c)
      case Ok(d) => Ok(Some(d))
      case Err(e) => Err(e)
  }

  // ---------------------------------------------------------------------------
  // Printing and parsing agree

  /** Handler `q`'s key followed by the formatter's spelling of `c` reads back as `c`. */
  lemma MnemonicRoundTrip(q: nat, c: Cond)
    requires q < 3
    ensures var k := Key(Handlers()[q]) + ArmFormat.CondText(c);
            Strings.Lower(k) == k && Decode(k) == Some((Handlers()[q], c))
  {
    var row := SuffixIndex(c);
    SuffixesWellFormed();
    DecodeEntry(q, row);
    var k := Key(Handlers()[q]) + ArmFormat.CondText(c);
    assert NoUpper(Key(Handlers()[q]));
    LowerNoUpper(k);
  }

  /** A pass-through instruction prints as `adc`, its condition, a space and the rest, and reads back. */
  lemma MiscRoundTrip(c: Cond, rest: string)
    ensures var key := "adc" + ArmFormat.CondText(c);
            ArmFormat.Format(Misc(Adc, c, rest)) == Some(key + " " + rest) &&
            ParseArm(key, rest) == Ok(Some(Misc(Adc, c, rest)))
  {
    MnemonicRoundTrip(0, c);
  }

  /** A branch to a label prints as its mnemonic, a space and the label, and reads back. */
  lemma BranchRoundTrip(target: string, link: bool, c: Cond)
    requires IsSymbol(target)
    ensures var d := Instruction(Inst(Branch(Label(target), link, false), c));
            var m := ArmFormat.BranchMnemonic(link, false, false, c);
            ArmFormat.Format(d) == Some(m + " " + target) && ParseArm(m, target) == Ok(Some(d))
  {
    ArmFormat.FormatBranch(Label(target), link, false, c);
    BranchParses(target, link, c);
  }

  lemma BranchParses(target: string, link: bool, c: Cond)
    requires IsSymbol(target)
    ensures ParseArm(ArmFormat.BranchMnemonic(link, false, false, c), target) ==
              Ok(Some(Instruction(Inst(Branch(Label(target), link, false), c))))
  {
    BranchMnemonicDecodes(link, c);
    SymbolOfName(target);
  }

  /** A branch's printed mnemonic reads back as its handler and condition. */
  lemma BranchMnemonicDecodes(link: bool, c: Cond)
    ensures Decode(Strings.Lower(ArmFormat.BranchMnemonic(link, false, false, c))) == Some((BranchLabel(link), c))
  {
    var q := if link then 2 else 1;
    MnemonicRoundTrip(q, c);
    assert ArmFormat.BranchMnemonic(link, false, false, c) == Key(Handlers()[q]) + ArmFormat.CondText(c);
  }

  /** No mnemonic of the table is longer than five characters. */
  lemma LongKeysUnknown(key: string, rest: string)
    requires |key| > 5
    ensures ParseArm(key, rest) == Ok(None)
  {
    var k := Strings.Lower(key);
    LongSuffixUnknown(k[3..]);
    LongSuffixUnknown(k[2..]);
    LongSuffixUnknown(k[1..]);
    assert Decode(k).None?;
  }

  lemma LongSuffixUnknown(s: string)
    requires |s| > 2
    ensures SuffixRow(s).None?
  {
    SuffixesWellFormed();
  }
}
