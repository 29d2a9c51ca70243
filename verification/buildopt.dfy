/**
 * The build configuration of the benchmark runner (`BuildOpt` in
 * examples/tools/runbench/src/main.rs): the dependency rules between the CFI
 * features, the identifier that names a configuration's output files, and the
 * `zig build` flags that select it.
 */
module BuildOptions {
  import opened Wrappers
  import opened Strings
  import Decimal
  import Tuples

  type u8 = x: int | 0 <= x < 256

  datatype BuildMode = ReleaseFast | ReleaseSmall

  datatype BuildOpt = BuildOpt(
    mode: BuildMode,
    ctx: bool,
    ses: bool,
    ss: bool,
    abortingSs: bool,
    icall: bool,
    accelRaisePri: bool,
    unnest: bool,
    romOffset: u8)

  // ---------------------------------------------------------------------------
  // Validation

  /** The six dependency rules, in the order `validate` checks them. */
  datatype Rule = SsNeedsCtx | SesNeedsCtx | SsNeedsSes | AbortingNeedsSs | AccelNeedsCtx | UnnestNeedsSes

  const Rules: seq<Rule> := [SsNeedsCtx, SesNeedsCtx, SsNeedsSes, AbortingNeedsSs, AccelNeedsCtx, UnnestNeedsSes]

  predicate Violates(o: BuildOpt, r: Rule) {
    match r
    case SsNeedsCtx => o.ss && !o.ctx
    case SesNeedsCtx => o.ses && !o.ctx
    case SsNeedsSes => o.ss && !o.ses
    case AbortingNeedsSs => o.abortingSs && !o.ss
    case AccelNeedsCtx => o.accelRaisePri && !o.ctx
    case UnnestNeedsSes => o.unnest && !o.ses
  }

  function Message(r: Rule): string {
    match r
    case SsNeedsCtx => "cfi-ss requires cfi-ctx"
    case SesNeedsCtx => "cfi-ses requires cfi-ctx"
    case SsNeedsSes => "cfi-ss requires cfi-ses"
    case AbortingNeedsSs => "aborting-ss requires cfi-ss"
    case AccelNeedsCtx => "-Daccel-raise-pri requires -Dcfi-ctx"
    case UnnestNeedsSes => "-Dcfi-unnest requires -Dcfi-ses"
  }

  /** A configuration `build.zig` accepts: no rule is violated. */
  predicate Valid(o: BuildOpt) {
    forall i :: 0 <= i < |Rules| ==> !Violates(o, Rules[i])
  }

  /** The first rule at or after `i`, in `Rules` order, that `o` violates. */
  function FirstViolation(o: BuildOpt, i: nat): (r: Option<nat>)
    requires i <= |Rules|
    ensures r.Some? ==> i <= r.value < |Rules| && Violates(o, Rules[r.value])
    ensures r.Some? ==> forall j :: i <= j < r.value ==> !Violates(o, Rules[j])
    ensures r.None? <==> forall j :: i <= j < |Rules| ==> !Violates(o, Rules[j])
    decreases |Rules| - i
  {
    if i == |Rules| then None
    else if Violates(o, Rules[i]) then Some(i)
    else FirstViolation(o, i + 1)
  }

  /** `validate`: the checks in the order they are written, each with its message. */
  function Validate(o: BuildOpt): Result<(), string> {
    if o.ss && !o.ctx then Err(Message(SsNeedsCtx))
    else if o.ses && !o.ctx then Err(Message(SesNeedsCtx))
    else if o.ss && !o.ses then Err(Message(SsNeedsSes))
    else if o.abortingSs && !o.ss then Err(Message(AbortingNeedsSs))
    else if o.accelRaisePri && !o.ctx then Err(Message(AccelNeedsCtx))
    else if o.unnest && !o.ses then Err(Message(UnnestNeedsSes))
    else Ok(())
  }

  /**
   * `validate` accepts exactly the valid configurations; otherwise it reports
   * the message of the first rule, in `Rules` order, that the configuration
   * violates.
   */
  lemma ValidateMeaning(o: BuildOpt)
    ensures Validate(o).Ok? <==> Valid(o)
    ensures Validate(o).Err? ==> exists i :: (0 <= i < |Rules| && Violates(o, Rules[i]) &&
              Validate(o).error == Message(Rules[i]) && forall j :: 0 <= j < i ==> !Violates(o, Rules[j]))
  {
    var f := FirstViolation(o, 0);
    assert Validate(o) == if f.Some? then Err(Message(Rules[f.value])) else Ok(());
  }

  // ---------------------------------------------------------------------------
  // The identifier (`Display for BuildOpt`)

  function ModeName(m: BuildMode): string {
    match m
    case ReleaseFast => "ReleaseFast"
    case ReleaseSmall => "ReleaseSmall"
  }

  /** One `e!(...)` segment: "+" and the text, or nothing. */
  function Seg(on: bool, text: string): string {
    if on then "+" + text else ""
  }

  function SesSeg(o: BuildOpt): string {
    Seg(o.ses, if o.unnest then "ses(unnest)" else "ses")
  }

  function SsSeg(o: BuildOpt): string {
    Seg(o.ss, if o.abortingSs then "ss(aborting)" else "ss(non-aborting)")
  }

  function OffsetSeg(n: u8): string {
    Seg(n != 0, "off(" + Decimal.Digits(n) + ")")
  }

  /** The identifier of a configuration: the mode name, then the segments of the enabled features. */
  function Id(o: BuildOpt): string {
    ModeName(o.mode) + Segments(o)
  }

  /** Consumes `"+" + text` from the front of `s` when it is there. */
  function Take(s: string, text: string): (bool, string) {
    match StripPrefix(s, "+" + text)
    case Some(rest) => (true, rest)
    case None => (false, s)
  }

  predicate AllDigits(s: string) {
    forall i :: 0 <= i < |s| ==> Decimal.IsDigit(s[i])
  }

  /** Reads the final "+off(N)" segment back; the empty rest is offset 0. */
  function ParseOffset(s: string): Option<u8> {
    if s == "" then Some(0)
    else match StripPrefix(s, "+off(")
      case None => None
      case Some(r) =>
        if |r| >= 2 && r[|r| - 1] == ')' && AllDigits(r[..|r| - 1]) && r[0] != '0'
          && Decimal.Value(r[..|r| - 1]) < 256
        then Some(Decimal.Value(r[..|r| - 1]))
        else None
  }

  /** The mode name an identifier starts with, and the text after it. */
  function ModePrefix(s: string): Option<(BuildMode, string)> {
    if StartsWith(s, "ReleaseFast") then Some((ReleaseFast, s[|ModeName(ReleaseFast)|..]))
    else if StartsWith(s, "ReleaseSmall") then Some((ReleaseSmall, s[|ModeName(ReleaseSmall)|..]))
    else None
  }

  /** Reads an identifier back into the configuration it names. */
  function ParseId(s: string): Option<BuildOpt> {
    match ModePrefix(s)
    case None => None
    case Some((mode, r0)) => ParseSegments(mode, r0)
  }

  /** Reads the feature segments that follow the mode name. */
  function ParseSegments(mode: BuildMode, r0: string): Option<BuildOpt> {
      var (ctx, r1) := Take(r0, "ctx");
      var (unnest, r2u) := Take(r1, "ses(unnest)");
      var (sesOnly, r2) := if unnest then (false, r2u) else Take(r1, "ses");
      var (aborting, r3a) := Take(r2, "ss(aborting)");
      var (nonAborting, r3) := if aborting then (false, r3a) else Take(r2, "ss(non-aborting)");
      var (icall, r4) := Take(r3, "icall");
      var (ape, r5) := Take(r4, "ape");
      match ParseOffset(r5)
      case None => None
      case Some(off) =>
        Some(BuildOpt(mode, ctx, unnest || sesOnly, aborting || nonAborting, aborting, icall, ape, unnest, off))
  }

  /** `s` is empty or is a segment whose text starts with one of the character pairs `heads`. */
  predicate NextSeg(s: string, heads: set<(char, char)>) {
    s == "" || (|s| >= 3 && s[0] == '+' && (s[1], s[2]) in heads)
  }

  lemma NextSegMono(s: string, heads: set<(char, char)>, more: set<(char, char)>)
    requires NextSeg(s, heads) && heads <= more
    ensures NextSeg(s, more)
  {
  }

  lemma TakeHit(text: string, rest: string)
    ensures Take("+" + text + rest, text) == (true, rest)
  {
    assert "+" + text + rest == ("+" + text) + rest;
    StripPrefixConcat("+" + text, rest);
  }

  lemma TakeMiss(s: string, text: string, heads: set<(char, char)>)
    requires |text| >= 2 && NextSeg(s, heads) && (text[0], text[1]) !in heads
    ensures Take(s, text) == (false, s)
  {
    StartsWithAt(s, "+" + text, 1);
    StartsWithAt(s, "+" + text, 2);
  }

  lemma StartsWithAt(s: string, p: string, i: int)
    requires 0 <= i < |p|
    ensures StartsWith(s, p) ==> s[i] == p[i]
  {
    if StartsWith(s, p) {
      assert s[..|p|][i] == p[i];
    }
  }

  lemma SegNext(on: bool, text: string, rest: string, heads: set<(char, char)>)
    requires |text| >= 2 && (text[0], text[1]) in heads && NextSeg(rest, heads)
    ensures NextSeg(Seg(on, text) + rest, heads)
  {
    if on {
      assert (Seg(on, text) + rest)[1] == text[0] && (Seg(on, text) + rest)[2] == text[1];
    } else {
      assert Seg(on, text) + rest == rest;
    }
  }

  /** One segment is read back as present exactly when it was written. */
  lemma TakeSeg(on: bool, text: string, rest: string, heads: set<(char, char)>)
    requires |text| >= 2 && NextSeg(rest, heads) && (text[0], text[1]) !in heads
    ensures Take(Seg(on, text) + rest, text) == (on, rest)
  {
    if on {
      TakeHit(text, rest);
      assert Seg(on, text) + rest == "+" + text + rest;
    } else {
      assert Seg(on, text) + rest == rest;
      TakeMiss(rest, text, heads);
    }
  }

  lemma ParseOffsetSeg(n: u8)
    ensures ParseOffset(OffsetSeg(n)) == Some(n)
    ensures NextSeg(OffsetSeg(n), {('o', 'f')})
  {
    if n != 0 {
      var d := Decimal.Digits(n);
      Decimal.ValueOfDigits(n);
      Decimal.NoLeadingZero(n);
      assert OffsetSeg(n) == "+off(" + d + ")";
      ParseOffsetText(d, n);
    }
  }

  /** A digit string without a leading zero and below 256, in "+off(" and ")", reads back as its value. */
  lemma ParseOffsetText(d: string, n: u8)
    requires |d| > 0 && AllDigits(d) && d[0] != '0' && Decimal.Value(d) == n as int
    ensures ParseOffset("+off(" + d + ")") == Some(n)
    ensures NextSeg("+off(" + d + ")", {('o', 'f')})
  {
    var r := d + ")";
    assert "+off(" + d + ")" == "+off(" + r;
    StripPrefixConcat("+off(", r);
    assert r[..|r| - 1] == d;
  }

  /** "+ses(unnest)" is told apart from "+ses" and what follows it at the fifth character. */
  lemma TakeSes(o: BuildOpt, rest: string)
    requires NextSeg(rest, {('s', 's'), ('i', 'c'), ('a', 'p'), ('o', 'f')})
    ensures var (u, r) := Take(SesSeg(o) + rest, "ses(unnest)");
      var (p, r') := if u then (false, r) else Take(SesSeg(o) + rest, "ses");
      u == (o.ses && o.unnest) && p == (o.ses && !o.unnest) && r' == rest
  {
    var s := SesSeg(o) + rest;
    if o.ses && o.unnest {
      TakeHit("ses(unnest)", rest);
      assert s == "+" + "ses(unnest)" + rest;
    } else if o.ses {
      assert s == "+" + "ses" + rest;
      StartsWithAt(s, "+ses(unnest)", 4);
      assert |s| > 4 ==> s[4] == rest[0] == '+';
      TakeHit("ses", rest);
    } else {
      assert s == rest;
      TakeMiss(rest, "ses(unnest)", {('s', 's'), ('i', 'c'), ('a', 'p'), ('o', 'f')});
      TakeMiss(rest, "ses", {('s', 's'), ('i', 'c'), ('a', 'p'), ('o', 'f')});
    }
  }

  /** "+ss(aborting)" and "+ss(non-aborting)" differ at the fifth character. */
  lemma TakeSs(o: BuildOpt, rest: string)
    requires NextSeg(rest, {('i', 'c'), ('a', 'p'), ('o', 'f')})
    ensures var (a, r) := Take(SsSeg(o) + rest, "ss(aborting)");
      var (n, r') := if a then (false, r) else Take(SsSeg(o) + rest, "ss(non-aborting)");
      a == (o.ss && o.abortingSs) && n == (o.ss && !o.abortingSs) && r' == rest
  {
    var s := SsSeg(o) + rest;
    if o.ss && o.abortingSs {
      TakeHit("ss(aborting)", rest);
      assert s == "+" + "ss(aborting)" + rest;
    } else if o.ss {
      assert s == "+" + "ss(non-aborting)" + rest;
      StartsWithAt(s, "+ss(aborting)", 4);
      assert s[4] == 'n';
      TakeHit("ss(non-aborting)", rest);
    } else {
      assert s == rest;
      TakeMiss(rest, "ss(aborting)", {('i', 'c'), ('a', 'p'), ('o', 'f')});
      TakeMiss(rest, "ss(non-aborting)", {('i', 'c'), ('a', 'p'), ('o', 'f')});
    }
  }

  /**
   * The identifier names the configuration: reading it back gives the
   * configuration, provided "unnest" implies "ses" and "aborting" implies "ss",
   * as validation ensures.
   */
  lemma ParseIdRoundTrip(o: BuildOpt)
    requires (o.unnest ==> o.ses) && (o.abortingSs ==> o.ss)
    ensures ParseId(Id(o)) == Some(o)
  {
    var r0 := Segments(o);
    ParseSegmentsRoundTrip(o);
    ParseModeName(o.mode, r0);
    assert Id(o) == ModeName(o.mode) + r0;
  }

  /** The feature segments of the identifier, after the mode name. */
  function Segments(o: BuildOpt): string {
    Seg(o.ctx, "ctx") + (SesSeg(o) + (SsSeg(o) + Tail(o)))
  }

  function Tail(o: BuildOpt): string {
    Seg(o.icall, "icall") + (Seg(o.accelRaisePri, "ape") + OffsetSeg(o.romOffset))
  }

  lemma ParseModeName(m: BuildMode, r0: string)
    ensures ParseId(ModeName(m) + r0) == ParseSegments(m, r0)
  {
    ModePrefixName(m, r0);
  }

  /** The mode name is recognised, and exactly it is taken off. */
  lemma ModePrefixName(m: BuildMode, r0: string)
    ensures ModePrefix(ModeName(m) + r0) == Some((m, r0))
  {
    var name := ModeName(m);
    var s := name + r0;
    assert s[..|name|] == name && s[|name|..] == r0;
    if m == ReleaseSmall {
      assert s[7] == 'S';
      StartsWithAt(s, "ReleaseFast", 7);
    }
  }

  lemma ParseTail(o: BuildOpt)
    ensures var (icall, r4) := Take(Tail(o), "icall");
      var (ape, r5) := Take(r4, "ape");
      icall == o.icall && ape == o.accelRaisePri && ParseOffset(r5) == Some(o.romOffset)
    ensures NextSeg(Tail(o), {('i', 'c'), ('a', 'p'), ('o', 'f')})
  {
    var r5 := OffsetSeg(o.romOffset);
    ParseOffsetSeg(o.romOffset);
    var r4 := Seg(o.accelRaisePri, "ape") + r5;
    TakeSeg(o.accelRaisePri, "ape", r5, {('o', 'f')});
    NextSegMono(r5, {('o', 'f')}, {('a', 'p'), ('o', 'f')});
    SegNext(o.accelRaisePri, "ape", r5, {('a', 'p'), ('o', 'f')});
    TakeSeg(o.icall, "icall", r4, {('a', 'p'), ('o', 'f')});
    NextSegMono(r4, {('a', 'p'), ('o', 'f')}, {('i', 'c'), ('a', 'p'), ('o', 'f')});
    SegNext(o.icall, "icall", r4, {('i', 'c'), ('a', 'p'), ('o', 'f')});
  }

  lemma ParseSegmentsRoundTrip(o: BuildOpt)
    requires (o.unnest ==> o.ses) && (o.abortingSs ==> o.ss)
    ensures ParseSegments(o.mode, Segments(o)) == Some(o)
  {
    var r3 := Tail(o);
    var r2 := SsSeg(o) + r3;
    var r1 := SesSeg(o) + r2;
    ParseTail(o);
    assert NextSeg(r2, {('s', 's'), ('i', 'c'), ('a', 'p'), ('o', 'f')}) by {
      NextSegMono(r3, {('i', 'c'), ('a', 'p'), ('o', 'f')}, {('s', 's'), ('i', 'c'), ('a', 'p'), ('o', 'f')});
      SegNext(o.ss, if o.abortingSs then "ss(aborting)" else "ss(non-aborting)", r3,
        {('s', 's'), ('i', 'c'), ('a', 'p'), ('o', 'f')});
    }
    assert NextSeg(r1, {('s', 'e'), ('s', 's'), ('i', 'c'), ('a', 'p'), ('o', 'f')}) by {
      NextSegMono(r2, {('s', 's'), ('i', 'c'), ('a', 'p'), ('o', 'f')},
        {('s', 'e'), ('s', 's'), ('i', 'c'), ('a', 'p'), ('o', 'f')});
      SegNext(o.ses, if o.unnest then "ses(unnest)" else "ses", r2,
        {('s', 'e'), ('s', 's'), ('i', 'c'), ('a', 'p'), ('o', 'f')});
    }
    assert Take(Segments(o), "ctx") == (o.ctx, r1) by {
      TakeSeg(o.ctx, "ctx", r1, {('s', 'e'), ('s', 's'), ('i', 'c'), ('a', 'p'), ('o', 'f')});
    }
    TakeSes(o, r2);
    TakeSs(o, r3);
  }

  /** Distinct valid configurations have distinct identifiers, so their output files do not collide. */
  lemma IdInjective(a: BuildOpt, b: BuildOpt)
    requires Valid(a) && Valid(b) && Id(a) == Id(b)
    ensures a == b
  {
    assert !Violates(a, Rules[3]) && !Violates(a, Rules[5]);
    assert !Violates(b, Rules[3]) && !Violates(b, Rules[5]);
    ParseIdRoundTrip(a);
    ParseIdRoundTrip(b);
  }

  // ---------------------------------------------------------------------------
  // The `zig build` flags (`append_zig_buld_opts_to`)

  /** One flag of the list; `FlagText` spells it. */
  datatype Flag =
    | Release(mode: BuildMode)
    | CfiOff
    | CfiCtx
    | CfiSes
    | CfiUnnest
    | CfiSs
    | CfiAbortingSs
    | CfiIcall
    | AccelRaisePri(on: bool)
    | RomOffset(n: u8)

  function FlagText(f: Flag): string {
    match f
    case Release(ReleaseFast) => "-Drelease-fast"
    case Release(ReleaseSmall) => "-Drelease-small"
    case CfiOff => "-Dcfi=false"
    case CfiCtx => "-Dcfi-ctx"
    case CfiSes => "-Dcfi-ses"
    case CfiUnnest => "-Dcfi-unnest"
    case CfiSs => "-Dcfi-ss"
    case CfiAbortingSs => "-Dcfi-aborting-ss"
    case CfiIcall => "-Dcfi-icall"
    case AccelRaisePri(on) => if on then "-Daccel-raise-pri" else "-Daccel-raise-pri=false"
    case RomOffset(n) => "-Drom-offset=" + Decimal.Digits(n)
  }

  /** Reads one flag back from its spelling. */
  function ParseFlag(t: string): Option<Flag> {
    if StartsWith(t, "-Drom-offset=") then
      var d := t[13..];
      if AllDigits(d) && Decimal.Value(d) < 256 then Some(RomOffset(Decimal.Value(d))) else None
    else if t == "-Drelease-fast" then Some(Release(ReleaseFast))
    else if t == "-Drelease-small" then Some(Release(ReleaseSmall))
    else if t == "-Dcfi=false" then Some(CfiOff)
    else if t == "-Dcfi-ctx" then Some(CfiCtx)
    else if t == "-Dcfi-ses" then Some(CfiSes)
    else if t == "-Dcfi-unnest" then Some(CfiUnnest)
    else if t == "-Dcfi-ss" then Some(CfiSs)
    else if t == "-Dcfi-aborting-ss" then Some(CfiAbortingSs)
    else if t == "-Dcfi-icall" then Some(CfiIcall)
    else if t == "-Daccel-raise-pri" then Some(AccelRaisePri(true))
    else if t == "-Daccel-raise-pri=false" then Some(AccelRaisePri(false))
    else None
  }

  /** Every flag is spelled differently: reading the spelling back gives the flag. */
  lemma ParseFlagText(f: Flag)
    ensures ParseFlag(FlagText(f)) == Some(f)
  {
    var t := FlagText(f);
    StartsWithAt(t, "-Drom-offset=", 3);
    if f.RomOffset? {
      StripPrefixConcat("-Drom-offset=", Decimal.Digits(f.n));
      Decimal.ValueOfDigits(f.n);
      assert t[13..] == Decimal.Digits(f.n);
    }
  }

  function Opt(on: bool, f: Flag): seq<Flag> {
    if on then [f] else []
  }

  /**
   * `append_zig_buld_opts_to`: the flags in the order they are appended.
   * They start with the mode and "-Dcfi=false"; the
   * accelerated-raise-privilege switch appears in exactly one polarity; the
   * ROM offset comes last, and only when it is not zero.
   */
  function Flags(o: BuildOpt): (r: seq<Flag>)
    ensures |r| >= 3 && r[0] == Release(o.mode) && r[1] == CfiOff
    ensures AccelRaisePri(o.accelRaisePri) in r && AccelRaisePri(!o.accelRaisePri) !in r
    ensures r[|r| - 1].RomOffset? <==> o.romOffset != 0
    ensures o.romOffset != 0 ==> r[|r| - 1] == RomOffset(o.romOffset)
  {
    [Release(o.mode), CfiOff] + Opt(o.ctx, CfiCtx) + Opt(o.ses, CfiSes) + Opt(o.unnest, CfiUnnest)
      + Opt(o.ss, CfiSs) + Opt(o.abortingSs, CfiAbortingSs) + Opt(o.icall, CfiIcall)
      + [AccelRaisePri(o.accelRaisePri)] + Opt(o.romOffset != 0, RomOffset(o.romOffset))
  }

  /** The command-line arguments the flags become. */
  function FlagArgs(o: BuildOpt): (r: seq<string>)
    ensures |r| == |Flags(o)| && forall i :: 0 <= i < |r| ==> r[i] == FlagText(Flags(o)[i])
  {
    seq(|Flags(o)|, i requires 0 <= i < |Flags(o)| => FlagText(Flags(o)[i]))
  }

  /** The configuration a flag list selects. */
  function ReadFlags(fs: seq<Flag>): BuildOpt {
    BuildOpt(
      if Release(ReleaseSmall) in fs then ReleaseSmall else ReleaseFast,
      CfiCtx in fs, CfiSes in fs, CfiSs in fs, CfiAbortingSs in fs, CfiIcall in fs,
      AccelRaisePri(true) in fs, CfiUnnest in fs,
      if |fs| > 0 && fs[|fs| - 1].RomOffset? then fs[|fs| - 1].n else 0)
  }

  /** Whether `Flags(o)` holds the flag `g`, read off the configuration. */
  predicate FlagOn(o: BuildOpt, g: Flag) {
    match g
    case Release(m) => m == o.mode
    case CfiOff => true
    case CfiCtx => o.ctx
    case CfiSes => o.ses
    case CfiUnnest => o.unnest
    case CfiSs => o.ss
    case CfiAbortingSs => o.abortingSs
    case CfiIcall => o.icall
    case AccelRaisePri(on) => on == o.accelRaisePri
    case RomOffset(n) => o.romOffset != 0 && n == o.romOffset
  }

  lemma InOpt(on: bool, f: Flag, g: Flag)
    ensures g in Opt(on, f) <==> on && g == f
  {
  }

  /**
   * The flags hold the mode, "-Dcfi=false", each feature flag exactly when
   * its switch is on, the accelerated-raise-privilege switch in its one
   * polarity, and the ROM offset exactly when it is not zero.
   */
  lemma InFlags(o: BuildOpt, g: Flag)
    ensures g in Flags(o) <==> FlagOn(o, g)
  {
    if g.Release? || g.CfiOff? || g.AccelRaisePri? || g.RomOffset? {
      InFixedFlags(o, g);
    } else if g == CfiCtx || g == CfiSes || g == CfiUnnest {
      InContextFlags(o, g);
    } else {
      InStackFlags(o, g);
    }
  }

  /** The flags every build has, and the ROM offset. */
  lemma InFixedFlags(o: BuildOpt, g: Flag)
    requires g.Release? || g.CfiOff? || g.AccelRaisePri? || g.RomOffset?
    ensures g in Flags(o) <==> FlagOn(o, g)
  {
    InOpts(o, g);
  }

  /** Context management, the secure exception stack and unnesting: each present exactly when on. */
  lemma InContextFlags(o: BuildOpt, g: Flag)
    requires g == CfiCtx || g == CfiSes || g == CfiUnnest
    ensures g in Flags(o) <==> FlagOn(o, g)
  {
    InOpts(o, g);
  }

  /** The shadow stack, its aborting mode and indirect-call checks: each present exactly when on. */
  lemma InStackFlags(o: BuildOpt, g: Flag)
    requires g == CfiSs || g == CfiAbortingSs || g == CfiIcall
    ensures g in Flags(o) <==> FlagOn(o, g)
  {
    InOpts(o, g);
  }

  /** Membership of `g` in each optional piece of the flags. */
  lemma InOpts(o: BuildOpt, g: Flag)
    ensures g in Opt(o.ctx, CfiCtx) <==> o.ctx && g == CfiCtx
    ensures g in Opt(o.ses, CfiSes) <==> o.ses && g == CfiSes
    ensures g in Opt(o.unnest, CfiUnnest) <==> o.unnest && g == CfiUnnest
    ensures g in Opt(o.ss, CfiSs) <==> o.ss && g == CfiSs
    ensures g in Opt(o.abortingSs, CfiAbortingSs) <==> o.abortingSs && g == CfiAbortingSs
    ensures g in Opt(o.icall, CfiIcall) <==> o.icall && g == CfiIcall
    ensures g in Opt(o.romOffset != 0, RomOffset(o.romOffset)) <==>
              o.romOffset != 0 && g == RomOffset(o.romOffset)
  {
    InOpt(o.ctx, CfiCtx, g);
    InOpt(o.ses, CfiSes, g);
    InOpt(o.unnest, CfiUnnest, g);
    InOpt(o.ss, CfiSs, g);
    InOpt(o.abortingSs, CfiAbortingSs, g);
    InOpt(o.icall, CfiIcall, g);
    InOpt(o.romOffset != 0, RomOffset(o.romOffset), g);
  }

  /** The flags select exactly the configuration they were made from. */
  lemma FlagsRoundTrip(o: BuildOpt)
    ensures ReadFlags(Flags(o)) == o
  {
    forall g | true
      ensures g in Flags(o) <==> FlagOn(o, g)
    {
      InFlags(o, g);
    }
    ReadFlagsOf(o, Flags(o));
  }

  /** Any flag list with the members and the last flag `Flags(o)` has selects `o`. */
  lemma ReadFlagsOf(o: BuildOpt, fs: seq<Flag>)
    requires forall g :: g in fs <==> FlagOn(o, g)
    requires |fs| > 0 && (fs[|fs| - 1].RomOffset? <==> o.romOffset != 0)
    requires o.romOffset != 0 ==> fs[|fs| - 1] == RomOffset(o.romOffset)
    ensures ReadFlags(fs) == o
  {
    assert FlagOn(o, Release(o.mode));
    assert (Release(ReleaseSmall) in fs) == (o.mode == ReleaseSmall);
    assert (AccelRaisePri(true) in fs) == o.accelRaisePri;
  }

  // ---------------------------------------------------------------------------
  // Enumeration of the valid configurations

  /** The ROM offsets tried: all four when varying, otherwise only 0. */
  function RomOffsets(vary: bool): seq<int> {
    if vary then [0, 4, 8, 12] else [0]
  }

  function Bit(b: bool): int {
    if b then 1 else 0
  }

  /**
   * The coordinates of a configuration in the order the product nests them:
   * mode, ctx, ses, unnest, ss, aborting_ss, icall, accel_raise_pri,
   * rom_offset, each a value of the list `Domains` gives for it.
   */
  function Key(o: BuildOpt): seq<int> {
    [if o.mode == ReleaseFast then 0 else 1, Bit(o.ctx), Bit(o.ses), Bit(o.unnest), Bit(o.ss),
     Bit(o.abortingSs), Bit(o.icall), Bit(o.accelRaisePri), o.romOffset]
  }

  function Domains(vary: bool): seq<seq<int>> {
    [[0, 1], [0, 1], [0, 1], [0, 1], [0, 1], [0, 1], [0, 1], [0, 1], RomOffsets(vary)]
  }

  predicate Coordinates(t: seq<int>) {
    |t| == 9 && 0 <= t[8] < 256
  }

  /** The configuration at the given coordinates. */
  function OptionOf(t: seq<int>): BuildOpt
    requires Coordinates(t)
  {
    BuildOpt(if t[0] == 0 then ReleaseFast else ReleaseSmall, t[1] != 0, t[2] != 0, t[4] != 0,
             t[5] != 0, t[6] != 0, t[7] != 0, t[3] != 0, t[8])
  }

  lemma OptionOfKey(o: BuildOpt)
    ensures Coordinates(Key(o)) && OptionOf(Key(o)) == o
  {
  }

  lemma KeyOptionOf(vary: bool, t: seq<int>)
    requires Tuples.Within(t, Domains(vary))
    ensures Coordinates(t) && Key(OptionOf(t)) == t
  {
    var d := Domains(vary);
    forall k | 0 <= k < 8
      ensures t[k] == 0 || t[k] == 1
    {
      assert t[k] in d[k];
    }
    assert t[8] in d[8];
    var key := Key(OptionOf(t));
    assert key[0] == t[0] && key[1] == t[1] && key[2] == t[2] && key[3] == t[3];
    assert key[4] == t[4] && key[5] == t[5] && key[6] == t[6] && key[7] == t[7];
  }

  lemma WithinKey(vary: bool, o: BuildOpt)
    ensures Tuples.Within(Key(o), Domains(vary)) <==> o.romOffset in RomOffsets(vary)
  {
    var d := Domains(vary);
    var key := Key(o);
    if o.romOffset in RomOffsets(vary) {
      forall k | 0 <= k < 9
        ensures key[k] in d[k]
      {
        if k < 8 {
          assert d[k] == [0, 1];
        }
      }
    }
    if Tuples.Within(key, d) {
      assert key[8] in d[8];
    }
  }

  lemma ProductCoordinates(vary: bool)
    ensures forall t :: t in Tuples.Product(Domains(vary)) ==> Coordinates(t)
  {
    forall t | t in Tuples.Product(Domains(vary))
      ensures Coordinates(t)
    {
      Tuples.ProductMembers(Domains(vary), t);
      KeyOptionOf(vary, t);
    }
  }

  /** Every combination of switch values and ROM offsets, in `iproduct!` order. */
  function Candidates(vary: bool): seq<BuildOpt> {
    var ts := Tuples.Product(Domains(vary));
    ProductCoordinates(vary);
    seq(|ts|, i requires 0 <= i < |ts| => OptionOf(ts[i]))
  }

  /** The configurations `validate` accepts, in their original order. */
  function KeepValid(s: seq<BuildOpt>): (r: seq<BuildOpt>)
    ensures forall o :: o in r <==> o in s && Valid(o)
  {
    if |s| == 0 then []
    else if Valid(s[0]) then [s[0]] + KeepValid(s[1..])
    else KeepValid(s[1..])
  }

  /** `all_valid_values`: the product filtered by `validate`. */
  function AllValidValues(vary: bool): seq<BuildOpt> {
    KeepValid(Candidates(vary))
  }

  predicate KeysSorted(s: seq<BuildOpt>) {
    forall i, j :: 0 <= i < j < |s| ==> Tuples.LexLess(Key(s[i]), Key(s[j]))
  }

  lemma CandidateMembers(vary: bool, o: BuildOpt)
    ensures o in Candidates(vary) <==> o.romOffset in RomOffsets(vary)
  {
    var ts := Tuples.Product(Domains(vary));
    var c := Candidates(vary);
    if o in c {
      var i :| 0 <= i < |c| && c[i] == o;
      Tuples.ProductMembers(Domains(vary), ts[i]);
      KeyOptionOf(vary, ts[i]);
      OptionOfKey(o);
      WithinKey(vary, o);
    }
    if o.romOffset in RomOffsets(vary) {
      WithinKey(vary, o);
      Tuples.ProductMembers(Domains(vary), Key(o));
      var i :| 0 <= i < |ts| && ts[i] == Key(o);
      OptionOfKey(o);
      assert c[i] == o;
    }
  }

  /**
   * The enumeration is complete and sound: it holds exactly the valid
   * configurations whose ROM offset is one of those tried.
   */
  lemma AllValidValuesMembers(vary: bool, o: BuildOpt)
    ensures o in AllValidValues(vary) <==> Valid(o) && o.romOffset in RomOffsets(vary)
  {
    CandidateMembers(vary, o);
  }

  lemma CandidatesSorted(vary: bool)
    ensures KeysSorted(Candidates(vary))
  {
    var ts := Tuples.Product(Domains(vary));
    var c := Candidates(vary);
    Tuples.ProductSorted(Domains(vary));
    forall i | 0 <= i < |c|
      ensures Key(c[i]) == ts[i]
    {
      Tuples.ProductMembers(Domains(vary), ts[i]);
      KeyOptionOf(vary, ts[i]);
    }
  }

  lemma {:induction false} KeepValidSorted(s: seq<BuildOpt>)
    requires KeysSorted(s)
    ensures KeysSorted(KeepValid(s))
  {
    if |s| > 0 {
      assert KeysSorted(s[1..]) by {
        forall i, j | 0 <= i < j < |s[1..]|
          ensures Tuples.LexLess(Key(s[1..][i]), Key(s[1..][j]))
        {
          assert s[1..][i] == s[i + 1] && s[1..][j] == s[j + 1];
        }
      }
      KeepValidSorted(s[1..]);
      if Valid(s[0]) {
        var r := KeepValid(s[1..]);
        forall i, j | 0 <= i < j < |[s[0]] + r|
          ensures Tuples.LexLess(Key(([s[0]] + r)[i]), Key(([s[0]] + r)[j]))
        {
          if i == 0 {
            assert ([s[0]] + r)[j] == r[j - 1];
            assert r[j - 1] in s[1..];
            var k :| 0 <= k < |s[1..]| && s[1..][k] == r[j - 1];
            assert s[k + 1] == r[j - 1];
          } else {
            assert ([s[0]] + r)[i] == r[i - 1] && ([s[0]] + r)[j] == r[j - 1];
          }
        }
      }
    }
  }

  /**
   * The valid configurations come in strictly increasing order of their
   * coordinates, so none is listed twice.
   */
  lemma AllValidValuesOrdered(vary: bool)
    ensures KeysSorted(AllValidValues(vary))
    ensures Tuples.Distinct(AllValidValues(vary))
  {
    CandidatesSorted(vary);
    KeepValidSorted(Candidates(vary));
    var a := AllValidValues(vary);
    forall i, j | 0 <= i < j < |a|
      ensures a[i] != a[j]
    {
      Tuples.LexLessIrreflexive(Key(a[i]));
    }
  }
}
