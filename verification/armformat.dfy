/**
 * Rendering of ARM instructions back to assembly text
 * (tools/patch/src/arm/format.rs). Where the source panics (a register
 * number outside the table, an `LDR` shape it cannot print), the rendering
 * is `None`.
 */
module ArmFormat {
  import opened Wrappers
  import opened ArmInst
  import Decimal
  import Strings

  /** The register names, indexed by register number. */
  function GprNames(): (ns: seq<string>)
    ensures |ns| == 16
  {
    ["r0", "r1", "r2", "r3", "r4", "r5", "r6", "r7", "r8", "r9", "r10", "r11", "r12",
     "sp", "lr", "pc"]
  }

  /** `Display for Gpr`: `r0` to `r12`, then `sp`, `lr`, `pc`. */
  function GprText(g: Gpr): (r: Option<string>)
    ensures r.Some? <==> IsRegister(g)
  {
    if g < 16 then Some(GprNames()[g]) else None
  }

  /** Registers 13 to 15 print under their aliases, the others as `r` and the number. */
  lemma GprTextShape(g: Gpr)
    requires IsRegister(g)
    ensures g < 13 ==> GprText(g) == Some("r" + Decimal.SignedText(g))
    ensures g == 13 ==> GprText(g) == Some("sp")
    ensures g == 14 ==> GprText(g) == Some("lr")
    ensures g == 15 ==> GprText(g) == Some("pc")
  {
    if g < 13 {
      if g == 0 {
        assert GprNames()[0] == "r0";
        assert Decimal.SignedText(0) == "0";
        assert "r" + "0" == "r0";
      } else if g < 10 {
        assert Decimal.Digits(g / 10) == "";
        assert Decimal.SignedText(g) == Decimal.Digits(g / 10) + [Decimal.DigitChar(g % 10)];
        assert GprNames()[g] == ['r', Decimal.DigitChar(g)];
        assert Decimal.SignedText(g) == [Decimal.DigitChar(g)];
        assert "r" + [Decimal.DigitChar(g)] == ['r', Decimal.DigitChar(g)];
      } else {
        assert Decimal.Digits(g / 10) == "1";
        assert Decimal.SignedText(g) == Decimal.Digits(g / 10) + [Decimal.DigitChar(g % 10)];
        assert GprNames()[g] == ['r', '1', Decimal.DigitChar(g - 10)];
        assert g % 10 == g - 10;
        assert Decimal.SignedText(g) == ['1', Decimal.DigitChar(g - 10)];
        assert "r" + ['1', Decimal.DigitChar(g - 10)] == ['r', '1', Decimal.DigitChar(g - 10)];
      }
    }
  }

  /** The condition suffixes, indexed by discriminant; `Always` prints nothing. */
  function CondTexts(): (ts: seq<string>)
    ensures |ts| == 15
  {
    ["eq", "ne", "cs", "cc", "mi", "pl", "vs", "vc", "hi", "ls", "ge", "lt", "gt", "le", ""]
  }

  /** `Display for Cond`. */
  function CondText(c: Cond): (s: string)
    ensures s == "" <==> c == Always
    ensures c != Always ==> |s| == 2
  {
    CondTexts()[Value(c)]
  }

  /** The names of a list of registers, or `None` if one of them has no name. */
  function GprListText(gs: seq<Gpr>): (r: Option<seq<string>>)
    ensures r.Some? <==> forall k :: 0 <= k < |gs| ==> IsRegister(gs[k])
    ensures r.Some? ==> |r.value| == |gs| &&
                        forall k :: 0 <= k < |gs| ==> Some(r.value[k]) == GprText(gs[k])
  {
    if gs == [] then Some([])
    else match (GprText(gs[0]), GprListText(gs[1..]))
      case (Some(x), Some(xs)) => Some([x] + xs)
      case _ => None
  }

  /** `Display for GprSet`: the members in ascending order, separated by ", ". */
  function GprSetText(s: GprSet): (r: Option<string>)
    ensures r.Some? <==> forall j :: 16 <= j < 32 ==> !s[j]
  {
    var ms := Members(s);
    match GprListText(ms)
    case Some(names) => Some(Strings.Join(names, ", "))
    case None =>
      assert exists k :: 0 <= k < |ms| && !IsRegister(ms[k]);
      None
  }

  lemma GprSetTextSingle(g: Gpr)
    requires IsRegister(g)
    ensures GprSetText(From(g)) == GprText(g)
  {
    MembersFromSingle(g);
  }

  /** `Display for Value`: an immediate or label as written, a register by name. */
  function OperandText(v: Operand): (r: Option<string>)
    ensures r.None? <==> v.Reg? && !IsRegister(v.gpr)
  {
    match v
    case Imm(x) => Some(x)
    case Label(x) => Some(x)
    case Reg(g) => GprText(g)
  }

  /** `Display for Disp`: `#x`, a register, or a register with `lsl #s`. */
  function DispText(d: Disp): (r: Option<string>)
    ensures r.None? <==> d.DispReg? && !IsRegister(d.gpr)
    ensures d.DispImm? ==> r == Some("#" + Decimal.SignedText(d.imm))
  {
    match d
    case DispImm(x) => Some("#" + Decimal.SignedText(x))
    case DispReg(g, 0) => GprText(g)
    case DispReg(g, shift) =>
      match GprText(g)
      case Some(t) => Some(t + ", lsl #" + Decimal.SignedText(shift))
      case None => None
  }

  /** `Option` sequencing of the pieces of an instruction's text. */
  function Concat(parts: seq<Option<string>>): (r: Option<string>)
    ensures r.Some? <==> forall k :: 0 <= k < |parts| ==> parts[k].Some?
  {
    if parts == [] then Some("")
    else match (parts[0], Concat(parts[1..]))
      case (Some(x), Some(y)) => Some(x + y)
      case _ => None
  }

  /** The mnemonic of a branch: `b`, then `l`, `x`, `ns` as they apply, then the condition. */
  function BranchMnemonic(link: bool, toRegister: bool, nonsecure: bool, c: Cond): string {
    "b" + (if link then "l" else "") + (if toRegister then "x" else "") +
    (if nonsecure then "ns" else "") + CondText(c)
  }

  /**
   * The `LDR`/`LDM` shapes the formatter can print, in the order its match
   * tries them, and `None` for the shape it panics on.
   */
  function LoadText(address: Operand, disp: Disp, wb: Option<WriteBackMode>, regs: GprSet, c: Cond): Option<string> {
    var cond := Some(CondText(c));
    var addr := OperandText(address);
    match Unique(regs)
    case Some(to) =>
      var dest := GprText(to);
      if address.Label? then
        if disp != DispImm(0) || wb != None then None
        else Concat([Some("ldr"), cond, Some(" "), dest, Some(", "), Some(address.text)])
      else if disp == DispImm(0) && wb == None then
        Concat([Some("ldr"), cond, Some(" "), dest, Some(", ["), addr, Some("]")])
      else if wb == None then
        Concat([Some("ldr"), cond, Some(" "), dest, Some(", ["), addr, Some(", "), DispText(disp), Some("]")])
      else if disp.DispImm? && wb == Some(PreIndex) then
        Concat([Some("ldr"), cond, Some(" "), dest, Some(", ["), addr, Some(", #"),
                Some(Decimal.SignedText(disp.imm)), Some("]!")])
      else if disp.DispImm? then
        Concat([Some("ldr"), cond, Some(" "), dest, Some(", ["), addr, Some("], #"),
                Some(Decimal.SignedText(disp.imm))])
      else None
    case None =>
      if disp == DispImm(-4) && wb == Some(PreIndex) then
        Concat([Some("ldmdb"), cond, Some(" "), addr, Some("!, {"), GprSetText(regs), Some("}")])
      else if disp == DispImm(4) && wb == Some(PostIndex) then
        Concat([Some("ldmia"), cond, Some(" "), addr, Some("!, {"), GprSetText(regs), Some("}")])
      else None
  }

  /** `Display for ArmDirective`. */
  function Format(d: ArmDirective): Option<string> {
    match d
    case Misc(kind, c, rest) => Some(MiscName(kind) + CondText(c) + " " + rest)
    case Instruction(Inst(Branch(target, link, ns), c)) =>
      Concat([Some(BranchMnemonic(link, target.Reg?, ns, c)), Some(" "), OperandText(target)])
    case Instruction(Inst(LoadGpr(address, disp, wb, regs), c)) =>
      LoadText(address, disp, wb, regs, c)
  }

  /** A branch prints as its mnemonic, a space and its target; `x` marks exactly the register targets. */
  lemma FormatBranch(target: Operand, link: bool, ns: bool, c: Cond)
    requires OperandText(target).Some?
    ensures var m := BranchMnemonic(link, target.Reg?, ns, c);
            Format(Instruction(Inst(Branch(target, link, ns), c))) == Some(m + " " + OperandText(target).value)
  {
    var m := BranchMnemonic(link, target.Reg?, ns, c);
    var t := OperandText(target).value;
    var parts := [Some(m), Some(" "), Some(t)];
    assert parts[1..][1..][1..] == [];
    assert Concat(parts[1..][1..]) == Some(t + "");
    assert Concat(parts[1..]) == Some(" " + (t + ""));
    assert t + "" == t;
    assert Format(Instruction(Inst(Branch(target, link, ns), c))) == Concat(parts);
    assert m + (" " + t) == m + " " + t;
  }

  /**
   * A load of a single register from a label must have no displacement and
   * no write-back; a multi-register load prints only as `ldmdb` (pre-indexed
   * by -4) or `ldmia` (post-indexed by 4). Everything else panics.
   */
  lemma LoadShapes(address: Operand, disp: Disp, wb: Option<WriteBackMode>, regs: GprSet, c: Cond)
    ensures Unique(regs).Some? && address.Label? && (disp != DispImm(0) || wb != None) ==>
              LoadText(address, disp, wb, regs, c).None?
    ensures Unique(regs).None? && LoadText(address, disp, wb, regs, c).Some? ==>
              (disp == DispImm(-4) && wb == Some(PreIndex)) || (disp == DispImm(4) && wb == Some(PostIndex))
    ensures Unique(regs).Some? && disp.DispReg? && wb.Some? ==> LoadText(address, disp, wb, regs, c).None?
  {
  }
}
