/**
 * The Armv8-M instruction vocabulary of the assembler patcher
 * (Patcher/src/arm/inst.rs): registers, register sets, condition codes and
 * the two instruction shapes it rewrites, branches and register loads.
 */
module ArmInst {
  import opened Wrappers

  /** `Gpr(u8)`: a register number; only 0 to 15 name a register. */
  type Gpr = x: nat | x < 256

  predicate IsRegister(g: Gpr) {
    g < 16
  }

  // ---------------------------------------------------------------------------
  // Register sets

  /** `GprSet(u32)`: bit `i` is set when register `i` is a member. */
  type GprSet = s: seq<bool> | |s| == 32 witness seq(32, _ => false)

  /** `bit_scan_forward(from)`: the lowest set bit at or above `from`, or 32 when there is none. */
  function LowestSet(s: GprSet, from: nat): (i: nat)
    requires from <= 32
    ensures from <= i <= 32
    ensures i < 32 ==> s[i]
    ensures forall j :: from <= j < i ==> !s[j]
    decreases 32 - from
  {
    if from == 32 then 32 else if s[from] then from else LowestSet(s, from + 1)
  }

  /** The set `1 << i`. */
  function Single(i: nat): (r: GprSet)
    requires i < 32
    ensures forall j :: 0 <= j < 32 ==> (r[j] <==> j == i)
  {
    seq(32, j => j == i)
  }

  /** `unique`: the only member of a singleton set, and nothing otherwise. */
  function Unique(s: GprSet): (r: Option<Gpr>)
    ensures r.Some? ==> r.value < 32 && s == Single(r.value)
  {
    var i := LowestSet(s, 0);
    if i < 32 && s == Single(i) then Some(i) else None
  }

  /** `unique` recognises exactly the singletons. */
  lemma UniqueIff(s: GprSet, g: nat)
    requires g < 32
    ensures Unique(s) == Some(g) <==> s == Single(g)
  {
    if s == Single(g) {
      assert s[g];
      assert LowestSet(s, 0) == g;
    }
  }

  /** `From<Gpr> for GprSet`: the set holding just `g`. */
  function From(g: Gpr): (r: GprSet)
    requires IsRegister(g)
    ensures forall j :: 0 <= j < 32 ==> (r[j] <==> j == g)
  {
    Single(g)
  }

  lemma UniqueFrom(g: Gpr)
    requires IsRegister(g)
    ensures Unique(From(g)) == Some(g)
  {
    UniqueIff(From(g), g);
  }

  /** `iter`: the members at or above `from`, in ascending order. */
  function MembersFrom(s: GprSet, from: nat): (r: seq<Gpr>)
    requires from <= 32
    ensures forall k :: 0 <= k < |r| ==> from <= r[k] < 32 && s[r[k]]
    ensures forall k, l :: 0 <= k < l < |r| ==> r[k] < r[l]
    ensures forall j :: from <= j < 32 && s[j] ==> j in r
    decreases 32 - from
  {
    if from == 32 then []
    else if s[from] then [from as Gpr] + MembersFrom(s, from + 1)
    else MembersFrom(s, from + 1)
  }

  /** `iter`: every member exactly once, in ascending order. */
  function Members(s: GprSet): (r: seq<Gpr>)
    ensures forall k :: 0 <= k < |r| ==> r[k] < 32 && s[r[k]]
    ensures forall k, l :: 0 <= k < l < |r| ==> r[k] < r[l]
    ensures forall j :: 0 <= j < 32 ==> (s[j] <==> j in r)
  {
    MembersFrom(s, 0)
  }

  /** A singleton iterates as its one register. */
  lemma MembersFromSingle(g: Gpr)
    requires IsRegister(g)
    ensures Members(From(g)) == [g]
  {
    MembersAbove(g, 0);
  }

  lemma {:induction false} MembersAbove(g: Gpr, from: nat)
    requires g < 32 && from <= 32
    ensures MembersFrom(Single(g), from) == if from <= g then [g] else []
    decreases 32 - from
  {
    if from < 32 {
      MembersAbove(g, from + 1);
    }
  }

  // ---------------------------------------------------------------------------
  // Condition codes

  /** `Cond`, whose discriminants are the Armv8-M condition encodings 0 to 13; `Always` is `Cond::None` (14). */
  datatype Cond =
    | Equal | NotEqual | CarrySet | CarryClear | Minus | Plus | Overflow | NoOverflow
    | UnsignedGreaterThanOrEqual | UnsignedLessThan | SignedGreaterThanOrEqual
    | SignedLessThan | SignedGreaterThan | SignedLessThanOrEqual | Always

  /** The discriminant, `cond as u8`. */
  function Value(c: Cond): (v: nat)
    ensures v < 15
  {
    match c
    case Equal => 0
    case NotEqual => 1
    case CarrySet => 2
    case CarryClear => 3
    case Minus => 4
    case Plus => 5
    case Overflow => 6
    case NoOverflow => 7
    case UnsignedGreaterThanOrEqual => 8
    case UnsignedLessThan => 9
    case SignedGreaterThanOrEqual => 10
    case SignedLessThan => 11
    case SignedGreaterThan => 12
    case SignedLessThanOrEqual => 13
    case Always => 14
  }

  /** The variants in declaration order. */
  function Conds(): (cs: seq<Cond>)
    ensures |cs| == 15
  {
    [Equal, NotEqual, CarrySet, CarryClear, Minus, Plus, Overflow, NoOverflow,
     UnsignedGreaterThanOrEqual, UnsignedLessThan, SignedGreaterThanOrEqual,
     SignedLessThan, SignedGreaterThan, SignedLessThanOrEqual, Always]
  }

  /** `from_value` (a `u32`): the condition whose discriminant is `x`, when there is one. */
  function FromValue(x: nat): (r: Option<Cond>)
    ensures r.Some? <==> x < 15
    ensures r.Some? ==> Value(r.value) == x
  {
    if x < 15 then
      assert forall i :: 0 <= i < 15 ==> Value(Conds()[i]) == i;
      Some(Conds()[x])
    else None
  }

  lemma FromValueValue(c: Cond)
    ensures FromValue(Value(c)) == Some(c)
  {
  }

  // ---------------------------------------------------------------------------
  // Instructions

  datatype WriteBackMode = PostIndex | PreIndex

  /** `Value<&str>`: an immediate or a label as written, or a register. */
  datatype Operand = Imm(text: string) | Label(text: string) | Reg(gpr: Gpr)

  predicate IsI32(x: int) {
    -0x8000_0000 <= x < 0x8000_0000
  }

  /** `Disp`: an `i32` displacement, or a register shifted left by a `u8`. */
  datatype Disp = DispImm(imm: int) | DispReg(gpr: Gpr, shift: nat)

  predicate ValidDisp(d: Disp) {
    match d
    case DispImm(x) => IsI32(x)
    case DispReg(_, s) => s < 256
  }

  datatype InstKind =
    | Branch(target: Operand, link: bool, nonsecure: bool)
    | LoadGpr(address: Operand, disp: Disp, writeBack: Option<WriteBackMode>, regs: GprSet)

  datatype Inst = Inst(kind: InstKind, cond: Cond)

  /** `ArmMiscDirective`: instructions passed through untouched. */
  datatype MiscKind = Adc

  /** `ArmMiscDirective::as_str`. */
  function MiscName(k: MiscKind): string {
    match k
    case Adc => "adc"
  }

  /** `ArmDirective`: a recognised instruction, or a condition-suffixed pass-through. */
  datatype ArmDirective = Instruction(inst: Inst) | Misc(kind: MiscKind, cond: Cond, rest: string)
}
