/**
 * The ARM layer over the GNU assembler directives (Patcher/src/gasio/arm.rs):
 * a statement is first looked up, ignoring case, in the ARM table, which
 * holds only `adc`; any other key is handed to the GAS directive table.
 */
module GasArm {
  import opened Wrappers
  import ArmInst
  import Strings
  import Table
  import GasDirectives

  /** `ArmDirective<'a>`: an instruction passed through with its operands. */
  datatype ArmDirective = Misc(kind: ArmInst.MiscKind, rest: string)

  /** `Directive<'a, ArmDirective>`: a GAS directive or an ARM one. */
  datatype Directive = Gas(gas: GasDirectives.GasDirective) | Target(target: ArmDirective)

  /** `MAP`: one handler per ARM pass-through instruction, keyed by its name. */
  function Map(): seq<(string, ArmInst.MiscKind)> {
    [(ArmInst.MiscName(ArmInst.Adc), ArmInst.Adc)]
  }

  /**
   * `from_raw_directive`: the ARM table wins, in any case; otherwise the
   * result, or the error, of the GAS lookup.
   */
  function FromRaw(key: string, rest: string): (r: Result<Directive, string>)
    ensures Strings.Lower(key) == "adc" ==> r == Ok(Target(Misc(ArmInst.Adc, rest)))
    ensures r.Ok? <==> Strings.Lower(key) == "adc" || exists k :: GasDirectives.Name(k) == key
    ensures r.Ok? && r.value.Gas? ==>
              Strings.Lower(key) != "adc" && GasDirectives.Name(r.value.gas.kind) == key &&
              r.value.gas.rest == rest
    ensures r.Err? ==> r.error == "Unrecognized directive: '" + key + "'"
  {
    match Table.Find(Map(), Strings.Lower(key))
    case Some(kind) => Ok(Target(Misc(kind, rest)))
    case None =>
      match GasDirectives.FromRaw(key, rest)
      case Ok(d) => Ok(Gas(d))
      case Err(e) => Err(e)
  }

  /** `Display`: the instruction name, a space and the operands, or the GAS directive. */
  function Display(d: Directive): string {
    match d
    case Gas(g) => GasDirectives.Display(g)
    case Target(Misc(kind, rest)) => ArmInst.MiscName(kind) + " " + rest
  }

  /** The key a directive is displayed under. */
  function KeyOf(d: Directive): string {
    match d
    case Gas(g) => GasDirectives.Name(g.kind)
    case Target(Misc(kind, _)) => ArmInst.MiscName(kind)
  }

  function RestOf(d: Directive): string {
    match d
    case Gas(g) => g.rest
    case Target(Misc(_, rest)) => rest
  }

  /** A GAS directive name starts with a dot, so the ARM table never hides it. */
  lemma GasReachable(k: GasDirectives.Kind, rest: string)
    ensures FromRaw(GasDirectives.Name(k), rest) == Ok(Gas(GasDirectives.Simple(k, rest)))
  {
    var name := GasDirectives.Name(k);
    assert Strings.Lower(name)[0] == '.';
    GasDirectives.FromRawDisplay(GasDirectives.Simple(k, rest));
  }

  /** Every directive displays as its key, a space and its rest, and parses back from them. */
  lemma DisplayRoundTrip(d: Directive)
    ensures Display(d) == KeyOf(d) + " " + RestOf(d)
    ensures FromRaw(KeyOf(d), RestOf(d)) == Ok(d)
  {
    match d
    case Gas(g) =>
      GasReachable(g.kind, g.rest);
    case Target(Misc(kind, rest)) =>
      assert KeyOf(d) == "adc";
      assert Strings.Lower("adc") == "adc";
      assert kind == ArmInst.Adc && Map()[0] == ("adc", kind);
      Table.FindUnique(Map(), 0);
  }

  /**
   * The ARM lookup ignores case: a key is the `adc` instruction exactly when
   * it is `adc` in any mix of cases, as `ADC` or `AdC`.
   */
  lemma UpperCaseInstruction(key: string, rest: string)
    ensures FromRaw(key, rest) == Ok(Target(Misc(ArmInst.Adc, rest))) <==>
              |key| == 3 && key[0] in "aA" && key[1] in "dD" && key[2] in "cC"
  {
    if |key| == 3 {
      var k := Strings.Lower(key);
      assert k == [Strings.LowerChar(key[0]), Strings.LowerChar(key[1]), Strings.LowerChar(key[2])];
      assert k == "adc" <==> key[0] in "aA" && key[1] in "dD" && key[2] in "cC";
    }
    if FromRaw(key, rest) == Ok(Target(Misc(ArmInst.Adc, rest))) {
      assert Table.Find(Map(), Strings.Lower(key)).Some?;
      assert Strings.Lower(key) == "adc";
    }
  }
}
