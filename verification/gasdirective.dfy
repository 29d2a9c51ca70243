/**
 * The machine-independent GAS directives the assembler patcher recognises
 * (Patcher/src/gasio/directive.rs; Tools/Patcher/src/gasio/directive.rs is
 * the same table with the variant named `Misc` instead of `Simple`). A
 * directive is kept as its kind and the unparsed rest of the statement.
 */
module GasDirectives {
  import opened Wrappers
  import Table

  datatype Kind =
    | Arch | Ascii | Align | CfiDefCfaOffset | CfiEndproc | CfiOffset | CfiRestore
    | CfiSections | CfiStartproc | Cpu | EabiAttribute | Extern | File | Fpu | Global
    | Ident | Loc | Section | Set | Size | Sleb128 | Syntax | Text | Thumb | Thumbfunc
    | Type | Uleb128 | Weak | Byte | Word | TwoByte | FourByte

  /** `as_str`: the directive as written in assembly. */
  function Name(k: Kind): (s: string)
    ensures |s| >= 2 && s[0] == '.'
  {
    match k
    case Arch => ".arch"
    case Ascii => ".ascii"
    case Align => ".align"
    case CfiDefCfaOffset => ".cfi_def_cfa_offset"
    case CfiEndproc => ".cfi_endproc"
    case CfiOffset => ".cfi_offset"
    case CfiRestore => ".cfi_restore"
    case CfiSections => ".cfi_sections"
    case CfiStartproc => ".cfi_startproc"
    case Cpu => ".cpu"
    case EabiAttribute => ".eabi_attribute"
    case Extern => ".extern"
    case File => ".file"
    case Fpu => ".fpu"
    case Global => ".global"
    case Ident => ".ident"
    case Loc => ".loc"
    case Section => ".section"
    case Set => ".set"
    case Size => ".size"
    case Sleb128 => ".sleb128"
    case Syntax => ".syntax"
    case Text => ".text"
    case Thumb => ".thumb"
    case Thumbfunc => ".thumb_func"
    case Type => ".type"
    case Uleb128 => ".uleb128"
    case Weak => ".weak"
    case Byte => ".byte"
    case Word => ".word"
    case TwoByte => ".2byte"
    case FourByte => ".4byte"
  }

  /** The kind a name spells, if any: the inverse of `Name`, read by the letter after the dot. */
  function KindOf(s: string): Option<Kind> {
    if |s| < 2 then None
    else match s[1]
      case 'a' =>
        (match s
        case ".arch" => Some(Arch)
        case ".ascii" => Some(Ascii)
        case ".align" => Some(Align)
        case _ => None)
      case 'c' =>
        (match s
        case ".cfi_def_cfa_offset" => Some(CfiDefCfaOffset)
        case ".cfi_endproc" => Some(CfiEndproc)
        case ".cfi_offset" => Some(CfiOffset)
        case ".cfi_restore" => Some(CfiRestore)
        case ".cfi_sections" => Some(CfiSections)
        case ".cfi_startproc" => Some(CfiStartproc)
        case ".cpu" => Some(Cpu)
        case _ => None)
      case 'e' =>
        (match s
        case ".eabi_attribute" => Some(EabiAttribute)
        case ".extern" => Some(Extern)
        case _ => None)
      case 'f' =>
        (match s
        case ".file" => Some(File)
        case ".fpu" => Some(Fpu)
        case _ => None)
      case 'g' =>
        (match s
        case ".global" => Some(Global)
        case _ => None)
      case 'i' =>
        (match s
        case ".ident" => Some(Ident)
        case _ => None)
      case 'l' =>
        (match s
        case ".loc" => Some(Loc)
        case _ => None)
      case 's' =>
        (match s
        case ".section" => Some(Section)
        case ".set" => Some(Set)
        case ".size" => Some(Size)
        case ".sleb128" => Some(Sleb128)
        case ".syntax" => Some(Syntax)
        case _ => None)
      case 't' =>
        (match s
        case ".text" => Some(Text)
        case ".thumb" => Some(Thumb)
        case ".thumb_func" => Some(Thumbfunc)
        case ".type" => Some(Type)
        case _ => None)
      case 'u' =>
        (match s
        case ".uleb128" => Some(Uleb128)
        case _ => None)
      case 'w' =>
        (match s
        case ".weak" => Some(Weak)
        case ".word" => Some(Word)
        case _ => None)
      case 'b' =>
        (match s
        case ".byte" => Some(Byte)
        case _ => None)
      case '2' =>
        (match s
        case ".2byte" => Some(TwoByte)
        case _ => None)
      case '4' =>
        (match s
        case ".4byte" => Some(FourByte)
        case _ => None)
      case _ => None
  }

  /** Every name reads back as its own kind. */
  lemma KindOfName(k: Kind)
    ensures KindOf(Name(k)) == Some(k)
  {
    if InGroupA(k) {
      KindOfNameA(k);
    } else if InGroupB(k) {
      KindOfNameB(k);
    } else if InGroupC(k) {
      KindOfNameC(k);
    } else {
      KindOfNameD(k);
    }
  }

  lemma KindOfNameA(k: Kind)
    requires InGroupA(k)
    ensures KindOf(Name(k)) == Some(k)
  {
  }

  lemma KindOfNameB(k: Kind)
    requires InGroupB(k)
    ensures KindOf(Name(k)) == Some(k)
  {
  }

  lemma KindOfNameC(k: Kind)
    requires InGroupC(k)
    ensures KindOf(Name(k)) == Some(k)
  {
  }

  lemma KindOfNameD(k: Kind)
    requires InGroupD(k)
    ensures KindOf(Name(k)) == Some(k)
  {
  }

  // The kinds in four groups of eight, in declaration order, so that facts
  // about every name can be proved a group at a time.
  predicate InGroupA(k: Kind) { k.Arch? || k.Ascii? || k.Align? || k.CfiDefCfaOffset? || k.CfiEndproc? || k.CfiOffset? || k.CfiRestore? || k.CfiSections? }
  predicate InGroupB(k: Kind) { k.CfiStartproc? || k.Cpu? || k.EabiAttribute? || k.Extern? || k.File? || k.Fpu? || k.Global? || k.Ident? }
  predicate InGroupC(k: Kind) { k.Loc? || k.Section? || k.Set? || k.Size? || k.Sleb128? || k.Syntax? || k.Text? || k.Thumb? }
  predicate InGroupD(k: Kind) { k.Thumbfunc? || k.Type? || k.Uleb128? || k.Weak? || k.Byte? || k.Word? || k.TwoByte? || k.FourByte? }

  /** No two kinds share a name. */
  lemma NamesDistinct(a: Kind, b: Kind)
    requires a != b
    ensures Name(a) != Name(b)
  {
    KindOfName(a);
    KindOfName(b);
  }

  /** The handlers of `MAP`, in the order they are listed. */
  function Handlers(): (ks: seq<Kind>)
    ensures |ks| == 32
  {
    [Arch, Ascii, Align, CfiDefCfaOffset, CfiEndproc, CfiOffset, CfiRestore, CfiSections,
     CfiStartproc, Cpu, EabiAttribute, Extern, File, Fpu, Global, Ident, Loc, Section, Set,
     Size, Sleb128, Syntax, Text, Thumb, Thumbfunc, Type, Uleb128, Weak, Byte, Word,
     TwoByte, FourByte]
  }

  /** `MAP`: each handler keyed by its name. */
  function Map(): (m: seq<(string, Kind)>)
    ensures |m| == |Handlers()|
    ensures forall i :: 0 <= i < |m| ==> m[i] == (Name(Handlers()[i]), Handlers()[i])
  {
    seq(|Handlers()|, i requires 0 <= i < |Handlers()| => (Name(Handlers()[i]), Handlers()[i]))
  }

  /** Every kind has a handler in the table. */
  lemma HandlersComplete(k: Kind)
    ensures k in Handlers()
  {
  }

  /** `GasDirective::Simple(kind, rest)` (`GasDirective::Misc` in the second copy). */
  datatype GasDirective = Simple(kind: Kind, rest: string)

  /**
   * `from_raw_directive`: a key spelled exactly (case included) like a
   * directive's name gives that directive with the rest untouched; any other
   * key is an error naming the key.
   */
  function FromRaw(key: string, rest: string): (r: Result<GasDirective, string>)
    ensures r.Ok? <==> exists k :: Name(k) == key
    ensures r.Ok? ==> Name(r.value.kind) == key && r.value.rest == rest
    ensures r.Err? ==> r.error == "Unrecognized directive: '" + key + "'"
  {
    match Table.Find(Map(), key)
    case Some(k) => Ok(Simple(k, rest))
    case None =>
      assert forall k :: Name(k) != key by {
        forall k: Kind ensures Name(k) != key {
          HandlersComplete(k);
          var i :| 0 <= i < |Handlers()| && Handlers()[i] == k;
          assert Map()[i] == (Name(k), k);
        }
      }
      Err("Unrecognized directive: '" + key + "'")
  }

  /** `Display`: the name, a space, and the rest. */
  function Display(d: GasDirective): string {
    Name(d.kind) + " " + d.rest
  }

  /** Parsing then displaying reproduces the statement. */
  lemma DisplayFromRaw(key: string, rest: string)
    requires FromRaw(key, rest).Ok?
    ensures Display(FromRaw(key, rest).value) == key + " " + rest
  {
  }

  /** Displaying then parsing gives back the directive. */
  lemma FromRawDisplay(d: GasDirective)
    ensures FromRaw(Name(d.kind), d.rest) == Ok(d)
  {
    var r := FromRaw(Name(d.kind), d.rest);
    if r.value.kind != d.kind {
      NamesDistinct(r.value.kind, d.kind);
    }
  }

  /** The lookup is case-sensitive: a key with any capital letter is not a directive. */
  lemma CaseSensitive(key: string, rest: string)
    requires exists i :: 0 <= i < |key| && 'A' <= key[i] <= 'Z'
    ensures FromRaw(key, rest).Err?
  {
    forall k: Kind ensures Name(k) != key {
      NameLowerCase(k);
    }
  }

  /** Every directive name is written without capital letters. */
  lemma NameLowerCase(k: Kind)
    ensures forall i :: 0 <= i < |Name(k)| ==> !('A' <= Name(k)[i] <= 'Z')
  {
    if InGroupA(k) {
      NameLowerCaseA(k);
    } else if InGroupB(k) {
      NameLowerCaseB(k);
    } else if InGroupC(k) {
      NameLowerCaseC(k);
    } else {
      NameLowerCaseD(k);
    }
  }

  lemma NameLowerCaseA(k: Kind)
    requires InGroupA(k)
    ensures forall i :: 0 <= i < |Name(k)| ==> !('A' <= Name(k)[i] <= 'Z')
  {
  }

  lemma NameLowerCaseB(k: Kind)
    requires InGroupB(k)
    ensures forall i :: 0 <= i < |Name(k)| ==> !('A' <= Name(k)[i] <= 'Z')
  {
  }

  lemma NameLowerCaseC(k: Kind)
    requires InGroupC(k)
    ensures forall i :: 0 <= i < |Name(k)| ==> !('A' <= Name(k)[i] <= 'Z')
  {
  }

  lemma NameLowerCaseD(k: Kind)
    requires InGroupD(k)
    ensures forall i :: 0 <= i < |Name(k)| ==> !('A' <= Name(k)[i] <= 'Z')
  {
  }
}
