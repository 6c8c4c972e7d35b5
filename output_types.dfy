/**
 * SetOutputType: switch on the output whose name is given ("bin", "elf",
 * "hex", "lib" or "cmse-lib") in the caller's OutputTypes record; any other
 * name changes nothing. The record is updated in place, so it is a class.
 */
module OutputSettings {
  import opened Wrappers
  import opened ProjMgrConstants

  /** The five outputs of an OutputTypes record. */
  datatype OutputKind = Bin | Elf | Hex | Lib | Cmse

  /** The name of each output. */
  function KindName(kind: OutputKind): string {
    match kind
    case Bin => OutputTypeBin
    case Elf => OutputTypeElf
    case Hex => OutputTypeHex
    case Lib => OutputTypeLib
    case Cmse => OutputTypeCmse
  }

  /** The output a name selects, tested in the order SetOutputType tests them. */
  function KindOf(typeString: string): Option<OutputKind> {
    if typeString == OutputTypeBin then Some(Bin)
    else if typeString == OutputTypeElf then Some(Elf)
    else if typeString == OutputTypeHex then Some(Hex)
    else if typeString == OutputTypeLib then Some(Lib)
    else if typeString == OutputTypeCmse then Some(Cmse)
    else None
  }

  /** Names and outputs are in one-to-one correspondence: each name selects its output and nothing else selects it. */
  lemma KindNameRoundTrip(kind: OutputKind, typeString: string)
    ensures KindOf(KindName(kind)) == Some(kind)
    ensures KindOf(typeString) == Some(kind) <==> typeString == KindName(kind)
  {
  }

  /** The OutputTypes record. */
  class OutputTypes {
    var bin: OutputType
    var elf: OutputType
    var hex: OutputType
    var lib: OutputType
    var cmse: OutputType

    constructor(bin: OutputType, elf: OutputType, hex: OutputType, lib: OutputType, cmse: OutputType)
      ensures this.bin == bin && this.elf == elf && this.hex == hex && this.lib == lib && this.cmse == cmse
    {
      this.bin, this.elf, this.hex, this.lib, this.cmse := bin, elf, hex, lib, cmse;
    }

    /** The field of one output. */
    function Get(kind: OutputKind): OutputType
      reads this
    {
      match kind
      case Bin => bin
      case Elf => elf
      case Hex => hex
      case Lib => lib
      case Cmse => cmse
    }
  }

  /**
   * SetOutputType: the output the name selects is switched on and keeps its
   * file name; every other output is left as it was. No flag is cleared.
   */
  method SetOutputType(typeString: string, outputs: OutputTypes)
    modifies outputs
    ensures forall kind ::
              outputs.Get(kind) == if KindOf(typeString) == Some(kind) then old(outputs.Get(kind)).(on := true)
                                   else old(outputs.Get(kind))
    ensures forall kind :: outputs.Get(kind).filename == old(outputs.Get(kind).filename)
    ensures forall kind :: outputs.Get(kind).on == (old(outputs.Get(kind).on) || typeString == KindName(kind))
  {
    if typeString == OutputTypeBin {
      outputs.bin := outputs.bin.(on := true);
    } else if typeString == OutputTypeElf {
      outputs.elf := outputs.elf.(on := true);
    } else if typeString == OutputTypeHex {
      outputs.hex := outputs.hex.(on := true);
    } else if typeString == OutputTypeLib {
      outputs.lib := outputs.lib.(on := true);
    } else if typeString == OutputTypeCmse {
      outputs.cmse := outputs.cmse.(on := true);
    }
  }
}
