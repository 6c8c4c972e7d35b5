/**
 * The delimiter and output-type constants of ProjMgrUtils and the two plain
 * records that describe the requested build outputs.
 */
module ProjMgrConstants {

  // Component and pack delimiters.
  const ComponentDelimiters := ":&@"
  const SuffixCvendor := "::"
  const PrefixCbundle := "&"
  const PrefixCbundleChar := '&'
  const PrefixCgroup := ":"
  const PrefixCsub := ":"
  const PrefixCvariant := "&"
  const PrefixCvariantChar := '&'
  const PrefixCversion := "@"
  const PrefixCversionChar := '@'
  const SuffixPackVendor := "::"
  const PrefixPackVersion := "@"

  // Output type names.
  const OutputTypeBin := "bin"
  const OutputTypeElf := "elf"
  const OutputTypeHex := "hex"
  const OutputTypeLib := "lib"
  const OutputTypeCmse := "cmse-lib"

  /** One requested output: whether it is on, and the file it is written to. */
  datatype OutputType = OutputType(on: bool, filename: string)

  /**
   * The delimiter table is consistent: packs use the component delimiters,
   * each character constant is its string constant, and every delimiter
   * character is one of the component delimiters.
   */
  lemma DelimitersAgree()
    ensures SuffixPackVendor == SuffixCvendor && PrefixPackVersion == PrefixCversion
    ensures PrefixCbundle == [PrefixCbundleChar]
    ensures PrefixCvariant == [PrefixCvariantChar]
    ensures PrefixCversion == [PrefixCversionChar]
    ensures PrefixCgroup == PrefixCsub == [SuffixCvendor[0]] == [SuffixCvendor[1]]
    ensures forall c :: c in SuffixCvendor + PrefixCbundle + PrefixCgroup + PrefixCvariant + PrefixCversion ==>
                          c in ComponentDelimiters
  {
  }
}
