/** Constants of the browser (src/constants.rs). */
module Constants {

  /** The platform attribute bit that marks an entry as hidden. */
  const FILE_ATTRIBUTE_HIDDEN: bv32 := 0x0000_0002
}
