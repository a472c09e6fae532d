/** The constants of `flashdevice_defs`, which is not part of this model: the
    engine only ever compares against them or ORs them together, so they are
    carried as an opaque record rather than given values. */
module FlashDefs {
  import opened Bytes

  datatype Defs = Defs(
    // NAND command opcodes (NAND_CMD_*); the status command 0x70 is a literal in the engine
    cmdRead0: byte,
    cmdRead1: byte,
    cmdReadOob: byte,
    cmdReadStart: byte,
    cmdReadId: byte,
    cmdOnfi: byte,
    cmdErase1: byte,
    cmdErase2: byte,
    cmdSeqIn: byte,
    cmdPageProg: byte,
    cmdSetFeatures: byte,
    cmdGetFeatures: byte,
    // adapter address-line bits marking a command latch, an address latch, and write enable
    adrCL: bv8,
    adrAL: bv8,
    adrWP: bv8,
    // the options bit selecting large-page addressing, and the status FAIL bit
    lpOptions: bv32,
    statusFail: byte)
  {
    /** The three line bits are separate non-empty masks, so each can be read back from a type byte. */
    predicate LinesDistinct()
    {
      && adrCL != 0 && adrAL != 0 && adrWP != 0
      && adrCL & adrAL == 0 && adrCL & adrWP == 0 && adrAL & adrWP == 0
    }
  }
}
