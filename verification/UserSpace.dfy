/** The address ranges of a user process. */
module UserSpace {
  const CODE_START: nat := 0x00000000
  const BSS_END: nat := 0x007FFFFF
  const HEAP_START: nat := 0x00800000
  const HEAP_END: nat := 0x00BFFFFF
  const STACK_BOTTOM: nat := 0xBFFC0000 // the first task's 256 KiB
  const STACK_TOP: nat := 0xBFFFFFFF
}
