/** The addresses and values by which the firmware talks to a testbench (firmware/common/sim.h and the
    testbenches' own constants). */
module SimMarkers {
  import opened ByteLanes

  const SIM_MMIO: nat := 0x1000_0000

  const QUIT: bv8 := 0x00
  const START: bv8 := 0x80
  const FINISH: bv8 := 0x81
  const FAIL: bv8 := 0x82
  const PASS: bv8 := 0x83

  const SIM_FINISH_ADDR: nat := 0x2000_0000

  /** 123456789 on its four lanes */
  const SIM_FINISH_VALUE := Word(0x15, 0xcd, 0x5b, 0x07)
}
