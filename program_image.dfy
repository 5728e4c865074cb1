/** The program loaded into the user core's instruction memory: thirteen
    32-bit RV32I words, treated here as opaque bit patterns. */
module ProgramImage {

  /** The words in address order. */
  const Image: seq<bv32> := [
    0x00100493, 0x02B00513, 0x00000593, 0x00000893,
    0x00B888B3, 0x00158593, 0xFEA59CE3, 0x00B888B3,
    0x40B888B3, 0x409585B3, 0xFE959CE3, 0x40B888B3,
    0xFE0000E3
  ]

  /** Number of words the loader writes (the loop bound; equal to |Image|). */
  const ImageSize: nat := 13

  /** The chain of conditionals the loader evaluates for index `i`. */
  function Instr(i: nat): bv32 {
    if i == 0x0 then 0x00100493
    else if i == 0x1 then 0x02B00513
    else if i == 0x2 then 0x00000593
    else if i == 0x3 then 0x00000893
    else if i == 0x4 then 0x00B888B3
    else if i == 0x5 then 0x00158593
    else if i == 0x6 then 0xFEA59CE3
    else if i == 0x7 then 0x00B888B3
    else if i == 0x8 then 0x40B888B3
    else if i == 0x9 then 0x409585B3
    else if i == 0xA then 0xFE959CE3
    else if i == 0xB then 0x40B888B3
    else if i == 0xC then 0xFE0000E3
    else 0x00000000
  }

  /** Within the image, the conditional chain is the image read by address. */
  lemma InstrIsImage(i: nat)
    requires i < |Image|
    ensures Instr(i) == Image[i]
  {
    if i < 7 {
      assert i == 0 || i == 1 || i == 2 || i == 3 || i == 4 || i == 5 || i == 6;
    } else {
      assert i == 7 || i == 8 || i == 9 || i == 10 || i == 11 || i == 12;
    }
  }

  /** Past the image, the chain falls through to zero. */
  lemma InstrPastImage(i: nat)
    requires i >= |Image|
    ensures Instr(i) == 0
  {
  }
}
