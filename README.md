# Logic-analyzer instruction-load test, modelled in Dafny

The test firmware `la_test.c` runs on the management CPU of the SoC. It
uses the 128-bit logic analyzer (LA), four 32-bit lanes, to load a
13-word RV32I program into the instruction memory of the user core. Then
it releases that core from reset and waits for the core's result.
`main()` does the following:

- sets the direction registers of the four lanes: lanes 0 and 1 become
  CPU outputs, lanes 2 and 3 CPU inputs;
- writes the start flag `0xAB600000` to the GPIO word `reg_mprj_datal`;
- clears lane 0 (the data lane) and lane 1 (the control lane);
- for each address `i` from 0 to 12, stores the control word
  `0x11 | i << 12` to lane 1, then the instruction word for `i` to lane 0.
  The control word holds reset (RST = 1, as the comment at `la_test.c:126`
  says), enables the write, selects the memory and carries the address;
- stores `0x1` to lane 1, which drops write enable while reset stays held,
  then `0x0`, which releases reset;
- polls lane 2 until its low ten bits read `0x2D`;
- writes the pass flag `0xAB610000`.

The model has six modules:

- `Bits` counts a `nat` up to its 8-bit pattern without integer/bit-vector
  conversions.
- `LaControl` models the control word: its fields (RST in bits 3:0, WEN in
  7:4, CSB in 11:8, ADR in 19:12), its encoding and decoding, and the
  words the loader writes.
- `ProgramImage` holds the chain of conditionals that yields the
  instruction word for an index, and the image those words form.
- `BusTrace` defines the registers, the access events and `WritesTo`, which
  gives the values stored to one register in trace order.
- `LaTest` gives the accesses of each phase as functions, and `RunTrace`,
  every access of the run in program order. The class `Harness` performs
  the test on a model of the registers and records each access in a ghost
  `trace`. Each method is proved to leave the trace extended by exactly its
  phase's accesses, and to leave the registers at the values the firmware
  stores.
- `LaTestProperties` proves, over all values lane 2 may show:
  - the stores to each register, in order;
  - the reset discipline on the control lane;
  - the order of the direction setup and of the two flags;
  - that the lanes the CPU drives are separate from the lane it reads.

Lane 2 is driven by the user core. The model passes its successive values
as a sequence `obs`, and the poll reads them in turn.

## Model

| member | source | states |
|---|---|---|
| Bits.ByteOfValue | verilog/dv/la_test/la_test.c:108 | the 8-bit pattern placed in the address field of `i << 12` has the value `i`, for every `i < 256` |
| LaControl.Rst | verilog/dv/la_test/la_test.c:97 | no ensures; the RST field, bits 3:0; see Encode and ControlWordFields |
| LaControl.Wen | verilog/dv/la_test/la_test.c:98 | no ensures; the WEN field, bits 7:4; see Encode and ControlWordFields |
| LaControl.Csb | verilog/dv/la_test/la_test.c:99 | no ensures; the CSB field, bits 11:8, active low; see Encode and ControlWordFields |
| LaControl.Adr | verilog/dv/la_test/la_test.c:100 | no ensures; the ADR field, bits 19:12; see Encode and ControlWordFields |
| LaControl.Decode | verilog/dv/la_test/la_test.c:97-100 | no ensures; the four fields of a word; see Encode and EncodeDecode for the round trip |
| LaControl.ControlWord | verilog/dv/la_test/la_test.c:108 | no ensures; the word `0x11 \| i << 12`; see ControlWordFields, LoaderAddresses |
| LaControl.Encode | verilog/dv/la_test/la_test.c:97-100 | packing RST, WEN, CSB and ADR at bits 3:0, 7:4, 11:8 and 19:12 gives a word that decodes back to the same fields, with bits 31:20 clear |
| LaControl.EncodeDecode | verilog/dv/la_test/la_test.c:97-100 | any word with bits 31:20 clear is the encoding of its own decoded fields (the other half of the round trip) |
| LaControl.AddressBits | verilog/dv/la_test/la_test.c:108 | `0x11` with an 8-bit address shifted to bit 12 has RST = 1, WEN = 1, CSB = 0, ADR = that address and no bit above 19 |
| LaControl.ControlWordFields | verilog/dv/la_test/la_test.c:97-108 | the control word for address `i` holds reset, enables the write, selects the memory (CSB low), carries `i` as ADR and has clear bits 31:20; it is the encoding of exactly those fields |
| LaControl.ReleaseWords | verilog/dv/la_test/la_test.c:126-131 | `0x1` decodes to RST = 1 with WEN = 0 (reset held, write enable dropped); `0x0` has neither reset nor write enable |
| ProgramImage.Instr | verilog/dv/la_test/la_test.c:109-123 | no ensures; the chain of conditionals; see InstrIsImage and InstrPastImage |
| ProgramImage.InstrIsImage | verilog/dv/la_test/la_test.c:109-123 | for each address below 13, the chain of conditionals yields the image word at that address |
| ProgramImage.InstrPastImage | verilog/dv/la_test/la_test.c:123 | for any index of 13 or more the chain yields 0 |
| LaTest.DirectionMask | verilog/dv/la_test/la_test.c:86-89 | no ensures; 0 for lanes 0 and 1, all ones for lanes 2 and 3; see ConfigureProbes, ProbeSetupDirection, LanesDisjoint |
| LaTest.ResultReady | verilog/dv/la_test/la_test.c:133 | no ensures; the exit test `(la2 & 0x3FF) == 0x2D`; see FirstMatchSpec and MatchFound |
| LaTest.FirstMatch | verilog/dv/la_test/la_test.c:133 | the position the poll stops at, when there is one, is a position of the observations; that it is the first match is FirstMatchSpec |
| LaTest.DirectionPair | verilog/dv/la_test/la_test.c:86-89 | no ensures; the two stores of one lane's chained direction assignment, iena then oenb; see DirectionPairStores |
| LaTest.ProbeSetup | verilog/dv/la_test/la_test.c:86-89 | no ensures; the direction pairs of lanes 0 to 3 in order; see ProbeSetupAt, ProbeSetupDirection, ProbeSetupStores |
| LaTest.Prelude | verilog/dv/la_test/la_test.c:92-101 | no ensures; the start flag, then lane 0 and lane 1 cleared; see PreludeStores |
| LaTest.LoadEvent | verilog/dv/la_test/la_test.c:108-109 | no ensures; the store at a given position of the load loop; see LoadTraceAt |
| LaTest.LoadPair | verilog/dv/la_test/la_test.c:108-109 | no ensures; the two stores of one iteration, control word then instruction word; see LoadPairControl, LoadPairData, LoadPairElsewhere |
| LaTest.LoadTrace | verilog/dv/la_test/la_test.c:107-124 | n iterations of the load loop make exactly 2n stores; their order and contents are LoadTraceAt |
| LaTest.Release | verilog/dv/la_test/la_test.c:126-131 | no ensures; lane 1 stored with `0x1`, then `0x0`; see ReleaseStores |
| LaTest.Polled | verilog/dv/la_test/la_test.c:133 | no ensures; the observations the poll consumes, up to and including the first match; see WaitForResult and PollPhaseAt |
| LaTest.ReadsOf | verilog/dv/la_test/la_test.c:133 | no ensures; one read of lane 2 per consumed value, in order; see PollPhaseAt and Harness.Poll |
| LaTest.Finish | verilog/dv/la_test/la_test.c:135 | no ensures; the pass flag, stored only when the poll ended on a match; see PollPhaseStores and FlagStores |
| LaTest.Startup | verilog/dv/la_test/la_test.c:86-131 | no ensures; the accesses before the poll, phase by phase; see StartupAt and the Startup lemmas |
| LaTest.PollPhase | verilog/dv/la_test/la_test.c:133-135 | no ensures; the poll's reads, then the pass flag; see PollPhaseAt and PollPhaseStores |
| LaTest.RunTrace | verilog/dv/la_test/la_test.c:86-135 | no ensures; every access of the run in program order; see Harness.Run, which produces it, and the LaTestProperties lemmas, which characterise it |
| LaTest.LoadTraceAt | verilog/dv/la_test/la_test.c:107-109 | store 2i of the loop is the control word for address i on lane 1, and store 2i+1 is the instruction word for i on lane 0: control strictly before data in each iteration |
| LaTest.FirstMatchSpec | verilog/dv/la_test/la_test.c:133 | the poll stops at the first observation whose low ten bits are `0x2D`; it does not stop only when no observation has them |
| LaTest.FirstMatchIs | verilog/dv/la_test/la_test.c:133 | if observation k is the first to match, the poll stops at k |
| LaTest.FirstMatchNone | verilog/dv/la_test/la_test.c:133 | if no observation matches, the poll does not stop |
| LaTest.WaitForResult | verilog/dv/la_test/la_test.c:133 | the poll loop reports a match exactly when the observations contain one; its reads are the observations up to and including the first match, or all of them when none matches |
| LaTest.Harness.SetLa0 | verilog/dv/la_test/la_test.c:95 | a store to lane 0 sets that register, records one write and changes nothing else |
| LaTest.Harness.SetLa1 | verilog/dv/la_test/la_test.c:101 | a store to lane 1 sets that register, records one write and changes nothing else |
| LaTest.Harness.SetMprjDatal | verilog/dv/la_test/la_test.c:92 | a store to the GPIO word sets it, records one write and changes nothing else |
| LaTest.Harness.SetDirection | verilog/dv/la_test/la_test.c:86 | a chained direction assignment sets iena, then oenb, of one lane to the mask, recording both stores in that order |
| LaTest.Harness.ConfigureProbes | verilog/dv/la_test/la_test.c:86-89 | after the setup, oenb and iena of lanes 0 and 1 are all zeros (CPU outputs) and of lanes 2 and 3 all ones (CPU inputs); the trace grows by the eight direction stores |
| LaTest.Harness.LoadWord | verilog/dv/la_test/la_test.c:108-109 | one iteration stores the control word for i to lane 1, then `Instr(i)` to lane 0; afterwards lane 1 holds `ControlWord(i)` and lane 0 holds `Instr(i)` |
| LaTest.Harness.LoadProgram | verilog/dv/la_test/la_test.c:107-124 | the loop appends the stores of all 13 iterations in order and leaves lane 1 at the last control word and lane 0 at the last instruction |
| LaTest.Harness.Prepare | verilog/dv/la_test/la_test.c:86-104 | after the setup, the start flag and the two clears, lanes 0 and 1 are both 0, the GPIO word holds the start flag and the directions are set, all before any load |
| LaTest.Harness.ReleaseCore | verilog/dv/la_test/la_test.c:126-131 | lane 1 receives `0x1` then `0x0` and ends at `0x0` |
| LaTest.Harness.Poll | verilog/dv/la_test/la_test.c:133 | the poll reports a match exactly when the observations contain one, and records one read of lane 2 per observation it consumed |
| LaTest.Harness.Run | verilog/dv/la_test/la_test.c:86-135 | the run records exactly `RunTrace(obs)`; it passes exactly when some observation has `0x2D` in its low ten bits; the GPIO word ends at the pass flag when it passes and at the start flag otherwise |
| LaTestProperties.LoadPairControl | verilog/dv/la_test/la_test.c:108 | one iteration stores its control word to lane 1 once |
| LaTestProperties.LoadPairData | verilog/dv/la_test/la_test.c:109-123 | one iteration stores its instruction word to lane 0 once |
| LaTestProperties.LoadPairElsewhere | verilog/dv/la_test/la_test.c:107-124 | one iteration stores no register other than lanes 0 and 1 |
| LaTestProperties.LoadStoresElsewhere | verilog/dv/la_test/la_test.c:107-124 | the whole load loop stores no register other than lanes 0 and 1 |
| LaTestProperties.ControlWordsAt | verilog/dv/la_test/la_test.c:108 | the k-th control word of the loop is the one for address k |
| LaTestProperties.InstrWordsImage | verilog/dv/la_test/la_test.c:109-123 | the 13 instruction words of the loop are the program image |
| LaTestProperties.LoadControlLane | verilog/dv/la_test/la_test.c:107-108 | over n iterations lane 1 receives the control words for addresses 0 to n - 1, in ascending order, each once |
| LaTestProperties.LoadDataLane | verilog/dv/la_test/la_test.c:107-123 | over n iterations lane 0 receives the instruction words for 0 to n - 1, in order, each once |
| LaTestProperties.LoadTraceLanes | verilog/dv/la_test/la_test.c:107-124 | every store of the load loop goes to data lane 0 or 1 |
| LaTestProperties.LoaderAddresses | verilog/dv/la_test/la_test.c:107-108 | the loader emits exactly 13 control words; word k carries address k, holds reset, enables the write, selects the memory and leaves bits 31:20 clear |
| LaTestProperties.LoaderImage | verilog/dv/la_test/la_test.c:107-123 | the instruction words the loader emits are the 13-word image, in order |
| LaTestProperties.DirectionPairStores | verilog/dv/la_test/la_test.c:86-89 | one lane's chained assignment stores that lane's oenb and iena once each, with its mask, and nothing else |
| LaTestProperties.ProbeSetupStores | verilog/dv/la_test/la_test.c:86-89 | the direction setup stores no data lane and not the GPIO word |
| LaTestProperties.ProbeSetupDirection | verilog/dv/la_test/la_test.c:86-89 | the setup stores each direction register exactly once, with its lane's mask |
| LaTestProperties.ProbeSetupAt | verilog/dv/la_test/la_test.c:86-89 | the setup is eight accesses, each a direction store with the mask of the lane it configures |
| LaTestProperties.PreludeStores | verilog/dv/la_test/la_test.c:92-101 | after the setup, the firmware stores the start flag, then 0 to lane 0 and 0 to lane 1, and nothing else |
| LaTestProperties.ReleaseStores | verilog/dv/la_test/la_test.c:126-131 | the release stores lane 1 twice, `0x1` then `0x0`, and nothing else |
| LaTestProperties.DirectionsSetOnce | verilog/dv/la_test/la_test.c:92-131 | no phase after the setup stores a direction register |
| LaTestProperties.PollPhaseStores | verilog/dv/la_test/la_test.c:133-135 | after the release, the only store is the pass flag, made exactly when the poll ended on a match |
| LaTestProperties.StartupControlLane | verilog/dv/la_test/la_test.c:101-131 | before the poll, lane 1 receives 0, then the loop's control words, then `0x1` and `0x0` |
| LaTestProperties.StartupDataLane | verilog/dv/la_test/la_test.c:95-124 | before the poll, lane 0 receives 0, then the loop's instruction words |
| LaTestProperties.StartupFlag | verilog/dv/la_test/la_test.c:92-131 | before the poll, the GPIO word is stored once, with the start flag |
| LaTestProperties.StartupDirection | verilog/dv/la_test/la_test.c:86-131 | before the poll, each direction register is stored once, with its lane's mask |
| LaTestProperties.RunWrites | verilog/dv/la_test/la_test.c:133-135 | every register except the GPIO word has all its stores before the poll |
| LaTestProperties.ControlLaneWrites | verilog/dv/la_test/la_test.c:101-131 | over the whole run lane 1 receives 0, the 13 control words in address order, then `0x1` and `0x0`: the last two stores to lane 1 are `0x1` then `0x0` |
| LaTestProperties.ControlLaneAt | verilog/dv/la_test/la_test.c:101-131 | the same 16 values position by position |
| LaTestProperties.WriteEnableDroppedBeforeReset | verilog/dv/la_test/la_test.c:101-131 | on lane 1, the clear at :101 leaves RST = 0 and WEN = 0 with the memory selected; reset is asserted by the first control word and held through the second-last word; every word that enables a write also holds reset, selects the memory and precedes the last two; the second-last word drops write enable with reset held; after reset is first asserted, only the last word releases it |
| LaTestProperties.ResetDiscipline | verilog/dv/la_test/la_test.c:101-131 | the same discipline, including the cleared first word, for any 16-value sequence of that shape |
| LaTestProperties.DataLaneWrites | verilog/dv/la_test/la_test.c:95-124 | over the whole run lane 0 receives 0 and then exactly the program image |
| LaTestProperties.DirectionWrites | verilog/dv/la_test/la_test.c:86-89 | over the whole run each lane's oenb and iena are stored exactly once, with that lane's mask |
| LaTestProperties.MatchFound | verilog/dv/la_test/la_test.c:133 | the poll ends on a match if and only if some observation has `0x2D` in its low ten bits |
| LaTestProperties.FlagStores | verilog/dv/la_test/la_test.c:92-135 | the GPIO word receives the start flag and then, exactly when the poll ended on a match, the pass flag |
| LaTestProperties.SentinelWrites | verilog/dv/la_test/la_test.c:92-135 | the GPIO word is stored at most twice, start flag first; the pass flag is stored if and only if some observation matches; otherwise only the start flag is ever stored |
| LaTestProperties.StartupAt | verilog/dv/la_test/la_test.c:86-131 | the 39 accesses before the poll, by position: 8 direction stores, the 3 prelude stores, the 26 loop stores, the 2 release stores |
| LaTestProperties.PollPhaseAt | verilog/dv/la_test/la_test.c:133-135 | after the release come only reads of lane 2, one per polled observation, then the pass flag as the very last access, only when the poll matched |
| LaTestProperties.EventAt | verilog/dv/la_test/la_test.c:86-135 | the run is 39 accesses plus the poll phase; exactly the first eight are direction stores |
| LaTestProperties.DirectionsFirst | verilog/dv/la_test/la_test.c:86-135 | an access is a direction store if and only if it is among the first eight, so every direction store comes before every other access, including every data store |
| LaTestProperties.LanesDisjoint | verilog/dv/la_test/la_test.c:86-133 | every data store of the run goes to lane 0 or 1, whose mask makes it a CPU output, and every read is of lane 2, whose mask makes it a CPU input |

## Left out

- The housekeeping SPI master set-up (`la_test.c:37`), the per-pin GPIO
  mode stores (`:48-79`) and the `reg_mprj_xfer` handshake (`:82-83`) are
  platform bring-up. Their meaning lies in headers that are not part of
  this model, and they come before everything modelled here.
- The delay loops (`:104`, `:129`) change no register. The model performs
  nothing in their place.
- Bus timing, the setup and sampling of the LA signals, and the RV32I
  meaning of the 13 words are left out. The words are opaque 32-bit
  patterns. Nothing is proved about what the program writes to lane 2; the
  model only takes `0x2D` as the value the firmware waits for
  (`la_test.c:29` gives it as the sum of 0 to 9).
- The behaviour of lane 2 is left out. Its values are an input sequence.
- LaTest.Harness.Poll: the real poll has no bound and spins forever when
  no match comes. The model stops when the finite sequence of observations
  runs out, and reports that no match was seen.
- LaTest.Harness: the firmware never stores to the data registers of lanes
  2 and 3, so the class has no fields for them. Lane 2's values arrive as
  `obs`, and lane 3 is never read.
- LaTest.Harness.constructor: the register values before `main()` starts
  are not given by the firmware. The constructor starts them at zero.
  Every property above holds whatever they were, since the setup overwrites
  each register before it is read or relied on.
- LaControl.ControlWord is defined for addresses below 256, the width of
  the ADR field. The firmware's C `int` shift is modelled only for the 13
  addresses it uses.
- In the chained assignment `reg_laK_oenb = reg_laK_iena = mask`, C does
  not fix which of the two stores reaches the bus first. The model takes
  iena first, then oenb. The model stores the literal mask to oenb; C also
  allows the value of `reg_laK_iena = mask` to be taken by reading back the
  volatile iena, and that possible read is not modelled. No property
  depends on the order of the two stores.
