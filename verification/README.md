# Verified models of the Carambola drivers

This project models, in Dafny, the parts of the Carambola package collection that do something intricate: the
Silicon Labs C2 flash programmer (`c2tool`, `c2t-module`, `c2port-gpio`), the bit-banged I2C master
(`carambola_i2c_test`), the ath79 and ath-i2s audio rings, and the AR934x high-speed UART's baud solver and transmit
path. `dafny verify dfyconfig.toml` checks all of it.

Code that changes things in place is modelled as classes and methods with loops; what the methods do is stated through
specification functions, and what the drivers are for is proved about those functions. Whatever the driver cannot see
(how long a chip makes it wait, what a slave answers, when a DMA engine moves on) is an unconstrained function held by
the model, one value per occasion, so that every statement covers every behaviour of the outside.

## How the parts fit together

| files | what they hold |
|---|---|
| `Bytes.dfy`, `Division.dfy`, `Errno.dfy` | bytes as bit lists, bitwise AND; quotients and remainders; error numbers |
| `C2Target.dfy` | the chip: frame decoder, registers, programming interface (PI) and flash, after the C2 Interface Specification and Silicon Labs application note AN127 |
| `C2Interface.dfy` | `c2interface.c` bit by bit against that chip: wires, frames, handshakes, PI commands, block reads, block writes, erase |
| `C2Pages.dfy`, `C2Flash.dfy` | what page read-modify-erase-write amounts to, and the code that does it |
| `C2Files.dfy` | flashing and verifying whole images |
| `C2Gpio.dfy`, `C2Sysfs.dfy` | the kernel drivers' frames with explicit pin direction, and the `flash_data` attribute |
| `C2Family.dfy` | the chip setup interpreter |
| `I2cBus.dfy` | the two I2C lines and a slave, after NXP UM10204 sections 3.1.3 to 3.1.11 |
| `I2cMaster.dfy`, `I2cFrames.dfy` | the master: pulses and bytes, nine-bit frames |
| `I2cMessage.dfy`, `I2cTransfer.dfy` | addressing, writing and reading one message; transfers of several |
| `I2cAddress.dfy` | which slave the addressing reaches |
| `PcmRing.dfy`, `PcmStream.dfy` | the ath79 descriptor ring and the interrupt handler running beside the DMA engine |
| `I2sPlayback.dfy` | the ath_i2s playback ring as a byte FIFO |
| `UartBaud.dfy`, `UartTx.dfy` | the AR934x UART |

## What the proofs found

Each of these is a lemma or a contract, not an observation; the names are in the table below.

* Storing a section inside the flash puts exactly its bytes there and changes nothing else, for every device family in
  the table (`LargePagesExact`, `FlashSection`). A section beyond the flash is not refused as such: its address is cut
  down to 256 pages, and it is stored there as far as there is flash. With 512-byte pages an image at 0x20000
  overwrites the one at 0, while one at 0x10000 is refused (`FlashSection`, `FarSectionExample`).
* Behind that is a page number that travels in an `unsigned char`. For page sizes no family has it is a latent limit
  inside the flash, too: storing is exact for all contents if and only if the section is empty or ends within the first
  256 pages (`SectionExactIff`; `HighPageExample` imagines 128-byte pages).
* Flash addresses are cut to 16 bits, which every read and write contract spells out.
* A WAIT field that runs into the 20-strobe limit leaves the chip in mid-frame, with nothing read or written, until it
  is reset (`WriteDr`, `ReadDr`, `Session`).
* `c2_verify_file` returns 0 exactly if every byte it got to compare agrees, wherever the sections are; a section it
  cannot read is not compared and does not fail (`FileNoErrorsMeans`, `UnreadableSectionPasses`).
* A `flash_data` write of no bytes would announce a 256-byte block (`WriteFlashData`). The attribute's size is set, and
  the sysfs core does not pass empty writes on, so this is a latent limit.
* A setup READ's value decides: 1 ends the setup as a success, any other non-zero value as a failure. The C8051F35x
  list therefore fails on a clock multiplier that reads back enabled (`WithReads`, `EnabledMultiplierFails`).
* A message of an I2C transfer that went through, and does not ignore missing acknowledges, is delivered to the slave it
  means, whatever was addressed before and whatever the other messages were, exactly if its address does not look like
  a ten-bit prefix and, for a ten-bit read, the last addressing step needed no retry (`TransferDirected`). A caller can
  be sure of that beforehand exactly if the adapter does not retry (`NamesForSure`).
* A zero-length read leaves its slave offering a byte. If that byte is below 128 the slave holds SDA low and swallows
  what comes next: a repeated START, which the driver goes on from as if it had happened, or the STOP, which leaves the
  bus held. If it is not, both get through. Apart from the clock, and from misplaced acknowledge slots (below), this is
  the only way to lose them, over all message lists (`BitXfer`, `HeldSince`); a first message without a START that
  happens to spell a read address does the same.
* A read without acknowledge slots (I2C_M_NO_RD_ACK) from a slave that expects them gets the first byte right and 0xFF
  for every further one. It is right whatever the slave holds if and only if it asks for at most one byte
  (`ReadBytes`, `UnackedRead`, `UnackedRightIff`).
* The DMA descriptor's size field has 12 bits. The descriptors tile the buffer as meant, and the loop that builds the
  ring ends, if and only if the period or the buffer is shorter than 4096 bytes (`SizesExactIff`, `LoopEndsIff`). The
  driver admits periods up to 4095 only, so this is a latent limit (`AdmittedPeriodsEnd`).
* If the hardware advances in the middle of a scan that began on an arc of finished descriptors, an arc is left exactly
  if the hardware did not finish a descriptor the scan had passed and then one it had not (`DisturbedScanIff`); in any
  case no byte is lost or counted twice (`PlaybackInterrupt`).
* `ath_i2s_write` compares a byte count with `EAGAIN` (11): a hand-over of 11 bytes restarts a write that has already
  been queued. A length is accepted exactly once under every state of ring and DMA engine if and only if it does not
  leave 11 modulo 768: other lengths always are (`Write`), and for each of these there is a ring that makes the write
  go on without end (`BadLengthNeverEnds`).
* A UART clock serves every rate in the range it offers if and only if that range is empty or its upper end has a step
  within bounds at scale 0 (`ServesRangeIff`); all clocks above 65536 do (`FastClockServes`), and 65536 itself does not
  (`SlowClockFails`).
* A flow control character left over while the ring is empty waits, its interrupt off, for the next start
  (`Interrupt`).

## Assumptions about the hardware

A C2 frame starts on a released data wire. The chip's flash erases to 0xFF and programming clears bits; the PI
confirms a command, an accepted length, an accepted page number and the end of a block write with COMMAND_OK, and a
status the host does not collect is overwritten by the next one. A PI byte sent while InBusy is set is lost. A UM10204
slave ignores the bus until a START, latches SDA while SCL is high, and acknowledges as it likes. The audio DMA engine
goes round its list in order, clears OWN as it finishes a descriptor and stops at one it does not own.

## Model

| member | source | states |
|---|---|---|
| Bytes.ValueOfBits | c2tool/src/c2interface.c:146-151 | shifting a number out lowest bit first and reading the bits back gives the number |
| Bytes.AndErased | c2tool/src/c2interface.c:683-689 | programming an erased byte stores the data byte |
| Bytes.AndBitAt | c2tool/src/c2interface.c:506-546 | programming leaves a bit set iff it was set and the data byte has it set |
| C2Interface.C2Link.constructor | c2tool/src/c2interface.c:119-129 | host and chip start between frames with nobody driving the wire |
| C2Interface.C2Link.C2dSet | c2tool/src/c2interface.c:75-84 | the open-drain data pin: 0 pulls the wire low, 1 lets it go |
| C2Interface.C2Link.C2dGet | c2tool/src/c2interface.c:86-94 | the level seen is what both ends make of it |
| C2Interface.C2Link.C2ckStrobe | c2tool/src/c2interface.c:107-113 | one clock advances the chip's decoder by one bit |
| C2Interface.C2Link.Reset | c2tool/src/c2interface.c:119-129 | from any point of a frame or command: back between frames, PI idle, flash untouched |
| C2Interface.C2Link.WriteAr | c2tool/src/c2interface.c:131-157 | exactly the address register changes, to the byte given; both ends idle; wire never driven twice |
| C2Interface.C2Link.ReadAr | c2tool/src/c2interface.c:159-189 | returns the chip's status byte and costs it one status read; both ends idle |
| C2Interface.C2Link.ShiftInByte | c2tool/src/c2interface.c:174-182 | eight strobes of a shift register recover the byte the chip drives |
| C2Interface.ShiftStep | c2tool/src/c2interface.c:176-182 | one step of that register, bit coming in at the top |
| C2Interface.C2Link.AwaitReady | c2tool/src/c2interface.c:220-230 | succeeds iff the chip is ready within 20 strobes, and never strobes past its ready |
| C2Interface.C2Link.WriteDr | c2tool/src/c2interface.c:191-237 | succeeds iff the chip is ready within 20 WAIT strobes and then is the abstract register write; otherwise nothing is written and the chip stays in mid-frame |
| C2Interface.C2Link.ReadDr | c2tool/src/c2interface.c:239-287 | the same for reads: byte and side effect of the abstract register read, or nothing and mid-frame |
| C2Interface.C2Link.PollInBusy | c2tool/src/c2interface.c:289-308 | true iff InBusy clears within 20 status reads; registers untouched |
| C2Interface.C2Link.PollOutReady | c2tool/src/c2interface.c:310-329 | true iff an output byte shows up within 10000 status reads; registers untouched |
| C2Interface.C2Link.ReadSfr | c2tool/src/c2interface.c:331-341 | the register's value, or an error that leaves the registers as they were but for the address |
| C2Interface.C2Link.WriteSfr | c2tool/src/c2interface.c:343-351 | the register reads back what was written, and the PI is untouched; or an error that leaves it as it was |
| C2Interface.C2Link.PiWriteCommand | c2tool/src/c2interface.c:358-367 | on success the PI has taken exactly this byte and digested it; on failure at most this byte |
| C2Interface.C2Link.PiGetData | c2tool/src/c2interface.c:369-378 | on success the byte is the PI's output and has been taken from it |
| C2Interface.C2Link.PiCheckCommand | c2tool/src/c2interface.c:380-391 | succeeds on a prompt chip iff the status is COMMAND_OK |
| C2Interface.C2Link.PiCommand | c2tool/src/c2interface.c:393-405 | the PI steps by this command, and by the collection of its status if asked |
| C2Interface.C2Link.PiQuery | c2tool/src/c2interface.c:393-412 | with a result asked for: the byte is the one the PI offers after its status |
| C2Interface.Opening | c2tool/src/c2interface.c:472-488 | command, address bytes and length leave the PI inside the block iff the block lies inside the flash, length 0 standing for 256 |
| C2Interface.C2Link.BeginBlock | c2tool/src/c2interface.c:472-488 | succeeds on a prompt chip iff the block fits; refused blocks leave the PI waiting for a command |
| C2Interface.InRangeFits | c2tool/src/c2interface.c:460-504 | every transfer inside a flash of at most 64 KiB splits into blocks that fit |
| C2Interface.C2Link.CollectBlock | c2tool/src/c2interface.c:490-497 | one block of output bytes lands in the buffer and the PI is back waiting for a command |
| C2Interface.C2Link.FlashRead | c2tool/src/c2interface.c:460-504 | the buffer is the flash from the address on; bytes beyond the length untouched; on a prompt chip succeeds iff all blocks fit; PI idle at the end |
| C2Interface.C2Link.SendBlock | c2tool/src/c2interface.c:536-539 | even if it fails half way, exactly a prefix of the block has been programmed |
| C2Interface.C2Link.FlashWrite | c2tool/src/c2interface.c:506-546 | exactly the first `done` bytes are programmed, all of them on success; on a prompt chip succeeds iff all blocks fit |
| C2Interface.C2Link.FlashErase | c2tool/src/c2interface.c:548-565 | exactly the page is blank, or nothing changed, the status after each byte collected; on a prompt chip succeeds iff the page exists |
| C2Interface.C2Link.FlashEraseDevice | c2tool/src/c2interface.c:642-662 | the whole flash is blank, or nothing changed; succeeds on a prompt chip |
| C2Pages.ProgrammedAt | c2tool/src/c2interface.c:506-546 | programming ANDs each data byte into its own cell and leaves the other cells alone |
| C2Pages.PageStores | c2tool/src/c2interface.c:683-689 | erasing a page and programming the updated copy of it stores the data and changes nothing else |
| C2Pages.ChunkStores | c2tool/src/c2interface.c:664-692 | a chunk in one of the first 256 pages stores its bytes and changes nothing else |
| C2Pages.ChunkErasesWrongPage | c2tool/src/c2interface.c:685-686 | a chunk in a later page is wrong whenever the page it erases instead held anything |
| C2Pages.HighPageExample | c2tool/src/c2interface.c:685-686 | one such chunk, with pages smaller than any family's |
| C2Pages.SectionStores | c2tool/src/flash.c:54-65 | chunk after chunk, a section ending within the first 256 pages is stored and nothing else changes |
| C2Pages.SectionLeavesErased | c2tool/src/flash.c:54-65 | a section ending beyond them blanks a byte for good |
| C2Pages.SectionExactIff | c2tool/src/flash.c:54-65 | storing is exact for all flash contents and data iff the section is empty or ends within the first 256 pages |
| C2Pages.LargePagesExact | c2tool/src/flash.c:54-65 | with pages of 256 bytes or more storing inside the flash is always exact |
| C2Pages.FamiliesByteNumbered | c2tool/src/c2family.c:211-245 | every family's pages are of a size that lets addresses beyond the flash be cut down consistently |
| C2Pages.Windows | c2tool/src/c2interface.c:475-478 | for such page sizes the page number cut to a byte and the address cut to two bytes name the same page |
| C2Pages.LandedNext | c2tool/src/flash.c:54-65 | one more chunk of a section, wherever it is, goes where the chunk before it left off |
| C2Pages.LandedStops | c2tool/src/flash.c:54-65 | a chunk is refused exactly where the section runs out of flash |
| C2Flash.PlanChunk | c2tool/src/c2interface.c:667-676 | the chunk starts at the address and stays in its page, which is read first iff the chunk does not fill it |
| C2Flash.LoadPage | c2tool/src/c2interface.c:671-683 | no byte of the uninitialised page buffer survives: it is the page at the address cut to two bytes, with the data copied in |
| C2Flash.RewritePage | c2tool/src/c2interface.c:678-689 | the chunk's whole effect on the page it lands in; if there is no such page nothing changes; on a failure only that page is in doubt; on a prompt chip succeeds iff the page exists |
| C2Flash.FlashChunk | c2tool/src/c2interface.c:664-692 | the result is the size of the chunk, whose effect is complete, or negative; on a prompt chip it is negative iff the page the chunk lands in does not exist, and then nothing changed |
| C2Flash.FlashSection | c2tool/src/flash.c:34-66 | terminates; inside the flash the section is stored and nothing else changed, or a prefix is and only the page it stopped in is in doubt; anywhere else it goes to its address cut down to 256 pages, as far as there is flash; never fails on a prompt chip while there is flash |
| C2Files.NoErrorsMeans | c2tool/src/verify.c:56-71 | no error is counted iff all bytes that got compared agree |
| C2Files.FileNoErrorsMeans | c2tool/src/verify.c:76-95 | an image, wherever its sections are, shows no error iff every byte that got compared agrees |
| C2Files.SectionVerdict | c2tool/src/verify.c:56-71 | inside the flash: no error iff the section is what the flash holds |
| C2Files.UnreadableSectionPasses | c2tool/src/verify.c:60-62 | a section whose first block cannot be read is not compared at all and produces no error |
| C2Files.FileVerdict | c2tool/src/verify.c:76-95 | an image inside the flash verifies iff every section is there |
| C2Files.BlockChecked | c2tool/src/verify.c:58-70 | one compared block settles its own share of the error count |
| C2Files.VerifySection | c2tool/src/verify.c:35-74 | counts one error per differing 256-byte block up to the first unreadable one; any error means a difference; flash untouched |
| C2Files.VerifyFile | c2tool/src/verify.c:76-95 | 0 iff every byte that got compared agrees, -EINVAL otherwise; as long as load address + offset + length stays within the flash, 0 iff each section is what the flash holds there, and likewise where that sum wraps at 32 bits; flash untouched |
| C2Files.FlashFile | c2tool/src/flash.c:68-87 | the flash ends up with each section's effect in turn, sections beyond the flash included; sections whose load address + offset, added in 32 bits, keeps them inside the flash and its first 256 pages are stored there, each one found afterwards if they are disjoint, and every other byte is as before |
| C2Files.PlacedAt | c2tool/src/flash.c:44 | the flash address is load address + offset but for multiples of 2^32 |
| C2Files.PlacedStored | c2tool/src/flash.c:34-87 | sections at those addresses are found after flashing, and nothing outside of them changes |
| C2Files.PlacedVerdict | c2tool/src/verify.c:35-95 | no error is counted iff each section is found at its address |
| C2Files.AllStored | c2tool/src/flash.c:68-87 | sections inside the flash and its first 256 pages are stored and nothing else changes |
| C2Files.FarSectionExample | c2tool/src/flash.c:54-65 | with 512-byte pages a section at 0x20000 lands at 0 and one at 0x10000 is refused whole |
| C2Files.SectionsStored | c2tool/src/flash.c:68-87 | of disjoint sections each one is found in flash afterwards |
| C2Files.FlashedFileVerifies | c2tool/src/verify.c:76-95 | flashing disjoint sections and verifying the same image reports success |
| C2Gpio.C2PortPin.constructor | c2t-module/src/c2tool-gpio.c:312-335 | the pin starts as an input, between frames |
| C2Gpio.C2PortPin.Direction | c2t-module/src/c2tool-gpio.c:38-44 | switching to output starts at the level the wire had |
| C2Gpio.C2PortPin.StrobeCk | c2t-module/src/c2tool-gpio.c:61-71 | one clock, both drivers watched before and after |
| C2Gpio.C2PortPin.WriteAr | c2t-module/src/c2tool-gpio.c:73-100 | the abstract address write; pin an input again; never two drivers |
| C2Gpio.C2PortPin.ReadAr | c2t-module/src/c2tool-gpio.c:102-132 | the abstract status read; pin an input again; never two drivers |
| C2Gpio.C2PortPin.WriteDr | c2t-module/src/c2tool-gpio.c:134-181 | the abstract register write iff ready in time, otherwise no register changes and the chip goes on waiting; pin an input again and never two drivers either way |
| C2Gpio.C2PortPin.ReadDr | c2t-module/src/c2tool-gpio.c:183-231 | the abstract register read iff ready in time, otherwise no register changes and the chip goes on waiting; pin an input again and never two drivers either way |
| C2Gpio.C2PortPin.ResetChip | c2t-module/src/c2tool-gpio.c:46-58 | from between frames or from a stalled access: between frames, PI idle, flash untouched |
| C2Gpio.C2PortPin.Ioctl | c2t-module/src/c2tool-gpio.c:233-305 | WRITE_AR selects a register, READ_AR answers output-ready and input-busy, WRITE_DR and READ_DR write and read the register selected, or fail with -EIO and change nothing if the chip is not ready within 20 strobes; a reset keeps registers and flash and idles the PI; all of it one step on the bare registers |
| C2Gpio.C2PortPin.Session | c2t-module/src/c2tool-gpio.c:46-305 | any request sequence replies as the same sequence on bare registers, through timeouts and resets, ending early only before a frame started on a stalled chip, so never on a chip ready in time; the wire never has two drivers |
| C2Gpio.WriteThenRead | c2t-module/src/c2tool-gpio.c:263-303 | selecting a register, writing and reading it replies with the byte written; every other register, the PI and the flash are as before |
| C2Gpio.RegisterKeeps | c2t-module/src/c2tool-gpio.c:233-305 | a register read after any requests that did not write to it answers the last byte written to it |
| C2Sysfs.PollInBusy | c2port-gpio/src/c2port-core.c:265-284 | true iff InBusy clears within 20 status reads |
| C2Sysfs.PollOutReady | c2port-gpio/src/c2port-core.c:286-305 | true iff an output byte shows up within 1000 status reads |
| C2Sysfs.Push | c2port-gpio/src/c2port-core.c:657-663 | the PI takes exactly this byte, and has digested it unless the poll gives up |
| C2Sysfs.Pull | c2port-gpio/src/c2port-core.c:667-677 | the byte is the PI's output, collected; or nothing changed |
| C2Sysfs.OpenBlock | c2port-gpio/src/c2port-core.c:653-709 | 0 with the PI inside the announced block, -EBUSY iff a block does not fit with the PI waiting for a command, -EIO iff a poll gave up |
| C2Sysfs.ReadFlashData | c2port-gpio/src/c2port-core.c:635-723 | returns the least of 128, the count and what is left of the flash, and exactly those flash bytes, 0 from the end on, or -EIO after a poll that gave up; flash untouched |
| C2Sysfs.CollectChunk | c2port-gpio/src/c2port-core.c:711-720 | the block's bytes land in the buffer in order and the PI is back waiting for a command |
| C2Sysfs.ProgramChunk | c2port-gpio/src/c2port-core.c:823-832 | each byte is programmed in order, exactly a prefix if a poll gives up; the block is complete at the last one |
| C2Sysfs.WriteFlashData | c2port-gpio/src/c2port-core.c:748-840 | ANDs exactly as many bytes into flash as the least of 128, the count and what is left of it, and returns once the chip shows that it is done, or a prefix of them and -EIO; -EINVAL beyond the end; a count of 0, which sysfs does not pass on, fails and, where 256 bytes fit, strands the PI in a block |
| C2Sysfs.ReadAll | c2port-gpio/src/c2port-core.c:635-723 | reading on until 0 yields the whole flash; until an error, a prefix of it |
| C2Family.Setup.Process | c2tool/src/c2family.c:247-278 | each token's result, and which tokens reach the chip |
| C2Family.Setup.Run | c2tool/src/c2family.c:294-310 | on a list with a Done: ends at or before the first one, having carried out in order exactly the commands up to the first non-zero result, and returns 0 iff that result is 1; an unknown token and an access without answer end it with -EIO, a wait never ends it |
| C2Family.WritesOnly | c2tool/src/c2family.c:294-310 | without reads: success iff no write failed, and then everything before Done was carried out |
| C2Family.WithReads | c2tool/src/c2family.c:294-310 | with reads: success iff all went through with every value 0, or a read of 1 cut the list short |
| C2Family.EnabledMultiplierFails | c2tool/src/c2family.c:56-66 | the C8051F35x list fails if its clock multiplier reads back enabled |
| I2cBus.MsbRoundTrip | carambola_i2c_test/src/i2c-algo-gpio-test.c:167-236 | a byte survives being sent and read most significant bit first |
| I2cBus.PulseNext | carambola_i2c_test/src/i2c-algo-gpio-test.c:175-191 | SDA set while SCL is low, one rise and one fall: exactly one bit on the wire, no START and no STOP |
| I2cMaster.I2cAdapter.SclHi | carambola_i2c_test/src/i2c-algo-gpio-test.c:90-126 | fails iff SCL can be read and stays low for longer than the timeout and one last look; otherwise SCL has risen, unless it cannot be read and was stretched |
| I2cMaster.I2cAdapter.I2cStart | carambola_i2c_test/src/i2c-algo-gpio-test.c:130-136 | from a resting bus exactly a START |
| I2cMaster.I2cAdapter.I2cRepstart | carambola_i2c_test/src/i2c-algo-gpio-test.c:138-146 | exactly a repeated START, unless the slave holds SDA, which makes it a 0 bit |
| I2cMaster.I2cAdapter.I2cStop | carambola_i2c_test/src/i2c-algo-gpio-test.c:149-156 | exactly a STOP and both lines high, unless the slave holds SDA, which makes it nothing |
| I2cMaster.I2cAdapter.I2cOutb | carambola_i2c_test/src/i2c-algo-gpio-test.c:167-209 | clocks the eight bits and a released ninth; 1 iff the slave pulls SDA in the ninth |
| I2cMaster.I2cAdapter.I2cInb | carambola_i2c_test/src/i2c-algo-gpio-test.c:212-236 | clocks eight released bits and returns the number seen on the wire |
| I2cMaster.I2cAdapter.AckNak | carambola_i2c_test/src/i2c-algo-gpio-test.c:409-423 | the ninth bit is 0 for an acknowledge, 1 otherwise |
| I2cFrames.OutFrame | carambola_i2c_test/src/i2c-algo-gpio-test.c:167-209 | a slave between frames receives exactly the byte, and the acknowledge seen is its own |
| I2cFrames.InFrame | carambola_i2c_test/src/i2c-algo-gpio-test.c:212-236 | the byte read is the one the slave sends, and it sees the acknowledge given |
| I2cFrames.FollowBits | carambola_i2c_test/src/i2c-algo-gpio-test.c:541-607 | bits move the signalling grammar through a frame of nine |
| I2cFrames.FrameDone | carambola_i2c_test/src/i2c-algo-gpio-test.c:541-607 | nine pulses from between frames lead to between frames, the whole log still well-shaped |
| I2cFrames.RefusedByte | carambola_i2c_test/src/i2c-algo-gpio-test.c:425-475 | a slave left without its acknowledge slot takes the next byte's first clock for a refusal, and that byte reads 0xFF |
| I2cMessage.OutFrame | carambola_i2c_test/src/i2c-algo-gpio-test.c:167-209 | a byte sent to a slave between frames moves it by exactly that byte, the result being its own acknowledge |
| I2cMessage.TryAddress | carambola_i2c_test/src/i2c-algo-gpio-test.c:343-366 | the slave sees `tries` refused attempts, each ended with STOP and START, and one final attempt; that is the first acknowledged one, or the last the retries allow |
| I2cMessage.RetriedIs | carambola_i2c_test/src/i2c-algo-gpio-test.c:351-359 | each refused attempt is the address byte, a STOP and a START |
| I2cMessage.WrittenIs | carambola_i2c_test/src/i2c-algo-gpio-test.c:368-407 | a delivered write is its bytes in order, each acknowledged |
| I2cMessage.ReadOutIs | carambola_i2c_test/src/i2c-algo-gpio-test.c:425-475 | a delivered read is its bytes in order, each but the last acknowledged |
| I2cMessage.StopStart | carambola_i2c_test/src/i2c-algo-gpio-test.c:353-358 | between frames exactly a STOP and a START |
| I2cMessage.SendBytes | carambola_i2c_test/src/i2c-algo-gpio-test.c:368-407 | a listening slave receives the buffer byte for byte up to the first one it refuses and nothing after; success iff it refuses none or NAKs are ignored; on success with NAKs counting everything was acknowledged; afterwards an addressed slave leaves SDA alone |
| I2cMessage.UnackedRead | carambola_i2c_test/src/i2c-algo-gpio-test.c:425-475 | n bytes clocked without acknowledge slots are the slave's byte and then 0xFF; the slave sees one byte, refused |
| I2cMessage.UnackedRightIff | carambola_i2c_test/src/i2c-algo-gpio-test.c:425-475 | such a read is right whatever the slave holds iff it has at most one byte |
| I2cMessage.FinishByte | carambola_i2c_test/src/i2c-algo-gpio-test.c:409-423 | the acknowledge slot completes the nine-bit frame of a read byte |
| I2cMessage.ReadOneMore | carambola_i2c_test/src/i2c-algo-gpio-test.c:425-475 | one more byte continues a read: the byte is the slave's, and the slave has sent all so far, acknowledged as long as more were to come |
| I2cMessage.ReadBytes | carambola_i2c_test/src/i2c-algo-gpio-test.c:425-475 | on success the buffer is what the slave had to send, byte after byte, and every byte but the last is acknowledged, or, without acknowledge slots, its first byte followed by 0xFF; an SMBus length byte between 1 and 32 grows the message by that, exactly the others end it with -EPROTO; the buffer beyond what was read is untouched |
| I2cMessage.PullsIff | carambola_i2c_test/src/i2c-algo-gpio-test.c:425-475 | between two messages a slave holds SDA iff it offers a byte below 128 |
| I2cMessage.Repstart | carambola_i2c_test/src/i2c-algo-gpio-test.c:138-146 | a repeated START from any point between two messages, lost with the byte on offer iff the slave holds SDA |
| I2cMessage.SevenBitAddress | carambola_i2c_test/src/i2c-algo-gpio-test.c:527-535 | the slave saw the one address byte, after as many refused attempts as precede its first acknowledge; -ENXIO iff there is none within the retries; with NAKs ignored the byte is sent once |
| I2cMessage.TenBitAddress | carambola_i2c_test/src/i2c-algo-gpio-test.c:496-526 | the slave saw both bytes and, to read, the repeated START and first byte again, each first byte retried up to its first acknowledge or the last retry; -ENXIO or -EIO if one of them is refused for good; with NAKs ignored no byte is sent twice |
| I2cMessage.DoAddress | carambola_i2c_test/src/i2c-algo-gpio-test.c:485-539 | with NAKs counting: retries exactly until the first acknowledge or until the adapter's retries are used up, at the first step and at the last one of a ten-bit read, -ENXIO or -EIO for the step refused, and what the slave saw in each case; with NAKs ignored: success, no byte sent twice |
| I2cTransfer.Address | carambola_i2c_test/src/i2c-algo-gpio-test.c:560-574 | START and addressing of a message after any other: the slave saw exactly these, as `DoAddress` says; the START is lost iff the slave holds SDA with a byte below 128 |
| I2cTransfer.Payload | carambola_i2c_test/src/i2c-algo-gpio-test.c:575-596 | the data phase from any slave between two messages: what was read or written is what the slave saw, byte for byte; 0 only if all of the message's length passed; a write to a listening slave fails with -EIO iff it refuses a byte whose NAK counts, a read only with -EPROTO for a bad length byte |
| I2cTransfer.XferMessage | carambola_i2c_test/src/i2c-algo-gpio-test.c:558-596 | one message, with any flags and after any other: the slave's record grows by its START, addressing and data and nothing else; with a START, it is left offering a byte only by a read of nothing, and always by one whose NAKs count; the buffer holds what was read and nothing else changes in it |
| I2cTransfer.JournalRecord | carambola_i2c_test/src/i2c-algo-gpio-test.c:557-598 | the slave's record is what it was and the messages' shares in turn, with nothing between them |
| I2cTransfer.XferNext | carambola_i2c_test/src/i2c-algo-gpio-test.c:557-598 | one step of the loop keeps the books of everything carried out so far |
| I2cTransfer.XferMessages | carambola_i2c_test/src/i2c-algo-gpio-test.c:557-598 | the loop over any list of messages: each of those carried out as one message is, in order, all with success but perhaps the last; the others' lengths and buffers untouched |
| I2cTransfer.StopAfter | carambola_i2c_test/src/i2c-algo-gpio-test.c:600-602 | both lines end high iff no slave is held up offering a byte below 128, which otherwise keeps SDA low |
| I2cTransfer.BitXfer | carambola_i2c_test/src/i2c-algo-gpio-test.c:541-607 | for every list of messages, unless the clock was lost, a START swallowed or an acknowledge slot misplaced, each of which is told with its occasion: both lines end high iff the slave is not left offering a byte below 128; everything signalled is a well-shaped run of transfers unless a read left out acknowledge slots; the slave's record grows by START, every message's share and STOP, successful or not, and the share of each successful message that is `Strict` (no ignored NAK; a read has its slave sending) is its delivery; separate read buffers hold what was read and write buffers are unchanged; the addressing of each message goes on to the first acknowledge or the adapter's last retry, and each error code has its occasion; a slave that acknowledges everything lets every plain transfer succeed |
| I2cTransfer.RefusedIff | carambola_i2c_test/src/i2c-algo-gpio-test.c:343-366 | a message of a transfer ends with -ENXIO iff none of the 1 + retries attempts at its first address byte is acknowledged, or the second byte of a ten-bit address is not; in the first case the slave saw exactly those attempts |
| I2cTransfer.HeldSince | carambola_i2c_test/src/i2c-algo-gpio-test.c:557-602 | a slave that can swallow a repeated START or STOP was left so by an earlier read of nothing, or by a first message without a START, and only empty messages without a START lie between |
| I2cAddress.SevenBitReaches | carambola_i2c_test/src/i2c-algo-gpio-test.c:527-535 | whatever was addressed before, a seven-bit address reaches the slave and direction it names iff it does not look like a ten-bit prefix |
| I2cAddress.TenBitWriteReaches | carambola_i2c_test/src/i2c-algo-gpio-test.c:496-513 | whatever was addressed before, a ten-bit write reaches the slave it names, whatever the retries |
| I2cAddress.TenBitReadReaches | carambola_i2c_test/src/i2c-algo-gpio-test.c:514-526 | whatever was addressed before, a ten-bit read reaches the slave it names iff its last step needs no retry |
| I2cAddress.AddressingReaches | carambola_i2c_test/src/i2c-algo-gpio-test.c:485-539 | the three in one: the slave meant is addressed iff the addressing names it |
| I2cAddress.NamesForSure | carambola_i2c_test/src/i2c-algo-gpio-test.c:343-366 | every outcome of the addressing names the slave iff the address is no ten-bit prefix, or has ten bits and is written to or never retried |
| I2cAddress.DeliveryDirected | carambola_i2c_test/src/i2c-algo-gpio-test.c:558-596 | then every byte of the message's data passes while that slave is the one addressed |
| I2cAddress.TransferDirected | carambola_i2c_test/src/i2c-algo-gpio-test.c:541-607 | so it is for each addressed message of any transfer that went through and is `Strict`, at its place in the slave's record, whatever came before and whatever the other messages are |
| I2cAddress.ContinuedDirected | carambola_i2c_test/src/i2c-algo-gpio-test.c:559-596 | a message without a START that went through and is `Strict` passes every byte to and from the slave addressed before it |
| I2cAddress.EmptyReadHoldsWire | carambola_i2c_test/src/i2c-algo-gpio-test.c:425-475 | after an acknowledged read address the slave holds SDA iff its first data bit is 0 |
| PcmRing.SizesExactIff | ath-i2s-qca/src/ath79-mbox.c:179-184 | every descriptor gets the size it should have iff the period or the buffer is below the 12-bit field's range |
| PcmRing.LoopEndsIff | ath-i2s-qca/src/ath79-mbox.c:166-201 | the loop ends iff the period or the buffer is below that range |
| PcmRing.AdmittedPeriodsEnd | ath-i2s-qca/src/ath79-pcm.c:68 | for every period the driver admits it does |
| PcmRing.FullPeriodStalls | ath-i2s-qca/src/ath79-mbox.c:179-201 | two examples: a period of 4096, and a 4096-byte buffer with a longer period, keep the offset at 0 for ever |
| PcmRing.TilesOffsets | ath-i2s-qca/src/ath79-mbox.c:154-212 | tiles lie at the running sum of the sizes before them, and the sizes add up to the buffer |
| PcmRing.TurnVisitsAll | ath-i2s-qca/src/ath79-mbox.c:191-207 | one turn visits every descriptor once, in list order |
| PcmRing.TourIsCycle | ath-i2s-qca/src/ath79-mbox.c:191-207 | following NextPtr by address goes round the whole list in order, for ever |
| PcmRing.NextSize | ath-i2s-qca/src/ath79-mbox.c:179-184 | a whole period, or what is left of the buffer |
| PcmRing.Append | ath-i2s-qca/src/ath79-mbox.c:166-200 | one more descriptor keeps tiling and chaining |
| PcmRing.CoverBuffer | ath-i2s-qca/src/ath79-mbox.c:164-201 | terminates with exactly as many descriptors as the buffer needs |
| PcmRing.DmaMap | ath-i2s-qca/src/ath79-mbox.c:154-212 | the ring tiles the buffer without gap or overlap, all descriptors owned by the hardware and linked in one cycle |
| PcmStream.FlipAt | ath-i2s-qca/src/ath79-pcm.h:79-93 | flipping one OWN bit moves exactly that descriptor's bytes between the two sides |
| PcmStream.ArcStep | ath-i2s-qca/src/ath79-pcm.h:108-124 | a hardware step keeps the finished descriptors one arc ending before it |
| PcmStream.OnlyBoundary | ath-i2s-qca/src/ath79-pcm.h:108-124 | in an arc only the hardware's descriptor is owned with a finished predecessor |
| PcmStream.LastPlayedIsPosition | ath-i2s-qca/src/ath79-pcm.h:108-124 | the scan finds the hardware's descriptor iff the arc is neither empty nor full, else nothing |
| PcmStream.PointerIsPosition | ath-i2s-qca/src/ath79-pcm.c:290-305 | the reported position is the number of bytes before the hardware's descriptor |
| PcmStream.AlwaysAnArc | ath-i2s-qca/src/ath79-pcm.c:74-107 | over any run of hardware steps and interrupts the finished descriptors are one arc, as long as what was played since the last interrupt |
| PcmStream.InterruptReports | ath-i2s-qca/src/ath79-pcm.c:74-107 | so every interrupt's last-played result is exact |
| PcmStream.DisturbedScanIff | ath-i2s-qca/src/ath79-pcm.h:79-93 | a scan the hardware runs through leaves an arc iff the hardware did not finish a passed descriptor and then one not yet passed; the arc is what it finished behind the scan |
| PcmStream.InterleavedScanBreaksArc | ath-i2s-qca/src/ath79-pcm.h:79-93 | a scan the hardware runs through can leave no arc at all |
| PcmStream.PcmRuntime.constructor | ath-i2s-qca/src/ath79-pcm.c:126-174 | a fresh stream has counted and completed nothing |
| PcmStream.PcmRuntime.TakeBack | ath-i2s-qca/src/ath79-pcm.h:85-90 | one visit counts exactly the bytes it takes back, the hardware moving around it, and is one step of the disturbed scan |
| PcmStream.PcmRuntime.SetOwnBits | ath-i2s-qca/src/ath79-pcm.h:79-93 | bytes counted plus bytes still clear equal bytes cleared before plus bytes completed meanwhile; whatever was finished before the scan is counted; the outcome is that of a disturbed scan; undisturbed, the ring is emptied |
| PcmStream.PcmRuntime.GetLastPlayed | ath-i2s-qca/src/ath79-pcm.h:108-124 | changes nothing itself; undisturbed, it is the boundary search |
| PcmStream.PcmRuntime.PlaybackInterrupt | ath-i2s-qca/src/ath79-pcm.c:74-107 | conservation of bytes under any interleaving; elapsed stays below a period and congruent to the bytes counted; one signal iff a period came together |
| PcmStream.PcmRuntime.Prepare | ath-i2s-qca/src/ath79-pcm.c:251-270 | everything goes back to the hardware, nothing is counted |
| Division.ModAdd | ath-i2s-qca/src/ath79-pcm.c:92-98 | reducing as one goes is reducing at the end |
| I2sPlayback.PendingFront | ath-i2s/src/ath_i2s.c:398-475 | what waits in the ring starts with the descriptor the hardware is at |
| I2sPlayback.PendingFrame | ath-i2s/src/ath_i2s.c:441-463 | writing to a descriptor outside the owned arc disturbs nothing that waits |
| I2sPlayback.HandOver | ath-i2s/src/ath_i2s.c:441-463 | setting OWN at the tail appends that payload to what waits and extends the arc by one |
| I2sPlayback.PendingPop | ath-i2s/src/ath_i2s.c:398-475 | the hardware's step moves the first waiting payload to the end of what has been played |
| I2sPlayback.ArcPop | ath-i2s/src/ath_i2s.c:398-475 | and shortens the arc at its front |
| I2sPlayback.Player.constructor | ath-i2s/src/ath_i2s.c:205-240 | an empty ring owned by the driver |
| I2sPlayback.Player.WaitForTail | ath-i2s/src/ath_i2s.c:432-439 | waiting for the tail to come free ends, the ring having been full |
| I2sPlayback.Player.LoadSlot | ath-i2s/src/ath_i2s.c:442-457 | only the first `length` bytes of the copied buffer count as payload, and they are the caller's |
| I2sPlayback.Player.GiveSlot | ath-i2s/src/ath_i2s.c:458-461 | one payload more is accepted, in order |
| I2sPlayback.Player.FillRing | ath-i2s/src/ath_i2s.c:441-463 | takes a prefix, whole buffers unless it takes all; before playback starts, as much as the ring holds |
| I2sPlayback.Player.Wr | ath-i2s/src/ath_i2s.c:398-475 | accepts exactly the prefix it reports, never nothing of something, and less than all only for a full ring; FIFO order with the DMA engine running beside it |
| I2sPlayback.Player.Pass | ath-i2s/src/ath_i2s.c:544-574 | the whole buffer is accepted once per pass; starting over needs a length that leaves 11 modulo 768, is certain for 11, and is certain for all of them on a full ring played from only while the driver sleeps; a first write up to 98315 bytes starts over iff it has 11 or 98315 |
| I2sPlayback.Player.Write | ath-i2s/src/ath_i2s.c:530-577 | a length that does not leave 11 modulo 768 is accepted exactly once, in order, whatever ring and DMA engine are at; otherwise the buffer is queued once per pass |
| I2sPlayback.BadLengthNeverEnds | ath-i2s/src/ath_i2s.c:544-574 | for every length that leaves 11 there is a ring that makes the write start over again and again: after any number of passes it has not ended, and has accepted the filling and the buffer that many times |
| UartBaud.RateNearest | ath-hs-uart/src/ar934x_hs_uart.c:200-217 | the rate is the integer nearest to clk * step / (2^17 * (scale + 1)), the step the largest whose unrounded rate is not above the one asked for |
| UartBaud.RangeIs | ath-hs-uart/src/ar934x_hs_uart.c:733-737 | the range reaches from 300, or the slowest rate of the generator, to 30 million, or its fastest |
| UartBaud.RateError | ath-hs-uart/src/ar934x_hs_uart.c:203-217 | at every scale the rate achieved is at most the one asked for and short of it by less than clk/div + 1/2 |
| UartBaud.StepMono | ath-hs-uart/src/ar934x_hs_uart.c:235-240 | a larger scale never has a smaller step, so the early exit discards nothing |
| UartBaud.ProductFits | ath-hs-uart/src/ar934x_hs_uart.c:235-236 | the 32-bit product cannot wrap before the exit |
| UartBaud.ExactStep | ath-hs-uart/src/calc_div.c:47-52 | so the step computed is the true one at every scale looked at |
| UartBaud.BestNext | ath-hs-uart/src/ar934x_hs_uart.c:242-248 | one comparison keeps the best setting so far, the smaller scale on ties |
| UartBaud.NothingBeyond | ath-hs-uart/src/ar934x_hs_uart.c:239-240 | the best before the exit is the best of all |
| UartBaud.GetScaleStep | ath-hs-uart/src/ar934x_hs_uart.c:219-251 | the pair with the least error among all scales whose step is in bounds, smallest scale on ties; (0, 0) if none achieves a rate |
| UartBaud.StepOneAchieves | ath-hs-uart/src/ar934x_hs_uart.c:733-734 | the first scale with a step has step 1 and achieves a rate |
| UartBaud.SomeScaleAchieves | ath-hs-uart/src/ar934x_hs_uart.c:219-251 | then some usable scale achieves a rate |
| UartBaud.InRangeHasSetting | ath-hs-uart/src/ar934x_hs_uart.c:219-251 | if the top of the probe's range has a usable first scale, every search in the range ends with a step between 1 and 0x3333, a rate between 1 and the one asked for, and the error bound |
| UartBaud.ServesRangeIff | ath-hs-uart/src/ar934x_hs_uart.c:733-737 | for every clock: all rates of the probe's range get a setting iff the range is empty or its top has a usable first scale |
| UartBaud.FastClockUsable | ath-hs-uart/src/ar934x_hs_uart.c:736-737 | above a clock of 65536 it has |
| UartBaud.FastClockServes | ath-hs-uart/src/ar934x_hs_uart.c:733-737 | so those clocks serve their whole range |
| UartBaud.SlowClockFails | ath-hs-uart/src/ar934x_hs_uart.c:736-737 | at a clock of 65536 the probe's maximum rate has no setting |
| UartTx.PopWaiting | ath-hs-uart/src/ar934x_hs_uart.c:393-395 | advancing the tail removes exactly the oldest character |
| UartTx.PushWaiting | ath-hs-uart/src/ar934x_hs_uart.c:365-404 | storing at the head appends exactly one character |
| UartTx.HsUart.StartTxInterrupt | ath-hs-uart/src/ar934x_hs_uart.c:115-119 | shadow and register agree with the bit on |
| UartTx.HsUart.StopTxInterrupt | ath-hs-uart/src/ar934x_hs_uart.c:121-125 | shadow and register agree with the bit off |
| UartTx.HsUart.Enqueue | ath-hs-uart/src/ar934x_hs_uart.c:159-164 | a character is taken iff there is room, appended, and the interrupt that will send it is on unless stopped |
| UartTx.HsUart.Stop | ath-hs-uart/src/ar934x_hs_uart.c:166-171 | the invariant with the transmit interrupt off, the receive interrupt as it was |
| UartTx.HsUart.Restart | ath-hs-uart/src/ar934x_hs_uart.c:159-164 | the invariant with the transmit interrupt on, the receive interrupt as it was |
| UartTx.HsUart.SendXChar | ath-hs-uart/src/ar934x_hs_uart.c:159-164 | start_tx for a flow control character: it is pending with the interrupt on |
| UartTx.HsUart.DrainRing | ath-hs-uart/src/ar934x_hs_uart.c:375-397 | moves as many characters as the least of four, the characters there are and the looks before the first that finds no room: the flow control one first, then the oldest of the ring in order, each after a look of its own |
| UartTx.HsUart.TxChars | ath-hs-uart/src/ar934x_hs_uart.c:365-404 | nothing while stopped; else exactly such a burst, the transmit interrupt on again iff it was or characters are left, the receive interrupt as it was |
| UartTx.HsUart.Interrupt | ath-hs-uart/src/ar934x_hs_uart.c:406-438 | sent ++ waiting == enqueued; a non-empty ring with an unstopped transmitter keeps its interrupt on; exactly such a burst if transmit-empty is shown, enabled and the transmitter not stopped, and otherwise nothing is sent; the receive interrupt as it was |

## Left out

- `I2sPlayback.Player.Write`: the code repeats a pass that asks for it without limit; the model watches `passes` of
  them.
- `I2cTransfer.BitXfer`: once the model has lost the bus nothing is claimed about the rest of that transfer or about
  later ones. It loses it to an SCL timeout; on an adapter that cannot read SCL to any clock stretching, though nothing
  times out there (see `SclHi`); to a swallowed repeated START; and where a message without a START follows a one-byte
  read without acknowledge slots, or such a read meets a slave told to receive (I2C_M_REV_DIR_ADDR), so that bytes begin
  in the middle of a frame. A transfer that holds a read without acknowledge slots is not claimed to be signalled in
  frames of nine bits, nor are the ones after it. With buffers shared between messages nothing is claimed about them.
  `pre_xfer`, `post_xfer` and the bus test at registration are not modelled.
- `I2cTransfer.Strict`: what the data of the other messages is, that is of those that ignore missing acknowledges, or
  that read from a slave that is not sending.
- `C2Files.FlashFile`: states the outcome for a chip that answers in time. After a link error the chip may be in
  mid-frame, and what the next section then does is not modelled.
- `C2Files.VerifyFile`: likewise for a chip that answers in time.
- `C2Flash.FlashSection`: beyond the flash, for page sizes that are multiples of 256 bytes, which all families' are.
- `C2Sysfs.OpenBlock`: for a chip whose data accesses get ready within 20 strobes, here and in the rest of `C2Sysfs`;
  its PI may miss the driver's other deadlines. The device's block count and size give the size parameter.
- `C2Gpio.C2PortPin.Ioctl`: user memory that cannot be accessed (-EFAULT).
- `C2Family.Setup.Process`: the accesses behind the tokens are modelled by their results. For registers of the chip they
  are `WriteSfr` and `ReadSfr`; the PI's direct register access (`c2_read_direct`, `c2_write_direct`) and the commands
  of `c2_get_pi_info` are not part of the chip model.
- `PcmRing.DmaMap`: allocation failure is not modelled; the allocator's addresses are an input.
- `PcmStream.PcmRuntime.PlaybackInterrupt`: the playback half of the handler only; the capture half does not count
  bytes.
- `UartTx.HsUart.Interrupt`: the transmit half of the handler only.
- `c2_halt`, device and revision ids, `c2family_find`: straight sequences of the frames proved here, or a table search.
- Spin locks, sleeping and signals, faults while copying from user space (`-ERESTART`, `copy_from_user`), and time as
  such (delays, the 20 us limit on clock pulses): strobes and register accesses are atomic steps. In particular
  `ath79_pcm_get_last_played` returning with its lock held is not visible in the model.
- Reading image files (libbfd), GPIO file access, argument parsing, and messages.
- `c2t-new` and `ar933x_uart.c`, which repeat code modelled here; `ath_i2s_read`, `ath_i2s_desc_busy`, the consoles,
  the receive path, PLL and clock set-up, volume registers, `i2c-ralink.c`, and the board files.
