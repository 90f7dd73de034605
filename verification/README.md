# Verified model of the GD32VW55x platform's stateful core

The repository is the firmware SDK of a Wi-Fi/BLE microcontroller, its main boot
loader, and the host tool that flashes it over a serial line. This project models
the parts of it whose correctness is spread over several functions, tasks or
interrupts, and proves what they promise together:

- **A/B boot and over-the-air update** (`ImageStatus`, `BootLoader`, `Recovery`,
  `OtaWriter`). Two flash slots, a status byte per slot, the running index and a
  version counter. `Recovery` is a machine whose every step is one persistent
  write, so that power can be lost between any two; page writes may be torn and the
  application's flag writes may fail. `RecoveryGuarantee` says that a device that once ran a
  genuine image always finds its way back to a genuine image. The loader and the
  update task are classes proved to do exactly what the machine's steps say.
- **SPI receive queue and connection table** (`CipTable`, `CipMachine`, `CipRuns`,
  `CipStores`). The table operations are methods on a class; `CipMachine` interleaves
  the receive task, the AT task, both notifiers and the hardware. `QueueGuarantee`
  gives exact counters and a bound of 17 nodes, `DeliveryGuarantee` byte-exact,
  in-order delivery. `CipRuns` has the runs that show where delivery and the
  data-ready pulses go wrong, with the exact conditions. `CipStores` splits the
  unlocked table updates into their memory accesses.
- **SPI DMA join** (`SpiDma`). Two completion interrupts release one waiting task;
  `JoinGuarantee` covers every interleaving, spurious interrupts included, and
  `JoinsRightIff` says exactly which transfers it holds for.
- **Serial flasher** (`Nor`, `IspFrames`, `IspFlasher`, `IspPreload`). Frames and
  their decoders, stop-and-wait with six tries over a lossy line to a loader on NOR
  flash (erase sets bits, programming clears them), the closing hash check, and the
  ROM-stage page writes.
- **Event loop timeouts** (`EventLoop`). A sorted list over a 32-bit clock.
- **Command line** (`CyclicBuffer`, `Shell`, `Tokenizer`). Interrupt and task share
  a ring of text and a queue of lengths; the tokenizer cuts a C string in place.

`Common` holds the option type, the byte type and `Min`.

## Assumptions

- A status entry is stored atomically. The ROM's validation is an uninterpreted
  function from the slot's bytes to the version it accepts; SHA-256 is an
  uninterpreted 32-byte function. `rom_sys_set_fw_ver` refuses an older version,
  keeps an equal one and stores a newer one.
- In runs of the machine the boot loader's own flag writes succeed and its status
  reads do not err (`BootImageFind` itself models the read errors). The
  application's flag writes and flash operations may fail.
- The layout is that of the build that boots from ROM (`RE_MBL_OFFSET` 0x1000, image
  overhead 0x200), and `boot_opt` is one of its three named values.
- The critical sections of the shell's interrupt handler, of the list lock and of
  the notifiers are single steps, as are a ring read and a ring write.
- In `CipMachine` and `CipRuns` storing a connection and freeing one are single steps
  too, although the source does both without a lock: their claims are about
  interleavings in which these calls do not overlap. `CipStores` has the overlapping
  ones.
- The network stack hands out a descriptor again only after it was closed.
- The serial loader and the ROM bootloader at the far end are faithful: they take
  well-formed frames, take the expected block number once and acknowledge the
  previous one again. A reply may be lost but is not delayed.

## Where the code does not keep a promise

Each item has a counterexample or an exact condition among the members below.

- Without verification (`IBL_VERIFY_NONE`, which the loader falls into when it was
  not started by the ROM) the recovery guarantee fails for every content:
  `UnverifiedBootRunsAnything`.
- The shell's image switch ignores a failed read of the running index and continues
  with 0; `MisreadSwitchSurvivesIff` says when that is survived, and
  `MisreadSwitchStrands` that it is not on a device updated from image 0 to a newer
  image 1, if power is lost after the second flag write.
- With an image overhead of zero (the `RE_MBL_OFFSET` 0 build, which is what
  `config_gdm32.h` line 48 selects) the header lies below the range that the flash
  controller remaps: `HeaderIsInSlotIff`. As that build's loader is not started by the
  ROM it does not verify, so the misplaced read would need a verifying mode as well.
- The 128th character of a line empties the handler's buffer without a word, so that
  what is typed after it is executed as if it were the whole line:
  `TailIsExecuted`, and exactly when: `EveryCommandIsALine`.
- The ring of the command line has 4 × 128 cells but holds 511 bytes, so four of the
  longest lines do not fit and ring and queue fall out of step: `OverflowIff`,
  `FullHouseLosesALine`, `FullHouseIsReachable`. No byte is then read for the line; the
  model takes that as an empty command, while the source searches a buffer that
  nothing has filled and may write in front of it.
- A socket is closed before its table entry is freed on five paths (lines 1504, 1562,
  1606, 1647 and 1651 of `atcmd_tcpip.c`). If the AT task stores the same descriptor
  in between, the master may be given the old connection's bytes as the new one's:
  `MisdeliveryIsReached`, and exactly when: `ReuseIff`.
- The AT task clears `triger_count` after the response is out and the SPI manager
  listens again. A pulse raised in that window is forgotten and a second one follows
  with no command in between: `TwoPulses`, and exactly when: `OnePulseIff`. There are
  never more than two, and only one if the master waits for its prompts:
  `PulseGuarantee`.
- `cip_info_cli_store` and `cip_info_cli_free` update the table and `cli_num` without
  a lock from two tasks, so that one connection can be counted twice or an update be
  lost: `RaceIsReached`, and exactly when: `CountExactIff`.
- A transfer begun while a channel it joins on can still interrupt may be released
  early: `EarlyWakeIsReached`, and exactly when: `JoinsRightIff`.
- The flasher skips the preload when a loader is already running, but numbers its
  blocks from 1 again. A loader that expects number 2 acknowledges the first block
  without taking it, which the hash check finds unless two contents share a digest;
  any other number but 1 ends in a cancel: `SramLoader.FlashImage`.
- Timeouts are inserted by plain comparison but fired by circular comparison. Across
  the 32-bit wrap the order breaks (`OrderSurvivesWrapIff`), with the consequence that
  an overdue timeout waits behind one that is not yet due (`WrapFiresLate`); none fires
  early (`FiringGuarantee`), except that a delay over 2^31 ms fires at once
  (`FiresAtOnceIff`).
- A partial read that finds no memory for the remainder leaves the list locked:
  `CipInfo.RecvData`.
- An argument that needs quotes and holds both kinds of quote cannot be written on
  the command line: `SurvivesIff`.

A chunk dropped by a full list is counted twice in the source, so that the next chunk
would be lost with it (`DropLosesTheRead`); this is not among the broken promises,
because by `QueueGuarantee` the list is never full.

## Model

| member | source | states |
|---|---|---|
| `ImageStatus.Select` | gd32_os/MBL/mainboot/mbl_image_validate.c:85-129 | the chosen slot is eligible, fresh whenever some slot is fresh, image 0 on a tie, and none is chosen only when none is eligible |
| `ImageStatus.RightChoiceIsUnique` | gd32_os/MBL/mainboot/mbl_image_validate.c:85-129 | that order-free rule determines the selection for every pair of status reads |
| `ImageStatus.FlagKeepsOtherBits` | gd32_os/MBL/mainboot/mbl_image_validate.c:96-96 | a flag write keeps every bit outside its mask |
| `ImageStatus.MarkingOkKeepsSelection` | gd32_os/MBL/mainboot/mbl.c:291-291 | marking the selected image VERIFY_OK never changes the next selection |
| `ImageStatus.MarkingFailMovesOn` | gd32_os/MBL/mainboot/mbl.c:281-284 | marking it VERIFY_FAIL moves the selection to the other slot if that is eligible, and to "no image" otherwise |
| `BootLoader.MappedRangeIsTheSlot` | gd32_os/MBL/mainboot/mbl.c:160-168 | with the mapping in force every address of image 0's range reads the same offset of the selected slot |
| `BootLoader.HeaderIsInSlotIff` | gd32_os/MBL/mainboot/mbl_region.h:40-46 | the header reads resolve to the selected slot if and only if the overhead has room for the header |
| `BootLoader.ReadIsContents` | gd32_os/MBL/mainboot/mbl.c:270-281 | what is validated through the mapping is exactly the selected slot's image |
| `BootLoader.FirstBootMarksNewer` | gd32_os/MBL/mainboot/mbl_image_validate.c:92-98 | selection writes the NEWER flag of image 0 when there are no status entries, and nothing in any other case |
| `BootLoader.Validate` | gd32_os/MBL/mainboot/mbl_image_validate.c:159-212 | in the verifying modes, success if and only if the ROM accepts the image and it is not older than the counter, and then the counter equals its version; -3, -4 and -5 each for exactly their check; a failure changes nothing; without verification nothing is checked or recorded |
| `BootLoader.PassChangesOnly` | gd32_os/MBL/mainboot/mbl.c:262-308 | a failed pass changes only the failed slot's mark, a successful one only the mark, the counter and the running index |
| `BootLoader.ResetCondemns` | gd32_os/MBL/mainboot/mbl.c:281-308 | every pass that ends in a reset condemns one more slot and leaves the other alone |
| `BootLoader.ResetLoopEnds` | gd32_os/MBL/mainboot/mbl.c:281-308 | from any flag state the reset loop ends after at most two failed validations |
| `BootLoader.Board.SetImgFlag` | gd32_os/MBL/mainboot/mbl.c:284-292 | one masked flag write |
| `BootLoader.Board.BootImageFind` | gd32_os/MBL/mainboot/mbl_image_validate.c:51-149 | the tests in the source's order compute the selection rule, with each error code, and create the NEWER flag on a first boot only |
| `BootLoader.Board.ImageXValidate` | gd32_os/MBL/mainboot/mbl_image_validate.c:159-212 | validates the selected slot through the mapping, with the codes -3, -4, -5, and raises the counter accordingly |
| `BootLoader.Board.BootPass` | gd32_os/MBL/mainboot/mbl.c:262-308 | one pass: select, map, validate, mark, then jump, reset or halt |
| `BootLoader.Board.PowerUp` | gd32_os/MBL/mainboot/mbl.c:262-308 | repeated passes compute the boot chain and stop with a jump or without an image |
| `Recovery.AnchorRecovers` | gd32_os/MBL/mainboot/mbl_image_validate.c:96-124 | a confirmed slot whose version is the counter keeps the device recoverable, whatever the other slot and its flags are |
| `Recovery.AppStepKeepsAnchor` | gd32_os/MSDK/app/ota_demo.c:623-630 | no write to the other slot and no flag write, in any order and with any failing, disturbs the running image's anchor |
| `Recovery.StepKeepsInv` | gd32_os/MBL/mainboot/mbl.c:262-308 | every single persistent write and every loss of power keeps the recovery invariant |
| `Recovery.RecoverableBoots` | gd32_os/MBL/mainboot/mbl.c:262-308 | from a recoverable state the uninterrupted boot chain ends executing an image that validates and equals the counter |
| `Recovery.RecoveryGuarantee` | gd32_os/MBL/mainboot/mbl.c:262-308 | in every run of boots, downloads and switches from a working or factory-fresh device, with power lost anywhere: never "no image", an executing image is genuine with its version equal to the counter, and the next boot chain ends in a genuine image |
| `Recovery.CounterNeverDecreases` | gd32_os/MBL/mainboot/mbl_image_validate.c:191-207 | the version counter never decreases between any two points of any run |
| `Recovery.CounterStaysUnverified` | gd32_os/MBL/mainboot/mbl_image_validate.c:168-169 | without verification the counter is the same at any two points of any run |
| `Recovery.MarkKept` | gd32_os/MBL/mainboot/mbl_image_validate.c:96-124 | only an update that clears the flags removes a VERIFY_FAIL mark |
| `Recovery.FailedStaysOut` | gd32_os/MBL/mainboot/mbl_image_validate.c:96-124 | in every run a failed image is not chosen again until an update clears its flags |
| `Recovery.AtMostTwoFailures` | gd32_os/MBL/mainboot/mbl.c:281-308 | until some slot's flags are cleared at most two validations fail, other flag writes and power losses included |
| `Recovery.BootOnceIsARun` | gd32_os/MBL/mainboot/mbl.c:262-308 | a whole pass of the loader is a run of the machine with the same end |
| `Recovery.UpdateIsSelected` | gd32_os/MSDK/app/ota_demo.c:624-626 | after the three flag writes the new image is selected |
| `Recovery.UpdateTakesEffectIff` | gd32_os/MSDK/app/ota_demo.c:623-632 | after them the boot chain executes the new image if it is genuine and not older than the counter, and the old one otherwise |
| `Recovery.UnverifiedBootRunsAnything` | gd32_os/MBL/mainboot/mbl.c:206-211 | without verification, a run from any working device to the execution of any content at all |
| `Recovery.OnlySlotZero` | gd32_os/MBL/mainboot/mbl_image_validate.c:96-124 | with slot 1 not eligible the boot chain ends in a genuine image if and only if slot 0 is eligible and authentic |
| `Recovery.MisreadSwitchSurvivesIff` | gd32_os/MSDK/app/cmd_shell.c:1880-1898 | after a misread index, whichever of the three flag writes take effect, the device survives if and only if the second did not act without the third or image 0 is genuine and still eligible |
| `Recovery.MisreadSwitchStrands` | gd32_os/MSDK/app/cmd_shell.c:1885-1889 | a device updated from image 0 to a newer image 1 boots nothing after a misread switch whose third write is missing |
| `OtaWriter.Recv` | gd32_os/MSDK/app/ota_demo.c:557-575 | a read returns at most what was asked and what is there, or an error |
| `OtaWriter.EachPageErasedOnce` | gd32_os/MSDK/app/ota_demo.c:536-543 | in the writer's log of flash operations no page is erased twice |
| `OtaWriter.ErasedBeforeWritten` | gd32_os/MSDK/app/ota_demo.c:536-545 | every byte written lies in a page erased earlier in the log |
| `OtaWriter.FlashOpIsAStep` | gd32_os/MSDK/app/ota_demo.c:536-549 | every flash operation the writer issues, complete or torn, is a step of the recovery machine |
| `OtaWriter.Updater.EraseNext` | gd32_os/MSDK/app/ota_demo.c:537-542 | one further page of the slot is erased and logged, what is stored stays |
| `OtaWriter.Updater.EraseAhead` | gd32_os/MSDK/app/ota_demo.c:536-543 | erases exactly the further pages the chunk needs and nothing outside the slot |
| `OtaWriter.Updater.WriteChunk` | gd32_os/MSDK/app/ota_demo.c:545-550 | on erased pages a write extends the stored prefix of the body and leaves the rest blank |
| `OtaWriter.Updater.StoreChunk` | gd32_os/MSDK/app/ota_demo.c:536-550 | the slot then begins with all bytes received so far, the rest of the erased pages is blank |
| `OtaWriter.Updater.StoreArrived` | gd32_os/MSDK/app/ota_demo.c:529-551 | stores what has arrived, or refuses with -6 and leaves the flash alone when it would leave the slot |
| `OtaWriter.Updater.DownloadLoop` | gd32_os/MSDK/app/ota_demo.c:527-577 | success means the whole body is stored, for every split of the stream |
| `OtaWriter.Updater.HttpRspImage` | gd32_os/MSDK/app/ota_demo.c:501-582 | only the inactive slot changes and every operation issued lies in it; unless flash fails pages are erased once, when needed and before use; return 0 means the slot begins with the body; what each other result means; a body that all arrives over working flash is always stored |
| `OtaWriter.Updater.SetImageStatus` | gd32_os/MSDK/app/ota_demo.c:623-630 | all three flag writes are attempted, each may fail |
| `OtaWriter.Updater.OtaDemoTask` | gd32_os/MSDK/app/ota_demo.c:589-644 | the flags are written only after a complete download; whatever fails the device still boots a genuine image; on success the next boot executes the body if genuine and the old image otherwise |
| `OtaWriter.Updater.CmdImageSwitch` | gd32_os/MSDK/app/cmd_shell.c:1880-1898 | the three writes for the index read, or for 0 when the read failed; with a good read the device still boots a genuine image |
| `OtaWriter.FlagWriteKeepsAnchor` | gd32_os/MSDK/app/ota_demo.c:624-626 | each flag write keeps the running image bootable |
| `OtaWriter.UpdateKeepsAnchor` | gd32_os/MSDK/app/ota_demo.c:613-630 | so does any change of the other slot followed by any subset of the flag writes |
| `Nor.AndByte` | tools/gd32_isp_flash.py:283-283 | 0xFF is neutral for programming, on both sides |
| `Nor.XorByte` | tools/gd32_isp_flash.py:109-114 | XOR on octets cancels and is zero only for equal octets |
| `Nor.BitwiseOctets` | tools/gd32_isp_flash.py:109-114 | every bit of an XOR is the sum of the bits modulo 2, and of an AND their product |
| `Nor.ProgramErased` | gd32_os/MSDK/app/ota_demo.c:536-545 | programming erased cells stores the data |
| `IspFrames.Checksum` | tools/gd32_isp_flash.py:101-106 | the loop computes the sum of seed and bytes modulo 256 |
| `IspFrames.XorBytes` | tools/gd32_isp_flash.py:109-114 | the loop computes the running XOR |
| `IspFrames.XorIsParity` | tools/gd32_isp_flash.py:109-114 | the running XOR is, bit by bit, the parity over the seed and all the bytes |
| `IspFrames.TotalOne` | tools/gd32_isp_flash.py:101-106 | the sum on one byte, which with `TotalAppend` fixes it |
| `IspFrames.TotalAppend` | tools/gd32_isp_flash.py:101-106 | the sum of two runs of bytes is the sum of their sums |
| `IspFrames.IntRoundTrip` | tools/gd32_isp_flash.py:208-209 | every 32-bit integer survives its four bytes in either order |
| `IspFrames.BlockRoundTrip` | tools/gd32_isp_flash.py:281-289 | every block frame decodes to number, address and padded data |
| `IspFrames.BlockLayout` | tools/gd32_isp_flash.py:283-289 | the frame byte by byte: start, number, complement, address low byte first, data, padding, sum |
| `IspFrames.DamagedBlockRefused` | tools/gd32_isp_flash.py:283-289 | a frame changed in any single byte is refused |
| `IspFrames.RomDataRoundTrip` | tools/gd32_isp_flash.py:212-216 | every data frame has a zero running XOR and decodes to the word-padded data |
| `IspFrames.RomDataLayout` | tools/gd32_isp_flash.py:212-216 | the data frame byte by byte: length less one, data, padding to a word, XOR |
| `IspFrames.DamagedRomDataRefused` | tools/gd32_isp_flash.py:212-216 | a data frame changed in any single byte is refused |
| `IspFrames.EraseRoundTrip` | tools/gd32_isp_flash.py:253-262 | the loader reads the 24-bit offset and exactly the sectors that cover the image |
| `IspFrames.HashRoundTrip` | tools/gd32_isp_flash.py:308-315 | the loader reads the offset and the word-aligned length |
| `IspFrames.CommandLayout` | tools/gd32_isp_flash.py:253-315 | the erase and hash commands byte by byte |
| `IspFrames.FrameSizeRoundTripIff` | tools/gd32_isp_flash.py:276-279 | the size is recovered from its high byte if and only if it is a multiple of 256 below 65536 |
| `IspFlasher.PaddingIsHarmless` | tools/gd32_isp_flash.py:283-287 | programming a padded block changes no byte beyond its data, even past the erased range or the flash |
| `IspFlasher.StoredStep` | tools/gd32_isp_flash.py:461-463 | on erased flash one more padded block extends the stored prefix of the image |
| `IspFlasher.BlockStep` | tools/gd32_isp_flash.py:461-463 | and leaves the loader with one more block taken in order, number wrapped |
| `IspFlasher.BlockAnswer` | tools/gd32_isp_flash.py:291-296 | a repeated frame is answered the same and leaves the block taken once if it was expected, never otherwise |
| `IspFlasher.TolerableGetsThrough` | tools/gd32_isp_flash.py:291-302 | a line with one clear try in every six and no cancel lets every block through |
| `IspFlasher.ThroughIff` | tools/gd32_isp_flash.py:291-302 | a block gets through if and only if one of its tries is clear and none before it was cancelled |
| `IspFlasher.TxBlockTable` | tools/gd32_isp_flash.py:454-454 | the block size for each rate |
| `IspFlasher.CountBlocks` | tools/gd32_isp_flash.py:461-461 | the number of blocks is exactly the number of starts below the length |
| `IspFlasher.FlashedByDownload` | tools/gd32_isp_flash.py:445-463 | any number of blocks stays inside the erased sectors, and all of them leave the image and 0xFF up to the word boundary |
| `IspFlasher.FirstIsBlank` | tools/gd32_isp_flash.py:461-463 | an image stored from its second block on leaves the first block erased |
| `IspFlasher.CompareMeans` | tools/gd32_isp_flash.py:326-329 | the comparison succeeds if and only if the digests of flash and padded image agree |
| `IspFlasher.SramLoader.BuildFrame` | tools/gd32_isp_flash.py:283-289 | the frame filled in step by step is the encoding that round-trips |
| `IspFlasher.SramLoader.TryBlock` | tools/gd32_isp_flash.py:291-299 | one exchange under each kind of loss |
| `IspFlasher.SramLoader.Attempt` | tools/gd32_isp_flash.py:292-299 | one turn of the retry loop: acknowledged, cancelled or once more, for every loader number |
| `IspFlasher.SramLoader.SendBlock` | tools/gd32_isp_flash.py:281-302 | succeeds if and only if the loader acknowledges the number and one of six tries is clear before a cancel; then the block was taken exactly once if expected, and both sides agree on the next number |
| `IspFlasher.SramLoader.SendFirst` | tools/gd32_isp_flash.py:461-463 | the first block, for every number the loader may expect |
| `IspFlasher.SramLoader.SendNth` | tools/gd32_isp_flash.py:461-463 | a further block, the numbers in step |
| `IspFlasher.SramLoader.SendRest` | tools/gd32_isp_flash.py:461-463 | all further blocks, each taken exactly once and in order |
| `IspFlasher.SramLoader.Download` | tools/gd32_isp_flash.py:461-463 | each block is taken exactly once and in order, past the wrap of the number too, except that a loader one number ahead never takes the first; the flash holds exactly what was taken |
| `IspFlasher.SramLoader.Prepare` | tools/gd32_isp_flash.py:445-454 | the range is erased and both sides agree on the frame size |
| `IspFlasher.SramLoader.ImageHash` | tools/gd32_isp_flash.py:308-321 | the digest of the word-aligned range, unless the line fails |
| `IspFlasher.SramLoader.Verify` | tools/gd32_isp_flash.py:304-329 | success or mismatch according to the digests, and an answer whenever the line is clear |
| `IspFlasher.SramLoader.FlashImage` | tools/gd32_isp_flash.py:445-481 | outside the image's sectors nothing ever changes; success means image and padding are there or two contents share a digest, for every loader number; with numbers in step every answer is success and they are there; a loader one ahead leaves the first block blank and the digests decide, any other cancels; clear commands and one clear try in six always give an answer |
| `IspPreload.AddressFrame` | tools/gd32_isp_flash.py:208-210 | an address frame has a zero running XOR and decodes to the address |
| `IspPreload.PageExtends` | tools/gd32_isp_flash.py:430-432 | one more 240-byte page extends the loaded prefix without gap or overlap |
| `IspPreload.RomIsp.SendAddress` | tools/gd32_isp_flash.py:208-210 | the bootloader awaits data for exactly that address |
| `IspPreload.RomIsp.SendData` | tools/gd32_isp_flash.py:212-218 | the padded data is at the address and nothing else changed |
| `IspPreload.RomIsp.WriteMemory` | tools/gd32_isp_flash.py:204-218 | succeeds if and only if no reply is lost, and then the padded data is at the address and nothing else changed |
| `IspPreload.RomIsp.Preload` | tools/gd32_isp_flash.py:430-432 | the pages rebuild any blob in SRAM, followed by 0xFF up to a word and nothing else |
| `CipTable.LiveUpdate` | gd32_os/MSDK/app/atcmd_tcpip.c:172-183 | storing and clearing an entry changes the number of live entries by one |
| `CipTable.FullIff` | gd32_os/MSDK/app/atcmd_tcpip.c:118-130 | the count is maximal if and only if no entry is vacant |
| `CipTable.WithoutMembers` | gd32_os/MSDK/app/atcmd_tcpip.c:203-217 | freeing keeps exactly the nodes of other connections |
| `CipTable.WithoutAppend` | gd32_os/MSDK/app/atcmd_tcpip.c:203-217 | freeing works on the list node by node and in order, whatever the neighbours |
| `CipTable.WithoutOne` | gd32_os/MSDK/app/atcmd_tcpip.c:203-217 | on one node: out if it is the connection's, kept otherwise |
| `CipTable.BytesWithout` | gd32_os/MSDK/app/atcmd_tcpip.c:203-217 | and the queued bytes of every other connection, in order |
| `CipTable.BytesAppend` | gd32_os/MSDK/app/atcmd_tcpip.c:1219-1219 | queueing nodes appends to a connection's bytes |
| `CipTable.ChunksKeepBytes` | gd32_os/MSDK/app/atcmd_tcpip.c:1191-1242 | cutting a read at 2048 bytes keeps its bytes in order |
| `CipTable.QueuedInOrder` | gd32_os/MSDK/app/atcmd_tcpip.c:1216-1221 | with room for the read, whatever the AT task takes meanwhile, the list is the old one and the read behind it in order, less a prefix |
| `CipTable.QueuedKeepsOrder` | gd32_os/MSDK/app/atcmd_tcpip.c:1191-1242 | with too little room too, it is the old list and a subsequence of the read behind it, less a prefix |
| `CipTable.QueuedWhenFull` | gd32_os/MSDK/app/atcmd_tcpip.c:1229-1241 | a chunk that finds the list full is passed over together with the next one |
| `CipTable.QueuedUndisturbed` | gd32_os/MSDK/app/atcmd_tcpip.c:1191-1242 | with nothing taken meanwhile, as many chunks are queued as memory and the list's limit allow |
| `CipTable.DropLosesTheRead` | gd32_os/MSDK/app/atcmd_tcpip.c:1229-1241 | on a full list, which `QueueGuarantee` excludes, a dropped first chunk takes the second with it, however far the list drains |
| `CipTable.CipInfo.constructor` | gd32_os/MSDK/app/atcmd_tcpip.c:89-110 | an empty table and list with exact counters |
| `CipTable.CipInfo.CliAlloc` | gd32_os/MSDK/app/atcmd_tcpip.c:118-130 | succeeds if and only if `cli_num` is below the maximum, with the first vacant entry |
| `CipTable.CipInfo.CliStore` | gd32_os/MSDK/app/atcmd_tcpip.c:157-186 | when it succeeds, in which entry (the one asked for or the first vacant one), what it stores, and that counters stay exact |
| `CipTable.CipInfo.DropNodes` | gd32_os/MSDK/app/atcmd_tcpip.c:203-217 | the in-place walk removes exactly the descriptor's nodes and counts them |
| `CipTable.CipInfo.CliFree` | gd32_os/MSDK/app/atcmd_tcpip.c:194-225 | the entry becomes vacant, its nodes leave, the others keep their order, counters stay exact |
| `CipTable.CipInfo.CliFind` | gd32_os/MSDK/app/atcmd_tcpip.c:233-242 | the first entry with the descriptor, or -1 if and only if there is none |
| `CipTable.CipInfo.RecvDataProcess` | gd32_os/MSDK/app/atcmd_tcpip.c:1178-1245 | which chunks are queued, for every pattern of draining by the AT task and every limit of memory, the double count included |
| `CipTable.CipInfo.RecvData` | gd32_os/MSDK/app/atcmd_tcpip.c:2229-2308 | at most the length asked for is handed out from the front, the remainder goes back to the front; each error path; the list stays locked if and only if a remainder finds no memory |
| `CipMachine.PushConserves` | gd32_os/MSDK/app/atcmd_tcpip.c:1216-1221 | queueing a chunk keeps delivered plus in-transit bytes equal to the bytes read |
| `CipMachine.FinishConserves` | gd32_os/MSDK/app/atcmd_tcpip.c:2260-2288 | so does answering with a part and pushing back the rest |
| `CipMachine.FreeConserves` | gd32_os/MSDK/app/atcmd_tcpip.c:194-225 | so does freeing another connection |
| `CipMachine.PushesAreChunks` | gd32_os/MSDK/app/atcmd_tcpip.c:1191-1242 | the machine's pushes of one read queue exactly the chunks of the table's operation |
| `CipMachine.CommandIsPopAndAnswer` | gd32_os/MSDK/app/atcmd_tcpip.c:2247-2292 | a receive command by the table's operation is the machine's pop and answer |
| `CipMachine.StoreIsOpen` | gd32_os/MSDK/app/atcmd_tcpip.c:157-186 | a store by the table's operation is the machine's open |
| `CipMachine.FreeIsFree` | gd32_os/MSDK/app/atcmd_tcpip.c:194-225 | a free by the table's operation is the machine's free |
| `CipMachine.StepKeepsInv` | gd32_os/MSDK/app/atcmd_tcpip.c:1601-1704 | every step of every task keeps counters, node sizes, the pairing of descriptors and the 17-node budget, and none drops data |
| `CipMachine.UntouchedKept` | gd32_os/MSDK/app/atcmd_tcpip.c:1604-1607 | between close and free nothing of the old connection reaches a cleanly stored new one |
| `CipMachine.StepKeepsBooks` | gd32_os/MSDK/app/atcmd_tcpip.c:1601-1704 | every step keeps the books of every open connection, a reused descriptor's included, if connections are stored cleanly |
| `CipMachine.QueueGuarantee` | gd32_os/MSDK/app/atcmd_tcpip.c:1215-1241 | in every run: exact counters, an entry vacant if and only if `cli_num` is below the maximum, nodes of 1 to 2048 bytes, at most 17 of 20 nodes so nothing is dropped, at most two pulses per command |
| `CipMachine.DeliveryGuarantee` | gd32_os/MSDK/app/atcmd_tcpip.c:2247-2292 | in every run with clean storings each open connection's bytes are delivered or on their way in the order read |
| `CipRuns.PulseGuarantee` | gd32_os/MSDK/app/atcmd_tcpip.c:1693-1704 | in every run whose commands all follow a pulse: at most one pulse between commands, raised with data queued and the SPI manager idle in AT-receive |
| `CipRuns.PulseRaisedIff` | gd32_os/MSDK/app/atcmd.c:1987-1995 | a notifier raises a pulse if and only if data is queued, the trigger is clear and the SPI manager listens with nothing received |
| `CipRuns.TwoPulses` | gd32_os/MSDK/app/atcmd_tcpip.c:2301-2302 | from every state in which a command is taken with the trigger clear, a run that raises two pulses before the next command |
| `CipRuns.OnePulseIff` | gd32_os/MSDK/app/atcmd_tcpip.c:2301-2308 | a command is followed by at most one pulse in every continuation if and only if it is taken with the trigger set |
| `CipRuns.Misdelivery` | gd32_os/MSDK/app/atcmd_tcpip.c:1604-1607 | from every unclean storing a run that hands out old bytes as those of a connection that has read none |
| `CipRuns.ReuseIff` | gd32_os/MSDK/app/atcmd_tcpip.c:1604-1607 | a connection stored on a descriptor not yet freed has its bytes conserved in every continuation if and only if no old byte is waiting to be handed out under it |
| `CipRuns.MisdeliveryIsReached` | gd32_os/MSDK/app/atcmd_tcpip.c:1647-1648 | the misdelivery in a run from the start |
| `CipRuns.SeventeenIsReached` | gd32_os/MSDK/app/atcmd_tcpip.c:1617-1622 | the bound is exact: a run from the start that reaches 17 |
| `CipStores.StepKeepsInv` | gd32_os/MSDK/app/atcmd_tcpip.c:157-225 | every access of a call that runs alone leaves the counter off by exactly what the call has still to add |
| `CipStores.CountGuarantee` | gd32_os/MSDK/app/atcmd_tcpip.c:157-225 | in every run without overlapping calls the counter is exact whenever no call is under way |
| `CipStores.OverlapMiscounts` | gd32_os/MSDK/app/atcmd_tcpip.c:172-222 | from every overlap, wherever the other task is in its call, a schedule that leaves the counter wrong |
| `CipStores.CountExactIff` | gd32_os/MSDK/app/atcmd_tcpip.c:157-225 | the counter is right under every schedule of the calls under way if and only if the call began with the other task outside |
| `CipStores.RaceIsReached` | gd32_os/MSDK/app/atcmd_tcpip.c:162-183 | from the empty table: both tasks are given entry 0 and one connection is counted as two |
| `SpiDma.StepKeepsInv` | gd32_os/MSDK/app/atcmd.c:1240-1327 | a done flag stands exactly for a completed and serviced channel, in every interleaving |
| `SpiDma.ReleaseOnlyWhenComplete` | gd32_os/MSDK/app/atcmd.c:1256-1280 | the semaphore rises only in an interrupt, for a waiting task, once per transfer, when the required channels have reached zero |
| `SpiDma.CommandIsReceived` | gd32_os/MSDK/app/atcmd.c:1270-1275 | a completed command is recorded, acknowledged next, and wakes nobody |
| `SpiDma.ReceiveIsReleased` | gd32_os/MSDK/app/atcmd.c:1260-1269 | a completed data or file receive wakes its task |
| `SpiDma.SendIsReleased` | gd32_os/MSDK/app/atcmd.c:1276-1294 | a send is released by whichever channel completes last, and after the last block of a file both channels are armed for a command |
| `SpiDma.OtherIrqsOnlyClear` | gd32_os/MSDK/app/atcmd.c:1299-1327 | an interrupt that completes nothing changes nothing but its own flag |
| `SpiDma.ListensForCommand` | gd32_os/MSDK/app/atcmd.c:1176-1208 | what listening for a command leaves |
| `SpiDma.SendsInAckState` | gd32_os/MSDK/app/atcmd.c:1026-1035 | the state each response is sent in |
| `SpiDma.JoinGuarantee` | gd32_os/MSDK/app/atcmd.c:1240-1327 | over every run: at most one release per armed transfer, never before completion, and none lost once the last interrupt is served |
| `SpiDma.UnquietSend` | gd32_os/MSDK/app/atcmd.c:1037-1051 | from every state in which either channel can still interrupt, a run that releases a send before the other of its channels has moved a byte |
| `SpiDma.UnquietReceive` | gd32_os/MSDK/app/atcmd.c:1335-1344 | from every state in which the receive channel can still interrupt, a run that releases a receive before it is even configured |
| `SpiDma.JoinsRightIff` | gd32_os/MSDK/app/atcmd.c:1240-1344 | a transfer is joined rightly in every continuation if and only if both channels (send) or the receive channel (receive) are quiet when it is begun |
| `SpiDma.EarlyWakeIsReached` | gd32_os/MSDK/app/atcmd.c:1037-1051 | such a run from the start |
| `SpiDma.SpiManager.RcvAtcmdConfig` | gd32_os/MSDK/app/atcmd.c:1176-1208 | the state armed for the next command |
| `SpiDma.SpiManager.ReconfigFromIsr` | gd32_os/MSDK/app/atcmd.c:1240-1297 | the branches as written compute the machine's join |
| `SpiDma.SpiManager.TxDmaIrq` | gd32_os/MSDK/app/atcmd.c:1299-1312 | the transmit handler is the machine's interrupt step |
| `SpiDma.SpiManager.RxDmaIrq` | gd32_os/MSDK/app/atcmd.c:1314-1327 | the receive handler is the machine's interrupt step |
| `EventLoop.CircularTestIff` | gd32_os/MSDK/rtos/rtos_wrapper/wrapper_os.h:85-88 | the circular test on 32-bit values is the true order if and only if the instants are less than half the range apart |
| `EventLoop.InsertKeepsOrder` | gd32_os/MSDK/wifi_manager/wifi_eloop.c:277-284 | insertion keeps the list ordered by time, first-in-first-out among equals |
| `EventLoop.OrderSurvivesWrapIff` | gd32_os/MSDK/wifi_manager/wifi_eloop.c:277-284 | across the wrap the order survives an insertion if and only if a stated condition on the rounds of the clock holds |
| `EventLoop.SelectSplits` | gd32_os/MSDK/wifi_manager/wifi_eloop.c:323-333 | cancelling loses and duplicates no entry |
| `EventLoop.SelectMembers` | gd32_os/MSDK/wifi_manager/wifi_eloop.c:323-333 | exactly the matching entries are taken, wildcards included |
| `EventLoop.SelectOrdered` | gd32_os/MSDK/wifi_manager/wifi_eloop.c:323-333 | what stays keeps its order |
| `EventLoop.DueHeadFiresIff` | gd32_os/MSDK/wifi_manager/wifi_eloop.c:397-410 | the head is removed and run if and only if it is due, however many others are pending, and these stay |
| `EventLoop.FiresAtOnceIff` | gd32_os/MSDK/wifi_manager/wifi_eloop.c:390-412 | a fresh timeout fires at once if and only if its delay is zero or over half the range |
| `EventLoop.WrapFiresLate` | gd32_os/MSDK/wifi_manager/wifi_eloop.c:270-284 | for any two delays on either side of the wrap, a run in which the earlier timeout is overdue and does not fire because the later one is in front of it |
| `EventLoop.FiringGuarantee` | gd32_os/MSDK/wifi_manager/wifi_eloop.c:256-412 | for every sequence of register, cancel, tick and fire, across any number of wraps and with the clock read any time before the insertion: no early firing, and every registration in exactly one of pending, fired, cancelled |
| `EventLoop.TimeoutGuarantee` | gd32_os/MSDK/wifi_manager/wifi_eloop.c:256-412 | until the wrap the list is moreover ordered by expiry and first-in-first-out among equal times |
| `EventLoop.Eloop.TimeoutRegister` | gd32_os/MSDK/wifi_manager/wifi_eloop.c:256-290 | the scan inserts at the proved position; a terminated loop or missing memory changes nothing |
| `EventLoop.Eloop.TimeoutCancel` | gd32_os/MSDK/wifi_manager/wifi_eloop.c:312-337 | removes exactly the matching entries and returns their number |
| `EventLoop.Eloop.TimeoutHandle` | gd32_os/MSDK/wifi_manager/wifi_eloop.c:390-412 | removes and reports the head once it is due, at most one per call |
| `EventLoop.Eloop.NextPause` | gd32_os/MSDK/wifi_manager/wifi_eloop.c:420-451 | for every clock value: waits without limit if and only if nothing is pending, and otherwise exactly until the head's expiry, never zero |
| `CyclicBuffer.RingSkip` | gd32_os/MSDK/util/src/cyclic_buffer.c:125-154 | moving the read index drops a prefix, round the end too |
| `CyclicBuffer.RingFront` | gd32_os/MSDK/util/src/cyclic_buffer.c:125-154 | the one or two pieces read are the oldest bytes |
| `CyclicBuffer.RingExtend` | gd32_os/MSDK/util/src/cyclic_buffer.c:200-229 | the one or two pieces written extend the queue and spare the queued bytes |
| `CyclicBuffer.Cyclic.constructor` | gd32_os/MSDK/util/src/cyclic_buffer.c:40-58 | an empty queue |
| `CyclicBuffer.Cyclic.Count` | gd32_os/MSDK/util/src/cyclic_buffer.c:78-86 | the number of queued bytes |
| `CyclicBuffer.Cyclic.Room` | gd32_os/MSDK/util/src/cyclic_buffer.c:88-96 | one less than the length minus the queued bytes |
| `CyclicBuffer.Cyclic.Write` | gd32_os/MSDK/util/src/cyclic_buffer.c:200-229 | appends all of the data or, if and only if it does not fit, nothing |
| `CyclicBuffer.Cyclic.Read` | gd32_os/MSDK/util/src/cyclic_buffer.c:125-154 | removes and returns the oldest bytes, or nothing when there are too few |
| `CyclicBuffer.Cyclic.Drop` | gd32_os/MSDK/util/src/cyclic_buffer.c:156-182 | removes the oldest bytes |
| `Shell.OverflowIff` | gd32_os/MSDK/app/cmd_shell.c:154-167 | a completed line finds no room if and only if it and the three waiting lines all have the greatest length |
| `Shell.AcceptedIff` | gd32_os/MSDK/app/cmd_shell.c:154-167 | a completed line enters the queue if and only if that has room; a refused one vanishes whole |
| `Shell.ExecKeepsStep` | gd32_os/MSDK/app/cmd_shell.c:2170-2187 | what is executed is the oldest accepted line; a failed allocation drops exactly that line |
| `Shell.StepKeepsRecord` | gd32_os/MSDK/app/cmd_shell.c:193-216 | the handler's buffer is the end of the line typed, and all of it if and only if the line has not held 128 characters since it was last empty |
| `Shell.EveryCommandIsALine` | gd32_os/MSDK/app/cmd_shell.c:154-241 | in every run without the overflow the ring is the concatenation of the waiting lines, commands are executed in the order accepted, and a command is the line as typed if and only if that line has not held 128 characters since it was last empty |
| `Shell.TailIsExecuted` | gd32_os/MSDK/app/cmd_shell.c:193-197 | for any 128 characters and any command after them, a run from the start that executes the command alone |
| `Shell.FullHouseLosesALine` | gd32_os/MSDK/app/cmd_shell.c:156-159 | and only then: from every overflow a run in which no byte is read for the line typed |
| `Shell.FullHouseIsReachable` | gd32_os/MSDK/app/cmd_shell.c:222-228 | the overflow can be typed from the start |
| `Shell.UartShell.constructor` | gd32_os/MSDK/app/cmd_shell.c:222-228 | the start state |
| `Shell.UartShell.RxIndicate` | gd32_os/MSDK/app/cmd_shell.c:154-167 | queue and ring receive the line; a full queue refuses it whole |
| `Shell.UartShell.RxChar` | gd32_os/MSDK/app/cmd_shell.c:172-220 | one character on the fixed line buffer is the machine's key step |
| `Shell.UartShell.QueueRead` | gd32_os/MSDK/app/cmd_shell.c:2306-2309 | the task takes the oldest length |
| `Shell.UartShell.CmdExec` | gd32_os/MSDK/app/cmd_shell.c:2170-2187 | reading or dropping through the ring's own operations is the machine's execution step |
| `Tokenizer.NextParam` | gd32_os/MSDK/app/cmd_shell.c:2055-2078 | what is left is shorter than the input, so tokenizing ends |
| `Tokenizer.NextParamSplits` | gd32_os/MSDK/app/cmd_shell.c:2055-2078 | how any string is cut: quote, parameter, separator, spaces, rest, closing quote or not |
| `Tokenizer.ReadsBack` | gd32_os/MSDK/app/cmd_shell.c:2055-2078 | a printed argument is cut off again and the rest is left untouched |
| `Tokenizer.RoundTrip` | gd32_os/MSDK/app/cmd_shell.c:2055-2096 | printing any list of expressible arguments and tokenizing gives the list back, cut to the arguments there is room for |
| `Tokenizer.OnlyExpressible` | gd32_os/MSDK/app/cmd_shell.c:2055-2078 | no input yields an argument that cannot be printed |
| `Tokenizer.SurvivesIff` | gd32_os/MSDK/app/cmd_shell.c:2055-2078 | some input yields an argument if and only if it does not both need quotes and hold both kinds |
| `Tokenizer.ScanFor` | gd32_os/MSDK/app/cmd_shell.c:2068-2068 | the scan stops at the first separator or the end |
| `Tokenizer.SkipBlanks` | gd32_os/MSDK/app/cmd_shell.c:2071-2072 | the scan skips exactly the leading spaces |
| `Tokenizer.GetNextParam` | gd32_os/MSDK/app/cmd_shell.c:2055-2078 | in place: one cell becomes NUL, the pointers delimit the parameter and the rest |
| `Tokenizer.ParseCmd` | gd32_os/MSDK/app/cmd_shell.c:2080-2096 | the pointers lead to exactly the arguments the string denotes, at most 16, none disturbed by later cuts |

## Left out

- OtaWriter.Updater.HttpRspImage: the loop spins for ever on a silent network, so a
  download still waiting has no result; the receive buffer's memory is not modelled,
  so neither is what an over-long first packet does to it through a negative length.
- IspFlasher.SramLoader.FlashImage: sector-aligned start only, and replies are lost
  but never delayed; a reply that arrives after its time-out is outside the model.
- CipMachine.QueueGuarantee: storing and freeing a connection are single steps
  (`CipStores` has them split), and allocation does not fail (`RecvData` and
  `RecvDataProcess` have that for one call).
- CipMachine.DeliveryGuarantee: runs with clean storings only (`ReuseIff` has the
  other ones).
- CipRuns.PulseGuarantee: runs in which the master sends a command only after a pulse
  (`OnePulseIff` has the other ones).
- CipStores.CountGuarantee: calls that do not overlap (`CountExactIff` has the other
  ones); the entry's other fields and the moment at which a cleared entry reads as
  descriptor 0 are not modelled.
- SpiDma.JoinGuarantee: transfers begun when the channels they join on are quiet
  (`JoinsRightIff` has the other ones); time-outs of the semaphore and the hardware
  reset that follows them are not modelled.
- EventLoop.TimeoutGuarantee: the order until the clock or a pending expiry reaches
  2^32 (`OrderSurvivesWrapIff` and `WrapFiresLate` have the rest).
- EventLoop.FiringGuarantee: delays up to 2^31 (`FiresAtOnceIff` has the rest).
- Shell.EveryCommandIsALine: runs without the overflow that `OverflowIff` describes.
- Shell.FullHouseLosesALine: the contents of a freshly allocated buffer are not
  modelled, so neither is what the source does with one that nothing has filled.
- Recovery.RecoveryGuarantee: the two verifying boot modes; a running index that was
  read correctly.
- HTTP, TLS and socket calls and the scanning of the response header.
- Hash, signature and certificate mathematics, and the ROM's storage format.
- The serial-download entry of the boot loader, its UART and clock set-up.
- The event registry, event dispatch and message queue of the Wi-Fi event loop.
- SPI file transfer, UART passthrough and the websocket commands.
- AT commands for MQTT, HTTP, Azure, CoAP, ping, iperf and Wi-Fi: argument checks and
  library calls that would only add easy members.
- Look-up of the shell's commands by name, and the commands themselves.
- Synchronisation, baud-rate probing and reopening of the serial port, and the
  loader's own entry (`go`, `chip_id`).
- Build, bridge and mass-flashing scripts, certificates and configuration files.
