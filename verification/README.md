# Verified model of the Miyako-Link probe firmware

This project models the parts of the firmware that carry protocols, codecs and state over many calls,
and proves properties of those models. `dafny verify dfyconfig.toml` checks everything.

## What is modelled

- `Machine`, `Arithmetic`, `Runs`, `BitStrings`: C machine types, division facts, runs of step
  machines, bit strings.
- `RttRing`, `RttInterleaving`, `RttProgress`, `RttTerminal`: the RTT up-buffer. A class refines a
  bounded queue of capacity SizeOfBuffer - 1 for all write paths and the read path; a separate state
  machine lets target and host steps interleave freely, with how much each read and write moves; a
  class on top multiplexes terminals onto one stream.
- `TraceSwo`, `TraceExits`, `Manchester`: the SWO capture interrupt as a class over its static
  variables, its cases in ticks, and the transmitter and timer it has to undo.
- `JtagTransfer`, `JtagTap`, `TransferCache`: the PIO and the pin form of the JTAG transfers over
  buffers that may alias, the TAP controller of IEEE Std 1149.1 behind them, and the memory of
  loaded program, pin map, divider and line direction.
- `HexCodec`, `GdbPacket`, `Remote`: GDB remote serial framing with its retransmission, and the
  numbers and buffers of the remote protocol.
- `Crc32`: the table form and the hardware form of the memory CRC.
- `Dfu`, `DfuRequests`, `DfuRuns`, `DfuSession`, `DfuBootloader`: the DFU protocol as a specification
  over flash, what requests can tell the host, when flash changes in a run, whole update sessions, and
  the bootloader's variables updated in place.
- `MemManager`: the pool allocator with its items as objects.
- `Numerals`, `RttPrintf`: number formatting and the collecting buffer of RTT printf.
- `Crc16`, `Eeprom`, `DeviceConfig`: the persistent settings.

Each class is proved against specification functions (`Queued`, `Isr`, `Moved`, `Received`, `Control`,
`Complete`, `UnsignedText`, `Changed`, ...); the lemmas of the table state what those functions mean.

## Where the code does something else than it says

- jtagtap.h names three clocks for `return_idle`; the macro sends two, which is what reaches
  Run-Test/Idle.
- With ticks = 0, which a host packet can ask for, the word form of `tdi_tdo_seq` sends nothing and
  the bit form one clock; the word form of `tms_seq` sends 2^32 clocks and the bit form none. The
  forms agree exactly from ticks = 1 on (`TransferFormsAgree`, `TmsFormsAgree`).
- From a half-bit time of 10928 ticks on, the time-out the SWO handler sets overflows its register
  and strikes inside the frame: no such frame is decoded (`FrameDecodes`).
- After a frame that ended without a missed edge, the next frame's first edge synchronises the decoder
  when the registers happen to look like a start bit; not every frame is then decoded
  (`EveryFrameDecodes`).
- `gdb_getpacket` takes the checksum with strtol: a blank, a sign or no number at all can match too
  (`ParsesDenoted`). A frame longer than the buffer loses one character, whatever it is (`FullBuffer`).
- `SEGGER_RTT_GetBytesInBuffer` is right exactly when RdOff <= WrOff (`Ring.GetBytesInBuffer`).
- `SEGGER_RTT_WriteWithOverwriteNoLock` skips the last slot in its second and later rounds, so long
  writes do not leave the newest bytes; `Ring.WriteWithOverwrite` says exactly when. On a ring of one
  slot a write of two or more bytes never ends (`OneSlotNeverEnds`).
- `SEGGER_RTT_vprintf` documents the number of bytes stored; it adds the last partly filled buffer a
  second time (`Vprintf`). A precision above 8 in base 16 divides by zero (`HexPrecision`).
- The SWDIO direction memory goes stale over JTAG transfers; `SeqIn` says after which calls a read
  listens to a driven line, `ReadAfterJtag` is one such mix.
- In dfuERROR, USB DFU 1.1 (section A.2.11) lets only DFU_CLRSTATUS change the state; here ABORT and
  DNLOAD leave it as well (`LeavesError`).
- A GETSTATUS that lost its completion lets a GETSTATUS in dfuDNBUSY change flash
  (`LosesCompletion`, `LostCompletion`); nothing else outside dfuDNLOAD-SYNC does
  (`OutsideSyncAfterLoss`). An erase command for the page erased last is skipped even when the page
  has been programmed since (`EraseEmptiesPage`). An odd block length programs one stale byte.
- `eeprom_write` reports failure for a chunk that succeeds only after the hundredth failed attempt,
  although it is stored (`Attempts`, `StoredButRefused`, `LateWrite`); `device_config_set_value` does
  not report a failed write at all, and then leaves EEPROM and RAM apart (`SetValue`).
- `_respond_buf` with length 0 sends one byte. `hexify` writes a terminator behind the two digits,
  for which the two-byte buffer of `_send_buf` has no room; the model gives it three.

## Assumptions

- The PIO programs are not part of this model's sources: `Wire.PioShift` states what the JTAG program
  does, and the SWD programs turn the line as they are told.
- Memory is sequentially consistent, which is what the data memory barriers provide; a host is a
  schedule of how many bytes it takes before each poll.
- Flash programs half-words only where both bytes are erased, or when zero is written; reads outside
  flash return 0xFF. Which I2C transfers succeed is a schedule, numbered from power-up; a failed write
  transfer stores nothing, a failed read leaves anything.
- The USB stack runs a GETSTATUS completion at most once and drops it at the next SETUP packet.
- A wait for a character or a free byte that never ends is a call that has not returned.
- The clock divider is computed in real numbers; rounding to float is not modelled.

## Model

| member | source | states |
|---|---|---|
| RttInterleaving.HostReceivesPrefix | src/platforms/RubyLink/SysView/SEGGER_RTT.c:359-401 | In every interleaving of target steps (look at RdOff, copy bytes in any order, publish WrOff) with host steps, both offsets stay below the buffer size, what the host has read is a prefix of what the target has accepted, the difference is exactly what is queued, and with no dropped call every byte handed in is received, queued, being copied or still to be posted, in order |
| RttInterleaving.StaleViewsAreSafe | src/platforms/RubyLink/SysView/SEGGER_RTT.c:511-527 | In every interleaving a stale RdOff only under-reports free space, a stale WrOff only under-reports available data, and a byte being copied never lands on an unread one |
| RttInterleaving.CopyLeavesQueue | src/platforms/RubyLink/SysView/SEGGER_RTT.c:421-474 | Copying one byte of a chunk into the ring before WrOff is published changes nothing that is queued |
| RttInterleaving.RunInv | src/platforms/RubyLink/SysView/SEGGER_RTT.c:558-631 | The joint invariant of producer, consumer and histories survives every step of every run from any state that satisfies it |
| RttProgress.ReadReturns | src/platforms/RubyLink/SysView/SEGGER_RTT.c:558-631 | In every interleaving, from every reachable state with an idle host: See, Fetch of k, the byte fetches and Retire, with any target steps between them, give the host exactly the next k bytes accepted before See, or all of them when there are fewer, across the wrap-around |
| RttProgress.WritePublishes | src/platforms/RubyLink/SysView/SEGGER_RTT.c:359-401 | In every interleaving Look, Post, the byte copies and Publish, with any host steps between them, accept exactly what the room seen at Look allows: all or nothing in skip mode, the longest prefix that fits in trim mode, and in blocking mode as much as fits before the wrap-around, keeping the rest; data is lost exactly when it does not fit a non-blocking mode |
| RttProgress.NobodyWaits | src/platforms/RubyLink/SysView/SEGGER_RTT.c:558-631 | In every reachable state a step is enabled exactly when its own side has got that far; nothing waits for the other side |
| RttProgress.ReadCompletes | src/platforms/RubyLink/SysView/SEGGER_RTT.c:558-631 | From every reachable state with an idle host a read of k bytes can be carried out without any target step, with one fetch per byte there is to take |
| RttProgress.WriteCompletes | src/platforms/RubyLink/SysView/SEGGER_RTT.c:421-474 | From every reachable state with data to post a write can be carried out without any host step |
| RttRing.TakeOldest | src/platforms/RubyLink/SysView/SEGGER_RTT.c:558-631 | The bytes of the slots behind RdOff, in slot order, are the oldest queued bytes, across the wrap-around |
| RttRing.PublishAppends | src/platforms/RubyLink/SysView/SEGGER_RTT.c:421-474 | Bytes stored in the free slots behind WrOff join the end of the queue when WrOff moves over them |
| RttRing.PutAppends | src/platforms/RubyLink/SysView/SEGGER_RTT.c:421-474 | Storing data that fits cyclically from WrOff and advancing WrOff appends it to the queue |
| RttRing.SkipWrite | src/platforms/RubyLink/SysView/SEGGER_RTT.c:1084-1133 | Skip mode as one outcome: accepted exactly when queue plus data fit into size - 1 bytes; then the queue grows by the data, otherwise it is unchanged |
| RttRing.OverwrittenHoldsNewest | src/platforms/RubyLink/SysView/SEGGER_RTT.c:818-889 | After an overwriting write below the bound, the ring read from right behind WrOff holds the newest size - 1 bytes of old queue and new data |
| RttRing.OverwriteOutcome | src/platforms/RubyLink/SysView/SEGGER_RTT.c:818-889 | Read-offset adjustment and copy rounds leave exactly the newest size - 1 bytes if and only if the data is shorter than the bound, or the number of whole later rounds is a multiple of the size and the bytes that ended up one place off all equal the one left in the last slot |
| RttRing.OnePlaceOff | src/platforms/RubyLink/SysView/SEGGER_RTT.c:855-889 | From the bound on, the queue read one place behind the write offset is the newest bytes exactly when the bytes held one place off all equal the one in the last slot |
| RttRing.FullAgain | src/platforms/RubyLink/SysView/SEGGER_RTT.c:818-889 | From the bound on the queue is full again exactly when the number of whole later rounds is a multiple of the size |
| RttRing.FewRoundsNeverCoincide | src/platforms/RubyLink/SysView/SEGGER_RTT.c:818-889 | From the bound up to (size - WrOff) + size * (size - 1) bytes no data whatever comes out right |
| RttRing.OneSlotNeverEnds | src/platforms/RubyLink/SysView/SEGGER_RTT.c:855-889 | On a ring of one slot the copy loop repeats the same round for ever for exactly the writes of two bytes or more |
| RttRing.Ring.GetAvailWriteSpace | src/platforms/RubyLink/SysView/SEGGER_RTT.c:511-527 | Free space and queue length add up to size - 1 |
| RttRing.Ring.WriteNoCheck | src/platforms/RubyLink/SysView/SEGGER_RTT.c:421-474 | Appends the whole data in one or two copies |
| RttRing.Ring.Read | src/platforms/RubyLink/SysView/SEGGER_RTT.c:650-720 | Returns the min(BufferSize, used) oldest bytes and leaves the rest queued, also where WrOff - RdOff underflows |
| RttRing.Ring.WriteBlocking | src/platforms/RubyLink/SysView/SEGGER_RTT.c:359-401 | For every host schedule the bytes written follow the old queue in order and none is lost; data that fits needs at most two polls even if the host never reads; a host that takes something at every poll makes every poll count |
| RttRing.Ring.WriteWithOverwrite | src/platforms/RubyLink/SysView/SEGGER_RTT.c:818-889 | On every ring of two slots or more and for every length: the ring ends up with exactly the newest size - 1 bytes if and only if the data is shorter than (size - WrOff) + (size - 1) or coincides as OverwriteOutcome says |
| RttRing.Ring.Write | src/platforms/RubyLink/SysView/SEGGER_RTT.c:1084-1133 | Skip is all or nothing, trim accepts the longest prefix that fits, blocking accepts everything the host makes room for; in every mode what is accepted follows the old queue in order |
| RttRing.Ring.WriteSkip | src/platforms/RubyLink/SysView/SEGGER_RTT.c:919-978 | The three-case skip write leaves the same bytes and offset as skip-mode writing, for every ring and every length |
| RttRing.Ring.PutCharSkip | src/platforms/RubyLink/SysView/SEGGER_RTT.c:1249-1279 | A single byte in skip mode is skip-mode writing of one byte |
| RttRing.Ring.PutChar | src/platforms/RubyLink/SysView/SEGGER_RTT.c:1358-1404 | One byte in any mode, stored behind the queue when accepted; blocking mode succeeds exactly when a slot is free already or the host takes a byte before some poll, on a ring of two slots or more |
| RttRing.Ring.GetBytesInBuffer | src/platforms/RubyLink/SysView/SEGGER_RTT.c:2057-2074 | The reported count is the number of unread bytes exactly when RdOff <= WrOff |
| RttTerminal.HostRecoversTerminals | src/platforms/RubyLink/SysView/SEGGER_RTT.c:1899-2021 | For every run of terminal output, terminal switches and plain writes of 0xFF-free text, the host that splits on 0xFF-id pairs shows on each terminal exactly the text accepted for it, in order, and ends on the active terminal |
| RttTerminal.ShownText | src/platforms/RubyLink/SysView/SEGGER_RTT.c:489-495 | Text without 0xFF is shown on the current terminal and changes no terminal |
| RttTerminal.ShownSwitch | src/platforms/RubyLink/SysView/SEGGER_RTT.c:489-495 | A switch pair shows nothing and redirects what follows |
| RttTerminal.DigitRoundTrip | src/platforms/RubyLink/SysView/SEGGER_RTT.c:489-495 | The identifier character posted for a terminal is decoded to that terminal |
| RttTerminal.DigitText | src/platforms/RubyLink/SysView/SEGGER_RTT.c:489-495 | Terminal identifiers are posted as upper-case hexadecimal digits |
| RttTerminal.Terminals.PostFragment | src/platforms/RubyLink/SysView/SEGGER_RTT.c:1975-2014 | Switch, text and switch back reach the ring as one piece; with room for text and four bytes no host is needed |
| RttTerminal.Terminals.TerminalOut | src/platforms/RubyLink/SysView/SEGGER_RTT.c:1948-2021 | Skip mode: all or nothing at length + 4; trim mode: the longest prefix that leaves room for both switches; in both modes the blocking writes inside never wait, whatever the host does; the active terminal is restored |
| RttTerminal.Terminals.SetTerminal | src/platforms/RubyLink/SysView/SEGGER_RTT.c:1899-1929 | The terminal becomes active exactly when its switch is posted; in non-blocking modes that needs two free bytes, and failure changes nothing |
| RttTerminal.Terminals.Write | src/platforms/RubyLink/SysView/SEGGER_RTT.c:1084-1133 | A plain write adds its accepted prefix to the text of the active terminal |
| RttTerminal.Terminals.DrainedHostShows | src/platforms/RubyLink/SysView/SEGGER_RTT.c:1948-2021 | When the ring is empty, each terminal the host shows holds exactly what the calls had accepted for it |
| TraceSwo.AppendBit | src/platforms/stm32/traceswo.c:157-171 | Setting bit decbuf_pos of the buffer appends one bit to the packed bit string and leaves the other bytes alone |
| TraceSwo.TraceDecoder.TraceIsr | src/platforms/stm32/traceswo.c:106-184 | One interrupt takes the static variables to the specified decoder state and pushes the specified bytes (TraceExits says which, case by case); the bit index never passes 129 of the 136 bits there are |
| TraceSwo.TraceDecoder.TakeHigh | src/platforms/stm32/traceswo.c:117-162 | The part up to the low-time test: desynchronised, waiting, or going on with a synchronised bit time |
| TraceSwo.TraceDecoder.FlushAndReset | src/platforms/stm32/traceswo.c:177-184 | A flush pushes the complete bytes and clears bit time, position and buffer |
| TraceExits.PushesBytes | src/platforms/stm32/traceswo.c:118-154 | For every decoder that has collected whole bytes and up to seven bits: a time-out or overflow without a capture, a high time that is none or not one or two halves, and a doubled high time with no half left over push exactly the bytes and leave bit time and bits cleared |
| TraceExits.PushesBytesWithBit | src/platforms/stm32/traceswo.c:155-184 | A missing rising edge, a low time of three halves and a doubled low time with a half left over take in the bit that the pulse ends, push exactly the whole bytes, and clear the decoder |
| TraceExits.TakesBits | src/platforms/stm32/traceswo.c:149-176 | Every other pulse adds the bit it ends, and its opposite for a doubled low time; only from 128 bits on is anything pushed |
| TraceExits.LeavesExactly | src/platforms/stm32/traceswo.c:106-184 | A synchronised decoder gives up or ends the frame in exactly these cases and otherwise pushes nothing |
| TraceExits.Waits | src/platforms/stm32/traceswo.c:131-148 | A waiting decoder skips one pulse after a lost edge, synchronises exactly on a period of two or three suggested half-bits, and ignores every other pulse |
| TraceExits.NextFrame | src/platforms/stm32/traceswo.c:106-184 | After an interrupt that leaves a frame, the next frame's bytes follow those just pushed, if its first edge starts cleanly |
| TraceExits.EveryFrameDecodes | src/platforms/stm32/traceswo.c:106-184 | From a cleared decoder every frame at every speed is decoded if and only if its first edge is skipped or the registers it finds do not look like a start bit |
| Manchester.StreamDecodes | src/platforms/stm32/traceswo.c:106-184 | Feeding the interrupt the captures of any stream of Manchester frames of 1 to 15 bytes, each at its own half-bit time above 20 ticks whose time-out fits the timer, pushes exactly the concatenated bytes and leaves the decoder armed for the next frame |
| Manchester.FrameDecodes | src/platforms/stm32/traceswo.c:106-184 | One frame, captured under the 16-bit time-out the handler itself sets, is pushed as its bytes exactly when six shortened half-bits fit 16 bits; for every longer half-bit time the first time-out comes before the second data edge and nothing is pushed |
| Manchester.EdgeInStep | src/platforms/stm32/traceswo.c:149-172 | A rising edge that fits the signal keeps the decoder in step: a one at the end of its pulse, a further zero when the low time is double |
| Manchester.TimeOutInStep | src/platforms/stm32/traceswo.c:161-184 | The time-out after the last pulse pushes the frame's bytes and arms the decoder again |
| Manchester.SyncWindow | src/platforms/stm32/traceswo.c:138-148 | The first pulse synchronises for both of its possible periods exactly when the half-bit time exceeds 20 ticks |
| Manchester.TimeOutOutlastsPulses | src/platforms/stm32/traceswo.c:146-148 | The 16-bit time-out of six shortened half-bits outlasts every pulse of a frame exactly when the product does not overflow |
| Manchester.PeriodAgainstPulse | src/platforms/stm32/traceswo.c:146-148 | A time-out that fits is longer than four half-bits; one that overflows is shorter than two, so it ends before the next rising edge |
| Manchester.BufferNeverOverruns | src/platforms/stm32/traceswo.c:157-175 | In every run of interrupts, whatever is captured, fewer than 128 bits wait between two of them |
| Manchester.PackedBits | src/platforms/stm32/traceswo.c:157-180 | Packing bits least significant first undoes taking bytes apart, and up to seven further bits do not matter |
| JtagTransfer.Wire.PioShift | src/platforms/RubyLink/platform_target_interface_non_iso.c:586-596 | The assumed PIO program: count + 1 bits least significant first, the first word as set-pin level on all bits but the last, the second on the last, TDO shifted in from the left |
| JtagTransfer.TdiTdoSeqWords | src/platforms/RubyLink/platform_target_interface_non_iso.c:558-635 | The word form drives TMS low until the last bit and TDI from DI, and stores the captured bits in DO, also when DO and DI are the same buffer |
| JtagTransfer.TdiTdoSeqBits | src/platforms/RubyLink/platform_target_interface_non_iso.c:636-669 | The bit form leaves the clocks and DO bytes of the transfer of ticks bits, of one bit for ticks = 0, aliasing included |
| JtagTransfer.TransferFormsAgree | src/platforms/RubyLink/platform_target_interface_non_iso.c:556-669 | The clocks of the two forms of tdi_tdo_seq are the same exactly for ticks >= 1 |
| JtagTransfer.TdiSeqWords | src/platforms/RubyLink/platform_target_interface_non_iso.c:674-743 | The word form without capture drives the clocks of the data transfer |
| JtagTransfer.TdiSeqBits | src/platforms/RubyLink/platform_target_interface_non_iso.c:744-760 | The bit form without capture drives the same clocks |
| JtagTransfer.TmsSeqWords | src/platforms/RubyLink/platform_target_interface_non_iso.c:485-536 | The word form drives the low bits of MS on TMS with TDI high, ticks of them, and 2^32 of them for ticks = 0, where ticks - 1 wraps |
| JtagTransfer.TmsSeqBits | src/platforms/RubyLink/platform_target_interface_non_iso.c:537-553 | The bit form drives ticks such clocks for every ticks, none for 0 |
| JtagTransfer.TmsFormsAgree | src/platforms/RubyLink/platform_target_interface_non_iso.c:483-554 | The clocks of the two forms of tms_seq are the same exactly for ticks >= 1 |
| JtagTransfer.NextWords | src/platforms/RubyLink/platform_target_interface_non_iso.c:413-466 | One clock on the PIO is one pulse on the pins, with the same answer |
| JtagTransfer.LoadedBits | src/platforms/RubyLink/platform_target_interface_non_iso.c:598-625 | A word loaded from up to four bytes holds their bits, first byte lowest |
| JtagTransfer.ClocksCarryNumber | src/platforms/RubyLink/platform_target_interface_non_iso.c:558-669 | Clock k of a data transfer carries bit k of the little-endian number in DI on TDI, and the final TMS level on the last clock only |
| JtagTransfer.ClocksCarryTms | src/platforms/RubyLink/platform_target_interface_non_iso.c:485-553 | Clock k of a TMS sequence carries bit k of MS on TMS with TDI high |
| JtagTransfer.WordClocks | src/platforms/RubyLink/platform_target_interface_non_iso.c:586-596 | The PIO's clocks for a word are those of a data transfer of its bits |
| JtagTransfer.StoredWord | src/platforms/RubyLink/platform_target_interface_non_iso.c:625-635 | Storing the bytes of one more captured word extends the stored bits by that word |
| JtagTransfer.BitStep | src/platforms/RubyLink/platform_target_interface_non_iso.c:636-669 | One pulse of the bit form is the next clock of the transfer and yields the next captured bit |
| JtagTap.SoftReset | src/include/jtagtap.h:60-62 | Six clocks 1,1,1,1,1,0 reach Run-Test/Idle with the reset instruction from every state of the controller of clause 6 of IEEE Std 1149.1 |
| JtagTap.EnterShiftDr | src/include/jtagtap.h:68-70 | From Run-Test/Idle the macro reaches Shift-DR with the data register captured |
| JtagTap.EnterShiftIr | src/include/jtagtap.h:64-66 | From Run-Test/Idle the macro reaches Shift-IR with the instruction register captured |
| JtagTap.ReturnIdle | src/include/jtagtap.h:72-74 | The two clocks the macro really sends update the register and reach Run-Test/Idle from either Exit1 state |
| JtagTap.ShiftedOut | src/platforms/RubyLink/platform_target_interface_non_iso.c:636-669 | During a transfer TDO shows the captured bits followed by the data bits |
| JtagTap.DrScan | src/include/jtagtap.h:60-74 | A data-register scan of n >= 1 bits from Run-Test/Idle ends there, leaves the instruction alone and updates the register with what was shifted through it; with n equal to its length, with the data |
| JtagTap.IrScan | src/include/jtagtap.h:60-74 | The same for the instruction register, leaving the data register alone |
| JtagTap.ScanDr | src/platforms/RubyLink/platform_target_interface_non_iso.c:556-635 | shift_dr, tdi_tdo_seq with TMS on the last bit and return_idle together: the DR holds the n DI bits shifted through it and DO the captured DR |
| TransferCache.Interface.MaxFrequencySet | src/platforms/RubyLink/platform.c:74-103 | A frequency within both ranges sets the divider for it; any other changes nothing |
| TransferCache.Interface.PrepareSwd | src/platforms/RubyLink/platform_target_interface_non_iso.c:112-150 | After the cached load the instruction memory holds the image the call names, OUT acts on TMS, SET on the direction pin, and the divider is the one set last |
| TransferCache.Interface.SeqOut | src/platforms/RubyLink/platform_target_interface_non_iso.c:112-164 | Exactly one write transfer runs, with the sequence-out image loaded, OUT on TMS, SET on the direction pin, the divider set last, and the line driven; no ticks, no transfer |
| TransferCache.Interface.SeqIn | src/platforms/RubyLink/platform_target_interface_non_iso.c:166-217 | Exactly one read transfer runs, with the sequence-in image loaded, OUT on TMS and SET on the direction pin; it listens to a driven line exactly when, since the last write, register access or parity read, a read without parity has been followed by a JTAG transfer |
| TransferCache.StaleMeans | src/platforms/RubyLink/platform_target_interface_non_iso.c:112-217 | For every sequence of calls the remembered direction is wrong exactly when a read without parity was followed by a JTAG transfer and nothing has driven the line since |
| TransferCache.Interface.LowWrite | src/platforms/RubyLink/platform_target_interface_non_iso.c:248-300 | One register write runs with its own image loaded, OUT on TMS, SET on the direction pin, and the line driven |
| TransferCache.Interface.LowAccess | src/platforms/RubyLink/platform_target_interface_non_iso.c:302-411 | One register access runs with the image of its direction loaded, OUT on TMS and SET on the direction pin; with a pending fault an access-port access does nothing |
| TransferCache.Interface.JtagData | src/platforms/RubyLink/platform_target_interface_non_iso.c:556-596 | One data transfer runs with the JTAG image loaded, OUT on TDI and SET on TMS and with the divider set last |
| TransferCache.Interface.JtagTms | src/platforms/RubyLink/platform_target_interface_non_iso.c:483-534 | One TMS transfer runs with the JTAG image loaded, OUT on TMS and SET on TDI |
| TransferCache.SharedImage | src/platforms/RubyLink/platform_target_interface_non_iso.c:485-536 | Two programs use the same image exactly when they are the same or both belong to JTAG |
| TransferCache.ReadAfterJtag | src/platforms/RubyLink/platform_target_interface_non_iso.c:166-217 | A concrete mix of calls after which an SWD read listens to a line the probe drives |
| HexCodec.HexRoundTrip | src/hex_utils.c:29-61 | unhexify undoes hexify on every byte string |
| HexCodec.DigitRoundTrip | src/hex_utils.c:43-51 | The digit value is right for lower-case and upper-case digits |
| HexCodec.DigitTexts | src/hex_utils.c:27-51 | Digits are written in lower case, and read right in both cases |
| HexCodec.HexText | src/hex_utils.c:29-41 | Byte k is the two lower-case digits at 2k and 2k + 1, high digit first |
| HexCodec.Hexify | src/hex_utils.c:29-41 | Writes two digits per byte and a terminator, and nothing else |
| HexCodec.Unhexify | src/hex_utils.c:53-61 | Writes the bytes of the digit pairs, and nothing else |
| GdbPacket.PayloadIsDelivered | src/gdb_packet.c:37-123 | After any number of spoiled frames, each answered '-', and any noise, the sender's frame is delivered byte for byte and answered '+', for every payload up to the full buffer size |
| GdbPacket.ReceiveBody | src/gdb_packet.c:92-111 | The escaped body is received as its payload, together with the checksum the sender computes |
| GdbPacket.ReceiveEnd | src/gdb_packet.c:112-123 | A frame's end is delivered and acknowledged exactly when its two checksum characters denote the running sum, otherwise refused and hunted again |
| GdbPacket.ParsesDenoted | src/gdb_packet.c:112-117 | For every pair of characters and every sum the pair is accepted exactly when it denotes the sum: two digits of either case, one digit with a blank or plus sign before it or no digit after it, and zero for what is no number |
| GdbPacket.DigitsDecide | src/gdb_packet.c:92-123 | With two hexadecimal digits of either case a frame is delivered with '+' when their value is the eight-bit sum of the body's characters, and refused with '-' for every other value |
| GdbPacket.ChecksumIsSum | src/gdb_packet.c:151-169 | The checksum is the sum of the body's characters as they are sent, escapes included |
| GdbPacket.BodyIsClean | src/gdb_packet.c:151-170 | No body contains a character that begins or ends a frame |
| GdbPacket.PrintsUpperCase | src/gdb_packet.c:170-173 | The sender prints the checksum as two upper-case digits, the high one first |
| GdbPacket.RestartDelivers | src/gdb_packet.c:92-101 | A '$' inside a frame whose buffer is not full begins anew: the frame behind it is delivered |
| GdbPacket.FullBuffer | src/gdb_packet.c:92-96 | Behind a full buffer any one character stands for the '#' |
| GdbPacket.EndOfFileDelivered | src/gdb_packet.c:48-52 | The end of the connection is returned as a packet of one character, without a reply |
| GdbPacket.RemoteIsDelivered | src/gdb_packet.c:53-80 | A '!' packet is handed on once, without a reply, also after a beginning that was given up for a second '!' |
| GdbPacket.FrameInsideRemote | src/gdb_packet.c:53-92 | A frame that begins inside a '!' packet is delivered and the '!' packet dropped |
| GdbPacket.RemoteTooLong | src/gdb_packet.c:78-87 | A '!' packet that outgrows the buffer is dropped |
| GdbPacket.ReceiveSpoiled | src/gdb_packet.c:37-123 | Spoiled frames leave the receiver hunting with one '-' each |
| GdbPacket.IndexNeverExceedsSize | src/gdb_packet.c:92-111 | In every run from every bounded state the buffer never holds more than size characters |
| GdbPacket.ChecksumRoundTrip | src/gdb_packet.c:139-170 | The two checksum digits the sender prints parse to the checksum |
| GdbPacket.GetPacket | src/gdb_packet.c:37-123 | gdb_getpacket returns exactly when the receiver machine is done, with its packet and exactly its replies; the terminator lands inside a buffer of size + 1 |
| GdbPacket.SendFrame | src/gdb_packet.c:144-170 | One transmission is the frame of the payload: start, escaped payload, end, checksum |
| GdbPacket.PutPacket | src/gdb_packet.c:139-178 | Identical copies of the frame until a '+', at most four |
| GdbPacket.RetransmissionDelivers | src/gdb_packet.c:37-178 | Up to three copies damaged in checksum or body, each possibly behind noise, and an intact one: the payload is delivered once and the sender stops right after that copy |
| GdbPacket.GdbOut | src/gdb_packet.c:198-214 | Text is sent as an 'O' packet of digits; text that is too long is dropped |
| GdbPacket.OutputTextIsRecovered | src/gdb_packet.c:198-214 | The host that unhexifies the received 'O' packet recovers the text |
| Crc32.TableEntry | src/crc32.c:29-94 | Every table entry is its index divided by the polynomial 0x04C11DB7 |
| Crc32.CalcIsByteStep | src/crc32.c:96-99 | The table look-up is eight steps of the division, for every running value and byte |
| Crc32.CheckValue | src/crc32.c:96-136 | The digits 1 to 9 have the check value 0x0376E6E7 of CRC-32/MPEG-2 |
| Crc32.ShiftLinear | src/crc32.c:96-99 | The division is linear over exclusive or |
| Crc32.ShiftInjective | src/crc32.c:96-99 | The division is injective in the running value |
| Crc32.UnitIsFourBytes | src/crc32.c:145-166 | Thirty-two steps of the unit on a word are four byte steps, first byte first |
| Crc32.CalcBytes | src/crc32.c:118-136 | The byte loop over a chunk is the fold of the byte steps |
| Crc32.UnitWords | src/crc32.c:154-166 | Loading, swapping and writing words to the unit is the fold over their bytes |
| Crc32.TailBytes | src/crc32.c:168-187 | The bitwise tail is the fold over the last bytes |
| Crc32.GenericCrc32Table | src/crc32.c:101-137 | The table form returns the fold over the memory range, and fails exactly when the range cannot be read, for every chunk size |
| Crc32.GenericCrc32Hardware | src/crc32.c:140-187 | The hardware form meets the same contract: same status and same value for every memory, base and length |
| Crc32.BurstIsDetected | src/crc32.c:96-137 | Two equal-length memories that differ only inside four consecutive bytes never have the same CRC |
| Dfu.OnlyCompletionChangesFlash | src/platforms/stm32/dfucore.c:142-281 | Flash changes only in the completion of a GETSTATUS while the device is busy, and it becomes busy only by a GETSTATUS in dfuDNLOAD-SYNC |
| Dfu.OneChangePerDownload | src/platforms/stm32/dfucore.c:142-281 | In every run each flash change has a non-empty DNLOAD of its own |
| DfuRuns.CompletedTransfers | src/platforms/stm32/dfucore.c:142-281 | A transfer that runs to completion changes flash exactly when it is a GETSTATUS taken in dfuDNLOAD-SYNC or dfuDNBUSY with work to do: a page to erase that is neither the last one erased nor empty, or a half-word to store that differs |
| DfuRuns.CompletionChangesFlash | src/platforms/stm32/dfucore.c:165-198 | A completion changes flash exactly when the device is busy and there is work to do |
| DfuRuns.WhenFlashChanges | src/platforms/stm32/dfucore.c:142-281 | In every run of requests and completions flash changes in an event exactly when it completes a GETSTATUS that was taken, with work to do, in dfuDNLOAD-SYNC or in dfuDNBUSY |
| DfuRuns.OutsideSyncAfterLoss | src/platforms/stm32/dfucore.c:142-281 | In every run flash changes in a GETSTATUS taken outside dfuDNLOAD-SYNC only when an earlier GETSTATUS, taken there, has lost its completion |
| DfuRuns.LosesCompletion | src/platforms/stm32/dfucore.c:142-198 | Every device that waits in dfuDNLOAD-SYNC with work to do: when its GETSTATUS loses its completion, the next one, in dfuDNBUSY, changes flash |
| DfuRuns.LostCompletion | src/platforms/stm32/dfucore.c:142-198 | A concrete device and run: the GETSTATUS in dfuDNLOAD-SYNC loses its completion and flash changes in the one taken in dfuDNBUSY |
| Dfu.Bytes32RoundTrip | src/platforms/stm32/dfucore.c:135-140 | The little-endian address of a command is read back |
| Dfu.SetAddress | src/platforms/stm32/dfucore.c:213-231 | A set-address command inside the limits sets the address and nothing in flash |
| DfuRequests.SetAddressOutcome | src/platforms/stm32/dfucore.c:213-231 | For every address: the command sets it exactly when it lies inside the limits, otherwise the device is in dfuERROR with errTARGET and keeps its address; flash stays as it is |
| DfuRequests.RefusalIsReported | src/platforms/stm32/dfucore.c:142-238 | GETSTATUS reports errTARGET in dfuERROR, and after CLRSTATUS no error in dfuIDLE, with address and flash as they were |
| DfuRequests.OnlyRefusalsFail | src/platforms/stm32/dfucore.c:200-281 | A request leads into dfuERROR, or sets an error, exactly when it is a set-address command outside the limits |
| DfuRequests.LeavesError | src/platforms/stm32/dfucore.c:200-281 | dfuERROR is left by CLRSTATUS and ABORT to dfuIDLE and by every DNLOAD that is not refused; CLRSTATUS changes no other state |
| DfuRequests.AddressInLimits | src/platforms/stm32/dfucore.c:213-231 | In every run the address is the one it started with or one inside the limits |
| DfuRequests.BlockPlaces | src/platforms/stm32/dfucore.c:182-187 | Block 2 goes to the address set, every other block 1024 bytes behind the one before it, modulo 2^32 |
| DfuRequests.TakesBlock | src/platforms/stm32/dfucore.c:213-231 | A DNLOAD replaces the front of the buffer, keeps the rest of it, and touches no flash |
| DfuRequests.UploadAnswered | src/platforms/stm32/dfucore.c:239-257 | UPLOAD is answered in dfuIDLE, dfuDNLOAD-IDLE and dfuUPLOAD-IDLE only, with data from block 2 on, as much as asked for |
| DfuRequests.ReportsState | src/platforms/stm32/dfucore.c:142-163 | GETSTATUS reports the state it leaves behind, an error only in dfuERROR, and a wait exactly when a download is about to be carried out; GETSTATE changes nothing |
| DfuRequests.Detaches | src/platforms/stm32/dfucore.c:142-212 | An empty DNLOAD and a completed GETSTATUS detach the device from every state, with flash as it was |
| DfuRequests.OnlyManifestDetaches | src/platforms/stm32/dfucore.c:142-212 | Nothing else detaches: it takes an empty DNLOAD, a GETSTATUS behind it and a completion |
| Dfu.EraseSector | src/platforms/stm32/dfucore.c:176-181 | An erase command erases the page of its address unless it is the page erased last |
| Dfu.EraseEmptiesPage | src/platforms/stm32/dfu_f1.c:38-45 | The erase command leaves the page empty exactly when it is not the page erased last or that page is still empty |
| Dfu.DownloadBlock | src/platforms/stm32/dfucore.c:182-187 | A block is programmed at address + (number - 2) * 1024, modulo 2^32 |
| DfuSession.SessionRuns | src/platforms/stm32/dfucore.c:142-281 | The bus events of a session are enabled on any device that has not detached and end in the state of its downloads |
| DfuSession.ProgramFillsErased | src/platforms/stm32/dfu_f1.c:47-55 | Programming an erased area stores the buffer, and one stale byte after it when the length is odd |
| DfuSession.HalfWordRule | src/platforms/stm32/dfu_f1.c:47-55 | A half-word is stored exactly where flash is erased or zero is written; no other byte changes |
| DfuSession.PagesErased | src/platforms/stm32/dfu_f1.c:38-45 | From a fresh boot, erasing consecutive pages empties exactly those pages; the memory of the last page never suppresses one of them |
| DfuSession.BlocksWritten | src/platforms/stm32/dfucore.c:182-187 | After n blocks exactly the first n blocks of the image are in flash |
| DfuSession.SessionStoresImage | src/platforms/stm32/dfucore.c:142-281 | From a fresh boot, set address, page erases and even-length blocks leave flash equal to the image, the rest of its pages empty and everything else untouched |
| DfuSession.UploadReturnsImage | src/platforms/stm32/dfucore.c:239-257 | UPLOAD of the same block numbers returns the blocks of the image |
| DfuBootloader.Bootloader.FlashProgramBuffer | src/platforms/stm32/dfu_f1.c:47-55 | The half-word loop stores every half-word that starts before the length, each only where flash is erased or zero is written |
| DfuBootloader.Bootloader.CheckAndDoSectorErase | src/platforms/stm32/dfu_f1.c:38-45 | Erases the page of the address unless it is the remembered one, and remembers it |
| DfuBootloader.Bootloader.ControlRequest | src/platforms/stm32/dfucore.c:200-281 | Every request takes the variables and the buffer to the state and response of the protocol specification |
| DfuBootloader.Bootloader.GetStatusComplete | src/platforms/stm32/dfucore.c:165-198 | The completion carries out the specified erase, programming or detach |
| DfuBootloader.ProgrammedStep | src/platforms/stm32/dfu_f1.c:47-55 | One half-word extends what is stored by that half-word, with 32-bit addresses that wrap |
| MemManager.TightestPool | src/platforms/RubyLink/mem_manager.c:64-80 | A request has no pool exactly above 4096 bytes; otherwise it goes to the smallest pool that fits |
| MemManager.Manager.constructor | src/platforms/RubyLink/mem_manager.c:28-46 | Starts with every pool full, nothing live, and the invariant |
| MemManager.Manager.Alloc | src/platforms/RubyLink/mem_manager.c:48-84 | Returns a zeroed block of at least the size that was not live, from the tightest pool; NULL exactly from an interrupt, when no pool fits or when that one pool is empty; keeps the invariant |
| MemManager.Manager.Free | src/platforms/RubyLink/mem_manager.c:86-116 | A live block goes back to the front of the pool of its size and is no longer live; keeps the invariant; does nothing for NULL or from an interrupt |
| MemManager.PoolKeepsItsItems | src/platforms/RubyLink/mem_manager.c:28-116 | A sound pool still has all the items it was made with, each free or live |
| MemManager.LiveBlocksAreDisjoint | src/platforms/RubyLink/mem_manager.c:48-84 | Two live blocks never share memory, whichever pools they come from |
| MemManager.Manager.LiveMemoryIsNotFree | src/platforms/RubyLink/mem_manager.c:48-84 | What allocation may write belongs to no live block |
| MemManager.DoubleFree | src/platforms/RubyLink/mem_manager.c:86-116 | Freeing a block twice while another of its pool is out makes the next two allocations return the same memory |
| Numerals.FrontDigit | src/platforms/RubyLink/SysView/SEGGER_RTT_printf.c:192-203 | Quotient by the highest power, then the digits of the remainder: the numeral from the front is the numeral from the back |
| Numerals.DigitText | src/platforms/RubyLink/SysView/SEGGER_RTT_printf.c:137 | Digits are printed in upper case |
| Numerals.NaturalWidthLeast | src/platforms/RubyLink/SysView/SEGGER_RTT_printf.c:147-156 | The measured width is the least one whose power exceeds the number |
| Numerals.ReadsNumeral | src/platforms/RubyLink/SysView/SEGGER_RTT_printf.c:192-203 | Reading a wide enough numeral gives the number |
| RttPrintf.UnsignedReadsBack | src/platforms/RubyLink/SysView/SEGGER_RTT_printf.c:136-220 | Whatever flags, width and precision, an unsigned field reads back as the number |
| RttPrintf.IntReadsBack | src/platforms/RubyLink/SysView/SEGGER_RTT_printf.c:226-296 | Whatever flags, width and precision, a signed field reads back as the number, sign included |
| RttPrintf.FieldWidths | src/platforms/RubyLink/SysView/SEGGER_RTT_printf.c:136-296 | Every field is as wide as asked, or as wide as its digits and sign need |
| RttPrintf.UnsignedLayout | src/platforms/RubyLink/SysView/SEGGER_RTT_printf.c:136-220 | Position by position: spaces behind the digits when left-justified, otherwise in front of them, and zeros there exactly when asked for without a precision |
| RttPrintf.SignedLayout | src/platforms/RubyLink/SysView/SEGGER_RTT_printf.c:226-296 | Position by position: one minus exactly for a negative number, one plus exactly when asked for and not negative, behind filled spaces and before filled zeros and digits |
| RttPrintf.DivisorExact | src/platforms/RubyLink/SysView/SEGGER_RTT_printf.c:172-189 | The 32-bit divisor equals the power it stands for exactly when that power fits |
| RttPrintf.DecimalPrecision | src/platforms/RubyLink/SysView/SEGGER_RTT_printf.c:172-189 | In base 10 the divisor is safe exactly for precisions up to 10 |
| RttPrintf.HexPrecision | src/platforms/RubyLink/SysView/SEGGER_RTT_printf.c:172-189 | In base 16 exactly up to 8; beyond that the divisor is 0 and the first division would trap |
| RttPrintf.Printer.StoreChar | src/platforms/RubyLink/SysView/SEGGER_RTT_printf.c:111-130 | Adds one character to the text, or ends with a prefix of it when a full buffer is not taken whole |
| RttPrintf.Printer.PrintUnsigned | src/platforms/RubyLink/SysView/SEGGER_RTT_printf.c:136-220 | Prints the specified field of the number, or a prefix of it up to a refused write |
| RttPrintf.Printer.PrintInt | src/platforms/RubyLink/SysView/SEGGER_RTT_printf.c:226-296 | Prints the specified signed field, or a prefix of it up to a refused write |
| RttPrintf.Vprintf | src/platforms/RubyLink/SysView/SEGGER_RTT_printf.c:322-462 | The up-buffer gets the text of all conversions, independent of the buffer size, when every write is taken whole, otherwise a prefix; the result counts the last partly filled buffer twice and is the number of bytes the up-buffer took exactly when the text fills a whole number of buffers |
| Crc16.TableEntry | src/platforms/RubyLink/device_config.c:30-63 | Every table entry is its index divided by the reflected polynomial 0xA001 |
| Crc16.CalcIsByteStep | src/platforms/RubyLink/device_config.c:68-73 | One round of the table loop is eight steps of the division |
| Crc16.CheckValue | src/platforms/RubyLink/device_config.c:28-76 | The digits 1 to 9 have the check value 0x4B37 of CRC-16/MODBUS |
| Crc16.Crc | src/platforms/RubyLink/device_config.c:28-76 | The loop computes the division over all bytes from 0xFFFF |
| Crc16.PairIsNoticed | src/platforms/RubyLink/device_config.c:28-76 | Images that differ only inside two neighbouring bytes have different CRCs |
| Eeprom.AlignedWrite | src/platforms/RubyLink/eeprom.c:37-45 | A chunk that starts at a page boundary does not roll over inside the page |
| Eeprom.AlignedWrites | src/platforms/RubyLink/eeprom.c:37-56 | From a page boundary on, the chunks of a write of any length put the data at consecutive addresses |
| Eeprom.RollOver | src/platforms/RubyLink/eeprom.c:37-45 | From any address, byte k of a transfer goes to the page's address (address + k) modulo 8 |
| Eeprom.RestOfMemory | src/platforms/RubyLink/eeprom.c:37-45 | No other byte of memory changes in a transfer |
| Eeprom.Device.Attempts | src/platforms/RubyLink/eeprom.c:42-52 | For every schedule of bus outcomes a chunk is reported as written exactly when one of the first hundred transfers succeeds, and stored exactly when one of the first hundred and one does |
| Eeprom.StoredButRefused | src/platforms/RubyLink/eeprom.c:42-52 | A write of any length stores everything and still reports failure exactly when its last chunk first succeeds in the transfer after the last counted attempt, all chunks before it being done |
| Eeprom.LateWrite | src/platforms/RubyLink/eeprom.c:42-52 | A bus that is silent for a hundred transfers makes every write of one chunk stored and reported as failed |
| Eeprom.Device.Write | src/platforms/RubyLink/eeprom.c:27-56 | For every schedule and address: the result, the number of bytes stored and the transfers used are the outcome the bus decides, and the stored bytes lie where their chunks put them, consecutively from a page boundary; too long a range is refused untouched |
| DeviceConfig.GetAfterChange | src/platforms/RubyLink/device_config.c:264-332 | Get after set returns the value, for the CRC exactly when it is the right CRC |
| DeviceConfig.OthersUnaffected | src/platforms/RubyLink/device_config.c:178-262 | Settings with disjoint bytes, the CRC aside, are not disturbed |
| DeviceConfig.WithCrcValid | src/platforms/RubyLink/device_config.c:163-176 | Storing the computed CRC makes the image valid and does not change what it is computed over |
| DeviceConfig.StartedValid | src/platforms/RubyLink/device_config.c:86-114 | What a start finds has a right CRC, and is the stored image when that had one |
| DeviceConfig.StartedDefaults | src/platforms/RubyLink/device_config.c:86-132 | With a wrong CRC every setting starts with its default and the MAC address with what its own place holds |
| DeviceConfig.Layout | src/platforms/RubyLink/device_config.c:178-262 | The settings lie one behind the other without gaps, interface and target settings cover their parts, and the MAC address lies behind what is stored |
| DeviceConfig.DefaultAddresses | src/platforms/RubyLink/device_config.c:116-132 | The default network settings, byte by byte |
| DeviceConfig.OtherDefaults | src/platforms/RubyLink/device_config.c:116-132 | The other defaults, with CRC and MAC address kept |
| DeviceConfig.CorruptionIsNoticed | src/platforms/RubyLink/device_config.c:86-114 | A stored image damaged inside two neighbouring setting bytes fails its CRC, so the next start falls back to the defaults |
| DeviceConfig.Settings.constructor | src/platforms/RubyLink/device_config.c:86-114 | After init without bus faults RAM is what the EEPROM held, or the defaults, EEPROM and RAM agree under a right CRC, and a valid EEPROM is left as it was |
| DeviceConfig.Settings.Reset | src/platforms/RubyLink/device_config.c:116-132 | Writes every default setting and keeps CRC and MAC |
| DeviceConfig.Settings.WriteAll | src/platforms/RubyLink/device_config.c:163-176 | Recomputes the CRC and succeeds exactly when the bus lets it; afterwards EEPROM and RAM agree exactly when they already did on the bytes that were not stored; nothing past the stored part of the EEPROM changes |
| DeviceConfig.PartlyWritten | src/platforms/RubyLink/device_config.c:163-176 | An image of which a prefix was stored agrees with RAM exactly when the bytes behind it already did |
| DeviceConfig.Settings.GetValue | src/platforms/RubyLink/device_config.c:264-290 | Returns the setting's bytes exactly for a known id and the right size |
| DeviceConfig.Settings.SetValue | src/platforms/RubyLink/device_config.c:292-332 | Changes exactly the setting and the CRC, writes nothing when the value is already there; settings that agreed with the EEPROM still do exactly when no byte behind the part the bus stored has changed |
| DeviceConfig.SetAndRestart | src/platforms/RubyLink/device_config.c:86-332 | After any run of set calls without bus faults a restart reproduces the 33 stored bytes, and the MAC address from its own place |
| Remote.NumberRoundTrip | src/remote.c:45-61 | Every 64-bit parameter printed by a response and read with room for its digits comes back exactly |
| Remote.DigitTexts | src/remote.c:45-110 | Responses are written in lower case, digits of either case are read, and nothing else is a digit |
| Remote.ReadsNumeral | src/remote.c:45-61 | The reader stops at the first other character or its limit, and returns the number exactly when the limit holds all its digits or it is 0 |
| Remote.HexOfShortest | src/remote.c:98-110 | The numeral has at most n digits exactly when the number is below 16^n |
| Remote.Hston | src/remote.c:45-61 | The loop returns the value of the digits it takes, modulo 2^64, and never reads past the end mark |
| Remote.Respond | src/remote.c:88-110 | The response is the shortest numeral between the marks, collected in at most 16 of the 35 buffer bytes |
| Remote.RespondBuf | src/remote.c:64-86 | Every byte as two digits; an empty buffer still sends one byte |
| Remote.BufferRoundTrip | src/remote.c:64-86 | The host that unhexifies the body gets the buffer |

## Left out

- RttRing.Ring.WriteWithOverwrite: rings of two slots or more, because on a ring of one slot the loop ends only for writes of at most one byte.
- TraceSwo.TraceDecoder.TraceIsr: a synchronising high time of exactly 5 ticks is excluded, because the handler then divides by zero.
- Manchester.FrameDecodes: follows the captures up to the first time-out; how the decoder finds its way back into a frame it has been thrown out of, and half-bit times above 16383 ticks, whose captures overflow, are not modelled.
- JtagTransfer.TdiTdoSeqWords: DO has to be there; jtagtap.h lets it be NULL, which no branch of the function looks for.
- RttPrintf.Printer.PrintUnsigned: precisions whose divisor does not fit 32 bits are excluded (above 10 in base 10, above 8 in base 16); `DecimalPrecision` and `HexPrecision` say what becomes of the divisor there.
- RttPrintf.Printer.PrintInt: the least 32-bit integer is excluded, because its negation overflows in C.
- RttPrintf.Vprintf: takes the conversions already parsed; reading the format string is not modelled.
- TransferCache.Interface.SeqIn: the data words, parity values and FIFO traffic of SWD transfers are not modelled, only what each transfer ran with.
- GdbPacket.GetPacket: the remote packet processor is an event; what it replies is not modelled.
- Crc32.GenericCrc32Table: bases are 32-bit addresses, as in the parameter type.
- MemManager.Manager.Alloc: the mutex calls around the queues have no effect in the code (only the give is left) and none in the model.
- Hardware registers, DMA, GPIO, timer and USB plumbing, FreeRTOS scheduling, time-outs and wall-clock time.
- `gdb_main_loop`, the command interpreter, target drivers, the hosted and ST-Link ports and the network sockets: input and output around libraries that are not part of this model.
- The FIFOs of `usbuart.c` and `traceswoasync.c`, `morse.c` and `general.c`: they repeat the ring or would only add easy members.
- The extra byte that `eeprom_write` copies behind each chunk into its own buffer and the I2C address byte: only the data bytes are modelled.
- The string copy of `gdb_putpacket_f` and `gdb_voutf` through vsnprintf.
- libftdi's `tms_seq`, whose loop sends one command too many for multiples of seven ticks.
