# Five barebox drivers in Dafny

This project models five drivers of the barebox bootloader and proves properties of the
models. Every driver becomes one module. The `Kernel` module holds the register word
types (`bv32`, `bv16`, `bv8`), the kernel's error numbers and the set-or-clear-bits update
that several drivers share.

- `DryIce` (drivers/rtc/rtc-imxdi.c) models the i.MX25 DryIce security monitor and its RTC.
  - It classifies the unit by the NVF/SVF status bits.
  - It runs the four recovery procedures: valid, invalid, failure, invalid-and-failure.
  - It models the synchronous write protocol: the write, the WCF/WEF wait and the WEF acknowledgement.
  - It reads and sets the time, and reads and writes the NVRAM word.
  - A `Unit` logs every bus write in order. The register bank is the initial bank after those writes.
  - DSR and DCR answers come from injected snapshot sequences.
  - Each procedure is specified by a pure function returning an `Outcome`: the return code, the writes, the reads it consumed and the power-cycle advice it gives.
- `ImxKeypad` (drivers/input/imx_keypad.c) models the i.MX keypad port.
  - It scans the 8x8 matrix column by column and debounces over three scans.
  - It reports an event for every changed key and re-arms the key-depress or key-release interrupt.
  - Its setup (`config`, `inhibit`) and the enabled-row/column masks are derived from the keymap.
- `MvebuSpi` (drivers/spi/mvebu_spi.c) models the Marvell Orion/Armada/Dove SPI controller.
  - It covers chip select, word size, SPI mode and the three baud-rate encoders.
  - It covers the word-by-word transfer loop and the message loop.
- `ImxIomuxV2` (drivers/pinctrl/imx-iomux-v2.c) models the i.MX31 IOMUX.
  - Mux modes live in byte lanes of the SW_MUX_CTL registers.
  - Pad configurations are 9-bit fields of SW_PAD_CTL.
  - The GPR function bits are set and cleared.
  - `setup_multiple_pins` applies a list of pins.
- `OmapHsmmc` (drivers/mci/omap_hsmmc.c) models the OMAP HSMMC host.
  - `send_cmd` covers the command flags and command word, the BLK register, response capture into `cmd->response`, the error codes and the dispatch to the polled data loops.
  - `set_ios` covers the bus width bits and the SYSCTL clock divisor.
  - The polled read/write loop is a `while` loop proved against a recursive function (`Drain`).

State that the source changes in place is a class: `DryIce.Unit`, `ImxKeypad.Keypad`,
`MvebuSpi.Controller`, `ImxIomuxV2.Iomux` and `OmapHsmmc.Host`. Each has `modifies`
clauses, and each method's `ensures` ties the new state to a specification function.
Loops in the source are `while`/`for` loops with invariants. Examples are the DryIce wait
loops, the keypad column loops, the SPI word and message loops, the HSMMC data loop and
the keypad mask loop of probe.

## Model

| member | source | states |
|---|---|---|
| DryIce.Classify | drivers/rtc/rtc-imxdi.c:353-372 | each of the four states holds exactly for its NVF/SVF combination (both directions) |
| DryIce.ClassifyIgnoresOtherBits | drivers/rtc/rtc-imxdi.c:353-356 | two DSR values that agree on NVF and SVF select the same handler |
| DryIce.ApplyAppend | drivers/rtc/rtc-imxdi.c:163-174 | issuing two batches of register writes in turn is issuing their concatenation |
| DryIce.ApplyUntouched | drivers/rtc/rtc-imxdi.c:163-174 | writes to other registers leave a register's content unchanged |
| DryIce.LastWriteWins | drivers/rtc/rtc-imxdi.c:163-174 | a register holds the value of its last write, whatever is written elsewhere afterwards |
| DryIce.ValidDisarmsAlarm | drivers/rtc/rtc-imxdi.c:205-216 | afterwards the alarm reads all ones (never fires), the alarm fraction reads 0, CAF is acknowledged exactly when it was set, and only DCAMR, DCALR and DSR are written |
| DryIce.FailureIsInert | drivers/rtc/rtc-imxdi.c:183-203 | the failure handler writes nothing and returns -ENODEV; it asks for a battery cycle exactly when DCR.FSHL is set, else for a main-power cycle |
| DryIce.PrologueKeepsSeconds | drivers/rtc/rtc-imxdi.c:226-228 | the tamper-disable prologue leaves the seconds register unchanged |
| DryIce.ReviveEffect | drivers/rtc/rtc-imxdi.c:263-269 | the restart writes leave DCR with TCE set, the seconds restored and the tamper configuration untouched |
| DryIce.InvalidRecovery | drivers/rtc/rtc-imxdi.c:218-273 | the first two writes disable and soft-lock the tamper sources; it fails with -ENODEV exactly when the re-read DCR shows a stopped, locked counter, and then TCE is never written; on success the writes are NVF clear, TCO clear, DCR with TCE, the old seconds, then the valid-state writes |
| DryIce.RevivedBank | drivers/rtc/rtc-imxdi.c:226-269 | after the prologue and the restart, on any bank: tamper configuration 0, DCR is the read value with TCE set, seconds as before |
| DryIce.RestartEffect | drivers/rtc/rtc-imxdi.c:226-272 | the whole successful invalid-state write sequence also leaves the alarm disarmed |
| DryIce.InvalidRecoveryEffect | drivers/rtc/rtc-imxdi.c:218-273 | after a successful invalid-state recovery: tamper configuration 0, counter enabled, seconds preserved, alarm disarmed |
| DryIce.InvalidAndFailureRecovery | drivers/rtc/rtc-imxdi.c:275-346 | a raised tamper flag with locked tamper configuration fails with no write (battery advice exactly for the hard lock); otherwise it disables sources, acknowledges the tamper flags and clears SVF, fails with battery advice if SVF stays set, and else continues as the invalid-state handler |
| DryIce.TamperAcknowledgement | drivers/rtc/rtc-imxdi.c:310-315 | the value written back to DSR holds exactly the raised tamper-class flags and none of NVF, SVF, WCF, WEF, CAF |
| DryIce.CleanupKeepsSeconds | drivers/rtc/rtc-imxdi.c:310-329 | the tamper cleanup writes leave the seconds register unchanged |
| DryIce.InvalidAndFailureRecoveryEffect | drivers/rtc/rtc-imxdi.c:275-346 | a successful recovery from invalid-and-failure ends with the same bank guarantees as the invalid-state recovery |
| DryIce.RecoveryEffect | drivers/rtc/rtc-imxdi.c:348-375 | every successful recovery disarms the alarm; one from a non-valid state also leaves tamper configuration 0, counter enabled and seconds preserved; the failure state is never written; the result is 0 or -ENODEV |
| DryIce.PollWriteCompletion | drivers/rtc/rtc-imxdi.c:418-434 | the wait reads DSR at least once and at most the budget; it reports completion exactly when the last read shows WCF without WEF, a write error exactly on WEF, and a timeout exactly when no read showed either flag |
| DryIce.PollErrorCleared | drivers/rtc/rtc-imxdi.c:393-398 | at most 1000 reads; it reports cleared exactly when the last read shows WEF clear, and every earlier read showed WEF set |
| DryIce.PollReadsStopAtFlag | drivers/rtc/rtc-imxdi.c:419-428 | every DSR read before the last one shows neither WCF nor WEF |
| DryIce.ConfirmedWrite | drivers/rtc/rtc-imxdi.c:409-437 | the register write comes first; the result is 0 exactly when a read showed WCF without WEF, otherwise -EIO; success writes nothing else; a write error (WEF on the last read) adds exactly one WEF acknowledgement |
| DryIce.ConfirmedData | drivers/rtc/rtc-imxdi.c:409-437 | apart from DSR acknowledgements a confirmed write issues only its own write |
| DryIce.ConfirmedResult | drivers/rtc/rtc-imxdi.c:409-437 | a confirmed write returns 0 or -EIO, and on success issues only its own write |
| DryIce.DataWritesAppend | drivers/rtc/rtc-imxdi.c:409-437 | leaving out the acknowledgements commutes with concatenating write sequences |
| DryIce.SetTimeRefusal | drivers/rtc/rtc-imxdi.c:473-487 | the set-time is refused exactly when the counter is disabled or SVF is set and a lock (hard, soft or SVF) applies; battery advice exactly for the hard lock |
| DryIce.SoftLockAloneDoesNotRefuse | drivers/rtc/rtc-imxdi.c:473-487 | a running counter with only the soft lock set is not refused; a stopped soft-locked one asks for a main-power cycle |
| DryIce.EnablePlan | drivers/rtc/rtc-imxdi.c:498 | the enabling write writes back the DCR it read with TCE set, result 0 or -EIO |
| DryIce.StorePlan | drivers/rtc/rtc-imxdi.c:494-498 | the seconds write comes first; the counter is enabled only after it succeeded |
| DryIce.CommitPlan | drivers/rtc/rtc-imxdi.c:489-498 | the writes are fraction 0, seconds, DCR with TCE, in that order, stopping at the first failure (-EIO) without undoing earlier ones |
| DryIce.ApplyThree | drivers/rtc/rtc-imxdi.c:489-498 | three writes to three distinct registers each leave their own value |
| DryIce.CommitSuccess | drivers/rtc/rtc-imxdi.c:489-498 | after a successful set-time the seconds hold the new value, the fraction is 0 and the counter is enabled, whatever the bank held |
| DryIce.SetTimeEffect | drivers/rtc/rtc-imxdi.c:462-499 | set-time returns -EPERM with no write exactly when the lock check refuses, else it is the three-write commit; the result is 0, -EPERM or -EIO |
| DryIce.CommitResult | drivers/rtc/rtc-imxdi.c:489-498 | the commit returns 0 or -EIO and gives no advice |
| DryIce.Unit.constructor | drivers/rtc/rtc-imxdi.c:545-575 | a unit with a given initial bank and hardware answers, no write yet |
| DryIce.Unit.WriteReg | drivers/rtc/rtc-imxdi.c:163-174 | a bus write is appended to the log and becomes the register's content |
| DryIce.Unit.WriteAll | drivers/rtc/rtc-imxdi.c:163-174 | writes issued in turn are appended to the log in order |
| DryIce.Unit.ReadStatus | drivers/rtc/rtc-imxdi.c:353 | a DSR read returns the next status snapshot and advances only the status cursor |
| DryIce.Unit.ReadControl | drivers/rtc/rtc-imxdi.c:189 | a DCR read returns the next control snapshot and advances only the control cursor |
| DryIce.Unit.HandleValid | drivers/rtc/rtc-imxdi.c:205-216 | returns 0 after exactly the valid-state writes |
| DryIce.Unit.HandleFailure | drivers/rtc/rtc-imxdi.c:183-203 | behaves as the failure-state specification |
| DryIce.Unit.HandleInvalid | drivers/rtc/rtc-imxdi.c:218-273 | behaves as the invalid-state specification, entered with the current seconds |
| DryIce.Unit.HandleInvalidAndFailure | drivers/rtc/rtc-imxdi.c:275-307 | behaves as the invalid-and-failure specification, including the lock check |
| DryIce.Unit.Scrub | drivers/rtc/rtc-imxdi.c:309-345 | the cleanup, SVF clear and check, then the invalid-state handler, as specified |
| DryIce.Unit.HandleState | drivers/rtc/rtc-imxdi.c:348-375 | one DSR read, then exactly the handler of its class, as specified |
| DryIce.Unit.ClearWriteError | drivers/rtc/rtc-imxdi.c:384-401 | writes one WEF acknowledgement and consumes exactly the reads of the bounded wait |
| DryIce.Unit.WriteWait | drivers/rtc/rtc-imxdi.c:409-437 | behaves as the confirmed-write specification |
| DryIce.Unit.ReadTime | drivers/rtc/rtc-imxdi.c:447-456 | returns 0 and the current seconds register |
| DryIce.Unit.LockCheck | drivers/rtc/rtc-imxdi.c:473-487 | the advice equals the refusal function of the DCR and DSR read |
| DryIce.Unit.SetTime | drivers/rtc/rtc-imxdi.c:462-499 | a failed time conversion is returned with nothing done; otherwise it behaves as the set-time specification |
| DryIce.Unit.CommitTime | drivers/rtc/rtc-imxdi.c:489-498 | behaves as the three-write commit specification |
| DryIce.Unit.StoreTime | drivers/rtc/rtc-imxdi.c:494-498 | behaves as the seconds-then-enable specification |
| DryIce.Unit.EnableCounter | drivers/rtc/rtc-imxdi.c:498 | behaves as the enabling-write specification |
| DryIce.Unit.NvstoreWrite | drivers/rtc/rtc-imxdi.c:506-517 | returns 0; a 4-byte write stores the value in the general purpose register; any other length writes nothing |
| DryIce.Unit.NvstoreRead | drivers/rtc/rtc-imxdi.c:519-530 | returns 0; a 4-byte read yields the general purpose register; any other length yields nothing |
| DryIce.NvstoreRoundTrip | drivers/rtc/rtc-imxdi.c:506-530 | a word written through the NVRAM accessor reads back unchanged |
| ImxKeypad.BitFacts | drivers/input/imx_keypad.c:116 | `1 << i` has one bit set, and distinct rows or columns give distinct bits |
| ImxKeypad.SetBit | drivers/input/imx_keypad.c:386-387 | setting bit i of a mask sets exactly that bit and keeps the mask within 8 bits |
| ImxKeypad.KeepRowByte | drivers/input/imx_keypad.c:124-145 | discharging and driving a column leaves the row byte of KPDR unchanged |
| ImxKeypad.AllColumnsDriven | drivers/input/imx_keypad.c:128-136 | after the column loop the enabled columns are open-drain, also when no column is enabled |
| ImxKeypad.ScanCode | drivers/input/imx_keypad.c:198 | a matrix position's keymap index is below 64 |
| ImxKeypad.Sampled | drivers/input/imx_keypad.c:115-159 | an enabled column holds only enabled rows; a disabled column keeps its prior value |
| ImxKeypad.RowsLow | drivers/input/imx_keypad.c:157-158 | the pressed rows of a column are among the enabled rows |
| ImxKeypad.SelectMembers | drivers/input/imx_keypad.c:192-206 | an item is selected exactly when some position with its flag set holds it |
| ImxKeypad.DueRows | drivers/input/imx_keypad.c:192-196 | the rows due an event are exactly the enabled rows whose bit changed in an enabled column |
| ImxKeypad.Candidates | drivers/input/imx_keypad.c:198-201 | the event for each row is its keycode and its bit in the new state |
| ImxKeypad.EventsAreTheChangedKeys | drivers/input/imx_keypad.c:174-208 | an event is reported exactly for each enabled key whose state changed, carrying its keycode and new state |
| ImxKeypad.ColumnEventsMembers | drivers/input/imx_keypad.c:183-206 | a column reports exactly the events of its changed enabled rows |
| ImxKeypad.NoChangeNoEvents | drivers/input/imx_keypad.c:179-190 | when no enabled column changed nothing is reported |
| ImxKeypad.QuietColumn | drivers/input/imx_keypad.c:183-190 | a disabled or unchanged column reports nothing |
| ImxKeypad.AnyColumnChanged | drivers/input/imx_keypad.c:225-234 | the result is true exactly when some enabled column differs from the last scan |
| ImxKeypad.Differs | drivers/input/imx_keypad.c:230 | the XOR test is non-zero exactly when the two row patterns differ |
| ImxKeypad.IsZeroMatrix | drivers/input/imx_keypad.c:271-277 | the result is true exactly when every column is zero (every key is up) |
| ImxKeypad.CountIsQuietTail | drivers/input/imx_keypad.c:243-248 | starting from zero, the scan counter equals the number of consecutive unchanged scans at the end |
| ImxKeypad.KpsrIdle | drivers/input/imx_keypad.c:286-293 | with every key up: key-depress interrupt enabled, key-release disabled, press status and synchronizer acknowledged, other bits kept |
| ImxKeypad.KpsrBusy | drivers/input/imx_keypad.c:301-308 | with a key down: key-release interrupt enabled, key-depress disabled, release status and synchronizer acknowledged, other bits kept |
| ImxKeypad.MarkStep | drivers/input/imx_keypad.c:382-390 | visiting a mapped key sets its row and column bits; a reserved key changes nothing |
| ImxKeypad.EnabledMasks | drivers/input/imx_keypad.c:381-397 | row bit r is set exactly when some key of row r is mapped, column bit c exactly when some key of column c is; both masks fit 8 bits, so probe's -EINVAL check never fires |
| ImxKeypad.Keypad.constructor | drivers/input/imx_keypad.c:368-390 | a zeroed keypad whose masks are those derived from the keymap |
| ImxKeypad.Keypad.ScanMatrix | drivers/input/imx_keypad.c:109-168 | the new state is the sampled matrix; KPDR ends with the columns released and the rows kept; the enabled columns are open-drain |
| ImxKeypad.Keypad.ScanColumn | drivers/input/imx_keypad.c:116-158 | one column's entry becomes its pressed rows, the KPDR row byte is kept |
| ImxKeypad.Keypad.DriveColumn | drivers/input/imx_keypad.c:124-145 | the column lines are high except the driven column, the enabled columns are open-drain |
| ImxKeypad.Keypad.FireEvents | drivers/input/imx_keypad.c:174-208 | the reported events are extended by exactly the events of the changed enabled keys, in column then row order |
| ImxKeypad.Keypad.FireColumn | drivers/input/imx_keypad.c:183-206 | one column appends exactly its events |
| ImxKeypad.Keypad.ReportRows | drivers/input/imx_keypad.c:192-206 | the row loop appends exactly the column's events |
| ImxKeypad.Keypad.CheckForEvents | drivers/input/imx_keypad.c:213-310 | a changed scan restarts debouncing, an equal one counts; events are reported and the stable state saved exactly on the third equal scan; from then on KPSR is re-armed for key release while a key is down and for key depress once all are up |
| ImxKeypad.Keypad.Debounce | drivers/input/imx_keypad.c:225-248 | a changed scan replaces the unstable state and resets the count, an unchanged one increments it |
| ImxKeypad.Keypad.Rearm | drivers/input/imx_keypad.c:280-309 | KPSR becomes the idle or busy setting according to the zero-matrix test |
| ImxKeypad.Keypad.Config | drivers/input/imx_keypad.c:312-346 | enabled rows and open-drain columns in KPCR, columns driven 0, KDDR 0xff00, all status bits acknowledged, key-depress interrupt on and key-release off |
| ImxKeypad.Keypad.Inhibit | drivers/input/imx_keypad.c:348-359 | both key interrupts disabled, other KPSR bits kept, KPCR 0xff00 |
| MvebuSpi.CsWord | drivers/spi/mvebu_spi.c:77-81 | the IF_CTRL word decodes to the chip number and the enable request, with no other bit set |
| MvebuSpi.CsWordAsWritten | drivers/spi/mvebu_spi.c:63-84 | the source's guard rejects exactly the chip numbers above 8 |
| MvebuSpi.CsEightSelectsChipZero | drivers/spi/mvebu_spi.c:71-77 | chip 8 passes the guard and its word selects chip 0 |
| MvebuSpi.DivRoundUpCovers | drivers/spi/mvebu_spi.c:108 | DIV_ROUND_UP is the ceiling: that many divisors cover the clock, one fewer does not |
| MvebuSpi.CoversHalved | drivers/spi/mvebu_spi.c:133-135 | halving a ceiling quotient, rounding up, gives the ceiling quotient by the doubled divisor |
| MvebuSpi.PrescaleMasks | drivers/spi/mvebu_spi.c:41-43 | IF_CLK_PRESCALE_MASK is the union of the two prescaler macros' fields (corrected and as written) |
| MvebuSpi.WithPrescaler | drivers/spi/mvebu_spi.c:144-145 | the prescaler and exponent fields read back as written, every other bit kept |
| MvebuSpi.WithSprKeeps | drivers/spi/mvebu_spi.c:117-118 | Orion's update keeps every bit outside IF_CLK_PRESCALE_MASK as the macros define it (0x181f) |
| MvebuSpi.WithSprDivides | drivers/spi/mvebu_spi.c:117-118 | after writing prescaler `spr` (with POW2 or not) the Orion hardware divides by `spr`, doubled with POW2 |
| MvebuSpi.MaxRatios | drivers/spi/mvebu_spi.c:114-115 | the largest dividable ratios are 30 (Orion), 1920 (Armada) and 480 (Dove) |
| MvebuSpi.SpeedNotExceeded | drivers/spi/mvebu_spi.c:108 | a divider of at least DIV_ROUND_UP(clk, speed) keeps the SPI clock at or below the requested speed |
| MvebuSpi.OrionPrescaler | drivers/spi/mvebu_spi.c:108-109 | the prescaler rounded up to even is even, covers the ratio and exceeds it by at most one |
| MvebuSpi.HalveStep | drivers/spi/mvebu_spi.c:133-135 | a prescaler above the bound that covers the ratio still covers it after halving at twice the divider, and no prescaler within the bound covered it |
| MvebuSpi.ArmadaDivisors | drivers/spi/mvebu_spi.c:130-136 | the loop ends where the halving search ends; the exponent stays within 7, the prescaler times 2^exponent covers the ratio, and halving stops at the first exponent that brings it within 15 |
| MvebuSpi.ArmadaRange | drivers/spi/mvebu_spi.c:141-142 | the Armada search succeeds exactly when the ratio is at most 15 * 2^7 |
| MvebuSpi.DoveDivisors | drivers/spi/mvebu_spi.c:157-167 | the loop ends where the corrected sclk search ends; the exponent stays within 5, the rate times 2^sdiv covers the ratio, and halving stops at the first exponent that brings it within 30 |
| MvebuSpi.DoveRange | drivers/spi/mvebu_spi.c:172-173 | the Dove search succeeds exactly when the ratio is at most 30 * 2^4 |
| MvebuSpi.Halvings | drivers/spi/mvebu_spi.c:133-136 | the search ends with an exponent within its bound, and with a prescaler within 15 unless the bound was reached |
| MvebuSpi.SclkHalvings | drivers/spi/mvebu_spi.c:164-167 | the corrected sclk search ends with an exponent of at most 5, and with a rate within 30 unless exponent 5 was reached |
| MvebuSpi.DoveSpr | drivers/spi/mvebu_spi.c:179-182 | the 4-bit prescaler written is at most 15, and (doubled above 15) equals the rate rounded up to even |
| MvebuSpi.DoveFields | drivers/spi/mvebu_spi.c:175-182 | Dove's IF_CONFIG word carries the sclk exponent in bits 11-13, the prescaler in bits 0-3 and POW2 as chosen |
| MvebuSpi.DoveWordKeeps | drivers/spi/mvebu_spi.c:175-176 | Dove's update keeps every bit outside IF_CLK_DIV_MASK and IF_CLK_PRESCALE_MASK |
| MvebuSpi.DoveSettingDivides | drivers/spi/mvebu_spi.c:175-182 | under the Dove word the controller divides by 2^sdiv times the rate (above 15 rounded up to even) |
| MvebuSpi.DoveSettingCovers | drivers/spi/mvebu_spi.c:175-183 | the Dove divider covers the ratio when the rate covers the ratio over 2^sdiv |
| MvebuSpi.ArmadaExponentMisplaced | drivers/spi/mvebu_spi.c:42 | for a ratio of 40 the source writes 0x80a: exponent 2 lands in the sclk divider field and the controller divides by 10 |
| MvebuSpi.ArmadaExponentEightLost | drivers/spi/mvebu_spi.c:133-146 | for a ratio of 3000 the source reaches exponent 8, which encodes as 0: the controller divides by 12 |
| MvebuSpi.DoveHalvingsAsWritten | drivers/spi/mvebu_spi.c:163-167 | the source's Dove loop stops with an exponent of at most 5 |
| MvebuSpi.DoveWritesUnscaledPrescaler | drivers/spi/mvebu_spi.c:179-183 | for a ratio of 40 the source writes 0x814: the controller divides by 16 |
| MvebuSpi.DoveDivider0x814 | drivers/spi/mvebu_spi.c:175-182 | IF_CONFIG 0x814 makes the Dove controller divide by 16 |
| MvebuSpi.DoveHalvingRoundsDown | drivers/spi/mvebu_spi.c:164-167 | for a ratio of 62 the source's loop ends at rate 15 with exponent 2, whose divider 60 falls short of 62 |
| MvebuSpi.DoveAcceptsBeyondRange | drivers/spi/mvebu_spi.c:164-173 | for a ratio of 494 the source's loop ends at rate 30 with exponent 4 and accepts, though 30 * 2^4 = 480 < 494 |
| MvebuSpi.WordCount | drivers/spi/mvebu_spi.c:272-273 | word i is shifted exactly when its byte offset is below the length |
| MvebuSpi.InBytes | drivers/spi/mvebu_spi.c:290-294 | a DATA_IN word stores two bytes in 16-bit mode and one otherwise |
| MvebuSpi.Pack | drivers/spi/mvebu_spi.c:276-279 | the DATA_OUT word holds the first byte in bits 0-7 and the second in bits 8-15 |
| MvebuSpi.PackUnpack | drivers/spi/mvebu_spi.c:276-294 | storing a packed word back gives the bytes that were packed, in both widths |
| MvebuSpi.Silent | drivers/spi/mvebu_spi.c:283-288 | the first timed-out word, if any, has no answer |
| MvebuSpi.Sent | drivers/spi/mvebu_spi.c:281 | one DATA_OUT word per shifted word |
| MvebuSpi.Received | drivers/spi/mvebu_spi.c:290-295 | the rx buffer receives Step bytes per answered word |
| MvebuSpi.LoopbackEchoes | drivers/spi/mvebu_spi.c:273-296 | a device that answers each word with the word it was sent fills the rx buffer with the tx bytes |
| MvebuSpi.EchoWord | drivers/spi/mvebu_spi.c:276-294 | the bytes stored from a sent word are the tx bytes it was packed from |
| MvebuSpi.SilentNext | drivers/spi/mvebu_spi.c:283-288 | an answered word extends the run of answers |
| MvebuSpi.SilentStays | drivers/spi/mvebu_spi.c:283-288 | a timeout stays the first one however many words follow |
| MvebuSpi.ShiftWords | drivers/spi/mvebu_spi.c:272-298 | the DATA_OUT words are the packed tx words up to and including the first timed-out one; the result is -ETIMEDOUT exactly on a timeout; the rx bytes are those of the answered words |
| MvebuSpi.TransferCodes | drivers/spi/mvebu_spi.c:248-299 | over the corrected set_baudrate of the mvebu_spi.c:133 and :164-173 findings (Armada ratios up to 1920, Dove up to 480, where the source accepts up to 3840 and 494): a transfer's result is -EINVAL exactly when it is refused (device word size not 8 or 16, or its speed out of that range), and then nothing is sent; -ETIMEDOUT exactly when a word timed out; 0 means every word was sent and the rx buffer got a byte per shifted byte |
| MvebuSpi.FirstFailure | drivers/spi/mvebu_spi.c:321-325 | the index found is a failing transfer, unless none of them fails |
| MvebuSpi.Receipts | drivers/spi/mvebu_spi.c:321-325 | one rx buffer per completed transfer |
| MvebuSpi.Progress | drivers/spi/mvebu_spi.c:321-325 | a successful transfer after a run of successes extends the run, adds its length and appends its rx bytes and DATA_OUT words |
| MvebuSpi.FailureStays | drivers/spi/mvebu_spi.c:321-324 | a failing transfer stays the first failure however many transfers follow |
| MvebuSpi.NoFailure | drivers/spi/mvebu_spi.c:321-325 | when every transfer succeeds none is reported as failing |
| MvebuSpi.ReceiptAt | drivers/spi/mvebu_spi.c:321-325 | entry j of the rx buffers is transfer j's own |
| MvebuSpi.CompleteMessage | drivers/spi/mvebu_spi.c:301-333 | a message whose transfers are all accepted and fully answered completes, and each rx buffer holds a byte per shifted byte |
| MvebuSpi.Controller.constructor | drivers/spi/mvebu_spi.c:359-382 | a controller with its variant, clock and register words, 8-bit mode, nothing sent |
| MvebuSpi.Controller.SetCs | drivers/spi/mvebu_spi.c:63-84 | chips 8 and up are refused with -EINVAL and nothing written; otherwise IF_CTRL selects the chip, enabled as requested (inverted for CS_HIGH) |
| MvebuSpi.Controller.SetTransferSize | drivers/spi/mvebu_spi.c:86-101 | sizes other than 8 and 16 are refused with nothing changed; otherwise the 16-bit flag and IF_TRANSFER_2BYTE follow the size, other bits kept |
| MvebuSpi.Controller.SetMode | drivers/spi/mvebu_spi.c:189-216 | CPOL or CPHA is refused with nothing changed; otherwise both LSB-first bits follow SPI_LSB_FIRST, other bits kept |
| MvebuSpi.Controller.SetBaudrate | drivers/spi/mvebu_spi.c:236 | composes OrionBaudrate with the corrected ArmadaBaudrate and DoveBaudrate of the mvebu_spi.c:133 and :164-173 findings: succeeds exactly when the ratio is within the corrected range (30, 1920, 480), and then the divider is at least DIV_ROUND_UP(clk, speed); failure changes nothing; IF_CONFIG is what that set_baudrate leaves (BaudrateConfig) |
| MvebuSpi.Controller.OrionBaudrate | drivers/spi/mvebu_spi.c:103-122 | succeeds exactly when the ratio is at most 30; then IF_CONFIG is the old word with the 0x181f mask cleared, POW2 and half the even prescaler written, so the divider is the ratio rounded up to even |
| MvebuSpi.Controller.ArmadaBaudrate | drivers/spi/mvebu_spi.c:125-149 | corrected as the mvebu_spi.c:42 and :133 findings describe: succeeds exactly when the corrected search fits the prescaler in 4 bits, that is when the ratio is at most 1920 (the source's loop goes on to exponent 8 and also accepts up to 3840); then IF_CONFIG is the old word with that prescaler and exponent, the prescaler times 2^exponent covers the ratio, only prescaler fields change, and the exponent is the least that fits |
| MvebuSpi.Controller.DoveBaudrate | drivers/spi/mvebu_spi.c:153-186 | succeeds exactly when the ratio is at most 480; then IF_CONFIG is the Dove word for the rate and exponent of the corrected sclk search, and the divider covers the ratio |
| MvebuSpi.Controller.Setup | drivers/spi/mvebu_spi.c:218-237 | composes the corrected SetCs (the mvebu_spi.c:71 finding) and SetBaudrate (the mvebu_spi.c:133 and :164-173 findings): succeeds exactly when the chip is below 8, the mode is 0, the word size is 8 or 16 and the speed is within the corrected range, else -EINVAL; an invalid chip writes nothing; a valid chip is deselected; a refused mode changes IF_CONFIG and the word size not at all, a refused size leaves the LSB-first bits written; past both, the word size is the requested one and IF_CONFIG is the LSB-first bits, IF_TRANSFER_2BYTE and the variant's prescaler over the old word, with a divider covering the speed on success |
| MvebuSpi.Controller.Exchange | drivers/spi/mvebu_spi.c:272-298 | DATA_OUT receives exactly the words ShiftWords computes, in order |
| MvebuSpi.Controller.DoTransfer | drivers/spi/mvebu_spi.c:248-299 | over the corrected SetBaudrate (the mvebu_spi.c:133 and :164-173 findings): the result, the rx bytes and the DATA_OUT words are those of the transfer's outcome; -EINVAL exactly when the device word size is not 8 or 16 or the transfer's speed is outside the corrected range; the word size becomes the device's when the transfer has its own; IF_CONFIG is ConfigAfter's (IF_TRANSFER_2BYTE, then the divider, each only once accepted); its own speed sets a covering divider |
| MvebuSpi.Controller.Transfers | drivers/spi/mvebu_spi.c:301-333 | composes the corrected SetCs (the mvebu_spi.c:71 finding, chip 8 refused) and DoTransfer (the mvebu_spi.c:133 and :164-173 findings): a bad mode fails with nothing changed, a bad chip with only the LSB-first bits of set_mode written; otherwise the chip is deselected at the end, the result is the first failing transfer's (0 when none fails), the actual length sums the transfers before it, the rx buffers and DATA_OUT words are theirs (and the failing one's words), and the word size and IF_CONFIG are those after the last transfer run, which the next message starts from |
| MvebuSpi.Controller.RunTransfers | drivers/spi/mvebu_spi.c:321-325 | the loop stops at the first failing transfer with its code, counting the lengths, rx buffers and DATA_OUT words of the transfers run, and leaves the word size and IF_CONFIG of the last transfer run |
| MvebuSpi.BaudrateKeepsWidth | drivers/spi/mvebu_spi.c:103-186 | no variant's set_baudrate changes IF_TRANSFER_2BYTE, whether it succeeds or not |
| MvebuSpi.OrionKeepsWidth | drivers/spi/mvebu_spi.c:103-122 | mvebu_spi_set_baudrate keeps IF_TRANSFER_2BYTE |
| MvebuSpi.ArmadaKeepsWidth | drivers/spi/mvebu_spi.c:125-149 | the corrected Armada set_baudrate keeps IF_TRANSFER_2BYTE |
| MvebuSpi.DoveKeepsWidth | drivers/spi/mvebu_spi.c:153-186 | the corrected Dove set_baudrate keeps IF_TRANSFER_2BYTE |
| MvebuSpi.ConfigAfterWidth | drivers/spi/mvebu_spi.c:248-266 | when IF_TRANSFER_2BYTE agrees with the word size before a transfer it agrees after it; a transfer with neither its own word size nor its own speed leaves IF_CONFIG alone |
| MvebuSpi.ConfigAtWidth | drivers/spi/mvebu_spi.c:301-333 | IF_TRANSFER_2BYTE keeps agreeing with the word size at every transfer of a message |
| ImxIomuxV2.MuxOffset | drivers/pinctrl/imx-iomux-v2.c:36 | the mux register is word-aligned within the SW_MUX_CTL block |
| ImxIomuxV2.Lane | drivers/pinctrl/imx-iomux-v2.c:37 | the byte lane is 0 to 3 |
| ImxIomuxV2.ModeOf | drivers/pinctrl/imx-iomux-v2.c:38 | the mode fits one byte |
| ImxIomuxV2.WithLaneLane | drivers/pinctrl/imx-iomux-v2.c:43-46 | writing a lane makes that lane the mode and keeps every other lane |
| ImxIomuxV2.LanesDetermine | drivers/pinctrl/imx-iomux-v2.c:43-46 | a mux register is determined by its four lanes |
| ImxIomuxV2.LanesCommute | drivers/pinctrl/imx-iomux-v2.c:43-46 | writes to two different lanes of one register commute |
| ImxIomuxV2.PadOffset | drivers/pinctrl/imx-iomux-v2.c:63-64 | the pad control register is word-aligned within the SW_PAD_CTL block |
| ImxIomuxV2.PadField | drivers/pinctrl/imx-iomux-v2.c:65 | the pad field is 0 to 2 |
| ImxIomuxV2.PadFieldFacts | drivers/pinctrl/imx-iomux-v2.c:70-73 | for a config below 0x200 the pad's field becomes the config and no bit outside it changes |
| ImxIomuxV2.PadConfigSpills | drivers/pinctrl/imx-iomux-v2.c:71-72 | a config of 0x200 or more is not masked: it sets bits above the field |
| Kernel.WithBitsFields | drivers/pinctrl/imx-iomux-v2.c:88-94 | exactly the given bits are set (enable) or cleared, all others kept; SPI's transfer-size and LSB-first updates are the same read-modify-write |
| ImxIomuxV2.GprIdempotent | drivers/pinctrl/imx-iomux-v2.c:88-94 | setting or clearing the same bits twice equals doing it once |
| ImxIomuxV2.GprForms | drivers/pinctrl/imx-iomux-v2.c:89-92 | the source's or-in and and-out of the gp bits are the two cases of the GPR update |
| ImxIomuxV2.ModeWriteEffect | drivers/pinctrl/imx-iomux-v2.c:28-49 | imx_iomux_mode sets the lane it addresses to its mode and keeps every other lane of every register |
| ImxIomuxV2.MuxedLanes | drivers/pinctrl/imx-iomux-v2.c:98-106 | a lane no pin of the list addresses is unchanged |
| ImxIomuxV2.LastPinWins | drivers/pinctrl/imx-iomux-v2.c:98-106 | a lane holds the mode of the last pin of the list that addresses it |
| ImxIomuxV2.ModesCommute | drivers/pinctrl/imx-iomux-v2.c:28-49 | two pins addressing different lanes may be set in either order |
| ImxIomuxV2.Iomux.constructor | drivers/pinctrl/imx-iomux-v2.c:23 | a controller with or without `base` and a given register file |
| ImxIomuxV2.Iomux.Mode | drivers/pinctrl/imx-iomux-v2.c:28-49 | without `base` -EINVAL and nothing written; otherwise 0 and exactly the addressed lane is rewritten |
| ImxIomuxV2.Iomux.SetPad | drivers/pinctrl/imx-iomux-v2.c:55-74 | without `base` nothing changes; otherwise only the pad's register is rewritten, with its field replaced |
| ImxIomuxV2.Iomux.SetGpr | drivers/pinctrl/imx-iomux-v2.c:81-95 | without `base` nothing changes; otherwise only GPR is rewritten, with the gp bits set or cleared |
| ImxIomuxV2.Iomux.SetupMultiplePins | drivers/pinctrl/imx-iomux-v2.c:98-106 | returns 0 and applies imx_iomux_mode to each pin in order |
| OmapHsmmc.RegOut | drivers/mci/omap_hsmmc.c:168-169 | the masked bits come from the value, the others are kept |
| OmapHsmmc.RegOutUnique | drivers/mci/omap_hsmmc.c:168-169 | mmc_reg_out's result is the only word with those two properties |
| OmapHsmmc.ResponseFlags | drivers/mci/omap_hsmmc.c:436-452 | the response-length field follows present/136/busy; the CRC check is set exactly for MMC_RSP_CRC and the index check exactly for MMC_RSP_OPCODE |
| OmapHsmmc.ResponseTypes | drivers/mci/omap_hsmmc.c:436-452 | R1, R1b, R2, R3 and no response get their controller encodings |
| OmapHsmmc.DataFlags | drivers/mci/omap_hsmmc.c:454-468 | multi-block and block-count enable exactly for CMD18/CMD25, read direction exactly for a read, data present always |
| OmapHsmmc.CommandFlags | drivers/mci/omap_hsmmc.c:436-468 | every flag lies below bit 24 |
| OmapHsmmc.CommandWordFields | drivers/mci/omap_hsmmc.c:471 | the command word holds the index in bits 24-29 and the flags below, apart |
| OmapHsmmc.BlkFields | drivers/mci/omap_hsmmc.c:457-460 | a multi-block BLK word holds 512 in its low half and the block count in its high half |
| OmapHsmmc.TransferSize | drivers/mci/omap_hsmmc.c:505-511 | the byte count is blocksize * blocks in 32-bit unsigned arithmetic |
| OmapHsmmc.StoreResponse | drivers/mci/omap_hsmmc.c:487-500 | the response array keeps four words |
| OmapHsmmc.ResponseOrder | drivers/mci/omap_hsmmc.c:487-500 | a 136-bit response keeps its 128-bit value (response[0] most significant); a short response replaces word 0 only; no response leaves the array |
| OmapHsmmc.Dsor | drivers/mci/omap_hsmmc.c:549-553 | corrected as the omap_hsmmc.c:549-553 finding describes: the divisor is 0 for a stopped clock, otherwise the least divisor that brings 96 MHz down to the requested clock (the source's DsorAsWritten can be one below) |
| OmapHsmmc.DsorPassesCheck | drivers/mci/omap_hsmmc.c:551 | the divisor also passes the source's truncated test |
| OmapHsmmc.DsorAsWritten | drivers/mci/omap_hsmmc.c:549-553 | for a running clock the source's divisor is at least 1, passes its own truncated test, and is the least correct divisor or one below it |
| OmapHsmmc.QuotientBounds | drivers/mci/omap_hsmmc.c:550-553 | the truncated quotient is the least correct divisor or one below it, one more always passes the truncated test, and so does the quotient when it is the least correct divisor |
| OmapHsmmc.DsorNearQuotient | drivers/mci/omap_hsmmc.c:550 | the least correct divisor is the truncated quotient or one more |
| OmapHsmmc.Quotient | drivers/mci/omap_hsmmc.c:550 | the truncated quotient is at least 1 and brackets the reference between q and q + 1 times the clock |
| OmapHsmmc.FloorBelow | drivers/mci/omap_hsmmc.c:551 | a truncated quotient is at most c when c + 1 times the divisor exceeds the dividend |
| OmapHsmmc.DsorAsWrittenNotLeast | drivers/mci/omap_hsmmc.c:549-553 | at 1000 Hz the source keeps 96000, though 95999 passes the same truncated test |
| OmapHsmmc.DsorAsWrittenOvershoots | drivers/mci/omap_hsmmc.c:549-553 | for 401673 Hz the source keeps 239, whose card clock exceeds the request; the least sufficient divisor is 240 |
| OmapHsmmc.DsorFits | drivers/mci/omap_hsmmc.c:549-559 | down to 400 kHz the divisor is at most 240, so it fits the 10-bit CLKD field |
| OmapHsmmc.ClockSettingFields | drivers/mci/omap_hsmmc.c:555-568 | SYSCTL ends with CLKD the divisor's low ten bits, the internal clock on, data timeout 15, card clock on exactly when the internal clock became stable, other bits kept |
| OmapHsmmc.WidthSelected | drivers/mci/omap_hsmmc.c:524-545 | whatever CON and HCTL held, a supported width is the width the controller then drives |
| OmapHsmmc.ClockDivisorStored | drivers/mci/omap_hsmmc.c:549-559 | with the corrected divisor Dsor: from 400 kHz up SYSCTL.CLKD holds the whole divisor, which brings the clock at or below the request (the source's divisor need not, see DsorAsWrittenOvershoots) |
| OmapHsmmc.Count | drivers/mci/omap_hsmmc.c:295-296 | a chunk is min(size, 512) / 4 words: at most the size and at most 128 words |
| OmapHsmmc.WordsSplit | drivers/mci/omap_hsmmc.c:314-324 | consecutive chunks of words join into one run |
| OmapHsmmc.DrainStep | drivers/mci/omap_hsmmc.c:298-335 | a round without timeout, error or transfer-complete moves its chunk and continues with the bytes left |
| OmapHsmmc.DrainInOrder | drivers/mci/omap_hsmmc.c:285-337 | the loop returns 0, -ETIMEDOUT or -EIO, and the words it moves are the next words of its source, in order |
| OmapHsmmc.DrainChunks | drivers/mci/omap_hsmmc.c:298-335 | n clean chunks, with transfer-complete only on the last, move exactly size/4 words and return 0 |
| OmapHsmmc.DrainExact | drivers/mci/omap_hsmmc.c:285-337 | a transfer of at most one sector or of whole sectors, with clean events, moves exactly its words and returns 0 |
| OmapHsmmc.CopyChunk | drivers/mci/omap_hsmmc.c:319-322 | the inner loop copies the next count words of the source |
| OmapHsmmc.DataLoop | drivers/mci/omap_hsmmc.c:285-391 | the read and write loops return what the recursive loop specification returns, with the same moved words |
| OmapHsmmc.Host.constructor | drivers/mci/omap_hsmmc.c:171-180 | a host with its register contents and write support |
| OmapHsmmc.Host.SetIos | drivers/mci/omap_hsmmc.c:516-569 | with the divisor corrected to Dsor (the omap_hsmmc.c:549-553 finding): an unsupported width changes nothing; otherwise CON and HCTL get the width bits and SYSCTL the clock setting of that divisor; BLK, ARG and CMD are kept |
| OmapHsmmc.Host.SendCmd | drivers/mci/omap_hsmmc.c:393-514 | a busy line or stuck status returns -ETIMEDOUT before any write; otherwise BLK (for data), ARG and CMD are written with the encoded flags, and the result is that of the completion specification |
| OmapHsmmc.Complete | drivers/mci/omap_hsmmc.c:473-513 | the status wait, error checks, response capture and data dispatch give exactly the completion specification |
| OmapHsmmc.IssuedInOrder | drivers/mci/omap_hsmmc.c:473-513 | send_cmd returns 0, -ETIMEDOUT, -EIO, -1 or -ENOSYS; without data nothing moves; with data the moved words are the next words of the DATA reads or of the source buffer, in order |
| OmapHsmmc.MultiBlockMovesAll | drivers/mci/omap_hsmmc.c:454-513 | an n-block CMD18/CMD25 with a clean completion and clean data events returns 0, stores the response and moves exactly 128 * n words |

## Left out

- Delays and timeouts are not modelled as time.
  - `udelay`, `di_write_busy_wait`'s delay and the 50 ms delay before SD_CMD_APP_SEND_SCR are left out.
  - A timed wait is an injected outcome. DryIce's wait is an iteration budget (`timeoutPolls`). SPI's read-ready wait is a `None` answer. The HSMMC PSTATE/STAT waits are `Bus.cmdInhibit`/`Bus.statStuck`, a `0` status event, and the `icsReady` flag of `Host.SetIos`.
- Hardware-driven registers are injected as values. These are DryIce's DSR and DCR, the keypad's row inputs while a column is driven, SPI's DATA_IN answers, and HSMMC's STAT, RSP and DATA reads. Registers the model never wrote read as 0 (DryIce bank, IOMUX).
- Probe functions, resource mapping, clocks, the poller and input-device registration, the driver tables and logging are left out.
  - The clock rate is a parameter. The selected SPI `set_baudrate` is a `Variant`.
  - The keypad constructor covers the mask loop of probe. The DryIce probe's DIER write and interrupt setup are not modelled.
- `mach/imx/iomux-mx31.h`, `include/mci.h`, `spi/spi.h` and `matrix_keypad_build_keymap` are not part of this model. Their constants are written out with their usual values (IOMUX pin layout, MMC response flags, SPI mode bits). The keymap is a parameter.
- DryIce.Unit.ReadTime: the calendar conversion (`rtc_time_to_tm`) is left out. The seconds count is returned. Likewise `SetTime` takes the result of `rtc_tm_to_time` as a parameter.
- OmapHsmmc: the writes that acknowledge STAT bits (`CC`, `BRR`/`BWR`) are not modelled. Neither are `mmc_init_setup`, `mmc_init_stream` or the card-detect path.
- OmapHsmmc: `data->blocksize = 512` is not written back into the caller's structure. The forced size is used for BLK and the byte count.
- OmapHsmmc.DataLoop: the destination buffer is the returned word sequence, not memory written at the caller's buffer address.
- OmapHsmmc.DataLoop: a size that is not a whole number of chunks wraps around in 32 bits as the source does. Only whole-chunk transfers are proved to move exactly their words (`DrainExact`).
- OmapHsmmc.Source: a word past the end of the source buffer (or of the DATA reads) reads as 0. The source's write loop (drivers/mci/omap_hsmmc.c:372-375) reads `data->src` without a bound, so a buffer shorter than the blocks sends whatever memory follows it; the model cannot name that memory.
- OmapHsmmc.WidthSelected: states that the chosen width takes effect. That no other CON/HCTL bit changes is left out; `WidthCon`/`WidthHctl` show it.
- MvebuSpi: `DIV_ROUND_UP` is computed on unbounded naturals. The source's `u32` sum `clk + speed - 1` could wrap for rates near 2^32 Hz.
- MvebuSpi.ShiftWords: a 16-bit transfer of odd length reads a tx byte past the buffer in the source. The model reads 0 there.
- MvebuSpi.Controller.SetBaudrate: requires a speed above 0. With speed 0 the source divides by zero in `DIV_ROUND_UP` (drivers/spi/mvebu_spi.c:108, 130 and 158), which C leaves undefined; `do_transfer` only calls it for a non-zero speed.
- MvebuSpi.Controller.OrionBaudrate: requires a speed above 0, for the division at drivers/spi/mvebu_spi.c:108.
- MvebuSpi.Controller.ArmadaBaudrate: requires a speed above 0, for the division at drivers/spi/mvebu_spi.c:130.
- MvebuSpi.Controller.DoveBaudrate: requires a speed above 0, for the division at drivers/spi/mvebu_spi.c:158.
- MvebuSpi.Controller.Setup: requires `max_speed_hz` above 0, since `set_baudrate` would divide by it.
- OmapHsmmc.Dsor: requires a clock of at most 96 MHz. Above it the source's `96000000 / clock` is 0 and the next line divides by that 0 (drivers/mci/omap_hsmmc.c:550-551).
- OmapHsmmc.Host.SetIos: requires a clock of at most 96 MHz, for the same division by zero.
- DryIce.Unit.ReadTime: DTCMR is a free-running seconds counter once TCE is set. The model treats it as storage, so a read returns the last value written (or the initial one). "Seconds preserved" in the contracts means no write changes DTCMR, not that time stands still.
- ImxKeypad.Keypad.Debounce: `stable_count` is an unbounded integer. In the source it is a C `int` (drivers/input/imx_keypad.c:85) incremented on every unchanged scan (:248); after 2^31 - 1 quiet scans the increment overflows, which C leaves undefined, and on the usual wrap the count turns negative and the check at :254 stops re-arming KPSR. The model keeps counting, so `ImxKeypad.CountIsQuietTail` holds for runs of any length where the source's count would no longer equal the run.
- ImxKeypad.Keypad.Rearm: the KPKD, KPKR, KDSC and KRSS bits of KPSR are write-1-to-clear. The model stores the word written, so these bits read back as 1 afterwards, where the hardware would clear them.
- ImxKeypad.Keypad.Config: the same write-1-to-clear status bits of KPSR are stored as written.

## Findings

| source | as written | input that shows it | evidently intended | confidence | as-written member | corrected member |
|---|---|---|---|---|---|---|
| drivers/spi/mvebu_spi.c:42 | `IF_CLK_PRE_PRESCALE` shifts exponent bits 1-2 by 6 then 4, onto bits 11-12 (Dove's sclk divider field) | Armada, clock 40 times the speed: exponent 2, IF_CONFIG 0x80a, controller divides by 10 | bits 1-2 of the exponent on POW4/POW8 (bits 6-7) | medium, not executed | MvebuSpi.ArmadaExponentMisplaced | MvebuSpi.WithPrescaler |
| drivers/spi/mvebu_spi.c:133 | the Armada loop runs while `pdiv <= 7`, so the exponent can reach 8 | clock 3000 times the speed: prescaler 12, exponent 8, which encodes as 0; controller divides by 12 | stop at exponent 7 and fail with -EINVAL when the prescaler is still above 15 | high, not executed | MvebuSpi.ArmadaExponentEightLost | MvebuSpi.ArmadaDivisors |
| drivers/spi/mvebu_spi.c:71 | `cs > SPI_SPI_MAX_CS` accepts chip 8, whose number overflows the 3-bit field | chip 8: IF_CTRL 0x21, bit 5 outside the field, chip 0 selected | reject chips 8 and up | high, not executed | MvebuSpi.CsEightSelectsChipZero | MvebuSpi.Controller.SetCs |
| drivers/spi/mvebu_spi.c:179-182 | Dove writes the unscaled `pscl`, cut to 4 bits, instead of the halved `rate` it checked | clock 40 times the speed: sdiv 1, IF_CONFIG 0x814, controller divides by 16 | write the scaled rate (with POW2 above 15), so prescaler times 2^sdiv covers the ratio | medium, not executed | MvebuSpi.DoveWritesUnscaledPrescaler | MvebuSpi.Controller.DoveBaudrate |
| drivers/spi/mvebu_spi.c:164-166 | the sclk loop halves `rate` rounding down, after `pscl` was rounded up to even, so 2^sdiv times the final rate can fall short of the ratio | clock 62 times the speed: rate 31, then 15 at sdiv 2, and 15 * 4 = 60 < 62 | halve rounding up, then round the final rate up to even for the POW2 encoding; this is the order the correction uses | medium, not executed | MvebuSpi.DoveHalvingRoundsDown | MvebuSpi.DoveDivisors |
| drivers/spi/mvebu_spi.c:164-173 | because of the rounding down the source accepts ratios 481 to 494, which no Dove setting can divide by (the most is 30 * 2^4 = 480) | clock 494 times the speed: the loop ends at rate 30 with sdiv 4 and returns 0 | fail with -EINVAL above 480; the corrected search rejects ratios 481 to 494, where the source accepted them | medium, not executed | MvebuSpi.DoveAcceptsBeyondRange | MvebuSpi.Controller.DoveBaudrate |
| drivers/mci/omap_hsmmc.c:549-553 | the divisor check compares the truncated quotient `96000000 / dsor` with the clock | clock 401673 Hz: dsor 239, card clock 96 MHz / 239 = 401673.6 Hz, above the request | the ceiling of 96 MHz / clock (240 here) | low, not executed | OmapHsmmc.DsorAsWrittenOvershoots | OmapHsmmc.Dsor, OmapHsmmc.Host.SetIos |
