/** The OMAP high-speed MMC/SD host controller (drivers/mci/omap_hsmmc.c): command-register
    encoding, the block register, response capture, the bus width and clock divisor of
    set_ios, and the polled data transfer loops. */
module OmapHsmmc {
  import opened Kernel

  // ---------------------------------------------------------------------------
  // Register bits
  // ---------------------------------------------------------------------------

  // CON and HCTL: data bus width.
  const DTW_8_BITMODE: Word := 0x20
  const DTW_4_BITMODE: Word := 0x2

  // SYSCTL: internal clock enable/stable, card clock enable, divisor, data timeout.
  const ICE_MASK: Word := 0x1
  const ICE_STOP: Word := 0x0
  const ICE_OSCILLATE: Word := 0x1
  const ICS_MASK: Word := 0x2
  const CEN_MASK: Word := 0x4
  const CEN_DISABLE: Word := 0x0
  const CEN_ENABLE: Word := 0x4
  const CLKD_MASK: Word := 0xffc0
  const DTO_MASK: Word := 0xf_0000
  const DTO_15THDTO: Word := 0xe_0000

  // CMD: block count enable, direction, multi-block, response type, checks, data present.
  const BCE_ENABLE: Word := 0x2
  const DDIR_WRITE: Word := 0x0
  const DDIR_READ: Word := 0x10
  const MSBS_MULTIBLK: Word := 0x20
  const RSP_TYPE_MASK: Word := 0x3_0000
  const RSP_TYPE_NORSP: Word := 0x0
  const RSP_TYPE_LGHT136: Word := 0x1_0000
  const RSP_TYPE_LGHT48: Word := 0x2_0000
  const RSP_TYPE_LGHT48B: Word := 0x3_0000
  const CCCE_CHECK: Word := 0x8_0000
  const CICE_CHECK: Word := 0x10_0000
  const DP_DATA: Word := 0x20_0000
  /** The flags that the command word may carry below the index. */
  const FLAG_BITS: Word := 0x3b_0032

  // BLK: number of blocks in the upper half, none for a single-block command.
  const NBLK_STPCNT: Word := 0x0

  // STAT: command complete, transfer complete, buffer write/read ready, error, timeout.
  const CC_MASK: Word := 0x1
  const TC_MASK: Word := 0x2
  const BWR_MASK: Word := 0x10
  const BRR_MASK: Word := 0x20
  const ERRI_MASK: Word := 0x8000
  const IE_CTO: Word := 0x1_0000

  const MMCSD_SECTOR_SIZE: nat := 512
  /** MMC_CLOCK_REFERENCE (96 MHz) in Hz. */
  const CLOCK_REFERENCE: nat := 96_000_000

  // The core's response-type bits and command numbers (include/mci.h is not part of this
  // model; these are the values the MMC core uses).
  const MMC_RSP_PRESENT: Word := 0x1
  const MMC_RSP_136: Word := 0x2
  const MMC_RSP_CRC: Word := 0x4
  const MMC_RSP_BUSY: Word := 0x8
  const MMC_RSP_OPCODE: Word := 0x10
  const MMC_CMD_READ_MULTIPLE_BLOCK: Word := 18
  const MMC_CMD_WRITE_MULTIPLE_BLOCK: Word := 25

  // ---------------------------------------------------------------------------
  // mmc_reg_out
  // ---------------------------------------------------------------------------

  /** mmc_reg_out: the bits of `mask` are taken from `val`, the others kept from `v`. */
  function RegOut(v: Word, mask: Word, val: Word): (r: Word)
    ensures r & !mask == v & !mask
    ensures r & mask == val & mask
  {
    (v & !mask) | (val & mask)
  }

  /** A word is determined by its bits inside and outside a mask: RegOut is the only word
      with the two properties above. */
  lemma RegOutUnique(v: Word, mask: Word, val: Word, w: Word)
    requires w & !mask == v & !mask && w & mask == val & mask
    ensures w == RegOut(v, mask, val)
  {
    assert w == (w & !mask) | (w & mask);
  }

  // ---------------------------------------------------------------------------
  // mmc_send_cmd: command and block registers
  // ---------------------------------------------------------------------------

  predicate Has(w: Word, bit: Word) {
    w & bit != 0
  }

  /** The response-type field and CRC/index checks for the core's `resp_type`. */
  function ResponseFlags(respType: Word): (flags: Word)
    ensures flags & !(RSP_TYPE_MASK | CCCE_CHECK | CICE_CHECK) == 0
    ensures flags & RSP_TYPE_MASK ==
      if !Has(respType, MMC_RSP_PRESENT) then RSP_TYPE_NORSP
      else if Has(respType, MMC_RSP_136) then RSP_TYPE_LGHT136
      else if Has(respType, MMC_RSP_BUSY) then RSP_TYPE_LGHT48B
      else RSP_TYPE_LGHT48
    ensures Has(flags, CCCE_CHECK) <==> Has(respType, MMC_RSP_CRC)
    ensures Has(flags, CICE_CHECK) <==> Has(respType, MMC_RSP_OPCODE)
  {
    var length :=
      if !Has(respType, MMC_RSP_PRESENT) then 0
      else if Has(respType, MMC_RSP_136) then RSP_TYPE_LGHT136
      else if Has(respType, MMC_RSP_BUSY) then RSP_TYPE_LGHT48B
      else RSP_TYPE_LGHT48;
    var crc := if Has(respType, MMC_RSP_CRC) then CCCE_CHECK else 0;
    var opcode := if Has(respType, MMC_RSP_OPCODE) then CICE_CHECK else 0;
    length | crc | opcode
  }

  // The response types of the SD Physical Layer Simplified Specification (section 4.9)
  // as the core encodes them.
  const RESP_R1: Word := 0x15
  const RESP_R1B: Word := 0x1d
  const RESP_R2: Word := 0x7
  const RESP_R3: Word := 0x1

  /** R1 and R6/R7 are 48-bit with CRC and index checks, R1b adds busy, R2 is 136-bit with a
      CRC check only, and R3 (OCR) is 48-bit without checks. */
  lemma ResponseTypes()
    ensures ResponseFlags(RESP_R1) == RSP_TYPE_LGHT48 | CCCE_CHECK | CICE_CHECK
    ensures ResponseFlags(RESP_R1B) == RSP_TYPE_LGHT48B | CCCE_CHECK | CICE_CHECK
    ensures ResponseFlags(RESP_R2) == RSP_TYPE_LGHT136 | CCCE_CHECK
    ensures ResponseFlags(RESP_R3) == RSP_TYPE_LGHT48
    ensures ResponseFlags(0) == RSP_TYPE_NORSP
  {
  }

  /** The data phase of a command (`struct mci_data`), or none. */
  datatype Transfer =
    | NoData
    | Blocks(blocksize: Word, blocks: Word, read: bool, src: seq<Word>)

  predicate IsMultiBlock(cmdidx: Word) {
    cmdidx == MMC_CMD_READ_MULTIPLE_BLOCK || cmdidx == MMC_CMD_WRITE_MULTIPLE_BLOCK
  }

  /** The flags a data phase adds: multi-block with block count for CMD18/CMD25, data
      present, and the direction. */
  function DataFlags(cmdidx: Word, read: bool): (flags: Word)
    ensures Has(flags, MSBS_MULTIBLK) <==> IsMultiBlock(cmdidx)
    ensures Has(flags, BCE_ENABLE) <==> IsMultiBlock(cmdidx)
    ensures Has(flags, DDIR_READ) <==> read
    ensures Has(flags, DP_DATA)
    ensures flags & !(MSBS_MULTIBLK | BCE_ENABLE | DP_DATA | DDIR_READ) == 0
  {
    (if IsMultiBlock(cmdidx) then MSBS_MULTIBLK | BCE_ENABLE else 0)
    | (if read then DP_DATA | DDIR_READ else DP_DATA | DDIR_WRITE)
  }

  /** All flags of the command register. */
  function CommandFlags(cmdidx: Word, respType: Word, data: Transfer): (flags: Word)
    ensures flags & !FLAG_BITS == 0
  {
    ResponseFlags(respType) | (if data.Blocks? then DataFlags(cmdidx, data.read) else 0)
  }

  /** The command register: the index in bits 24 and up, the flags below. */
  function CommandWord(cmdidx: Word, flags: Word): Word {
    (cmdidx << 24) | flags
  }

  /** For an index below 64 and flags below bit 24, the command word holds both apart. */
  lemma CommandWordFields(cmdidx: Word, flags: Word)
    requires cmdidx < 64 && flags & !FLAG_BITS == 0
    ensures CommandWord(cmdidx, flags) >> 24 == cmdidx
    ensures CommandWord(cmdidx, flags) & 0xff_ffff == flags
  {
  }

  /** The block size the transfer uses: CMD18/CMD25 force 512. */
  function BlockSize(cmdidx: Word, data: Transfer): Word
    requires data.Blocks?
  {
    if IsMultiBlock(cmdidx) then 512 else data.blocksize
  }

  /** The BLK register: for CMD18/CMD25 the block size 512 and the block count, otherwise
      the block size alone. */
  function BlkWord(cmdidx: Word, data: Transfer): Word
    requires data.Blocks?
  {
    if IsMultiBlock(cmdidx) then BlockSize(cmdidx, data) | (data.blocks << 16)
    else data.blocksize | NBLK_STPCNT
  }

  /** For a block count below 2^16 the multi-block BLK word holds 512 in its lower and
      the count in its upper half. */
  lemma BlkFields(cmdidx: Word, data: Transfer)
    requires data.Blocks? && IsMultiBlock(cmdidx) && data.blocks < 0x1_0000
    ensures BlkWord(cmdidx, data) & 0xffff == 512
    ensures BlkWord(cmdidx, data) >> 16 == data.blocks
  {
  }

  /** The byte count handed to the data loops: `blocksize * blocks` in 32 bits. */
  function TransferSize(cmdidx: Word, data: Transfer): (size: nat)
    requires data.Blocks?
    ensures size < 0x1_0000_0000
  {
    (BlockSize(cmdidx, data) as nat * data.blocks as nat) % 0x1_0000_0000
  }

  // ---------------------------------------------------------------------------
  // mmc_send_cmd: response capture
  // ---------------------------------------------------------------------------

  /** `cmd->response` after a completed command, from `rsp` = [RSP10, RSP32, RSP54,
      RSP76]: a 136-bit response is stored most significant word first, any other
      response puts RSP10 in word 0, and without a response nothing is stored. */
  function StoreResponse(prior: seq<Word>, respType: Word, rsp: seq<Word>): (r: seq<Word>)
    requires |prior| == 4 && |rsp| == 4
    ensures |r| == 4
  {
    if !Has(respType, MMC_RSP_PRESENT) then prior
    else if Has(respType, MMC_RSP_136) then [rsp[3], rsp[2], rsp[1], rsp[0]]
    else [rsp[0]] + prior[1..]
  }

  /** The 128-bit value of four words, the first the most significant. */
  function BigEndian(ws: seq<Word>): nat
    requires |ws| == 4
  {
    ((ws[0] as nat * 0x1_0000_0000 + ws[1] as nat) * 0x1_0000_0000 + ws[2] as nat) * 0x1_0000_0000
      + ws[3] as nat
  }

  /** The 128-bit value of the response registers, RSP10 the least significant. */
  function LittleEndian(ws: seq<Word>): nat
    requires |ws| == 4
  {
    ws[0] as nat + 0x1_0000_0000 * (ws[1] as nat + 0x1_0000_0000 * (ws[2] as nat + 0x1_0000_0000 * ws[3] as nat))
  }

  /** A 136-bit response (CID, CSD) keeps its 128-bit value: `response[0]` holds the most
      significant word, as the core reads it. A shorter response keeps words 1 to 3. */
  lemma ResponseOrder(prior: seq<Word>, respType: Word, rsp: seq<Word>)
    requires |prior| == 4 && |rsp| == 4
    ensures Has(respType, MMC_RSP_PRESENT) && Has(respType, MMC_RSP_136) ==>
      BigEndian(StoreResponse(prior, respType, rsp)) == LittleEndian(rsp)
    ensures Has(respType, MMC_RSP_PRESENT) && !Has(respType, MMC_RSP_136) ==>
      StoreResponse(prior, respType, rsp)[0] == rsp[0] && StoreResponse(prior, respType, rsp)[1..] == prior[1..]
    ensures !Has(respType, MMC_RSP_PRESENT) ==> StoreResponse(prior, respType, rsp) == prior
  {
  }

  // ---------------------------------------------------------------------------
  // mmc_set_ios: clock divisor
  // ---------------------------------------------------------------------------

  /** The divisor of the 96 MHz reference for a card clock of `clock` Hz (0 stops the
      clock), corrected to the smallest divisor whose output does not exceed `clock`:
      mmc_set_ios computes DsorAsWritten, which can be one below it. */
  function Dsor(clock: nat): (d: nat)
    requires clock <= CLOCK_REFERENCE
    ensures clock == 0 ==> d == 0
    ensures d <= CLOCK_REFERENCE
    ensures clock > 0 ==> 1 <= d && CLOCK_REFERENCE <= d * clock && (d - 1) * clock < CLOCK_REFERENCE
  {
    if clock == 0 then 0 else (CLOCK_REFERENCE + clock - 1) / clock
  }

  /** The divisor also passes the source's own test: the truncated quotient does not
      exceed `clock`. */
  lemma DsorPassesCheck(clock: nat)
    requires 0 < clock <= CLOCK_REFERENCE
    ensures CLOCK_REFERENCE / Dsor(clock) <= clock
  {
    var d := Dsor(clock);
    var q := CLOCK_REFERENCE / d;
    assert q * d <= CLOCK_REFERENCE;
    if q > clock {
      MulMono(clock + 1, q, d);
    }
  }

  lemma MulMono(a: nat, b: nat, c: nat)
    requires a <= b
    ensures a * c <= b * c
  {
  }

  /** The divisor as the source computes it: the truncated quotient, one more when the
      truncated output still exceeds `clock`. It passes that truncated test and is the
      least correct divisor or one below it. */
  function DsorAsWritten(clock: nat): (d: nat)
    requires clock <= CLOCK_REFERENCE
    ensures clock > 0 ==> 1 <= d && CLOCK_REFERENCE / d <= clock
    ensures clock > 0 ==> d == Dsor(clock) || d + 1 == Dsor(clock)
  {
    if clock == 0 then 0
    else
      var q := CLOCK_REFERENCE / clock;
      QuotientBounds(clock);
      if CLOCK_REFERENCE / q > clock then q + 1 else q
  }

  /** The truncated quotient q is the least correct divisor when it divides exactly, else
      one below it; q + 1 always passes the truncated test. */
  lemma QuotientBounds(clock: nat)
    requires 0 < clock <= CLOCK_REFERENCE
    ensures var q := CLOCK_REFERENCE / clock;
      && q >= 1
      && (Dsor(clock) == q || Dsor(clock) == q + 1)
      && CLOCK_REFERENCE / (q + 1) <= clock
      && (Dsor(clock) == q ==> CLOCK_REFERENCE / q <= clock)
  {
    var q := CLOCK_REFERENCE / clock;
    Quotient(CLOCK_REFERENCE, clock);
    DsorNearQuotient(clock);
    var d := Dsor(clock);
    MulMono(clock, clock + 1, q + 1);
    FloorBelow(CLOCK_REFERENCE, q + 1, clock);
    if d == q {
      MulMono(clock, clock + 1, q);
      FloorBelow(CLOCK_REFERENCE, q, clock);
    }
  }

  /** The least correct divisor is the truncated quotient or one more. */
  lemma DsorNearQuotient(clock: nat)
    requires 0 < clock <= CLOCK_REFERENCE
    ensures Dsor(clock) == CLOCK_REFERENCE / clock || Dsor(clock) == CLOCK_REFERENCE / clock + 1
  {
    var q := CLOCK_REFERENCE / clock;
    Quotient(CLOCK_REFERENCE, clock);
    var d := Dsor(clock);
    if d < q {
      MulMono(d, q - 1, clock);
    }
    if d > q + 1 {
      MulMono(q + 1, d - 1, clock);
    }
  }

  /** The truncated quotient of `n` by `d` and the remainder it leaves. */
  lemma Quotient(n: nat, d: nat)
    requires 0 < d <= n
    ensures n / d >= 1 && (n / d) * d <= n < (n / d + 1) * d
  {
  }

  /** A truncated quotient is at most `c` when `c + 1` times the divisor exceeds `n`. */
  lemma FloorBelow(n: nat, d: nat, c: nat)
    requires d > 0 && (c + 1) * d > n
    ensures n / d <= c
  {
    var s := n / d;
    assert s * d <= n;
    if s > c {
      MulMono(c + 1, s, d);
    }
  }

  /** The truncated test does not make the divisor the least that passes it: at 1000 Hz
      the source keeps 96000, yet 95999 passes the same test. */
  lemma DsorAsWrittenNotLeast()
    ensures DsorAsWritten(1000) == 96000 && CLOCK_REFERENCE / 95999 <= 1000
  {
  }

  /** The source's test is on the truncated quotient: for 401673 Hz it keeps 239, whose
      output 96 MHz / 239 is about 401673.6 Hz, above the request. */
  lemma DsorAsWrittenOvershoots()
    ensures DsorAsWritten(401673) == 239 && 239 * 401673 < CLOCK_REFERENCE
    ensures Dsor(401673) == 240
  {
  }

  /** Down to the core's minimum of 400 kHz the divisor fits the 10-bit CLKD field. */
  lemma DsorFits(clock: nat)
    requires 400_000 <= clock <= CLOCK_REFERENCE
    ensures Dsor(clock) <= 240
  {
    var d := Dsor(clock);
    if d > 240 {
      MulMono(241, d - 1, clock);
    }
  }

  /** SYSCTL after set_ios: the internal clock stopped, data timeout 15, card clock off,
      then the divisor written with the internal clock oscillating, and the card clock
      enabled once the internal clock is stable (`ready`). */
  function ClockSetting(v: Word, dsor: Word, ready: bool): Word {
    var stopped := RegOut(v, ICE_MASK | DTO_MASK | CEN_MASK, ICE_STOP | DTO_15THDTO | CEN_DISABLE);
    var divided := RegOut(stopped, ICE_MASK | CLKD_MASK, (dsor << 6) | ICE_OSCILLATE);
    if ready then divided | CEN_ENABLE else divided
  }

  /** The fields set_ios leaves in SYSCTL: CLKD holds the low ten bits of the divisor, the
      internal clock oscillates, the data timeout is 15, the card clock is on exactly
      when the internal clock became stable, and every other bit is kept. */
  lemma ClockSettingFields(v: Word, dsor: Word, ready: bool)
    ensures (ClockSetting(v, dsor, ready) & CLKD_MASK) >> 6 == dsor & 0x3ff
    ensures ClockSetting(v, dsor, ready) & ICE_MASK == ICE_OSCILLATE
    ensures ClockSetting(v, dsor, ready) & DTO_MASK == DTO_15THDTO
    ensures Has(ClockSetting(v, dsor, ready), CEN_ENABLE) <==> ready
    ensures ClockSetting(v, dsor, ready) & !(ICE_MASK | CLKD_MASK | DTO_MASK | CEN_MASK)
      == v & !(ICE_MASK | CLKD_MASK | DTO_MASK | CEN_MASK)
  {
  }

  /** The bus widths set_ios distinguishes; any other value is `Unsupported`. */
  datatype BusWidth = Width1 | Width4 | Width8 | Unsupported

  /** CON after set_ios: DW8 set for 8 bits, cleared for 4 and 1 bit. */
  function WidthCon(con: Word, width: BusWidth): Word {
    match width
    case Width8 => con | DTW_8_BITMODE
    case Width4 => con & !DTW_8_BITMODE
    case Width1 => con & !DTW_8_BITMODE
    case Unsupported => con
  }

  /** HCTL after set_ios: DTW set for 4 bits, cleared for 1 bit, kept for 8 bits. */
  function WidthHctl(hctl: Word, width: BusWidth): Word {
    match width
    case Width8 => hctl
    case Width4 => hctl | DTW_4_BITMODE
    case Width1 => hctl & !DTW_4_BITMODE
    case Unsupported => hctl
  }

  /** The width the controller drives: CON.DW8 selects 8 bits whatever HCTL.DTW says;
      otherwise HCTL.DTW selects 4 bits or 1 bit. */
  function BusWidthOf(con: Word, hctl: Word): BusWidth {
    if Has(con, DTW_8_BITMODE) then Width8
    else if Has(hctl, DTW_4_BITMODE) then Width4
    else Width1
  }

  /** Whatever the registers held before, a supported width takes effect. */
  lemma WidthSelected(con: Word, hctl: Word, width: BusWidth)
    requires width != Unsupported
    ensures BusWidthOf(WidthCon(con, width), WidthHctl(hctl, width)) == width
  {
  }

  lemma SmallWord(x: nat)
    requires x <= 240
    ensures (x as Word) & 0x3ff == x as Word
  {
  }

  /** From the core's 400 kHz minimum up, SYSCTL.CLKD holds the whole corrected divisor
      Dsor, and the card clock it yields does not exceed the request (with DsorAsWritten
      it can, see DsorAsWrittenOvershoots). */
  lemma ClockDivisorStored(v: Word, clock: nat, ready: bool)
    requires 400_000 <= clock <= CLOCK_REFERENCE
    ensures (ClockSetting(v, Dsor(clock) as Word, ready) & CLKD_MASK) >> 6 == Dsor(clock) as Word
    ensures 1 <= Dsor(clock) <= 240 && CLOCK_REFERENCE / Dsor(clock) <= clock
  {
    DsorFits(clock);
    SmallWord(Dsor(clock));
    ClockSettingFields(v, Dsor(clock) as Word, ready);
    DsorPassesCheck(clock);
  }

  // ---------------------------------------------------------------------------
  // mmc_read_data / mmc_write_data
  // ---------------------------------------------------------------------------

  /** Words moved per buffer-ready event: min(size, 512) / 4, fixed at the start. */
  function Count(size: nat): (count: nat)
    ensures count * 4 <= size && count <= 128
  {
    (if size > MMCSD_SECTOR_SIZE then MMCSD_SECTOR_SIZE else size) / 4
  }

  /** `x` reduced to 32 bits (C unsigned arithmetic). */
  function Wrap(x: int): (r: nat)
    ensures r < 0x1_0000_0000
    ensures 0 <= x < 0x1_0000_0000 ==> r == x
  {
    x % 0x1_0000_0000
  }

  /** Word `k` of a buffer or of the successive DATA reads; past the end it is 0. */
  function Source(ws: seq<Word>, k: nat): Word {
    if k < |ws| then ws[k] else 0
  }

  /** The `n` words of `ws` from word `k` on. */
  function Words(ws: seq<Word>, k: nat, n: nat): (r: seq<Word>)
    ensures |r| == n
  {
    if n == 0 then [] else Words(ws, k, n - 1) + [Source(ws, k + n - 1)]
  }

  lemma {:induction false} WordsSplit(ws: seq<Word>, k: nat, a: nat, b: nat)
    ensures Words(ws, k, a) + Words(ws, k + a, b) == Words(ws, k, a + b)
    decreases b
  {
    if b > 0 {
      WordsSplit(ws, k, a, b - 1);
      AppendAssoc(Words(ws, k, a), Words(ws, k + a, b - 1), [Source(ws, k + a + b - 1)]);
    }
  }

  /** The result of a data loop: its return code and the words it moved. */
  datatype Run = Run(rc: int, words: seq<Word>)

  function Then(prefix: seq<Word>, r: Run): Run {
    Run(r.rc, prefix + r.words)
  }

  lemma ThenThen(a: seq<Word>, b: seq<Word>, r: Run)
    ensures Then(a, Then(b, r)) == Then(a + b, r)
  {
    AppendAssoc(a, b, r.words);
  }

  /** Whether the wait for status event `i` timed out (STAT stayed 0). */
  predicate TimedOut(status: seq<Word>, i: nat) {
    i >= |status| || status[i] == 0
  }

  /** Words moved on status `s`: a chunk when it reports the buffer ready. */
  function Moved(s: Word, ready: Word, count: nat): nat {
    if Has(s, ready) then count else 0
  }

  /** Bytes left after status `s`, in 32-bit unsigned arithmetic. */
  function Left(s: Word, ready: Word, size: nat, count: nat): nat {
    if Has(s, ready) then Wrap(size - count * 4) else size
  }

  /** The polled data loop from status event `i` on, with `size` bytes left and `k` words
      moved so far. `status[i]` is what the i-th wait for a non-zero STAT returned (0 or
      missing: it timed out); `ready` is BRR for a read, BWR for a write. */
  function Drain(ready: Word, size: nat, count: nat, status: seq<Word>, i: nat, ws: seq<Word>, k: nat): Run
    decreases |status| - i
  {
    if size == 0 then Run(0, [])
    else if TimedOut(status, i) then Run(-ETIMEDOUT, [])
    else if Has(status[i], ERRI_MASK) then Run(-EIO, [])
    else if Has(status[i], TC_MASK) then Run(0, Words(ws, k, Moved(status[i], ready, count)))
    else
      Then(Words(ws, k, Moved(status[i], ready, count)),
           Drain(ready, Left(status[i], ready, size, count), count, status, i + 1, ws, k + Moved(status[i], ready, count)))
  }

  /** One round of the loop: without timeout, error or transfer-complete it moves its
      chunk and goes on with the next event. */
  lemma DrainStep(ready: Word, size: nat, count: nat, status: seq<Word>, i: nat, ws: seq<Word>, k: nat)
    requires size != 0 && !TimedOut(status, i) && !Has(status[i], ERRI_MASK) && !Has(status[i], TC_MASK)
    ensures Drain(ready, size, count, status, i, ws, k)
      == Then(Words(ws, k, Moved(status[i], ready, count)),
              Drain(ready, Left(status[i], ready, size, count), count, status, i + 1, ws, k + Moved(status[i], ready, count)))
  {
  }

  /** Words following on from the `m` words at `k` extend them. */
  lemma ThenWords(ws: seq<Word>, k: nat, m: nat, r: Run)
    requires r.words == Words(ws, k + m, |r.words|)
    ensures Then(Words(ws, k, m), r).words == Words(ws, k, |Then(Words(ws, k, m), r).words|)
  {
    WordsSplit(ws, k, m, |r.words|);
  }

  /** The loop invariant of DataLoop carried over one round. */
  lemma Advance(ready: Word, size: nat, count: nat, status: seq<Word>, i: nat, ws: seq<Word>,
                before: seq<Word>, chunk: seq<Word>, left: nat, total: Run)
    requires size != 0 && !TimedOut(status, i) && !Has(status[i], ERRI_MASK) && !Has(status[i], TC_MASK)
    requires chunk == Words(ws, |before|, Moved(status[i], ready, count))
    requires left == Left(status[i], ready, size, count)
    requires total == Then(before, Drain(ready, size, count, status, i, ws, |before|))
    ensures total == Then(before + chunk, Drain(ready, left, count, status, i + 1, ws, |before + chunk|))
  {
    DrainStep(ready, size, count, status, i, ws, |before|);
    ThenThen(before, chunk, Drain(ready, left, count, status, i + 1, ws, |before + chunk|));
  }

  /** The words a data loop moves are the next ones of its source, in order, and it ends
      with 0, -ETIMEDOUT or -EIO. */
  lemma {:induction false} DrainInOrder(ready: Word, size: nat, count: nat, status: seq<Word>, i: nat, ws: seq<Word>, k: nat)
    ensures Drain(ready, size, count, status, i, ws, k).rc in {0, -ETIMEDOUT, -EIO}
    ensures Drain(ready, size, count, status, i, ws, k).words
      == Words(ws, k, |Drain(ready, size, count, status, i, ws, k).words|)
    decreases |status| - i
  {
    if size != 0 && !TimedOut(status, i) && !Has(status[i], ERRI_MASK) && !Has(status[i], TC_MASK) {
      var m := Moved(status[i], ready, count);
      var rest := Drain(ready, Left(status[i], ready, size, count), count, status, i + 1, ws, k + m);
      DrainStep(ready, size, count, status, i, ws, k);
      DrainInOrder(ready, Left(status[i], ready, size, count), count, status, i + 1, ws, k + m);
      ThenWords(ws, k, m, rest);
    }
  }

  /** A status event that reports the buffer ready and no error. */
  predicate Clean(s: Word, ready: Word) {
    s != 0 && Has(s, ready) && !Has(s, ERRI_MASK)
  }

  /** `n` clean events from event `i` on, transfer-complete at most on the last. */
  predicate CleanEvents(status: seq<Word>, i: nat, n: nat, ready: Word)
    decreases n
  {
    n == 0
    || (i < |status| && Clean(status[i], ready) && (n > 1 ==> !Has(status[i], TC_MASK))
        && CleanEvents(status, i + 1, n - 1, ready))
  }

  /** The same condition stated over indices. */
  lemma {:induction false} CleanEventsAt(status: seq<Word>, i: nat, n: nat, ready: Word)
    requires i + n <= |status|
    requires forall j :: i <= j < i + n ==> Clean(status[j], ready)
    requires forall j :: i <= j < i + n - 1 ==> !Has(status[j], TC_MASK)
    ensures CleanEvents(status, i, n, ready)
    decreases n
  {
    if n > 0 {
      CleanEventsAt(status, i + 1, n - 1, ready);
    }
  }

  /** A clean event without transfer-complete moves one chunk and goes on: if the rest
      of the loop moves `b` words and returns 0, the loop moves count + b words. */
  lemma ChunkRound(ready: Word, size: nat, count: nat, status: seq<Word>, i: nat, ws: seq<Word>, k: nat, b: nat)
    requires 4 * count <= size < 0x1_0000_0000 && 0 < size
    requires i < |status| && Clean(status[i], ready) && !Has(status[i], TC_MASK)
    requires Drain(ready, size - 4 * count, count, status, i + 1, ws, k + count) == Run(0, Words(ws, k + count, b))
    ensures Drain(ready, size, count, status, i, ws, k) == Run(0, Words(ws, k, count + b))
  {
    DrainStep(ready, size, count, status, i, ws, k);
    WordsSplit(ws, k, count, b);
  }

  /** A clean event with transfer-complete moves its chunk and ends the loop with 0. */
  lemma ChunkLast(ready: Word, size: nat, count: nat, status: seq<Word>, i: nat, ws: seq<Word>, k: nat)
    requires 0 < size && i < |status| && Clean(status[i], ready) && Has(status[i], TC_MASK)
    ensures Drain(ready, size, count, status, i, ws, k) == Run(0, Words(ws, k, count))
  {
  }

  /** `n` chunks of `count` words that see only clean events, with transfer-complete at
      most on the last one, move exactly the transfer's size / 4 words of the source and
      return 0. */
  lemma {:induction false} DrainChunks(ready: Word, n: nat, count: nat, size: nat, status: seq<Word>, i: nat, ws: seq<Word>, k: nat)
    requires 0 < count && size == n * (4 * count) && size < 0x1_0000_0000
    requires CleanEvents(status, i, n, ready)
    ensures Drain(ready, size, count, status, i, ws, k) == Run(0, Words(ws, k, size / 4))
    decreases n
  {
    if n > 0 {
      ChunkArith(n, count, size);
      if !Has(status[i], TC_MASK) {
        DrainChunks(ready, n - 1, count, size - 4 * count, status, i + 1, ws, k + count);
        ChunkRound(ready, size, count, status, i, ws, k, (size - 4 * count) / 4);
      } else {
        ChunkLast(ready, size, count, status, i, ws, k);
        assert Drain(ready, size, count, status, i, ws, k) == Run(0, Words(ws, k, size / 4));
      }
    } else {
      assert size == 0;
      assert Drain(ready, size, count, status, i, ws, k) == Run(0, Words(ws, k, size / 4));
    }
  }

  lemma ChunkArith(n: nat, count: nat, size: nat)
    requires 0 < n && size == n * (4 * count)
    ensures 4 * count <= size && size - 4 * count == (n - 1) * (4 * count)
    ensures count + (size - 4 * count) / 4 == size / 4
    ensures n == 1 ==> size / 4 == count
  {
  }

  /** The number of buffer-ready events a sector-sized or whole-sector transfer takes. */
  function Chunks(size: nat): nat {
    if size <= MMCSD_SECTOR_SIZE then (if size == 0 then 0 else 1) else size / MMCSD_SECTOR_SIZE
  }

  /** A transfer of a multiple of 4 bytes, at most one sector or a whole number of
      sectors, that sees Chunks(size) clean events (transfer-complete at most on the
      last) moves exactly size / 4 words of its source and returns 0. */
  lemma DrainExact(ready: Word, size: nat, status: seq<Word>, ws: seq<Word>)
    requires size < 0x1_0000_0000 && size % 4 == 0
    requires size <= MMCSD_SECTOR_SIZE || size % MMCSD_SECTOR_SIZE == 0
    requires Chunks(size) <= |status|
    requires forall j :: 0 <= j < Chunks(size) ==> Clean(status[j], ready)
    requires forall j :: 0 <= j < Chunks(size) - 1 ==> !Has(status[j], TC_MASK)
    ensures Drain(ready, size, Count(size), status, 0, ws, 0) == Run(0, Words(ws, 0, size / 4))
  {
    if size != 0 {
      var count := Count(size);
      if size <= MMCSD_SECTOR_SIZE {
        assert count == size / 4 && size == 1 * (4 * count) && size / 4 == 1 * count;
      } else {
        assert count == 128 && size == Chunks(size) * (4 * count) && size / 4 == Chunks(size) * count;
      }
      CleanEventsAt(status, 0, Chunks(size), ready);
      DrainChunks(ready, Chunks(size), count, size, status, 0, ws, 0);
    }
  }

  /** Copies `count` successive words of `ws` from word `k` on (the inner `for` loops of
      the data routines). */
  method CopyChunk(ws: seq<Word>, k: nat, count: nat) returns (chunk: seq<Word>)
    ensures chunk == Words(ws, k, count)
  {
    chunk := [];
    var j := 0;
    while j < count
      invariant j <= count && chunk == Words(ws, k, j)
    {
      chunk := chunk + [Source(ws, k + j)];
      j := j + 1;
    }
  }

  /** The loop of mmc_read_data (ready = BRR, `ws` the successive DATA reads) and of
      mmc_write_data (ready = BWR, `ws` the source buffer): it returns the words moved. */
  method DataLoop(ready: Word, size: nat, status: seq<Word>, ws: seq<Word>) returns (rc: int, moved: seq<Word>)
    requires size < 0x1_0000_0000
    ensures Run(rc, moved) == Drain(ready, size, Count(size), status, 0, ws, 0)
  {
    var count := if size > MMCSD_SECTOR_SIZE then MMCSD_SECTOR_SIZE else size;
    count := count / 4;
    var left := size;
    var i := 0;
    moved := [];
    while left != 0
      invariant Drain(ready, size, count, status, 0, ws, 0)
        == Then(moved, Drain(ready, left, count, status, i, ws, |moved|))
      decreases |status| - i
    {
      if i >= |status| || status[i] == 0 {
        return -ETIMEDOUT, moved;
      }
      var stat := status[i];
      if Has(stat, ERRI_MASK) {
        return -EIO, moved;
      }
      ghost var before, was := moved, left;
      var chunk := [];
      if Has(stat, ready) {
        chunk := CopyChunk(ws, |moved|, count);
        moved := moved + chunk;
        left := Wrap(left - count * 4);
      }
      if Has(stat, TC_MASK) {
        return 0, moved;
      }
      assert moved == before + chunk;
      Advance(ready, was, count, status, i, ws, before, chunk, left, Drain(ready, size, count, status, 0, ws, 0));
      i := i + 1;
    }
    return 0, moved;
  }

  // ---------------------------------------------------------------------------
  // The controller
  // ---------------------------------------------------------------------------

  /** What the hardware does during one mmc_send_cmd, as the driver observes it. */
  datatype Bus = Bus(
    cmdInhibit: bool,     // PSTATE.DATI stays "command disabled" past the timeout
    statStuck: bool,      // STAT does not clear past the timeout
    stat: Word,           // STAT after the command is issued; 0 if it never changed
    rsp: seq<Word>,       // RSP10, RSP32, RSP54, RSP76
    events: seq<Word>,    // STAT at each wait of the data loop
    fifo: seq<Word>)      // the successive DATA reads

  /** The registers of one controller instance that set_ios and send_cmd write. */
  class Host {
    /** IS_ENABLED(CONFIG_MCI_WRITE). */
    const writeSupport: bool
    var con: Word
    var hctl: Word
    var sysctl: Word
    var blk: Word
    var arg: Word
    var cmd: Word

    constructor (writeSupport: bool, con: Word, hctl: Word, sysctl: Word)
      ensures this.writeSupport == writeSupport
      ensures this.con == con && this.hctl == hctl && this.sysctl == sysctl
      ensures blk == 0 && arg == 0 && cmd == 0
    {
      this.writeSupport := writeSupport;
      this.con := con;
      this.hctl := hctl;
      this.sysctl := sysctl;
      blk := 0;
      arg := 0;
      cmd := 0;
    }

    /** mmc_set_ios, with the divisor corrected to Dsor: an unsupported width changes
        nothing; otherwise the width bits, then the clock divisor, with the card clock
        enabled once the internal clock is stable (`icsReady`; false when that wait timed
        out). */
    method SetIos(width: BusWidth, clock: nat, icsReady: bool)
      requires clock <= CLOCK_REFERENCE
      modifies this
      ensures con == WidthCon(old(con), width) && hctl == WidthHctl(old(hctl), width)
      ensures sysctl == if width == Unsupported then old(sysctl)
                        else ClockSetting(old(sysctl), Dsor(clock) as Word, icsReady)
      ensures blk == old(blk) && arg == old(arg) && cmd == old(cmd)
    {
      if width == Unsupported {
        return;
      }
      con := WidthCon(con, width);
      hctl := WidthHctl(hctl, width);
      var dsor: Word := 0;
      if clock != 0 {
        dsor := Dsor(clock) as Word;
      }
      sysctl := ClockSetting(sysctl, dsor, icsReady);
    }

    /** mmc_send_cmd: returns the status, `cmd->response` afterwards and the words of the
        data phase (read into the destination buffer, or written to DATA). */
    method SendCmd(cmdidx: Word, respType: Word, cmdarg: Word, response: seq<Word>, data: Transfer, bus: Bus)
      returns (rc: int, resp: seq<Word>, moved: seq<Word>)
      requires |response| == 4 && |bus.rsp| == 4
      modifies this
      ensures con == old(con) && hctl == old(hctl) && sysctl == old(sysctl)
      ensures bus.cmdInhibit || bus.statStuck ==>
        rc == -ETIMEDOUT && resp == response && moved == [] && blk == old(blk) && arg == old(arg) && cmd == old(cmd)
      ensures !bus.cmdInhibit && !bus.statStuck ==>
        && blk == (if data.Blocks? then BlkWord(cmdidx, data) else old(blk))
        && arg == cmdarg
        && cmd == CommandWord(cmdidx, CommandFlags(cmdidx, respType, data))
        && Issued(cmdidx, respType, response, data, bus, writeSupport) == Reply(rc, resp, moved)
    {
      if bus.cmdInhibit || bus.statStuck {
        return -ETIMEDOUT, response, [];
      }
      var flags := CommandFlags(cmdidx, respType, data);
      if data.Blocks? {
        blk := BlkWord(cmdidx, data);
      }
      arg := cmdarg;
      cmd := CommandWord(cmdidx, flags);
      rc, resp, moved := Complete(cmdidx, respType, response, data, bus, writeSupport);
    }
  }

  /** The part of mmc_send_cmd after the command is issued: the status wait, the response
      and the data phase (`writeSupport` is IS_ENABLED(CONFIG_MCI_WRITE)). */
  method Complete(cmdidx: Word, respType: Word, response: seq<Word>, data: Transfer, bus: Bus, writeSupport: bool)
    returns (rc: int, resp: seq<Word>, moved: seq<Word>)
    requires |response| == 4 && |bus.rsp| == 4
    ensures Issued(cmdidx, respType, response, data, bus, writeSupport) == Reply(rc, resp, moved)
  {
    resp := response;
    moved := [];
    var stat := bus.stat;
    if stat == 0 || Has(stat, IE_CTO) {
      return -ETIMEDOUT, resp, moved;
    } else if Has(stat, ERRI_MASK) {
      return -1, resp, moved;
    }
    if Has(stat, CC_MASK) {
      resp := StoreResponse(response, respType, bus.rsp);
    }
    if data.NoData? {
      return 0, resp, moved;
    }
    var size := TransferSize(cmdidx, data);
    if data.read {
      rc, moved := DataLoop(BRR_MASK, size, bus.events, bus.fifo);
    } else if writeSupport {
      rc, moved := DataLoop(BWR_MASK, size, bus.events, data.src);
    } else {
      rc := -ENOSYS;
    }
  }

  /** The outcome of mmc_send_cmd. */
  datatype Reply = Reply(rc: int, response: seq<Word>, moved: seq<Word>)

  /** What mmc_send_cmd returns once the command is issued: a status timeout or command
      timeout is -ETIMEDOUT and any other error -1, both without touching the response; a
      completed command stores its response; then the data phase runs. */
  function Issued(cmdidx: Word, respType: Word, response: seq<Word>, data: Transfer, bus: Bus, writeSupport: bool): Reply
    requires |response| == 4 && |bus.rsp| == 4
  {
    if bus.stat == 0 || Has(bus.stat, IE_CTO) then Reply(-ETIMEDOUT, response, [])
    else if Has(bus.stat, ERRI_MASK) then Reply(-1, response, [])
    else
      var resp := if Has(bus.stat, CC_MASK) then StoreResponse(response, respType, bus.rsp) else response;
      match data
      case NoData => Reply(0, resp, [])
      case Blocks(_, _, read, src) =>
        var size := TransferSize(cmdidx, data);
        if read then
          var r := Drain(BRR_MASK, size, Count(size), bus.events, 0, bus.fifo, 0);
          Reply(r.rc, resp, r.words)
        else if writeSupport then
          var r := Drain(BWR_MASK, size, Count(size), bus.events, 0, src, 0);
          Reply(r.rc, resp, r.words)
        else Reply(-ENOSYS, resp, [])
  }

  /** Where the data phase takes its words from: the DATA reads for a read, the caller's
      buffer for a write. */
  function DataSource(data: Transfer, bus: Bus): seq<Word>
    requires data.Blocks?
  {
    if data.read then bus.fifo else data.src
  }

  /** Whatever the hardware does, mmc_send_cmd returns 0, -ETIMEDOUT, -EIO, -1 or -ENOSYS,
      and the words it moves are the first ones of the data source, in order. */
  lemma IssuedInOrder(cmdidx: Word, respType: Word, response: seq<Word>, data: Transfer, bus: Bus, writeSupport: bool)
    requires |response| == 4 && |bus.rsp| == 4
    ensures Issued(cmdidx, respType, response, data, bus, writeSupport).rc in {0, -ETIMEDOUT, -EIO, -1, -ENOSYS}
    ensures data.NoData? ==> Issued(cmdidx, respType, response, data, bus, writeSupport).moved == []
    ensures data.Blocks? ==>
      var moved := Issued(cmdidx, respType, response, data, bus, writeSupport).moved;
      moved == Words(DataSource(data, bus), 0, |moved|)
  {
    if data.Blocks? {
      var size := TransferSize(cmdidx, data);
      DrainInOrder(BRR_MASK, size, Count(size), bus.events, 0, bus.fifo, 0);
      DrainInOrder(BWR_MASK, size, Count(size), bus.events, 0, data.src, 0);
    }
  }

  /** A CMD18/CMD25 transfer of n blocks whose command completes cleanly and whose data
      phase sees n clean buffer-ready events (transfer-complete at most on the last)
      returns 0 with the response stored and moves exactly the first 128 * n words of its
      source. */
  lemma MultiBlockMovesAll(cmdidx: Word, respType: Word, response: seq<Word>, data: Transfer, bus: Bus, writeSupport: bool, n: nat)
    requires |response| == 4 && |bus.rsp| == 4
    requires data.Blocks? && IsMultiBlock(cmdidx) && (data.read || writeSupport)
    requires data.blocks as nat == n && 0 < n < 0x80_0000
    requires bus.stat != 0 && !Has(bus.stat, IE_CTO) && !Has(bus.stat, ERRI_MASK) && Has(bus.stat, CC_MASK)
    requires n <= |bus.events|
    requires forall j :: 0 <= j < n ==> Clean(bus.events[j], if data.read then BRR_MASK else BWR_MASK)
    requires forall j :: 0 <= j < n - 1 ==> !Has(bus.events[j], TC_MASK)
    ensures Issued(cmdidx, respType, response, data, bus, writeSupport)
      == Reply(0, StoreResponse(response, respType, bus.rsp), Words(DataSource(data, bus), 0, 128 * n))
  {
    var size := TransferSize(cmdidx, data);
    SectorArith(n, size);
    var ready := if data.read then BRR_MASK else BWR_MASK;
    DrainExact(ready, size, bus.events, DataSource(data, bus));
  }

  lemma SectorArith(n: nat, size: nat)
    requires 0 < n < 0x80_0000 && size == (512 * n) % 0x1_0000_0000
    ensures size == 512 * n && size % 4 == 0 && size % MMCSD_SECTOR_SIZE == 0
    ensures Chunks(size) == n && size / 4 == 128 * n && size < 0x1_0000_0000
  {
    assert 512 * n < 0x1_0000_0000;
    assert size == 512 * n;
    assert size / 4 == 128 * n;
    assert size / 512 == n;
  }
}
