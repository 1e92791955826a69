/** The Marvell MVEBU SPI controller (Orion, Kirkwood, Dove, Armada 370/XP): chip select,
    transfer width, bit order and clock prescaler are fields of two 32-bit registers
    (IF_CTRL and IF_CONFIG); a transfer shifts one 8- or 16-bit word at a time through
    DATA_OUT and DATA_IN.

    `Controller` holds the last words written to IF_CTRL and IF_CONFIG, the `data16` flag
    and the log of words written to DATA_OUT. What the device answers is injected: for
    every word of a transfer either the word read from DATA_IN or `None` when the
    read-ready flag never came up within the timeout. */
module MvebuSpi {
  import opened Kernel

  datatype Option<T> = None | Some(value: T)

  // ---------------------------------------------------------------------------
  // Register fields (IF_CTRL and IF_CONFIG)

  const IF_CS_ENABLE: Word := 0x0001
  /** IF_CS_NUM(7): the 3-bit chip-select field, bits 2..4 of IF_CTRL. */
  const IF_CS_NUM_MASK: Word := 0x001c
  const IF_RXLSBF: Word := 0x4000
  const IF_TXLSBF: Word := 0x2000
  /** IF_CLK_DIV(7): Dove's extra sclk divider, bits 11..13. */
  const IF_CLK_DIV_MASK: Word := 0x3800
  const IF_CLK_PRESCALE_POW8: Word := 0x0080
  const IF_CLK_PRESCALE_POW4: Word := 0x0040
  const IF_TRANSFER_2BYTE: Word := 0x0020
  const IF_CLK_PRESCALE_POW2: Word := 0x0010

  /** Chip selects the controller has: 0..7. */
  const SPI_SPI_MAX_CS: nat := 8

  /** The SPI mode bits of a device, with their Linux values (spi/spi.h is not part of
      this model). */
  const SPI_CPHA: Byte := 0x01
  const SPI_CPOL: Byte := 0x02
  const SPI_CS_HIGH: Byte := 0x04
  const SPI_LSB_FIRST: Byte := 0x08

  /** Largest 4-bit prescaler, largest Orion/Dove prescaler, largest Armada divider
      exponent and largest Dove sclk divider exponent. */
  const MAX_SPR: nat := 15
  const MAX_EVEN_SPR: nat := 30
  const MAX_SPPR: nat := 7
  const MAX_SDIV: nat := 4

  // ---------------------------------------------------------------------------
  // Chip select (mvebu_spi_set_cs)

  /** The chip select is driven active when `en` asks for it, inverted for a device with
      an active-high chip select. */
  function Asserted(mode: Byte, en: bool): bool {
    if mode & SPI_CS_HIGH != 0 then !en else en
  }

  /** The IF_CTRL word selecting chip `cs`, enabled or not. It decodes back to `cs` and
      `en`, and sets no bit outside the two fields. */
  function CsWord(cs: nat, en: bool): (w: Word)
    requires cs < SPI_SPI_MAX_CS
    ensures (w & IF_CS_NUM_MASK) >> 2 == cs as Word
    ensures (w & IF_CS_ENABLE != 0) == en
    ensures w & !(IF_CS_NUM_MASK | IF_CS_ENABLE) == 0
  {
    var c := Field(cs);
    assert c < 8;
    (c << 2) | (if en then IF_CS_ENABLE else 0)
  }

  /** mvebu_spi_set_cs as written: the guard `cs > 8` lets chip 8 through, whose number
      does not fit the 3-bit field. */
  function CsWordAsWritten(cs: nat, mode: Byte, en: bool): (r: Option<Word>)
    requires cs < 256
    ensures r.None? <==> cs > SPI_SPI_MAX_CS
  {
    if cs > SPI_SPI_MAX_CS then None
    else Some((Field(cs) << 2) | (if Asserted(mode, en) then IF_CS_ENABLE else 0))
  }

  /** Chip 8 is accepted, sets bit 5 outside the field and selects chip 0 instead. */
  lemma CsEightSelectsChipZero()
    ensures CsWordAsWritten(8, 0, true) == Some(0x21)
    ensures (0x21 & IF_CS_NUM_MASK) >> 2 == 0
  {
  }

  // ---------------------------------------------------------------------------
  // Divisor arithmetic

  /** DIV_ROUND_UP(n, d). */
  function DivRoundUp(n: nat, d: nat): nat
    requires d > 0
  {
    (n + d - 1) / d
  }

  /** roundup(n, m): the least multiple of `m` that is at least `n`. */
  function RoundUp(n: nat, m: nat): nat
    requires m > 0
  {
    DivRoundUp(n, m) * m
  }

  function Pow2(k: nat): (p: nat)
    ensures p >= 1
  {
    if k == 0 then 1 else 2 * Pow2(k - 1)
  }

  /** `c` is n / d rounded up: `c` parts of `d` cover `n`, `c - 1` parts do not. */
  predicate Covers(c: nat, d: nat, n: nat) {
    c * d >= n && (c == 0 || (c - 1) * d < n)
  }

  /** DIV_ROUND_UP is the ceiling of the quotient. */
  lemma DivRoundUpCovers(n: nat, d: nat)
    requires d > 0
    ensures Covers(DivRoundUp(n, d), d, n)
  {
    var c := DivRoundUp(n, d);
    var r := (n + d - 1) % d;
    assert n + d - 1 == c * d + r;
    assert 0 <= r < d;
    if c > 0 {
      assert (c - 1) * d == c * d - d;
    }
  }

  lemma MulMono(x: nat, y: nat, p: nat)
    requires x <= y
    ensures x * p <= y * p
  {
    assert y * p == x * p + (y - x) * p;
  }

  /** Halving a ceiling quotient by `p`, rounding up, gives the ceiling quotient by `2p`. */
  lemma CoversHalved(c: nat, h: nat, p: nat, n: nat)
    requires p > 0 && Covers(c, p, n) && Covers(h, 2, c)
    ensures Covers(h, 2 * p, n)
  {
    MulMono(c, h * 2, p);
    assert h * (2 * p) == (h * 2) * p;
    if h > 0 {
      MulMono((h - 1) * 2, c - 1, p);
      assert (h - 1) * (2 * p) == ((h - 1) * 2) * p;
    }
  }

  // ---------------------------------------------------------------------------
  // Prescaler encoding in IF_CONFIG

  /** IF_CLK_PRESCALE(x): the low four bits of `x`. */
  function Prescale(x: Word): Word {
    x & 0xf
  }

  /** IF_CLK_PRE_PRESCALE(x) as it should read: bit 0 of the divider exponent to bit 4
      (POW2), bits 1 and 2 to bits 6 and 7 (POW4, POW8). */
  function PrePrescale(x: Word): Word {
    (((x & 0x6) << 1) | (x & 0x1)) << 4
  }

  /** IF_CLK_PRE_PRESCALE(x) as written: bits 1 and 2 of the exponent land on bits 11 and
      12, inside Dove's sclk divider field. */
  function PrePrescaleAsWritten(x: Word): Word {
    (((x & 0x6) << 6) | (x & 0x1)) << 4
  }

  /** IF_CLK_PRESCALE_MASK, built from the two macros. */
  const PRESCALE_MASK: Word := 0x00df
  const PRESCALE_MASK_AS_WRITTEN: Word := 0x181f

  lemma PrescaleMasks()
    ensures PRESCALE_MASK == Prescale(0xf) | PrePrescale(7)
    ensures PRESCALE_MASK_AS_WRITTEN == Prescale(0xf) | PrePrescaleAsWritten(7)
  {
  }

  /** The 4-bit prescaler the hardware reads from IF_CONFIG. */
  function Spr(v: Word): nat {
    (v & 0xf) as nat
  }

  /** The divider exponent the hardware reads from POW2, POW4 and POW8. */
  function Sppr(v: Word): nat {
    (((v >> 4) & 0x1) | ((v >> 5) & 0x6)) as nat
  }

  /** Dove's sclk divider exponent, bits 11..13. */
  function Sdiv(v: Word): nat {
    ((v >> 11) & 0x7) as nat
  }

  /** A small number as a register field value. */
  function Field(x: nat): (w: Word)
    requires x < 16
    ensures w as nat == x && w < 16 && (x < 8 ==> w < 8)
  {
    if x == 0 then 0 else Field(x - 1) + 1
  }

  /** The IF_CONFIG word with the prescaler fields replaced by (`spr`, `sppr`). */
  function WithPrescaler(v: Word, spr: nat, sppr: nat): (r: Word)
    requires spr <= MAX_SPR && sppr <= MAX_SPPR
    ensures Spr(r) == spr && Sppr(r) == sppr
    ensures r & !PRESCALE_MASK == v & !PRESCALE_MASK
  {
    var e := Field(sppr);
    var p := Field(spr);
    PrescalerFields(v, p, e);
    (v & !PRESCALE_MASK) | PrePrescale(e) | Prescale(p)
  }

  lemma PrescalerFields(v: Word, p: Word, e: Word)
    requires p < 16 && e < 8
    ensures var r := (v & !PRESCALE_MASK) | PrePrescale(e) | Prescale(p);
      r & 0xf == p && ((r >> 4) & 0x1) | ((r >> 5) & 0x6) == e && r & !PRESCALE_MASK == v & !PRESCALE_MASK
  {
  }

  /** The divider by which the controller divides its input clock, as the Armada
      hardware reads IF_CONFIG: prescaler times two to the exponent. */
  function ClockDivider(v: Word): nat {
    Spr(v) * Pow2(Sppr(v))
  }

  /** The divider by which Orion and Dove divide their input clock, before Dove's sclk
      divider: the 4-bit prescaler, doubled when POW2 is set. Their set_baudrate
      functions list the divider values 1..15 and 2, 4, ..., 30, which bits 0..4 encode;
      POW4 and POW8 are Armada's. */
  function PrescaleDivider(v: Word): nat {
    Spr(v) * (if v & IF_CLK_PRESCALE_POW2 != 0 then 2 else 1)
  }

  /** IF_CONFIG with IF_CLK_PRESCALE_MASK, as the macros define it, cleared and then POW2
      (when `pow2`) and the 4-bit prescaler `spr` written: the update of
      mvebu_spi_set_baudrate. */
  function WithSpr(v: Word, pow2: bool, spr: nat): Word
    requires spr <= MAX_SPR
  {
    (v & !PRESCALE_MASK_AS_WRITTEN) | (if pow2 then IF_CLK_PRESCALE_POW2 else 0) | Prescale(Field(spr))
  }

  /** The update keeps every bit outside IF_CLK_PRESCALE_MASK as the macros define it. */
  lemma WithSprKeeps(v: Word, pow2: bool, spr: nat)
    requires spr <= MAX_SPR
    ensures WithSpr(v, pow2, spr) & !PRESCALE_MASK_AS_WRITTEN == v & !PRESCALE_MASK_AS_WRITTEN
  {
    SprFields(v, if pow2 then IF_CLK_PRESCALE_POW2 else 0, Field(spr));
  }

  /** The divider the written word stands for is `spr`, doubled when POW2 is written. */
  lemma WithSprDivides(v: Word, pow2: bool, spr: nat)
    requires spr <= MAX_SPR
    ensures PrescaleDivider(WithSpr(v, pow2, spr)) == spr * (if pow2 then 2 else 1)
  {
    SprFields(v, if pow2 then IF_CLK_PRESCALE_POW2 else 0, Field(spr));
  }

  lemma SprFields(v: Word, pow: Word, p: Word)
    requires p < 16 && (pow == 0 || pow == IF_CLK_PRESCALE_POW2)
    ensures var r := (v & !PRESCALE_MASK_AS_WRITTEN) | pow | Prescale(p);
      && r & PRESCALE_MASK_AS_WRITTEN == pow | p
      && r & !PRESCALE_MASK_AS_WRITTEN == v & !PRESCALE_MASK_AS_WRITTEN
      && r & 0xf == p && (r & IF_CLK_PRESCALE_POW2 != 0) == (pow != 0)
  {
  }

  // ---------------------------------------------------------------------------
  // Baud rate: the three set_baudrate variants

  /** The set_baudrate function a controller was matched with: mvebu_spi_set_baudrate
      (Orion, Kirkwood, MV78x00), armada_370_xp_spi_set_baudrate, dove_spi_set_baudrate. */
  datatype Variant = Orion | Armada | Dove

  /** The factor by which the controller divides its input clock under configuration
      `v`: the Orion prescaler, Armada's prescaler times two to its exponent, or the
      Orion prescaler times Dove's sclk divider. */
  function Divider(variant: Variant, v: Word): nat {
    match variant
    case Orion => PrescaleDivider(v)
    case Armada => ClockDivider(v)
    case Dove => Pow2(Sdiv(v)) * PrescaleDivider(v)
  }

  /** The largest clock-to-speed ratio each variant can divide down to. */
  function MaxRatio(variant: Variant): nat {
    match variant
    case Orion => MAX_EVEN_SPR
    case Armada => MAX_SPR * Pow2(MAX_SPPR)
    case Dove => MAX_EVEN_SPR * Pow2(MAX_SDIV)
  }

  lemma MaxRatios()
    ensures MaxRatio(Orion) == 30 && MaxRatio(Armada) == 1920 && MaxRatio(Dove) == 480
  {
    assert Pow2(4) == 16;
    assert Pow2(7) == 128;
  }

  lemma {:induction false} Pow2Mono(a: nat, b: nat)
    requires a <= b
    ensures Pow2(a) <= Pow2(b)
    decreases b
  {
    if a < b {
      Pow2Mono(a, b - 1);
    }
  }

  /** A divider of at least DIV_ROUND_UP(clk, speed) brings the SPI clock down to at most
      the requested speed. */
  lemma SpeedNotExceeded(clk: nat, speed: nat, divider: nat)
    requires speed > 0 && divider >= DivRoundUp(clk, speed)
    ensures divider * speed >= clk
  {
    DivRoundUpCovers(clk, speed);
    MulMono(DivRoundUp(clk, speed), divider, speed);
  }

  /** mvebu_spi_set_baudrate's prescaler: DIV_ROUND_UP(clk, speed) rounded up to even,
      which is the divider POW2 | pscl/2 stands for. It covers the ratio and exceeds it
      by at most one. */
  lemma OrionPrescaler(ratio: nat)
    ensures var pscl := RoundUp(ratio, 2);
      pscl % 2 == 0 && ratio <= pscl <= ratio + 1 && (pscl / 2) * 2 == pscl
  {
  }

  /** One halving of a prescaler `c` that covers `ratio` at divider `p` but exceeds
      `bound`: the ceiling half covers it at divider 2p, and no prescaler up to `bound`
      covered it at p. */
  lemma HalveStep(c: nat, p: nat, ratio: nat, bound: nat)
    requires c > bound && p > 0 && Covers(c, p, ratio)
    ensures Covers(DivRoundUp(c, 2), 2 * p, ratio)
    ensures bound * p < ratio
  {
    MulMono(bound, c - 1, p);
    DivRoundUpCovers(c, 2);
    CoversHalved(c, DivRoundUp(c, 2), p, ratio);
  }

  /** The prescaler search of armada_370_xp_spi_set_baudrate, with its bound corrected
      to stop at exponent 7: halve the prescaler, rounding up, until it fits in four bits.
      The result is the ceiling quotient by 2^pdiv, and pdiv is the least exponent that
      makes it fit. */
  method ArmadaDivisors(clk: nat, speed: nat) returns (pscl: nat, pdiv: nat)
    requires speed > 0
    ensures (pscl, pdiv) == Halvings(DivRoundUp(clk, speed), 0, MAX_SPPR)
    ensures pdiv <= MAX_SPPR
    ensures Covers(pscl, Pow2(pdiv), DivRoundUp(clk, speed))
    ensures pscl > MAX_SPR ==> pdiv == MAX_SPPR
    ensures pdiv > 0 ==> MAX_SPR * Pow2(pdiv - 1) < DivRoundUp(clk, speed)
  {
    ghost var ratio := DivRoundUp(clk, speed);
    pscl, pdiv := DivRoundUp(clk, speed), 0;
    while pscl > MAX_SPR && pdiv < MAX_SPPR
      invariant pdiv <= MAX_SPPR
      invariant Halvings(pscl, pdiv, MAX_SPPR) == Halvings(ratio, 0, MAX_SPPR)
      invariant Covers(pscl, Pow2(pdiv), ratio)
      invariant pdiv > 0 ==> MAX_SPR * Pow2(pdiv - 1) < ratio
      decreases MAX_SPPR - pdiv
    {
      HalveStep(pscl, Pow2(pdiv), ratio, MAX_SPR);
      pscl, pdiv := DivRoundUp(pscl, 2), pdiv + 1;
    }
  }

  /** The sclk divider search of dove_spi_set_baudrate, corrected to halve, rounding up,
      the prescaler that is then written: the result is the ceiling quotient by 2^sdiv,
      and sdiv is the least exponent that brings it to 30 or below (5 when none up to 4
      does). */
  method DoveDivisors(clk: nat, speed: nat) returns (rate: nat, sdiv: nat)
    requires speed > 0
    ensures (rate, sdiv) == SclkHalvings(DivRoundUp(clk, speed), 0)
    ensures sdiv <= MAX_SDIV + 1
    ensures Covers(rate, Pow2(sdiv), DivRoundUp(clk, speed))
    ensures rate > MAX_EVEN_SPR ==> sdiv == MAX_SDIV + 1
    ensures sdiv > 0 ==> MAX_EVEN_SPR * Pow2(sdiv - 1) < DivRoundUp(clk, speed)
  {
    ghost var ratio := DivRoundUp(clk, speed);
    rate, sdiv := DivRoundUp(clk, speed), 0;
    while rate > MAX_EVEN_SPR && sdiv <= MAX_SDIV
      invariant sdiv <= MAX_SDIV + 1
      invariant SclkHalvings(rate, sdiv) == SclkHalvings(ratio, 0)
      invariant Covers(rate, Pow2(sdiv), ratio)
      invariant sdiv > 0 ==> MAX_EVEN_SPR * Pow2(sdiv - 1) < ratio
      decreases MAX_SDIV + 1 - sdiv
    {
      HalveStep(rate, Pow2(sdiv), ratio, MAX_EVEN_SPR);
      rate, sdiv := DivRoundUp(rate, 2), sdiv + 1;
    }
  }

  // ---------------------------------------------------------------------------
  // The baud-rate computations as written

  /** The loop of armada_370_xp_spi_set_baudrate: halve `pscl`, rounding up, while it
      exceeds 15 and the exponent is below `last`. The source's `pdiv <= 7` is `last` = 8,
      which lets the loop run an eighth time; the corrected search stops at 7. */
  function Halvings(pscl: nat, pdiv: nat, last: nat): (r: (nat, nat))
    requires pdiv <= last
    ensures pdiv <= r.1 <= last
    ensures r.1 < last ==> r.0 <= MAX_SPR
    decreases last - pdiv
  {
    if pscl > MAX_SPR && pdiv < last then Halvings(DivRoundUp(pscl, 2), pdiv + 1, last)
    else (pscl, pdiv)
  }

  /** The sclk loop of dove_spi_set_baudrate, corrected to halve rounding up: halve `rate`
      while it exceeds 30 and `sdiv` is at most 4. */
  function SclkHalvings(rate: nat, sdiv: nat): (r: (nat, nat))
    requires sdiv <= MAX_SDIV + 1
    ensures sdiv <= r.1 <= MAX_SDIV + 1
    ensures r.1 <= MAX_SDIV ==> r.0 <= MAX_EVEN_SPR
    decreases MAX_SDIV + 1 - sdiv
  {
    if rate > MAX_EVEN_SPR && sdiv <= MAX_SDIV then SclkHalvings(DivRoundUp(rate, 2), sdiv + 1)
    else (rate, sdiv)
  }

  /** The IF_CONFIG armada_370_xp_spi_set_baudrate writes over `v`, or None for -EINVAL. */
  function ArmadaAsWritten(clk: nat, speed: nat, v: Word): Option<Word>
    requires speed > 0
  {
    var (pscl, pdiv) := Halvings(DivRoundUp(clk, speed), 0, MAX_SPPR + 1);
    if pscl > MAX_SPR then None
    else Some((v & !PRESCALE_MASK_AS_WRITTEN) | PrePrescaleAsWritten(Field(pdiv)) | Prescale(Field(pscl)))
  }

  /** A clock 40 times the requested speed gives exponent 2, which the macro as written
      puts on bit 11, in the sclk divider field: the controller reads exponent 0 and
      divides by 10, so the SPI clock runs four times too fast. */
  lemma ArmadaExponentMisplaced()
    ensures ArmadaAsWritten(40, 1, 0) == Some(0x80a)
    ensures 0x80a & IF_CLK_DIV_MASK != 0
    ensures ClockDivider(0x80a) == 10 < 40
  {
    var last := MAX_SPPR + 1;
    assert Halvings(40, 0, last) == Halvings(20, 1, last) == Halvings(10, 2, last) == (10, 2);
    assert Field(2) == 2 && Field(10) == 10;
    var v: Word := 0x80a;
    assert (v >> 4) & 0x1 == 0 && (v >> 5) & 0x6 == 0 && v & 0xf == 10;
  }

  /** A clock 3000 times the requested speed needs 8 halvings; the loop allows them,
      and exponent 8 has no encoding: the controller divides by 12, not by 3072. */
  lemma ArmadaExponentEightLost()
    ensures Halvings(3000, 0, MAX_SPPR + 1) == (12, 8)
    ensures ArmadaAsWritten(3000, 1, 0) == Some(12)
    ensures ClockDivider(12) == 12 < 3000
  {
    var last := MAX_SPPR + 1;
    assert Halvings(3000, 0, last) == Halvings(1500, 1, last) == Halvings(750, 2, last)
        == Halvings(375, 3, last) == Halvings(188, 4, last) == Halvings(94, 5, last)
        == Halvings(47, 6, last) == Halvings(24, 7, last) == Halvings(12, 8, last) == (12, 8);
    assert Field(8) == 8 && Field(12) == 12;
    var v: Word := 12;
    assert (v >> 4) & 0x1 == 0 && (v >> 5) & 0x6 == 0 && v & 0xf == 12;
  }

  /** dove_spi_set_baudrate's loop as written: it halves `rate`, rounding down. */
  function DoveHalvingsAsWritten(rate: nat, sdiv: nat): (r: (nat, nat))
    requires sdiv <= MAX_SDIV + 1
    ensures r.1 <= MAX_SDIV + 1
    decreases MAX_SDIV + 1 - sdiv
  {
    if rate > MAX_EVEN_SPR && sdiv <= MAX_SDIV then DoveHalvingsAsWritten(rate / 2, sdiv + 1)
    else (rate, sdiv)
  }

  /** The IF_CONFIG dove_spi_set_baudrate writes over `v`, or None for -EINVAL: the
      scaled `rate` is checked, but the unscaled prescaler is written, cut to four bits. */
  function DoveAsWritten(clk: nat, speed: nat, v: Word): Option<Word>
    requires speed > 0
  {
    var p0 := DivRoundUp(clk, speed);
    var pscl := if p0 > MAX_SPR then RoundUp(p0, 2) else p0;
    var (rate, sdiv) := DoveHalvingsAsWritten(pscl, 0);
    if rate > MAX_EVEN_SPR || sdiv > MAX_SDIV then None
    else
      var base := (v & !(IF_CLK_DIV_MASK | PRESCALE_MASK_AS_WRITTEN)) | (Field(sdiv) << 11);
      Some(if pscl > MAX_SPR then base | IF_CLK_PRESCALE_POW2 | Prescale(Field((pscl / 2) % 16))
           else base | Prescale(Field(pscl % 16)))
  }

  /** A clock 40 times the requested speed: one sclk halving brings `rate` to 20, but the
      prescaler written is 40 / 2 = 20 cut to four bits, 4; the controller divides by
      2 * 4 * 2 = 16. */
  lemma DoveWritesUnscaledPrescaler()
    ensures DoveAsWritten(40, 1, 0) == Some(0x814)
    ensures Divider(Dove, 0x814) == 16 < 40
  {
    assert DivRoundUp(40, 1) == 40 && RoundUp(40, 2) == 40;
    assert DoveHalvingsAsWritten(40, 0) == DoveHalvingsAsWritten(20, 1) == (20, 1);
    var one := Field(1);
    var four := Field((40 / 2) % 16);
    assert one == 1 && four == 4;
    var base: Word := (0 & !(IF_CLK_DIV_MASK | PRESCALE_MASK_AS_WRITTEN)) | (one << 11);
    assert base == 0x800;
    assert base | IF_CLK_PRESCALE_POW2 | Prescale(four) == 0x814;
    DoveDivider0x814();
  }

  lemma DoveDivider0x814()
    ensures Divider(Dove, 0x814) == 16
  {
    var v: Word := 0x814;
    assert v & IF_CLK_PRESCALE_POW2 != 0 && v & 0xf == 4 && (v >> 11) & 0x7 == 1;
    assert Pow2(1) == 2;
  }

  /** The source's loop halves rounding down, so even the halved `rate` need not cover
      the ratio: a clock 62 times the requested speed is halved to 31 and then 15, and
      15 * 2^2 = 60 falls short of 62. */
  lemma DoveHalvingRoundsDown()
    ensures DoveHalvingsAsWritten(RoundUp(62, 2), 0) == (15, 2)
    ensures 15 * Pow2(2) < 62
  {
    assert RoundUp(62, 2) == 62;
    assert DoveHalvingsAsWritten(62, 0) == DoveHalvingsAsWritten(31, 1) == DoveHalvingsAsWritten(15, 2) == (15, 2);
    assert Pow2(2) == 4;
  }

  /** Halving rounding down also lets the source accept ratios 481 to 494, which no Dove
      setting covers: for 494 the loop ends at rate 30 with exponent 4, a divider of 480. */
  lemma DoveAcceptsBeyondRange()
    ensures DoveHalvingsAsWritten(494, 0) == (30, 4) && 30 * Pow2(4) < 494
    ensures MaxRatio(Dove) < 494
  {
    assert DoveHalvingsAsWritten(494, 0) == DoveHalvingsAsWritten(247, 1) == DoveHalvingsAsWritten(123, 2)
        == DoveHalvingsAsWritten(61, 3) == DoveHalvingsAsWritten(30, 4) == (30, 4);
    assert Pow2(4) == 16;
    MaxRatios();
  }

  // ---------------------------------------------------------------------------
  // Transfers: word packing and the DATA_OUT / DATA_IN exchange

  /** One SPI transfer (struct spi_transfer) with the device's answers: for each word,
      the DATA_IN word once read-ready came up, or None when it timed out. */
  datatype Transfer = Transfer(len: nat, tx: Option<seq<Byte>>, rx: bool, bitsPerWord: nat,
                               speed: nat, replies: seq<Option<Word>>)

  /** Bytes per word: 2 in 16-bit mode. */
  function Step(wide: bool): nat {
    if wide then 2 else 1
  }

  /** Offset in the buffers of word `i`. */
  function Offset(i: nat, wide: bool): nat {
    if wide then 2 * i else i
  }

  /** Words a transfer of `len` bytes shifts: the loop steps by Step(wide) while below
      len, so the last word of an odd 16-bit transfer is a whole word. */
  function WordCount(len: nat, wide: bool): (k: nat)
    ensures forall i: nat {:trigger Offset(i, wide)} :: i < k <==> Offset(i, wide) < len
  {
    if wide then (len + 1) / 2 else len
  }

  /** Byte `i` of the tx buffer; past its end the model reads 0. */
  function TxByte(tx: seq<Byte>, i: nat): Byte {
    if i < |tx| then tx[i] else 0
  }

  /** The word written to DATA_OUT for word `i`: 0 without a tx buffer, else the next
      byte, and in 16-bit mode the byte after it in bits 8..15. */
  function OutWord(tx: Option<seq<Byte>>, wide: bool, i: nat): Word {
    match tx
    case None => 0
    case Some(b) =>
      var j := Offset(i, wide);
      if wide then Pack(TxByte(b, j), TxByte(b, j + 1)) else Pack(TxByte(b, j), 0)
  }

  /** The bytes stored from a DATA_IN word: the low byte, then in 16-bit mode bits 8..15. */
  function InBytes(d: Word, wide: bool): (r: seq<Byte>)
    ensures |r| == Step(wide)
  {
    if wide then [(d & 0xff) as Byte, ((d >> 8) & 0xff) as Byte] else [(d & 0xff) as Byte]
  }

  /** A DATA_OUT word: `lo` in bits 0..7, `hi` in bits 8..15. */
  function Pack(lo: Byte, hi: Byte): (r: Word)
    ensures r & 0xff == lo as Word
    ensures (r >> 8) & 0xff == hi as Word
  {
    var l := lo as Word;
    var h := hi as Word;
    assert l < 256 && h < 256;
    l | (h << 8)
  }

  /** Widening a byte to a word and truncating it back is the identity. */
  lemma Narrow(b: Byte)
    ensures (b as Word) as Byte == b
  {
  }

  /** Storing a packed word back yields the bytes packed, in both widths. */
  lemma PackUnpack(lo: Byte, hi: Byte)
    ensures InBytes(Pack(lo, hi), true) == [lo, hi]
    ensures InBytes(Pack(lo, 0), false) == [lo]
  {
    Narrow(lo);
    Narrow(hi);
  }

  /** The device's answer for word `i`; an answer past the end is a timeout. */
  function Answer(replies: seq<Option<Word>>, i: nat): Option<Word> {
    if i < |replies| then replies[i] else None
  }

  /** The first of the first `k` words that timed out, or `k` if none did. */
  function Silent(replies: seq<Option<Word>>, k: nat): (s: nat)
    ensures s <= k
    ensures s < k ==> Answer(replies, s).None?
  {
    if k == 0 then 0
    else
      var s := Silent(replies, k - 1);
      if s < k - 1 || Answer(replies, k - 1).None? then s else k
  }

  /** The words written to DATA_OUT for the first `m` words. */
  function Sent(tx: Option<seq<Byte>>, wide: bool, m: nat): (r: seq<Word>)
    ensures |r| == m
  {
    if m == 0 then [] else Sent(tx, wide, m - 1) + [OutWord(tx, wide, m - 1)]
  }

  /** The DATA_IN word read for word `i` (0 for a word that timed out, which the
      driver never stores). */
  function Reply(replies: seq<Option<Word>>, i: nat): Word {
    match Answer(replies, i)
    case Some(d) => d
    case None => 0
  }

  /** The bytes stored into the rx buffer for the first `m` words. */
  function Received(replies: seq<Option<Word>>, wide: bool, m: nat): (r: seq<Byte>)
    ensures |r| == Offset(m, wide)
  {
    if m == 0 then []
    else Received(replies, wide, m - 1) + InBytes(Reply(replies, m - 1), wide)
  }

  /** A device that answers every word with the word it was sent (a loopback) fills the
      rx buffer with exactly the tx bytes, in both widths. */
  lemma {:induction false} LoopbackEchoes(tx: seq<Byte>, wide: bool, replies: seq<Option<Word>>, m: nat)
    requires Offset(m, wide) <= |tx|
    requires forall j :: 0 <= j < m ==> Reply(replies, j) == OutWord(Some(tx), wide, j)
    ensures Received(replies, wide, m) == tx[..Offset(m, wide)]
  {
    if m > 0 {
      LoopbackEchoes(tx, wide, replies, m - 1);
      EchoWord(tx, wide, m - 1);
      var lo, hi := Offset(m - 1, wide), Offset(m, wide);
      assert Received(replies, wide, m) == tx[..lo] + InBytes(OutWord(Some(tx), wide, m - 1), wide);
      assert tx[..hi] == tx[..lo] + tx[lo..hi];
    }
  }

  /** The bytes stored from the word sent for word `i` are the tx bytes it was packed from. */
  lemma EchoWord(tx: seq<Byte>, wide: bool, i: nat)
    requires Offset(i + 1, wide) <= |tx|
    ensures InBytes(OutWord(Some(tx), wide, i), wide) == tx[Offset(i, wide)..Offset(i + 1, wide)]
  {
    var k := Offset(i, wide);
    if wide {
      PackUnpack(tx[k], tx[k + 1]);
    } else {
      PackUnpack(tx[k], 0);
    }
  }

  /** Sum of the lengths of transfers. */
  function TotalLength(ts: seq<Transfer>): nat {
    if ts == [] then 0 else TotalLength(ts[..|ts| - 1]) + ts[|ts| - 1].len
  }

  /** The controller's set_baudrate and clock, with the bits_per_word of the device a
      message is for: what decides how each of its transfers ends. */
  datatype Link = Link(variant: Variant, clk: nat, deviceBits: nat)

  /** How one transfer ends: do_transfer's return code, the bytes stored into its rx
      buffer and the words written to DATA_OUT. */
  datatype Outcome = Outcome(rc: int, rx: seq<Byte>, words: seq<Word>)

  /** The word size after a transfer: one with its own bits_per_word sets the device's,
      when that is 8 or 16; otherwise it stays `wide`. */
  function WidthAfter(deviceBits: nat, t: Transfer, wide: bool): bool {
    if t.bitsPerWord != 0 && (deviceBits == 8 || deviceBits == 16) then deviceBits == 16 else wide
  }

  /** A transfer do_transfer refuses with -EINVAL before writing any word: its own word
      size asks for the device's, which is neither 8 nor 16, or its own speed is too slow
      for the controller's divider. The speed range is that of the corrected Armada and
      Dove set_baudrate (MaxRatio: 1920 and 480); the source's Armada code also accepts
      ratios up to 3840 and its Dove code 481 to 494. */
  predicate Refused(l: Link, t: Transfer) {
    || (t.bitsPerWord != 0 && l.deviceBits != 8 && l.deviceBits != 16)
    || (t.speed != 0 && DivRoundUp(l.clk, t.speed) > MaxRatio(l.variant))
  }

  /** How do_transfer ends for `t` at word size `wide`: refused, or its words shifted at
      the word size it leaves, up to the first that timed out. */
  function TransferOutcome(l: Link, t: Transfer, wide: bool): Outcome {
    if Refused(l, t) then Outcome(-EINVAL, [], [])
    else
      var w := WidthAfter(l.deviceBits, t, wide);
      var k := WordCount(t.len, w);
      var f := Silent(t.replies, k);
      Outcome(if f < k then -ETIMEDOUT else 0, if t.rx then Received(t.replies, w, f) else [],
              Sent(t.tx, w, if f < k then f + 1 else k))
  }

  /** do_transfer, over the corrected set_baudrate, fails with -EINVAL exactly for a
      refused transfer and with -ETIMEDOUT exactly when a word timed out; a transfer that
      succeeds wrote every word and, with an rx buffer, stored a byte per tx byte shifted
      (a whole last word in 16-bit mode). */
  lemma TransferCodes(l: Link, t: Transfer, wide: bool)
    ensures var o := TransferOutcome(l, t, wide);
      && (o.rc == -EINVAL <==> Refused(l, t))
      && (o.rc == -EINVAL ==> o.words == [] && o.rx == [])
      && (o.rc == 0 || o.rc == -EINVAL || o.rc == -ETIMEDOUT)
      && var w := WidthAfter(l.deviceBits, t, wide);
        var k := WordCount(t.len, w);
        && (o.rc == -ETIMEDOUT <==> !Refused(l, t) && Answer(t.replies, Silent(t.replies, k)).None? && Silent(t.replies, k) < k)
        && (o.rc == 0 ==> |o.words| == k && |o.rx| == (if t.rx then Offset(k, w) else 0))
  {
  }

  /** The word size at the start of transfer `j` of `msg`, from `wide` before the first. */
  function WidthAt(l: Link, msg: seq<Transfer>, j: nat, wide: bool): bool
    requires j <= |msg|
  {
    if j == 0 then wide else WidthAfter(l.deviceBits, msg[j - 1], WidthAt(l, msg, j - 1, wide))
  }

  /** How transfer `j` of `msg` ends when every earlier one succeeded. */
  function OutcomeAt(l: Link, msg: seq<Transfer>, j: nat, wide: bool): Outcome
    requires j < |msg|
  {
    TransferOutcome(l, msg[j], WidthAt(l, msg, j, wide))
  }

  /** The first of the first `k` transfers that fails, or `k` if none does. */
  function FirstFailure(l: Link, msg: seq<Transfer>, k: nat, wide: bool): (f: nat)
    requires k <= |msg|
    ensures f <= k
    ensures f < k ==> OutcomeAt(l, msg, f, wide).rc != 0
  {
    if k == 0 then 0
    else
      var f := FirstFailure(l, msg, k - 1, wide);
      if f < k - 1 || OutcomeAt(l, msg, k - 1, wide).rc != 0 then f else k
  }

  /** The rx bytes of the first `m` transfers, one buffer each. */
  function Receipts(l: Link, msg: seq<Transfer>, m: nat, wide: bool): (r: seq<seq<Byte>>)
    requires m <= |msg|
    ensures |r| == m
  {
    if m == 0 then [] else Receipts(l, msg, m - 1, wide) + [OutcomeAt(l, msg, m - 1, wide).rx]
  }

  /** The DATA_OUT words of the first `m` transfers, in order. */
  function Shipped(l: Link, msg: seq<Transfer>, m: nat, wide: bool): seq<Word>
    requires m <= |msg|
  {
    if m == 0 then [] else Shipped(l, msg, m - 1, wide) + OutcomeAt(l, msg, m - 1, wide).words
  }

  /** A transfer that succeeds after `j` successes extends the run: the counts, the rx
      buffers and the DATA_OUT words grow by its own. */
  lemma Progress(l: Link, msg: seq<Transfer>, j: nat, wide: bool)
    requires j < |msg| && FirstFailure(l, msg, j, wide) == j && OutcomeAt(l, msg, j, wide).rc == 0
    ensures FirstFailure(l, msg, j + 1, wide) == j + 1
    ensures TotalLength(msg[..j + 1]) == TotalLength(msg[..j]) + msg[j].len
    ensures Receipts(l, msg, j + 1, wide) == Receipts(l, msg, j, wide) + [OutcomeAt(l, msg, j, wide).rx]
    ensures Shipped(l, msg, j + 1, wide) == Shipped(l, msg, j, wide) + OutcomeAt(l, msg, j, wide).words
  {
    assert msg[..j + 1][..j] == msg[..j];
  }

  /** A transfer that fails stays the first failure however many transfers follow. */
  lemma {:induction false} FailureStays(l: Link, msg: seq<Transfer>, j: nat, k: nat, wide: bool)
    requires j < k <= |msg| && FirstFailure(l, msg, j, wide) == j && OutcomeAt(l, msg, j, wide).rc != 0
    ensures FirstFailure(l, msg, k, wide) == j
    decreases k
  {
    if k > j + 1 {
      FailureStays(l, msg, j, k - 1, wide);
    }
  }

  /** A run of successful transfers is not interrupted. */
  lemma {:induction false} NoFailure(l: Link, msg: seq<Transfer>, k: nat, wide: bool)
    requires k <= |msg|
    requires forall j :: 0 <= j < k ==> OutcomeAt(l, msg, j, wide).rc == 0
    ensures FirstFailure(l, msg, k, wide) == k
  {
    if k > 0 {
      NoFailure(l, msg, k - 1, wide);
    }
  }

  /** Entry `j` of the receipts is the rx buffer of transfer `j`. */
  lemma {:induction false} ReceiptAt(l: Link, msg: seq<Transfer>, m: nat, j: nat, wide: bool)
    requires j < m <= |msg|
    ensures Receipts(l, msg, m, wide)[j] == OutcomeAt(l, msg, j, wide).rx
  {
    if j < m - 1 {
      ReceiptAt(l, msg, m - 1, j, wide);
    }
  }

  /** Every word of transfer `t` at word size `w` was answered. */
  predicate Answered(t: Transfer, w: bool) {
    Silent(t.replies, WordCount(t.len, w)) == WordCount(t.len, w)
  }

  /** A message all of whose transfers are accepted and fully answered completes: no
      transfer fails, and each one's rx buffer holds a byte per word byte shifted. */
  lemma CompleteMessage(l: Link, msg: seq<Transfer>, wide: bool)
    requires forall j :: 0 <= j < |msg| ==>
      !Refused(l, msg[j]) && Answered(msg[j], WidthAt(l, msg, j + 1, wide))
    ensures FirstFailure(l, msg, |msg|, wide) == |msg|
    ensures forall j :: 0 <= j < |msg| && msg[j].rx ==>
      var w := WidthAt(l, msg, j + 1, wide);
      |Receipts(l, msg, |msg|, wide)[j]| == Offset(WordCount(msg[j].len, w), w)
  {
    forall j | 0 <= j < |msg|
      ensures OutcomeAt(l, msg, j, wide).rc == 0
      ensures msg[j].rx ==>
        var w := WidthAt(l, msg, j + 1, wide);
        |Receipts(l, msg, |msg|, wide)[j]| == Offset(WordCount(msg[j].len, w), w)
    {
      TransferCodes(l, msg[j], WidthAt(l, msg, j, wide));
      ReceiptAt(l, msg, |msg|, j, wide);
    }
    NoFailure(l, msg, |msg|, wide);
  }

  /** IF_CONFIG after mvebu_spi_set_mode accepted `mode`: both LSB-first bits set with
      SPI_LSB_FIRST, both cleared without it. */
  function LsbConfig(v: Word, mode: Byte): Word {
    WithBits(v, IF_RXLSBF | IF_TXLSBF, mode & SPI_LSB_FIRST != 0)
  }

  /** IF_CONFIG after the set_baudrate of `variant` was asked for ratio `ratio` over `v`:
      unchanged when it refuses, else the prescaler fields it writes. */
  function BaudrateConfig(variant: Variant, v: Word, ratio: nat): Word {
    match variant
    case Orion => OrionConfig(v, ratio)
    case Armada => ArmadaConfig(v, ratio)
    case Dove => DoveConfig(v, ratio)
  }

  /** IF_CONFIG after mvebu_spi_set_baudrate for `ratio` over `v`. */
  function OrionConfig(v: Word, ratio: nat): Word {
    var pscl := RoundUp(ratio, 2);
    if pscl > MAX_EVEN_SPR then v else WithSpr(v, true, pscl / 2)
  }

  /** IF_CONFIG after the corrected armada_370_xp_spi_set_baudrate for `ratio` over `v`. */
  function ArmadaConfig(v: Word, ratio: nat): Word {
    var (pscl, pdiv) := Halvings(ratio, 0, MAX_SPPR);
    if pscl > MAX_SPR then v else WithPrescaler(v, pscl, pdiv)
  }

  /** IF_CONFIG after the corrected dove_spi_set_baudrate for `ratio` over `v`. */
  function DoveConfig(v: Word, ratio: nat): Word {
    var (rate, sdiv) := SclkHalvings(ratio, 0);
    if rate > MAX_EVEN_SPR || sdiv > MAX_SDIV then v else DoveSetting(v, rate, sdiv)
  }

  /** IF_CONFIG after do_transfer ran `t` over `v`: its own word size sets
      IF_TRANSFER_2BYTE unless refused, then its own speed sets the divider; a speed
      refused after the word size was set keeps that word size. */
  function ConfigAfter(l: Link, t: Transfer, v: Word): Word {
    if t.bitsPerWord != 0 && l.deviceBits != 8 && l.deviceBits != 16 then v
    else
      var sized := if t.bitsPerWord != 0 then WithBits(v, IF_TRANSFER_2BYTE, l.deviceBits == 16) else v;
      if t.speed != 0 then BaudrateConfig(l.variant, sized, DivRoundUp(l.clk, t.speed)) else sized
  }

  /** IF_CONFIG at the start of transfer `j` of `msg`, from `v` before the first. */
  function ConfigAt(l: Link, msg: seq<Transfer>, j: nat, v: Word): Word
    requires j <= |msg|
  {
    if j == 0 then v else ConfigAfter(l, msg[j - 1], ConfigAt(l, msg, j - 1, v))
  }

  /** Whether IF_TRANSFER_2BYTE is set in `v`. */
  predicate WideBit(v: Word) {
    v & IF_TRANSFER_2BYTE != 0
  }

  /** No set_baudrate touches IF_TRANSFER_2BYTE. */
  lemma BaudrateKeepsWidth(variant: Variant, v: Word, ratio: nat)
    ensures WideBit(BaudrateConfig(variant, v, ratio)) == WideBit(v)
  {
    match variant
    case Orion => OrionKeepsWidth(v, ratio);
    case Armada => ArmadaKeepsWidth(v, ratio);
    case Dove => DoveKeepsWidth(v, ratio);
  }

  lemma OrionKeepsWidth(v: Word, ratio: nat)
    ensures WideBit(OrionConfig(v, ratio)) == WideBit(v)
  {
    var pscl := RoundUp(ratio, 2);
    if pscl <= MAX_EVEN_SPR {
      WithSprWidth(v, pscl / 2);
    }
  }

  lemma WithSprWidth(v: Word, spr: nat)
    requires spr <= MAX_SPR
    ensures WideBit(WithSpr(v, true, spr)) == WideBit(v)
  {
    var p := Field(spr);
    assert p < 16;
    assert WithSpr(v, true, spr) == (v & !PRESCALE_MASK_AS_WRITTEN) | IF_CLK_PRESCALE_POW2 | Prescale(p);
    assert WithSpr(v, true, spr) & IF_TRANSFER_2BYTE == v & IF_TRANSFER_2BYTE;
  }

  lemma ArmadaKeepsWidth(v: Word, ratio: nat)
    ensures WideBit(ArmadaConfig(v, ratio)) == WideBit(v)
  {
    var (pscl, pdiv) := Halvings(ratio, 0, MAX_SPPR);
    if pscl <= MAX_SPR {
      PrescalerWidth(v, Field(pscl), Field(pdiv));
    }
  }

  lemma PrescalerWidth(v: Word, p: Word, e: Word)
    requires p < 16 && e < 8
    ensures WideBit((v & !PRESCALE_MASK) | PrePrescale(e) | Prescale(p)) == WideBit(v)
  {
    assert ((v & !PRESCALE_MASK) | PrePrescale(e) | Prescale(p)) & IF_TRANSFER_2BYTE == v & IF_TRANSFER_2BYTE;
  }

  lemma DoveKeepsWidth(v: Word, ratio: nat)
    ensures WideBit(DoveConfig(v, ratio)) == WideBit(v)
  {
    var (rate, sdiv) := SclkHalvings(ratio, 0);
    if rate <= MAX_EVEN_SPR && sdiv <= MAX_SDIV {
      DoveWordWidth(v, Field(sdiv), if rate > MAX_SPR then IF_CLK_PRESCALE_POW2 else 0, Field(DoveSpr(rate)));
    }
  }

  lemma DoveWordWidth(v: Word, d: Word, pow: Word, p: Word)
    requires d < 8 && p < 16 && (pow == 0 || pow == IF_CLK_PRESCALE_POW2)
    ensures WideBit(DoveWord(v, d, pow, p)) == WideBit(v)
  {
    assert DoveWord(v, d, pow, p) & IF_TRANSFER_2BYTE == v & IF_TRANSFER_2BYTE;
  }

  /** IF_TRANSFER_2BYTE follows the word size through a transfer: when it agrees with
      the word size before, it agrees with the word size after. A transfer with neither
      its own word size nor its own speed leaves IF_CONFIG alone. */
  lemma ConfigAfterWidth(l: Link, t: Transfer, v: Word, wide: bool)
    ensures WideBit(v) == wide ==> WideBit(ConfigAfter(l, t, v)) == WidthAfter(l.deviceBits, t, wide)
    ensures t.bitsPerWord == 0 && t.speed == 0 ==> ConfigAfter(l, t, v) == v
  {
    if !(t.bitsPerWord != 0 && l.deviceBits != 8 && l.deviceBits != 16) {
      var sized := if t.bitsPerWord != 0 then WithBits(v, IF_TRANSFER_2BYTE, l.deviceBits == 16) else v;
      WithBitsFields(v, IF_TRANSFER_2BYTE, l.deviceBits == 16);
      if t.speed != 0 {
        BaudrateKeepsWidth(l.variant, sized, DivRoundUp(l.clk, t.speed));
      }
    }
  }

  /** Through a whole message IF_TRANSFER_2BYTE keeps agreeing with the word size. */
  lemma {:induction false} ConfigAtWidth(l: Link, msg: seq<Transfer>, j: nat, v: Word, wide: bool)
    requires j <= |msg| && WideBit(v) == wide
    ensures WideBit(ConfigAt(l, msg, j, v)) == WidthAt(l, msg, j, wide)
  {
    if j > 0 {
      ConfigAtWidth(l, msg, j - 1, v, wide);
      ConfigAfterWidth(l, msg[j - 1], ConfigAt(l, msg, j - 1, v), WidthAt(l, msg, j - 1, wide));
    }
  }

  // ---------------------------------------------------------------------------
  // The controller

  class Controller {
    /** Which set_baudrate the controller was matched with. */
    const variant: Variant
    /** clk_get_rate of the controller's clock, in Hz. */
    const clk: nat
    /** The last word written to SPI_IF_CTRL. */
    var ctrl: Word
    /** SPI_IF_CONFIG. */
    var config: Word
    /** Whether transfers use 16-bit words. */
    var data16: bool
    /** Every word written to SPI_DATA_OUT, oldest first. */
    var out: seq<Word>

    constructor (variant: Variant, clk: nat, ctrl: Word, config: Word)
      ensures this.variant == variant && this.clk == clk
      ensures this.ctrl == ctrl && this.config == config && !data16 && out == []
    {
      this.variant := variant;
      this.clk := clk;
      this.ctrl := ctrl;
      this.config := config;
      data16 := false;
      out := [];
    }

    /** mvebu_spi_set_cs, with the guard corrected to reject chip 8: select chip `cs`
        and drive its line active when `en`, inverted for an active-high device. */
    method SetCs(cs: nat, mode: Byte, en: bool) returns (rc: int)
      requires cs < 256
      modifies this`ctrl
      ensures cs >= SPI_SPI_MAX_CS ==> rc == -EINVAL && ctrl == old(ctrl)
      ensures cs < SPI_SPI_MAX_CS ==> rc == 0 && ctrl == CsWord(cs, Asserted(mode, en))
    {
      if cs >= SPI_SPI_MAX_CS {
        return -EINVAL;
      }
      var enable := en;
      if mode & SPI_CS_HIGH != 0 {
        enable := !enable;
      }
      var val := Field(cs) << 2;
      if enable {
        val := val | IF_CS_ENABLE;
      }
      ctrl := val;
      return 0;
    }

    /** mvebu_spi_set_transfer_size: 8 or 16 bits per word, else -EINVAL and nothing
        changes; only IF_TRANSFER_2BYTE of IF_CONFIG follows the new width. */
    method SetTransferSize(size: nat) returns (rc: int)
      modifies this`data16, this`config
      ensures size != 8 && size != 16 ==> rc == -EINVAL && data16 == old(data16) && config == old(config)
      ensures size == 8 || size == 16 ==>
        rc == 0 && data16 == (size == 16) && config == WithBits(old(config), IF_TRANSFER_2BYTE, size == 16)
    {
      if size != 8 && size != 16 {
        return -EINVAL;
      }
      data16 := size == 16;
      var val := config & !IF_TRANSFER_2BYTE;
      if data16 {
        val := val | IF_TRANSFER_2BYTE;
      }
      config := val;
      return 0;
    }

    /** mvebu_spi_set_mode: only SPI mode 0 is accepted; SPI_LSB_FIRST sets both LSB-first
        bits, its absence clears both. */
    method SetMode(mode: Byte) returns (rc: int)
      modifies this`config
      ensures mode & (SPI_CPOL | SPI_CPHA) != 0 ==> rc == -EINVAL && config == old(config)
      ensures mode & (SPI_CPOL | SPI_CPHA) == 0 ==>
        rc == 0 && config == LsbConfig(old(config), mode)
    {
      if mode & (SPI_CPOL | SPI_CPHA) != 0 {
        return -EINVAL;
      }
      var val := config;
      if mode & SPI_LSB_FIRST != 0 {
        OrIsSet(val, IF_RXLSBF | IF_TXLSBF);
        val := val | IF_RXLSBF | IF_TXLSBF;
      } else {
        val := val & !(IF_RXLSBF | IF_TXLSBF);
      }
      config := val;
      return 0;
    }

    /** The set_baudrate of the controller's variant, with the Armada and Dove ones
        corrected (ArmadaBaudrate, DoveBaudrate): it fails with -EINVAL, writing nothing,
        exactly when the clock is too fast for the requested speed; otherwise the divider
        it sets covers DIV_ROUND_UP(clk, speed), so the SPI clock does not exceed `speed`. */
    method SetBaudrate(speed: nat) returns (rc: int)
      requires speed > 0
      modifies this`config
      ensures rc == 0 <==> DivRoundUp(clk, speed) <= MaxRatio(variant)
      ensures rc != 0 ==> rc == -EINVAL && config == old(config)
      ensures config == BaudrateConfig(variant, old(config), DivRoundUp(clk, speed))
      ensures rc == 0 ==> Divider(variant, config) >= DivRoundUp(clk, speed)
    {
      match variant
      case Orion => rc := OrionBaudrate(speed);
      case Armada => rc := ArmadaBaudrate(speed);
      case Dove => rc := DoveBaudrate(speed);
    }

    /** mvebu_spi_set_baudrate: prescaler DIV_ROUND_UP(clk, speed) rounded up to even,
        written as POW2 | pscl / 2 over IF_CONFIG with IF_CLK_PRESCALE_MASK cleared. The
        controller then divides by exactly that even prescaler. */
    method OrionBaudrate(speed: nat) returns (rc: int)
      requires speed > 0 && variant == Orion
      modifies this`config
      ensures rc == 0 <==> DivRoundUp(clk, speed) <= MAX_EVEN_SPR
      ensures rc != 0 ==> rc == -EINVAL && config == old(config)
      ensures config == OrionConfig(old(config), DivRoundUp(clk, speed))
      ensures rc == 0 ==> config == WithSpr(old(config), true, RoundUp(DivRoundUp(clk, speed), 2) / 2)
      ensures rc == 0 ==> Divider(variant, config) == RoundUp(DivRoundUp(clk, speed), 2)
      ensures rc == 0 ==> Divider(variant, config) >= DivRoundUp(clk, speed)
    {
      var pscl := DivRoundUp(clk, speed);
      pscl := RoundUp(pscl, 2);
      OrionPrescaler(DivRoundUp(clk, speed));
      if pscl > MAX_EVEN_SPR {
        return -EINVAL;
      }
      config := WithSpr(config, true, pscl / 2);
      WithSprDivides(old(config), true, pscl / 2);
      return 0;
    }

    /** armada_370_xp_spi_set_baudrate, corrected: the exponent is bounded by 7, so
        ratios above 1920 fail where the source's `pdiv <= 7` loop goes on to exponent 8,
        and it is encoded on bits 4, 6 and 7. */
    method ArmadaBaudrate(speed: nat) returns (rc: int)
      requires speed > 0 && variant == Armada
      modifies this`config
      ensures rc == 0 <==> DivRoundUp(clk, speed) <= MaxRatio(Armada)
      ensures rc != 0 ==> rc == -EINVAL && config == old(config)
      ensures rc == 0 <==> Halvings(DivRoundUp(clk, speed), 0, MAX_SPPR).0 <= MAX_SPR
      ensures var (pscl, pdiv) := Halvings(DivRoundUp(clk, speed), 0, MAX_SPPR);
        rc == 0 ==> config == WithPrescaler(old(config), pscl, pdiv)
      ensures rc == 0 ==> Covers(Spr(config), Pow2(Sppr(config)), DivRoundUp(clk, speed))
      ensures rc == 0 ==> Divider(variant, config) >= DivRoundUp(clk, speed)
      ensures rc == 0 ==> config & !PRESCALE_MASK == old(config) & !PRESCALE_MASK
      ensures rc == 0 && Sppr(config) > 0 ==> MAX_SPR * Pow2(Sppr(config) - 1) < DivRoundUp(clk, speed)
    {
      var pscl, pdiv := ArmadaDivisors(clk, speed);
      ArmadaRange(pscl, pdiv, DivRoundUp(clk, speed));
      if pscl > MAX_SPR {
        return -EINVAL;
      }
      config := WithPrescaler(config, pscl, pdiv);
      assert Spr(config) == pscl && Sppr(config) == pdiv;
      return 0;
    }

    /** dove_spi_set_baudrate, corrected to write the prescaler it scaled: halve it
        (rounding up) until it is 30 or less, at most four times; above 15 round it up
        to even and write POW2 | rate / 2, else write it as it is. */
    method DoveBaudrate(speed: nat) returns (rc: int)
      requires speed > 0 && variant == Dove
      modifies this`config
      ensures rc == 0 <==> DivRoundUp(clk, speed) <= MaxRatio(Dove)
      ensures rc != 0 ==> rc == -EINVAL && config == old(config)
      ensures config == DoveConfig(old(config), DivRoundUp(clk, speed))
      ensures var (rate, sdiv) := SclkHalvings(DivRoundUp(clk, speed), 0);
        rc == 0 ==> rate <= MAX_EVEN_SPR && sdiv <= MAX_SDIV && config == DoveSetting(old(config), rate, sdiv)
      ensures rc == 0 ==> Divider(variant, config) >= DivRoundUp(clk, speed)
    {
      var rate, sdiv := DoveDivisors(clk, speed);
      DoveRange(rate, sdiv, DivRoundUp(clk, speed));
      if rate > MAX_EVEN_SPR || sdiv > MAX_SDIV {
        return -EINVAL;
      }
      config := DoveSetting(config, rate, sdiv);
      DoveSettingCovers(old(config), rate, sdiv, DivRoundUp(clk, speed));
      return 0;
    }

    /** mvebu_spi_setup over the corrected SetCs and SetBaudrate: deselect the chip, then
        set mode, word size and speed, stopping at the first failure. Chip 8 and the
        speeds only the source's Armada and Dove loops accept are refused here. */
    method Setup(cs: nat, mode: Byte, bitsPerWord: nat, maxSpeed: nat) returns (rc: int)
      requires cs < 256 && maxSpeed > 0
      modifies this`ctrl, this`config, this`data16
      ensures cs >= SPI_SPI_MAX_CS ==>
        rc == -EINVAL && ctrl == old(ctrl) && config == old(config) && data16 == old(data16)
      ensures cs < SPI_SPI_MAX_CS ==> ctrl == CsWord(cs, Asserted(mode, false))
      ensures cs < SPI_SPI_MAX_CS && mode & (SPI_CPOL | SPI_CPHA) != 0 ==>
        config == old(config) && data16 == old(data16)
      ensures cs < SPI_SPI_MAX_CS && mode & (SPI_CPOL | SPI_CPHA) == 0 && bitsPerWord != 8 && bitsPerWord != 16 ==>
        config == LsbConfig(old(config), mode) && data16 == old(data16)
      ensures cs < SPI_SPI_MAX_CS && mode & (SPI_CPOL | SPI_CPHA) == 0 && (bitsPerWord == 8 || bitsPerWord == 16) ==>
        && data16 == (bitsPerWord == 16)
        && config == BaudrateConfig(variant, WithBits(LsbConfig(old(config), mode), IF_TRANSFER_2BYTE, bitsPerWord == 16),
                                    DivRoundUp(clk, maxSpeed))
      ensures rc == 0 || rc == -EINVAL
      ensures rc == 0 <==>
        && cs < SPI_SPI_MAX_CS && mode & (SPI_CPOL | SPI_CPHA) == 0
        && (bitsPerWord == 8 || bitsPerWord == 16) && DivRoundUp(clk, maxSpeed) <= MaxRatio(variant)
      ensures rc == 0 ==>
        && ctrl == CsWord(cs, Asserted(mode, false))
        && mode & (SPI_CPOL | SPI_CPHA) == 0
        && data16 == (bitsPerWord == 16) && (bitsPerWord == 8 || bitsPerWord == 16)
        && Divider(variant, config) >= DivRoundUp(clk, maxSpeed)
    {
      rc := SetCs(cs, mode, false);
      if rc != 0 {
        return;
      }
      rc := SetMode(mode);
      if rc != 0 {
        return;
      }
      rc := SetTransferSize(bitsPerWord);
      if rc != 0 {
        return;
      }
      rc := SetBaudrate(maxSpeed);
    }

    /** The word loop of mvebu_spi_do_transfer run against this controller: the words
        ShiftWords computes are written to DATA_OUT in order. */
    method Exchange(tx: Option<seq<Byte>>, wantRx: bool, len: nat, replies: seq<Option<Word>>)
      returns (rc: int, rx: seq<Byte>)
      modifies this`out
      ensures var k := WordCount(len, data16);
        var f := Silent(replies, k);
        && out == old(out) + Sent(tx, data16, if f < k then f + 1 else k)
        && rc == (if f < k then -ETIMEDOUT else 0)
        && rx == (if wantRx then Received(replies, data16, f) else [])
    {
      var words;
      rc, words, rx := ShiftWords(tx, wantRx, len, data16, replies);
      out := out + words;
    }

    /** mvebu_spi_do_transfer over the corrected SetBaudrate: a transfer with its own
        word size sets the device's word size (its bits_per_word, not the transfer's), one
        with its own speed sets the speed; a failure there returns at once; then the words
        are exchanged. */
    method DoTransfer(deviceBits: nat, t: Transfer) returns (rc: int, rx: seq<Byte>)
      modifies this`config, this`data16, this`out
      ensures var o := TransferOutcome(Link(variant, clk, deviceBits), t, old(data16));
        rc == o.rc && rx == o.rx && out == old(out) + o.words
      ensures rc == -EINVAL <==>
        || (t.bitsPerWord != 0 && deviceBits != 8 && deviceBits != 16)
        || (t.speed != 0 && DivRoundUp(clk, t.speed) > MaxRatio(variant))
      ensures data16 == WidthAfter(deviceBits, t, old(data16))
      ensures config == ConfigAfter(Link(variant, clk, deviceBits), t, old(config))
      ensures t.speed != 0 && rc != -EINVAL ==> Divider(variant, config) >= DivRoundUp(clk, t.speed)
    {
      rc := 0;
      rx := [];
      if t.bitsPerWord != 0 {
        rc := SetTransferSize(deviceBits);
      }
      if rc != 0 {
        return;
      }
      if t.speed != 0 {
        rc := SetBaudrate(t.speed);
      }
      if rc != 0 {
        return;
      }
      rc, rx := Exchange(t.tx, t.rx, t.len, t.replies);
    }

    /** mvebu_spi_transfer over the corrected SetCs and SetBaudrate (chip 8 is refused):
        set the mode, assert the chip select, run the transfers in order while counting
        their lengths, and deassert the chip select on the way out,
        whether a transfer failed or not. `actual` is msg->actual_length, which an early
        failure leaves as it was. */
    method Transfers(cs: nat, mode: Byte, deviceBits: nat, msg: seq<Transfer>, priorActual: nat)
      returns (rc: int, actual: nat, received: seq<seq<Byte>>)
      requires cs < 256
      modifies this
      ensures mode & (SPI_CPOL | SPI_CPHA) != 0 ==>
        && rc == -EINVAL && actual == priorActual && ctrl == old(ctrl) && out == old(out)
        && config == old(config) && data16 == old(data16)
      ensures mode & (SPI_CPOL | SPI_CPHA) == 0 && cs >= SPI_SPI_MAX_CS ==>
        && rc == -EINVAL && actual == priorActual && ctrl == old(ctrl) && out == old(out)
        && config == LsbConfig(old(config), mode) && data16 == old(data16)
      ensures mode & (SPI_CPOL | SPI_CPHA) == 0 && cs < SPI_SPI_MAX_CS ==>
        var l := Link(variant, clk, deviceBits);
        var f := FirstFailure(l, msg, |msg|, old(data16));
        && ctrl == CsWord(cs, Asserted(mode, false))
        && rc == (if f < |msg| then OutcomeAt(l, msg, f, old(data16)).rc else 0)
        && (rc == 0 <==> f == |msg|)
        && actual == TotalLength(msg[..f])
        && received == Receipts(l, msg, f, old(data16))
        && out == old(out) + Shipped(l, msg, if f < |msg| then f + 1 else f, old(data16))
        && data16 == WidthAt(l, msg, if f < |msg| then f + 1 else f, old(data16))
        && config == ConfigAt(l, msg, if f < |msg| then f + 1 else f, LsbConfig(old(config), mode))
    {
      received := [];
      actual := priorActual;
      rc := SetMode(mode);
      if rc != 0 {
        return;
      }
      rc := SetCs(cs, mode, true);
      if rc != 0 {
        return;
      }
      var r;
      r, actual, received := RunTransfers(deviceBits, msg);
      rc := SetCs(cs, mode, false);
      if r != 0 {
        rc := r;
      }
    }

    /** The list_for_each_entry loop of mvebu_spi_transfer: run the transfers in order,
        adding up their lengths, and stop at the first that fails, returning its code. */
    method RunTransfers(deviceBits: nat, msg: seq<Transfer>) returns (rc: int, actual: nat, received: seq<seq<Byte>>)
      modifies this`config, this`data16, this`out
      ensures var l := Link(variant, clk, deviceBits);
        var f := FirstFailure(l, msg, |msg|, old(data16));
        && rc == (if f < |msg| then OutcomeAt(l, msg, f, old(data16)).rc else 0)
        && actual == TotalLength(msg[..f])
        && received == Receipts(l, msg, f, old(data16))
        && out == old(out) + Shipped(l, msg, if f < |msg| then f + 1 else f, old(data16))
        && data16 == WidthAt(l, msg, if f < |msg| then f + 1 else f, old(data16))
        && config == ConfigAt(l, msg, if f < |msg| then f + 1 else f, old(config))
    {
      ghost var l, wide, before, cfg := Link(variant, clk, deviceBits), data16, out, config;
      rc, actual, received := 0, 0, [];
      for j := 0 to |msg|
        invariant FirstFailure(l, msg, j, wide) == j
        invariant data16 == WidthAt(l, msg, j, wide)
        invariant actual == TotalLength(msg[..j])
        invariant received == Receipts(l, msg, j, wide)
        invariant out == before + Shipped(l, msg, j, wide)
        invariant config == ConfigAt(l, msg, j, cfg)
      {
        assert l == Link(variant, clk, deviceBits);
        var r, rx := DoTransfer(deviceBits, msg[j]);
        assert config == ConfigAt(l, msg, j + 1, cfg) && data16 == WidthAt(l, msg, j + 1, wide);
        Associative(before, Shipped(l, msg, j, wide), OutcomeAt(l, msg, j, wide).words);
        if r != 0 {
          FailureStays(l, msg, j, |msg|, wide);
          return r, actual, received;
        }
        Progress(l, msg, j, wide);
        actual := actual + msg[j].len;
        received := received + [rx];
      }
      assert msg[..|msg|] == msg;
    }
  }

  /** Appending to an appended sequence appends to its tail. */
  lemma Associative<T>(a: seq<T>, b: seq<T>, c: seq<T>)
    ensures (a + b) + c == a + (b + c)
  {
  }

  /** Setting bits by `|` is clearing them and or-ing them back in. */
  lemma OrIsSet(v: Word, f: Word)
    ensures v | f == (v & !f) | f
  {
  }

  /** The IF_CONFIG value dove_spi_set_baudrate writes for prescaler `rate` and sclk
      exponent `sdiv`: IF_CLK_DIV_MASK and IF_CLK_PRESCALE_MASK cleared, the exponent
      written to IF_CLK_DIV, and then `rate` itself up to 15, or above it POW2 and half of
      `rate` rounded up to even. */
  function DoveSetting(v: Word, rate: nat, sdiv: nat): Word
    requires rate <= MAX_EVEN_SPR && sdiv <= MAX_SDIV
  {
    DoveWord(v, Field(sdiv), if rate > MAX_SPR then IF_CLK_PRESCALE_POW2 else 0, Field(DoveSpr(rate)))
  }

  /** The val of dove_spi_set_baudrate: the divider fields of `v` cleared, the sclk
      exponent `d`, the POW2 bit `pow` and the 4-bit prescaler `p` or-ed in. */
  function DoveWord(v: Word, d: Word, pow: Word, p: Word): Word {
    (v & !(IF_CLK_DIV_MASK | PRESCALE_MASK_AS_WRITTEN)) | (d << 11) | pow | Prescale(p)
  }

  /** Under DoveSetting the controller divides by `rate` (above 15: `rate` rounded up to
      even) times 2^sdiv. */
  lemma DoveSettingDivides(v: Word, rate: nat, sdiv: nat)
    requires rate <= MAX_EVEN_SPR && sdiv <= MAX_SDIV
    ensures var r := DoveSetting(v, rate, sdiv);
      && Sdiv(r) == sdiv
      && PrescaleDivider(r) == (if rate > MAX_SPR then RoundUp(rate, 2) else rate)
      && Divider(Dove, r) == Pow2(sdiv) * (if rate > MAX_SPR then RoundUp(rate, 2) else rate)
  {
    DoveFields(v, Field(sdiv), if rate > MAX_SPR then IF_CLK_PRESCALE_POW2 else 0, Field(DoveSpr(rate)));
  }

  lemma DoveFields(v: Word, d: Word, pow: Word, p: Word)
    requires d < 8 && p < 16 && (pow == 0 || pow == IF_CLK_PRESCALE_POW2)
    ensures var r := DoveWord(v, d, pow, p);
      (r >> 11) & 0x7 == d && r & 0xf == p && (r & IF_CLK_PRESCALE_POW2 != 0) == (pow != 0)
  {
  }

  /** The update keeps every bit outside IF_CLK_DIV_MASK and IF_CLK_PRESCALE_MASK. */
  lemma DoveWordKeeps(v: Word, d: Word, pow: Word, p: Word)
    requires d < 8 && p < 16 && (pow == 0 || pow == IF_CLK_PRESCALE_POW2)
    ensures DoveWord(v, d, pow, p) & !(IF_CLK_DIV_MASK | PRESCALE_MASK_AS_WRITTEN) == v & !(IF_CLK_DIV_MASK | PRESCALE_MASK_AS_WRITTEN)
  {
  }

  /** The 4-bit prescaler written for `rate`: `rate` itself up to 15, above it half of
      `rate` rounded up to even. */
  function DoveSpr(rate: nat): (s: nat)
    requires rate <= MAX_EVEN_SPR
    ensures s <= MAX_SPR
    ensures s * (if rate > MAX_SPR then 2 else 1) == (if rate > MAX_SPR then RoundUp(rate, 2) else rate)
  {
    OrionPrescaler(rate);
    if rate > MAX_SPR then RoundUp(rate, 2) / 2 else rate
  }

  /** Dove's divider covers the ratio when the prescaler covers ratio / 2^sdiv. */
  lemma DoveSettingCovers(v: Word, rate: nat, sdiv: nat, ratio: nat)
    requires rate <= MAX_EVEN_SPR && sdiv <= MAX_SDIV
    requires Covers(rate, Pow2(sdiv), ratio)
    ensures Divider(Dove, DoveSetting(v, rate, sdiv)) >= ratio
  {
    var scaled := if rate > MAX_SPR then RoundUp(rate, 2) else rate;
    DoveSettingDivides(v, rate, sdiv);
    OrionPrescaler(rate);
    MulMono(rate, scaled, Pow2(sdiv));
    assert Pow2(sdiv) * scaled == scaled * Pow2(sdiv);
  }

  /** Armada's search succeeds exactly when the ratio is at most 15 * 2^7. */
  lemma ArmadaRange(pscl: nat, pdiv: nat, ratio: nat)
    requires pdiv <= MAX_SPPR && Covers(pscl, Pow2(pdiv), ratio)
    requires pscl > MAX_SPR ==> pdiv == MAX_SPPR
    ensures pscl <= MAX_SPR <==> ratio <= MaxRatio(Armada)
  {
    MaxRatios();
    Pow2Mono(pdiv, MAX_SPPR);
    assert Pow2(MAX_SPPR) == 128;
    if pscl <= MAX_SPR {
      MulMono(pscl, MAX_SPR, Pow2(pdiv));
    } else {
      MulMono(MAX_SPR, pscl - 1, Pow2(pdiv));
    }
  }

  /** Dove's search succeeds exactly when the ratio is at most 30 * 2^4. */
  lemma DoveRange(rate: nat, sdiv: nat, ratio: nat)
    requires sdiv <= MAX_SDIV + 1 && Covers(rate, Pow2(sdiv), ratio)
    requires rate > MAX_EVEN_SPR ==> sdiv == MAX_SDIV + 1
    requires sdiv > 0 ==> MAX_EVEN_SPR * Pow2(sdiv - 1) < ratio
    ensures rate <= MAX_EVEN_SPR && sdiv <= MAX_SDIV <==> ratio <= MaxRatio(Dove)
  {
    MaxRatios();
    assert Pow2(MAX_SDIV) == 16;
    if sdiv <= MAX_SDIV {
      Pow2Mono(sdiv, MAX_SDIV);
      if rate <= MAX_EVEN_SPR {
        MulMono(rate, MAX_EVEN_SPR, Pow2(sdiv));
      }
    }
  }

  /** The word loop of mvebu_spi_do_transfer: for each word (stepping the byte offset by
      2 in 16-bit mode while it is below len) write the packed tx bytes to DATA_OUT, wait
      for read-ready, where a timeout ends the transfer with -ETIMEDOUT at once, and with
      an rx buffer store the answer low byte first. `words` are the DATA_OUT writes in
      order: up to and including the word that timed out. */
  method ShiftWords(tx: Option<seq<Byte>>, wantRx: bool, len: nat, wide: bool, replies: seq<Option<Word>>)
    returns (rc: int, words: seq<Word>, rx: seq<Byte>)
    ensures var k := WordCount(len, wide);
      var f := Silent(replies, k);
      && words == Sent(tx, wide, if f < k then f + 1 else k)
      && rc == (if f < k then -ETIMEDOUT else 0)
      && rx == (if wantRx then Received(replies, wide, f) else [])
  {
    ghost var k := WordCount(len, wide);
    var inc := if wide then 2 else 1;
    rx, words := [], [];
    var n, i := 0, 0;
    while n < len
      invariant n == Offset(i, wide) && i <= k
      invariant Silent(replies, i) == i
      invariant words == Sent(tx, wide, i)
      invariant wantRx ==> rx == Received(replies, wide, i)
      invariant !wantRx ==> rx == []
      decreases len - n
    {
      words := words + [OutWord(tx, wide, i)];
      var reply := Answer(replies, i);
      if reply.None? {
        SilentStays(replies, i, k);
        return -ETIMEDOUT, words, rx;
      }
      SilentNext(replies, i);
      if wantRx {
        rx := rx + InBytes(reply.value, wide);
      }
      n, i := n + inc, i + 1;
    }
    return 0, words, rx;
  }

  /** Answered words extend the run of answers. */
  lemma SilentNext(replies: seq<Option<Word>>, i: nat)
    requires Silent(replies, i) == i && Answer(replies, i).Some?
    ensures Silent(replies, i + 1) == i + 1
  {
  }

  /** A timeout at word `i` stays the first one however many words follow. */
  lemma {:induction false} SilentStays(replies: seq<Option<Word>>, i: nat, k: nat)
    requires i < k && Silent(replies, i) == i && Answer(replies, i).None?
    ensures Silent(replies, k) == i
    decreases k
  {
    if k > i + 1 {
      SilentStays(replies, i, k - 1);
    }
  }
}
