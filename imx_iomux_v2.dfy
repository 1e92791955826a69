/** The i.MX31 IOMUX controller (drivers/pinctrl/imx-iomux-v2.c): pin multiplexing by
    byte lanes of the SW_MUX_CTL registers, pad configuration by 9-bit fields of the
    SW_PAD_CTL registers, and the general-purpose register GPR. Every operation is a
    read-modify-write of one 32-bit register through the global `base`. */
module ImxIomuxV2 {
  import opened Kernel

  // Register offsets from `base`.
  const IOMUXGPR: nat := 0x008
  const IOMUXSW_MUX_CTL: nat := 0x00C
  const IOMUXSW_PAD_CTL: nat := 0x154

  // Pin-word layout of mach/imx/iomux-mx31.h: pad number in bits 0..8, mode in 17..24.
  const IOMUX_PADNUM_MASK: Word := 0x1ff
  const IOMUX_MODE_SHIFT: nat := 17
  const IOMUX_MODE_MASK: Word := 0x1fe_0000
  /** The pad number without its two lane bits: the byte offset of the mux register. */
  const IOMUX_REG_MASK: Word := 0x1fc

  /** Offset of the mux register of `pinMode`. */
  function MuxOffset(pinMode: Word): (off: nat)
    ensures IOMUXSW_MUX_CTL <= off <= IOMUXSW_MUX_CTL + 0x1fc && (off - IOMUXSW_MUX_CTL) % 4 == 0
  {
    IOMUXSW_MUX_CTL + (pinMode & IOMUX_REG_MASK) as nat
  }

  /** Byte lane of `pinMode` inside its mux register. */
  function Lane(pinMode: Word): (lane: Word)
    ensures lane < 4
  {
    pinMode & 0x3
  }

  /** The mux mode `pinMode` selects. */
  function ModeOf(pinMode: Word): (mode: Word)
    ensures mode < 0x100
  {
    (pinMode & IOMUX_MODE_MASK) >> IOMUX_MODE_SHIFT
  }

  /** The mask of byte lane `lane`. */
  function LaneMask(lane: Word): Word
    requires lane < 4
  {
    0xff << (lane * 8)
  }

  /** `x` moved to byte lane `lane`. */
  function AtLane(x: Word, lane: Word): Word
    requires lane < 4
  {
    x << (lane * 8)
  }

  /** Byte lane `lane` of `v`. */
  function LaneOf(v: Word, lane: Word): Word
    requires lane < 4
  {
    (v >> (lane * 8)) & 0xff
  }

  /** `v` with byte lane `lane` cleared and `mode` or-ed in at that lane. */
  function WithLane(v: Word, lane: Word, mode: Word): Word
    requires lane < 4
  {
    (v & !LaneMask(lane)) | AtLane(mode, lane)
  }

  /** For a mode below 0x100, writing lane `lane` makes that lane the mode and keeps each
      other lane's byte. */
  lemma WithLaneLane(v: Word, lane: Word, mode: Word, m: Word)
    requires lane < 4 && m < 4 && mode < 0x100
    ensures LaneOf(WithLane(v, lane, mode), m) == if m == lane then mode else LaneOf(v, m)
  {
    if lane == 0 {
      WriteLane0(v, lane, mode);
    } else if lane == 1 {
      WriteLane1(v, lane, mode);
    } else if lane == 2 {
      WriteLane2(v, lane, mode);
    } else {
      WriteLane3(v, lane, mode);
    }
    if m == 0 {} else if m == 1 {} else if m == 2 {} else {}
  }

  // One lemma per lane, each about the lane it names; `lane` stays a parameter so that
  // the dispatch above matches their conclusions term for term.

  lemma WriteLane0(v: Word, lane: Word, mode: Word)
    requires lane == 0 && mode < 0x100
    ensures LaneOf(WithLane(v, lane, mode), 0) == mode
    ensures LaneOf(WithLane(v, lane, mode), 1) == LaneOf(v, 1)
    ensures LaneOf(WithLane(v, lane, mode), 2) == LaneOf(v, 2)
    ensures LaneOf(WithLane(v, lane, mode), 3) == LaneOf(v, 3)
  {
  }

  lemma WriteLane1(v: Word, lane: Word, mode: Word)
    requires lane == 1 && mode < 0x100
    ensures LaneOf(WithLane(v, lane, mode), 0) == LaneOf(v, 0)
    ensures LaneOf(WithLane(v, lane, mode), 1) == mode
    ensures LaneOf(WithLane(v, lane, mode), 2) == LaneOf(v, 2)
    ensures LaneOf(WithLane(v, lane, mode), 3) == LaneOf(v, 3)
  {
  }

  lemma WriteLane2(v: Word, lane: Word, mode: Word)
    requires lane == 2 && mode < 0x100
    ensures LaneOf(WithLane(v, lane, mode), 0) == LaneOf(v, 0)
    ensures LaneOf(WithLane(v, lane, mode), 1) == LaneOf(v, 1)
    ensures LaneOf(WithLane(v, lane, mode), 2) == mode
    ensures LaneOf(WithLane(v, lane, mode), 3) == LaneOf(v, 3)
  {
  }

  lemma WriteLane3(v: Word, lane: Word, mode: Word)
    requires lane == 3 && mode < 0x100
    ensures LaneOf(WithLane(v, lane, mode), 0) == LaneOf(v, 0)
    ensures LaneOf(WithLane(v, lane, mode), 1) == LaneOf(v, 1)
    ensures LaneOf(WithLane(v, lane, mode), 2) == LaneOf(v, 2)
    ensures LaneOf(WithLane(v, lane, mode), 3) == mode
  {
  }

  /** A mux register is its four byte lanes. */
  lemma LanesDetermine(v: Word, w: Word)
    requires LaneOf(v, 0) == LaneOf(w, 0) && LaneOf(v, 1) == LaneOf(w, 1)
    requires LaneOf(v, 2) == LaneOf(w, 2) && LaneOf(v, 3) == LaneOf(w, 3)
    ensures v == w
  {
  }

  /** Writes to two different lanes of one register can be made in either order. */
  lemma LanesCommute(v: Word, a: Word, x: Word, b: Word, y: Word)
    requires a < 4 && b < 4 && a != b && x < 0x100 && y < 0x100
    ensures WithLane(WithLane(v, a, x), b, y) == WithLane(WithLane(v, b, y), a, x)
  {
    CommuteAt(v, a, x, b, y, 0);
    CommuteAt(v, a, x, b, y, 1);
    CommuteAt(v, a, x, b, y, 2);
    CommuteAt(v, a, x, b, y, 3);
    LanesDetermine(WithLane(WithLane(v, a, x), b, y), WithLane(WithLane(v, b, y), a, x));
  }

  lemma CommuteAt(v: Word, a: Word, x: Word, b: Word, y: Word, m: Word)
    requires a < 4 && b < 4 && a != b && x < 0x100 && y < 0x100 && m < 4
    ensures LaneOf(WithLane(WithLane(v, a, x), b, y), m) == LaneOf(WithLane(WithLane(v, b, y), a, x), m)
  {
    WithLaneLane(v, a, x, m);
    WithLaneLane(WithLane(v, a, x), b, y, m);
    WithLaneLane(v, b, y, m);
    WithLaneLane(WithLane(v, b, y), a, x, m);
  }

  /** Offset of the pad control register of pad `pin`: three pads per register, pad 1
      starting at field 0 of the first one. */
  function PadOffset(pin: Word): (off: nat)
    ensures IOMUXSW_PAD_CTL <= off && (off - IOMUXSW_PAD_CTL) % 4 == 0
  {
    IOMUXSW_PAD_CTL + ((pin & IOMUX_PADNUM_MASK) as nat + 2) / 3 * 4
  }

  /** Field of pad `pin` inside its pad control register. */
  function PadField(pin: Word): (f: Word)
    ensures f < 3
  {
    ((pin & IOMUX_PADNUM_MASK) + 2) % 3
  }

  /** The mask of the 9-bit pad field `f`. */
  function FieldMask(f: Word): Word
    requires f < 3
  {
    0x1ff << (f * 10)
  }

  /** `x` moved to pad field `f`. */
  function AtField(x: Word, f: Word): Word
    requires f < 3
  {
    x << (f * 10)
  }

  /** Pad field `f` of `v`. */
  function FieldOf(v: Word, f: Word): Word
    requires f < 3
  {
    (v >> (f * 10)) & 0x1ff
  }

  /** `v` with pad field `f` cleared and `config` or-ed in at that field. */
  function WithPadField(v: Word, f: Word, config: Word): Word
    requires f < 3
  {
    (v & !FieldMask(f)) | AtField(config, f)
  }

  /** For a config below 0x200 the pad field becomes `config` and no bit outside it
      changes. */
  lemma PadFieldFacts(v: Word, f: Word, config: Word)
    requires f < 3 && config < 0x200
    ensures FieldOf(WithPadField(v, f, config), f) == config
    ensures WithPadField(v, f, config) & !FieldMask(f) == v & !FieldMask(f)
  {
    if f == 0 {
      WriteField0(v, f, config);
    } else if f == 1 {
      WriteField1(v, f, config);
    } else {
      WriteField2(v, f, config);
    }
  }

  lemma WriteField0(v: Word, f: Word, config: Word)
    requires f == 0 && config < 0x200
    ensures FieldOf(WithPadField(v, f, config), f) == config
    ensures WithPadField(v, f, config) & !FieldMask(f) == v & !FieldMask(f)
  {
  }

  lemma WriteField1(v: Word, f: Word, config: Word)
    requires f == 1 && config < 0x200
    ensures FieldOf(WithPadField(v, f, config), f) == config
    ensures WithPadField(v, f, config) & !FieldMask(f) == v & !FieldMask(f)
  {
  }

  lemma WriteField2(v: Word, f: Word, config: Word)
    requires f == 2 && config < 0x200
    ensures FieldOf(WithPadField(v, f, config), f) == config
    ensures WithPadField(v, f, config) & !FieldMask(f) == v & !FieldMask(f)
  {
  }

  /** A config of 0x200 or more is not masked: its high bits land above the field. */
  lemma PadConfigSpills(v: Word, f: Word)
    requires f == 0
    ensures WithPadField(v, f, 0x200) & 0x200 == 0x200
  {
  }

  /** Setting or clearing the same general-purpose bits twice is setting them once. */
  lemma GprIdempotent(v: Word, gp: Word, en: bool)
    ensures WithBits(WithBits(v, gp, en), gp, en) == WithBits(v, gp, en)
  {
  }

  /** The source's `l |= gp` and `l &= ~gp` are the two cases of the GPR update. */
  lemma GprForms(l: Word, gp: Word)
    ensures l | gp == WithBits(l, gp, true)
    ensures l & !gp == WithBits(l, gp, false)
  {
  }

  /** The register at `off`; a register never written reads as 0. */
  function Get(regs: map<nat, Word>, off: nat): Word {
    if off in regs then regs[off] else 0
  }

  /** The register file after imx_iomux_mode(pinMode) with `base` set. */
  function ModeWrite(regs: map<nat, Word>, pinMode: Word): map<nat, Word> {
    regs[MuxOffset(pinMode) := WithLane(Get(regs, MuxOffset(pinMode)), Lane(pinMode), ModeOf(pinMode))]
  }

  /** The register file after imx_iomux_mode has been applied to `pins` in order. */
  function Muxed(regs: map<nat, Word>, pins: seq<Word>): map<nat, Word> {
    if pins == [] then regs else ModeWrite(Muxed(regs, pins[..|pins| - 1]), pins[|pins| - 1])
  }

  /** Whether a pin word addresses lane `lane` of the mux register at `off`. */
  predicate Addresses(pinMode: Word, off: nat, lane: Word) {
    MuxOffset(pinMode) == off && Lane(pinMode) == lane
  }

  /** imx_iomux_mode sets the lane it addresses to its mode and keeps every other lane of
      every register. */
  lemma ModeWriteEffect(regs: map<nat, Word>, pinMode: Word, off: nat, lane: Word)
    requires lane < 4
    ensures Addresses(pinMode, off, lane) ==> LaneOf(Get(ModeWrite(regs, pinMode), off), lane) == ModeOf(pinMode)
    ensures !Addresses(pinMode, off, lane) ==>
      LaneOf(Get(ModeWrite(regs, pinMode), off), lane) == LaneOf(Get(regs, off), lane)
  {
    if MuxOffset(pinMode) == off {
      WithLaneLane(Get(regs, off), Lane(pinMode), ModeOf(pinMode), lane);
    }
  }

  /** After setup_multiple_pins, a lane that no pin of the list addresses is as before. */
  lemma {:induction false} MuxedLanes(regs: map<nat, Word>, pins: seq<Word>, off: nat, lane: Word)
    requires lane < 4
    ensures (forall i :: 0 <= i < |pins| ==> !Addresses(pins[i], off, lane)) ==>
      LaneOf(Get(Muxed(regs, pins), off), lane) == LaneOf(Get(regs, off), lane)
  {
    if pins != [] {
      var init := pins[..|pins| - 1];
      MuxedLanes(regs, init, off, lane);
      ModeWriteEffect(Muxed(regs, init), pins[|pins| - 1], off, lane);
      if forall i :: 0 <= i < |pins| ==> !Addresses(pins[i], off, lane) {
        assert forall i :: 0 <= i < |init| ==> !Addresses(init[i], off, lane) by {
          forall i | 0 <= i < |init|
            ensures !Addresses(init[i], off, lane)
          {
            assert init[i] == pins[i];
          }
        }
      }
    }
  }

  /** After setup_multiple_pins, a lane holds the mode of the last pin of the list that
      addresses it. */
  lemma {:induction false} LastPinWins(regs: map<nat, Word>, pins: seq<Word>, off: nat, lane: Word, j: nat)
    requires lane < 4 && j < |pins| && Addresses(pins[j], off, lane)
    requires forall i :: j < i < |pins| ==> !Addresses(pins[i], off, lane)
    ensures LaneOf(Get(Muxed(regs, pins), off), lane) == ModeOf(pins[j])
  {
    var init := pins[..|pins| - 1];
    ModeWriteEffect(Muxed(regs, init), pins[|pins| - 1], off, lane);
    if j < |pins| - 1 {
      assert init[j] == pins[j];
      assert forall i :: j < i < |init| ==> init[i] == pins[i];
      LastPinWins(regs, init, off, lane, j);
    }
  }

  /** Two pins addressing different lanes can be set in either order. */
  lemma ModesCommute(regs: map<nat, Word>, p: Word, q: Word)
    requires MuxOffset(p) != MuxOffset(q) || Lane(p) != Lane(q)
    ensures ModeWrite(ModeWrite(regs, p), q) == ModeWrite(ModeWrite(regs, q), p)
  {
    var op, oq := MuxOffset(p), MuxOffset(q);
    var wp := WithLane(Get(regs, op), Lane(p), ModeOf(p));
    var wq := WithLane(Get(regs, oq), Lane(q), ModeOf(q));
    if op == oq {
      var pq := WithLane(wp, Lane(q), ModeOf(q));
      var qp := WithLane(wq, Lane(p), ModeOf(p));
      LanesCommute(Get(regs, op), Lane(p), ModeOf(p), Lane(q), ModeOf(q));
      UpdateTwice(regs, op, wp, pq);
      UpdateTwice(regs, op, wq, qp);
    } else {
      UpdateSwap(regs, op, oq, wp, wq);
    }
  }

  lemma UpdateTwice(regs: map<nat, Word>, off: nat, w: Word, w': Word)
    ensures Get(regs[off := w], off) == w
    ensures regs[off := w][off := w'] == regs[off := w']
  {
  }

  lemma UpdateSwap(regs: map<nat, Word>, a: nat, b: nat, x: Word, y: Word)
    requires a != b
    ensures Get(regs[a := x], b) == Get(regs, b) && Get(regs[b := y], a) == Get(regs, a)
    ensures regs[a := x][b := y] == regs[b := y][a := x]
  {
  }

  /** The IOMUX controller: `mapped` is whether probe has set `base`; `regs` is the
      register file, indexed by byte offset from `base`. */
  class Iomux {
    var mapped: bool
    var regs: map<nat, Word>

    constructor (mapped: bool, regs: map<nat, Word>)
      ensures this.mapped == mapped && this.regs == regs
    {
      this.mapped := mapped;
      this.regs := regs;
    }

    /** imx_iomux_mode: without `base` it fails with -EINVAL and touches nothing;
        otherwise it replaces the pin's byte lane of its mux register with the pin's mode
        and returns 0. */
    method Mode(pinMode: Word) returns (rc: int)
      modifies this`regs
      ensures !mapped ==> rc == -EINVAL && regs == old(regs)
      ensures mapped ==> rc == 0 && regs == ModeWrite(old(regs), pinMode)
    {
      if !mapped {
        return -EINVAL;
      }
      var reg := MuxOffset(pinMode);
      var field := Lane(pinMode);
      var mode := ModeOf(pinMode);
      regs := regs[reg := WithLane(Get(regs, reg), field, mode)];
      return 0;
    }

    /** imx_iomux_set_pad: with `base` set, replace the pad's 9-bit field of its pad
        control register with `config`; without it, do nothing. */
    method SetPad(pin: Word, config: Word)
      modifies this`regs
      ensures !mapped ==> regs == old(regs)
      ensures mapped ==>
        regs == old(regs)[PadOffset(pin) := WithPadField(Get(old(regs), PadOffset(pin)), PadField(pin), config)]
    {
      if !mapped {
        return;
      }
      var reg := PadOffset(pin);
      var field := PadField(pin);
      regs := regs[reg := WithPadField(Get(regs, reg), field, config)];
    }

    /** imx_iomux_set_gpr: with `base` set, set the `gp` bits of GPR when `en` and clear
        them otherwise; without it, do nothing. */
    method SetGpr(gp: Word, en: bool)
      modifies this`regs
      ensures !mapped ==> regs == old(regs)
      ensures mapped ==> regs == old(regs)[IOMUXGPR := WithBits(Get(old(regs), IOMUXGPR), gp, en)]
    {
      if !mapped {
        return;
      }
      var l := Get(regs, IOMUXGPR);
      GprForms(l, gp);
      if en {
        l := l | gp;
      } else {
        l := l & !gp;
      }
      regs := regs[IOMUXGPR := l];
    }

    /** imx_iomux_setup_multiple_pins: imx_iomux_mode on each pin of the list in order,
        ignoring its result; always 0. */
    method SetupMultiplePins(pins: seq<Word>) returns (rc: int)
      modifies this`regs
      ensures rc == 0
      ensures !mapped ==> regs == old(regs)
      ensures mapped ==> regs == Muxed(old(regs), pins)
    {
      for i := 0 to |pins|
        invariant !mapped ==> regs == old(regs)
        invariant mapped ==> regs == Muxed(old(regs), pins[..i])
      {
        var _ := Mode(pins[i]);
        assert pins[..i + 1][..i] == pins[..i];
      }
      assert pins[..|pins|] == pins;
      return 0;
    }
  }
}
