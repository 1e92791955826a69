/** The Freescale DryIce security/tamper monitor behind the i.MX25 real-time clock:
    state classification, the four recovery procedures, the synchronous
    write-completion protocol and the time/NVRAM accessors.

    The unit is a log of every bus write in order (`Unit.writes`); the register bank
    (offset -> word) is the initial bank after those writes (`Unit.Bank`). The status
    register DSR and the control register DCR, which the hardware changes on its own,
    are read from injected snapshot sequences (`Hw`); once a sequence is used up its
    last snapshot repeats. The time counter DTCMR also advances on its own once enabled;
    the model treats it as storage, so a read returns the last seconds value written
    (or the initial one) and "the seconds are kept" means no procedure writes them.
    Every procedure is specified by a pure function returning an `Outcome` (its return
    code, the writes it issues, how many DSR/DCR reads it makes and which power-cycle
    advice it gives); the lemmas below state what those outcomes guarantee. */
module DryIce {
  import opened Kernel

  // ---------------------------------------------------------------------------
  // Register map

  const DTCMR: nat := 0x00  // time counter, seconds
  const DTCLR: nat := 0x04  // time counter, fraction
  const DCAMR: nat := 0x08  // clock alarm, seconds
  const DCALR: nat := 0x0c  // clock alarm, fraction
  const DCR: nat := 0x10    // control
  const DSR: nat := 0x14    // status
  const DIER: nat := 0x18   // interrupt enable
  const DMCR: nat := 0x1c   // monotonic counter
  const DTCR: nat := 0x28   // tamper configuration
  const DGPR: nat := 0x3c   // general purpose (the NVRAM word)

  /** The alarm value that never fires. */
  const DCAMR_UNSET: Word := 0xFFFF_FFFF

  const DCR_TDCHL: Word := 0x4000_0000  // tamper configuration hard lock
  const DCR_TDCSL: Word := 0x2000_0000  // tamper configuration soft lock
  const DCR_KSSL: Word := 0x0800_0000
  const DCR_MCHL: Word := 0x0010_0000
  const DCR_MCSL: Word := 0x0008_0000
  const DCR_TCHL: Word := 0x0004_0000   // time counter hard lock
  const DCR_TCSL: Word := 0x0002_0000   // time counter soft lock
  const DCR_FSHL: Word := 0x0001_0000   // failure state hard lock
  const DCR_TCE: Word := 0x0000_0008     // time counter enable
  const DCR_MCE: Word := 0x0000_0004

  const DSR_WTD: Word := 0x0080_0000
  const DSR_ETBD: Word := 0x0040_0000
  const DSR_ETAD: Word := 0x0020_0000
  const DSR_EBD: Word := 0x0010_0000
  const DSR_SAD: Word := 0x0008_0000
  const DSR_TTD: Word := 0x0004_0000
  const DSR_CTD: Word := 0x0002_0000
  const DSR_VTD: Word := 0x0001_0000
  const DSR_WBF: Word := 0x0000_0400
  const DSR_WNF: Word := 0x0000_0200
  const DSR_WCF: Word := 0x0000_0100     // write complete
  const DSR_WEF: Word := 0x0000_0080     // write error
  const DSR_CAF: Word := 0x0000_0010     // clock alarm
  const DSR_MCO: Word := 0x0000_0008
  const DSR_TCO: Word := 0x0000_0004     // time counter overflow
  const DSR_NVF: Word := 0x0000_0002     // non-valid
  const DSR_SVF: Word := 0x0000_0001     // security violation

  /** The status bits of the tamper sources and overflows, whose detection put the unit
      into the failure state. */
  const DSR_TAMPER: Word := 0x00FF_000C  // WTD ETBD ETAD EBD SAD TTD CTD VTD MCO TCO

  /** How many times `clear_write_error` re-reads DSR before giving up. */
  const CLEAR_POLLS: nat := 1000

  // ---------------------------------------------------------------------------
  // Values

  /** One bus write: `writel(val, ioaddr + reg)`. */
  datatype Write = Write(reg: nat, val: Word)

  /** The persistent hardware state, from the NVF and SVF status bits. */
  datatype State = Valid | Invalid | Failure | InvalidAndFailure

  /** The physical action a failed recovery asks the operator for. */
  datatype Advice = NoAdvice | CycleBattery | CycleMain

  /** A non-empty sequence of register snapshots, read front to back. */
  type Feed = s: seq<Word> | |s| > 0 witness [0]

  /** What the hardware answers to successive reads of DSR and of DCR. */
  datatype Hw = Hw(status: Feed, control: Feed)

  /** Indices of the next DSR read and of the next DCR read. */
  datatype Cursor = Cursor(sp: nat, cp: nat)

  /** The observable effect of one procedure. */
  datatype Outcome = Outcome(rc: int, writes: seq<Write>, next: Cursor, advice: Advice)

  /** Result of waiting for a synchronous write. */
  datatype PollResult = Completed | WriteFailed | TimedOut

  /** The i-th snapshot of a feed; the last one repeats once the feed is used up. */
  function At(f: Feed, i: nat): Word {
    if i < |f| then f[i] else f[|f| - 1]
  }

  /** The content of register `reg` in bank `m` (an absent register reads as zero). */
  function Get(m: map<nat, Word>, reg: nat): Word {
    if reg in m then m[reg] else 0
  }

  /** The bank after the writes `ws`, issued in order. */
  function Apply(m: map<nat, Word>, ws: seq<Write>): map<nat, Word>
    decreases |ws|
  {
    if ws == [] then m
    else
      var w := ws[|ws| - 1];
      Apply(m, ws[..|ws| - 1])[w.reg := w.val]
  }

  // ---------------------------------------------------------------------------
  // Facts about the register bank

  lemma ApplySnoc(m: map<nat, Word>, ws: seq<Write>, w: Write)
    ensures Apply(m, ws + [w]) == Apply(m, ws)[w.reg := w.val]
  {
    assert (ws + [w])[..|ws|] == ws;
  }

  /** Issuing two batches of writes one after the other is issuing their concatenation. */
  lemma {:induction false} ApplyAppend(m: map<nat, Word>, a: seq<Write>, b: seq<Write>)
    ensures Apply(m, a + b) == Apply(Apply(m, a), b)
    decreases |b|
  {
    if b == [] {
      assert a + b == a;
    } else {
      var w := b[|b| - 1];
      var b' := b[..|b| - 1];
      assert a + b == (a + b') + [w];
      assert b == b' + [w];
      ApplyAppend(m, a, b');
      ApplySnoc(m, a + b', w);
      ApplySnoc(Apply(m, a), b', w);
    }
  }

  /** Writes to other registers leave `reg` as it was. */
  lemma {:induction false} ApplyUntouched(m: map<nat, Word>, ws: seq<Write>, reg: nat)
    requires forall i :: 0 <= i < |ws| ==> ws[i].reg != reg
    ensures Get(Apply(m, ws), reg) == Get(m, reg)
    decreases |ws|
  {
    if ws != [] {
      ApplyUntouched(m, ws[..|ws| - 1], reg);
    }
  }

  /** The last write to `reg` decides its content, whatever comes after it elsewhere. */
  lemma LastWriteWins(m: map<nat, Word>, pre: seq<Write>, w: Write, post: seq<Write>)
    requires forall i :: 0 <= i < |post| ==> post[i].reg != w.reg
    ensures Get(Apply(m, pre + [w] + post), w.reg) == w.val
  {
    ApplyAppend(m, pre + [w], post);
    ApplyUntouched(Apply(m, pre + [w]), post, w.reg);
    ApplySnoc(m, pre, w);
  }

  // ---------------------------------------------------------------------------
  // State classification (di_handle_state)

  /** The unit's state from one DSR snapshot: only NVF and SVF matter. */
  function Classify(dsr: Word): (s: State)
    ensures s == Valid <==> dsr & DSR_NVF == 0 && dsr & DSR_SVF == 0
    ensures s == Invalid <==> dsr & DSR_NVF != 0 && dsr & DSR_SVF == 0
    ensures s == Failure <==> dsr & DSR_NVF == 0 && dsr & DSR_SVF != 0
    ensures s == InvalidAndFailure <==> dsr & DSR_NVF != 0 && dsr & DSR_SVF != 0
  {
    var bits := dsr & (DSR_NVF | DSR_SVF);
    if bits == DSR_NVF then Invalid
    else if bits == DSR_SVF then Failure
    else if bits == DSR_NVF | DSR_SVF then InvalidAndFailure
    else Valid
  }

  /** Two snapshots that agree on NVF and SVF classify alike. */
  lemma ClassifyIgnoresOtherBits(a: Word, b: Word)
    requires a & (DSR_NVF | DSR_SVF) == b & (DSR_NVF | DSR_SVF)
    ensures Classify(a) == Classify(b)
  {
    assert a & DSR_NVF == (a & (DSR_NVF | DSR_SVF)) & DSR_NVF;
    assert b & DSR_NVF == (b & (DSR_NVF | DSR_SVF)) & DSR_NVF;
    assert a & DSR_SVF == (a & (DSR_NVF | DSR_SVF)) & DSR_SVF;
    assert b & DSR_SVF == (b & (DSR_NVF | DSR_SVF)) & DSR_SVF;
  }

  // ---------------------------------------------------------------------------
  // Specification of the recovery procedures

  /** Writes of di_handle_valid_state: disarm the alarm, acknowledge a pending alarm. */
  function ValidWrites(dsr: Word): seq<Write> {
    [Write(DCAMR, DCAMR_UNSET), Write(DCALR, 0)] +
    (if dsr & DSR_CAF != 0 then [Write(DSR, DSR_CAF)] else [])
  }

  /** di_handle_failure_state: one DCR read, never a write, always -ENODEV. */
  function FailureSpec(hw: Hw, c: Cursor): Outcome {
    var dcr := At(hw.control, c.cp);
    Outcome(-ENODEV, [], Cursor(c.sp, c.cp + 1),
            if dcr & DCR_FSHL != 0 then CycleBattery else CycleMain)
  }

  /** The time counter is stopped and may not be changed. */
  predicate CounterLocked(dcr: Word) {
    dcr & DCR_TCE == 0 && (dcr & DCR_TCHL != 0 || dcr & DCR_TCSL != 0)
  }

  /** Writes di_handle_invalid_state issues before it looks at anything. */
  function InvalidPrologue(): seq<Write> {
    [Write(DTCR, 0), Write(DCR, DCR_TDCSL)]
  }

  /** Writes with which di_handle_invalid_state restarts a counter that may run: clear
      NVF, then TCO, enable the counter, write the saved seconds back. */
  function Revive(dcr: Word, sec: Word): seq<Write> {
    [Write(DSR, DSR_NVF), Write(DSR, DSR_TCO), Write(DCR, dcr | DCR_TCE), Write(DTCMR, sec)]
  }

  /** di_handle_invalid_state, entered with `sec` in the seconds register. */
  function InvalidSpec(hw: Hw, c: Cursor, sec: Word): Outcome {
    var dcr := At(hw.control, c.cp);
    if CounterLocked(dcr) then
      Outcome(-ENODEV, InvalidPrologue(), Cursor(c.sp, c.cp + 1),
              if dcr & DCR_TCHL != 0 then CycleBattery else CycleMain)
    else
      Outcome(0, InvalidPrologue() + Revive(dcr, sec) + ValidWrites(At(hw.status, c.sp)),
              Cursor(c.sp + 1, c.cp + 1), NoAdvice)
  }

  /** Writes di_handle_invalid_and_failure_state issues once the tamper sources may be
      changed: disable them, acknowledge their flags, then try to clear SVF. */
  function Cleanup(dsr: Word): seq<Write> {
    [Write(DTCR, 0), Write(DSR, dsr & DSR_TAMPER), Write(DSR, DSR_SVF)]
  }

  /** di_handle_invalid_and_failure_state, entered with the DSR snapshot `dsr`. */
  function InvalidAndFailureSpec(hw: Hw, c: Cursor, sec: Word, dsr: Word): Outcome {
    var tampered := dsr & DSR_TAMPER != 0;
    var dcr := At(hw.control, c.cp);
    if tampered && dcr & DCR_TDCHL != 0 then
      Outcome(-ENODEV, [], Cursor(c.sp, c.cp + 1), CycleBattery)
    else if tampered && dcr & DCR_TDCSL != 0 then
      Outcome(-ENODEV, [], Cursor(c.sp, c.cp + 1), CycleMain)
    else
      ScrubSpec(hw, Cursor(c.sp, if tampered then c.cp + 1 else c.cp), sec, dsr)
  }

  /** The part of di_handle_invalid_and_failure_state after the lock check: the cleanup
      writes, then SVF must read clear for the invalid-state handler to run. DSR is read
      twice: once for the leftover-source warning, once to check SVF. */
  function ScrubSpec(hw: Hw, c: Cursor, sec: Word, dsr: Word): Outcome {
    if At(hw.status, c.sp + 1) & DSR_SVF != 0 then
      Outcome(-ENODEV, Cleanup(dsr), Cursor(c.sp + 2, c.cp), CycleBattery)
    else
      var inv := InvalidSpec(hw, Cursor(c.sp + 2, c.cp), sec);
      Outcome(inv.rc, Cleanup(dsr) + inv.writes, inv.next, inv.advice)
  }

  /** di_handle_state: one DSR read, then exactly the handler of its class. */
  function StateSpec(hw: Hw, c: Cursor, sec: Word): Outcome {
    var dsr := At(hw.status, c.sp);
    var c1 := Cursor(c.sp + 1, c.cp);
    match Classify(dsr)
    case Valid => Outcome(0, ValidWrites(dsr), c1, NoAdvice)
    case Invalid => InvalidSpec(hw, c1, sec)
    case Failure => FailureSpec(hw, c1)
    case InvalidAndFailure => InvalidAndFailureSpec(hw, c1, sec, dsr)
  }

  // ---------------------------------------------------------------------------
  // Properties of the recovery procedures

  /** The invalid-state prologue leaves the seconds alone. */
  lemma PrologueKeepsSeconds(m: map<nat, Word>, w0: seq<Write>)
    ensures Get(Apply(m, w0 + InvalidPrologue()), DTCMR) == Get(Apply(m, w0), DTCMR)
  {
    ApplyUntouched(Apply(m, w0), InvalidPrologue(), DTCMR);
    ApplyAppend(m, w0, InvalidPrologue());
  }

  /** The tamper cleanup leaves the seconds alone. */
  lemma CleanupKeepsSeconds(m: map<nat, Word>, w0: seq<Write>, dsr: Word)
    ensures Get(Apply(m, w0 + Cleanup(dsr)), DTCMR) == Get(Apply(m, w0), DTCMR)
  {
    ApplyUntouched(Apply(m, w0), Cleanup(dsr), DTCMR);
    ApplyAppend(m, w0, Cleanup(dsr));
  }

  /** Writing `a` and then `b`. */
  lemma ApplyPair(m: map<nat, Word>, a: Write, b: Write)
    ensures Apply(m, [a, b]) == m[a.reg := a.val][b.reg := b.val]
  {
    ApplySnoc(m, [a], b);
    ApplySnoc(m, [], a);
    assert [] + [a] == [a];
    assert [a] + [b] == [a, b];
  }

  /** The valid-state handler always disarms the alarm, whatever the bank held, and
      acknowledges the alarm flag exactly when the snapshot shows it; it writes no
      other register. */
  lemma ValidDisarmsAlarm(m: map<nat, Word>, dsr: Word)
    ensures Get(Apply(m, ValidWrites(dsr)), DCAMR) == DCAMR_UNSET
    ensures Get(Apply(m, ValidWrites(dsr)), DCALR) == 0
    ensures Write(DSR, DSR_CAF) in ValidWrites(dsr) <==> dsr & DSR_CAF != 0
    ensures forall i :: 0 <= i < |ValidWrites(dsr)| ==> ValidWrites(dsr)[i].reg in {DCAMR, DCALR, DSR}
  {
    var pair := [Write(DCAMR, DCAMR_UNSET), Write(DCALR, 0)];
    var tail := if dsr & DSR_CAF != 0 then [Write(DSR, DSR_CAF)] else [];
    ApplyAppend(m, pair, tail);
    ApplyPair(m, pair[0], pair[1]);
    ApplyUntouched(Apply(m, pair), tail, DCAMR);
    ApplyUntouched(Apply(m, pair), tail, DCALR);
  }

  /** The restart writes enable the counter, restore the seconds and leave the tamper
      configuration alone. */
  lemma ReviveEffect(m: map<nat, Word>, dcr: Word, sec: Word)
    ensures Get(Apply(m, Revive(dcr, sec)), DCR) == dcr | DCR_TCE
    ensures Get(Apply(m, Revive(dcr, sec)), DTCMR) == sec
    ensures Get(Apply(m, Revive(dcr, sec)), DTCR) == Get(m, DTCR)
  {
    var r := Revive(dcr, sec);
    assert r == [r[0], r[1]] + [r[2], r[3]];
    ApplyAppend(m, [r[0], r[1]], [r[2], r[3]]);
    ApplyPair(m, r[0], r[1]);
    ApplyPair(Apply(m, [r[0], r[1]]), r[2], r[3]);
  }

  /** The failure-state handler never writes and always fails; it asks for a battery
      cycle exactly when the failure state is hard-locked (DCR_FSHL). */
  lemma FailureIsInert(hw: Hw, c: Cursor)
    ensures FailureSpec(hw, c).writes == [] && FailureSpec(hw, c).rc == -ENODEV
    ensures FailureSpec(hw, c).advice == CycleBattery <==> At(hw.control, c.cp) & DCR_FSHL != 0
    ensures FailureSpec(hw, c).advice != NoAdvice
  {
  }

  /** di_handle_invalid_state: the tamper sources are disabled and soft-locked before
      any check; it fails exactly when the re-read DCR shows a stopped, locked counter,
      and then it never enables the counter. On success it clears NVF, then TCO, enables
      the counter, writes the old seconds back and ends as the valid handler does. */
  lemma InvalidRecovery(hw: Hw, c: Cursor, sec: Word)
    ensures var o := InvalidSpec(hw, c, sec);
      && o.writes[..2] == [Write(DTCR, 0), Write(DCR, DCR_TDCSL)]
      && (o.rc == -ENODEV <==> CounterLocked(At(hw.control, c.cp)))
      && (o.rc == -ENODEV ==> forall w :: w in o.writes && w.reg == DCR ==> w.val & DCR_TCE == 0)
      && (o.rc != -ENODEV ==> o.rc == 0)
      && (o.rc == 0 ==>
            && o.writes[2..6] == [Write(DSR, DSR_NVF), Write(DSR, DSR_TCO),
                                  Write(DCR, At(hw.control, c.cp) | DCR_TCE), Write(DTCMR, sec)]
            && o.writes[6..] == ValidWrites(At(hw.status, c.sp)))
  {
  }

  /** After a successful invalid-state recovery the tamper configuration is zero, the
      counter is enabled, the seconds count is what it was and the alarm is disarmed. */
  lemma InvalidRecoveryEffect(hw: Hw, c: Cursor, regs: map<nat, Word>)
    requires InvalidSpec(hw, c, Get(regs, DTCMR)).rc == 0
    ensures var after := Apply(regs, InvalidSpec(hw, c, Get(regs, DTCMR)).writes);
      && Get(after, DTCR) == 0
      && Get(after, DCR) & DCR_TCE != 0
      && Get(after, DTCMR) == Get(regs, DTCMR)
      && Get(after, DCAMR) == DCAMR_UNSET
      && Get(after, DCALR) == 0
  {
    var dcr := At(hw.control, c.cp);
    RestartEffect(regs, dcr, At(hw.status, c.sp));
    EnableBit(dcr);
  }

  lemma EnableBit(dcr: Word)
    ensures (dcr | DCR_TCE) & DCR_TCE != 0
  {
  }

  /** The writes of a successful invalid-state recovery, applied to any bank: tamper
      configuration zero, the counter's control word written back with TCE, the seconds
      as they were and the alarm disarmed. */
  lemma RestartEffect(regs: map<nat, Word>, dcr: Word, dsr: Word)
    ensures var after := Apply(regs, InvalidPrologue() + Revive(dcr, Get(regs, DTCMR)) + ValidWrites(dsr));
      && Get(after, DTCR) == 0
      && Get(after, DCR) == dcr | DCR_TCE
      && Get(after, DTCMR) == Get(regs, DTCMR)
      && Get(after, DCAMR) == DCAMR_UNSET
      && Get(after, DCALR) == 0
  {
    var w := InvalidPrologue() + Revive(dcr, Get(regs, DTCMR));
    var m2 := Apply(regs, w);
    RevivedBank(regs, dcr);
    ApplyAppend(regs, w, ValidWrites(dsr));
    ValidDisarmsAlarm(m2, dsr);
    ApplyUntouched(m2, ValidWrites(dsr), DTCR);
    ApplyUntouched(m2, ValidWrites(dsr), DCR);
    ApplyUntouched(m2, ValidWrites(dsr), DTCMR);
  }

  /** The prologue and the restart writes of di_handle_invalid_state, applied to any bank. */
  lemma RevivedBank(regs: map<nat, Word>, dcr: Word)
    ensures var after := Apply(regs, InvalidPrologue() + Revive(dcr, Get(regs, DTCMR)));
      && Get(after, DTCR) == 0
      && Get(after, DCR) == dcr | DCR_TCE
      && Get(after, DTCMR) == Get(regs, DTCMR)
  {
    var sec := Get(regs, DTCMR);
    var p := InvalidPrologue();
    var m1 := Apply(regs, p);
    ApplyPair(regs, p[0], p[1]);
    ReviveEffect(m1, dcr, sec);
    ApplyAppend(regs, p, Revive(dcr, sec));
  }

  /** di_handle_invalid_and_failure_state: with a tamper flag raised and the tamper
      configuration locked it fails without a single write; otherwise it disables the
      sources, acknowledges exactly the raised tamper flags, tries to clear SVF, fails if
      SVF is still set, and else continues as the invalid-state handler. */
  lemma InvalidAndFailureRecovery(hw: Hw, c: Cursor, sec: Word, dsr: Word)
    ensures var o := InvalidAndFailureSpec(hw, c, sec, dsr);
      var dcr := At(hw.control, c.cp);
      var locked := dsr & DSR_TAMPER != 0 && (dcr & DCR_TDCHL != 0 || dcr & DCR_TDCSL != 0);
      && (locked ==> o.rc == -ENODEV && o.writes == [] &&
                     (o.advice == CycleBattery <==> dcr & DCR_TDCHL != 0))
      && (!locked ==> o.writes[..3] == [Write(DTCR, 0), Write(DSR, dsr & DSR_TAMPER), Write(DSR, DSR_SVF)])
      && (!locked && At(hw.status, c.sp + 1) & DSR_SVF != 0 ==>
            o.rc == -ENODEV && o.writes == Cleanup(dsr) && o.advice == CycleBattery)
      && (!locked && At(hw.status, c.sp + 1) & DSR_SVF == 0 ==>
            var cp := if dsr & DSR_TAMPER != 0 then c.cp + 1 else c.cp;
            var inv := InvalidSpec(hw, Cursor(c.sp + 2, cp), sec);
            o.rc == inv.rc && o.writes[3..] == inv.writes)
  {
  }

  /** The acknowledgement written to DSR holds exactly the raised tamper-class flags. */
  lemma TamperAcknowledgement(dsr: Word)
    ensures (dsr & DSR_TAMPER) & DSR_TAMPER == dsr & DSR_TAMPER
    ensures (dsr & DSR_TAMPER) & !DSR_TAMPER == 0
    ensures (dsr & DSR_TAMPER) & (DSR_NVF | DSR_SVF | DSR_WCF | DSR_WEF | DSR_CAF) == 0
  {
  }

  /** Every successful recovery, whichever state it started in, leaves the alarm
      disarmed; one that started outside the valid state also leaves the tamper sources
      disabled, the counter enabled and the seconds count unchanged. A unit in the
      failure state is never written to. */
  lemma {:induction false} RecoveryEffect(hw: Hw, c: Cursor, regs: map<nat, Word>)
    ensures var o := StateSpec(hw, c, Get(regs, DTCMR));
      var after := Apply(regs, o.writes);
      && (o.rc == 0 ==> Get(after, DCAMR) == DCAMR_UNSET && Get(after, DCALR) == 0)
      && (o.rc == 0 && Classify(At(hw.status, c.sp)) != Valid ==>
            Get(after, DTCR) == 0 && Get(after, DCR) & DCR_TCE != 0 && Get(after, DTCMR) == Get(regs, DTCMR))
      && (Classify(At(hw.status, c.sp)) == Failure ==> o.rc == -ENODEV && o.writes == [])
      && (o.rc == 0 || o.rc == -ENODEV)
  {
    var dsr := At(hw.status, c.sp);
    var c1 := Cursor(c.sp + 1, c.cp);
    var o := StateSpec(hw, c, Get(regs, DTCMR));
    match Classify(dsr)
    case Valid =>
      ValidDisarmsAlarm(regs, dsr);
    case Invalid =>
      if o.rc == 0 {
        InvalidRecoveryEffect(hw, c1, regs);
      }
    case Failure =>
    case InvalidAndFailure =>
      if o.rc == 0 {
        InvalidAndFailureRecoveryEffect(hw, c1, regs, dsr);
      }
  }

  /** A successful recovery from the invalid-and-failure state ends as the invalid-state
      recovery does: the cleanup before it does not touch the seconds. */
  lemma InvalidAndFailureRecoveryEffect(hw: Hw, c: Cursor, regs: map<nat, Word>, dsr: Word)
    requires InvalidAndFailureSpec(hw, c, Get(regs, DTCMR), dsr).rc == 0
    ensures var after := Apply(regs, InvalidAndFailureSpec(hw, c, Get(regs, DTCMR), dsr).writes);
      && Get(after, DTCR) == 0
      && Get(after, DCR) & DCR_TCE != 0
      && Get(after, DTCMR) == Get(regs, DTCMR)
      && Get(after, DCAMR) == DCAMR_UNSET
      && Get(after, DCALR) == 0
  {
    var tampered := dsr & DSR_TAMPER != 0;
    var cp := if tampered then c.cp + 1 else c.cp;
    var r1 := Apply(regs, Cleanup(dsr));
    ApplyUntouched(regs, Cleanup(dsr), DTCMR);
    var inv := InvalidSpec(hw, Cursor(c.sp + 2, cp), Get(r1, DTCMR));
    assert InvalidAndFailureSpec(hw, c, Get(regs, DTCMR), dsr).writes == Cleanup(dsr) + inv.writes;
    ApplyAppend(regs, Cleanup(dsr), inv.writes);
    InvalidRecoveryEffect(hw, Cursor(c.sp + 2, cp), r1);
  }

  // ---------------------------------------------------------------------------
  // Write-completion protocol (di_write_wait, clear_write_error)

  /** How many DSR reads di_write_wait makes, starting at snapshot `start`, before it sees
      WCF or WEF or its time budget (`budget` reads) runs out; it always reads once. */
  function PollReads(f: Feed, start: nat, budget: nat): nat
    decreases budget
  {
    if At(f, start) & (DSR_WCF | DSR_WEF) != 0 || budget <= 1 then 1
    else 1 + PollReads(f, start + 1, budget - 1)
  }

  /** How di_write_wait's wait ends, judged from the last snapshot it read. */
  function PollVerdict(last: Word): PollResult {
    if last & (DSR_WCF | DSR_WEF) == 0 then TimedOut
    else if last & DSR_WEF != 0 then WriteFailed
    else Completed
  }

  /** How many DSR reads clear_write_error makes (at most `left`) until WEF reads clear. */
  function ClearReads(f: Feed, start: nat, left: nat): nat
    decreases left
  {
    if left == 0 then 0
    else if At(f, start) & DSR_WEF == 0 then 1
    else 1 + ClearReads(f, start + 1, left - 1)
  }

  /** The wait loop of di_write_wait over the snapshots `f[start..]`. It reports success
      only when the snapshot that stopped it shows WCF without WEF, a write error when
      that snapshot shows WEF, and a timeout only after `budget` snapshots without
      either flag. */
  method PollWriteCompletion(f: Feed, start: nat, budget: nat) returns (result: PollResult, n: nat)
    ensures n == PollReads(f, start, budget)
    ensures 1 <= n <= Max(budget, 1)
    ensures result == PollVerdict(At(f, start + n - 1))
    ensures result == Completed <==> At(f, start + n - 1) & DSR_WCF != 0 && At(f, start + n - 1) & DSR_WEF == 0
    ensures result == WriteFailed <==> At(f, start + n - 1) & DSR_WEF != 0
    ensures result == TimedOut ==> n == Max(budget, 1)
    ensures forall i :: start <= i < start + n - 1 ==> At(f, i) & (DSR_WCF | DSR_WEF) == 0
    ensures result == TimedOut <==> forall i :: start <= i < start + n ==> At(f, i) & (DSR_WCF | DSR_WEF) == 0
  {
    n := 0;
    var dsr: Word;
    while true
      invariant n < Max(budget, 1)
      invariant PollReads(f, start, budget) == n + PollReads(f, start + n, budget - n)
      invariant forall i :: start <= i < start + n ==> At(f, i) & (DSR_WCF | DSR_WEF) == 0
      decreases Max(budget, 1) - n
    {
      dsr := At(f, start + n);
      n := n + 1;
      if dsr & (DSR_WCF | DSR_WEF) != 0 {
        break;
      }
      if n >= budget {
        return TimedOut, n;
      }
    }
    if dsr & DSR_WEF != 0 {
      result := WriteFailed;
    } else {
      result := Completed;
    }
  }

  /** The wait loop of clear_write_error: at most 1000 reads, stopping at the first
      snapshot without WEF. Whether the flag cleared is only reported to the log. */
  method PollErrorCleared(f: Feed, start: nat) returns (cleared: bool, n: nat)
    ensures n == ClearReads(f, start, CLEAR_POLLS)
    ensures 1 <= n <= CLEAR_POLLS
    ensures cleared <==> At(f, start + n - 1) & DSR_WEF == 0
    ensures !cleared ==> n == CLEAR_POLLS
    ensures forall i :: start <= i < start + n - 1 ==> At(f, i) & DSR_WEF != 0
  {
    for cnt := 0 to CLEAR_POLLS
      invariant ClearReads(f, start, CLEAR_POLLS) == cnt + ClearReads(f, start + cnt, CLEAR_POLLS - cnt)
      invariant forall i :: start <= i < start + cnt ==> At(f, i) & DSR_WEF != 0
    {
      if At(f, start + cnt) & DSR_WEF == 0 {
        return true, cnt + 1;
      }
    }
    cleared, n := false, CLEAR_POLLS;
  }

  /** di_write_wait(reg, val): one write, then the wait; on WEF clear_write_error runs
      (one write of WEF to DSR and its own wait). Timeout and write error both give -EIO. */
  function ConfirmSpec(hw: Hw, c: Cursor, reg: nat, val: Word, budget: nat): Outcome {
    var n := PollReads(hw.status, c.sp, budget);
    match PollVerdict(At(hw.status, c.sp + n - 1))
    case Completed => Outcome(0, [Write(reg, val)], Cursor(c.sp + n, c.cp), NoAdvice)
    case TimedOut => Outcome(-EIO, [Write(reg, val)], Cursor(c.sp + n, c.cp), NoAdvice)
    case WriteFailed =>
      var m := ClearReads(hw.status, c.sp + n, CLEAR_POLLS);
      Outcome(-EIO, [Write(reg, val), Write(DSR, DSR_WEF)], Cursor(c.sp + n + m, c.cp), NoAdvice)
  }

  /** A confirmed write succeeds exactly when one of the DSR snapshots its wait read
      showed WCF without WEF; otherwise it returns -EIO, and a write error is
      acknowledged once, by writing WEF back to DSR. */
  lemma ConfirmedWrite(hw: Hw, c: Cursor, reg: nat, val: Word, budget: nat)
    ensures var o := ConfirmSpec(hw, c, reg, val, budget);
      var n := PollReads(hw.status, c.sp, budget);
      && o.writes[0] == Write(reg, val)
      && (o.rc == 0 || o.rc == -EIO)
      && (o.rc == 0 <==> exists i :: c.sp <= i < c.sp + n &&
                           At(hw.status, i) & DSR_WCF != 0 && At(hw.status, i) & DSR_WEF == 0)
      && (o.rc == 0 ==> o.writes == [Write(reg, val)])
      && (|o.writes| == 2 <==> At(hw.status, c.sp + n - 1) & DSR_WEF != 0)
      && (|o.writes| == 2 ==> o.writes[1] == Write(DSR, DSR_WEF))
  {
    PollReadsStopAtFlag(hw.status, c.sp, budget);
  }

  /** Every snapshot di_write_wait reads before the last one shows neither WCF nor WEF. */
  lemma {:induction false} PollReadsStopAtFlag(f: Feed, start: nat, budget: nat)
    ensures 1 <= PollReads(f, start, budget) <= Max(budget, 1)
    ensures forall i :: start <= i < start + PollReads(f, start, budget) - 1 ==>
              At(f, i) & (DSR_WCF | DSR_WEF) == 0
    decreases budget
  {
    if !(At(f, start) & (DSR_WCF | DSR_WEF) != 0 || budget <= 1) {
      PollReadsStopAtFlag(f, start + 1, budget - 1);
    }
  }

  // ---------------------------------------------------------------------------
  // Time accessor (dryice_rtc_set_time)

  /** Why dryice_rtc_set_time refuses: the lock bits are consulted only when the counter
      is disabled or a security violation is flagged. */
  function SetTimeRefusal(dcr: Word, dsr: Word): (a: Advice)
    ensures a != NoAdvice <==>
              (dcr & DCR_TCE == 0 || dsr & DSR_SVF != 0) &&
              (dcr & DCR_TCHL != 0 || dcr & DCR_TCSL != 0 || dsr & DSR_SVF != 0)
    ensures a == CycleBattery <==> (dcr & DCR_TCE == 0 || dsr & DSR_SVF != 0) && dcr & DCR_TCHL != 0
  {
    if dcr & DCR_TCE == 0 || dsr & DSR_SVF != 0 then
      if dcr & DCR_TCHL != 0 then CycleBattery
      else if dcr & DCR_TCSL != 0 || dsr & DSR_SVF != 0 then CycleMain
      else NoAdvice
    else NoAdvice
  }

  /** A soft-locked counter that is running does not stop a new time from being set. */
  lemma SoftLockAloneDoesNotRefuse()
    ensures SetTimeRefusal(DCR_TCE | DCR_TCSL, 0) == NoAdvice
    ensures SetTimeRefusal(DCR_TCSL, 0) == CycleMain
  {
  }

  /** `first`, then `rest` from where `first` stopped. */
  function Then(first: Outcome, rest: Outcome): Outcome {
    Outcome(rest.rc, first.writes + rest.writes, rest.next, rest.advice)
  }

  /** The last step of dryice_rtc_set_time: re-read DCR and write it back with TCE. */
  function EnableSpec(hw: Hw, c: Cursor, budget: nat): Outcome {
    ConfirmSpec(hw, Cursor(c.sp, c.cp + 1), DCR, At(hw.control, c.cp) | DCR_TCE, budget)
  }

  /** dryice_rtc_set_time after the fraction is cleared: store the seconds, then enable. */
  function StoreSpec(hw: Hw, c: Cursor, secs: Word, budget: nat): Outcome {
    var o := ConfirmSpec(hw, c, DTCMR, secs, budget);
    if o.rc != 0 then o else Then(o, EnableSpec(hw, o.next, budget))
  }

  /** The writes of dryice_rtc_set_time once the lock check passed: clear the fraction,
      store the seconds, enable the counter, stopping at the first that fails. */
  function CommitSpec(hw: Hw, c: Cursor, secs: Word, budget: nat): Outcome {
    var o := ConfirmSpec(hw, c, DTCLR, 0, budget);
    if o.rc != 0 then o else Then(o, StoreSpec(hw, o.next, secs, budget))
  }

  /** dryice_rtc_set_time with the seconds value `secs`: read DCR and DSR, maybe refuse,
      else commit. */
  function SetTimeSpec(hw: Hw, c: Cursor, secs: Word, budget: nat): Outcome {
    var refusal := SetTimeRefusal(At(hw.control, c.cp), At(hw.status, c.sp));
    var c1 := Cursor(c.sp + 1, c.cp + 1);
    if refusal != NoAdvice then Outcome(-EPERM, [], c1, refusal)
    else CommitSpec(hw, c1, secs, budget)
  }

  /** The register writes of a sequence, leaving out acknowledgements written to DSR. */
  function DataWrites(ws: seq<Write>): seq<Write>
    decreases |ws|
  {
    if ws == [] then []
    else (if ws[0].reg == DSR then [] else [ws[0]]) + DataWrites(ws[1..])
  }

  lemma {:induction false} DataWritesAppend(a: seq<Write>, b: seq<Write>)
    ensures DataWrites(a + b) == DataWrites(a) + DataWrites(b)
    decreases |a|
  {
    if a == [] {
      assert a + b == b;
    } else {
      assert (a + b)[1..] == a[1..] + b;
      DataWritesAppend(a[1..], b);
    }
  }

  /** The writes of one confirmed write other than the acknowledgement: just the write. */
  lemma ConfirmedData(hw: Hw, c: Cursor, reg: nat, val: Word, budget: nat)
    requires reg != DSR
    ensures DataWrites(ConfirmSpec(hw, c, reg, val, budget).writes) == [Write(reg, val)]
  {
    var ws := ConfirmSpec(hw, c, reg, val, budget).writes;
    var ack := [Write(DSR, DSR_WEF)];
    assert DataWrites(ack) == [] by {
      assert ack[1..] == [];
    }
    if |ws| == 2 {
      assert ws[1..] == ack;
    } else {
      assert ws[1..] == [];
    }
  }

  /** The result of one confirmed write: 0 or -EIO, and on success the write alone. */
  lemma ConfirmedResult(hw: Hw, c: Cursor, reg: nat, val: Word, budget: nat)
    ensures var o := ConfirmSpec(hw, c, reg, val, budget);
      && (o.rc == 0 || o.rc == -EIO)
      && (o.rc == 0 ==> o.writes == [Write(reg, val)])
  {
    ConfirmedWrite(hw, c, reg, val, budget);
  }

  /** The enabling write writes back the DCR snapshot it read, with TCE set. */
  lemma EnablePlan(hw: Hw, c: Cursor, budget: nat)
    ensures var o := EnableSpec(hw, c, budget);
      && (o.rc == 0 || o.rc == -EIO)
      && DataWrites(o.writes) == [Write(DCR, At(hw.control, c.cp) | DCR_TCE)]
      && (At(hw.control, c.cp) | DCR_TCE) & DCR_TCE != 0
      && (o.rc == 0 ==> o.writes == [Write(DCR, At(hw.control, c.cp) | DCR_TCE)])
  {
    var c1 := Cursor(c.sp, c.cp + 1);
    var v := At(hw.control, c.cp) | DCR_TCE;
    assert EnableSpec(hw, c, budget) == ConfirmSpec(hw, c1, DCR, v, budget);
    EnableBit(At(hw.control, c.cp));
    ConfirmedData(hw, c1, DCR, v, budget);
    ConfirmedResult(hw, c1, DCR, v, budget);
  }

  /** Storing the seconds comes first; the counter is enabled only after it succeeded. */
  lemma StorePlan(hw: Hw, c: Cursor, secs: Word, budget: nat)
    ensures var o := StoreSpec(hw, c, secs, budget);
      var plan := DataWrites(o.writes);
      && (o.rc == 0 || o.rc == -EIO)
      && 1 <= |plan| <= 2 && plan[0] == Write(DTCMR, secs)
      && (|plan| == 2 ==> plan[1].reg == DCR && plan[1].val & DCR_TCE != 0)
      && (o.rc == 0 ==> o.writes == plan && |plan| == 2)
  {
    var o1 := ConfirmSpec(hw, c, DTCMR, secs, budget);
    ConfirmedData(hw, c, DTCMR, secs, budget);
    ConfirmedWrite(hw, c, DTCMR, secs, budget);
    if o1.rc == 0 {
      EnablePlan(hw, o1.next, budget);
      DataWritesAppend(o1.writes, EnableSpec(hw, o1.next, budget).writes);
    }
  }

  /** The writes of a set-time that passed the lock check: the fraction 0 first, then the
      seconds, then DCR with TCE, stopping at the first failed write (-EIO) without
      undoing the earlier ones. */
  lemma CommitPlan(hw: Hw, c: Cursor, secs: Word, budget: nat)
    ensures var o := CommitSpec(hw, c, secs, budget);
      var plan := DataWrites(o.writes);
      && (o.rc == 0 || o.rc == -EIO) && o.advice == NoAdvice
      && 1 <= |plan| <= 3 && plan[0] == Write(DTCLR, 0)
      && (|plan| >= 2 ==> plan[1] == Write(DTCMR, secs))
      && (|plan| == 3 ==> plan[2].reg == DCR && plan[2].val & DCR_TCE != 0)
      && (o.rc == 0 ==> o.writes == plan && |plan| == 3)
  {
    var o1 := ConfirmSpec(hw, c, DTCLR, 0, budget);
    ConfirmedData(hw, c, DTCLR, 0, budget);
    ConfirmedWrite(hw, c, DTCLR, 0, budget);
    if o1.rc == 0 {
      var o2 := StoreSpec(hw, o1.next, secs, budget);
      StorePlan(hw, o1.next, secs, budget);
      DataWritesAppend(o1.writes, o2.writes);
      if o2.rc == 0 {
        assert o1.writes + o2.writes == [o1.writes[0], o2.writes[0], o2.writes[1]];
        DataWritesAppend([o1.writes[0]], [o2.writes[0], o2.writes[1]]);
        DataWritesAppend([o2.writes[0]], [o2.writes[1]]);
      }
    }
  }

  /** Three writes to three different registers each leave their own value. */
  lemma ApplyThree(m: map<nat, Word>, ws: seq<Write>)
    requires |ws| == 3 && ws[0].reg != ws[1].reg && ws[1].reg != ws[2].reg && ws[0].reg != ws[2].reg
    ensures forall i :: 0 <= i < 3 ==> Get(Apply(m, ws), ws[i].reg) == ws[i].val
  {
    assert ws == [ws[0], ws[1]] + [ws[2]];
    ApplyAppend(m, [ws[0], ws[1]], [ws[2]]);
    ApplyPair(m, ws[0], ws[1]);
    ApplySnoc(Apply(m, [ws[0], ws[1]]), [], ws[2]);
    assert [] + [ws[2]] == [ws[2]];
  }

  /** After a successful set-time the counter holds `secs`, the fraction is 0 and the
      counter is enabled, whatever the bank held before. */
  lemma CommitSuccess(hw: Hw, c: Cursor, regs: map<nat, Word>, secs: Word, budget: nat)
    requires CommitSpec(hw, c, secs, budget).rc == 0
    ensures var after := Apply(regs, CommitSpec(hw, c, secs, budget).writes);
      && Get(after, DTCMR) == secs
      && Get(after, DTCLR) == 0
      && Get(after, DCR) & DCR_TCE != 0
  {
    var ws := CommitSpec(hw, c, secs, budget).writes;
    CommitPlan(hw, c, secs, budget);
    ApplyThree(regs, ws);
    assert ws[0].reg == DTCLR && ws[1].reg == DTCMR && ws[2].reg == DCR;
  }

  /** dryice_rtc_set_time refuses with -EPERM and writes nothing exactly when the lock
      check fails; otherwise it is the commit of the three writes, and its result is 0
      or -EIO. */
  lemma SetTimeEffect(hw: Hw, c: Cursor, secs: Word, budget: nat)
    ensures var o := SetTimeSpec(hw, c, secs, budget);
      var refusal := SetTimeRefusal(At(hw.control, c.cp), At(hw.status, c.sp));
      && (refusal != NoAdvice <==> o.rc == -EPERM)
      && (refusal != NoAdvice ==> o.writes == [] && o.advice == refusal)
      && (refusal == NoAdvice ==> o == CommitSpec(hw, Cursor(c.sp + 1, c.cp + 1), secs, budget))
      && (o.rc == 0 || o.rc == -EPERM || o.rc == -EIO)
  {
    CommitResult(hw, Cursor(c.sp + 1, c.cp + 1), secs, budget);
  }

  lemma CommitResult(hw: Hw, c: Cursor, secs: Word, budget: nat)
    ensures var o := CommitSpec(hw, c, secs, budget);
      (o.rc == 0 || o.rc == -EIO) && o.advice == NoAdvice
  {
    CommitPlan(hw, c, secs, budget);
  }

  // ---------------------------------------------------------------------------
  // The unit

  class Unit {
    /** Every bus write so far, oldest first. */
    var writes: seq<Write>
    /** Position in the DSR and DCR snapshot sequences. */
    var cursor: Cursor
    /** What the hardware answers to DSR and DCR reads. */
    const hw: Hw
    /** The time budget of di_write_wait, counted in DSR reads. */
    const timeoutPolls: nat
    /** The register bank before the first write. */
    const initial: map<nat, Word>

    /** The register bank now: the initial bank after every logged write. */
    function Bank(): map<nat, Word>
      reads this
    {
      Apply(initial, writes)
    }

    /** The procedure specified by `o` has run, starting from writes `w0`. */
    ghost predicate Reached(o: Outcome, w0: seq<Write>)
      reads this
    {
      writes == w0 + o.writes && cursor == o.next
    }

    constructor (bank: map<nat, Word>, status: Feed, control: Feed, timeoutPolls: nat)
      ensures Bank() == bank && writes == []
      ensures hw == Hw(status, control) && cursor == Cursor(0, 0)
      ensures this.timeoutPolls == timeoutPolls
    {
      writes := [];
      cursor := Cursor(0, 0);
      hw := Hw(status, control);
      this.timeoutPolls := timeoutPolls;
      initial := bank;
    }

    /** A plain `writel`, also di_write_busy_wait (its settling delay is not modelled). */
    method WriteReg(reg: nat, val: Word)
      modifies this`writes
      ensures writes == old(writes) + [Write(reg, val)]
    {
      writes := writes + [Write(reg, val)];
    }

    /** The writes `ws`, issued one after the other with di_write_busy_wait. */
    method WriteAll(ws: seq<Write>)
      modifies this`writes
      ensures writes == old(writes) + ws
    {
      for i := 0 to |ws|
        invariant writes == old(writes) + ws[..i]
      {
        assert ws[..i + 1] == ws[..i] + [ws[i]];
        WriteReg(ws[i].reg, ws[i].val);
      }
      assert ws[..|ws|] == ws;
    }

    method ReadStatus() returns (dsr: Word)
      modifies this`cursor
      ensures dsr == At(hw.status, old(cursor.sp))
      ensures cursor == Cursor(old(cursor.sp) + 1, old(cursor.cp))
    {
      dsr := At(hw.status, cursor.sp);
      cursor := Cursor(cursor.sp + 1, cursor.cp);
    }

    method ReadControl() returns (dcr: Word)
      modifies this`cursor
      ensures dcr == At(hw.control, old(cursor.cp))
      ensures cursor == Cursor(old(cursor.sp), old(cursor.cp) + 1)
    {
      dcr := At(hw.control, cursor.cp);
      cursor := Cursor(cursor.sp, cursor.cp + 1);
    }

    /** di_handle_valid_state */
    method HandleValid(dsr: Word) returns (rc: int)
      modifies this`writes
      ensures rc == 0 && writes == old(writes) + ValidWrites(dsr)
    {
      WriteReg(DCAMR, DCAMR_UNSET);
      WriteReg(DCALR, 0);
      if dsr & DSR_CAF != 0 {
        WriteReg(DSR, DSR_CAF);
      }
      rc := 0;
    }

    /** di_handle_failure_state */
    method HandleFailure(dsr: Word) returns (rc: int, advice: Advice)
      modifies this`cursor
      ensures var o := FailureSpec(hw, old(cursor));
        Reached(o, old(writes)) && rc == o.rc && advice == o.advice
    {
      var dcr := ReadControl();
      if dcr & DCR_FSHL != 0 {
        return -ENODEV, CycleBattery;
      }
      return -ENODEV, CycleMain;
    }

    /** di_handle_invalid_state (its DSR argument is unused by the source too) */
    method HandleInvalid(dsr: Word) returns (rc: int, advice: Advice)
      modifies this`writes, this`cursor
      ensures var o := InvalidSpec(hw, old(cursor), Get(old(Bank()), DTCMR));
        Reached(o, old(writes)) && rc == o.rc && advice == o.advice
    {
      ghost var w0 := writes;
      WriteAll(InvalidPrologue());
      PrologueKeepsSeconds(initial, w0);
      var sec := Get(Bank(), DTCMR);
      var dcr := ReadControl();
      if dcr & DCR_TCE == 0 {
        if dcr & DCR_TCHL != 0 {
          return -ENODEV, CycleBattery;
        }
        if dcr & DCR_TCSL != 0 {
          return -ENODEV, CycleMain;
        }
      }
      WriteAll(Revive(dcr, sec));
      var now := ReadStatus();
      rc := HandleValid(now);
      advice := NoAdvice;
      AppendAssoc(w0, InvalidPrologue(), Revive(dcr, sec));
      AppendAssoc(w0, InvalidPrologue() + Revive(dcr, sec), ValidWrites(now));
    }

    /** di_handle_invalid_and_failure_state */
    method HandleInvalidAndFailure(dsr: Word) returns (rc: int, advice: Advice)
      modifies this`writes, this`cursor
      ensures var o := InvalidAndFailureSpec(hw, old(cursor), Get(old(Bank()), DTCMR), dsr);
        Reached(o, old(writes)) && rc == o.rc && advice == o.advice
    {
      ghost var w0 := writes;
      if dsr & DSR_TAMPER != 0 {
        var dcr := ReadControl();
        if dcr & DCR_TDCHL != 0 {
          return -ENODEV, CycleBattery;
        }
        if dcr & DCR_TDCSL != 0 {
          return -ENODEV, CycleMain;
        }
      }
      rc, advice := Scrub(dsr);
    }

    /** di_handle_invalid_and_failure_state once the tamper configuration may be changed. */
    method Scrub(dsr: Word) returns (rc: int, advice: Advice)
      modifies this`writes, this`cursor
      ensures var o := ScrubSpec(hw, old(cursor), Get(old(Bank()), DTCMR), dsr);
        Reached(o, old(writes)) && rc == o.rc && advice == o.advice
    {
      ghost var w0 := writes;
      WriteAll(Cleanup(dsr)[..2]);
      var leftover := ReadStatus();  // only reported to the log
      WriteReg(DSR, DSR_SVF);
      var now := ReadStatus();
      assert writes == w0 + Cleanup(dsr);
      if now & DSR_SVF != 0 {
        return -ENODEV, CycleBattery;
      }
      CleanupKeepsSeconds(initial, w0, dsr);
      ghost var inv := InvalidSpec(hw, cursor, Get(Bank(), DTCMR));
      rc, advice := HandleInvalid(now);
      AppendAssoc(w0, Cleanup(dsr), inv.writes);
    }

    /** di_handle_state: classify one DSR read and run its handler. */
    method HandleState() returns (rc: int, advice: Advice)
      modifies this`writes, this`cursor
      ensures var o := StateSpec(hw, old(cursor), Get(old(Bank()), DTCMR));
        Reached(o, old(writes)) && rc == o.rc && advice == o.advice
    {
      var dsr := ReadStatus();
      var bits := dsr & (DSR_NVF | DSR_SVF);
      if bits == DSR_NVF {
        rc, advice := HandleInvalid(dsr);
      } else if bits == DSR_SVF {
        rc, advice := HandleFailure(dsr);
      } else if bits == DSR_NVF | DSR_SVF {
        rc, advice := HandleInvalidAndFailure(dsr);
      } else {
        rc := HandleValid(dsr);
        advice := NoAdvice;
      }
    }

    /** clear_write_error: acknowledge WEF, then wait (at most 1000 reads) for it to clear;
        a flag that stays set is only logged. */
    method ClearWriteError()
      modifies this`writes, this`cursor
      ensures writes == old(writes) + [Write(DSR, DSR_WEF)]
      ensures cursor == Cursor(old(cursor.sp) + ClearReads(hw.status, old(cursor.sp), CLEAR_POLLS), old(cursor.cp))
    {
      WriteReg(DSR, DSR_WEF);
      var cleared, n := PollErrorCleared(hw.status, cursor.sp);
      cursor := Cursor(cursor.sp + n, cursor.cp);
    }

    /** di_write_wait */
    method WriteWait(val: Word, reg: nat) returns (rc: int)
      modifies this`writes, this`cursor
      ensures var o := ConfirmSpec(hw, old(cursor), reg, val, timeoutPolls);
        Reached(o, old(writes)) && rc == o.rc
    {
      WriteReg(reg, val);
      var result, n := PollWriteCompletion(hw.status, cursor.sp, timeoutPolls);
      cursor := Cursor(cursor.sp + n, cursor.cp);
      if result == TimedOut {
        return -EIO;
      }
      rc := 0;
      if result == WriteFailed {
        ClearWriteError();
        rc := -EIO;
      }
    }

    /** dryice_rtc_read_time: the seconds counter (calendar conversion is not modelled). */
    method ReadTime() returns (rc: int, secs: Word)
      ensures rc == 0 && secs == Get(Bank(), DTCMR)
    {
      rc, secs := 0, Get(Bank(), DTCMR);
    }

    /** The lock check of dryice_rtc_set_time on the DCR and DSR it read. */
    static method LockCheck(dcr: Word, dsr: Word) returns (advice: Advice)
      ensures advice == SetTimeRefusal(dcr, dsr)
    {
      if dcr & DCR_TCE == 0 || dsr & DSR_SVF != 0 {
        if dcr & DCR_TCHL != 0 {
          return CycleBattery;
        }
        if dcr & DCR_TCSL != 0 || dsr & DSR_SVF != 0 {
          return CycleMain;
        }
      }
      return NoAdvice;
    }

    /** dryice_rtc_set_time; `converted` and `secs` are what rtc_tm_to_time returned. */
    method SetTime(converted: int, secs: Word) returns (rc: int, advice: Advice)
      modifies this`writes, this`cursor
      ensures converted != 0 ==> rc == converted && advice == NoAdvice && unchanged(this)
      ensures converted == 0 ==>
        var o := SetTimeSpec(hw, old(cursor), secs, timeoutPolls);
        Reached(o, old(writes)) && rc == o.rc && advice == o.advice
    {
      if converted != 0 {
        return converted, NoAdvice;
      }
      ghost var c0 := cursor;
      var dcr := ReadControl();
      var dsr := ReadStatus();
      advice := LockCheck(dcr, dsr);
      if advice != NoAdvice {
        return -EPERM, advice;
      }
      CommitResult(hw, cursor, secs, timeoutPolls);
      assert SetTimeSpec(hw, c0, secs, timeoutPolls) == CommitSpec(hw, cursor, secs, timeoutPolls);
      rc := CommitTime(secs);
    }

    /** The three confirmed writes that end dryice_rtc_set_time; the first failure is
        returned as it is, without undoing the writes before it. */
    method CommitTime(secs: Word) returns (rc: int)
      modifies this`writes, this`cursor
      ensures var o := CommitSpec(hw, old(cursor), secs, timeoutPolls);
        Reached(o, old(writes)) && rc == o.rc
    {
      ghost var w0 := writes;
      ghost var o1 := ConfirmSpec(hw, cursor, DTCLR, 0, timeoutPolls);
      rc := WriteWait(0, DTCLR);
      if rc != 0 {
        return;
      }
      ghost var o2 := StoreSpec(hw, cursor, secs, timeoutPolls);
      rc := StoreTime(secs);
      AppendAssoc(w0, o1.writes, o2.writes);
    }

    /** The seconds write of dryice_rtc_set_time and, if it was confirmed, the enable. */
    method StoreTime(secs: Word) returns (rc: int)
      modifies this`writes, this`cursor
      ensures var o := StoreSpec(hw, old(cursor), secs, timeoutPolls);
        Reached(o, old(writes)) && rc == o.rc
    {
      ghost var w0 := writes;
      ghost var o2 := ConfirmSpec(hw, cursor, DTCMR, secs, timeoutPolls);
      rc := WriteWait(secs, DTCMR);
      if rc != 0 {
        return;
      }
      ghost var o3 := EnableSpec(hw, cursor, timeoutPolls);
      rc := EnableCounter();
      AppendAssoc(w0, o2.writes, o3.writes);
    }

    /** Re-read DCR and write it back with the counter enable bit set, confirmed. */
    method EnableCounter() returns (rc: int)
      modifies this`writes, this`cursor
      ensures var o := EnableSpec(hw, old(cursor), timeoutPolls);
        Reached(o, old(writes)) && rc == o.rc
    {
      var now := ReadControl();
      rc := WriteWait(now | DCR_TCE, DCR);
    }

    /** nvstore_write: only a 4-byte access reaches the register; any other length
        returns 0 and touches nothing. */
    method NvstoreWrite(bytes: nat, val: Word) returns (rc: int)
      modifies this`writes
      ensures rc == 0
      ensures bytes != 4 ==> writes == old(writes)
      ensures bytes == 4 ==> writes == old(writes) + [Write(DGPR, val)] && Get(Bank(), DGPR) == val
    {
      if bytes != 4 {
        return 0;
      }
      WriteReg(DGPR, val);
      ApplySnoc(initial, old(writes), Write(DGPR, val));
      return 0;
    }

    /** nvstore_read: a 4-byte access yields the general purpose register; any other
        length returns 0 and leaves the caller's buffer as it was (None). */
    method NvstoreRead(bytes: nat) returns (rc: int, val: Option)
      ensures rc == 0
      ensures bytes != 4 ==> val == None
      ensures bytes == 4 ==> val == Some(Get(Bank(), DGPR))
    {
      if bytes != 4 {
        return 0, None;
      }
      return 0, Some(Get(Bank(), DGPR));
    }
  }

  /** The value nvstore_read stores into the caller's buffer, if any. */
  datatype Option = None | Some(value: Word)

  /** A word stored through the NVRAM adapter is read back unchanged. */
  method NvstoreRoundTrip(u: Unit, v: Word) returns (back: Option)
    modifies u
    ensures back == Some(v)
  {
    var rc := u.NvstoreWrite(4, v);
    rc, back := u.NvstoreRead(4);
  }
}
