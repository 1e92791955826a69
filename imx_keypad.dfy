/** The i.MX keypad port (KPP): an 8x8 key matrix scanned column by column, debounced
    over three scans and turned into key events.

    The four halfword registers are fields of `Keypad`. The row inputs the hardware
    presents while one column is driven low are injected (`samples[col]`, the raw KPDR
    value read at that moment); every other register read returns what was last
    written. Reported key events are appended to `events`. */
module ImxKeypad {
  import opened Kernel

  const KBD_STAT_KPKD: Half := 0x0001  // key press interrupt status (write 1 to clear)
  const KBD_STAT_KPKR: Half := 0x0002  // key release interrupt status (write 1 to clear)
  const KBD_STAT_KDSC: Half := 0x0004  // key depress synchronizer chain (write 1 to clear)
  const KBD_STAT_KRSS: Half := 0x0008  // key release synchronizer (write 1 to clear)
  const KBD_STAT_KDIE: Half := 0x0100  // key depress interrupt enable
  const KBD_STAT_KRIE: Half := 0x0200  // key release interrupt enable

  const MAX_ROWS: nat := 8
  const MAX_COLS: nat := 8
  /** MATRIX_ROW_SHIFT: a key's index in the keymap is row * 8 + col. */
  const ROW_SHIFT: nat := 3
  const SCANS_FOR_STABILITY: int := 3
  /** The keycode of a matrix position without a key. */
  const KEY_RESERVED: Half := 0

  /** `1 << i` for a row or column number. */
  function Bit(i: nat): Half
    requires i < 8
  {
    if i == 0 then 0x01 else if i == 1 then 0x02 else if i == 2 then 0x04 else if i == 3 then 0x08
    else if i == 4 then 0x10 else if i == 5 then 0x20 else if i == 6 then 0x40 else 0x80
  }

  /** Whether bit `i` (a row or column) is set in a mask. */
  predicate On(mask: Half, i: nat)
    requires i < 8
  {
    mask & Bit(i) != 0
  }

  predicate OneHot(b: Half) {
    b == 0x01 || b == 0x02 || b == 0x04 || b == 0x08 || b == 0x10 || b == 0x20 || b == 0x40 || b == 0x80
  }

  lemma BitFacts(i: nat, j: nat)
    requires i < 8 && j < 8
    ensures OneHot(Bit(i)) && (Bit(i) == Bit(j) <==> i == j)
  {
  }

  lemma OneHotOr(m: Half, b: Half, c: Half)
    requires OneHot(b) && OneHot(c)
    ensures (m | b) & c != 0 <==> m & c != 0 || b == c
    ensures m & 0xff == m ==> (m | b) & 0xff == m | b
  {
  }

  /** Setting bit `i` of a mask sets that bit, leaves the others and keeps the mask
      within the low byte. */
  lemma SetBit(m: Half, i: nat)
    requires i < 8
    ensures forall j :: 0 <= j < 8 ==> (On(m | Bit(i), j) <==> On(m, j) || i == j)
    ensures m & 0xff == m ==> (m | Bit(i)) & 0xff == m | Bit(i)
  {
    forall j | 0 <= j < 8
      ensures On(m | Bit(i), j) <==> On(m, j) || i == j
    {
      SetBitAt(m, i, j);
    }
    BitFacts(i, i);
    OneHotOr(m, Bit(i), Bit(i));
  }

  lemma SetBitAt(m: Half, i: nat, j: nat)
    requires i < 8 && j < 8
    ensures (m | Bit(i)) & Bit(j) != 0 <==> m & Bit(j) != 0 || i == j
  {
    BitFacts(i, j);
    BitFacts(j, j);
    OneHotOr(m, Bit(i), Bit(j));
  }

  /** The row byte of KPDR. */
  function RowByte(x: Half): Half {
    x & 0x00ff
  }

  lemma KeepRowByte(x: Half, b: Half)
    ensures RowByte((x | 0xff00) & !(b << 8)) == RowByte(x)
  {
  }

  lemma Redrive(x: Half, d: Half)
    ensures (x & !d) | d == x | d
  {
  }

  /** With no column enabled, making the enabled columns open-drain changes nothing. */
  lemma NoDrive(x: Half, colsEn: Half)
    requires colsEn & 0xff == 0
    ensures x | ColumnDrive(colsEn) == x
  {
  }

  /** After the column loop the enabled columns are open-drain, also when there is none. */
  lemma AllColumnsDriven(before: Half, after: Half, colsEn: Half)
    requires after == before | ColumnDrive(colsEn) ||
             (after == before && forall c :: 0 <= c < MAX_COLS ==> !On(colsEn, c))
    ensures after == before | ColumnDrive(colsEn)
  {
    if after != before | ColumnDrive(colsEn) {
      LowByteClear(colsEn);
      NoDrive(after, colsEn);
    }
  }

  /** A mask none of whose eight low bits is set has an empty low byte. */
  lemma LowByteClear(m: Half)
    requires forall j :: 0 <= j < 8 ==> !On(m, j)
    ensures m & 0xff == 0
  {
    assert !On(m, 0) && !On(m, 1) && !On(m, 2) && !On(m, 3);
    assert !On(m, 4) && !On(m, 5) && !On(m, 6) && !On(m, 7);
  }

  /** Index of the key at (row, col) in the keymap (MATRIX_SCAN_CODE). */
  function ScanCode(row: nat, col: nat): (i: nat)
    requires row < MAX_ROWS && col < MAX_COLS
    ensures i < MAX_ROWS * MAX_COLS
  {
    row * 8 + col
  }

  /** One call of input_report_key_event: the keycode and the pressed value. */
  datatype KeyEvent = KeyEvent(code: Half, value: Half)

  /** A state of the whole matrix: one row bit set per pressed key, per column. */
  type Matrix = s: seq<Half> | |s| == MAX_COLS witness [0, 0, 0, 0, 0, 0, 0, 0]

  const ZERO_MATRIX: Matrix := [0, 0, 0, 0, 0, 0, 0, 0]

  /** The KPCR bits that make the enabled columns open-drain. */
  function ColumnDrive(colsEn: Half): Half {
    (colsEn & 0xff) << 8
  }

  /** The keypad state after a scan: an enabled column holds the inverted row inputs,
      restricted to the enabled rows; any other column keeps what `prior` held. */
  function Sampled(prior: Matrix, samples: Matrix, rowsEn: Half, colsEn: Half): (m: Matrix)
    ensures forall c :: 0 <= c < MAX_COLS && On(colsEn, c) ==> m[c] & !rowsEn == 0
    ensures forall c :: 0 <= c < MAX_COLS && !On(colsEn, c) ==> m[c] == prior[c]
  {
    seq(MAX_COLS, c requires 0 <= c < MAX_COLS =>
      if On(colsEn, c) then RowsLow(samples[c], rowsEn) else prior[c])
  }

  /** The pressed rows of one column: a pressed key pulls its row input low. */
  function RowsLow(sample: Half, rowsEn: Half): (r: Half)
    ensures r & !rowsEn == 0
  {
    !sample & rowsEn
  }

  // ---------------------------------------------------------------------------
  // Event generation (imx_keypad_fire_events)

  /** A key event is due for (row, col): both enabled and the bit changed. */
  predicate Due(stable: Matrix, volatile: Matrix, rowsEn: Half, colsEn: Half, row: nat, col: nat)
    requires row < MAX_ROWS && col < MAX_COLS
  {
    On(colsEn, col) && On(rowsEn, row) && On(Flips(stable, volatile, col), row)
  }

  /** The rows of column `col` whose state differs between two scans. */
  function Flips(stable: Matrix, volatile: Matrix, col: nat): Half
    requires col < MAX_COLS
  {
    stable[col] ^ volatile[col]
  }

  /** The items whose flag is set, in order. */
  function Select<T>(flags: seq<bool>, items: seq<T>): (r: seq<T>)
    requires |flags| == |items|
    ensures |r| <= |items|
    decreases |items|
  {
    if items == [] then []
    else
      var k := |items| - 1;
      Select(flags[..k], items[..k]) + (if flags[k] then [items[k]] else [])
  }

  lemma {:induction false} SelectMembers<T>(flags: seq<bool>, items: seq<T>, e: T)
    requires |flags| == |items|
    ensures e in Select(flags, items) <==> exists k :: 0 <= k < |items| && flags[k] && items[k] == e
    decreases |items|
  {
    if items != [] {
      var k := |items| - 1;
      SelectMembers(flags[..k], items[..k], e);
      if exists j :: 0 <= j < |items| && flags[j] && items[j] == e {
        var j :| 0 <= j < |items| && flags[j] && items[j] == e;
        if j < k {
          assert flags[..k][j] && items[..k][j] == e;
        }
      }
    }
  }

  /** Selecting from one more item. */
  lemma SelectStep<T>(flags: seq<bool>, items: seq<T>, n: nat)
    requires |flags| == |items| && n < |items|
    ensures Select(flags[..n + 1], items[..n + 1]) ==
            Select(flags[..n], items[..n]) + (if flags[n] then [items[n]] else [])
  {
    assert flags[..n + 1][..n] == flags[..n] && items[..n + 1][..n] == items[..n];
  }

  lemma {:induction false} SelectNone<T>(flags: seq<bool>, items: seq<T>)
    requires |flags| == |items|
    requires forall k :: 0 <= k < |flags| ==> !flags[k]
    ensures Select(flags, items) == []
    decreases |items|
  {
    if items != [] {
      var k := |items| - 1;
      SelectNone(flags[..k], items[..k]);
    }
  }

  /** Which rows of column `col` are due an event. */
  function DueRows(stable: Matrix, volatile: Matrix, rowsEn: Half, colsEn: Half, col: nat): (d: seq<bool>)
    requires col < MAX_COLS
    ensures |d| == MAX_ROWS
    ensures forall r :: 0 <= r < MAX_ROWS ==> d[r] == Due(stable, volatile, rowsEn, colsEn, r, col)
  {
    seq(MAX_ROWS, r requires 0 <= r < MAX_ROWS => Due(stable, volatile, rowsEn, colsEn, r, col))
  }

  /** The event reported for (row, col): the key's code, and the row's bit in the new state. */
  function KeyEventAt(volatile: Matrix, keycodes: seq<Half>, row: nat, col: nat): KeyEvent
    requires row < MAX_ROWS && col < MAX_COLS && |keycodes| == MAX_ROWS * MAX_COLS
  {
    KeyEvent(keycodes[ScanCode(row, col)], volatile[col] & Bit(row))
  }

  function Candidates(volatile: Matrix, keycodes: seq<Half>, col: nat): (c: seq<KeyEvent>)
    requires col < MAX_COLS && |keycodes| == MAX_ROWS * MAX_COLS
    ensures |c| == MAX_ROWS
    ensures forall r :: 0 <= r < MAX_ROWS ==> c[r] == KeyEventAt(volatile, keycodes, r, col)
  {
    seq(MAX_ROWS, r requires 0 <= r < MAX_ROWS => KeyEventAt(volatile, keycodes, r, col))
  }

  /** The events of column `col`, in row order. */
  function ColumnEvents(stable: Matrix, volatile: Matrix, rowsEn: Half, colsEn: Half,
                        keycodes: seq<Half>, col: nat): seq<KeyEvent>
    requires col < MAX_COLS && |keycodes| == MAX_ROWS * MAX_COLS
  {
    Select(DueRows(stable, volatile, rowsEn, colsEn, col), Candidates(volatile, keycodes, col))
  }

  /** The events of the columns below `n`, in column order. */
  function MatrixEvents(stable: Matrix, volatile: Matrix, rowsEn: Half, colsEn: Half,
                        keycodes: seq<Half>, n: nat): seq<KeyEvent>
    requires n <= MAX_COLS && |keycodes| == MAX_ROWS * MAX_COLS
    decreases n
  {
    if n == 0 then []
    else
      MatrixEvents(stable, volatile, rowsEn, colsEn, keycodes, n - 1) +
      ColumnEvents(stable, volatile, rowsEn, colsEn, keycodes, n - 1)
  }

  /** imx_keypad_fire_events reports an event exactly for each enabled key whose bit
      differs between the stable and the new state, with the key's keycode and the new
      bit as value. */
  lemma {:induction false} EventsAreTheChangedKeys(stable: Matrix, volatile: Matrix, rowsEn: Half, colsEn: Half,
                                                   keycodes: seq<Half>, n: nat, e: KeyEvent)
    requires n <= MAX_COLS && |keycodes| == MAX_ROWS * MAX_COLS
    ensures e in MatrixEvents(stable, volatile, rowsEn, colsEn, keycodes, n) <==>
      exists row, col :: 0 <= row < MAX_ROWS && 0 <= col < n && Due(stable, volatile, rowsEn, colsEn, row, col) &&
        e == KeyEventAt(volatile, keycodes, row, col)
    decreases n
  {
    if n > 0 {
      var last := n - 1;
      var before := MatrixEvents(stable, volatile, rowsEn, colsEn, keycodes, last);
      var column := ColumnEvents(stable, volatile, rowsEn, colsEn, keycodes, last);
      assert MatrixEvents(stable, volatile, rowsEn, colsEn, keycodes, n) == before + column;
      EventsAreTheChangedKeys(stable, volatile, rowsEn, colsEn, keycodes, last, e);
      ColumnEventsMembers(stable, volatile, rowsEn, colsEn, keycodes, last, e);
      if e in column {
        var row :| 0 <= row < MAX_ROWS && Due(stable, volatile, rowsEn, colsEn, row, last) &&
          e == KeyEventAt(volatile, keycodes, row, last);
      }
      if exists row, col :: 0 <= row < MAX_ROWS && 0 <= col < n && Due(stable, volatile, rowsEn, colsEn, row, col) &&
           e == KeyEventAt(volatile, keycodes, row, col) {
        var row, col :| 0 <= row < MAX_ROWS && 0 <= col < n && Due(stable, volatile, rowsEn, colsEn, row, col) &&
          e == KeyEventAt(volatile, keycodes, row, col);
        if col == last {
          assert e in column;
        } else {
          assert e in before;
        }
      }
    }
  }

  lemma ColumnEventsMembers(stable: Matrix, volatile: Matrix, rowsEn: Half, colsEn: Half,
                            keycodes: seq<Half>, col: nat, e: KeyEvent)
    requires col < MAX_COLS && |keycodes| == MAX_ROWS * MAX_COLS
    ensures e in ColumnEvents(stable, volatile, rowsEn, colsEn, keycodes, col) <==>
      exists row :: 0 <= row < MAX_ROWS && Due(stable, volatile, rowsEn, colsEn, row, col) &&
        e == KeyEventAt(volatile, keycodes, row, col)
  {
    SelectMembers(DueRows(stable, volatile, rowsEn, colsEn, col), Candidates(volatile, keycodes, col), e);
  }

  /** Nothing is reported when no enabled column changed. */
  lemma {:induction false} NoChangeNoEvents(stable: Matrix, volatile: Matrix, rowsEn: Half, colsEn: Half,
                                            keycodes: seq<Half>)
    requires |keycodes| == MAX_ROWS * MAX_COLS
    requires forall c :: 0 <= c < MAX_COLS && On(colsEn, c) ==> stable[c] == volatile[c]
    ensures MatrixEvents(stable, volatile, rowsEn, colsEn, keycodes, MAX_COLS) == []
  {
    var es := MatrixEvents(stable, volatile, rowsEn, colsEn, keycodes, MAX_COLS);
    if es != [] {
      EventsAreTheChangedKeys(stable, volatile, rowsEn, colsEn, keycodes, MAX_COLS, es[0]);
    }
  }

  // ---------------------------------------------------------------------------
  // Debouncing

  /** Whether some enabled column differs between two matrix states. */
  predicate Changed(unstable: Matrix, volatile: Matrix, colsEn: Half) {
    exists c :: 0 <= c < MAX_COLS && On(colsEn, c) && unstable[c] != volatile[c]
  }

  /** The loop of imx_keypad_check_for_events that looks for a changed enabled column;
      it stops at the first one. */
  method AnyColumnChanged(unstable: Matrix, volatile: Matrix, colsEn: Half) returns (changed: bool)
    ensures changed <==> Changed(unstable, volatile, colsEn)
  {
    changed := false;
    for i := 0 to MAX_COLS
      invariant forall c :: 0 <= c < i && On(colsEn, c) ==> unstable[c] == volatile[c]
    {
      if !On(colsEn, i) {
        continue;
      }
      if Differs(unstable[i], volatile[i]) {
        changed := true;
        break;
      }
    }
  }

  /** The driver's column comparison: the XOR of two row patterns is non-zero. */
  predicate Differs(a: Half, b: Half)
    ensures Differs(a, b) <==> a != b
  {
    a ^ b != 0
  }

  /** The loop of imx_keypad_check_for_events that decides whether every key is up. */
  method IsZeroMatrix(volatile: Matrix) returns (zero: bool)
    ensures zero <==> volatile == ZERO_MATRIX
  {
    zero := true;
    for i := 0 to MAX_COLS
      invariant forall c :: 0 <= c < i ==> volatile[c] == 0
    {
      if volatile[i] != 0 {
        zero := false;
        break;
      }
    }
    if zero {
      assert volatile == ZERO_MATRIX;
    }
  }

  /** The scan counter after one scan. */
  function NextCount(count: int, changed: bool): int {
    if changed then 0 else count + 1
  }

  /** The scan counter after a series of scans, each recorded as changed or not. */
  function CountAfter(count: int, scans: seq<bool>): int
    decreases |scans|
  {
    if scans == [] then count
    else NextCount(CountAfter(count, scans[..|scans| - 1]), scans[|scans| - 1])
  }

  /** How many scans at the end of `scans` saw no change. */
  function QuietTail(scans: seq<bool>): (n: nat)
    ensures n <= |scans|
    decreases |scans|
  {
    if scans == [] || scans[|scans| - 1] then 0
    else 1 + QuietTail(scans[..|scans| - 1])
  }

  /** From the counter's initial zero, the counter is the number of quiet scans since
      the last change. So events fire (counter exactly 3) once per period in which the
      matrix stays the same for three scans, however long that period lasts. */
  lemma {:induction false} CountIsQuietTail(scans: seq<bool>)
    ensures CountAfter(0, scans) == QuietTail(scans)
    decreases |scans|
  {
    if scans != [] {
      CountIsQuietTail(scans[..|scans| - 1]);
    }
  }

  /** KPSR once every key is up: clear the press status and its synchronizer, enable
      only the key-depress interrupt. */
  function KpsrIdle(kpsr: Half): (r: Half)
    ensures r & KBD_STAT_KDIE != 0 && r & KBD_STAT_KRIE == 0
    ensures r & !(KBD_STAT_KDIE | KBD_STAT_KRIE | KBD_STAT_KPKD | KBD_STAT_KDSC) ==
            kpsr & !(KBD_STAT_KDIE | KBD_STAT_KRIE | KBD_STAT_KPKD | KBD_STAT_KDSC)
  {
    ((kpsr | KBD_STAT_KPKD | KBD_STAT_KDSC) | KBD_STAT_KDIE) & !KBD_STAT_KRIE
  }

  /** KPSR while a key is down: clear the release status and its synchronizer, enable
      only the key-release interrupt. */
  function KpsrBusy(kpsr: Half): (r: Half)
    ensures r & KBD_STAT_KRIE != 0 && r & KBD_STAT_KDIE == 0
    ensures r & !(KBD_STAT_KDIE | KBD_STAT_KRIE | KBD_STAT_KPKR | KBD_STAT_KRSS) ==
            kpsr & !(KBD_STAT_KDIE | KBD_STAT_KRIE | KBD_STAT_KPKR | KBD_STAT_KRSS)
  {
    ((kpsr | KBD_STAT_KPKR | KBD_STAT_KRSS) | KBD_STAT_KRIE) & !KBD_STAT_KDIE
  }

  // ---------------------------------------------------------------------------
  // The enabled rows and columns (the mask loop of imx_keypad_probe)

  predicate RowHasKey(keycodes: seq<Half>, row: nat)
    requires |keycodes| == MAX_ROWS * MAX_COLS && row < MAX_ROWS
  {
    exists c :: 0 <= c < MAX_COLS && keycodes[ScanCode(row, c)] != KEY_RESERVED
  }

  predicate ColumnHasKey(keycodes: seq<Half>, col: nat)
    requires |keycodes| == MAX_ROWS * MAX_COLS && col < MAX_COLS
  {
    exists r :: 0 <= r < MAX_ROWS && keycodes[ScanCode(r, col)] != KEY_RESERVED
  }

  /** The masks after the keymap positions below `k` (in row-major order) are visited:
      a row or column bit is set exactly when a visited key of it is mapped. */
  ghost predicate Marked(keycodes: seq<Half>, rowsEn: Half, colsEn: Half, k: nat)
    requires |keycodes| == MAX_ROWS * MAX_COLS
  {
    && rowsEn & 0xff == rowsEn && colsEn & 0xff == colsEn
    && (forall r :: 0 <= r < MAX_ROWS ==>
          (On(rowsEn, r) <==> exists c :: 0 <= c < MAX_COLS && ScanCode(r, c) < k && keycodes[ScanCode(r, c)] != KEY_RESERVED))
    && (forall c :: 0 <= c < MAX_COLS ==>
          (On(colsEn, c) <==> exists r :: 0 <= r < MAX_ROWS && ScanCode(r, c) < k && keycodes[ScanCode(r, c)] != KEY_RESERVED))
  }

  /** Visiting the key at (row, col) sets its row and column bits when it is mapped. */
  lemma MarkStep(keycodes: seq<Half>, rowsEn: Half, colsEn: Half, row: nat, col: nat)
    requires |keycodes| == MAX_ROWS * MAX_COLS && row < MAX_ROWS && col < MAX_COLS
    requires Marked(keycodes, rowsEn, colsEn, ScanCode(row, col))
    ensures keycodes[ScanCode(row, col)] != KEY_RESERVED ==>
      Marked(keycodes, rowsEn | Bit(row), colsEn | Bit(col), ScanCode(row, col) + 1)
    ensures keycodes[ScanCode(row, col)] == KEY_RESERVED ==>
      Marked(keycodes, rowsEn, colsEn, ScanCode(row, col) + 1)
  {
    var k := ScanCode(row, col);
    forall r, c | 0 <= r < MAX_ROWS && 0 <= c < MAX_COLS
      ensures ScanCode(r, c) < k + 1 <==> ScanCode(r, c) < k || (r == row && c == col)
    {
    }
    if keycodes[k] != KEY_RESERVED {
      SetBit(rowsEn, row);
      SetBit(colsEn, col);
      var rows', cols' := rowsEn | Bit(row), colsEn | Bit(col);
      forall r | 0 <= r < MAX_ROWS
        ensures On(rows', r) <==>
          exists c :: 0 <= c < MAX_COLS && ScanCode(r, c) < k + 1 && keycodes[ScanCode(r, c)] != KEY_RESERVED
      {
        assert On(rows', r) <==> On(rowsEn, r) || r == row;
        if r == row {
          assert ScanCode(r, col) < k + 1 && keycodes[ScanCode(r, col)] != KEY_RESERVED;
        }
      }
      forall c | 0 <= c < MAX_COLS
        ensures On(cols', c) <==>
          exists r :: 0 <= r < MAX_ROWS && ScanCode(r, c) < k + 1 && keycodes[ScanCode(r, c)] != KEY_RESERVED
      {
        assert On(cols', c) <==> On(colsEn, c) || c == col;
        if c == col {
          assert ScanCode(row, c) < k + 1 && keycodes[ScanCode(row, c)] != KEY_RESERVED;
        }
      }
    }
  }

  /** Row bit r is set exactly when some key of row r is mapped, column bit c exactly
      when some key of column c is, and nothing above bit 7 is set, so the
      "too many rows or columns" check after the loop never fires. */
  method EnabledMasks(keycodes: seq<Half>) returns (rowsEn: Half, colsEn: Half)
    requires |keycodes| == MAX_ROWS * MAX_COLS
    ensures forall r :: 0 <= r < MAX_ROWS ==> (On(rowsEn, r) <==> RowHasKey(keycodes, r))
    ensures forall c :: 0 <= c < MAX_COLS ==> (On(colsEn, c) <==> ColumnHasKey(keycodes, c))
    ensures rowsEn <= 0xff && colsEn <= 0xff
  {
    rowsEn, colsEn := 0, 0;
    for row := 0 to MAX_ROWS
      invariant Marked(keycodes, rowsEn, colsEn, row * MAX_COLS)
    {
      for col := 0 to MAX_COLS
        invariant Marked(keycodes, rowsEn, colsEn, ScanCode(row, 0) + col)
      {
        MarkStep(keycodes, rowsEn, colsEn, row, col);
        if keycodes[ScanCode(row, col)] != KEY_RESERVED {
          rowsEn := rowsEn | Bit(row);
          colsEn := colsEn | Bit(col);
        }
      }
    }
  }

  // ---------------------------------------------------------------------------
  // The keypad

  class Keypad {
    var kpcr: Half  // control: row interrupt enables (low byte), open-drain columns (high byte)
    var kpsr: Half  // status and interrupt enables
    var kddr: Half  // data direction
    var kpdr: Half  // data: row inputs (low byte), column drive (high byte)
    const rowsEn: Half
    const colsEn: Half
    /** The keymap, indexed by ScanCode(row, col). */
    const keycodes: seq<Half>
    var stableCount: int
    var stable: Matrix
    var unstable: Matrix
    /** Every key event reported so far, oldest first. */
    var events: seq<KeyEvent>

    ghost predicate Valid()
      reads this
    {
      |keycodes| == MAX_ROWS * MAX_COLS
    }

    /** A zero-filled keypad (xzalloc) with the masks computed from the keymap. */
    constructor (keycodes: seq<Half>, kpcr: Half, kpsr: Half, kddr: Half, kpdr: Half)
      requires |keycodes| == MAX_ROWS * MAX_COLS
      ensures Valid() && this.keycodes == keycodes
      ensures forall r :: 0 <= r < MAX_ROWS ==> (On(rowsEn, r) <==> RowHasKey(keycodes, r))
      ensures forall c :: 0 <= c < MAX_COLS ==> (On(colsEn, c) <==> ColumnHasKey(keycodes, c))
      ensures stableCount == 0 && stable == ZERO_MATRIX && unstable == ZERO_MATRIX && events == []
      ensures this.kpcr == kpcr && this.kpsr == kpsr && this.kddr == kddr && this.kpdr == kpdr
    {
      var rows, cols := EnabledMasks(keycodes);
      this.keycodes := keycodes;
      rowsEn, colsEn := rows, cols;
      this.kpcr, this.kpsr, this.kddr, this.kpdr := kpcr, kpsr, kddr, kpdr;
      stableCount := 0;
      stable, unstable := ZERO_MATRIX, ZERO_MATRIX;
      events := [];
    }

    /** imx_keypad_scan_matrix: drive each enabled column low in turn and sample the rows;
        at the end all columns are released (KPDR high byte 0, low byte kept) and the
        enabled columns are open-drain. */
    method ScanMatrix(prior: Matrix, samples: Matrix) returns (volatile: Matrix)
      modifies this`kpcr, this`kpdr
      ensures volatile == Sampled(prior, samples, rowsEn, colsEn)
      ensures kpdr == RowByte(old(kpdr))
      ensures kpcr == old(kpcr) | ColumnDrive(colsEn)
    {
      volatile := prior;
      ghost var rows := RowByte(kpdr);
      for col := 0 to MAX_COLS
        invariant forall c :: 0 <= c < col ==> volatile[c] == Sampled(prior, samples, rowsEn, colsEn)[c]
        invariant forall c :: col <= c < MAX_COLS ==> volatile[c] == prior[c]
        invariant RowByte(kpdr) == rows
        invariant kpcr == old(kpcr) | ColumnDrive(colsEn) ||
                  (kpcr == old(kpcr) && forall c :: 0 <= c < col ==> !On(colsEn, c))
      {
        if !On(colsEn, col) {
          continue;
        }
        volatile := ScanColumn(col, samples, volatile);
      }
      AllColumnsDriven(old(kpcr), kpcr, colsEn);
      kpdr := RowByte(kpdr);
    }

    /** One enabled column of imx_keypad_scan_matrix: drive it and record its pressed rows. */
    method ScanColumn(col: nat, samples: Matrix, volatile: Matrix) returns (next: Matrix)
      requires col < MAX_COLS
      modifies this`kpcr, this`kpdr
      ensures next == volatile[col := RowsLow(samples[col], rowsEn)]
      ensures RowByte(kpdr) == RowByte(old(kpdr))
      ensures kpcr == old(kpcr) | ColumnDrive(colsEn)
    {
      KeepRowByte(kpdr, Bit(col));
      DriveColumn(col);
      next := volatile[col := RowsLow(samples[col], rowsEn)];
    }

    /** One column step of imx_keypad_scan_matrix before the rows are sampled: discharge
        the columns (all high, totem-pole, then open-drain again) and drive column `col`
        low. */
    method DriveColumn(col: nat)
      requires col < MAX_COLS
      modifies this`kpcr, this`kpdr
      ensures kpdr == (old(kpdr) | 0xff00) & !(Bit(col) << 8)
      ensures kpcr == old(kpcr) | ColumnDrive(colsEn)
    {
      var drive := ColumnDrive(colsEn);
      var b := Bit(col);
      Redrive(kpcr, drive);
      kpdr := kpdr | 0xff00;
      kpcr := kpcr & !drive;
      kpcr := kpcr | drive;
      kpdr := kpdr & !(b << 8);
    }

    /** imx_keypad_fire_events: compare the stable state with the new one and report the
        changed keys of the enabled rows and columns. */
    method FireEvents(volatile: Matrix)
      requires Valid()
      modifies this`events
      ensures events == old(events) + MatrixEvents(stable, volatile, rowsEn, colsEn, keycodes, MAX_COLS)
    {
      for col := 0 to MAX_COLS
        invariant events == old(events) + MatrixEvents(stable, volatile, rowsEn, colsEn, keycodes, col)
      {
        AppendAssoc(old(events), MatrixEvents(stable, volatile, rowsEn, colsEn, keycodes, col),
                    ColumnEvents(stable, volatile, rowsEn, colsEn, keycodes, col));
        FireColumn(volatile, col);
      }
    }

    /** One column of imx_keypad_fire_events: skip a disabled column and one whose bits
        did not change, otherwise report its changed enabled rows. */
    method FireColumn(volatile: Matrix, col: nat)
      requires Valid() && col < MAX_COLS
      modifies this`events
      ensures events == old(events) + ColumnEvents(stable, volatile, rowsEn, colsEn, keycodes, col)
    {
      if !On(colsEn, col) {
        QuietColumn(stable, volatile, rowsEn, colsEn, keycodes, col);
        return;
      }
      var bitsChanged := Flips(stable, volatile, col);
      if bitsChanged == 0 {
        QuietColumn(stable, volatile, rowsEn, colsEn, keycodes, col);
        return;
      }
      ReportRows(volatile, col, bitsChanged);
    }

    /** The row loop of imx_keypad_fire_events for an enabled column whose bits changed. */
    method ReportRows(volatile: Matrix, col: nat, bitsChanged: Half)
      requires Valid() && col < MAX_COLS && On(colsEn, col) && bitsChanged == Flips(stable, volatile, col)
      modifies this`events
      ensures events == old(events) + ColumnEvents(stable, volatile, rowsEn, colsEn, keycodes, col)
    {
      ghost var due := DueRows(stable, volatile, rowsEn, colsEn, col);
      ghost var candidates := Candidates(volatile, keycodes, col);
      for row := 0 to MAX_ROWS
        invariant events == old(events) + Select(due[..row], candidates[..row])
      {
        SelectStep(due, candidates, row);
        AppendAssoc(old(events), Select(due[..row], candidates[..row]), if due[row] then [candidates[row]] else []);
        assert due[row] == (On(rowsEn, row) && On(bitsChanged, row));
        if !On(rowsEn, row) {
          continue;
        }
        if !On(bitsChanged, row) {
          continue;
        }
        events := events + [KeyEventAt(volatile, keycodes, row, col)];
      }
      assert due[..MAX_ROWS] == due && candidates[..MAX_ROWS] == candidates;
    }

    /** imx_keypad_check_for_events, the poller: scan, debounce, report once the matrix
        has been the same for three scans, and arm the interrupt that matches the keys. */
    method CheckForEvents(samples: Matrix)
      requires Valid()
      modifies this`kpcr, this`kpdr, this`kpsr, this`stableCount, this`stable, this`unstable, this`events
      ensures var volatile := Sampled(ZERO_MATRIX, samples, rowsEn, colsEn);
        var changed := Changed(old(unstable), volatile, colsEn);
        && kpcr == old(kpcr) | ColumnDrive(colsEn) && kpdr == RowByte(old(kpdr))
        && unstable == (if changed then volatile else old(unstable))
        && stableCount == NextCount(old(stableCount), changed)
        && (stableCount == SCANS_FOR_STABILITY ==>
              events == old(events) + MatrixEvents(old(stable), volatile, rowsEn, colsEn, keycodes, MAX_COLS) &&
              stable == volatile)
        && (stableCount != SCANS_FOR_STABILITY ==> events == old(events) && stable == old(stable))
        && (stableCount < SCANS_FOR_STABILITY ==> kpsr == old(kpsr))
        && (stableCount >= SCANS_FOR_STABILITY ==>
              kpsr == if volatile == ZERO_MATRIX then KpsrIdle(old(kpsr)) else KpsrBusy(old(kpsr)))
    {
      var volatile := ScanMatrix(ZERO_MATRIX, samples);
      Debounce(volatile);
      if stableCount < SCANS_FOR_STABILITY {
        return;
      }
      if stableCount == SCANS_FOR_STABILITY {
        FireEvents(volatile);
        stable := volatile;
      }
      var isZero := IsZeroMatrix(volatile);
      Rearm(isZero);
    }

    /** The debounce step of imx_keypad_check_for_events: a scan that differs from the
        last one in an enabled column restarts the count, an equal one extends it. */
    method Debounce(volatile: Matrix)
      modifies this`unstable, this`stableCount
      ensures var changed := Changed(old(unstable), volatile, colsEn);
        && unstable == (if changed then volatile else old(unstable))
        && stableCount == NextCount(old(stableCount), changed)
    {
      var stateChanged := AnyColumnChanged(unstable, volatile, colsEn);
      if stateChanged {
        unstable := volatile;
        stableCount := 0;
      } else {
        stableCount := stableCount + 1;
      }
    }

    /** The tail of imx_keypad_check_for_events: with every key up, clear the press
        status and wait for a key-depress interrupt; otherwise clear the release status and
        wait for a key-release interrupt. */
    method Rearm(isZero: bool)
      modifies this`kpsr
      ensures kpsr == if isZero then KpsrIdle(old(kpsr)) else KpsrBusy(old(kpsr))
    {
      var regVal: Half;
      if isZero {
        regVal := kpsr | KBD_STAT_KPKD | KBD_STAT_KDSC;
        kpsr := regVal;
        regVal := kpsr | KBD_STAT_KDIE;
        regVal := regVal & !KBD_STAT_KRIE;
        kpsr := regVal;
      } else {
        regVal := kpsr | KBD_STAT_KPKR | KBD_STAT_KRSS;
        kpsr := regVal;
        regVal := kpsr | KBD_STAT_KRIE;
        regVal := regVal & !KBD_STAT_KDIE;
        kpsr := regVal;
      }
    }

    /** imx_keypad_config: enable the rows' interrupts and open-drain columns, release all
        columns, make columns outputs and rows inputs, clear the status bits, and arm
        only the key-depress interrupt. */
    method Config()
      modifies this`kpcr, this`kpdr, this`kddr, this`kpsr
      ensures kpcr == old(kpcr) | (rowsEn & 0xff) | ColumnDrive(colsEn)
      ensures kpdr == RowByte(old(kpdr))
      ensures kddr == 0xff00
      ensures kpsr == (old(kpsr) | KBD_STAT_KPKR | KBD_STAT_KPKD | KBD_STAT_KDSC | KBD_STAT_KRSS | KBD_STAT_KDIE) & !KBD_STAT_KRIE
      ensures kpsr & KBD_STAT_KDIE != 0 && kpsr & KBD_STAT_KRIE == 0
    {
      var regVal := kpcr;
      regVal := regVal | (rowsEn & 0xff);
      regVal := regVal | ColumnDrive(colsEn);
      kpcr := regVal;
      kpdr := RowByte(kpdr);
      kddr := 0xff00;
      regVal := kpsr;
      regVal := regVal | KBD_STAT_KPKR | KBD_STAT_KPKD | KBD_STAT_KDSC | KBD_STAT_KRSS;
      kpsr := regVal;
      // the value written above is reused without reading KPSR again
      regVal := regVal | KBD_STAT_KDIE;
      regVal := regVal & !KBD_STAT_KRIE;
      kpsr := regVal;
    }

    /** imx_keypad_inhibit: disable both key interrupts, make the columns open-drain and
        disable every row. */
    method Inhibit()
      modifies this`kpsr, this`kpcr
      ensures kpsr == old(kpsr) & !(KBD_STAT_KRIE | KBD_STAT_KDIE)
      ensures kpsr & KBD_STAT_KRIE == 0 && kpsr & KBD_STAT_KDIE == 0
      ensures kpcr == 0xff00
    {
      kpsr := kpsr & !(KBD_STAT_KRIE | KBD_STAT_KDIE);
      kpcr := 0xff00;
    }
  }

  /** A disabled column, or one whose bits did not change, reports nothing. */
  lemma QuietColumn(stable: Matrix, volatile: Matrix, rowsEn: Half, colsEn: Half, keycodes: seq<Half>, col: nat)
    requires col < MAX_COLS && |keycodes| == MAX_ROWS * MAX_COLS
    requires !On(colsEn, col) || Flips(stable, volatile, col) == 0
    ensures ColumnEvents(stable, volatile, rowsEn, colsEn, keycodes, col) == []
  {
    SelectNone(DueRows(stable, volatile, rowsEn, colsEn, col), Candidates(volatile, keycodes, col));
  }
}
