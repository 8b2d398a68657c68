// The matrix scan (matrix_task): every change between two scans becomes a key event, unless the row
// shows a ghost. Specification of one scan and what holds over any run of scans.
module Matrix {
  import opened MatrixBits

  // The keyboard: its size, and which positions the keymap defines as keys.
  datatype Board = Board(rows: nat, cols: nat, defined: (nat, nat) -> bool)

  type Size = b: Board | b.cols <= 32 witness Board(0, 0, (_, _) => false)

  // ---- The ghost test -------------------------------------------------------------------------------------

  // get_real_keys, on the first n columns
  function RealKeys(b: Size, row: nat, data: bv32, n: nat): bv32 {
    if n == 0 then 0
    else
      var out := RealKeys(b, row, data, n - 1);
      if b.defined(row, n - 1) && Bit(data, n - 1) then Or(out, Mask(n - 1)) else out
  }

  lemma {:induction false} RealKeysAre(b: Size, row: nat, data: bv32, n: nat, c: nat)
    requires n <= 32 && c < 32
    ensures Bit(RealKeys(b, row, data, n), c) <==> c < n && b.defined(row, c) && Bit(data, c)
  {
    hide Bit;
    if n == 0 {
      BitOfZero(c);
    } else {
      RealKeysAre(b, row, data, n - 1, c);
      BitOfOr(RealKeys(b, row, data, n - 1), Mask(n - 1), c);
      BitOfMask(n - 1, c);
    }
  }

  function Keys(b: Size, m: seq<bv32>, row: nat): bv32
    requires row < |m|
  {
    RealKeys(b, row, m[row], b.cols)
  }

  // The part of has_ghost_in_row that looks at the other rows, up to row n.
  predicate SharesWithBelow(b: Size, m: seq<bv32>, data: bv32, row: nat, n: nat)
    requires n <= |m|
  {
    exists i :: 0 <= i < n && i != row && TwoOrMore(And(Keys(b, m, i), data))
  }

  predicate HasGhost(b: Size, m: seq<bv32>, row: nat)
    requires row < |m| == b.rows
  {
    TwoOrMore(Keys(b, m, row)) && SharesWithBelow(b, m, Keys(b, m, row), row, b.rows)
  }

  // A key of the keymap that reads as pressed.
  predicate Down(b: Size, m: seq<bv32>, row: nat, c: nat)
    requires row < |m|
  {
    c < b.cols && b.defined(row, c) && Bit(m[row], c)
  }

  ghost predicate ShareTwoColumns(b: Size, m: seq<bv32>, row: nat, i: nat)
    requires row < |m| && i < |m|
  {
    exists c: nat, d: nat :: c < d && Down(b, m, row, c) && Down(b, m, row, d) && Down(b, m, i, c) && Down(b, m, i, d)
  }

  lemma KeysAreDown(b: Size, m: seq<bv32>, row: nat, c: nat)
    requires row < |m| && c < 32
    ensures Bit(Keys(b, m, row), c) <==> Down(b, m, row, c)
  {
    RealKeysAre(b, row, m[row], b.cols, c);
  }

  lemma SharedBits(b: Size, m: seq<bv32>, row: nat, i: nat, c: nat)
    requires row < |m| && i < |m| && c < 32
    ensures Bit(And(Keys(b, m, i), Keys(b, m, row)), c) <==> Down(b, m, i, c) && Down(b, m, row, c)
  {
    hide Bit, Keys, Down;
    BitOfAnd(Keys(b, m, i), Keys(b, m, row), c);
    KeysAreDown(b, m, i, c);
    KeysAreDown(b, m, row, c);
  }

  lemma TwoSharedIff(b: Size, m: seq<bv32>, row: nat, i: nat)
    requires row < |m| && i < |m|
    ensures TwoOrMore(And(Keys(b, m, i), Keys(b, m, row))) <==> ShareTwoColumns(b, m, row, i)
    ensures ShareTwoColumns(b, m, row, i) ==> TwoOrMore(Keys(b, m, row))
  {
    hide Bit, Keys, TwoOrMore, And;
    var x := And(Keys(b, m, i), Keys(b, m, row));
    TwoOrMoreIff(x);
    TwoOrMoreIff(Keys(b, m, row));
    if TwoOrMore(x) {
      var c: nat, d: nat :| c < d < 32 && Bit(x, c) && Bit(x, d);
      SharedBits(b, m, row, i, c);
      SharedBits(b, m, row, i, d);
    }
    if ShareTwoColumns(b, m, row, i) {
      var c: nat, d: nat :| c < d && Down(b, m, row, c) && Down(b, m, row, d) && Down(b, m, i, c) && Down(b, m, i, d);
      SharedBits(b, m, row, i, c);
      SharedBits(b, m, row, i, d);
      KeysAreDown(b, m, row, c);
      KeysAreDown(b, m, row, d);
    }
  }

  // A row is ghosted exactly when another row has two of the same keymap columns pressed.
  lemma GhostIff(b: Size, m: seq<bv32>, row: nat)
    requires row < |m| == b.rows
    ensures HasGhost(b, m, row) <==> exists i :: 0 <= i < |m| && i != row && ShareTwoColumns(b, m, row, i)
  {
    hide ShareTwoColumns, Keys, TwoOrMore, And;
    forall i | 0 <= i < |m|
      ensures TwoOrMore(And(Keys(b, m, i), Keys(b, m, row))) <==> ShareTwoColumns(b, m, row, i)
      ensures ShareTwoColumns(b, m, row, i) ==> TwoOrMore(Keys(b, m, row))
    {
      TwoSharedIff(b, m, row, i);
    }
  }

  // So a ghosted row never stands alone.
  lemma GhostHasPartner(b: Size, m: seq<bv32>, row: nat)
    requires row < |m| == b.rows && HasGhost(b, m, row)
    ensures exists i :: 0 <= i < |m| && i != row && HasGhost(b, m, i)
  {
    hide HasGhost, Down;
    GhostIff(b, m, row);
    var i :| 0 <= i < |m| && i != row && ShareTwoColumns(b, m, row, i);
    assert ShareTwoColumns(b, m, i, row);
    GhostIff(b, m, i);
  }

  // ---- One scan -------------------------------------------------------------------------------------------

  datatype Key = Key(row: nat, col: nat)

  // A change reported to switch_events; `executed` says whether action_exec got the key event too.
  datatype Change = Change(key: Key, pressed: bool, executed: bool)

  // What a scan reads: the rows, whether key presses are to be processed, and the keys that woke the host.
  datatype Scan = Scan(rows: seq<bv32>, process: bool, wakeup: Key -> bool)

  datatype Option<T> = None | Some(value: T)

  // matrix_previous, and every change reported so far.
  datatype State = State(previous: seq<bv32>, log: seq<Change>)

  predicate Fits(b: Size, s: Scan) { |s.rows| == b.rows }

  function RowChanges(row: nat, was: bv32, now: bv32, s: Scan, n: nat): seq<Change> {
    if n == 0 then []
    else
      RowChanges(row, was, now, s, n - 1) +
      if Bit(Xor(now, was), n - 1)
      then [Change(Key(row, n - 1), Bit(now, n - 1), s.process && !s.wakeup(Key(row, n - 1)))]
      else []
  }

  function ScanRow(b: Size, st: State, s: Scan, row: nat): (st': State)
    requires Fits(b, s) && |st.previous| == b.rows && row < b.rows
    ensures |st'.previous| == b.rows
  {
    if s.rows[row] == st.previous[row] || HasGhost(b, s.rows, row) then st
    else State(st.previous[row := s.rows[row]], st.log + RowChanges(row, st.previous[row], s.rows[row], s, b.cols))
  }

  function ScanRows(b: Size, st: State, s: Scan, n: nat): (st': State)
    requires Fits(b, s) && |st.previous| == b.rows && n <= b.rows
    ensures |st'.previous| == b.rows
  {
    if n == 0 then st else ScanRow(b, ScanRows(b, st, s, n - 1), s, n - 1)
  }

  function Start(b: Size): State {
    State(seq(b.rows, _ => 0), [])
  }

  // Any run of scans; None where the matrix cannot be read.
  function Run(b: Size, scans: seq<Option<Scan>>): (st: State)
    requires forall s :: s in scans && s.Some? ==> Fits(b, s.value)
    ensures |st.previous| == b.rows
  {
    if scans == [] then Start(b)
    else
      var st := Run(b, scans[..|scans| - 1]);
      var s := scans[|scans| - 1];
      if s.None? then st else ScanRows(b, st, s.value, b.rows)
  }

  // ---- Replaying the events -------------------------------------------------------------------------------

  // Whether the events leave the key pressed.
  predicate Held(log: seq<Change>, key: Key) {
    if log == [] then false
    else if log[|log| - 1].key == key then log[|log| - 1].pressed
    else Held(log[..|log| - 1], key)
  }

  // Each key's events alternate, starting with a press.
  predicate Alternates(log: seq<Change>) {
    forall i :: 0 <= i < |log| ==> log[i].pressed != Held(log[..i], log[i].key)
  }

  // matrix_previous is what replaying the events yields.
  predicate Replays(b: Size, st: State) {
    && |st.previous| == b.rows
    && Alternates(st.log)
    && forall r, c :: 0 <= r < b.rows && 0 <= c < b.cols ==> (Held(st.log, Key(r, c)) <==> Bit(st.previous[r], c))
  }

  lemma Append(log: seq<Change>, e: Change)
    requires Alternates(log) && e.pressed != Held(log, e.key)
    ensures Alternates(log + [e])
    ensures forall k :: Held(log + [e], k) <==> if k == e.key then e.pressed else Held(log, k)
  {
    var log' := log + [e];
    assert log'[..|log|] == log;
    forall i | 0 <= i < |log'| ensures log'[i].pressed != Held(log'[..i], log'[i].key) {
      assert i < |log| ==> log'[..i] == log[..i];
    }
  }

  lemma {:induction false} RowChangesReplay(log: seq<Change>, row: nat, was: bv32, now: bv32, s: Scan, n: nat)
    requires Alternates(log) && forall c :: 0 <= c < n ==> (Held(log, Key(row, c)) <==> Bit(was, c))
    ensures Alternates(log + RowChanges(row, was, now, s, n))
    ensures forall c :: 0 <= c < n ==> (Held(log + RowChanges(row, was, now, s, n), Key(row, c)) <==> Bit(now, c))
    ensures forall k: Key :: k.row != row || k.col >= n ==>
      (Held(log + RowChanges(row, was, now, s, n), k) <==> Held(log, k))
  {
    hide Bit, Xor, Held, Alternates;
    if n == 0 {
      assert log + [] == log;
    } else {
      var before := log + RowChanges(row, was, now, s, n - 1);
      RowChangesReplay(log, row, was, now, s, n - 1);
      BitOfXor(now, was, n - 1);
      var k := Key(row, n - 1);
      assert Held(before, k) <==> Held(log, k);
      if Bit(Xor(now, was), n - 1) {
        var e := Change(k, Bit(now, n - 1), s.process && !s.wakeup(k));
        Append(before, e);
        assert before + [e] == log + RowChanges(row, was, now, s, n);
      } else {
        assert before + [] == log + RowChanges(row, was, now, s, n) == before;
      }
    }
  }

  lemma ScanRowReplays(b: Size, st: State, s: Scan, row: nat)
    requires Replays(b, st) && Fits(b, s) && row < b.rows
    ensures Replays(b, ScanRow(b, st, s, row))
  {
    hide Bit, Held, Alternates, RowChanges, HasGhost;
    var st' := ScanRow(b, st, s, row);
    if st' != st {
      RowChangesReplay(st.log, row, st.previous[row], s.rows[row], s, b.cols);
    }
  }

  lemma {:induction false} ScanRowsReplay(b: Size, st: State, s: Scan, n: nat)
    requires Replays(b, st) && Fits(b, s) && n <= b.rows
    ensures Replays(b, ScanRows(b, st, s, n))
  {
    hide Replays;
    if n > 0 {
      assert |st.previous| == b.rows by { SizeOf(b, st); }
      ScanRowsReplay(b, st, s, n - 1);
      ScanRowReplays(b, ScanRows(b, st, s, n - 1), s, n - 1);
    }
  }

  lemma SizeOf(b: Size, st: State)
    requires Replays(b, st)
    ensures |st.previous| == b.rows
  {
  }

  lemma StartReplays(b: Size)
    ensures Replays(b, Start(b))
  {
    forall c: nat | c < b.cols ensures !Bit(0, c) {
      BitOfZero(c);
    }
  }

  // Over any run of scans each key's events strictly alternate and matrix_previous is their replay.
  lemma {:induction false} RunReplays(b: Size, scans: seq<Option<Scan>>)
    requires forall s :: s in scans && s.Some? ==> Fits(b, s.value)
    ensures Replays(b, Run(b, scans))
  {
    hide Replays, Start;
    if scans == [] {
      StartReplays(b);
    } else {
      var n := |scans| - 1;
      assert forall s :: s in scans[..n] ==> s in scans;
      RunReplays(b, scans[..n]);
      assert scans[n] in scans;
      if scans[n].Some? {
        ScanRowsReplay(b, Run(b, scans[..n]), scans[n].value, b.rows);
      }
    }
  }

  // ---- What one scan reports --------------------------------------------------------------------------------

  lemma {:induction false} RowChangesAreOf(row: nat, was: bv32, now: bv32, s: Scan, n: nat)
    ensures forall e :: e in RowChanges(row, was, now, s, n) ==>
      e.key.row == row && e.executed == (s.process && !s.wakeup(e.key))
  {
    if n > 0 {
      RowChangesAreOf(row, was, now, s, n - 1);
    }
  }

  // After n rows the rows below n are the scanned ones, but for the ghosted; the others have not changed.
  lemma {:induction false} ScanRowsPrevious(b: Size, st: State, s: Scan, n: nat)
    requires Fits(b, s) && |st.previous| == b.rows && n <= b.rows
    ensures forall r :: 0 <= r < b.rows ==>
      ScanRows(b, st, s, n).previous[r] == if r < n && !HasGhost(b, s.rows, r) then s.rows[r] else st.previous[r]
  {
    hide HasGhost, RowChanges;
    if n > 0 {
      ScanRowsPrevious(b, st, s, n - 1);
    }
  }

  // The scan only appends to the log, and nothing for a ghosted row.
  lemma {:induction false} ScanRowsLog(b: Size, st: State, s: Scan, n: nat)
    requires Fits(b, s) && |st.previous| == b.rows && n <= b.rows
    ensures st.log <= ScanRows(b, st, s, n).log
    ensures forall i :: |st.log| <= i < |ScanRows(b, st, s, n).log| ==>
      var e := ScanRows(b, st, s, n).log[i];
      e.key.row < b.rows && !HasGhost(b, s.rows, e.key.row) && e.executed == (s.process && !s.wakeup(e.key))
  {
    hide HasGhost, RowChanges;
    if n > 0 {
      ScanRowsLog(b, st, s, n - 1);
      var before := ScanRows(b, st, s, n - 1);
      RowChangesAreOf(n - 1, before.previous[n - 1], s.rows[n - 1], s, b.cols);
    }
  }

  // After a scan the events reported so far say of every key exactly what the matrix reads, except in
  // ghosted rows, of which they say what they said before.
  lemma EventsFollowMatrix(b: Size, scans: seq<Option<Scan>>, s: Scan, r: nat, c: nat)
    requires forall s :: s in scans && s.Some? ==> Fits(b, s.value)
    requires Fits(b, s) && r < b.rows && c < b.cols
    ensures var before := Run(b, scans).log; var after := Run(b, scans + [Some(s)]).log;
      && before <= after
      && (Held(after, Key(r, c)) <==>
          if HasGhost(b, s.rows, r) then Held(before, Key(r, c)) else Bit(s.rows[r], c))
      && (HasGhost(b, s.rows, r) ==> forall e :: e in after[|before|..] ==> e.key.row != r)
  {
    hide Held, Bit, HasGhost, Alternates;
    var all := scans + [Some(s)];
    assert all[..|scans|] == scans;
    assert forall x :: x in all ==> x in scans || x == Some(s);
    RunReplays(b, scans);
    RunReplays(b, all);
    ScanRowsPrevious(b, Run(b, scans), s, b.rows);
    ScanRowsLog(b, Run(b, scans), s, b.rows);
  }

  // With key presses processed and no wake-up keys pending every change is executed, so the alternation
  // is that of the events action_exec receives.
  lemma {:induction false} AllExecuted(b: Size, scans: seq<Option<Scan>>)
    requires forall s :: s in scans && s.Some? ==>
      Fits(b, s.value) && s.value.process && forall k :: !s.value.wakeup(k)
    ensures forall e :: e in Run(b, scans).log ==> e.executed
  {
    hide ScanRows;
    if scans != [] {
      var n := |scans| - 1;
      assert forall s :: s in scans[..n] ==> s in scans;
      AllExecuted(b, scans[..n]);
      assert scans[n] in scans;
      if scans[n].Some? {
        var st := Run(b, scans[..n]);
        ScanRowsLog(b, st, scans[n].value, b.rows);
        var after := Run(b, scans).log;
        forall e | e in after ensures e.executed {
          var i :| 0 <= i < |after| && after[i] == e;
          assert i < |st.log| ==> after[i] == st.log[i];
        }
      }
    }
  }

  // ---- The order of the events ------------------------------------------------------------------------------

  predicate Before(a: Key, b: Key) { a.row < b.row || (a.row == b.row && a.col < b.col) }

  // Row by row, and column by column within a row.
  predicate InOrder(changes: seq<Change>) {
    forall i, j :: 0 <= i < j < |changes| ==> Before(changes[i].key, changes[j].key)
  }

  predicate AllBefore(changes: seq<Change>, row: nat, col: nat) {
    forall i :: 0 <= i < |changes| ==> Before(changes[i].key, Key(row, col))
  }

  lemma {:induction false} RowInOrder(row: nat, was: bv32, now: bv32, s: Scan, n: nat)
    ensures var changes := RowChanges(row, was, now, s, n);
      InOrder(changes) && AllBefore(changes, row, n) && forall i :: 0 <= i < |changes| ==> changes[i].key.row == row
  {
    if n > 0 {
      RowInOrder(row, was, now, s, n - 1);
    }
  }

  lemma InOrderConcat(a: seq<Change>, b: seq<Change>, row: nat)
    requires InOrder(a) && AllBefore(a, row, 0) && InOrder(b) && forall i :: 0 <= i < |b| ==> b[i].key.row == row
    ensures InOrder(a + b) && AllBefore(a + b, row + 1, 0)
  {
  }

  // A scan reports its changes in the order of the keys, each key at most once, and hands one on to action_exec
  // exactly when key presses are processed and the key did not wake the host.
  lemma {:induction false} ScanInOrder(b: Size, st: State, s: Scan, n: nat)
    requires Fits(b, s) && |st.previous| == b.rows && n <= b.rows
    ensures st.log <= ScanRows(b, st, s, n).log
    ensures var added := ScanRows(b, st, s, n).log[|st.log|..];
      && InOrder(added) && AllBefore(added, n, 0)
      && forall i :: 0 <= i < |added| ==> (added[i].executed <==> s.process && !s.wakeup(added[i].key))
  {
    ScanRowsLog(b, st, s, n);
    if n > 0 {
      hide HasGhost, RowChanges, InOrder, AllBefore;
      ScanInOrder(b, st, s, n - 1);
      var before := ScanRows(b, st, s, n - 1);
      var row := n - 1;
      var old_, added := before.log[|st.log|..], ScanRows(b, st, s, n).log[|st.log|..];
      var changes := RowChanges(row, before.previous[row], s.rows[row], s, b.cols);
      RowInOrder(row, before.previous[row], s.rows[row], s, b.cols);
      InOrderConcat(old_, changes, row);
      if ScanRows(b, st, s, n) == before {
        NothingAdded(row);
        InOrderConcat(old_, [], row);
        assert added == old_ + [];
      } else {
        assert added == old_ + changes;
      }
    } else {
      NothingAdded(0);
    }
  }

  lemma NothingAdded(row: nat)
    ensures InOrder([]) && AllBefore([], row, 0)
  {
  }
}
