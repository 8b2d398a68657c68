// The scan loops of quantum/keyboard.c over matrix_previous.
module MatrixTask {
  import opened MatrixBits
  import opened Matrix

  lemma XorIsZero(x: bv32, y: bv32)
    ensures Xor(x, y) == 0 <==> x == y
  {
    hide Xor;
    XorOf(x);
    XorBack(x, y);
  }

  lemma XorBack(x: bv32, y: bv32)
    ensures Xor(x, Xor(x, y)) == y
  {
  }

  // A scan without changes does nothing.
  lemma {:induction false} NoChanges(b: Size, st: State, s: Scan, n: nat)
    requires Fits(b, s) && st.previous == s.rows && n <= b.rows
    ensures ScanRows(b, st, s, n) == st
  {
    if n > 0 {
      NoChanges(b, st, s, n - 1);
    }
  }

  lemma RowChangesOneMore(log: seq<Change>, row: nat, was: bv32, now: bv32, s: Scan, n: nat)
    ensures Bit(Xor(now, was), n) ==>
      log + RowChanges(row, was, now, s, n + 1)
      == log + RowChanges(row, was, now, s, n) + [Change(Key(row, n), Bit(now, n), s.process && !s.wakeup(Key(row, n)))]
    ensures !Bit(Xor(now, was), n) ==>
      log + RowChanges(row, was, now, s, n + 1) == log + RowChanges(row, was, now, s, n)
  {
    hide Bit, Xor;
  }

  class Scanner {
    const board: Size
    const previous: array<bv32>
    var log: seq<Change>

    ghost predicate Valid() { previous.Length == board.rows }

    ghost function Value(): State reads this, previous { State(previous[..], log) }

    constructor (b: Size)
      ensures Valid() && fresh(previous) && board == b && Value() == Start(b)
    {
      board := b;
      previous := new bv32[b.rows](_ => 0);
      log := [];
    }

    // get_real_keys
    method GetRealKeys(row: nat, data: bv32) returns (out: bv32)
      ensures out == RealKeys(board, row, data, board.cols)
    {
      hide And, Or, Shifted;
      out := 0;
      var mask: bv32 := 1;
      for col := 0 to board.cols
        invariant mask == Mask(col) && out == RealKeys(board, row, data, col)
      {
        if board.defined(row, col) && And(data, mask) != 0 {
          out := Or(out, mask);
        }
        mask := Shifted(mask);
      }
    }

    // has_ghost_in_row
    method HasGhostInRow(rows: seq<bv32>, row: nat) returns (ghosted: bool)
      requires row < |rows| == board.rows
      ensures ghosted == HasGhost(board, rows, row)
    {
      hide RealKeys, TwoOrMore, And;
      var data := GetRealKeys(row, rows[row]);
      if !TwoOrMore(data) {
        return false;
      }
      for i := 0 to board.rows
        invariant !SharesWithBelow(board, rows, data, row, i)
      {
        var other := GetRealKeys(i, rows[i]);
        if i != row && TwoOrMore(And(other, data)) {
          assert TwoOrMore(And(Keys(board, rows, i), data));
          return true;
        }
      }
      return false;
    }

    // The columns of one changed row.
    method ReportRow(row: nat, s: Scan)
      requires Valid() && Fits(board, s) && row < board.rows
      modifies this`log
      ensures log == old(log) + RowChanges(row, previous[row], s.rows[row], s, board.cols)
    {
      hide And, Xor, Shifted, RowChanges;
      var current := s.rows[row];
      var changes := Xor(current, previous[row]);
      var mask: bv32 := 1;
      NoColumns(old(log), row, previous[row], current, s);
      for col := 0 to board.cols
        invariant mask == Mask(col)
        invariant log == old(log) + RowChanges(row, previous[row], current, s, col)
      {
        RowChangesOneMore(old(log), row, previous[row], current, s, col);
        if And(changes, mask) != 0 {
          var pressed := And(current, mask) != 0;
          var executed := false;
          if s.process && !s.wakeup(Key(row, col)) {
            executed := true;
          }
          log := log + [Change(Key(row, col), pressed, executed)];
        }
        mask := Shifted(mask);
      }
    }

    // matrix_task
    method Task(s: Option<Scan>) returns (changed: bool)
      requires Valid() && (s.Some? ==> Fits(board, s.value))
      modifies this`log, previous
      ensures Valid()
      ensures Value() == if s.None? then old(Value()) else ScanRows(board, old(Value()), s.value, board.rows)
      ensures changed <==> s.Some? && old(previous[..]) != s.value.rows
    {
      hide HasGhost, RowChanges, Xor;
      if s.None? {
        return false;
      }
      var rows := s.value.rows;
      changed := false;
      var row := 0;
      while row < board.rows && !changed
        invariant 0 <= row <= board.rows
        invariant changed <==> previous[..row] != rows[..row]
        modifies {}
      {
        XorIsZero(previous[row], rows[row]);
        assert previous[..row + 1] == previous[..row] + [previous[row]] && rows[..row + 1] == rows[..row] + [rows[row]];
        changed := changed || Xor(previous[row], rows[row]) != 0;
        row := row + 1;
      }
      ScannedAll(previous[..], rows, row);
      if !changed {
        NoChanges(board, Value(), s.value, board.rows);
        return;
      }
      for r := 0 to board.rows
        invariant Value() == ScanRows(board, old(Value()), s.value, r)
      {
        ScanOne(r, s.value);
      }
    }

    // One row of its loop.
    method ScanOne(row: nat, s: Scan)
      requires Valid() && Fits(board, s) && row < board.rows
      modifies this`log, previous
      ensures Value() == ScanRow(board, old(Value()), s, row)
    {
      hide HasGhost, RowChanges, Xor;
      var changes := Xor(s.rows[row], previous[row]);
      XorIsZero(s.rows[row], previous[row]);
      if changes == 0 {
        return;
      }
      var ghosted := HasGhostInRow(s.rows, row);
      if ghosted {
        return;
      }
      ReportRow(row, s);
      previous[row] := s.rows[row];
    }
  }

  lemma NoColumns(log: seq<Change>, row: nat, was: bv32, now: bv32, s: Scan)
    ensures log + RowChanges(row, was, now, s, 0) == log
  {
  }

  lemma ScannedAll(previous: seq<bv32>, rows: seq<bv32>, n: nat)
    requires |previous| == |rows| && n <= |rows|
    ensures previous[..n] != rows[..n] ==> previous != rows
    ensures n == |rows| ==> (previous[..n] == rows[..n] <==> previous == rows)
  {
    assert previous[..|rows|] == previous && rows[..|rows|] == rows;
  }
}
