// Token allocation of the deferred executor: live tokens are distinct, allocation is complete, and how
// soon a token can be reissued.
module DeferredTokens {
  import opened Clock
  import opened DeferredExec

  // ---- Live tokens are distinct -------------------------------------------------------------------

  ghost predicate Distinct(table: seq<Entry>) {
    forall i, j :: 0 <= i < j < |table| && table[i].token != INVALID_TOKEN ==> table[i].token != table[j].token
  }

  lemma ApplyKeepsDistinct(x: Exec, op: Op)
    requires Distinct(x.table)
    ensures Distinct(Apply(x, op).table)
  {
    if op.Defer? {
      var (counter, token) := Allocate(x);
      assert token != INVALID_TOKEN ==> Usable(x.table, token);
    }
  }

  lemma {:induction false} ApplyAllKeepsDistinct(x: Exec, ops: seq<Op>)
    requires Distinct(x.table)
    ensures Distinct(ApplyAll(x, ops).table)
    decreases |ops|
  {
    if ops != [] {
      ApplyAllKeepsDistinct(x, ops[..|ops| - 1]);
      ApplyKeepsDistinct(ApplyAll(x, ops[..|ops| - 1]), ops[|ops| - 1]);
    }
  }

  lemma RunSlotKeepsDistinct(x: Exec, i: nat, now: u32, script: Script)
    requires i < |x.table| && Distinct(x.table)
    ensures Distinct(RunSlot(x, i, now, script).table)
  {
    ApplyAllKeepsDistinct(x, script.ops);
  }

  lemma {:induction false} RunSlotsKeepsDistinct(x: Exec, n: nat, now: u32, scripts: nat -> Script)
    requires n <= |x.table| && Distinct(x.table)
    ensures Distinct(RunSlots(x, n, now, scripts).table)
  {
    if n > 0 {
      RunSlotsKeepsDistinct(x, n - 1, now, scripts);
      RunSlotKeepsDistinct(RunSlots(x, n - 1, now, scripts), n - 1, now, scripts(n - 1));
    }
  }

  // In every history of calls and passes, with callbacks calling back in any way, no two live entries
  // share a token.
  lemma {:induction false} HistoryKeepsDistinct(size: nat, events: seq<Event>)
    ensures Distinct(History(Initial(size), events).table)
    decreases |events|
  {
    if events != [] {
      HistoryKeepsDistinct(size, events[..|events| - 1]);
      var x := History(Initial(size), events[..|events| - 1]);
      match events[|events| - 1]
      case Call(op) => ApplyKeepsDistinct(x, op);
      case Pass(now, scripts) => RunSlotsKeepsDistinct(x, |x.table|, now, scripts);
    }
  }

  // ---- Pigeonhole over the wrapping search ----------------------------------------------------------

  function Tokens(table: seq<Entry>): (s: set<int>)
    ensures |s| <= |table|
    ensures forall i :: 0 <= i < |table| ==> table[i].token in s
  {
    if table == [] then {} else {table[0].token} + Tokens(table[1..])
  }

  // The counter values met in steps 1 to n - 1 after c.
  function Visited(c: u8, n: nat): (s: set<int>)
    requires 1 <= n <= 257
    ensures forall v :: v in s <==> exists j :: 1 <= j < n && v == Plus(c, j)
    ensures |s| == n - 1
  {
    if n == 1 then {}
    else
      NewValue(c, n - 1);
      Visited(c, n - 1) + {Plus(c, n - 1)}
  }

  lemma NewValue(c: u8, n: nat)
    requires n <= 256
    ensures forall j :: 1 <= j < n ==> Plus(c, j) != Plus(c, n)
  {
    forall j | 1 <= j < n ensures Plus(c, j) != Plus(c, n) {
      PlusApart(c, j, n);
    }
  }

  lemma {:induction false} SubsetSize<T>(a: set<T>, b: set<T>)
    requires a <= b
    ensures |a| <= |b|
  {
    if a != {} {
      var x :| x in a;
      SubsetSize(a - {x}, b - {x});
    }
  }

  // With a free slot the search skips at most one value for every entry of the table.
  lemma SearchIsShort(table: seq<Entry>, c: u8)
    requires Live(table, INVALID_TOKEN)
    ensures FirstUsable(table, c, 1) <= |table| + 1
  {
    var m := FirstUsable(table, c, 1);
    forall v | v in Visited(c, m) ensures v in Tokens(table) {
      var j :| 1 <= j < m && v == Plus(c, j);
      assert !Usable(table, Plus(c, j));
      assert Live(table, v);
    }
    SubsetSize(Visited(c, m), Tokens(table));
  }

  // Increments that lead from c to t on the circle of 256 values, 256 when they are the same.
  function Distance(c: u8, t: u8): (d: nat)
    ensures 1 <= d <= 256 && Plus(c, d) == t
    ensures forall j :: 1 <= j < d ==> Plus(c, j) != t
  {
    if t > c then t - c else t + 256 - c
  }

  predicate FirstFree(table: seq<Entry>, i: nat)
    requires i < |table|
  {
    table[i].token == INVALID_TOKEN && forall j :: 0 <= j < i ==> table[j].token != INVALID_TOKEN
  }

  // A call to defer succeeds exactly when its arguments are valid, a slot is free and some token value
  // is unused; tables of up to 255 slots always have such a value.
  lemma DeferSucceeds(x: Exec, now: u32, delay: u32, callback: nat, arg: int)
    ensures var (x', token) := DeferExec(x, now, delay, callback, arg);
      && (token != INVALID_TOKEN <==>
            delay != 0 && callback != 0 && Live(x.table, INVALID_TOKEN) && exists t: u8 :: Usable(x.table, t))
      && (|x.table| <= 255 && Live(x.table, INVALID_TOKEN) ==> exists t: u8 :: Usable(x.table, t))
      && (token != INVALID_TOKEN ==>
            && Usable(x.table, token) && x'.current == token
            && exists i :: 0 <= i < |x.table| && FirstFree(x.table, i)
                           && x' == Exec(token, x.table[i := Entry(token, (now + delay) % WRAP32, callback, arg)]))
      && (token == INVALID_TOKEN ==> x'.table == x.table)
  {
    var m := FirstUsable(x.table, x.current, 1);
    if t: u8 :| Usable(x.table, t) {
      assert Plus(x.current, Distance(x.current, t)) == t;
    }
    if Live(x.table, INVALID_TOKEN) {
      SearchIsShort(x.table, x.current);
      var i :| 0 <= i < |x.table| && x.table[i].token == INVALID_TOKEN;
      assert FirstFree(x.table, Find(x.table, INVALID_TOKEN));
      if m <= 256 {
        assert Usable(x.table, Plus(x.current, m));
      }
    } else {
      var i := Find(x.table, INVALID_TOKEN);
      assert i == |x.table|;
    }
  }

  // Extending succeeds exactly for the token of a live entry and a delay; then that entry's deadline, and
  // nothing else, is the delay from now.
  lemma ExtendMovesOne(x: Exec, now: u32, token: u8, delay: u32)
    requires Distinct(x.table)
    ensures var (x', ok) := ExtendExec(x, now, token, delay);
      && (ok <==> delay != 0 && token != INVALID_TOKEN && Live(x.table, token))
      && x'.current == x.current && |x'.table| == |x.table|
      && forall i :: 0 <= i < |x.table| ==>
           x'.table[i] == if ok && x.table[i].token == token
                          then Entry(token, (now + delay) % WRAP32, x.table[i].callback, x.table[i].arg)
                          else x.table[i]
  {
    if i :| 0 <= i < |x.table| && x.table[i].token == token {
      assert Find(x.table, token) <= i;
    }
  }

  // Cancelling succeeds exactly for the token of a live entry; then that slot, and nothing else, is free.
  lemma CancelFreesOne(x: Exec, token: u8)
    requires Distinct(x.table)
    ensures var (x', ok) := CancelExec(x, token);
      && (ok <==> token != INVALID_TOKEN && Live(x.table, token))
      && x'.current == x.current && |x'.table| == |x.table| && (ok ==> !Live(x'.table, token))
      && forall i :: 0 <= i < |x.table| ==>
           if ok && x.table[i].token == token then x'.table[i].token == INVALID_TOKEN else x'.table[i] == x.table[i]
  {
    if i :| 0 <= i < |x.table| && x.table[i].token == token {
      assert Find(x.table, token) <= i;
    }
  }

  // ---- How soon a token value can come back ---------------------------------------------------------

  // How far one call can move the counter.
  function Stride(x: Exec, op: Op): nat {
    match op
    case Defer(_, _, _, _) => |x.table| + 1
    case Elsewhere(moves) => moves
    case _ => 0
  }

  // The farthest the counter can have moved after the calls.
  function Reach(x: Exec, ops: seq<Op>): nat {
    if ops == [] then 0 else Reach(x, ops[..|ops| - 1]) + Stride(x, ops[|ops| - 1])
  }

  lemma ReachAppend(x: Exec, ops: seq<Op>, op: Op)
    ensures Reach(x, ops + [op]) == Reach(x, ops) + Stride(x, op)
  {
    assert (ops + [op])[..|ops|] == ops;
  }

  // A call to defer moves the counter by 1 to |table| + 1, or not at all.
  lemma DeferMoves(x: Exec, op: Op) returns (n: nat)
    requires op.Defer?
    ensures n <= |x.table| + 1 && Apply(x, op).current == Plus(x.current, n)
    ensures var token := DeferExec(x, op.now, op.delay, op.callback, op.arg).1;
      token != INVALID_TOKEN ==> 1 <= n && token == Plus(x.current, n)
  {
    n := 0;
    var i := Find(x.table, INVALID_TOKEN);
    if op.delay != 0 && op.callback != 0 && i < |x.table| {
      SearchIsShort(x.table, x.current);
      n := FirstUsable(x.table, x.current, 1);
      if n > 256 {
        n := 1;
      }
    } else {
      assert Plus(x.current, 0) == x.current;
    }
  }

  lemma {:induction false} CallsMove(x: Exec, ops: seq<Op>) returns (a: nat)
    ensures a <= Reach(x, ops) && ApplyAll(x, ops).current == Plus(x.current, a)
    decreases |ops|
  {
    if ops == [] {
      a := 0;
    } else {
      var before, op := ops[..|ops| - 1], ops[|ops| - 1];
      a := CallsMove(x, before);
      ReachAppend(x, before, op);
      assert before + [op] == ops;
      hide Apply, Stride, Plus;
      var n := CallMoves(ApplyAll(x, before), op);
      SameStride(x, ApplyAll(x, before), op);
      PlusPlus(x.current, a, n);
      a := a + n;
    }
  }

  lemma CallMoves(x: Exec, op: Op) returns (n: nat)
    ensures n <= Stride(x, op) && Apply(x, op).current == Plus(x.current, n)
  {
    if op.Defer? {
      n := DeferMoves(x, op);
    } else {
      n := if op.Elsewhere? then op.moves else 0;
      assert Plus(x.current, 0) == x.current;
    }
  }

  lemma SameStride(x: Exec, y: Exec, op: Op)
    requires |x.table| == |y.table|
    ensures Stride(x, op) == Stride(y, op)
  {
  }

  // No call to defer returns token t before the counter can have reached it again.
  lemma ReissueGap(x: Exec, ops: seq<Op>, op: Op, t: u8)
    requires op.Defer?
    requires Reach(x, ops + [op]) < Distance(x.current, t)
    ensures t == INVALID_TOKEN || DeferExec(ApplyAll(x, ops), op.now, op.delay, op.callback, op.arg).1 != t
  {
    var a := CallsMove(x, ops);
    var n := DeferMoves(ApplyAll(x, ops), op);
    PlusPlus(x.current, a, n);
    ReachAppend(x, ops, op);
  }

  // A token just issued stays away while fewer than 256 increments are possible: for a table of its own,
  // during 256 / (|table| + 1) further allocations.
  lemma FreshTokenGap(x: Exec, ops: seq<Op>, op: Op)
    requires op.Defer? && x.current != INVALID_TOKEN
    requires Reach(x, ops + [op]) < 256
    ensures DeferExec(ApplyAll(x, ops), op.now, op.delay, op.callback, op.arg).1 != x.current
  {
    ReissueGap(x, ops, op, x.current);
  }

  lemma {:induction false} CancelledStaysAway(x: Exec, ops: seq<Op>, at: nat, t: u8)
    requires at < |ops| && ops[at] == Cancel(t) && t != INVALID_TOKEN && Distinct(x.table)
    requires Reach(x, ops) < Distance(x.current, t)
    ensures !Live(ApplyAll(x, ops).table, t)
    decreases |ops|
  {
    var before, op := ops[..|ops| - 1], ops[|ops| - 1];
    var y := ApplyAll(x, before);
    if at == |ops| - 1 {
      ApplyAllKeepsDistinct(x, before);
    } else {
      ReachAppend(x, before, op);
      assert before + [op] == ops;
      CancelledStaysAway(x, before, at, t);
      if op.Defer? {
        ReissueGap(x, before, op, t);
      }
    }
  }

  // A callback that cancels itself and queues anew is recognised by the task whenever its calls cannot
  // carry the counter round to its own token: the new entry is left alone.
  lemma SelfCancelDetected(x: Exec, i: nat, now: u32, script: Script, at: nat)
    requires i < |x.table| && Distinct(x.table) && Due(x.table[i], now)
    requires at < |script.ops| && script.ops[at] == Cancel(x.table[i].token)
    requires Reach(x, script.ops) < Distance(x.current, x.table[i].token)
    ensures RunSlot(x, i, now, script) == ApplyAll(x, script.ops)
  {
    CancelledStaysAway(x, script.ops, at, x.table[i].token);
  }
}
