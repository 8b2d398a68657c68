// The deferred executor of quantum/deferred_exec.c as functions on values: a table of entries, an 8-bit
// token counter that wraps, and a scheduler on a 32-bit clock that wraps. Callbacks may call back into
// the table while a pass over it is under way.
module DeferredExec {
  import opened Clock

  const INVALID_TOKEN: u8 := 0

  // A callback is a non-zero number; zero stands for NULL.
  datatype Entry = Entry(token: u8, trigger: u32, callback: nat, arg: int)

  const EMPTY := Entry(INVALID_TOKEN, 0, 0, 0)

  datatype Exec = Exec(current: u8, table: seq<Entry>)

  // What a callback does before it returns: calls on the same table, each with the clock it reads, and
  // allocations in other tables, which move the shared counter on by some increments.
  datatype Op =
    | Defer(now: u32, delay: u32, callback: nat, arg: int)
    | Extend(at: u32, token: u8, delay: u32)
    | Cancel(token: u8)
    | Elsewhere(moves: nat)

  // A callback's behaviour in one invocation: its calls and the value it returns.
  datatype Script = Script(ops: seq<Op>, delay: u32)

  // One invocation: the slot and the entry that was due.
  datatype Fired = Fired(slot: nat, entry: Entry)

  // ---- Tokens -----------------------------------------------------------------------------------

  predicate Live(table: seq<Entry>, token: u8) {
    exists i :: 0 <= i < |table| && table[i].token == token
  }

  // token_can_be_used
  predicate Usable(table: seq<Entry>, token: u8) {
    token != INVALID_TOKEN && !Live(table, token)
  }

  function Plus(c: u8, n: nat): u8 { (c + n) % 256 }

  lemma PlusPlus(c: u8, a: nat, b: nat)
    ensures Plus(Plus(c, a), b) == Plus(c, a + b)
  {
  }

  lemma PlusApart(c: u8, a: nat, b: nat)
    requires a < b < a + 256
    ensures Plus(c, a) != Plus(c, b)
  {
  }

  lemma FirstIncrement(c: u8)
    ensures (c + 1) % 256 == Plus(c, 1)
  {
  }

  // One increment of the wrapping counter, and when it is back where the search began.
  lemma Increment(c: u8, n: nat, v: u8)
    requires 1 <= n <= 256 && v == Plus(c, n)
    ensures (v + 1) % 256 == Plus(c, n + 1)
    ensures (v + 1) % 256 == Plus(c, 1) <==> n == 256
  {
    PlusPlus(c, n, 1);
    if n == 256 {
      FullTurn(c);
    } else {
      assert (v + 1) % 256 == Plus(c, n + 1);
      hide Plus;
      PlusApart(c, 1, n + 1);
    }
  }

  lemma FullTurn(c: u8)
    ensures Plus(c, 257) == Plus(c, 1)
  {
  }

  // The least number of increments, from n on, that leads from c to a usable token; 257 when none of
  // the 256 values is.
  function FirstUsable(table: seq<Entry>, c: u8, n: nat): (m: nat)
    requires 1 <= n <= 257
    ensures n <= m <= 257
    ensures m <= 256 ==> Usable(table, Plus(c, m))
    ensures forall j :: n <= j < m ==> !Usable(table, Plus(c, j))
    decreases 257 - n
  {
    if n == 257 || Usable(table, Plus(c, n)) then n else FirstUsable(table, c, n + 1)
  }

  lemma SearchOn(table: seq<Entry>, c: u8, n: nat)
    requires 1 <= n <= 257
    ensures FirstUsable(table, c, n)
         == if n == 257 || Usable(table, Plus(c, n)) then n else FirstUsable(table, c, n + 1)
  {
  }

  // allocate_token: the counter after the search and the token, 0 when there is none.
  function Allocate(x: Exec): (u8, u8) {
    var n := FirstUsable(x.table, x.current, 1);
    if n <= 256 then (Plus(x.current, n), Plus(x.current, n)) else (Plus(x.current, 1), INVALID_TOKEN)
  }

  // Index of the first entry with this token, or the size of the table.
  function Find(table: seq<Entry>, token: u8): (i: nat)
    ensures i <= |table|
    ensures i < |table| ==> table[i].token == token
    ensures forall j :: 0 <= j < i ==> table[j].token != token
  {
    if table == [] || table[0].token == token then 0 else 1 + Find(table[1..], token)
  }

  // ---- The calls --------------------------------------------------------------------------------

  // defer_exec_advanced: the new state and the token returned.
  function DeferExec(x: Exec, now: u32, delay: u32, callback: nat, arg: int): (Exec, u8) {
    var i := Find(x.table, INVALID_TOKEN);
    if delay == 0 || callback == 0 || i == |x.table| then (x, INVALID_TOKEN)
    else
      var (counter, token) := Allocate(x);
      if token == INVALID_TOKEN then (Exec(counter, x.table), INVALID_TOKEN)
      else (Exec(counter, x.table[i := Entry(token, (now + delay) % WRAP32, callback, arg)]), token)
  }

  function ExtendExec(x: Exec, now: u32, token: u8, delay: u32): (Exec, bool) {
    var i := Find(x.table, token);
    if delay == 0 || token == INVALID_TOKEN || i == |x.table| then (x, false)
    else (x.(table := x.table[i := x.table[i].(trigger := (now + delay) % WRAP32)]), true)
  }

  function CancelExec(x: Exec, token: u8): (Exec, bool) {
    var i := Find(x.table, token);
    if token == INVALID_TOKEN || i == |x.table| then (x, false)
    else (x.(table := x.table[i := EMPTY]), true)
  }

  function Apply(x: Exec, op: Op): (x': Exec)
    ensures |x'.table| == |x.table|
  {
    match op
    case Defer(now, delay, callback, arg) => DeferExec(x, now, delay, callback, arg).0
    case Extend(now, token, delay) => ExtendExec(x, now, token, delay).0
    case Cancel(token) => CancelExec(x, token).0
    case Elsewhere(moves) => x.(current := Plus(x.current, moves))
  }

  function ApplyAll(x: Exec, ops: seq<Op>): (x': Exec)
    ensures |x'.table| == |x.table|
    decreases |ops|
  {
    if ops == [] then x else Apply(ApplyAll(x, ops[..|ops| - 1]), ops[|ops| - 1])
  }

  // ---- The task ---------------------------------------------------------------------------------

  predicate Due(e: Entry, now: u32) {
    e.token != INVALID_TOKEN && SignedDiff32(e.trigger, now) <= 0
  }

  // One turn of the loop over the table.
  function RunSlot(x: Exec, i: nat, now: u32, script: Script): (x': Exec)
    requires i < |x.table|
    ensures |x'.table| == |x.table|
  {
    var e := x.table[i];
    if !Due(e, now) then x
    else
      var y := ApplyAll(x, script.ops);
      var f := y.table[i];
      if f.token != e.token then y
      else if script.delay > 0 then y.(table := y.table[i := f.(trigger := (f.trigger + script.delay) % WRAP32)])
      else y.(table := y.table[i := EMPTY])
  }

  // The first n turns.
  function RunSlots(x: Exec, n: nat, now: u32, scripts: nat -> Script): (x': Exec)
    requires n <= |x.table|
    ensures |x'.table| == |x.table|
  {
    if n == 0 then x else RunSlot(RunSlots(x, n - 1, now, scripts), n - 1, now, scripts(n - 1))
  }

  // The invocations of the first n turns, oldest first.
  function Invocations(x: Exec, n: nat, now: u32, scripts: nat -> Script): seq<Fired>
    requires n <= |x.table|
  {
    if n == 0 then []
    else
      var e := RunSlots(x, n - 1, now, scripts).table[n - 1];
      Invocations(x, n - 1, now, scripts) + if Due(e, now) then [Fired(n - 1, e)] else []
  }

  // deferred_exec_advanced_task: at most one pass a millisecond.
  predicate Runs(now: u32, last: u32) { SignedDiff32(now, last) > 0 }

  // What a call of the task leaves: the executor, the time of the last pass, and the invocations it made.
  datatype Tasked = Tasked(x: Exec, last: u32, fired: seq<Fired>)

  function TaskCall(x: Exec, last: u32, now: u32, scripts: nat -> Script): Tasked {
    if Runs(now, last) then
      Tasked(RunSlots(x, |x.table|, now, scripts), now, Invocations(x, |x.table|, now, scripts))
    else Tasked(x, last, [])
  }

  // ---- Whole histories --------------------------------------------------------------------------

  datatype Event = Call(op: Op) | Pass(now: u32, scripts: nat -> Script)

  function Step(x: Exec, e: Event): (x': Exec)
    ensures |x'.table| == |x.table|
  {
    match e
    case Call(op) => Apply(x, op)
    case Pass(now, scripts) => RunSlots(x, |x.table|, now, scripts)
  }

  function History(x: Exec, events: seq<Event>): (x': Exec)
    ensures |x'.table| == |x.table|
    decreases |events|
  {
    if events == [] then x else Step(History(x, events[..|events| - 1]), events[|events| - 1])
  }

  function Initial(size: nat): Exec {
    Exec(0, seq(size, _ => EMPTY))
  }
}
