// quantum/deferred_exec.c as it runs: a table updated in place and a counter that is incremented in a
// search loop.
module DeferredTable {
  import opened Clock
  import opened DeferredExec

  class Table {
    const entries: array<Entry>
    var current: u8

    ghost function State(): Exec
      reads this, entries
    {
      Exec(current, entries[..])
    }

    constructor (size: nat)
      ensures fresh(entries) && State() == Initial(size)
    {
      entries := new Entry[size](_ => EMPTY);
      current := 0;
    }

    // token_can_be_used
    method TokenCanBeUsed(token: u8) returns (ok: bool)
      ensures ok == Usable(entries[..], token)
    {
      if token == INVALID_TOKEN {
        return false;
      }
      for i := 0 to entries.Length
        invariant forall j :: 0 <= j < i ==> entries[j].token != token
      {
        if entries[i].token == token {
          assert entries[..][i].token == token;
          return false;
        }
      }
      return true;
    }

    // allocate_token
    method AllocateToken() returns (token: u8)
      modifies this`current
      ensures (current, token) == Allocate(old(State()))
    {
      hide Usable, Plus, FirstUsable;
      ghost var c, all := current, entries[..];
      ghost var n := 1;
      FirstIncrement(c);
      current := (current + 1) % 256;
      var first := current;
      var ok := TokenCanBeUsed(current);
      while !ok
        invariant entries[..] == all
        invariant 1 <= n <= 256 && current == Plus(c, n) && first == Plus(c, 1)
        invariant ok == Usable(all, current)
        invariant FirstUsable(all, c, 1) == FirstUsable(all, c, n)
        decreases 256 - n, !ok
      {
        SearchOn(all, c, n);
        SearchOn(all, c, n + 1);
        Increment(c, n, current);
        current := (current + 1) % 256;
        n := n + 1;
        if current == first {
          return INVALID_TOKEN;
        }
        ok := TokenCanBeUsed(current);
      }
      SearchOn(all, c, n);
      return current;
    }

    // defer_exec_advanced
    method DeferExecAdvanced(now: u32, delay: u32, callback: nat, arg: int) returns (token: u8)
      modifies this`current, entries
      ensures (State(), token) == DeferExec(old(State()), now, delay, callback, arg)
    {
      if entries.Length == 0 || delay == 0 || callback == 0 {
        return INVALID_TOKEN;
      }
      for i := 0 to entries.Length
        invariant forall j :: 0 <= j < i ==> entries[j].token != INVALID_TOKEN
        invariant current == old(current) && entries[..] == old(entries[..])
      {
        if entries[i].token == INVALID_TOKEN {
          assert Find(entries[..], INVALID_TOKEN) == i;
          token := AllocateToken();
          if token == INVALID_TOKEN {
            return INVALID_TOKEN;
          }
          entries[i] := Entry(current, (now + delay) % WRAP32, callback, arg);
          return current;
        }
      }
      return INVALID_TOKEN;
    }

    // extend_deferred_exec_advanced
    method ExtendDeferredExec(now: u32, token: u8, delay: u32) returns (ok: bool)
      modifies entries
      ensures (State(), ok) == ExtendExec(old(State()), now, token, delay)
    {
      if entries.Length == 0 || delay == 0 || token == INVALID_TOKEN {
        return false;
      }
      for i := 0 to entries.Length
        invariant forall j :: 0 <= j < i ==> entries[j].token != token
        invariant entries[..] == old(entries[..])
      {
        if entries[i].token == token {
          assert Find(entries[..], token) == i;
          entries[i] := entries[i].(trigger := (now + delay) % WRAP32);
          return true;
        }
      }
      return false;
    }

    // cancel_deferred_exec_advanced
    method CancelDeferredExec(token: u8) returns (ok: bool)
      modifies entries
      ensures (State(), ok) == CancelExec(old(State()), token)
    {
      if entries.Length == 0 || token == INVALID_TOKEN {
        return false;
      }
      for i := 0 to entries.Length
        invariant forall j :: 0 <= j < i ==> entries[j].token != token
        invariant entries[..] == old(entries[..])
      {
        if entries[i].token == token {
          assert Find(entries[..], token) == i;
          entries[i] := EMPTY;
          return true;
        }
      }
      return false;
    }

    // A callback at work: its calls in order.
    method Callback(script: Script) returns (delay: u32)
      modifies this`current, entries
      ensures State() == ApplyAll(old(State()), script.ops) && delay == script.delay
    {
      for i := 0 to |script.ops|
        invariant State() == ApplyAll(old(State()), script.ops[..i])
      {
        assert script.ops[..i + 1][..i] == script.ops[..i];
        match script.ops[i] {
          case Defer(now, d, callback, arg) =>
            var _ := DeferExecAdvanced(now, d, callback, arg);
          case Extend(now, token, d) =>
            var _ := ExtendDeferredExec(now, token, d);
          case Cancel(token) =>
            var _ := CancelDeferredExec(token);
          case Elsewhere(moves) =>
            current := (current + moves) % 256;
        }
      }
      assert script.ops[..|script.ops|] == script.ops;
      return script.delay;
    }

    // deferred_exec_advanced_task
    method Task(now: u32, last: u32, scripts: nat -> Script) returns (last': u32, fired: seq<Fired>)
      modifies this`current, entries
      ensures Tasked(State(), last', fired) == TaskCall(old(State()), last, now, scripts)
    {
      fired := [];
      if SignedDiff32(now, last) > 0 {
        last' := now;
        for i := 0 to entries.Length
          invariant State() == RunSlots(old(State()), i, now, scripts)
          invariant fired == Invocations(old(State()), i, now, scripts)
        {
          var entry := entries[i];
          if entry.token != INVALID_TOKEN && SignedDiff32(entry.trigger, now) <= 0 {
            fired := fired + [Fired(i, entry)];
            var delay := Callback(scripts(i));
            if entries[i].token == entry.token {
              if delay > 0 {
                entries[i] := entries[i].(trigger := (entries[i].trigger + delay) % WRAP32);
              } else {
                entries[i] := EMPTY;
              }
            }
          }
        }
      } else {
        last' := last;
      }
    }
  }
}
