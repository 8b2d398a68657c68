// quantum/action_tapping.c as it runs: static records updated in place and a circular array of eight
// slots. Every method is tied to the function of module Tapping that specifies it.
module TappingEngine {
  import opened Tapping
  import opened Rings

  class Engine {
    var tapping: Record
    const waitingBuffer: array<Record>
    var head: nat
    var tail: nat
    // Records handed to process_record, oldest first.
    var log: seq<Record>

    ghost predicate Valid()
      reads this
    {
      waitingBuffer.Length == WAITING_BUFFER_SIZE && head < WAITING_BUFFER_SIZE && tail < WAITING_BUFFER_SIZE
    }

    ghost function Ring(): (r: seq<Record>)
      requires Valid()
      reads this, waitingBuffer
      ensures |r| < WAITING_BUFFER_SIZE
    {
      Contents(waitingBuffer[..], tail, head)
    }

    ghost function State(): Machine
      requires Valid()
      reads this, waitingBuffer
    {
      Machine(tapping, Ring(), log)
    }

    constructor ()
      ensures Valid() && fresh(waitingBuffer)
      ensures State() == INITIAL
    {
      tapping := NO_KEY;
      waitingBuffer := new Record[WAITING_BUFFER_SIZE](_ => NO_KEY);
      head, tail, log := 0, 0, [];
    }

    // process_record: ticks are dropped, everything else is handed on.
    method ProcessRecord(r: Record)
      modifies this`log
      ensures log == if IsTick(r) then old(log) else old(log) + [r]
    {
      if IsTick(r) {
        return;
      }
      log := log + [r];
    }

    method WaitingBufferEnq(r: Record) returns (ok: bool)
      requires Valid()
      modifies this`head, waitingBuffer
      ensures Valid()
      ensures ok == (IsTick(r) || |old(Ring())| < WAITING_BUFFER_SIZE - 1)
      ensures Ring() == if ok && !IsTick(r) then old(Ring()) + [r] else old(Ring())
    {
      if IsTick(r) {
        return true;
      }
      hide Contents;
      if (head + 1) % WAITING_BUFFER_SIZE == tail {
        return false;
      }
      SlotIsMod(head, 1, WAITING_BUFFER_SIZE);
      ContentsEnqueue(waitingBuffer[..], tail, head, r);
      ghost var before := waitingBuffer[..];
      waitingBuffer[head] := r;
      assert waitingBuffer[..] == before[head := r];
      head := (head + 1) % WAITING_BUFFER_SIZE;
      return true;
    }

    method WaitingBufferClear()
      requires Valid()
      modifies this`head, this`tail
      ensures Valid() && Ring() == []
    {
      head := 0;
      tail := 0;
    }

    method WaitingBufferTyped(e: Event) returns (typed: bool)
      requires Valid()
      ensures typed == Typed(Ring(), e)
    {
      var i := tail;
      ghost var n := 0;
      while i != head
        invariant i < WAITING_BUFFER_SIZE && n <= |Ring()| && i == Slot(tail, n, WAITING_BUFFER_SIZE)
        invariant forall j :: 0 <= j < n ==> !(Ring()[j].event.key == e.key && Ring()[j].event.pressed != e.pressed)
        decreases |Ring()| - n
      {
        assert n < |Ring()|;
        ContentsAt(waitingBuffer[..], tail, head, n);
        if e.key == waitingBuffer[i].event.key && e.pressed != waitingBuffer[i].event.pressed {
          return true;
        }
        i := (i + 1) % WAITING_BUFFER_SIZE;
        n := n + 1;
      }
      SlotsMeetHead(n);
      return false;
    }

    lemma SlotsMeetHead(n: nat)
      requires Valid() && n <= |Ring()| && head == Slot(tail, n, WAITING_BUFFER_SIZE)
      ensures n == |Ring()|
    {
    }

    // Overwrite slot p, which holds the n-th queued entry.
    method MarkSlot(p: nat, ghost n: nat, r: Record)
      requires Valid() && n < |Ring()| && p == Slot(tail, n, WAITING_BUFFER_SIZE)
      modifies waitingBuffer
      ensures Ring() == old(Ring())[n := r]
    {
      hide Contents;
      ContentsUpdate(waitingBuffer[..], tail, head, n, r);
      ghost var before := waitingBuffer[..];
      waitingBuffer[p] := r;
      assert waitingBuffer[..] == before[p := r];
    }

    method AdvanceTail()
      requires Valid() && tail != head
      modifies this`tail
      ensures Valid() && Ring() == old(Ring())[1..]
    {
      hide Contents;
      ContentsDequeue(waitingBuffer[..], tail, head);
      tail := (tail + 1) % WAITING_BUFFER_SIZE;
    }

    // The loop of waiting_buffer_scan_tap: the slot of the first candidate, or head.
    method FindCandidate(env: Env) returns (i: nat, ghost n: nat)
      requires Valid()
      ensures n == ScanIndex(env, tapping, Ring())
      ensures i == Slot(tail, ScanIndex(env, tapping, Ring()), WAITING_BUFFER_SIZE)
      ensures i == head <==> ScanIndex(env, tapping, Ring()) == |Ring()|
    {
      hide TapCandidate, Contents;
      ghost var ring := Ring();
      i := tail;
      n := 0;
      while i != head
        invariant n <= |ring| && i == Slot(tail, n, WAITING_BUFFER_SIZE)
        invariant forall j :: 0 <= j < n ==> !TapCandidate(env, tapping, ring[j])
        decreases |ring| - n
      {
        ContentsAt(waitingBuffer[..], tail, head, n);
        if TapCandidate(env, tapping, waitingBuffer[i]) {
          return;
        }
        i := (i + 1) % WAITING_BUFFER_SIZE;
        n := n + 1;
      }
      SlotsMeetHead(n);
    }

    // waiting_buffer_scan_tap
    method WaitingBufferScanTap(env: Env)
      requires Valid()
      requires !tapping.event.pressed || !IsTick(tapping)
      modifies this`tapping, this`log, waitingBuffer
      ensures Valid()
      ensures State() == ScanTap(env, old(State()))
    {
      hide TapCandidate, Contents, ScanIndex;
      if tapping.tap.count > 0 || !tapping.event.pressed {
        return;
      }
      var i, n := FindCandidate(env);
      if i != head {
        ContentsAt(waitingBuffer[..], tail, head, n);
        MarkSlot(i, n, SetCount(waitingBuffer[i], 1));
        tapping := SetCount(tapping, 1);
        ProcessRecord(tapping);
      }
    }

    // process_tapping. The record is passed by value and returned as the call left it; the caller
    // stores it back into the slot it came from.
    method ProcessTapping(env: Env, keyp: Record) returns (r: Record, consumed: bool)
      requires Valid()
      modifies this`tapping, this`log, waitingBuffer
      ensures Valid()
      ensures Outcome(State(), r, consumed) == Process(env, old(State()), keyp)
    {
      r := keyp;
      var event := keyp.event;

      if IsTick(tapping) {
        if IsTick(r) {
        } else if event.pressed && IsTapRecord(env, r) {
          tapping := r;
          WaitingBufferScanTap(env);
        } else {
          ProcessRecord(r);
        }
        return r, true;
      }

      if tapping.event.pressed {
        if WithinTappingTerm(env, tapping, event) {
          if IsTick(r) {
            return r, true;
          }
          if tapping.tap.count == 0 {
            consumed := false;
            if SameKey(tapping, r) && !event.pressed {
              tapping := SetCount(tapping, 1);
              ProcessRecord(tapping);
              r := r.(tap := tapping.tap);
              return r, false;
            }
            var typed := WaitingBufferTyped(event);
            if !event.pressed && typed && env.permissiveHold(tapping) {
              ProcessRecord(tapping);
              tapping := NO_KEY;
              return r, false;
            } else if !event.pressed && !typed {
              if env.retainRelease(r) {
                return r, false;
              }
              ProcessRecord(r);
              return r, true;
            } else {
              if event.pressed {
                tapping := tapping.(tap := tapping.tap.(interrupted := true));
                if env.holdOnOtherKeyPress(tapping) {
                  ProcessRecord(tapping);
                  tapping := NO_KEY;
                }
              }
              return r, false;
            }
          } else {
            if SameKey(tapping, r) && !event.pressed {
              r := r.(tap := tapping.tap);
              ProcessRecord(r);
              tapping := r;
              return r, true;
            } else if IsTapRecord(env, r) && event.pressed {
              if tapping.tap.count > 1 {
                ProcessRecord(SynthesisedRelease(tapping, event.at));
              }
              tapping := r;
              WaitingBufferScanTap(env);
              return r, true;
            } else {
              ProcessRecord(r);
              return r, true;
            }
          }
        } else {
          if tapping.tap.count == 0 {
            ProcessRecord(tapping);
            tapping := NO_KEY;
            return r, false;
          } else {
            if IsTick(r) {
              return r, true;
            }
            if SameKey(tapping, r) && !event.pressed {
              r := r.(tap := tapping.tap);
              ProcessRecord(r);
              tapping := NO_KEY;
              return r, true;
            } else if IsTapRecord(env, r) && event.pressed {
              if tapping.tap.count > 1 {
                ProcessRecord(SynthesisedRelease(tapping, event.at));
              }
              tapping := r;
              WaitingBufferScanTap(env);
              return r, true;
            } else {
              ProcessRecord(r);
              return r, true;
            }
          }
        }
      } else {
        if WithinTappingTerm(env, tapping, event) {
          if IsTick(r) {
            return r, true;
          }
          if event.pressed {
            if SameKey(tapping, r) {
              if WithinQuickTapTerm(env, tapping, event) && !tapping.tap.interrupted && tapping.tap.count > 0 {
                r := r.(tap := tapping.tap);
                if r.tap.count < MAX_TAP_COUNT {
                  r := SetCount(r, r.tap.count + 1);
                }
                ProcessRecord(r);
                tapping := r;
                return r, true;
              }
              tapping := r;
              return r, true;
            } else if IsTapRecord(env, r) {
              tapping := r;
              WaitingBufferScanTap(env);
              return r, true;
            } else {
              tapping := tapping.(tap := tapping.tap.(interrupted := true));
              ProcessRecord(r);
              return r, true;
            }
          } else {
            ProcessRecord(r);
            return r, true;
          }
        } else {
          tapping := NO_KEY;
          return r, false;
        }
      }
    }

    // One turn of the loop over the queue: offer the entry at the tail, keep what the call wrote into
    // it, and advance when it was taken.
    method DrainTail(env: Env) returns (consumed: bool)
      requires Valid() && tail != head
      modifies this`tapping, this`tail, this`log, waitingBuffer
      ensures Valid()
      ensures DrainOne(env, old(State())).machine == State()
      ensures DrainOne(env, old(State())).consumed == consumed
      ensures consumed ==> |Ring()| == |old(Ring())| - 1
    {
      hide Process, Contents;
      ContentsAt(waitingBuffer[..], tail, head, 0);
      var r;
      r, consumed := ProcessTapping(env, waitingBuffer[tail]);
      MarkSlot(tail, 0, r);
      if consumed {
        AdvanceTail();
      }
    }

    // action_tapping_process.
    method ActionTappingProcess(envs: nat -> Env, record: Record)
      requires Valid()
      modifies this, waitingBuffer
      ensures Valid()
      ensures State() == Call(envs, old(State()), record)
    {
      var r, consumed := ProcessTapping(envs(0), record);
      if !consumed {
        var ok := WaitingBufferEnq(r);
        if !ok {
          WaitingBufferClear();
          tapping := NO_KEY;
        }
      }
      assert State() == Offer(envs(0), old(State()), record);
      var n := 1;
      while tail != head
        invariant Valid()
        invariant Drain(envs, n, State()) == Call(envs, old(State()), record)
        decreases |Ring()|
      {
        consumed := DrainTail(envs(n));
        if !consumed {
          break;
        }
        n := n + 1;
      }
    }
  }
}
