// The sending side of drivers/bluetooth/bluefruit_le.cpp over its two ring buffers.
module ReportSender {
  import opened Clock
  import opened AtCommands
  import opened RingBuffers
  import opened ReportQueue
  import opened Sdep

  class Sender {
    const sendBuf: RingBuffer<Item>
    const respBuf: RingBuffer<u16>
    // The packets sent, the tries they belong to, and the reports accepted.
    var wire: seq<Packet>
    ghost var log: seq<Try>
    ghost var offered: seq<Item>

    ghost predicate Valid()
      reads this, sendBuf, respBuf
    {
      && sendBuf.Valid() && respBuf.Valid()
      && sendBuf.buf.Length == CAPACITY + 1 && respBuf.buf.Length == 2
      && (sendBuf as object) != respBuf && (sendBuf.buf as object) != respBuf.buf
      && AreTries(log) && wire == Wire(log)
    }

    ghost function Value(): Link
      requires Valid()
      reads this, sendBuf, respBuf, sendBuf.buf, respBuf.buf
    {
      Link(sendBuf.Items(), respBuf.Items() != [], log, offered)
    }

    constructor ()
      ensures Valid() && fresh(sendBuf) && fresh(respBuf) && fresh(sendBuf.buf) && fresh(respBuf.buf)
      ensures Value() == Run([])
    {
      sendBuf := new RingBuffer<Item>(CAPACITY + 1);
      respBuf := new RingBuffer<u16>(2);
      wire := [];
      log := [];
      offered := [];
    }

    // resp_buf_read_one; `consumed` says whether the answer is read or has timed out.
    method ReadOne(consumed: bool)
      requires Valid()
      modifies respBuf`tail
      ensures Valid()
      ensures Value() == old(Value()).(pending := old(Value()).pending && !consumed)
      ensures |respBuf.Items()| <= |old(respBuf.Items())|
      ensures consumed ==> respBuf.Items() == []
    {
      var ok, lastSend := respBuf.Peek();
      if !ok {
        return;
      }
      if consumed {
        ok, lastSend := respBuf.Get(true);
      }
    }

    // The end of at_command when no answer is asked for: note that one is pending, once there is room.
    method NoteSent(now: u16, waits: nat)
      requires Valid()
      modifies respBuf, respBuf.buf
      ensures Valid() && Value() == old(Value()).(pending := true)
    {
      var ok := respBuf.Enqueue(now);
      var left: nat := waits;
      while !ok
        invariant Valid() && sendBuf.Items() == old(sendBuf.Items())
        invariant respBuf.Items() != []
        decreases !ok, left
      {
        ReadOne(left == 0);
        left := if left > 0 then left - 1 else 0;
        ok := respBuf.Enqueue(now);
      }
    }

    // at_command without an answer: the packets of the command up to the first that fails.
    method SendCommand(ghost c: Command, text: seq<u8>, through: nat, waits: nat, now: u16) returns (ok: bool)
      requires Valid() && IsCommand(c) && text == TextOf(c)
      modifies this`wire, this`log, respBuf, respBuf.buf
      ensures Valid() && ok == (through >= Total(c))
      ensures Value() == old(Value()).(log := old(log) + [TryOf(c, through)], pending := old(Value()).pending || ok)
    {
      hide Fragments, TextOf;
      ok := SendPackets(c, text, through);
      if ok {
        NoteSent(now, waits);
      }
    }

    method SendPackets(ghost c: Command, text: seq<u8>, through: nat) returns (ok: bool)
      requires Valid() && IsCommand(c) && text == TextOf(c)
      modifies this`wire, this`log
      ensures Valid() && ok == (through >= Total(c))
      ensures Value() == old(Value()).(log := old(log) + [TryOf(c, through)])
    {
      hide Fragments, TextOf, Wire;
      var sent;
      ok, sent := Sdep.SendCommand(text, through);
      WireAppend(log, TryOf(c, through));
      wire := wire + sent;
      log := log + [TryOf(c, through)];
    }

    // process_queue_item: the AT commands of one report up to the first that fails.
    method ProcessItem(item: Item, o: Outcome) returns (ok: bool)
      requires Valid()
      modifies this`wire, this`log, respBuf, respBuf.buf
      ensures Valid() && ok == Succeeds(item, o.through)
      ensures Value() == old(Value()).(log := old(log) + Tries(item, o.through),
                                       pending := old(Value()).pending || ok || PassesFirst(item, o.through))
    {
      hide Total, Text, Wire;
      ok := SendCommand(First(item), Text(item, 0), o.through, o.waits, o.now);
      if !ok || !item.MouseMove? {
        return;
      }
      var left := o.through - |Fragments(Text(item, 0))|;
      assert left == o.through - Total(First(item)) by { TotalIs(First(item)); }
      ok := SendCommand(Report(item, 1), Text(item, 1), left, o.waits, o.now);
      assert log == old(log) + Tries(item, o.through);
    }

    // send_buf_send_one
    method SendOne(o: Outcome)
      requires Valid()
      modifies this`wire, this`log, sendBuf`tail, respBuf, respBuf.buf
      ensures Valid() && Value() == ReportQueue.SendOne(old(Value()), o)
    {
      hide Tries, Succeeds, PassesFirst, Wire;
      var idle := respBuf.Empty();
      if !idle {
        return;
      }
      var some, item := sendBuf.Peek();
      if !some {
        return;
      }
      var ok := ProcessItem(item, o);
      if ok {
        some, item := sendBuf.Get(true);
      } else {
        ReadOne(o.consumed);
      }
    }

    method TryEnqueue(item: Item) returns (ok: bool)
      requires Valid()
      modifies this`offered, sendBuf`head, sendBuf.buf
      ensures Valid() && ok == (|old(Value()).waiting| < CAPACITY)
      ensures var q := old(Value());
        Value() == if ok then q.(waiting := q.waiting + [item], offered := q.offered + [item]) else q
    {
      ok := sendBuf.Enqueue(item);
      if ok {
        offered := offered + [item];
      }
    }

    // bluefruit_le_send_keyboard, _consumer and _mouse
    method SendReport(item: Item, outcomes: seq<Outcome>) returns (accepted: bool)
      requires Valid()
      modifies this, sendBuf, sendBuf.buf, respBuf, respBuf.buf
      ensures Valid() && (accepted, Value()) == Offer(old(Value()), item, outcomes)
    {
      hide ReportQueue.SendOne, Wire, Offer;
      var i := 0;
      ghost var start := Value();
      assert outcomes[0..] == outcomes;
      OfferTurn(start, item, outcomes, 0);
      accepted := TryEnqueue(item);
      while !accepted
        invariant Valid() && 0 <= i <= |outcomes|
        invariant accepted ==> (true, Value()) == Offer(start, item, outcomes)
        invariant !accepted ==> |sendBuf.Items()| >= CAPACITY
        invariant !accepted && i == |outcomes| ==> Offer(start, item, outcomes) == (false, Value())
        invariant !accepted && i < |outcomes| ==>
          Offer(ReportQueue.SendOne(Value(), outcomes[i]), item, outcomes[i + 1..]) == Offer(start, item, outcomes)
        decreases !accepted, |outcomes| - i
      {
        if i == |outcomes| {
          return false;
        }
        SendOne(outcomes[i]);
        i := i + 1;
        OfferTurn(Value(), item, outcomes, i);
        accepted := TryEnqueue(item);
      }
    }

    // The sending part of bluefruit_le_task
    method Task(consumed: bool, o: Outcome)
      requires Valid()
      modifies this`wire, this`log, sendBuf`tail, respBuf, respBuf.buf
      ensures Valid() && Value() == DoStep(old(Value()), ReportQueue.Task(consumed, o))
    {
      ReadOne(consumed);
      SendOne(o);
    }

    // resp_buf_wait: wait until no answer is pending.
    method WaitForAnswers(waits: nat)
      requires Valid()
      modifies respBuf`tail
      ensures Valid() && Value() == old(Value()).(pending := false)
    {
      var left: nat := waits;
      var empty := respBuf.Empty();
      while !empty
        invariant Valid() && sendBuf.Items() == old(sendBuf.Items())
        invariant empty <==> respBuf.Items() == []
        decreases !empty, left
      {
        ReadOne(left == 0);
        left := if left > 0 then left - 1 else 0;
        empty := respBuf.Empty();
      }
    }

    // at_command with an answer, up to the reading of that
    method Query(text: seq<u8>, through: nat, waits: nat) returns (ok: bool)
      requires Valid()
      modifies this`wire, this`log, respBuf`tail
      ensures Valid() && Value() == DoStep(old(Value()), ReportQueue.Query(text, through))
      ensures ok == (through >= Total(Ask(text)))
    {
      hide Fragments, Wire;
      WaitForAnswers(waits);
      ok := SendPackets(Ask(text), text, through);
    }
  }

  // One look at the ring in the loop of a new report.
  lemma OfferTurn(q: Link, item: Item, outcomes: seq<Outcome>, i: nat)
    requires i <= |outcomes|
    ensures Offer(q, item, outcomes[i..])
         == if |q.waiting| < CAPACITY then (true, q.(waiting := q.waiting + [item], offered := q.offered + [item]))
            else if i == |outcomes| then (false, q)
            else Offer(ReportQueue.SendOne(q, outcomes[i]), item, outcomes[i + 1..])
  {
    hide ReportQueue.SendOne;
    if i < |outcomes| {
      assert outcomes[i..][1..] == outcomes[i + 1..];
    }
  }

  lemma WireAppend(log: seq<Try>, t: Try)
    requires AreTries(log) && IsTry(t)
    ensures AreTries(log + [t])
    ensures Wire(log + [t]) == Wire(log) + Fragments(TextOf(t.command))[..t.packets]
  {
    hide Fragments;
    assert (log + [t])[..|log|] == log;
  }

  lemma TotalIs(c: Command)
    requires IsCommand(c)
    ensures Total(c) == |Fragments(TextOf(c))|
  {
  }
}
