// SDEP packets of the Bluefruit driver: a text is cut into packets of 16 bytes and put together again.
module Sdep {
  import opened Clock

  const MAX_PAYLOAD := 16

  datatype Packet = Packet(more: bool, payload: seq<u8>)

  // sdep_build_pkt
  function BuildPacket(payload: seq<u8>, moreData: bool): Packet {
    Packet(moreData && |payload| == MAX_PAYLOAD, payload)
  }

  // The packets of a command, as at_command sends them.
  function Fragments(text: seq<u8>): (packets: seq<Packet>)
    ensures packets != []
  {
    if |text| > MAX_PAYLOAD
    then [BuildPacket(text[..MAX_PAYLOAD], true)] + Fragments(text[MAX_PAYLOAD..])
    else [BuildPacket(text, false)]
  }

  function Payloads(packets: seq<Packet>): seq<u8> {
    if packets == [] then [] else packets[0].payload + Payloads(packets[1..])
  }

  // All packets but the last are full and announce more; the last announces the end; together they are
  // the text, in as few packets as possible.
  lemma {:induction false} FragmentsFrame(text: seq<u8>)
    ensures var p := Fragments(text); var n := |p| - 1;
      && (forall i :: 0 <= i < n ==> p[i].more && |p[i].payload| == MAX_PAYLOAD)
      && !p[n].more && |p[n].payload| <= MAX_PAYLOAD && (n > 0 ==> p[n].payload != [])
      && Payloads(p) == text && |text| == MAX_PAYLOAD * n + |p[n].payload|
  {
    var p := Fragments(text);
    if |text| > MAX_PAYLOAD {
      FragmentsFrame(text[MAX_PAYLOAD..]);
      assert p[1..] == Fragments(text[MAX_PAYLOAD..]);
      assert text == text[..MAX_PAYLOAD] + text[MAX_PAYLOAD..];
    } else {
      assert p[1..] == [];
    }
  }

  // ---- Reassembly -----------------------------------------------------------------------------------------

  // Room left in the buffer as read_response sees it: the pointer difference passed as a uint8_t.
  function Room8(room: nat): u8 { room % 256 }

  function Taken(p: Packet, room: nat): (n: nat)
    ensures n <= |p.payload| && n <= room
  {
    if |p.payload| < Room8(room) then |p.payload| else Room8(room)
  }

  // What the receiving loop stores of these packets, up to the first that announces no more, when there
  // is room for this many bytes.
  function Reassembled(packets: seq<Packet>, room: nat): (text: seq<u8>)
    ensures |text| <= room
  {
    if packets == [] then []
    else
      var n := Taken(packets[0], room);
      packets[0].payload[..n] + if packets[0].more then Reassembled(packets[1..], room - n) else []
  }

  lemma {:induction false} NeverLonger(packets: seq<Packet>, room: nat)
    ensures |Reassembled(packets, room)| <= |Payloads(packets)|
  {
    if packets != [] {
      NeverLonger(packets[1..], room - Taken(packets[0], room));
    }
  }

  function Least(a: nat, b: nat): nat { if a < b then a else b }

  lemma ReassembledStep(text: seq<u8>, room: nat)
    requires |text| > MAX_PAYLOAD
    ensures var n := Least(MAX_PAYLOAD, Room8(room));
      && n <= room
      && Reassembled(Fragments(text), room) == text[..n] + Reassembled(Fragments(text[MAX_PAYLOAD..]), room - n)
  {
    hide Reassembled, Room8, Fragments;
    var first, rest := BuildPacket(text[..MAX_PAYLOAD], true), Fragments(text[MAX_PAYLOAD..]);
    FragmentsCons(text);
    ReassembledCons(first, rest, room);
    var n := Taken(first, room);
    assert n == Least(MAX_PAYLOAD, Room8(room));
    assert text[..MAX_PAYLOAD][..n] == text[..n];
  }

  lemma FragmentsCons(text: seq<u8>)
    requires |text| > MAX_PAYLOAD
    ensures Fragments(text) == [BuildPacket(text[..MAX_PAYLOAD], true)] + Fragments(text[MAX_PAYLOAD..])
  {
  }

  lemma ReassembledCons(p: Packet, packets: seq<Packet>, room: nat)
    requires p.more
    ensures Reassembled([p] + packets, room)
         == p.payload[..Taken(p, room)] + Reassembled(packets, room - Taken(p, room))
  {
    assert ([p] + packets)[1..] == packets;
  }

  lemma ReassembledLast(text: seq<u8>, room: nat)
    requires |text| <= MAX_PAYLOAD
    ensures Reassembled(Fragments(text), room) == text[..Least(|text|, Room8(room))]
  {
  }

  // Reassembly restores a fragmented text exactly when it fits the size of the buffer modulo 256.
  lemma {:induction false} RestoredIff(text: seq<u8>, respLen: nat)
    ensures Reassembled(Fragments(text), respLen) == text <==> |text| <= respLen % 256
  {
    hide Fragments, Reassembled, Payloads;
    if |text| > MAX_PAYLOAD {
      var n := Least(MAX_PAYLOAD, Room8(respLen));
      var rest := text[MAX_PAYLOAD..];
      var r := Reassembled(Fragments(rest), respLen - n);
      ReassembledStep(text, respLen);
      if n == MAX_PAYLOAD {
        RestoredIff(rest, respLen - MAX_PAYLOAD);
        LessSixteen(respLen);
        assert (text[..MAX_PAYLOAD] + r)[MAX_PAYLOAD..] == r;
        assert text[..MAX_PAYLOAD] + rest == text;
      } else {
        NeverLonger(Fragments(rest), respLen - n);
        PayloadsAre(rest);
        assert |text[..n] + r| < |text|;
      }
    } else {
      ReassembledLast(text, respLen);
      assert text[..|text|] == text;
    }
  }

  lemma PayloadsAre(text: seq<u8>)
    ensures Payloads(Fragments(text)) == text
  {
    FragmentsFrame(text);
  }

  lemma LessSixteen(n: nat)
    requires n % 256 >= 16
    ensures (n - 16) % 256 == n % 256 - 16
  {
  }

  // In a buffer of at most 255 bytes a fragmented text is cut off at the end of the buffer, so the
  // terminating zero stays inside it exactly for the shorter texts.
  lemma {:induction false} CutOff(text: seq<u8>, respLen: u8)
    ensures Reassembled(Fragments(text), respLen) == text[..Least(|text|, respLen)]
    ensures |Reassembled(Fragments(text), respLen)| < respLen <==> |text| < respLen
  {
    hide Fragments, Reassembled;
    if |text| > MAX_PAYLOAD {
      var n := Least(MAX_PAYLOAD, respLen);
      var rest := text[MAX_PAYLOAD..];
      ReassembledStep(text, respLen);
      if respLen >= MAX_PAYLOAD {
        CutOff(rest, respLen - MAX_PAYLOAD);
        var m := Least(|rest|, respLen - MAX_PAYLOAD);
        assert text[..MAX_PAYLOAD] + rest[..m] == text[..MAX_PAYLOAD + m];
      } else {
        FullBuffer(Fragments(rest));
        assert text[..n] + [] == text[..respLen];
      }
    } else {
      ReassembledLast(text, respLen);
    }
  }

  lemma {:induction false} FullBuffer(packets: seq<Packet>)
    ensures Reassembled(packets, 0) == []
  {
    if packets != [] {
      FullBuffer(packets[1..]);
    }
  }

  // ---- What the module makes of the packets -----------------------------------------------------------------

  // Commands put together so far, and the beginning of the next.
  datatype Heard = Heard(commands: seq<seq<u8>>, partial: seq<u8>)

  function Hear(h: Heard, p: Packet): Heard {
    if p.more then Heard(h.commands, h.partial + p.payload) else Heard(h.commands + [h.partial + p.payload], [])
  }

  function HearAll(wire: seq<Packet>): Heard {
    if wire == [] then Heard([], []) else Hear(HearAll(wire[..|wire| - 1]), wire[|wire| - 1])
  }

  // The i-th packet of a text.
  lemma {:induction false} FragmentIs(text: seq<u8>, i: nat)
    requires i < |Fragments(text)|
    ensures MAX_PAYLOAD * i <= |text|
    ensures i + 1 < |Fragments(text)| ==> MAX_PAYLOAD * (i + 1) <= |text|
    ensures Fragments(text)[i]
         == if i + 1 < |Fragments(text)| then Packet(true, text[MAX_PAYLOAD * i..MAX_PAYLOAD * (i + 1)])
            else Packet(false, text[MAX_PAYLOAD * i..])
  {
    if |text| > MAX_PAYLOAD && i > 0 {
      var rest := text[MAX_PAYLOAD..];
      assert Fragments(text)[1..] == Fragments(rest);
      FragmentIs(rest, i - 1);
    }
  }

  // After the first n packets of a text: all of it, behind what was left over, or the beginning of it.
  lemma {:induction false} HearFragments(wire: seq<Packet>, text: seq<u8>, n: nat)
    requires n <= |Fragments(text)|
    ensures n < |Fragments(text)| ==> MAX_PAYLOAD * n <= |text|
    ensures var h := HearAll(wire);
      HearAll(wire + Fragments(text)[..n])
      == if n == |Fragments(text)| then Heard(h.commands + [h.partial + text], [])
         else Heard(h.commands, h.partial + text[..MAX_PAYLOAD * n])
  {
    var p := Fragments(text);
    if n == 0 {
      assert wire + p[..0] == wire;
      assert HearAll(wire).partial + text[..0] == HearAll(wire).partial;
    } else {
      hide Fragments, HearAll, Hear;
      HearFragments(wire, text, n - 1);
      FragmentIs(text, n - 1);
      assert wire + p[..n] == wire + p[..n - 1] + [p[n - 1]];
      HearOneMore(wire + p[..n - 1], p[n - 1]);
      HearPiece(HearAll(wire), text, MAX_PAYLOAD * (n - 1));
    }
  }

  lemma HearOneMore(wire: seq<Packet>, p: Packet)
    ensures HearAll(wire + [p]) == Hear(HearAll(wire), p)
  {
    assert (wire + [p])[..|wire|] == wire;
  }

  lemma HearPiece(h: Heard, text: seq<u8>, m: nat)
    requires m <= |text|
    ensures m + MAX_PAYLOAD <= |text| ==>
      Hear(Heard(h.commands, h.partial + text[..m]), Packet(true, text[m..m + MAX_PAYLOAD]))
      == Heard(h.commands, h.partial + text[..m + MAX_PAYLOAD])
    ensures Hear(Heard(h.commands, h.partial + text[..m]), Packet(false, text[m..]))
         == Heard(h.commands + [h.partial + text], [])
  {
    if m + MAX_PAYLOAD <= |text| {
      Rejoin(h.partial, text[..m + MAX_PAYLOAD], m);
      assert text[..m + MAX_PAYLOAD][..m] == text[..m] && text[..m + MAX_PAYLOAD][m..] == text[m..m + MAX_PAYLOAD];
    }
    Rejoin(h.partial, text, m);
  }

  lemma Rejoin(a: seq<u8>, t: seq<u8>, m: nat)
    requires m <= |t|
    ensures a + t[..m] + t[m..] == a + t
  {
  }

  // ---- The loops of the driver ----------------------------------------------------------------------------

  datatype Received = NoPacket | NotResponse | Response(packet: Packet)

  lemma {:induction false} FragmentsAt(text: seq<u8>, done: nat, sent: seq<Packet>)
    requires done <= |text|
    requires Fragments(text) == sent + Fragments(text[done..])
    requires |text| - done > MAX_PAYLOAD
    ensures Fragments(text)
         == sent + [BuildPacket(text[done..][..MAX_PAYLOAD], true)] + Fragments(text[done + MAX_PAYLOAD..])
  {
    assert text[done..][MAX_PAYLOAD..] == text[done + MAX_PAYLOAD..];
  }

  // The fragmenting loop of at_command against a link that lets this many packets through before the first
  // that fails.
  method SendCommand(cmd: seq<u8>, through: nat) returns (ok: bool, sent: seq<Packet>)
    ensures ok <==> |Fragments(cmd)| <= through
    ensures sent == Fragments(cmd)[..Least(through, |Fragments(cmd)|)]
  {
    hide BuildPacket;
    var done := 0;
    sent := [];
    assert cmd[0..] == cmd;
    while |cmd| - done > MAX_PAYLOAD
      invariant 0 <= done <= |cmd| && |sent| <= through
      invariant Fragments(cmd) == sent + Fragments(cmd[done..])
    {
      FragmentsAt(cmd, done, sent);
      var msg := BuildPacket(cmd[done..][..MAX_PAYLOAD], true);
      if |sent| == through {
        return false, sent;
      }
      sent := sent + [msg];
      done := done + MAX_PAYLOAD;
    }
    assert Fragments(cmd) == sent + [BuildPacket(cmd[done..], false)];
    var msg := BuildPacket(cmd[done..], false);
    if |sent| == through {
      return false, sent;
    }
    return true, sent + [msg];
  }

  // The packets of a response that is received in full: all of them up to the one that ends it.
  function Complete(stream: seq<Received>): Option<seq<Packet>> {
    if stream == [] || !stream[0].Response? then None
    else if !stream[0].packet.more then Some([stream[0].packet])
    else
      match Complete(stream[1..])
      case None => None
      case Some(rest) => Some([stream[0].packet] + rest)
  }

  datatype Option<T> = None | Some(value: T)

  // The receiving loop of read_response. `memory` is the buffer and what lies behind it.
  method ReadResponse(memory: array<u8>, respLen: nat, stream: seq<Received>) returns (complete: bool, end: nat)
    requires respLen < memory.Length
    modifies memory
    ensures complete <==> Complete(stream).Some?
    ensures complete ==>
      var text := Reassembled(Complete(stream).value, respLen);
      end == |text| && memory[..end] == text && memory[end] == 0
    ensures complete ==> memory[end + 1..] == old(memory[end + 1..])
    ensures memory[respLen + 1..] == old(memory[respLen + 1..])
  {
    hide Taken, Room8, Complete, Tail;
    end := 0;
    var i := 0;
    ghost var all := Tail(Complete(stream), respLen);
    assert stream[0..] == stream && [] + all == all;
    var more := true;
    while more
      invariant 0 <= i <= |stream| && 0 <= end <= respLen
      invariant more ==> (Complete(stream[i..]).Some? <==> Complete(stream).Some?)
      invariant more && Complete(stream).Some? ==> memory[..end] + Tail(Complete(stream[i..]), respLen - end) == all
      invariant !more ==> Complete(stream).Some? && memory[..end] == all
      invariant forall k :: end <= k < memory.Length ==> memory[k] == old(memory[k])
      decreases more, |stream| - i
    {
      Ends(stream, i);
      if i == |stream| || stream[i].NoPacket? {
        return false, end;
      }
      if stream[i].NotResponse? {
        memory[0] := 0;
        return false, end;
      }
      NextPacket(stream, i, respLen - end);
      more, end := TakePacket(memory, end, respLen, stream[i].packet);
      i := i + 1;
    }
    TailIs(Complete(stream), respLen);
    memory[end] := 0;
    complete := true;
  }

  // One packet of its loop.
  method TakePacket(memory: array<u8>, at: nat, respLen: nat, msg: Packet) returns (more: bool, end: nat)
    requires at <= respLen < memory.Length
    modifies memory
    ensures more == msg.more && end == at + Taken(msg, respLen - at)
    ensures memory[..end] == old(memory[..at]) + msg.payload[..end - at]
    ensures forall k :: end <= k < memory.Length ==> memory[k] == old(memory[k])
  {
    hide Taken;
    var n := Taken(msg, respLen - at);
    CopyIn(memory, at, msg.payload[..n]);
    return msg.more, at + n;
  }

  lemma Ends(stream: seq<Received>, i: nat)
    requires i <= |stream|
    ensures i == |stream| || !stream[i].Response? ==> Complete(stream[i..]).None?
  {
  }

  lemma TailIs(packets: Option<seq<Packet>>, room: nat)
    ensures packets.Some? ==> Tail(packets, room) == Reassembled(packets.value, room)
  {
  }

  ghost function Tail(packets: Option<seq<Packet>>, room: nat): seq<u8> {
    if packets.None? then [] else Reassembled(packets.value, room)
  }

  lemma NextPacket(stream: seq<Received>, i: nat, room: nat)
    requires i < |stream| && stream[i].Response?
    ensures var p := stream[i].packet; var n := Taken(p, room); var now := Complete(stream[i..]);
      && (now.Some? <==> !p.more || Complete(stream[i + 1..]).Some?)
      && (now.Some? ==>
            Tail(now, room) == p.payload[..n] + if p.more then Tail(Complete(stream[i + 1..]), room - n) else [])
  {
    assert stream[i..][1..] == stream[i + 1..];
    var now := Complete(stream[i..]);
    if now.Some? && stream[i].packet.more {
      assert now.value[1..] == Complete(stream[i + 1..]).value;
    }
  }

  // memcpy into the buffer
  method CopyIn(memory: array<u8>, at: nat, data: seq<u8>)
    requires at + |data| <= memory.Length
    modifies memory
    ensures memory[..at + |data|] == old(memory[..at]) + data
    ensures forall k :: at + |data| <= k < memory.Length ==> memory[k] == old(memory[k])
  {
    for j := 0 to |data|
      invariant forall k :: 0 <= k < at ==> memory[k] == old(memory[k])
      invariant forall k :: 0 <= k < j ==> memory[at + k] == data[k]
      invariant forall k :: at + j <= k < memory.Length ==> memory[k] == old(memory[k])
    {
      memory[at + j] := data[j];
    }
  }

  // Sending and receiving are inverse: the packets of a text, received one after the other into a buffer
  // of respLen bytes, give it back exactly when it is no longer than respLen modulo 256.
  lemma {:induction false} FragmentsAreComplete(text: seq<u8>)
    ensures Complete(Responses(Fragments(text))) == Some(Fragments(text))
  {
    var p := Fragments(text);
    assert Responses(p)[1..] == Responses(p[1..]);
    if |text| > MAX_PAYLOAD {
      FragmentsAreComplete(text[MAX_PAYLOAD..]);
      assert p[1..] == Fragments(text[MAX_PAYLOAD..]);
    }
  }

  function Responses(packets: seq<Packet>): (s: seq<Received>)
    ensures |s| == |packets| && forall i :: 0 <= i < |s| ==> s[i] == Response(packets[i])
  {
    seq(|packets|, i requires 0 <= i < |packets| => Response(packets[i]))
  }

  lemma SdepRoundTrip(text: seq<u8>, respLen: nat)
    ensures var packets := Complete(Responses(Fragments(text)));
      packets.Some? && (Reassembled(packets.value, respLen) == text <==> |text| <= respLen % 256)
  {
    FragmentsAreComplete(text);
    RestoredIff(text, respLen);
  }
}
