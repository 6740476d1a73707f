/** What the receive loops and the packet ids guarantee. */
module SessionTheorems {
  import opened Bytes
  import opened Frames
  import opened FrameTheorems
  import opened Packets
  import opened Transports
  import opened Replies
  import opened Handshake
  import EndToEnd

  // ---------------------------------------------------------------- listening

  /** The k-th receive from now. */
  function ItemAt(st: Stream, k: nat): Item {
    if k < |st.items| then st.items[k] else Failed(st.onEmpty)
  }

  function Drop(st: Stream, k: nat): Stream {
    Stream(st.items[if k < |st.items| then k else |st.items|..], st.onEmpty)
  }

  /** The first k receives all bring frames that are not accepted. */
  predicate AllSkipped<T>(st: Stream, accept: bytes -> Option<T>, k: nat) {
    forall j :: 0 <= j < k ==> ItemAt(st, j).Arrived? && accept(ItemAt(st, j).frame).None?
  }

  predicate Accepted<T>(st: Stream, accept: bytes -> Option<T>, k: nat) {
    ItemAt(st, k).Arrived? && accept(ItemAt(st, k).frame).Some?
  }

  lemma TailItems(st: Stream, k: nat)
    ensures ItemAt(Tail(st), k) == ItemAt(st, k + 1)
    ensures Drop(Tail(st), k) == Drop(st, k + 1)
    ensures Head(st) == ItemAt(st, 0) && Drop(st, 0) == st
  {
  }

  lemma SkippedTail<T>(st: Stream, accept: bytes -> Option<T>, k: nat)
    requires AllSkipped(Tail(st), accept, k)
    requires Head(st).Arrived? && accept(Head(st).frame).None?
    ensures AllSkipped(st, accept, k + 1)
  {
    forall j | 0 <= j < k + 1 ensures ItemAt(st, j).Arrived? && accept(ItemAt(st, j).frame).None? {
      if j > 0 {
        TailItems(st, j - 1);
      }
    }
  }

  /** Where a wait stops and what it returns there. */
  lemma {:induction false} ListenStops<T>(st: Stream, accept: bytes -> Option<T>, phase: Phase, budget: nat)
    returns (k: nat)
    ensures k <= budget && AllSkipped(st, accept, k)
    ensures k < budget ==> ItemAt(st, k).Failed? || Accepted(st, accept, k)
    ensures Listen(st, accept, phase, budget) ==
      if k == budget then Got(Err(Silent(phase)), Drop(st, k), k)
      else Got(match ItemAt(st, k)
               case Failed(e) => Err(ReceiveError(e, phase))
               case Arrived(b) => (match accept(b) case Some(t) => Ok(t) case None => Err(Silent(phase))),
               Drop(st, k + 1), k + 1)
    decreases budget
  {
    hide ItemAt, Drop, Head, Tail;
    TailItems(st, 0);
    TailItems(Tail(st), 0);
    k := 0;
    if budget > 0 && Head(st).Arrived? && accept(Head(st).frame).None? {
      k := ListenStops(Tail(st), accept, phase, budget - 1);
      TailItems(st, k);
      TailItems(st, k + 1);
      SkippedTail(st, accept, k);
      k := k + 1;
    }
  }

  /** A wait succeeds exactly when an accepted frame comes within the budget and before any
      failed receive; it returns the first one and consumes exactly through it. What the frames
      before it hold does not matter. */
  lemma ListenSucceedsIff<T>(st: Stream, accept: bytes -> Option<T>, phase: Phase, budget: nat)
    ensures Listen(st, accept, phase, budget).result.Ok?
       <==> exists k :: 0 <= k < budget && AllSkipped(st, accept, k) && Accepted(st, accept, k)
    ensures forall k :: 0 <= k < budget && AllSkipped(st, accept, k) && Accepted(st, accept, k) ==>
              Listen(st, accept, phase, budget)
              == Got(Ok(accept(ItemAt(st, k).frame).value), Drop(st, k + 1), k + 1)
  {
    var s := ListenStops(st, accept, phase, budget);
    forall k | 0 <= k < budget && AllSkipped(st, accept, k) && Accepted(st, accept, k)
      ensures k == s
    {
    }
  }

  predicate IsWaitError(e: SessionError, phase: Phase) {
    e == Silent(phase) || (e.TransportFailed? && !e.transport.Timeout?)
  }

  /** What a failed wait reports: a transport error, or silence. */
  lemma ListenFailures<T>(st: Stream, accept: bytes -> Option<T>, phase: Phase, budget: nat)
    ensures var g := Listen(st, accept, phase, budget);
      g.receives <= budget && (g.result.Err? ==> IsWaitError(g.result.error, phase))
  {
    var k := ListenStops(st, accept, phase, budget);
  }

  // ---------------------------------------------------------------- waits one after another

  /** Receives from one place to another all bring frames that are not accepted. */
  predicate SkippedBetween<T>(st: Stream, accept: bytes -> Option<T>, from: nat, to: nat) {
    forall j :: from <= j < to ==> ItemAt(st, j).Arrived? && accept(ItemAt(st, j).frame).None?
  }

  /** Successive waits, the first starting at a place in the stream, find their frames at the
      given places: each is the first accepted one since the last and comes within the budget. */
  predicate Heard<T>(st: Stream, from: nat, accept: bytes -> Option<T>, budget: nat, at: seq<nat>)
    decreases |at|
  {
    at == [] ||
    (&& from <= at[0] < from + budget
     && SkippedBetween(st, accept, from, at[0])
     && Accepted(st, accept, at[0])
     && Heard(st, at[0] + 1, accept, budget, at[1..]))
  }

  /** The next wait finds nothing: its budget runs out, or a receive fails first. */
  ghost predicate Stops<T>(st: Stream, from: nat, accept: bytes -> Option<T>, budget: nat) {
    exists k :: StopsAt(st, from, accept, budget, k)
  }

  predicate StopsAt<T>(st: Stream, from: nat, accept: bytes -> Option<T>, budget: nat, k: nat) {
    from <= k <= from + budget && SkippedBetween(st, accept, from, k) && (k == from + budget || ItemAt(st, k).Failed?)
  }

  /** Where the wait after some waits starts. */
  function Onward(from: nat, at: seq<nat>): nat {
    if at == [] then from else at[|at| - 1] + 1
  }

  lemma DropItems(st: Stream, n: nat, k: nat)
    ensures ItemAt(Drop(st, n), k) == ItemAt(st, n + k)
    ensures Drop(Drop(st, n), k) == Drop(st, n + k)
  {
  }

  /** A wait from a place in the stream that finds its frame there. */
  lemma WaitFinds<T>(st: Stream, from: nat, accept: bytes -> Option<T>, phase: Phase, budget: nat, k: nat)
    requires from <= k < from + budget && SkippedBetween(st, accept, from, k) && Accepted(st, accept, k)
    ensures Listen(Drop(st, from), accept, phase, budget)
            == Got(Ok(accept(ItemAt(st, k).frame).value), Drop(st, k + 1), k + 1 - from)
  {
    hide Listen, ItemAt, Drop;
    var later := Drop(st, from);
    forall j | 0 <= j < k - from ensures ItemAt(later, j).Arrived? && accept(ItemAt(later, j).frame).None? {
      DropItems(st, from, j);
    }
    DropItems(st, from, k - from);
    DropItems(st, from, k - from + 1);
    assert AllSkipped(later, accept, k - from) && Accepted(later, accept, k - from);
    ListenSucceedsIff(later, accept, phase, budget);
  }

  /** A wait from a place in the stream either finds its frame or stops. */
  lemma WaitFindsOrStops<T>(st: Stream, from: nat, accept: bytes -> Option<T>, phase: Phase, budget: nat)
    returns (k: nat)
    ensures Listen(Drop(st, from), accept, phase, budget).result.Ok? ==>
      from <= k < from + budget && SkippedBetween(st, accept, from, k) && Accepted(st, accept, k)
    ensures Listen(Drop(st, from), accept, phase, budget).result.Err? ==> Stops(st, from, accept, budget)
  {
    hide Listen, ItemAt, Drop;
    var n := ListenStops(Drop(st, from), accept, phase, budget);
    k := from + n;
    forall j | from <= j < k ensures ItemAt(st, j).Arrived? && accept(ItemAt(st, j).frame).None? {
      DropItems(st, from, j - from);
    }
    DropItems(st, from, n);
    if Listen(Drop(st, from), accept, phase, budget).result.Err? {
      assert StopsAt(st, from, accept, budget, k);
    }
  }

  /** The places where successive waits find their frames are never in doubt: of any two lists
      one starts with the other. */
  lemma {:induction false} HeardIsForced<T>(st: Stream, from: nat, accept: bytes -> Option<T>, budget: nat,
                                            at: seq<nat>, at': seq<nat>)
    requires Heard(st, from, accept, budget, at) && Heard(st, from, accept, budget, at') && |at| <= |at'|
    ensures at <= at'
    decreases |at|
  {
    hide ItemAt;
    if at != [] {
      assert at[0] == at'[0];
      HeardIsForced(st, at[0] + 1, accept, budget, at[1..], at'[1..]);
      assert at == [at[0]] + at[1..] && at' == [at'[0]] + at'[1..];
    }
  }

  // ---------------------------------------------------------------- packet ids

  lemma {:induction false} NthIdClosedForm(id: PacketId, n: nat)
    requires id >= 1
    ensures NthId(id, n) == (id - 1 + n) % 0xFFFF + 1
  {
    if n > 0 {
      NthIdClosedForm(id, n - 1);
      NextIdStep(id - 1 + n - 1);
    }
  }

  lemma NextIdStep(m: nat)
    ensures m % 0xFFFF + 1 < 0x1_0000
    ensures NextId(m % 0xFFFF + 1) == (m + 1) % 0xFFFF + 1
  {
    var r := m % 0xFFFF;
    if r + 1 == 0xFFFF {
      assert m + 1 == (m / 0xFFFF + 1) * 0xFFFF;
    } else {
      assert m + 1 == m / 0xFFFF * 0xFFFF + (r + 1);
    }
  }

  lemma NextIdIsPositive(id: PacketId)
    ensures NextId(id) >= 1
  {
  }

  /** Any 32767 consecutive ids differ in the fifteen bits the wire keeps. */
  lemma ConsecutiveIdsDiffer(id: PacketId, n: nat)
    requires id >= 1 && 1 <= n <= 32766
    ensures WithoutAppBit(NthId(id, n)) != WithoutAppBit(id)
  {
    NthIdClosedForm(id, n);
    Wrapped(id - 1 + n);
    if id - 1 + n < 0xFFFF {
      FarFromMultiple(id, id + n);
    } else {
      FarFromMultiple(id + n - 0xFFFF, id - APP_PACKET_BIT);
      SameRest(id - APP_PACKET_BIT);
    }
  }

  lemma Wrapped(m: nat)
    requires m < 2 * 0xFFFF
    ensures m % 0xFFFF == if m < 0xFFFF then m else m - 0xFFFF
  {
  }

  lemma FarFromMultiple(a: nat, b: nat)
    requires a < b < a + APP_PACKET_BIT
    ensures a % APP_PACKET_BIT != b % APP_PACKET_BIT
  {
    var x, y := a / APP_PACKET_BIT, b / APP_PACKET_BIT;
    assert a == x * APP_PACKET_BIT + a % APP_PACKET_BIT && b == y * APP_PACKET_BIT + b % APP_PACKET_BIT;
  }

  lemma SameRest(a: nat)
    ensures (a + APP_PACKET_BIT) % APP_PACKET_BIT == a % APP_PACKET_BIT
  {
  }

  /** The next one can coincide: the bound is exact. */
  lemma IdsRepeatAfter32767(id: PacketId)
    requires id > 32768
    ensures WithoutAppBit(NthId(id, 32767)) == WithoutAppBit(id)
  {
    NthIdClosedForm(id, 32767);
    var m := id - 1 + 32767;
    assert m >= 0xFFFF && m % 0xFFFF == m - 0xFFFF;
  }

  /** The reply frame that echoes the id a request was sent with. */
  function Echo(f: Frame, h: L2Header, id: PacketId, body: bytes): bytes {
    Wire(Frame(L2Wrapped, f.localBt, f.destBt, f.control, Encode(Packet(h.(pktId := id), body))))
  }

  /** A reply that echoes an id is taken for the reply to want exactly when the two agree in
      the fifteen bits on the wire and want itself fits in them. */
  lemma EchoMatchesIff(f: Frame, h: L2Header, id: PacketId, body: bytes, want: PacketId)
    requires |Echo(f, h, id, body)| <= 0xFFFF
    ensures MatchingReply(Echo(f, h, id, body), want)
            == if WithoutAppBit(id) == want
               then Some(L2Reply(want, h.errorCode, h.appSusyId, h.appSerial, body)) else None
  {
    hide Parse, Decode, Encode, Wire;
    var p := Packet(h.(pktId := id), body);
    EndToEnd.EncodedHasSignature(p);
    L2RoundTripIff(f.localBt, f.destBt, f.control, Encode(p));
    DecodeInvertsEncode(p);
  }

  /** No reply at all can match an id of 32768 or more. */
  lemma HighIdNeverMatches(b: bytes, want: PacketId)
    requires want >= APP_PACKET_BIT
    ensures MatchingReply(b, want).None?
  {
    hide Parse;
    if Parse(b).Ok? && Decode(Parse(b).value.payload).Some? {
      assert Decode(Parse(b).value.payload).value.header.pktId < APP_PACKET_BIT;
    }
  }

  /** So a request with such an id goes unanswered, whatever arrives. */
  lemma HighIdIsSilent(st: Stream, want: PacketId, phase: Phase)
    requires want >= APP_PACKET_BIT
    ensures Listen(st, WithPktId(want), phase, REPLY_BUDGET).result.Err?
  {
    hide MatchingReply;
    var k := ListenStops(st, WithPktId(want), phase, REPLY_BUDGET);
    if Accepted(st, WithPktId(want), k) {
      HighIdNeverMatches(ItemAt(st, k).frame, want);
    }
  }

  lemma SmallIsKept(id: PacketId, want: PacketId)
    ensures WithoutAppBit(id) == want ==> WithoutAppBit(want) == want
  {
  }

  /** The echo of any of the 32766 requests before the current one is never taken for its
      reply; the echo of the current one is, exactly when the id is below 32768. */
  lemma OldEchoesNeverMatch(f: Frame, h: L2Header, id: PacketId, n: nat, body: bytes)
    requires id >= 1 && n <= 32766 && |Echo(f, h, id, body)| <= 0xFFFF
    ensures MatchingReply(Echo(f, h, id, body), NthId(id, n)).Some? <==> n == 0 && id < APP_PACKET_BIT
  {
    hide MatchingReply, Echo;
    EchoMatchesIff(f, h, id, body, NthId(id, n));
    if n > 0 {
      ConsecutiveIdsDiffer(id, n);
      SmallIsKept(id, NthId(id, n));
    }
  }
}
