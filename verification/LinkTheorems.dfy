/** A session over a socket: what the receive loops make of chunks of bytes. */
module LinkTheorems {
  import opened Bytes
  import opened Frames
  import opened FrameTheorems
  import opened Framer
  import opened Packets
  import opened Transports
  import opened Replies
  import opened Handshake
  import opened Session
  import opened SessionTheorems
  import opened HistoryTheorems
  import opened EndToEnd
  import opened Receiver

  /** A message that answers a request. */
  predicate Answers(m: Message, want: PacketId) {
    m.Data? && m.packet.header.pktId == want
  }

  /** The wire form of a sendable message is taken for the reply to a request exactly when it is
      a packet with the id of the request. */
  lemma MessageMatches(m: Message, want: PacketId)
    requires Sendable(m)
    ensures MatchingReply(WireOf(m), want) == if Answers(m, want) then Some(ReplyOf(m.packet)) else None
  {
    hide Parse, Decode, Encode, Layer2Wire, LooksLikeLayer2;
    match m
    case Control(l, d, c, payload) =>
      L1RoundTripIff(l, d, c, payload);
    case Data(l, d, c, packet) =>
      EncodedHasSignature(packet);
      L2RoundTripIff(l, d, c, Encode(packet));
      PacketRoundTripIff(packet);
  }

  /** What is ahead of a session: the receives of a link on which some messages were sent, after
      the first of them have been received. Reads may fail, come late or find the peer gone. */
  ghost predicate Brings(st: Stream, made: seq<Read>, taken: nat, script: seq<Read>, hasDeadline: bool,
                         ms: seq<Message>)
  {
    && (forall m :: m in ms ==> Sendable(m))
    && BytesRead(made + script) == Flatten(WiresOf(ms))
    && taken <= |Complete(made)|
    && st == Stream(Items(made, taken, script, hasDeadline), Closed)
  }

  /** No receive fails up to and including the k-th from now. */
  predicate InTime(st: Stream, k: nat) {
    forall j :: 0 <= j <= k ==> ItemAt(st, j).Arrived?
  }

  /** As long as no receive fails, what arrives are the frames in order. */
  lemma {:induction false} FirstArrivals(items: seq<Item>, k: nat)
    requires k < |items| && forall j :: 0 <= j <= k ==> items[j].Arrived?
    ensures k < |FramesAmong(items)| && FramesAmong(items)[k] == items[k].frame
  {
    if k > 0 {
      FirstArrivals(items[1..], k - 1);
    }
  }

  lemma BroughtItem(st: Stream, made: seq<Read>, taken: nat, script: seq<Read>, hasDeadline: bool, ms: seq<Message>,
                    k: nat)
    requires Brings(st, made, taken, script, hasDeadline, ms) && InTime(st, k)
    ensures taken + k < |ms| && ItemAt(st, k) == Arrived(WireOf(ms[taken + k]))
  {
    hide Items, Complete, WiresOf, Sendable, BytesRead, FramesAmong, Brings, InTime;
    FramesBrought(st, made, taken, script, hasDeadline, ms);
    ItemsInTime(st, k);
    FirstArrivals(st.items, k);
    ManyWires(ms);
    OneOfMany(ms, taken + k);
  }

  lemma ItemsInTime(st: Stream, k: nat)
    requires InTime(st, k)
    ensures k < |st.items| && ItemAt(st, k) == st.items[k]
    ensures forall j :: 0 <= j <= k ==> st.items[j].Arrived?
  {
    assert ItemAt(st, k).Arrived?;
    assert forall j :: 0 <= j <= k ==> st.items[j] == ItemAt(st, j);
  }

  /** The frames that arrive are those of the messages not yet received. */
  lemma FramesBrought(st: Stream, made: seq<Read>, taken: nat, script: seq<Read>, hasDeadline: bool, ms: seq<Message>)
    requires Brings(st, made, taken, script, hasDeadline, ms)
    ensures taken <= |WiresOf(ms)| && FramesAmong(st.items) == WiresOf(ms)[taken..]
  {
    hide Items, WiresOf, Sendable, BytesRead, FramesAmong;
    ReceivesBringAll(made, taken, script, hasDeadline);
    AllComplete(made + script, ms);
  }

  lemma AllComplete(made: seq<Read>, ms: seq<Message>)
    requires BytesRead(made) == Flatten(WiresOf(ms)) && forall m :: m in ms ==> Sendable(m)
    ensures Complete(made) == WiresOf(ms)
  {
    hide ScanOf, FramesOf, WiresOf, Sendable, BytesRead;
    DeliveredUnchanged(ms);
  }

  lemma {:induction false} ManyWires(ms: seq<Message>)
    ensures |WiresOf(ms)| == |ms|
  {
    hide WireOf;
    if ms != [] {
      ManyWires(ms[1..]);
    }
  }

  /** The first message, from a place on, that answers a request, if it is near enough. */
  predicate FirstAnswer(ms: seq<Message>, taken: nat, want: PacketId, k: nat) {
    && k < 16 && taken + k < |ms| && Answers(ms[taken + k], want)
    && forall j :: taken <= j < taken + k ==> !Answers(ms[j], want)
  }

  lemma AnswerIsAccepted(st: Stream, made: seq<Read>, taken: nat, script: seq<Read>, hasDeadline: bool,
                         ms: seq<Message>, want: PacketId, k: nat)
    requires Brings(st, made, taken, script, hasDeadline, ms) && InTime(st, k)
    ensures taken + k < |ms|
    ensures Accepted(st, WithPktId(want), k) <==> Answers(ms[taken + k], want)
    ensures Answers(ms[taken + k], want) ==>
      WithPktId(want)(ItemAt(st, k).frame) == Some(ReplyOf(ms[taken + k].packet))
  {
    hide Items, Sendable, MatchingReply, WireOf, BytesRead, Complete;
    BroughtItem(st, made, taken, script, hasDeadline, ms, k);
    assert ms[taken + k] in ms;
    MessageMatches(ms[taken + k], want);
    assert WithPktId(want)(WireOf(ms[taken + k])) == MatchingReply(WireOf(ms[taken + k]), want);
  }

  lemma FirstAnswerIsFirst(st: Stream, made: seq<Read>, taken: nat, script: seq<Read>, hasDeadline: bool,
                           ms: seq<Message>, want: PacketId, k: nat)
    requires Brings(st, made, taken, script, hasDeadline, ms)
    ensures FirstAnswer(ms, taken, want, k) && InTime(st, k)
       <==> k < REPLY_BUDGET && AllSkipped(st, WithPktId(want), k) && Accepted(st, WithPktId(want), k)
    ensures FirstAnswer(ms, taken, want, k) && InTime(st, k) ==>
      WithPktId(want)(ItemAt(st, k).frame) == Some(ReplyOf(ms[taken + k].packet))
  {
    hide Brings, Answers, WithPktId, ItemAt;
    if InTime(st, k) {
      forall j: nat | j <= k
        ensures taken + j < |ms| && (Accepted(st, WithPktId(want), j) <==> Answers(ms[taken + j], want))
      {
        AnswerIsAccepted(st, made, taken, script, hasDeadline, ms, want, j);
      }
      AnswerIsAccepted(st, made, taken, script, hasDeadline, ms, want, k);
      if AllSkipped(st, WithPktId(want), k) && Accepted(st, WithPktId(want), k) {
        forall j | taken <= j < taken + k ensures !Answers(ms[j], want) {
          assert !Accepted(st, WithPktId(want), j - taken);
        }
      }
      if FirstAnswer(ms, taken, want, k) {
        forall j | 0 <= j < k ensures ItemAt(st, j).Arrived? && WithPktId(want)(ItemAt(st, j).frame).None? {
          assert !Answers(ms[taken + j], want);
          assert !Accepted(st, WithPktId(want), j);
        }
      }
    }
  }

  /** A session over a socket, however the bytes are cut and whatever fails or comes late: a
      query succeeds exactly when its frame goes out, one of the next sixteen messages is a
      packet with its id, and no receive fails before that one is in; it returns the body of the
      first such message, as it was sent. */
  lemma QueryOverChunks(localBt: BtAddr, appSerial: u32, susyId: u16, serial: u32, kind: QueryKind, cur: Cursor,
                        made: seq<Read>, taken: nat, script: seq<Read>, hasDeadline: bool, ms: seq<Message>)
    requires Brings(cur.link.stream, made, taken, script, hasDeadline, ms)
    ensures var q, want, st :=
        QueryRun(localBt, appSerial, susyId, serial, kind, cur), NextId(cur.pktId), cur.link.stream;
      && (q.0.Ok? <==>
            FailureOf(cur.link.sends).None? && exists k :: FirstAnswer(ms, taken, want, k) && InTime(st, k))
      && (FailureOf(cur.link.sends).None? ==>
            forall k :: FirstAnswer(ms, taken, want, k) && InTime(st, k) ==> q.0 == Ok(ms[taken + k].packet.body))
  {
    hide QueryRun, Brings, WithPktId, ItemAt, InTime;
    var st, want := cur.link.stream, NextId(cur.pktId);
    QuerySucceedsIff(localBt, appSerial, susyId, serial, kind, cur);
    forall k: nat
      ensures FirstAnswer(ms, taken, want, k) && InTime(st, k)
         <==> k < REPLY_BUDGET && AllSkipped(st, WithPktId(want), k) && Accepted(st, WithPktId(want), k)
      ensures FirstAnswer(ms, taken, want, k) && InTime(st, k) ==>
        WithPktId(want)(ItemAt(st, k).frame) == Some(ReplyOf(ms[taken + k].packet))
    {
      FirstAnswerIsFirst(st, made, taken, script, hasDeadline, ms, want, k);
    }
  }

  /** On a link that neither fails nor comes late, nothing but the messages decides. */
  lemma QueryOverIntactLink(localBt: BtAddr, appSerial: u32, susyId: u16, serial: u32, kind: QueryKind, cur: Cursor,
                            made: seq<Read>, taken: nat, script: seq<Read>, hasDeadline: bool, ms: seq<Message>)
    requires Brings(cur.link.stream, made, taken, script, hasDeadline, ms) && Intact(script, hasDeadline)
    ensures var q, want := QueryRun(localBt, appSerial, susyId, serial, kind, cur), NextId(cur.pktId);
      && (q.0.Ok? <==> FailureOf(cur.link.sends).None? && exists k :: FirstAnswer(ms, taken, want, k))
      && (FailureOf(cur.link.sends).None? ==>
            forall k :: FirstAnswer(ms, taken, want, k) ==> q.0 == Ok(ms[taken + k].packet.body))
  {
    hide QueryRun, Brings, Intact, InTime, Answers;
    QueryOverChunks(localBt, appSerial, susyId, serial, kind, cur, made, taken, script, hasDeadline, ms);
    forall k: nat | taken + k < |ms| ensures InTime(cur.link.stream, k) {
      IntactIsInTime(cur.link.stream, made, taken, script, hasDeadline, ms, k);
    }
  }

  lemma IntactIsInTime(st: Stream, made: seq<Read>, taken: nat, script: seq<Read>, hasDeadline: bool,
                       ms: seq<Message>, k: nat)
    requires Brings(st, made, taken, script, hasDeadline, ms) && Intact(script, hasDeadline) && taken + k < |ms|
    ensures InTime(st, k)
  {
    hide Items, Complete, WiresOf, Sendable, BytesRead, Intact;
    IntactBringsFrames(made, taken, script, hasDeadline);
    AllComplete(made + script, ms);
    ManyWires(ms);
  }
}
