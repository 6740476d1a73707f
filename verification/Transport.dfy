/** The transport a session drives, as a script of what its sends and receives come to. */
module Transports {
  import opened Bytes

  datatype TransportError = Io | Closed | Timeout | MockExhausted

  /** What one receive comes to. */
  datatype Item = Arrived(frame: bytes) | Failed(error: TransportError)

  /** The receives still to come: the scripted ones, then the same error for ever. */
  datatype Stream = Stream(items: seq<Item>, onEmpty: TransportError)

  function Head(st: Stream): Item {
    if st.items == [] then Failed(st.onEmpty) else st.items[0]
  }

  function Tail(st: Stream): Stream {
    if st.items == [] then st else Stream(st.items[1..], st.onEmpty)
  }

  /** The sends still to come, each with its failure if it has one. */
  datatype Sends = Sends(failures: seq<Option<TransportError>>, onEmpty: Option<TransportError>)

  function FailureOf(s: Sends): Option<TransportError> {
    if s.failures == [] then s.onEmpty else s.failures[0]
  }

  function LaterSends(s: Sends): Sends {
    if s.failures == [] then s else Sends(s.failures[1..], s.onEmpty)
  }

  /** Both directions of the link. */
  datatype Link = Link(stream: Stream, sends: Sends)

  class Transport {
    var replies: seq<Item>
    var failures: seq<Option<TransportError>>
    var closed: bool
    /** Every frame handed to SendFrame, sent or not, and the number of receives made. */
    ghost var attempts: seq<bytes>
    ghost var receives: nat

    constructor (replies: seq<Item>, failures: seq<Option<TransportError>>)
      ensures this.replies == replies && this.failures == failures && !closed
      ensures attempts == [] && receives == 0
    {
      this.replies, this.failures, closed := replies, failures, false;
      attempts, receives := [], 0;
    }

    function Ahead(): Link
      reads this
    {
      if closed then Link(Stream([], Closed), Sends([], Some(Closed)))
      else Link(Stream(replies, MockExhausted), Sends(failures, None))
    }

    method SendFrame(data: bytes) returns (r: Result<nat, TransportError>)
      modifies this
      ensures attempts == old(attempts) + [data]
      ensures r == match FailureOf(old(Ahead()).sends) case Some(e) => Err(e) case None => Ok(|data|)
      ensures Ahead() == Link(old(Ahead()).stream, LaterSends(old(Ahead()).sends))
      ensures receives == old(receives) && closed == old(closed)
    {
      attempts := attempts + [data];
      if closed {
        return Err(Closed);
      }
      if failures == [] {
        return Ok(|data|);
      }
      var f := failures[0];
      failures := failures[1..];
      match f
      case Some(e) => r := Err(e);
      case None => r := Ok(|data|);
    }

    method RecvFrame() returns (r: Result<bytes, TransportError>)
      modifies this
      ensures r == match Head(old(Ahead()).stream) case Arrived(f) => Ok(f) case Failed(e) => Err(e)
      ensures Ahead() == Link(Tail(old(Ahead()).stream), old(Ahead()).sends)
      ensures receives == old(receives) + 1
      ensures attempts == old(attempts) && closed == old(closed)
    {
      receives := receives + 1;
      if closed {
        return Err(Closed);
      }
      if replies == [] {
        return Err(MockExhausted);
      }
      var item := replies[0];
      replies := replies[1..];
      match item
      case Arrived(f) => r := Ok(f);
      case Failed(e) => r := Err(e);
    }

    method Close()
      modifies this
      ensures closed && attempts == old(attempts) && receives == old(receives)
    {
      closed := true;
    }
  }
}
