/** A connected stream socket with the peer at its other end.

    The peer is any causal function from everything it has been sent to
    everything it has sent back. The network decides, call by call, how many
    bytes a recv delivers, or that it times out, is closed or fails, and how
    many of the bytes offered to a send it takes. */
module Sockets {
  import opened Bytes

  datatype RecvEvent = Deliver(n: nat) | WouldBlock | Closed | Failed

  /** Being sent more never takes back an answer. */
  ghost predicate Causal(peer: seq<byte> -> seq<byte>) {
    forall a, b :: a <= b ==> peer(a) <= peer(b)
  }

  function Min(a: int, b: int): int {
    if a < b then a else b
  }

  function Max(a: int, b: int): int {
    if a < b then b else a
  }

  class Socket {
    const peer: seq<byte> -> seq<byte>
    const arrivals: nat -> RecvEvent
    const room: (nat, nat) -> int
    var sent: seq<byte>
    var consumed: nat
    var recvs: nat
    var sends: nat

    constructor (peer: seq<byte> -> seq<byte>, arrivals: nat -> RecvEvent, room: (nat, nat) -> int)
      requires Causal(peer)
      ensures this.peer == peer && this.arrivals == arrivals && this.room == room
      ensures Valid() && sent == [] && consumed == 0 && recvs == 0 && sends == 0
    {
      this.peer, this.arrivals, this.room := peer, arrivals, room;
      sent, consumed, recvs, sends := [], 0, 0, 0;
    }

    ghost predicate Valid()
      reads this
    {
      Causal(peer) && consumed <= |peer(sent)|
    }

    /** Neither timeouts nor failures: only the chunk sizes are left open. */
    ghost predicate Reliable() {
      (forall k :: arrivals(k).Deliver?) && (forall k, n :: !ShortSend(k, n))
    }

    /** What the k-th send takes of n bytes offered; -1 on an error. */
    function Accepted(k: nat, n: nat): int {
      if room(k, n) < 0 then -1 else Min(room(k, n), n)
    }

    /** The k-th send does not take all of n bytes. */
    predicate ShortSend(k: nat, n: nat) {
      Accepted(k, n) != n
    }

    /** One of these recv calls meets a timeout, a close or a failure. */
    ghost predicate FaultIn(from: nat, to: nat) {
      exists k :: from <= k < to && !arrivals(k).Deliver?
    }

    /** What the peer has sent and this end has not received yet. */
    ghost function Pending(): seq<byte>
      requires Valid()
      reads this
    {
      peer(sent)[consumed..]
    }

    /** What will be pending once these bytes are sent. */
    ghost function Answer(bytes: seq<byte>): (s: seq<byte>)
      requires Valid()
      reads this
      ensures bytes == [] ==> s == Pending()
    {
      assert sent <= sent + bytes;
      assert bytes == [] ==> sent + bytes == sent;
      peer(sent + bytes)[consumed..]
    }

    /** Takes the bytes the peer has room for; -1 on an error. */
    method Send(bytes: seq<byte>) returns (n: int)
      requires Valid()
      modifies this`sent, this`sends
      ensures Valid()
      ensures -1 <= n <= |bytes|
      ensures sent == old(sent) + bytes[..Max(n, 0)]
      ensures n == |bytes| ==> sent == old(sent) + bytes && Pending() == old(Answer(bytes))
      ensures n == Accepted(old(sends), |bytes|) && sends == old(sends) + 1
    {
      n := Accepted(sends, |bytes|);
      sends := sends + 1;
      sent := sent + bytes[..Max(n, 0)];
      assert old(sent) <= sent;
      assert n == |bytes| ==> bytes[..Max(n, 0)] == bytes;
    }

    /** Fills buf[off..] with between 1 and len pending bytes. */
    method Recv(buf: array<byte>, off: nat, len: nat) returns (n: int, blocked: bool)
      requires Valid() && 0 < len && off + len <= buf.Length
      modifies this`consumed, this`recvs, buf
      ensures Valid() && n <= len
      ensures n > 0 ==> n <= |old(Pending())| && buf[off..off + n] == old(Pending())[..n]
      ensures consumed == old(consumed) + Max(n, 0)
      ensures buf[..off] == old(buf[..off])
      ensures recvs == old(recvs) + 1
      ensures arrivals(old(recvs)).Deliver? && old(Pending()) != [] ==> n > 0
      ensures arrivals(old(recvs)).Deliver? && old(Pending()) == [] ==> n == -1 && blocked
      ensures arrivals(old(recvs)).WouldBlock? ==> n == -1 && blocked
      ensures arrivals(old(recvs)).Closed? ==> n == 0
      ensures arrivals(old(recvs)).Failed? ==> n == -1 && !blocked
    {
      var event := arrivals(recvs);
      recvs := recvs + 1;
      n, blocked := -1, false;
      match event
      case Deliver(k) =>
        var available := peer(sent)[consumed..];
        if available == [] {
          blocked := true;
        } else {
          n := Max(1, Min(k, Min(len, |available|)));
          forall i | 0 <= i < n {
            buf[off + i] := available[i];
          }
          consumed := consumed + n;
        }
      case WouldBlock => blocked := true;
      case Closed => n := 0;
      case Failed =>
    }
  }
}
