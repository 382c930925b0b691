/**
 The IPv4 payload handler: reads and writes datagram payloads through a
 packet connection, stripping the IP header on raw sockets and carrying
 per-packet control information as ancillary data.
 */
module Ipv4 {
  import opened Net

  /** Per-datagram control information (time-to-live, addresses, interface). */
  datatype ControlMessage = ControlMessage(ttl: int, src: seq<byte>, dst: seq<byte>, ifIndex: int)

  /** The errors the handler returns; transport and parse errors carry the collaborator's code unchanged. */
  datatype Error = EINVAL | InvalidConnType | MissingAddress | Transport(code: nat) | Parse(code: nat)

  /** The outcome of decoding ancillary bytes: a control message (possibly nil) or an error. */
  datatype Parsed = Parsed(cm: Option<ControlMessage>) | ParseFailed(code: nat)

  /**
   The package's own helpers that live outside this file, taken as given:
   `parseControlMessage`, `marshalControlMessage` and `netAddrToIP4`.
   */
  datatype Collaborators = Collaborators(
    parse: seq<byte> -> Parsed,
    marshal: Option<ControlMessage> -> seq<byte>,
    toIP4: Option<Addr> -> seq<byte>)

  /** The longest IPv4 header: a 4-bit length field counting 32-bit words. */
  const MaxHeaderLen: nat := 60

  /** The payload handler; a nil handler is `null`. */
  class PayloadHandler {
    const c: PacketConn?

    constructor (c: PacketConn?)
      ensures this.c == c
    {
      this.c := c;
    }
  }

  /** A handler is usable when it and its connection are both non-nil. */
  function Ok(h: PayloadHandler?): (usable: bool)
    ensures usable <==> h != null && h.c != null
  {
    h != null && h.c != null
  }

  /** The raw-IP read indexes the caller's buffer at 0, which panics on an empty one. */
  predicate RawReadable(h: PayloadHandler?, bufLen: nat)
  {
    Ok(h) && h.c.shape == IPConn ==> bufLen > 0
  }

  /** A write type-asserts the destination to the address type of its socket. */
  predicate AddrFits(h: PayloadHandler?, dst: Option<Addr>)
  {
    Ok(h) && dst.Some? ==>
      match h.c.shape
      case UDPConn => dst.value.UDPAddr?
      case IPConn => dst.value.IPAddr?
      case OtherConn => true
  }

  /**
   The header length in bytes that an IPv4 first octet announces: the low
   nibble (Internet Header Length, section 3.1 of RFC 791) counts 32-bit words.
   */
  function HeaderLen(v: byte): (h: nat)
    ensures h % 4 == 0 && h <= MaxHeaderLen
    ensures h / 4 == v as int % 16
  {
    ((v & 0x0F) << 2) as int
  }

  /** The raw receive buffer `nb` after the transport deposits `data` into a fresh one of length `len`. */
  function Received(len: nat, data: seq<byte>): (nb: seq<byte>)
    ensures |nb| == len
    ensures forall i :: 0 <= i < len ==> nb[i] == if i < |data| then data[i] else 0
  {
    CopyInto(Zeros(len), data)
  }

  /**
   The header strip of a raw-IP read: the header length comes from the octet
   `ihl`, the bytes after the header are copied over the caller's buffer, and
   the count drops by the header length. The temporary buffer is longer than
   the caller's by the longest header, so the copy always fills all of it.
   */
  function StripHeader(prev: seq<byte>, nb: seq<byte>, n: int, ihl: byte): (r: (seq<byte>, int))
    requires |nb| == |prev| + MaxHeaderLen
    ensures |r.0| == |prev|
    ensures forall i :: 0 <= i < |prev| ==> r.0[i] == nb[HeaderLen(ihl) + i]
    ensures r.1 == n - HeaderLen(ihl)
  {
    var hdrlen := HeaderLen(ihl);
    (CopyInto(prev, nb[hdrlen..]), n - hdrlen)
  }

  /**
   The strip as evidently intended: the header length is read from the
   first octet of the packet just received, not from the caller's buffer.
   */
  function StripHeaderCorrected(prev: seq<byte>, nb: seq<byte>, n: int): (r: (seq<byte>, int))
    requires |nb| == |prev| + MaxHeaderLen
    ensures |r.0| == |prev|
    ensures forall i :: 0 <= i < |prev| ==> r.0[i] == nb[HeaderLen(nb[0]) + i]
    ensures r.1 == n - HeaderLen(nb[0])
  {
    StripHeader(prev, nb, n, nb[0])
  }

  /**
   Reading a buffer that received `hdr + payload` from just past the header
   yields the payload followed by the zeros of the fresh buffer.
   */
  lemma {:induction false} PastHeader(prev: seq<byte>, hdr: seq<byte>, payload: seq<byte>, out: seq<byte>)
    requires |hdr| <= MaxHeaderLen && |payload| <= |prev| && |out| == |prev|
    requires forall i :: 0 <= i < |prev| ==> out[i] == Received(|prev| + MaxHeaderLen, hdr + payload)[|hdr| + i]
    ensures out == payload + Zeros(|prev| - |payload|)
  {
    var nb := Received(|prev| + MaxHeaderLen, hdr + payload);
    var z := Zeros(|prev| - |payload|);
    forall i | 0 <= i < |prev|
      ensures out[i] == (payload + z)[i]
    {
      assert out[i] == nb[|hdr| + i];
      if i < |payload| {
        assert (hdr + payload)[|hdr| + i] == payload[i];
      } else {
        assert (payload + z)[i] == z[i - |payload|];
      }
    }
  }

  /**
   When the octet the strip reads announces exactly the header that the
   packet carries, the caller receives exactly the payload, zero-filled to the
   end of the buffer, and the count of payload bytes.
   */
  lemma StripRecoversPayload(prev: seq<byte>, hdr: seq<byte>, payload: seq<byte>, ihl: byte)
    requires HeaderLen(ihl) == |hdr|
    requires |payload| <= |prev|
    ensures StripHeader(prev, Received(|prev| + MaxHeaderLen, hdr + payload), |hdr| + |payload|, ihl)
            == (payload + Zeros(|prev| - |payload|), |payload|)
  {
    var r := StripHeader(prev, Received(|prev| + MaxHeaderLen, hdr + payload), |hdr| + |payload|, ihl);
    PastHeader(prev, hdr, payload, r.0);
  }

  /**
   With the corrected strip, a raw packet whose first octet announces its own
   header length yields exactly its payload and payload count, whatever the
   caller's buffer held before.
   */
  lemma IntendedStripRecoversPayload(prev: seq<byte>, hdr: seq<byte>, payload: seq<byte>)
    requires |hdr| > 0 && HeaderLen(hdr[0]) == |hdr|
    requires |payload| <= |prev|
    ensures StripHeaderCorrected(prev, Received(|prev| + MaxHeaderLen, hdr + payload), |hdr| + |payload|)
            == (payload + Zeros(|prev| - |payload|), |payload|)
  {
    var nb := Received(|prev| + MaxHeaderLen, hdr + payload);
    assert nb[0] == hdr[0];
    StripRecoversPayload(prev, hdr, payload, nb[0]);
  }

  /** What a read returns, the caller's buffer afterwards, and whether the transport was called. */
  datatype ReadResult = ReadResult(n: int, cm: Option<ControlMessage>, src: Option<Addr>, err: Option<Error>,
                                   buf: seq<byte>, called: bool)

  function Failed(e: Error, buf: seq<byte>, called: bool): ReadResult
  {
    ReadResult(0, None, None, Some(e), buf, called)
  }

  /** The last step of a read: decode the ancillary bytes and put the peer address in the message. */
  function Finish(n: int, rx: Reception, buf: seq<byte>, env: Collaborators): (r: ReadResult)
    ensures r.called && r.buf == buf
    // a decode failure aborts the read with its error unchanged
    ensures env.parse(rx.oob).ParseFailed? ==>
      r.n == 0 && r.cm.None? && r.src.None? && r.err == Some(Parse(env.parse(rx.oob).code))
    // otherwise the count and the peer are kept, and a nil message stays nil
    ensures env.parse(rx.oob).Parsed? ==>
      r.n == n && r.err.None? && r.src == rx.src && (r.cm.Some? <==> env.parse(rx.oob).cm.Some?)
    // a decoded message takes the peer's address as its source and keeps its other fields
    ensures env.parse(rx.oob).Parsed? && r.cm.Some? ==>
      var m := env.parse(rx.oob).cm.value;
      r.cm.value.src == env.toIP4(rx.src) &&
      r.cm.value.ttl == m.ttl && r.cm.value.dst == m.dst && r.cm.value.ifIndex == m.ifIndex
  {
    match env.parse(rx.oob)
    case ParseFailed(e) => Failed(Parse(e), buf, true)
    case Parsed(cm) =>
      var cm' := if cm.Some? then Some(cm.value.(src := env.toIP4(rx.src))) else None;
      ReadResult(n, cm', rx.src, None, buf, true)
  }

  /**
   The outcome of `Read` on a caller's buffer holding `prev`, when the one
   receive call it may issue delivers `rx`.
   */
  function Receive(h: PayloadHandler?, prev: seq<byte>, rx: Reception, env: Collaborators): (r: ReadResult)
    requires RawReadable(h, |prev|)
    ensures |r.buf| == |prev|
    // the guard comes first and touches nothing
    ensures !Ok(h) ==> r == Failed(EINVAL, prev, false)
    // an unknown connection type is refused before any call
    ensures Ok(h) && h.c.shape == OtherConn ==> r == Failed(InvalidConnType, prev, false)
    // exactly one receive call on a usable handler over a UDP or IP socket
    ensures r.called <==> Ok(h) && h.c.shape != OtherConn
    // every failure reports zero bytes, no message and no peer
    ensures r.err.Some? ==> r.n == 0 && r.cm.None? && r.src.None?
    // a transport error is returned unchanged
    ensures r.called && rx.err.Some? ==> r.err == Some(Transport(rx.err.value))
    // a decode error is returned unchanged
    ensures r.called && rx.err.None? && env.parse(rx.oob).ParseFailed? ==> r.err == Some(Parse(env.parse(rx.oob).code))
    // success exactly when the call and the decode both succeed
    ensures r.err.None? <==> r.called && rx.err.None? && env.parse(rx.oob).Parsed?
    // on success the peer is the transport's, and a decoded message gets it as its source
    ensures r.err.None? ==> r.src == rx.src && (r.cm.Some? <==> env.parse(rx.oob).cm.Some?)
    ensures r.err.None? && r.cm.Some? ==> r.cm.value == env.parse(rx.oob).cm.value.(src := env.toIP4(rx.src))
    // UDP: the payload stays where the transport put it and the count is the transport's
    ensures Ok(h) && h.c.shape == UDPConn ==> r.buf == CopyInto(prev, rx.data)
    ensures Ok(h) && h.c.shape == UDPConn && r.err.None? ==> r.n == rx.n
    // raw IP: a failed receive leaves the caller's buffer alone
    ensures Ok(h) && h.c.shape == IPConn && rx.err.Some? ==> r.buf == prev
    // raw IP: the header length is read from the caller's buffer as it was before the call
    ensures Ok(h) && h.c.shape == IPConn && rx.err.None? ==>
      forall i :: 0 <= i < |prev| ==>
        r.buf[i] == Received(|prev| + MaxHeaderLen, rx.data)[HeaderLen(prev[0]) + i]
    ensures Ok(h) && h.c.shape == IPConn && r.err.None? ==> r.n == rx.n - HeaderLen(prev[0])
  {
    if !Ok(h) then Failed(EINVAL, prev, false)
    else match h.c.shape
      case UDPConn =>
        var buf := CopyInto(prev, rx.data);
        if rx.err.Some? then Failed(Transport(rx.err.value), buf, true)
        else Finish(rx.n, rx, buf, env)
      case IPConn =>
        var nb := Received(|prev| + MaxHeaderLen, rx.data);
        if rx.err.Some? then Failed(Transport(rx.err.value), prev, true)
        else
          var (buf, n) := StripHeader(prev, nb, rx.n, prev[0]);
          Finish(n, rx, buf, env)
      case OtherConn => Failed(InvalidConnType, prev, false)
  }

  /**
   Reads one datagram payload into `b`: returns the byte count, the control
   message, the peer address and an error.
   */
  method Read(h: PayloadHandler?, b: array<byte>, rx: Reception, env: Collaborators)
    returns (n: int, cm: Option<ControlMessage>, src: Option<Addr>, err: Option<Error>)
    requires RawReadable(h, b.Length)
    modifies b, if Ok(h) then {h.c} else {}
    ensures var r := Receive(h, old(b[..]), rx, env);
      n == r.n && cm == r.cm && src == r.src && err == r.err && b[..] == r.buf
    ensures Ok(h) ==> h.c.calls == old(h.c.calls) + if Receive(h, old(b[..]), rx, env).called then 1 else 0
  {
    if !Ok(h) {
      return 0, None, None, Some(EINVAL);
    }
    var oob: seq<byte>;
    var rerr: Option<nat>;
    match h.c.shape {
      case UDPConn =>
        n, oob, src, rerr := h.c.ReadMsg(b, rx);
        if rerr.Some? {
          return 0, None, None, Some(Transport(rerr.value));
        }
      case IPConn =>
        var nb := new byte[b.Length + MaxHeaderLen](_ => 0);
        assert nb[..] == Zeros(nb.Length);
        n, oob, src, rerr := h.c.ReadMsg(nb, rx);
        if rerr.Some? {
          return 0, None, None, Some(Transport(rerr.value));
        }
        var hdrlen := HeaderLen(b[0]);
        var _ := Copy(b, nb[hdrlen..]);
        n := n - hdrlen;
      case OtherConn =>
        return 0, None, None, Some(InvalidConnType);
    }
    match env.parse(oob) {
      case ParseFailed(e) =>
        return 0, None, None, Some(Parse(e));
      case Parsed(m) =>
        cm := m;
    }
    if cm.Some? {
      cm := Some(cm.value.(src := env.toIP4(src)));
    }
    err := None;
  }

  /** The send call a write hands to its transport. */
  datatype SendRequest = SendRequest(via: Shape, payload: seq<byte>, oob: seq<byte>, dst: Addr)

  /** What a send call (`WriteMsgUDP` or `WriteMsgIP`) reports: a byte count and an error. */
  datatype Reply = Reply(n: int, err: Option<nat>)

  /** What a write returns, and the send call it issued, if any. */
  datatype WriteResult = WriteResult(n: int, err: Option<Error>, sent: Option<SendRequest>)

  /**
   Writes the payload `b` with control message `cm` to `dst`; `tx` is what the
   transport reports for the one send call, if it is made.
   */
  function Write(h: PayloadHandler?, b: seq<byte>, cm: Option<ControlMessage>, dst: Option<Addr>,
                 env: Collaborators, tx: Reply): (r: WriteResult)
    requires AddrFits(h, dst)
    // the guard comes first, whatever the destination
    ensures !Ok(h) ==> r == WriteResult(0, Some(EINVAL), None)
    // a missing destination is refused next, whatever the control message
    ensures Ok(h) && dst.None? ==> r == WriteResult(0, Some(MissingAddress), None)
    ensures Ok(h) && dst.Some? && h.c.shape == OtherConn ==> r == WriteResult(0, Some(InvalidConnType), None)
    // one send call exactly when every check passes, carrying the payload, the encoded message and the destination
    ensures r.sent.Some? <==> Ok(h) && dst.Some? && h.c.shape != OtherConn
    ensures r.sent.Some? ==> r.sent.value == SendRequest(h.c.shape, b, env.marshal(cm), dst.value)
    // every failure reports zero bytes; a transport error is returned unchanged
    ensures r.err.Some? ==> r.n == 0
    ensures r.sent.Some? && tx.err.Some? ==> r.err == Some(Transport(tx.err.value))
    // success exactly when the send succeeds, with the transport's count
    ensures r.err.None? <==> r.sent.Some? && tx.err.None?
    ensures r.err.None? ==> r.n == tx.n
  {
    if !Ok(h) then WriteResult(0, Some(EINVAL), None)
    else
      var oob := env.marshal(cm);
      if dst.None? then WriteResult(0, Some(MissingAddress), None)
      else match h.c.shape
        case OtherConn => WriteResult(0, Some(InvalidConnType), None)
        case _ =>
          var req := SendRequest(h.c.shape, b, oob, dst.value);
          if tx.err.Some? then WriteResult(0, Some(Transport(tx.err.value)), Some(req))
          else WriteResult(tx.n, None, Some(req))
  }

  /**
   As written, a raw-IP read whose caller's first byte announces the same
   header length as the packet hands back exactly the payload and its count.
   */
  lemma ReadStripsHeaderWhenNibblesAgree(h: PayloadHandler?, prev: seq<byte>, hdr: seq<byte>, payload: seq<byte>,
                                         rx: Reception, env: Collaborators)
    requires Ok(h) && h.c.shape == IPConn
    requires |prev| > 0 && HeaderLen(prev[0]) == |hdr|
    requires |payload| <= |prev|
    requires rx.data == hdr + payload && rx.n == |rx.data| && rx.err.None? && env.parse(rx.oob).Parsed?
    ensures Receive(h, prev, rx, env).err.None?
    ensures Receive(h, prev, rx, env).buf == payload + Zeros(|prev| - |payload|)
    ensures Receive(h, prev, rx, env).n == |payload|
  {
    StripRecoversPayload(prev, hdr, payload, prev[0]);
  }

  /**
   As written, the header length comes from the caller's buffer, not from the
   packet: with a zeroed buffer (as from `make`) a raw-IP read strips nothing,
   hands the IP header back as payload and over-reports the count by its length.
   */
  lemma ZeroedBufferKeepsHeader(h: PayloadHandler?, prev: seq<byte>, hdr: seq<byte>, payload: seq<byte>,
                                rx: Reception, env: Collaborators)
    requires Ok(h) && h.c.shape == IPConn
    requires |prev| > 0 && prev[0] == 0
    requires |hdr| > 0 && HeaderLen(hdr[0]) == |hdr|
    requires |hdr| + |payload| <= |prev|
    requires rx.data == hdr + payload && rx.n == |rx.data| && rx.err.None? && env.parse(rx.oob).Parsed?
    ensures Receive(h, prev, rx, env).err.None?
    ensures Receive(h, prev, rx, env).n == |payload| + |hdr| > |payload|
    ensures Receive(h, prev, rx, env).buf[..|hdr|] == hdr
  {
    var r := Receive(h, prev, rx, env);
    assert HeaderLen(prev[0]) == 0;
    forall i | 0 <= i < |hdr|
      ensures r.buf[i] == hdr[i]
    {
      assert rx.data[i] == hdr[i];
    }
  }

  /**
   Read and Write refuse the same handlers with the same errors: an unusable
   handler with EINVAL, an unknown connection type with InvalidConnType.
   */
  lemma GuardsAgree(h: PayloadHandler?, prev: seq<byte>, rx: Reception, b: seq<byte>, cm: Option<ControlMessage>,
                    dst: Addr, env: Collaborators, tx: Reply)
    requires RawReadable(h, |prev|) && AddrFits(h, Some(dst))
    ensures Receive(h, prev, rx, env).err == Some(EINVAL) <==> !Ok(h)
    ensures Write(h, b, cm, Some(dst), env, tx).err == Some(EINVAL) <==> !Ok(h)
    ensures Receive(h, prev, rx, env).err == Some(InvalidConnType)
            <==> Write(h, b, cm, Some(dst), env, tx).err == Some(InvalidConnType)
  {
    // follows from the contracts of Receive and Write alone
  }
}
