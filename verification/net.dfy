/**
 The part of Go's runtime and `net` package that the IPv4 payload handler
 relies on: bytes, the builtin `copy`, socket addresses, and a packet
 connection whose receive call deposits what the operating system delivers.
 */
module Net {

  type byte = bv8

  datatype Option<T> = None | Some(value: T)

  function Min(a: int, b: int): int
  {
    if a < b then a else b
  }

  /** A buffer fresh from Go's `make([]byte, n)`: every byte is zero. */
  function Zeros(n: nat): (z: seq<byte>)
    ensures |z| == n && forall i :: 0 <= i < n ==> z[i] == 0
  {
    seq(n, _ => 0 as byte)
  }

  /**
   The contents of `dst` after Go's `copy(dst, src)`: the first
   min(len(dst), len(src)) bytes come from `src`, the rest of `dst` is kept.
   */
  function CopyInto(dst: seq<byte>, src: seq<byte>): (r: seq<byte>)
    ensures |r| == |dst|
    ensures forall i :: 0 <= i < |dst| ==> r[i] == if i < |src| then src[i] else dst[i]
  {
    var k := Min(|dst|, |src|);
    src[..k] + dst[k..]
  }

  /** Go's builtin `copy`, in place on the destination array. */
  method Copy(dst: array<byte>, src: seq<byte>) returns (k: nat)
    modifies dst
    ensures k == Min(dst.Length, |src|)
    ensures dst[..] == CopyInto(old(dst[..]), src)
  {
    k := Min(dst.Length, |src|);
    forall i | 0 <= i < k {
      dst[i] := src[i];
    }
  }

  /** A `net.Addr`: the peer of a UDP socket, of a raw IP socket, or any other kind. */
  datatype Addr = UDPAddr(ip: seq<byte>, port: int) | IPAddr(ip: seq<byte>) | OtherAddr

  /** The concrete type behind a `net.PacketConn`: `*net.UDPConn`, `*net.IPConn` or anything else. */
  datatype Shape = UDPConn | IPConn | OtherConn

  /**
   What one receive call (`ReadMsgUDP` or `ReadMsgIP`) delivers: the bytes it
   writes at the start of the buffer it is handed, the count it reports, the
   ancillary bytes `oob[:oobn]`, the peer address and an operating-system error.
   */
  datatype Reception = Reception(data: seq<byte>, n: int, oob: seq<byte>, src: Option<Addr>, err: Option<nat>)

  /** A packet-oriented connection; `calls` counts the receive calls issued on it. */
  class PacketConn {
    const shape: Shape
    ghost var calls: nat

    constructor (shape: Shape)
      ensures this.shape == shape && calls == 0
    {
      this.shape := shape;
      calls := 0;
    }

    /** One receive call into `buf`; what it delivers is the parameter `rx`. */
    method ReadMsg(buf: array<byte>, rx: Reception) returns (n: int, oob: seq<byte>, src: Option<Addr>, err: Option<nat>)
      modifies this, buf
      ensures calls == old(calls) + 1
      ensures buf[..] == CopyInto(old(buf[..]), rx.data)
      ensures n == rx.n && oob == rx.oob && src == rx.src && err == rx.err
    {
      var _ := Copy(buf, rx.data);
      calls := calls + 1;
      n, oob, src, err := rx.n, rx.oob, rx.src, rx.err;
    }
  }
}
