# IPv4 payload handler — a Dafny model

This project models the payload handler of the Go `ipv4` package
(`src/code.google.com/p/go.net/ipv4/payload.go`). The handler wraps a packet
connection and offers two operations:

- `Read` receives one datagram into the caller's buffer. On a raw IP socket it
  strips the IPv4 header. It decodes the ancillary bytes into a control message
  and stamps the peer address into that message's source field.
- `Write` encodes an optional control message and sends the payload to a
  destination.

Both operations first check that the handler and its connection are non-nil.
Both then dispatch on the connection's concrete type: UDP, raw IP or anything
else.

Layout:

- `net.dfy`, module `Net`: the parts of Go's runtime and `net` package that the
  handler relies on.
  - Bytes as `bv8`.
  - The builtin `copy`: `CopyInto` is its effect, and `Copy` is the in-place
    method on an array.
  - Addresses, and the three connection shapes.
  - A `PacketConn` class. Its receive call `ReadMsg` puts the delivered bytes
    into the buffer it is given and counts the calls made on it.
- `payload.dfy`, module `Ipv4`: the handler itself.
  - `PayloadHandler` is a class with a nilable connection, and `Ok` is the
    guard.
  - `Read` is an imperative method that changes the caller's array in place.
    It is proved equal to the specification function `Receive`.
  - `Write` is a pure function over the transport's reply.
  - The header arithmetic (`HeaderLen`) and the header strip (`StripHeader`).

Each operation states its outcome over an abstract transport result:

- `Reception` holds the bytes delivered, the count, the ancillary bytes, the
  peer address and the error.
- `Reply` holds the count and the error.

The package's other helpers are `parseControlMessage`, `marshalControlMessage`
and `netAddrToIP4`. They are function-valued fields of `Collaborators`, and
nothing is assumed about them. Read's result records whether a receive call was
made. Write's result records the send request it issued, if any. So "no
transport call" is stated outright.

The code reads `b[0]`, the caller's buffer, at payload.go line 40, although the
packet was received into `nb`; the evidently intended octet is `nb[0]`. The
model follows the code; see "## Findings".

## Model

| member | source | states |
|---|---|---|
| `Ipv4.Ok` | src/code.google.com/p/go.net/ipv4/payload.go:18 | true exactly when the handler and its connection are non-nil |
| `Net.Zeros` | src/code.google.com/p/go.net/ipv4/payload.go:36 | `make([]byte, n)` gives a buffer of length `n` whose every byte is zero |
| `Net.CopyInto` | src/code.google.com/p/go.net/ipv4/payload.go:41 | after `copy(dst, src)`, byte `i` of the destination comes from `src` when `i < len(src)` and is unchanged otherwise; the length is unchanged |
| `Net.Copy` | src/code.google.com/p/go.net/ipv4/payload.go:41 | the in-place copy returns min(len(dst), len(src)) and leaves the array equal to `CopyInto` of its old contents |
| `Net.PacketConn.ReadMsg` | src/code.google.com/p/go.net/ipv4/payload.go:31-39 | one receive call: the buffer gets the delivered bytes, the count, ancillary bytes, peer and error are returned as delivered, and the call counter goes up by one |
| `Ipv4.HeaderLen` | src/code.google.com/p/go.net/ipv4/payload.go:40 | `(b & 0x0f) << 2` is four times the low nibble of the octet, so it is a multiple of 4 no larger than 60; nothing enforces the minimum of 20 |
| `Ipv4.Received` | src/code.google.com/p/go.net/ipv4/payload.go:36-37 | the temporary buffer `make([]byte, len(b)+maxHeaderLen)` holds the delivered bytes followed by zeros |
| `Ipv4.StripHeader` | src/code.google.com/p/go.net/ipv4/payload.go:40-42 | because the temporary buffer is longer than `b` by the longest header, `nb[hdrlen:]` is in bounds and the copy covers all of `b`: `b[i] == nb[hdrlen+i]`; the count drops by exactly `hdrlen` |
| `Ipv4.PastHeader` | src/code.google.com/p/go.net/ipv4/payload.go:41 | reading a received `hdr + payload` from just past the header gives the payload followed by the fresh buffer's zeros |
| `Ipv4.StripRecoversPayload` | src/code.google.com/p/go.net/ipv4/payload.go:36-42 | when the octet read announces exactly the packet's header length, the caller's buffer ends up as the payload (zero-filled) and the count is the payload's length |
| `Ipv4.StripHeaderCorrected` | src/code.google.com/p/go.net/ipv4/payload.go:40-42 | the strip with the header length read from the received packet's first octet: the result depends on `nb` alone |
| `Ipv4.IntendedStripRecoversPayload` | src/code.google.com/p/go.net/ipv4/payload.go:40-42 | with the corrected strip, a packet whose first octet announces its own header length yields exactly its payload and payload count, whatever the caller's buffer held |
| `Ipv4.Finish` | src/code.google.com/p/go.net/ipv4/payload.go:46-52 | a decode failure becomes `Parse(e)` with zero count, no message and no peer; otherwise the count and peer are kept, a nil message stays nil, and a non-nil message gets `toIP4(peer)` as its source with its other fields unchanged |
| `Ipv4.Receive` | src/code.google.com/p/go.net/ipv4/payload.go:18-53 | a nil handler or connection gives `(0, nil, nil, EINVAL)` with no call and `b` unchanged; a connection of another type gives `errInvalidConnType` with no call and `b` unchanged; otherwise exactly one receive call is made; a transport error or decode error is returned unchanged as `(0, nil, nil, err)`; success happens exactly when both succeed; on UDP the count is the transport's and the payload stays where the transport put it; on raw IP the count is the received count minus the header length taken from `b`'s old first byte, and `b` holds the bytes past that offset; a decoded message has its source replaced by the peer address and its other fields kept, and a nil one stays nil |
| `Ipv4.Read` | src/code.google.com/p/go.net/ipv4/payload.go:24-53 | the in-place read returns exactly `Receive`'s results, leaves `b` as `Receive` says and issues a receive call on the connection exactly when `Receive` says one is made |
| `Ipv4.Write` | src/code.google.com/p/go.net/ipv4/payload.go:61-81 | a nil handler or connection gives `(0, EINVAL)` before anything else; a nil `dst` then gives `(0, errMissingAddress)` whatever `cm` is; a connection of another type gives `errInvalidConnType`; a send request is issued exactly when all three checks pass, and it carries the payload, the encoded control message and the destination; a transport error is returned unchanged with zero bytes; success happens exactly when the send succeeds, with the transport's count |
| `Ipv4.ReadStripsHeaderWhenNibblesAgree` | src/code.google.com/p/go.net/ipv4/payload.go:35-42 | as written, a raw-IP read returns exactly the payload and its length when the caller's old first byte announces the packet's header length |
| `Ipv4.ZeroedBufferKeepsHeader` | src/code.google.com/p/go.net/ipv4/payload.go:40 | as written, a raw-IP read into a buffer whose first byte is zero strips nothing: the caller gets the IP header as payload and a count too large by the header length |
| `Ipv4.GuardsAgree` | src/code.google.com/p/go.net/ipv4/payload.go:18-75 | Read and Write refuse the same handlers: EINVAL exactly for an unusable handler, `errInvalidConnType` for the same connections |

## Left out

- The socket calls `ReadMsgUDP`, `ReadMsgIP`, `WriteMsgUDP` and `WriteMsgIP` are operating-system I/O. Their outcomes are parameters: `Reception` for a receive and `Reply` for a send. Nothing ties the reported count to the bytes delivered. The flags result of a receive and the ancillary count of a send are ignored, as in the source.
- `parseControlMessage`, `marshalControlMessage` and `netAddrToIP4` are defined in other files of the package. They are not part of this model and appear as arbitrary functions in `Collaborators`. The round trip between encoding and decoding a control message belongs to them and is not stated.
- `newControlMessage` and the handler's `rawOpt` only size the ancillary receive buffer. The model takes the received ancillary bytes `oob[:oobn]` directly from the `Reception`, so the options are not modelled.
- `maxHeaderLen` is defined in header.go, which is not part of this model. It is the constant 60 here, the longest header the 4-bit length field of RFC 791 section 3.1 allows.
- The type assertions `dst.(*net.UDPAddr)` and `dst.(*net.IPAddr)` panic on a mismatched address. Write requires instead that the address matches the socket (`AddrFits`).
- Indexing `b[0]` on the raw-IP path panics on an empty buffer once `ReadMsgIP` has returned without error. Read requires a non-empty buffer on that path (`RawReadable`). That `requires` also excludes the case where the buffer is empty and the receive fails, although the source then returns `(0, nil, nil, err)` normally.
- Go's error interface values are a closed enumeration. Transport and decode errors carry an opaque code that is passed through unchanged.
- A Go interface holding a typed nil pointer is not distinguished from nil.
- The control message is a value. Setting `cm.Src` on the freshly decoded message is a record update, so aliasing of that message is not modelled.
- Concurrency and deadlines belong to the connection. The handler has no logic of its own for them.

## Findings

| source | as written | input that shows it | evidently intended | confidence | as-written member | corrected member |
|---|---|---|---|---|---|---|
| src/code.google.com/p/go.net/ipv4/payload.go:40 | the header length is read from `b[0]`, the caller's buffer, which the raw receive did not write | a zero-filled `b` (as from `make`) and a received packet with a 20-byte header (first octet 0x45): the header length becomes 0, the header is returned as payload and the count is 20 too large | read the length from `nb[0]`, the first octet of the packet just received | high; not executed | `Ipv4.ZeroedBufferKeepsHeader` | `Ipv4.IntendedStripRecoversPayload` |

`Read` keeps the code's ordering, because it models the source as written.
`StripHeaderCorrected` is the strip step as intended.
