/**
 * HTTP/2 frames (RFC 9113 section 4.1): the frame printer h2_frame, the frame reader, and
 * the response loop of h2_mismatch_request without its deadline.
 */
module Http2Frames {
  import opened Wrappers
  import opened ByteStreams

  const DATA := 0
  const SETTINGS := 4
  const HEADER_SIZE := 9

  /** A frame as the reader returns it: a 31-bit stream id and a payload of less than 2^24 bytes. */
  datatype Frame = Frame(ftype: byte, flags: byte, sid: nat, payload: seq<byte>)

  /** The exceptions of int.to_bytes, of bytes(), and of recvn. */
  datatype Error = OverflowError | ValueError | Eof(wanted: nat, got: nat)

  predicate Fits(f: Frame) {
    f.sid < 0x8000_0000 && |f.payload| < 0x100_0000
  }

  predicate IsByte(x: int) {
    0 <= x < 0x100
  }

  /** Flag bit 0x1: END_STREAM on DATA and HEADERS, ACK on SETTINGS. */
  predicate LowFlag(f: Frame) {
    f.flags % 2 == 1
  }

  // --------------------------------------------------------- printer and reader

  function Header(length: nat, ftype: byte, flags: byte, sid: nat): (h: seq<byte>)
    requires length < 0x100_0000 && sid < 0x8000_0000
    ensures |h| == HEADER_SIZE
  {
    ToU24(length) + [ftype, flags] + ToU32(sid)
  }

  function H2Frame(ftype: int, flags: int, streamId: int, payload: seq<byte>): Result<seq<byte>, Error> {
    if |payload| >= 0x100_0000 then Err(OverflowError)
    else if !IsByte(ftype) || !IsByte(flags) then Err(ValueError)
    else Ok(Header(|payload|, ftype, flags, streamId % 0x8000_0000) + payload)
  }

  function Encode(f: Frame): seq<byte>
    requires Fits(f)
  {
    H2Frame(f.ftype, f.flags, f.sid, f.payload).value
  }

  /** The nine-byte header without its length. */
  function DecodeHeader(hdr: seq<byte>): (f: Frame)
    requires |hdr| == HEADER_SIZE
    ensures Fits(f)
  {
    Frame(hdr[3], hdr[4], U32(hdr[5..]) % 0x8000_0000, [])
  }

  /** What reading one frame from the front of a byte stream gives: the frame and the bytes behind it. */
  datatype Reading = Got(frame: Frame, rest: seq<byte>) | Failed(error: Error)

  function Decode(s: seq<byte>): (r: Reading)
    ensures r.Got? ==> Fits(r.frame) && |r.rest| < |s|
  {
    if |s| < HEADER_SIZE then Failed(Eof(HEADER_SIZE, |s|))
    else
      var length := U24(s[..3]);
      var rest := s[HEADER_SIZE..];
      if |rest| < length then Failed(Eof(length, |rest|))
      else Got(DecodeHeader(s[..HEADER_SIZE]).(payload := rest[..length]), rest[length..])
  }

  method ReadFrame(sock: Socket) returns (r: Result<Frame, Error>)
    modifies sock`incoming
    ensures match Decode(old(sock.incoming))
            case Got(f, rest) => r == Ok(f) && sock.incoming == rest
            case Failed(e) => r == Err(e) && sock.incoming == []
  {
    var h := RecvN(sock, HEADER_SIZE);
    if h.Err? {
      return Err(Eof(h.error.wanted, h.error.got));
    }
    var hdr := h.value;
    var length := U24(hdr[..3]);
    assert hdr[..3] == old(sock.incoming)[..3];
    var ftype, flags := hdr[3], hdr[4];
    var sid := U32(hdr[5..]) % 0x8000_0000;
    var payload := [];
    if length > 0 {
      var p := RecvN(sock, length);
      if p.Err? {
        return Err(Eof(p.error.wanted, p.error.got));
      }
      payload := p.value;
    }
    return Ok(Frame(ftype, flags, sid, payload));
  }

  lemma HeaderInverse(h: seq<byte>, length: nat, ftype: byte, flags: byte, sid: nat)
    requires |h| == HEADER_SIZE && length < 0x100_0000 && sid < 0x8000_0000
    ensures Header(length, ftype, flags, sid) == h <==>
            U24(h[..3]) == length && h[3] == ftype && h[4] == flags && U32(h[5..]) == sid
  {
    U24Inverse(length, h[..3]);
    U32Inverse(sid, h[5..]);
    var e := Header(length, ftype, flags, sid);
    assert e[..3] == ToU24(length) && e[5..] == ToU32(sid);
    assert h == h[..3] + [h[3], h[4]] + h[5..];
  }

  /**
   * The printer raises exactly on oversized payloads and non-byte fields; otherwise the reader
   * gets its arguments back.
   */
  lemma PrintedFrameIsRead(ftype: int, flags: int, streamId: int, payload: seq<byte>, tail: seq<byte>)
    ensures var p := H2Frame(ftype, flags, streamId, payload);
            if |payload| >= 0x100_0000 then p == Err(OverflowError)
            else if !IsByte(ftype) || !IsByte(flags) then p == Err(ValueError)
            else p.Ok? && Decode(p.value + tail) == Got(Frame(ftype, flags, streamId % 0x8000_0000, payload), tail)
  {
    var p := H2Frame(ftype, flags, streamId, payload);
    if p.Ok? {
      var h := Header(|payload|, ftype, flags, streamId % 0x8000_0000);
      HeaderInverse(h, |payload|, ftype, flags, streamId % 0x8000_0000);
      var s := p.value + tail;
      assert s[..HEADER_SIZE] == h && s[..3] == h[..3];
      assert s[HEADER_SIZE..] == payload + tail;
      assert (payload + tail)[..|payload|] == payload;
    }
  }

  /** Printing what was read gives the bytes back exactly when the reserved bit was clear. */
  lemma ReadFrameIsPrinted(s: seq<byte>)
    requires Decode(s).Got?
    ensures var Got(f, rest) := Decode(s);
            Encode(f) + rest == s <==> s[5] < 0x80
  {
    hide Header, U24, U32;
    var Got(f, rest) := Decode(s);
    var h, e := s[..HEADER_SIZE], Header(|f.payload|, f.ftype, f.flags, f.sid);
    HeaderInverse(h, |f.payload|, f.ftype, f.flags, f.sid);
    assert h[..3] == s[..3];
    U32TopBit(h[5..]);
    assert f.payload + rest == s[HEADER_SIZE..];
    Prefixes(s, e, h, f.payload + rest);
    assert Encode(f) + rest == e + (f.payload + rest);
  }

  lemma Prefixes(s: seq<byte>, e: seq<byte>, h: seq<byte>, tail: seq<byte>)
    requires s == h + tail && |e| == |h|
    ensures e + tail == s <==> e == h
  {
    assert (e + tail)[..|e|] == e;
  }

  // ------------------------------------------------------------ the wire form

  /** The 31 bits of a stream id in four bytes; the top bit is reserved. */
  function StreamIdOf(b: seq<byte>): nat
    requires |b| == 4
  {
    b[0] as int % 0x80 * 0x100_0000 + b[1] as int * 0x1_0000 + b[2] as int * 0x100 + b[3]
  }

  lemma ReservedBit(b: seq<byte>)
    requires |b| == 4
    ensures U32(b) % 0x8000_0000 == StreamIdOf(b)
  {
    BigEndian(b);
    var low := StreamIdOf(b);
    assert U32(b) == low + b[0] as int / 0x80 * 0x8000_0000;
  }

  /** What reading means in bytes: three of length, then type, flags and stream id, then the payload. */
  lemma DecodeMeans(s: seq<byte>)
    ensures |s| < 9 ==> Decode(s) == Failed(Eof(9, |s|))
    ensures |s| >= 9 ==>
              var length := s[0] as int * 0x1_0000 + s[1] as int * 0x100 + s[2];
              Decode(s) == if |s| < 9 + length then Failed(Eof(length, |s| - 9))
                           else Got(Frame(s[3], s[4], StreamIdOf(s[5..9]), s[9..9 + length]), s[9 + length..])
  {
    hide U24, U32, StreamIdOf;
    if |s| >= 9 {
      var hdr, length := s[..9], U24(s[..3]);
      BigEndian(s[..3]);
      ReservedBit(hdr[5..]);
      assert hdr[5..] == s[5..9];
      if |s| >= 9 + length {
        assert s[9..][..length] == s[9..9 + length] && s[9..][length..] == s[9 + length..];
      }
    }
  }

  // ------------------------------------------------------------- frame lists

  function EncodeAll(fs: seq<Frame>): seq<byte>
    requires forall f <- fs :: Fits(f)
  {
    if fs == [] then [] else Encode(fs[0]) + EncodeAll(fs[1..])
  }

  function DecodeAll(s: seq<byte>): Result<seq<Frame>, Error>
    decreases |s|
  {
    if s == [] then Ok([])
    else match Decode(s)
      case Failed(e) => Err(e)
      case Got(f, rest) =>
        match DecodeAll(rest)
        case Err(e) => Err(e)
        case Ok(fs) => Ok([f] + fs)
  }

  lemma EncodeThenDecode(f: Frame, tail: seq<byte>)
    requires Fits(f)
    ensures Decode(Encode(f) + tail) == Got(f, tail)
  {
    PrintedFrameIsRead(f.ftype, f.flags, f.sid, f.payload, tail);
  }

  /** Any list of frames comes back exactly, with no bytes left over. */
  lemma {:induction false} FramesRoundTrip(fs: seq<Frame>)
    requires forall f <- fs :: Fits(f)
    ensures DecodeAll(EncodeAll(fs)) == Ok(fs)
  {
    if fs == [] {
    } else {
      EncodeThenDecode(fs[0], EncodeAll(fs[1..]));
      FramesRoundTrip(fs[1..]);
      assert fs == [fs[0]] + fs[1..];
    }
  }

  /** Reading from a socket that delivers a list of frames, in any chunks, gives back that list. */
  method ReadBack(sock: Socket, n: nat, ghost fs: seq<Frame>) returns (read: seq<Frame>)
    requires n == |fs| && forall f <- fs :: Fits(f)
    requires sock.incoming == EncodeAll(fs)
    modifies sock`incoming
    ensures read == fs && sock.incoming == []
  {
    hide Encode, Decode;
    read := [];
    for i := 0 to n
      invariant read == fs[..i] && sock.incoming == EncodeAll(fs[i..])
    {
      EncodeThenDecode(fs[i], EncodeAll(fs[i..][1..]));
      assert fs[i..][1..] == fs[i + 1..];
      var f := ReadFrame(sock);
      read := read + [f.value];
    }
  }

  // --------------------------------------------------------- the response loop

  /** How a run of the loop ends: its return value, how many acknowledgements it sent, what it left unread. */
  datatype Run = Run(result: Result<seq<byte>, Error>, acks: nat, unread: seq<byte>)

  /** The settings acknowledgement, an empty SETTINGS frame with flag 0x1 on stream 0. */
  function Ack(): seq<byte> {
    Encode(Frame(SETTINGS, 1, 0, []))
  }

  predicate Asks(f: Frame) {
    f.ftype == SETTINGS && !LowFlag(f)
  }

  function Kept(f: Frame): seq<byte> {
    if f.sid == 1 && f.ftype == DATA then f.payload else []
  }

  predicate Final(f: Frame) {
    f.sid == 1 && LowFlag(f)
  }

  function Count(b: bool): nat {
    if b then 1 else 0
  }

  /** The loop on a byte stream, with body collected so far. */
  function Serve(s: seq<byte>, body: seq<byte>): Run
    decreases |s|
  {
    match Decode(s)
    case Failed(e) => Run(Err(e), 0, [])
    case Got(f, rest) =>
      if Final(f) then Run(Ok(body + Kept(f)), Count(Asks(f)), rest)
      else
        var run := Serve(rest, body + Kept(f));
        run.(acks := Count(Asks(f)) + run.acks)
  }

  /** sent with n copies of ack behind it. */
  function WithAcks(sent: seq<byte>, ack: seq<byte>, n: nat): seq<byte>
    decreases n
  {
    if n == 0 then sent else WithAcks(sent, ack, n - 1) + ack
  }

  /** The response loop; ack holds the bytes it sends for each settings request. */
  method ServeLoop(sock: Socket, ack: seq<byte>) returns (r: Result<seq<byte>, Error>)
    modifies sock
    ensures var run := Serve(old(sock.incoming), []);
            && r == run.result && sock.incoming == run.unread
            && sock.sent == WithAcks(old(sock.sent), ack, run.acks)
  {
    hide Decode;
    var body := [];
    ghost var run := Serve(sock.incoming, []);
    ghost var acks: nat := 0;
    while true
      invariant acks <= run.acks && Serve(sock.incoming, body) == run.(acks := run.acks - acks)
      invariant sock.sent == WithAcks(old(sock.sent), ack, acks)
      decreases |sock.incoming|
    {
      var frame := ReadFrame(sock);
      if frame.Err? {
        return Err(frame.error);
      }
      var f := frame.value;
      if f.ftype == SETTINGS && f.flags % 2 == 0 {
        sock.SendAll(ack);
      }
      acks := acks + Count(Asks(f));
      assert Kept(f) == [] ==> body + Kept(f) == body;
      if f.sid == 1 && f.ftype == DATA {
        body := body + f.payload;
        if f.flags % 2 == 1 {
          break;
        }
      } else if f.sid == 1 && f.flags % 2 == 1 {
        break;
      }
    }
    return Ok(body);
  }

  /** What it sends is, for the peer, as many acknowledgements: SETTINGS with flag 0x1, stream 0 and no payload. */
  method MismatchLoop(sock: Socket) returns (r: Result<seq<byte>, Error>)
    modifies sock
    ensures var run := Serve(old(sock.incoming), []);
            && r == run.result && sock.incoming == run.unread
            && old(sock.sent) <= sock.sent
            && DecodeAll(sock.sent[|old(sock.sent)|..]) == Ok(seq(run.acks, _ => Frame(4, 1, 0, [])))
  {
    ghost var run := Serve(sock.incoming, []);
    AcksAreRead(sock.sent, run.acks);
    r := ServeLoop(sock, Ack());
  }

  lemma {:induction false} AcksAreRead(sent: seq<byte>, n: nat)
    ensures sent <= WithAcks(sent, Ack(), n)
    ensures DecodeAll(WithAcks(sent, Ack(), n)[|sent|..]) == Ok(seq(n, _ => Frame(4, 1, 0, [])))
  {
    AcksAreFrames(sent, n);
    FramesRoundTrip(seq(n, _ => Frame(4, 1, 0, [])));
  }

  lemma {:induction false} AcksAreFrames(sent: seq<byte>, n: nat)
    ensures WithAcks(sent, Ack(), n) == sent + EncodeAll(seq(n, _ => Frame(4, 1, 0, [])))
  {
    hide Encode;
    if n == 0 {
    } else {
      var fs := seq(n - 1, _ => Frame(4, 1, 0, []));
      AcksAreFrames(sent, n - 1);
      EncodeLast(fs, Frame(4, 1, 0, []));
      assert fs + [Frame(4, 1, 0, [])] == seq(n, _ => Frame(4, 1, 0, []));
    }
  }

  lemma {:induction false} EncodeLast(fs: seq<Frame>, f: Frame)
    requires Fits(f) && forall g <- fs :: Fits(g)
    ensures EncodeAll(fs + [f]) == EncodeAll(fs) + Encode(f)
  {
    hide Encode;
    if fs == [] {
      assert fs + [f] == [f] && [f][1..] == [];
    } else {
      EncodeLast(fs[1..], f);
      assert (fs + [f])[1..] == fs[1..] + [f];
    }
  }

  // ---------------------------------------------- what the loop does to frames

  function Body(fs: seq<Frame>): seq<byte> {
    if fs == [] then [] else Kept(fs[0]) + Body(fs[1..])
  }

  /** The number of SETTINGS frames that are not themselves acknowledgements. */
  function Requests(fs: seq<Frame>): nat {
    if fs == [] then 0 else Count(Asks(fs[0])) + Requests(fs[1..])
  }

  /** The frames that a byte stream starts with, reserved bits ignored, as far as they are whole. */
  function Frames(s: seq<byte>): seq<Frame>
    decreases |s|
  {
    match Decode(s)
    case Failed(_) => []
    case Got(f, rest) => [f] + Frames(rest)
  }

  /** The bytes behind the first n frames. */
  function Behind(s: seq<byte>, n: nat): (rest: seq<byte>)
    requires n <= |Frames(s)|
    decreases n
  {
    if n == 0 then s else Behind(Decode(s).rest, n - 1)
  }

  /** The error of reading on behind the last whole frame: in the header, or in the payload it announces. */
  function EndError(s: seq<byte>): Error {
    var left := Behind(s, |Frames(s)|);
    if |left| < HEADER_SIZE then Eof(HEADER_SIZE, |left|)
    else Eof(U24(left[..3]), |left| - HEADER_SIZE)
  }

  /** In fields: the body is the payloads with type 0 and stream 1, the requests have type 4 and an even flags byte. */
  lemma FirstOf(f: Frame, fs: seq<Frame>)
    ensures Body([f] + fs) == (if f.ftype == 0 && f.sid == 1 then f.payload else []) + Body(fs)
    ensures Requests([f] + fs) == (if f.ftype == 4 && f.flags % 2 == 0 then 1 else 0) + Requests(fs)
    ensures Body([]) == [] && Requests([]) == 0
  {
    assert ([f] + fs)[1..] == fs;
  }

  /** The frames are those that reading one after the other gives, until it fails with the end error. */
  lemma {:induction false} FramesAreRead(s: seq<byte>, i: nat)
    requires i <= |Frames(s)|
    ensures Decode(Behind(s, i)) == if i < |Frames(s)| then Got(Frames(s)[i], Behind(s, i + 1)) else Failed(EndError(s))
    decreases i
  {
    hide Decode;
    if Decode(s).Got? {
      var Got(f, rest) := Decode(s);
      assert Frames(s)[0] == f && Frames(s)[1..] == Frames(rest);
      if i > 0 { FramesAreRead(rest, i - 1); }
      if i == 0 { assert Behind(s, 1) == Behind(rest, 0); }
    } else {
      FailedAtEnd(s);
    }
  }

  lemma FailedAtEnd(s: seq<byte>)
    requires Decode(s).Failed?
    ensures Frames(s) == [] && Decode(s) == Failed(EndError(s))
  {
  }

  /**
   * On any bytes: up to and including the first final frame of stream 1 the loop collects the
   * DATA of stream 1 and acknowledges each settings request, and it touches nothing behind it.
   */
  lemma {:induction false} ServeStopsAtFinal(s: seq<byte>, k: nat, body: seq<byte>)
    requires var fs := Frames(s);
             && k < |fs| && fs[k].sid == 1 && fs[k].flags % 2 == 1
             && forall i :: 0 <= i < k ==> !(fs[i].sid == 1 && fs[i].flags % 2 == 1)
    ensures var front := Frames(s)[..k + 1];
            Serve(s, body) == Run(Ok(body + Body(front)), Requests(front), Behind(s, k + 1))
    decreases k
  {
    hide Decode;
    var fs, rest := Frames(s), Decode(s).rest;
    var f, front := fs[0], fs[..k + 1];
    assert front[0] == f && fs[1..] == Frames(rest);
    if k == 0 {
      assert front[1..] == [];
      assert Body(front) == Kept(f) + Body([]) == Kept(f);
    } else {
      ServeStopsAtFinal(rest, k - 1, body + Kept(f));
      assert front[1..] == Frames(rest)[..k];
      assert body + Body(front) == body + Kept(f) + Body(front[1..]);
    }
  }

  /**
   * On any bytes without a final frame the loop consumes everything and acknowledges every
   * settings request, then reports where the stream ended.
   */
  lemma {:induction false} ServeRunsDry(s: seq<byte>, body: seq<byte>)
    requires var fs := Frames(s);
             forall i :: 0 <= i < |fs| ==> !(fs[i].sid == 1 && fs[i].flags % 2 == 1)
    ensures Serve(s, body) == Run(Err(EndError(s)), Requests(Frames(s)), [])
    decreases |s|
  {
    if Decode(s).Failed? {
      assert Frames(s) == [];
    } else {
      ServeRunsDryStep(s, body);
      ServeRunsDry(Decode(s).rest, body + Kept(Decode(s).frame));
    }
  }

  lemma ServeRunsDryStep(s: seq<byte>, body: seq<byte>)
    requires Decode(s).Got? && forall i :: 0 <= i < |Frames(s)| ==> !Final(Frames(s)[i])
    ensures var Got(f, rest) := Decode(s);
            && !Final(f) && (forall i :: 0 <= i < |Frames(rest)| ==> !Final(Frames(rest)[i]))
            && EndError(s) == EndError(rest)
            && Requests(Frames(s)) == Count(Asks(f)) + Requests(Frames(rest))
  {
    hide Decode, Final, Asks;
    var Got(f, rest) := Decode(s);
    assert Frames(s)[0] == f && Frames(s)[1..] == Frames(rest);
    assert forall i :: 0 <= i < |Frames(rest)| ==> Frames(rest)[i] == Frames(s)[i + 1];
  }

  /** On printed frames these are the frames, and the bytes behind them, that were put in. */
  lemma {:induction false} FramesOfEncoded(fs: seq<Frame>, tail: seq<byte>, n: nat)
    requires (forall f <- fs :: Fits(f)) && n <= |fs|
    ensures Frames(EncodeAll(fs) + tail) == fs + Frames(tail)
    ensures Behind(EncodeAll(fs) + tail, n) == EncodeAll(fs[n..]) + tail
    decreases |fs|
  {
    hide Decode, Encode;
    var s := EncodeAll(fs) + tail;
    if fs == [] {
      assert s == tail && fs + Frames(tail) == Frames(tail);
    } else {
      var rest := EncodeAll(fs[1..]) + tail;
      assert s == Encode(fs[0]) + rest;
      EncodeThenDecode(fs[0], rest);
      FramesOfEncoded(fs[1..], tail, if n == 0 then 0 else n - 1);
      assert fs + Frames(tail) == [fs[0]] + (fs[1..] + Frames(tail));
      if n == 0 {
        assert fs[n..] == fs;
      } else {
        assert fs[n..] == fs[1..][n - 1..];
      }
    }
  }

  /** Hence on printed frames: the first final frame ends the run, and the rest is left unread. */
  lemma ServeEncoded(fs: seq<Frame>, k: nat, tail: seq<byte>, body: seq<byte>)
    requires forall f <- fs :: Fits(f)
    requires k < |fs| && Final(fs[k]) && forall i :: 0 <= i < k ==> !Final(fs[i])
    ensures Serve(EncodeAll(fs) + tail, body) ==
            Run(Ok(body + Body(fs[..k + 1])), Requests(fs[..k + 1]), EncodeAll(fs[k + 1..]) + tail)
  {
    FramesOfEncoded(fs, tail, k + 1);
    assert (fs + Frames(tail))[..k + 1] == fs[..k + 1];
    ServeStopsAtFinal(EncodeAll(fs) + tail, k, body);
  }
}
