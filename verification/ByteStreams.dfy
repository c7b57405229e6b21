/** Bytes, big-endian integers, and a socket whose bytes arrive in arbitrary pieces. */
module ByteStreams {
  import opened Wrappers

  type byte = x: int | 0 <= x < 0x100

  /** wanted bytes were asked for, the stream ended after got of them. */
  datatype EofError = EofError(wanted: nat, got: nat)

  class Socket {
    /** What the peer has still to deliver before it closes its side. */
    var incoming: seq<byte>
    var sent: seq<byte>

    constructor (script: seq<byte>)
      ensures incoming == script && sent == []
    {
      incoming, sent := script, [];
    }

    /** At most n bytes, and none only at the end of the stream. How many is up to the network. */
    method Recv(n: nat) returns (chunk: seq<byte>)
      requires n > 0
      modifies this`incoming
      ensures old(incoming) == chunk + incoming && |chunk| <= n
      ensures chunk == [] <==> old(incoming) == []
    {
      chunk := [];
      if incoming != [] {
        var k: nat :| 1 <= k <= n && k <= |incoming|;
        chunk, incoming := incoming[..k], incoming[k..];
      }
    }

    method SendAll(data: seq<byte>)
      modifies this`sent
      ensures sent == old(sent) + data
    {
      sent := sent + data;
    }
  }

  /** Exactly the next n bytes, however they arrive, or an error if the stream is shorter. */
  method RecvN(sock: Socket, n: nat) returns (r: Result<seq<byte>, EofError>)
    modifies sock`incoming
    ensures |old(sock.incoming)| >= n ==> r == Ok(old(sock.incoming)[..n]) && sock.incoming == old(sock.incoming)[n..]
    ensures |old(sock.incoming)| < n ==> r == Err(EofError(n, |old(sock.incoming)|)) && sock.incoming == []
  {
    var out := [];
    while |out| < n
      invariant |out| <= n && out + sock.incoming == old(sock.incoming)
    {
      var chunk := sock.Recv(n - |out|);
      if chunk == [] {
        return Err(EofError(n, |out|));
      }
      out := out + chunk;
    }
    return Ok(out);
  }

  // ----------------------------------------------------------------- searching

  /** The position of the first b in s, or |s|. */
  function IndexOf(s: seq<byte>, b: byte): (i: nat)
    ensures i <= |s|
    ensures i < |s| <==> b in s
  {
    if s == [] || s[0] == b then 0 else 1 + IndexOf(s[1..], b)
  }

  lemma {:induction false} IndexOfPrefix(s: seq<byte>, t: seq<byte>, b: byte)
    requires b in s
    ensures IndexOf(s + t, b) == IndexOf(s, b) < |s|
  {
    if s[0] == b {
    } else {
      IndexOfPrefix(s[1..], t, b);
      assert (s + t)[1..] == s[1..] + t;
    }
  }

  /** What is not in the front is found behind it. */
  lemma {:induction false} IndexOfBehind(s: seq<byte>, t: seq<byte>, b: byte)
    requires b !in s
    ensures IndexOf(s + t, b) == |s| + IndexOf(t, b)
  {
    if s == [] {
      assert s + t == t;
    } else {
      IndexOfBehind(s[1..], t, b);
      assert (s + t)[1..] == s[1..] + t;
    }
  }

  lemma {:induction false} FirstIsFirst(s: seq<byte>, b: byte)
    ensures b !in s[..IndexOf(s, b)]
    ensures b in s ==> s[IndexOf(s, b)] == b
  {
    if s == [] || s[0] == b {
    } else {
      FirstIsFirst(s[1..], b);
      var i := IndexOf(s[1..], b);
      assert s[..i + 1] == [s[0]] + s[1..][..i];
    }
  }

  lemma {:induction false} IndexOfAt(s: seq<byte>, b: byte, t: seq<byte>)
    requires b !in s
    ensures IndexOf(s + [b] + t, b) == |s|
  {
    var u := s + [b] + t;
    if s == [] {
      assert u[0] == b;
    } else {
      IndexOfAt(s[1..], b, t);
      assert u[1..] == s[1..] + [b] + t;
      assert u[0] == s[0];
    }
  }

  // ------------------------------------------------------ big-endian integers

  function U16(b: seq<byte>): (n: nat)
    requires |b| == 2
    ensures n < 0x1_0000
  {
    b[0] as int * 0x100 + b[1] as int
  }

  function ToU16(n: nat): (b: seq<byte>)
    requires n < 0x1_0000
    ensures |b| == 2
  {
    [n / 0x100, n % 0x100]
  }

  function U24(b: seq<byte>): (n: nat)
    requires |b| == 3
    ensures n < 0x100_0000
  {
    U16(b[..2]) * 0x100 + b[2] as int
  }

  function ToU24(n: nat): (b: seq<byte>)
    requires n < 0x100_0000
    ensures |b| == 3
  {
    ToU16(n / 0x100) + [n % 0x100]
  }

  function U32(b: seq<byte>): (n: nat)
    requires |b| == 4
    ensures n < 0x1_0000_0000
  {
    U24(b[..3]) * 0x100 + b[3] as int
  }

  function ToU32(n: nat): (b: seq<byte>)
    requires n < 0x1_0000_0000
    ensures |b| == 4
  {
    ToU24(n / 0x100) + [n % 0x100]
  }

  /** The first byte is the most significant one. */
  lemma BigEndian(b: seq<byte>)
    ensures |b| == 2 ==> U16(b) == b[0] as int * 0x100 + b[1]
    ensures |b| == 3 ==> U24(b) == b[0] as int * 0x1_0000 + b[1] as int * 0x100 + b[2]
    ensures |b| == 4 ==> U32(b) == b[0] as int * 0x100_0000 + b[1] as int * 0x1_0000 + b[2] as int * 0x100 + b[3]
  {
  }

  lemma U16Inverse(n: nat, b: seq<byte>)
    requires n < 0x1_0000 && |b| == 2
    ensures ToU16(n) == b <==> U16(b) == n
  {
    assert b == [b[0], b[1]];
  }

  lemma U24Inverse(n: nat, b: seq<byte>)
    requires n < 0x100_0000 && |b| == 3
    ensures ToU24(n) == b <==> U24(b) == n
  {
    U16Inverse(n / 0x100, b[..2]);
    assert b == b[..2] + [b[2]];
    assert ToU24(n)[..2] == ToU16(n / 0x100);
  }

  lemma U32Inverse(n: nat, b: seq<byte>)
    requires n < 0x1_0000_0000 && |b| == 4
    ensures ToU32(n) == b <==> U32(b) == n
  {
    U24Inverse(n / 0x100, b[..3]);
    assert b == b[..3] + [b[3]];
    assert ToU32(n)[..3] == ToU24(n / 0x100);
  }

  lemma U32TopBit(b: seq<byte>)
    requires |b| == 4
    ensures U32(b) < 0x8000_0000 <==> b[0] < 0x80
  {
    assert b[..3][..2][0] == b[0];
  }
}
