/** Percent-decoding (RFC 3986 section 2.1) as parsePercentEncoding does it. */
module PercentDecoding {
  import opened ByteStreams

  const PERCENT: byte := 0x25

  /** The value of a hexadecimal digit in either case, or -1. */
  function Hex(c: byte): (v: int)
    ensures -1 <= v < 16
  {
    if 0x30 <= c <= 0x39 then c - 0x30
    else if 0x61 <= c <= 0x66 then 10 + c - 0x61
    else if 0x41 <= c <= 0x46 then 10 + c - 0x41
    else -1
  }

  /** A percent sign with two hexadecimal digits behind it stands at position i. */
  predicate EscapeAt(s: seq<byte>, i: nat) {
    i + 2 < |s| && s[i] == PERCENT && Hex(s[i + 1]) >= 0 && Hex(s[i + 2]) >= 0
  }

  function Decode(s: seq<byte>): seq<byte>
    decreases |s|
  {
    if s == [] then []
    else if EscapeAt(s, 0) then [Hex(s[1]) * 16 + Hex(s[2])] + Decode(s[3..])
    else [s[0]] + Decode(s[1..])
  }

  method ParsePercentEncoding(s: seq<byte>) returns (out: seq<byte>)
    ensures out == Decode(s)
  {
    hide Decode, Hex;
    out := [];
    var i := 0;
    while i < |s|
      invariant 0 <= i <= |s|
      invariant out + Decode(s[i..]) == Decode(s)
      decreases |s| - i
    {
      DecodeAt(s, i);
      if s[i] == PERCENT && i + 2 < |s| {
        var hi := Hex(s[i + 1]);
        var lo := Hex(s[i + 2]);
        if hi >= 0 && lo >= 0 {
          out := out + [hi * 16 + lo];
          i := i + 3;
          continue;
        }
      }
      out := out + [s[i]];
      i := i + 1;
    }
    NothingLeft(s);
  }

  lemma DecodeAt(s: seq<byte>, i: nat)
    requires i < |s|
    ensures Decode(s[i..]) == if EscapeAt(s, i) then [Hex(s[i + 1]) * 16 + Hex(s[i + 2])] + Decode(s[i + 3..])
                              else [s[i]] + Decode(s[i + 1..])
  {
    hide Hex;
    EscapeAtShift(s, i, 0);
    assert s[i..][1..] == s[i + 1..];
    if EscapeAt(s, i) { assert s[i..][3..] == s[i + 3..]; }
  }

  lemma NothingLeft(s: seq<byte>)
    ensures Decode(s[..0]) == [] && Decode(s[|s|..]) == []
  {
  }

  // ------------------------------------------------- decoding, in characters

  const LOWER := "0123456789abcdef"
  const UPPER := "0123456789ABCDEF"

  /** c is the hexadecimal digit for v, in either case. */
  predicate IsDigit(c: byte, v: nat) {
    v < 16 && (c as char == LOWER[v] || c as char == UPPER[v])
  }

  lemma HexReadsDigits(c: byte, v: nat)
    ensures Hex(c) == v <==> IsDigit(c, v)
  {
  }

  /** A percent sign, the digit for v, and the digit for w stand in front. */
  ghost predicate Escape(s: seq<byte>, v: nat, w: nat) {
    |s| >= 3 && s[0] as char == '%' && IsDigit(s[1], v) && IsDigit(s[2], w)
  }

  /** An escape in front decodes to its byte; whatever else stands in front passes unchanged. */
  lemma DecodeFront(s: seq<byte>)
    requires s != []
    ensures forall v: nat, w: nat :: Escape(s, v, w) ==> Decode(s) == [16 * v + w] + Decode(s[3..])
    ensures (forall v: nat, w: nat :: !Escape(s, v, w)) ==> Decode(s) == [s[0]] + Decode(s[1..])
  {
    hide Hex, IsDigit;
    if |s| >= 3 {
      forall v: nat ensures (Hex(s[1]) == v <==> IsDigit(s[1], v)) && (Hex(s[2]) == v <==> IsDigit(s[2], v)) {
        HexReadsDigits(s[1], v);
        HexReadsDigits(s[2], v);
      }
      if EscapeAt(s, 0) { assert Escape(s, Hex(s[1]), Hex(s[2])); }
    }
  }

  // ---------------------------------------------------------- counting escapes

  /** The number of positions at which an escape stands. */
  function Escapes(s: seq<byte>): nat {
    if s == [] then 0 else (if EscapeAt(s, 0) then 1 else 0) + Escapes(s[1..])
  }

  lemma EscapeAtShift(s: seq<byte>, k: nat, i: nat)
    requires k <= |s|
    ensures EscapeAt(s[k..], i) <==> EscapeAt(s, k + i)
  {
  }

  /** No escape starts inside another one. */
  lemma EscapesDoNotOverlap(s: seq<byte>)
    requires EscapeAt(s, 0)
    ensures Escapes(s) == 1 + Escapes(s[3..])
  {
    EscapesStep(s, 1);
    EscapesStep(s, 2);
  }

  lemma EscapesStep(s: seq<byte>, i: nat)
    requires i < |s| && !EscapeAt(s, i)
    ensures Escapes(s[i..]) == Escapes(s[i + 1..])
  {
    EscapeAtShift(s, i, 0);
    assert s[i..][1..] == s[i + 1..];
  }

  /** Each escape, wherever it stands, costs the output two bytes. */
  lemma {:induction false} DecodedLength(s: seq<byte>)
    ensures |Decode(s)| == |s| - 2 * Escapes(s)
    decreases |s|
  {
    if s == [] {
    } else {
      if EscapeAt(s, 0) {
        EscapesDoNotOverlap(s);
        DecodedLength(s[3..]);
      } else {
        DecodedLength(s[1..]);
      }
    }
  }

  lemma {:induction false} NoEscapes(s: seq<byte>)
    ensures Escapes(s) == 0 <==> forall i: nat :: !EscapeAt(s, i)
  {
    if s == [] {
    } else {
      NoEscapes(s[1..]);
      forall i: nat ensures EscapeAt(s[1..], i) <==> EscapeAt(s, 1 + i) { EscapeAtShift(s, 1, i); }
      if forall i: nat :: !EscapeAt(s[1..], i) {
        forall i: nat ensures i > 0 ==> !EscapeAt(s, i) {
          if i > 0 { EscapeAtShift(s, 1, i - 1); }
        }
      }
    }
  }

  lemma {:induction false} WithoutEscapes(s: seq<byte>)
    requires Escapes(s) == 0
    ensures Decode(s) == s
  {
    if s == [] {
    } else {
      WithoutEscapes(s[1..]);
    }
  }

  /** Text passes through unchanged exactly when it holds no well-formed escape. */
  lemma UnchangedExactly(s: seq<byte>)
    ensures Decode(s) == s <==> forall i: nat :: !EscapeAt(s, i)
  {
    NoEscapes(s);
    DecodedLength(s);
    if Escapes(s) == 0 { WithoutEscapes(s); }
  }

  // ------------------------------------------------------------- round trips

  /** What an encoder may write for a byte: itself, or an escape with digits in either case. */
  datatype Piece = Raw(b: byte) | Escaped(b: byte, upperHigh: bool, upperLow: bool)

  function Digit(v: nat, upper: bool): byte
    requires v < 16
  {
    (if upper then UPPER[v] else LOWER[v]) as byte
  }

  function Written(p: Piece): seq<byte> {
    match p
    case Raw(b) => [b]
    case Escaped(b, high, low) => [PERCENT, Digit(b / 16, high), Digit(b % 16, low)]
  }

  function Text(ps: seq<Piece>): seq<byte> {
    if ps == [] then [] else Written(ps[0]) + Text(ps[1..])
  }

  function Plain(ps: seq<Piece>): (s: seq<byte>)
    ensures |s| == |ps|
  {
    if ps == [] then [] else [ps[0].b] + Plain(ps[1..])
  }

  /** The number of pieces written raw that, with what follows them, read as an escape. */
  function Accidents(ps: seq<Piece>): nat {
    if ps == [] then 0
    else (if ps[0].Raw? && EscapeAt(Text(ps), 0) then 1 else 0) + Accidents(ps[1..])
  }

  lemma HexOfDigit(v: nat, upper: bool)
    requires v < 16
    ensures Hex(Digit(v, upper)) == v
  {
  }

  lemma EscapedStep(ps: seq<Piece>)
    requires ps != [] && ps[0].Escaped?
    ensures EscapeAt(Text(ps), 0) && Text(ps)[3..] == Text(ps[1..])
    ensures Decode(Text(ps)) == [ps[0].b] + Decode(Text(ps[1..]))
  {
    hide Hex, Digit, Decode, EscapeAt;
    HexOfDigit(ps[0].b / 16, ps[0].upperHigh);
    HexOfDigit(ps[0].b % 16, ps[0].upperLow);
    DecodeEscape(Digit(ps[0].b / 16, ps[0].upperHigh), Digit(ps[0].b % 16, ps[0].upperLow), Text(ps[1..]));
  }

  lemma DecodeEscape(high: byte, low: byte, rest: seq<byte>)
    requires Hex(high) >= 0 && Hex(low) >= 0
    ensures var s := [PERCENT, high, low] + rest;
            EscapeAt(s, 0) && s[3..] == rest && Decode(s) == [Hex(high) * 16 + Hex(low)] + Decode(rest)
  {
    hide Hex;
    assert ([PERCENT, high, low] + rest)[3..] == rest;
  }

  lemma RawStep(ps: seq<Piece>)
    requires ps != [] && ps[0].Raw?
    ensures Text(ps)[0] == ps[0].b && Text(ps)[1..] == Text(ps[1..])
  {
  }

  /** An accident shortens the decoded text. */
  lemma {:induction false} TextLength(ps: seq<Piece>)
    ensures |Decode(Text(ps))| == |ps| - 2 * Accidents(ps)
  {
    DecodedLength(Text(ps));
    if ps == [] {
    } else {
      TextLength(ps[1..]);
      DecodedLength(Text(ps[1..]));
      if ps[0].Escaped? {
        EscapedStep(ps);
      } else {
        RawStep(ps);
      }
    }
  }

  lemma {:induction false} DecodesWithoutAccidents(ps: seq<Piece>)
    requires Accidents(ps) == 0
    ensures Decode(Text(ps)) == Plain(ps)
  {
    if ps == [] {
    } else {
      DecodesWithoutAccidents(ps[1..]);
      if ps[0].Escaped? {
        EscapedStep(ps);
      } else {
        RawStep(ps);
      }
    }
  }

  /** Decoding undoes an encoding exactly when no raw piece reads as the start of an escape. */
  lemma DecodeUndoesExactly(ps: seq<Piece>)
    ensures Decode(Text(ps)) == Plain(ps) <==> Accidents(ps) == 0
  {
    TextLength(ps);
    if Accidents(ps) == 0 { DecodesWithoutAccidents(ps); }
  }

  /** In particular it undoes every encoder that never writes a percent sign raw. */
  lemma DecodeUndoesSafeEncoders(ps: seq<Piece>)
    requires forall p <- ps :: p != Raw(PERCENT)
    ensures Decode(Text(ps)) == Plain(ps)
  {
    NoAccidents(ps);
    DecodeUndoesExactly(ps);
  }

  lemma {:induction false} NoAccidents(ps: seq<Piece>)
    requires forall p <- ps :: p != Raw(PERCENT)
    ensures Accidents(ps) == 0
  {
    if ps == [] {
    } else {
      assert ps[0] in ps && forall p :: p in ps[1..] ==> p in ps;
      NoAccidents(ps[1..]);
      if ps[0].Raw? { RawStep(ps); }
    }
  }
}
