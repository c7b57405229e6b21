/**
 * HPACK literals without indexing (RFC 7541 sections 5.2 and 6.2.2): the simple encoder
 * hpack_string / hpack_header, and a decoder written from the RFC.
 */
module Hpack {
  import opened Wrappers
  import opened ByteStreams

  datatype Field = Field(name: seq<byte>, value: seq<byte>)

  /** The encoder's one exception: a string of 127 bytes or more. */
  datatype ValueError = TooLong

  predicate Short(f: Field) {
    |f.name| < 127 && |f.value| < 127
  }

  // -------------------------------------------------------------- the encoder

  function HpackString(b: seq<byte>): Result<seq<byte>, ValueError> {
    if |b| >= 127 then Err(TooLong) else Ok([|b|] + b)
  }

  function HpackHeader(f: Field): Result<seq<byte>, ValueError> {
    match HpackString(f.name)
    case Err(e) => Err(e)
    case Ok(name) =>
      match HpackString(f.value)
      case Err(e) => Err(e)
      case Ok(value) => Ok([0] + name + value)
  }

  /** The joined header block. */
  function Block(fs: seq<Field>): Result<seq<byte>, ValueError> {
    if fs == [] then Ok([])
    else match HpackHeader(fs[0])
      case Err(e) => Err(e)
      case Ok(h) =>
        match Block(fs[1..])
        case Err(e) => Err(e)
        case Ok(rest) => Ok(h + rest)
  }

  // -------------------------------------------------------------- the decoder

  /** A decoded piece and the bytes behind it. */
  datatype Decoded<+T> = Got(value: T, rest: seq<byte>) | Malformed

  /** Continuation octets of an integer: seven bits each, least significant first. */
  function Continuation(s: seq<byte>): Decoded<nat>
    decreases |s|
  {
    if s == [] then Malformed
    else if s[0] < 0x80 then Got(s[0], s[1..])
    else match Continuation(s[1..])
      case Malformed => Malformed
      case Got(n, rest) => Got(s[0] - 0x80 + 0x80 * n, rest)
  }

  /** An integer with a seven-bit prefix (RFC 7541 section 5.1) in an octet whose top bit is clear. */
  function Integer7(s: seq<byte>): (r: Decoded<nat>)
    ensures r.Got? ==> s != [] && s[0] < 0x80
  {
    if s == [] || s[0] >= 0x80 then Malformed
    else if s[0] < 127 then Got(s[0], s[1..])
    else match Continuation(s[1..])
      case Malformed => Malformed
      case Got(n, rest) => Got(127 + n, rest)
  }

  /** A string literal that is not Huffman coded. */
  function StringLiteral(s: seq<byte>): Decoded<seq<byte>> {
    match Integer7(s)
    case Malformed => Malformed
    case Got(n, rest) => if |rest| < n then Malformed else Got(rest[..n], rest[n..])
  }

  /** A literal field without indexing and with a new name. */
  function LiteralField(s: seq<byte>): (r: Decoded<Field>)
    ensures r.Got? ==> |r.rest| < |s|
  {
    if s == [] || s[0] != 0 then Malformed
    else match StringLiteral(s[1..])
      case Malformed => Malformed
      case Got(name, s1) =>
        StringShrinks(s[1..]);
        StringShrinks(s1);
        match StringLiteral(s1)
        case Malformed => Malformed
        case Got(value, s2) => Got(Field(name, value), s2)
  }

  lemma {:induction false} ContinuationShrinks(s: seq<byte>)
    ensures Continuation(s).Got? ==> |Continuation(s).rest| < |s|
    decreases |s|
  {
    if s == [] {
    } else {
      ContinuationShrinks(s[1..]);
    }
  }

  lemma StringShrinks(s: seq<byte>)
    ensures StringLiteral(s).Got? ==> |StringLiteral(s).rest| < |s|
  {
    if s != [] { ContinuationShrinks(s[1..]); }
  }

  function DecodeBlock(s: seq<byte>): Option<seq<Field>>
    decreases |s|
  {
    if s == [] then Some([])
    else match LiteralField(s)
      case Malformed => None
      case Got(f, rest) =>
        match DecodeBlock(rest)
        case None => None
        case Some(fs) => Some([f] + fs)
  }

  // ------------------------------------------- the wire form and its decoder

  /** An integer as RFC 7541 section 5.1 writes it behind a clear top bit. */
  function IntegerBytes(n: nat): seq<byte> {
    if n < 127 then [n] else [127] + Groups(n - 127)
  }

  function Groups(n: nat): seq<byte> {
    if n < 128 then [n] else [n % 128 + 128] + Groups(n / 128)
  }

  function StringBytes(b: seq<byte>): seq<byte> {
    IntegerBytes(|b|) + b
  }

  /** Any list of fields as literals without indexing (RFC 7541 section 6.2.2), of whatever length. */
  function BlockBytes(fs: seq<Field>): seq<byte> {
    if fs == [] then [] else [0] + (StringBytes(fs[0].name) + (StringBytes(fs[0].value) + BlockBytes(fs[1..])))
  }

  lemma {:induction false} GroupsRoundTrip(n: nat, tail: seq<byte>)
    ensures Continuation(Groups(n) + tail) == Got(n, tail)
  {
    if n < 128 {
      assert (Groups(n) + tail)[1..] == tail;
    } else {
      GroupsRoundTrip(n / 128, tail);
      ContinuationStep(n % 128 + 128, Groups(n / 128) + tail);
      assert Groups(n) + tail == [n % 128 + 128] + (Groups(n / 128) + tail);
    }
  }

  lemma ContinuationStep(b: byte, rest: seq<byte>)
    requires b >= 128 && Continuation(rest).Got?
    ensures Continuation([b] + rest) == Got(b - 128 + 128 * Continuation(rest).value, Continuation(rest).rest)
  {
    assert ([b] + rest)[1..] == rest;
  }

  lemma IntegerRoundTrip(n: nat, tail: seq<byte>)
    ensures Integer7(IntegerBytes(n) + tail) == Got(n, tail)
  {
    hide Continuation, Groups;
    var s := IntegerBytes(n) + tail;
    if n < 127 {
      assert s[1..] == tail;
    } else {
      GroupsRoundTrip(n - 127, tail);
      assert s[1..] == Groups(n - 127) + tail;
    }
  }

  lemma StringRoundTrip(b: seq<byte>, tail: seq<byte>)
    ensures StringLiteral(StringBytes(b) + tail) == Got(b, tail)
  {
    hide Integer7, IntegerBytes;
    IntegerRoundTrip(|b|, b + tail);
    assert StringBytes(b) + tail == IntegerBytes(|b|) + (b + tail);
  }

  /** The decoder reads every list of fields in the form of the RFC, long strings included. */
  lemma {:induction false} DecoderReadsAll(fs: seq<Field>)
    ensures DecodeBlock(BlockBytes(fs)) == Some(fs)
  {
    hide StringBytes, LiteralField;
    if fs == [] {
    } else {
      LiteralRoundTrip(fs[0], BlockBytes(fs[1..]));
      DecoderReadsAll(fs[1..]);
      assert fs == [fs[0]] + fs[1..];
    }
  }

  lemma LiteralRoundTrip(f: Field, rest: seq<byte>)
    ensures LiteralField([0] + (StringBytes(f.name) + (StringBytes(f.value) + rest))) == Got(f, rest)
  {
    hide StringBytes, StringLiteral;
    StringRoundTrip(f.name, StringBytes(f.value) + rest);
    StringRoundTrip(f.value, rest);
    var s := [0] + (StringBytes(f.name) + (StringBytes(f.value) + rest));
    assert s[1..] == StringBytes(f.name) + (StringBytes(f.value) + rest);
  }

  // ------------------------------------------------------------------ results

  /** A header is written as 0, the name behind its length, and the value behind its length. */
  lemma HeaderForm(f: Field)
    ensures HpackHeader(f).Ok? <==> |f.name| <= 126 && |f.value| <= 126
    ensures HpackHeader(f).Ok? ==> HpackHeader(f).value == [0, |f.name|] + f.name + [|f.value|] + f.value
  {
  }

  /** What the encoder builds is the form of the RFC. */
  lemma {:induction false} BlockIsBlockBytes(fs: seq<Field>)
    requires Block(fs).Ok?
    ensures Block(fs).value == BlockBytes(fs)
  {
    if fs == [] {
    } else {
      BlockIsBlockBytes(fs[1..]);
      HeaderForm(fs[0]);
      var name, value, rest := fs[0].name, fs[0].value, BlockBytes(fs[1..]);
      assert [0, |name|] + name + [|value|] + value + rest == [0] + ([|name|] + name + ([|value|] + value + rest));
    }
  }

  /** What the decoder reads as a short string is what the encoder writes, in no other form. */
  lemma ShortStringIsCanonical(s: seq<byte>)
    requires StringLiteral(s).Got? && |StringLiteral(s).value| < 127
    ensures HpackString(StringLiteral(s).value).value + StringLiteral(s).rest == s
  {
    var b, rest := StringLiteral(s).value, StringLiteral(s).rest;
    assert s == [s[0]] + s[1..];
    assert s[1..] == b + rest;
  }

  lemma StringFits(b: seq<byte>)
    ensures HpackString(b).Ok? <==> |b| < 127
  {
  }

  lemma ShortHeaderIsCanonical(s: seq<byte>)
    requires LiteralField(s).Got? && Short(LiteralField(s).value)
    ensures HpackHeader(LiteralField(s).value).value + LiteralField(s).rest == s
  {
    hide StringLiteral, HpackString;
    var f, rest := LiteralField(s).value, LiteralField(s).rest;
    var s1 := StringLiteral(s[1..]).rest;
    ShortStringIsCanonical(s[1..]);
    ShortStringIsCanonical(s1);
    StringFits(f.name);
    StringFits(f.value);
    var name, value := HpackString(f.name).value, HpackString(f.value).value;
    assert s == [0] + s[1..];
    assert [0] + name + value + rest == [0] + (name + (value + rest));
  }

  /** The encoder raises exactly when some name or value has 127 bytes or more. */
  lemma {:induction false} BlockRaisesExactly(fs: seq<Field>)
    ensures Block(fs).Ok? <==> forall f <- fs :: |f.name| < 127 && |f.value| < 127
  {
    if fs == [] {
    } else {
      BlockRaisesExactly(fs[1..]);
      assert forall f :: f in fs <==> f == fs[0] || f in fs[1..];
      assert Block(fs).Ok? <==> Short(fs[0]) && Block(fs[1..]).Ok?;
    }
  }

  /** Every block that the encoder builds decodes to exactly its list of fields. */
  lemma BlockRoundTrip(fs: seq<Field>)
    requires Block(fs).Ok?
    ensures DecodeBlock(Block(fs).value) == Some(fs)
  {
    hide Block, BlockBytes, DecodeBlock;
    BlockIsBlockBytes(fs);
    DecoderReadsAll(fs);
  }

  /** Different lists of fields never share a block. */
  lemma BlocksAreInjective(fs: seq<Field>, gs: seq<Field>)
    requires Block(fs).Ok? && Block(fs) == Block(gs)
    ensures fs == gs
  {
    BlockRoundTrip(fs);
    BlockRoundTrip(gs);
  }

  lemma {:induction false} ShortBlockIsCanonical(s: seq<byte>)
    requires DecodeBlock(s).Some? && forall f <- DecodeBlock(s).value :: Short(f)
    ensures Block(DecodeBlock(s).value) == Ok(s)
    decreases |s|
  {
    if s == [] {
    } else {
      var fs := DecodeBlock(s).value;
      var rest := LiteralField(s).rest;
      assert fs == [LiteralField(s).value] + DecodeBlock(rest).value;
      assert fs[1..] == DecodeBlock(rest).value;
      ShortHeaderIsCanonical(s);
      ShortBlockIsCanonical(rest);
    }
  }

  /** The encoder's image: a block is one of its outputs exactly when it decodes into short fields. */
  lemma BlockImage(s: seq<byte>)
    ensures (exists fs: seq<Field> :: Block(fs) == Ok(s)) <==>
            DecodeBlock(s).Some? && forall f <- DecodeBlock(s).value :: Short(f)
  {
    if fs: seq<Field> :| Block(fs) == Ok(s) {
      BlockRoundTrip(fs);
      BlockRaisesExactly(fs);
    }
    if DecodeBlock(s).Some? && forall f <- DecodeBlock(s).value :: Short(f) {
      ShortBlockIsCanonical(s);
    }
  }
}
