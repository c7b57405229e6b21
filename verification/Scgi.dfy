/**
 * The SCGI request handler of case_116 over a socket whose bytes arrive in arbitrary
 * pieces, without its receive timeout.
 */
module Scgi {
  import opened Wrappers
  import opened ByteStreams

  const COLON: byte := 0x3A
  const COMMA: byte := 0x2C
  const NUL: byte := 0

  /** The most that one receive call of the handler returns. */
  const CHUNK := 4096

  datatype Request = Request(fields: map<seq<byte>, seq<byte>>, body: seq<byte>)

  /**
   * How the handler ends. `Stuck` is its endless loop: at the end of the stream recv keeps
   * returning no bytes, so neither of the first two loops can finish.
   */
  datatype Outcome = Handled(request: Request) | ValueError | UnicodeError | Stuck

  function Ascii(s: string): (b: seq<byte>)
    requires forall i :: 0 <= i < |s| ==> s[i] < '\U{0080}'
    ensures |b| == |s| && forall i :: 0 <= i < |s| ==> b[i] == s[i] as int
  {
    seq(|s|, i requires 0 <= i < |s| => s[i] as byte)
  }

  /** The one header whose value the handler decodes as text. */
  const CONTENT_LENGTH: seq<byte> := Ascii("CONTENT_LENGTH")

  // ------------------------------------------------------------ decoding text

  predicate IsTail(b: byte) {
    0x80 <= b <= 0xBF
  }

  /** The number of bytes of the UTF-8 character at the front (RFC 3629 section 4), or 0. */
  function CharLength(s: seq<byte>): (n: nat)
    ensures n <= |s|
  {
    if s == [] then 0
    else if s[0] <= 0x7F then 1
    else if |s| >= 2 && 0xC2 <= s[0] <= 0xDF && IsTail(s[1]) then 2
    else if |s| >= 3 && IsTail(s[2]) && IsTail(s[1])
      && ((s[0] == 0xE0 && 0xA0 <= s[1]) || (s[0] == 0xED && s[1] <= 0x9F)
          || 0xE1 <= s[0] <= 0xEC || 0xEE <= s[0] <= 0xEF) then 3
    else if |s| >= 4 && IsTail(s[3]) && IsTail(s[2]) && IsTail(s[1])
      && ((s[0] == 0xF0 && 0x90 <= s[1]) || (s[0] == 0xF4 && s[1] <= 0x8F) || 0xF1 <= s[0] <= 0xF3) then 4
    else 0
  }

  predicate IsUtf8(s: seq<byte>)
    decreases |s|
  {
    s == [] || (CharLength(s) > 0 && IsUtf8(s[CharLength(s)..]))
  }

  /** What the handler records of a request: everything, unless the value of CONTENT_LENGTH is not text. */
  function Observed(request: Request): Outcome {
    if CONTENT_LENGTH in request.fields && !IsUtf8(request.fields[CONTENT_LENGTH]) then UnicodeError
    else Handled(request)
  }

  /** A Unicode scalar value: a code point that is not a surrogate. */
  type Scalar = c: int | 0 <= c < 0xD800 || 0xE000 <= c < 0x11_0000 witness 0

  /** The encoding of one character (RFC 3629 section 3). */
  function Utf8(c: Scalar): (s: seq<byte>)
    ensures s != []
  {
    if c < 0x80 then [c]
    else if c < 0x800 then [0xC0 + c / 0x40, 0x80 + c % 0x40]
    else if c < 0x1_0000 then [0xE0 + c / 0x1000, 0x80 + c / 0x40 % 0x40, 0x80 + c % 0x40]
    else [0xF0 + c / 0x4_0000, 0x80 + c / 0x1000 % 0x40, 0x80 + c / 0x40 % 0x40, 0x80 + c % 0x40]
  }

  function TextBytes(text: seq<Scalar>): seq<byte> {
    if text == [] then [] else Utf8(text[0]) + TextBytes(text[1..])
  }

  /** s encodes some text. */
  ghost predicate IsText(s: seq<byte>) {
    exists text: seq<Scalar> :: TextBytes(text) == s
  }

  lemma CharLengthOfUtf8(c: Scalar, rest: seq<byte>)
    ensures CharLength(Utf8(c) + rest) == |Utf8(c)|
  {
  }

  lemma Sextets(high: int, low: int)
    requires 0 <= low < 0x40
    ensures (high * 0x40 + low) / 0x40 == high && (high * 0x40 + low) % 0x40 == low
  {
  }

  /** The code point with these bits, one, two or three continuation bytes behind the bits of the lead. */
  lemma TwoBytes(x: int, y: int)
    requires 2 <= x < 0x20 && 0 <= y < 0x40
    ensures Utf8(x * 0x40 + y) == [0xC0 + x, 0x80 + y]
  {
    Sextets(x, y);
  }

  lemma ThreeBytes(x: int, y: int, z: int)
    requires 0 <= x < 0x10 && 0 <= y < 0x40 && 0 <= z < 0x40
    requires (x == 0 ==> y >= 0x20) && (x == 0xD ==> y < 0x20)
    ensures var c := (x * 0x40 + y) * 0x40 + z;
            (c < 0xD800 || 0xE000 <= c) && 0 <= c < 0x11_0000 && Utf8(c) == [0xE0 + x, 0x80 + y, 0x80 + z]
  {
    var c := (x * 0x40 + y) * 0x40 + z;
    Sextets(x, y);
    Sextets(x * 0x40 + y, z);
    assert c / 0x1000 == c / 0x40 / 0x40;
  }

  lemma FourBytes(x: int, y: int, z: int, w: int)
    requires 0 <= x < 5 && 0 <= y < 0x40 && 0 <= z < 0x40 && 0 <= w < 0x40
    requires (x == 0 ==> y >= 0x10) && (x == 4 ==> y < 0x10)
    ensures var c := ((x * 0x40 + y) * 0x40 + z) * 0x40 + w;
            0x1_0000 <= c < 0x11_0000 && Utf8(c) == [0xF0 + x, 0x80 + y, 0x80 + z, 0x80 + w]
  {
    var c := ((x * 0x40 + y) * 0x40 + z) * 0x40 + w;
    Sextets(x, y);
    Sextets(x * 0x40 + y, z);
    Sextets((x * 0x40 + y) * 0x40 + z, w);
    assert c / 0x1000 == c / 0x40 / 0x40 && c / 0x4_0000 == c / 0x40 / 0x40 / 0x40;
  }

  lemma CharIsEncoded(s: seq<byte>) returns (c: Scalar)
    requires CharLength(s) > 0
    ensures s[..CharLength(s)] == Utf8(c)
  {
    hide Utf8;
    var n, a := CharLength(s), s[0] as int;
    if n == 1 {
      OneByte(a);
      c := a;
    } else if n == 2 {
      var x, y := a - 0xC0, s[1] as int - 0x80;
      TwoBytes(x, y);
      c := x * 0x40 + y;
    } else if n == 3 {
      var x, y, z := a - 0xE0, s[1] as int - 0x80, s[2] as int - 0x80;
      ThreeBytes(x, y, z);
      c := (x * 0x40 + y) * 0x40 + z;
    } else {
      var x, y, z, w := a - 0xF0, s[1] as int - 0x80, s[2] as int - 0x80, s[3] as int - 0x80;
      FourBytes(x, y, z, w);
      c := ((x * 0x40 + y) * 0x40 + z) * 0x40 + w;
    }
  }

  lemma OneByte(x: byte)
    requires x < 0x80
    ensures Utf8(x) == [x]
  {
  }

  lemma {:induction false} TextIsUtf8(text: seq<Scalar>)
    ensures IsUtf8(TextBytes(text))
  {
    if text == [] {
    } else {
      hide Utf8, CharLength;
      var c, rest := text[0], TextBytes(text[1..]);
      TextIsUtf8(text[1..]);
      CharLengthOfUtf8(c, rest);
      assert (Utf8(c) + rest)[|Utf8(c)|..] == rest;
    }
  }

  lemma {:induction false} Utf8IsText(s: seq<byte>) returns (text: seq<Scalar>)
    requires IsUtf8(s)
    ensures TextBytes(text) == s
    decreases |s|
  {
    hide Utf8, CharLength;
    if s == [] {
      text := [];
    } else {
      var n := CharLength(s);
      var c := CharIsEncoded(s);
      var more := Utf8IsText(s[n..]);
      text := [c] + more;
      TextStep(c, more);
      assert s == s[..n] + s[n..];
    }
  }

  lemma TextStep(c: Scalar, more: seq<Scalar>)
    ensures TextBytes([c] + more) == Utf8(c) + TextBytes(more)
  {
    assert ([c] + more)[1..] == more;
  }

  /** What decoding accepts is exactly what some text encodes to. */
  lemma Utf8Exactly(s: seq<byte>)
    ensures IsUtf8(s) <==> IsText(s)
  {
    hide IsUtf8, TextBytes;
    if IsUtf8(s) { var text := Utf8IsText(s); }
    if text: seq<Scalar> :| TextBytes(text) == s { TextIsUtf8(text); }
  }

  // ------------------------------------------------- int() on a byte string

  predicate IsSpace(b: byte) {
    b == 0x20 || 0x09 <= b <= 0x0D
  }

  predicate IsDigit(b: byte) {
    0x30 <= b <= 0x39
  }

  const UNDERSCORE: byte := 0x5F

  function StripLeft(s: seq<byte>): seq<byte> {
    if s != [] && IsSpace(s[0]) then StripLeft(s[1..]) else s
  }

  function StripRight(s: seq<byte>): seq<byte> {
    if s != [] && IsSpace(s[|s| - 1]) then StripRight(s[..|s| - 1]) else s
  }

  /** Digits with single underscores between them; the last character is a digit. */
  function Digits(s: seq<byte>): Option<nat> {
    if s == [] || !IsDigit(s[|s| - 1]) then None
    else
      var digit := s[|s| - 1] as int - 0x30;
      var front := s[..|s| - 1];
      if front == [] then Some(digit)
      else
        var high := if front[|front| - 1] == UNDERSCORE then front[..|front| - 1] else front;
        match Digits(high)
        case None => None
        case Some(n) => Some(n * 10 + digit)
  }

  function Negated(n: Option<nat>): Option<int> {
    match n
    case None => None
    case Some(v) => Some(0 - v as int)
  }

  /** Surrounding white space and a sign are accepted. */
  function ParseInt(s: seq<byte>): Option<int> {
    var t := StripRight(StripLeft(s));
    if t != [] && t[0] == 0x2D then Negated(Digits(t[1..]))
    else if t != [] && t[0] == 0x2B then Digits(t[1..])
    else Digits(t)
  }

  ghost predicate AllSpace(s: seq<byte>) {
    forall i :: 0 <= i < |s| ==> s[i] as char == ' ' || 0x09 <= s[i] <= 0x0D
  }

  /** Digits, with single underscores between some of them. */
  ghost predicate IsNumeral(t: seq<byte>) {
    && t != [] && t[0] as char != '_' && t[|t| - 1] as char != '_'
    && (forall i :: 0 <= i < |t| ==> '0' <= t[i] as char <= '9' || t[i] as char == '_')
    && (forall i :: 0 <= i < |t| - 1 ==> t[i] as char != '_' || t[i + 1] as char != '_')
  }

  /** The decimal value of the digits in t. */
  function Value(t: seq<byte>): nat {
    if t == [] then 0
    else
      var n, last := Value(t[..|t| - 1]), t[|t| - 1] as int;
      if 48 <= last <= 57 then n * 10 + (last - 48) else n
  }

  /** s is a signed numeral for v between white space. */
  ghost predicate Denotes(s: seq<byte>, left: seq<byte>, sign: seq<byte>, t: seq<byte>, right: seq<byte>, v: int) {
    && s == left + (sign + t + right) && AllSpace(left) && AllSpace(right) && IsNumeral(t)
    && ((v == Value(t) && (sign == [] || sign == Ascii("+"))) || (v + Value(t) == 0 && sign == Ascii("-")))
  }

  lemma {:induction false} DigitsMeans(t: seq<byte>)
    ensures Digits(t) == if IsNumeral(t) then Some(Value(t)) else None
  {
    if t == [] || !IsDigit(t[|t| - 1]) {
    } else {
      var front := t[..|t| - 1];
      if front != [] {
        var high := if front[|front| - 1] == UNDERSCORE then front[..|front| - 1] else front;
        DigitsMeans(high);
        NumeralStep(t);
      }
    }
  }

  lemma NumeralStep(t: seq<byte>)
    requires |t| >= 2 && IsDigit(t[|t| - 1])
    ensures var front := t[..|t| - 1];
            var high := if front[|front| - 1] == UNDERSCORE then front[..|front| - 1] else front;
            (IsNumeral(t) <==> IsNumeral(high)) && Value(front) == Value(high)
  {
    var front := t[..|t| - 1];
    assert forall i :: 0 <= i < |front| ==> front[i] == t[i];
  }

  lemma {:induction false} StripLeftMeans(left: seq<byte>, s: seq<byte>)
    requires AllSpace(left) && (s == [] || !IsSpace(s[0]))
    ensures StripLeft(left + s) == s
  {
    if left == [] {
      assert left + s == s;
    } else {
      StripLeftMeans(left[1..], s);
      assert (left + s)[1..] == left[1..] + s;
    }
  }

  lemma {:induction false} StripRightMeans(s: seq<byte>, right: seq<byte>)
    requires AllSpace(right) && (s == [] || !IsSpace(s[|s| - 1]))
    ensures StripRight(s + right) == s
  {
    if right == [] {
      assert s + right == s;
    } else {
      StripRightMeans(s, right[..|right| - 1]);
      assert (s + right)[..|s + right| - 1] == s + right[..|right| - 1];
    }
  }

  lemma {:induction false} LeftPart(s: seq<byte>) returns (left: seq<byte>)
    ensures s == left + StripLeft(s) && AllSpace(left)
  {
    left := [];
    if s != [] && IsSpace(s[0]) {
      var more := LeftPart(s[1..]);
      left := [s[0]] + more;
    }
  }

  lemma {:induction false} RightPart(s: seq<byte>) returns (right: seq<byte>)
    ensures s == StripRight(s) + right && AllSpace(right)
  {
    right := [];
    if s != [] && IsSpace(s[|s| - 1]) {
      var more := RightPart(s[..|s| - 1]);
      right := more + [s[|s| - 1]];
    }
  }

  /** int() reads exactly the signed numerals, with white space around them. */
  lemma ParseIntMeans(s: seq<byte>, v: int)
    ensures ParseInt(s) == Some(v) <==>
            exists left: seq<byte>, sign: seq<byte>, t: seq<byte>, right: seq<byte> ::
              Denotes(s, left, sign, t, right, v)
  {
    if ParseInt(s) == Some(v) {
      var left, sign, t, right := ParsedDenotes(s);
    }
    if left: seq<byte>, sign: seq<byte>, t: seq<byte>, right: seq<byte> :| Denotes(s, left, sign, t, right, v) {
      DenotedIsParsed(s, left, sign, t, right, v);
    }
  }

  lemma ParsedDenotes(s: seq<byte>)
    returns (left: seq<byte>, sign: seq<byte>, t: seq<byte>, right: seq<byte>)
    requires ParseInt(s).Some?
    ensures Denotes(s, left, sign, t, right, ParseInt(s).value)
  {
    hide StripLeft, StripRight, Digits, IsNumeral, Value, AllSpace;
    left := LeftPart(s);
    right := RightPart(StripLeft(s));
    t := StripRight(StripLeft(s));
    sign := [];
    if t != [] && (t[0] == 0x2D || t[0] == 0x2B) {
      sign, t := t[..1], t[1..];
    }
    DigitsMeans(t);
  }

  lemma DenotedIsParsed(s: seq<byte>, left: seq<byte>, sign: seq<byte>, t: seq<byte>, right: seq<byte>, v: int)
    requires Denotes(s, left, sign, t, right, v)
    ensures ParseInt(s) == Some(v)
  {
    hide StripLeft, StripRight, Digits, Value, AllSpace;
    var u := sign + t;
    assert !IsSpace(u[0]) && !IsSpace(u[|u| - 1]);
    StripLeftMeans(left, u + right);
    StripRightMeans(u, right);
    assert sign != [] ==> u[1..] == t;
    assert sign == [] ==> u == t;
    DigitsMeans(t);
  }

  // --------------------------------------------------------- pieces of Python

  /** s[:i], where a negative i counts from the end. */
  function Before(s: seq<byte>, i: int): seq<byte> {
    if i >= |s| then s else if i >= 0 then s[..i] else if |s| + i >= 0 then s[..|s| + i] else []
  }

  /** s[i:] */
  function From(s: seq<byte>, i: int): seq<byte> {
    if i >= |s| then [] else if i >= 0 then s[i..] else if |s| + i >= 0 then s[|s| + i..] else s
  }

  function Split(s: seq<byte>, b: byte): (parts: seq<seq<byte>>)
    ensures parts != []
    decreases |s|
  {
    var i := IndexOf(s, b);
    if i == |s| then [s] else [s[..i]] + Split(s[i + 1..], b)
  }

  /** dict(zip(parts[::2], parts[1::2])): a later pair replaces an earlier one with the same key. */
  function Pairs(parts: seq<seq<byte>>): map<seq<byte>, seq<byte>> {
    if |parts| < 2 then map[] else map[parts[0] := parts[1]] + Pairs(parts[2..])
  }

  /** A slice up to i and the slice from i make up the whole, and i is cut off at both ends. */
  lemma SlicesAt(s: seq<byte>, i: int)
    ensures Before(s, i) + From(s, i) == s
    ensures |Before(s, i)| == if 0 <= i <= |s| then i else if i > |s| then |s| else if -|s| <= i then |s| + i else 0
  {
  }

  /** The parts with a zero byte between every two of them. */
  function Joined(parts: seq<seq<byte>>): seq<byte>
    requires parts != []
  {
    if |parts| == 1 then parts[0] else parts[0] + [0] + Joined(parts[1..])
  }

  ghost predicate ZeroFree(parts: seq<seq<byte>>) {
    forall i :: 0 <= i < |parts| ==> 0 !in parts[i]
  }

  /** Splitting gives the only parts without zero bytes that join to the whole. */
  lemma SplitMeans(s: seq<byte>, parts: seq<seq<byte>>)
    ensures parts == Split(s, NUL) <==> parts != [] && ZeroFree(parts) && Joined(parts) == s
  {
    hide Split, Joined, ZeroFree;
    SplitJoins(s);
    if parts != [] && ZeroFree(parts) && Joined(parts) == s { SplitIsUnique(s, parts); }
  }

  lemma {:induction false} SplitJoins(s: seq<byte>)
    ensures ZeroFree(Split(s, NUL)) && Joined(Split(s, NUL)) == s
    decreases |s|
  {
    var i := IndexOf(s, NUL);
    FirstIsFirst(s, NUL);
    if i == |s| {
      assert s[..i] == s;
    } else {
      var more := Split(s[i + 1..], NUL);
      SplitJoins(s[i + 1..]);
      JoinedStep(s[..i], more);
      assert s == s[..i] + [0] + s[i + 1..];
    }
  }

  lemma JoinedStep(part: seq<byte>, more: seq<seq<byte>>)
    requires more != []
    ensures Joined([part] + more) == part + [0] + Joined(more)
  {
    assert ([part] + more)[1..] == more;
  }

  lemma {:induction false} SplitIsUnique(s: seq<byte>, parts: seq<seq<byte>>)
    requires parts != [] && ZeroFree(parts) && Joined(parts) == s
    ensures parts == Split(s, NUL)
    decreases |s|
  {
    if 0 !in s {
      OnePart(s, parts);
      NoNul(s);
    } else {
      hide Split, Joined, ZeroFree, IndexOf;
      FirstPart(s, parts);
      SplitIsUnique(s[IndexOf(s, NUL) + 1..], parts[1..]);
      SplitStep(s);
      assert parts == [parts[0]] + parts[1..];
    }
  }

  lemma SplitStep(s: seq<byte>)
    requires NUL in s
    ensures var i := IndexOf(s, NUL);
            Split(s, NUL) == [s[..i]] + Split(s[i + 1..], NUL)
  {
  }

  lemma OnePart(s: seq<byte>, parts: seq<seq<byte>>)
    requires parts != [] && Joined(parts) == s && 0 !in s
    ensures parts == [s]
  {
    if |parts| > 1 { ZeroBetween(parts); }
  }

  lemma ZeroBetween(parts: seq<seq<byte>>)
    requires |parts| > 1
    ensures 0 in Joined(parts)
  {
    assert Joined(parts)[|parts[0]|] == 0;
  }

  lemma FirstPart(s: seq<byte>, parts: seq<seq<byte>>)
    requires parts != [] && ZeroFree(parts) && Joined(parts) == s && 0 in s
    ensures |parts| > 1 && parts[0] == s[..IndexOf(s, NUL)] && Joined(parts[1..]) == s[IndexOf(s, NUL) + 1..]
    ensures ZeroFree(parts[1..])
  {
    assert |parts| > 1;
    IndexOfAt(parts[0], NUL, Joined(parts[1..]));
  }

  /** The k-th part is a name with a value behind it. */
  ghost predicate NameAt(parts: seq<seq<byte>>, k: nat, name: seq<byte>) {
    k % 2 == 0 && k + 1 < |parts| && parts[k] == name
  }

  ghost predicate LastNameAt(parts: seq<seq<byte>>, k: nat, name: seq<byte>) {
    NameAt(parts, k, name) && forall j: nat :: j > k ==> !NameAt(parts, j, name)
  }

  /** Of the pairs with the same name the last one is kept; a name without a value is not. */
  lemma {:induction false} PairsKeepLast(parts: seq<seq<byte>>, name: seq<byte>) returns (k: nat)
    ensures name in Pairs(parts) ==> LastNameAt(parts, k, name) && Pairs(parts)[name] == parts[k + 1]
    ensures name !in Pairs(parts) ==> forall j: nat :: !NameAt(parts, j, name)
  {
    k := 0;
    if |parts| < 2 {
    } else {
      var rest := parts[2..];
      var later := PairsKeepLast(rest, name);
      forall j: nat ensures NameAt(parts, j + 2, name) <==> NameAt(rest, j, name) { NameLater(parts, j, name); }
      forall j: nat | j > 0 ensures NameAt(parts, j, name) ==> j >= 2 && NameAt(rest, j - 2, name) {
        if j >= 2 { NameLater(parts, j - 2, name); }
      }
      if name in Pairs(rest) {
        k := later + 2;
      } else {
        assert forall j: nat :: j > 0 ==> !NameAt(parts, j, name);
      }
    }
  }

  lemma NameLater(parts: seq<seq<byte>>, j: nat, name: seq<byte>)
    requires |parts| >= 2
    ensures NameAt(parts, j + 2, name) <==> NameAt(parts[2..], j, name)
  {
  }

  // -------------------------------------------------------------- the handler

  /** The request in the bytes behind the colon: rest has arrived when the headers are cut off, late comes later. */
  function Cut(rest: seq<byte>, hlen: int, late: seq<byte>): Request {
    Request(Pairs(Split(Before(rest, hlen), NUL)), From(rest, hlen + 1) + late)
  }

  /** What is made of a stream when the first `arrived` of its bytes have come in as the second loop ends. */
  function Finish(stream: seq<byte>, arrived: nat): Outcome
    requires COLON in stream && IndexOf(stream, COLON) < arrived <= |stream|
  {
    var colon := IndexOf(stream, COLON);
    match ParseInt(stream[..colon])
    case None => ValueError
    case Some(hlen) => Observed(Cut(stream[colon + 1..arrived], hlen, stream[arrived..]))
  }

  /** The declared header length, if the stream has a readable one. */
  function Declared(stream: seq<byte>): Option<int> {
    if COLON in stream then ParseInt(stream[..IndexOf(stream, COLON)]) else None
  }

  /** The number of bytes that the handler cannot do without: the length, the colon, the headers and one byte more. */
  function Needed(stream: seq<byte>): (n: int)
    requires Declared(stream).Some?
    ensures n > 0
  {
    IndexOf(stream, COLON) + 1 + (if Declared(stream).value >= 0 then Declared(stream).value + 1 else 0)
  }

  /**
   * The numbers of bytes that can have arrived when the second loop ends: the last receive
   * call was made with fewer than the needed bytes there.
   */
  predicate CanArrive(stream: seq<byte>, arrived: nat)
    requires Declared(stream).Some?
  {
    Needed(stream) <= arrived <= |stream| && arrived < Needed(stream) + CHUNK
  }

  /** The first loop; None stands for its never ending. */
  method AwaitColon(sock: Socket) returns (buf: Option<seq<byte>>)
    modifies sock`incoming
    ensures COLON in old(sock.incoming) ==>
              buf.Some? && COLON in buf.value && buf.value + sock.incoming == old(sock.incoming)
              && |buf.value| <= IndexOf(buf.value, COLON) + CHUNK
    ensures COLON !in old(sock.incoming) ==> buf == None
  {
    var b: seq<byte> := [];
    while COLON !in b
      invariant b + sock.incoming == old(sock.incoming)
      invariant COLON in b ==> |b| <= IndexOf(b, COLON) + CHUNK
      decreases |sock.incoming|
    {
      var chunk := sock.Recv(CHUNK);
      if chunk == [] {
        return None;
      }
      IndexOfBehind(b, chunk, COLON);
      b := b + chunk;
    }
    return Some(b);
  }

  /** The second loop; None stands for its never ending. */
  method AwaitBytes(sock: Socket, start: seq<byte>, n: int) returns (rest: Option<seq<byte>>)
    modifies sock`incoming
    ensures |start| + |old(sock.incoming)| >= n ==>
              rest.Some? && |rest.value| >= n && |start| <= |rest.value|
              && (|rest.value| <= |start| || |rest.value| < n + CHUNK)
              && rest.value + sock.incoming == start + old(sock.incoming)
    ensures |start| + |old(sock.incoming)| < n ==> rest == None
  {
    var b := start;
    while |b| < n
      invariant |start| <= |b| && (|b| <= |start| || |b| < n + CHUNK)
      invariant b + sock.incoming == start + old(sock.incoming)
      decreases |sock.incoming|
    {
      var chunk := sock.Recv(CHUNK);
      if chunk == [] {
        return None;
      }
      b := b + chunk;
    }
    return Some(b);
  }

  /** The third loop: everything up to the end of the stream. */
  method Drain(sock: Socket, start: seq<byte>) returns (body: seq<byte>)
    modifies sock`incoming
    ensures body == start + old(sock.incoming) && sock.incoming == []
  {
    body := start;
    while true
      invariant body + sock.incoming == start + old(sock.incoming)
      decreases |sock.incoming|
    {
      var chunk := sock.Recv(CHUNK);
      if chunk == [] {
        break;
      }
      body := body + chunk;
    }
  }

  method Handle(sock: Socket) returns (r: Outcome, ghost arrived: nat)
    modifies sock`incoming
    ensures var stream := old(sock.incoming);
            && (COLON !in stream ==> r == Stuck)
            && (COLON in stream && Declared(stream) == None ==> r == ValueError)
            && (Declared(stream).Some? && |stream| < Needed(stream) ==> r == Stuck)
            && (Declared(stream).Some? && Needed(stream) <= |stream| ==>
                  CanArrive(stream, arrived) && sock.incoming == [] && r == Finish(stream, arrived))
  {
    hide ParseInt, Split, Pairs, Before, From;
    ghost var stream := sock.incoming;
    arrived := 0;
    var buf := AwaitColon(sock);
    if buf == None {
      return Stuck, 0;
    }
    var colon := IndexOf(buf.value, COLON);
    IndexOfPrefix(buf.value, sock.incoming, COLON);
    assert buf.value[..colon] == stream[..colon];
    var length := ParseInt(buf.value[..colon]);
    if length == None {
      return ValueError, 0;
    }
    var hlen := length.value;
    assert buf.value[colon + 1..] + sock.incoming == stream[colon + 1..];
    var rest := AwaitBytes(sock, buf.value[colon + 1..], hlen + 1);
    if rest == None {
      return Stuck, 0;
    }
    arrived := colon + 1 + |rest.value|;
    assert rest.value + sock.incoming == stream[colon + 1..];
    PartsOf(stream, colon + 1, rest.value, sock.incoming);
    var parts := Split(Before(rest.value, hlen), NUL);
    var fields := Pairs(parts);
    var body := Drain(sock, From(rest.value, hlen + 1));
    var request := Request(fields, body);
    if CONTENT_LENGTH in fields && !IsUtf8(fields[CONTENT_LENGTH]) {
      return UnicodeError, arrived;
    }
    return Handled(request), arrived;
  }

  lemma PartsOf(s: seq<byte>, at: nat, front: seq<byte>, back: seq<byte>)
    requires at <= |s| && s[at..] == front + back
    ensures front == s[at..at + |front|] && back == s[at + |front|..]
  {
    assert front == s[at..][..|front|] && back == s[at..][|front|..];
  }

  /** ASCII bytes, decimal digits among them, are text. */
  lemma {:induction false} AsciiIsText(s: seq<byte>)
    requires forall b <- s :: b < 0x80
    ensures IsText(s)
  {
    if s == [] {
      assert TextBytes([]) == s;
    } else {
      assert s[0] in s && forall b :: b in s[1..] ==> b in s;
      AsciiIsText(s[1..]);
      var more: seq<Scalar> :| TextBytes(more) == s[1..];
      OneByte(s[0]);
      TextStep(s[0], more);
      assert s == [s[0]] + s[1..];
    }
  }

  /** No text has the byte 0xFF in front. */
  lemma NotText(s: seq<byte>)
    requires s != [] && s[0] == 0xFF
    ensures !IsText(s)
  {
    Utf8Exactly(s);
  }

  /** A request is handled unless its CONTENT_LENGTH is there and encodes no text. */
  lemma ObservedExactly(request: Request)
    ensures var name := Ascii("CONTENT_LENGTH");
            Observed(request) ==
            if name in request.fields && !IsText(request.fields[name]) then UnicodeError else Handled(request)
  {
    hide IsUtf8, IsText;
    if CONTENT_LENGTH in request.fields { Utf8Exactly(request.fields[CONTENT_LENGTH]); }
  }

  // ---------------------------------------------------- independence of chunks

  /** The byte counts after each receive call of the first two loops, up to the first that suffices. */
  ghost predicate IsSchedule(cuts: seq<nat>, needed: nat, end: nat) {
    && cuts != [] && needed <= cuts[|cuts| - 1] <= end
    && (forall i :: 0 <= i < |cuts| - 1 ==> cuts[i] < needed)
    && forall i :: 0 <= i < |cuts| ==> Received(cuts, i) < cuts[i] <= Received(cuts, i) + 4096
  }

  ghost function Received(cuts: seq<nat>, i: nat): nat
    requires i <= |cuts|
  {
    if i == 0 then 0 else cuts[i - 1]
  }

  /** Each of the possible counts is the end of some sequence of receive calls, and no other is. */
  lemma ArrivalsExactly(stream: seq<byte>, arrived: nat)
    requires Declared(stream).Some?
    ensures CanArrive(stream, arrived) <==>
            exists cuts: seq<nat> :: IsSchedule(cuts, Needed(stream), |stream|) && cuts[|cuts| - 1] == arrived
  {
    var needed := Needed(stream);
    hide Declared, Needed, IsSchedule;
    if CanArrive(stream, arrived) {
      var cuts := ByteByByte(needed, arrived, |stream|);
    }
    if cuts: seq<nat> :| IsSchedule(cuts, needed, |stream|) && cuts[|cuts| - 1] == arrived {
      LastArrival(cuts, needed, |stream|);
    }
  }

  lemma ByteByByte(needed: nat, arrived: nat, end: nat) returns (cuts: seq<nat>)
    requires 1 <= needed <= arrived <= end && arrived < needed + CHUNK
    ensures IsSchedule(cuts, needed, end) && cuts[|cuts| - 1] == arrived
  {
    cuts := seq(needed - 1, i requires 0 <= i < needed - 1 => i + 1) + [arrived];
  }

  lemma LastArrival(cuts: seq<nat>, needed: nat, end: nat)
    requires 1 <= needed && IsSchedule(cuts, needed, end)
    ensures needed <= cuts[|cuts| - 1] <= end && cuts[|cuts| - 1] < needed + CHUNK
  {
    assert Received(cuts, |cuts| - 1) < needed;
  }

  /** All ways in which the bytes can arrive lead to the same outcome. */
  ghost predicate ChunksDoNotMatter(stream: seq<byte>) {
    Declared(stream).Some? ==>
      forall i: nat, j: nat :: CanArrive(stream, i) && CanArrive(stream, j) ==> Finish(stream, i) == Finish(stream, j)
  }

  /** The header block and the body that a non-negative length cuts out of the stream. */
  lemma FinishCuts(stream: seq<byte>, arrived: nat)
    requires Declared(stream).Some? && Declared(stream).value >= 0
    requires Needed(stream) <= arrived <= |stream|
    ensures var hdrs := IndexOf(stream, COLON) + 1;
            var end := hdrs + Declared(stream).value;
            Finish(stream, arrived) ==
            Observed(Request(Pairs(Split(stream[hdrs..end], NUL)), stream[end + 1..]))
  {
    hide ParseInt, IndexOf, Cut, Split, Pairs, Observed;
    var at, hlen: nat := IndexOf(stream, COLON) + 1, Declared(stream).value;
    NeededBytes(stream);
    FinishIsCut(stream, arrived);
    hide Finish, Needed, Declared;
    CutInOrder(stream, at, hlen, arrived);
  }

  lemma NeededBytes(stream: seq<byte>)
    requires Declared(stream).Some? && Declared(stream).value >= 0
    ensures COLON in stream && IndexOf(stream, COLON) < |stream|
    ensures Needed(stream) == IndexOf(stream, COLON) + 1 + Declared(stream).value + 1
  {
    hide ParseInt;
  }

  lemma FinishIsCut(stream: seq<byte>, arrived: nat)
    requires Declared(stream).Some? && IndexOf(stream, COLON) < arrived <= |stream|
    ensures var at := IndexOf(stream, COLON) + 1;
            Finish(stream, arrived) == Observed(Cut(stream[at..arrived], Declared(stream).value, stream[arrived..]))
  {
    hide ParseInt, IndexOf, Cut, Observed;
  }

  lemma CutInOrder(stream: seq<byte>, at: nat, hlen: nat, arrived: nat)
    requires at + hlen + 1 <= arrived <= |stream|
    ensures Cut(stream[at..arrived], hlen, stream[arrived..]) ==
            Request(Pairs(Split(stream[at..at + hlen], NUL)), stream[at + hlen + 1..])
  {
    hide Split, Pairs;
    var rest := stream[at..arrived];
    assert Before(rest, hlen) == stream[at..at + hlen];
    assert From(rest, hlen + 1) + stream[arrived..] == stream[at + hlen + 1..];
  }

  ghost predicate PrefixIsSafe(prefix: seq<byte>) {
    forall rest: seq<byte> :: ChunksDoNotMatter(prefix + [COLON] + rest)
  }

  /**
   * A length prefix makes the handler independent of chunking, whatever follows it, exactly
   * when it denotes a non-negative number, or one so negative that the cut lies before
   * anything that the first loop can have read behind the colon.
   */
  lemma PrefixIsSafeExactly(prefix: seq<byte>)
    requires COLON !in prefix && ParseInt(prefix).Some?
    ensures PrefixIsSafe(prefix) <==> ParseInt(prefix).value >= 0 || ParseInt(prefix).value <= -4096
  {
    hide ParseInt, IndexOf, Declared, ChunksDoNotMatter;
    var h := ParseInt(prefix).value;
    if h >= 0 || h <= -CHUNK {
      forall rest: seq<byte> ensures ChunksDoNotMatter(prefix + [COLON] + rest) {
        HasPrefix(prefix, rest);
        SafeLength(prefix + [COLON] + rest);
      }
    } else if h == -1 {
      MinusOneDepends(prefix);
    } else {
      NegativeLengthDepends(prefix, h, seq(-h, _ => NUL));
    }
  }

  lemma SafeLength(stream: seq<byte>)
    requires Declared(stream).Some? && (Declared(stream).value >= 0 || Declared(stream).value <= -CHUNK)
    ensures ChunksDoNotMatter(stream)
  {
    hide Finish, IndexOf;
    forall i: nat, j: nat | CanArrive(stream, i) && CanArrive(stream, j)
      ensures Finish(stream, i) == Finish(stream, j)
    {
      if Declared(stream).value >= 0 {
        FinishCuts(stream, i);
        FinishCuts(stream, j);
      } else {
        FinishKeeps(stream, i);
        FinishKeeps(stream, j);
      }
    }
  }

  /** A length of -4096 or less cuts off no headers and leaves all the rest as body. */
  lemma FinishKeeps(stream: seq<byte>, arrived: nat)
    requires Declared(stream).Some? && Declared(stream).value <= -CHUNK && CanArrive(stream, arrived)
    ensures Finish(stream, arrived) ==
            Observed(Request(Pairs(Split([], NUL)), stream[IndexOf(stream, COLON) + 1..]))
  {
    hide ParseInt, IndexOf, Split, Pairs;
    var at, hlen := IndexOf(stream, COLON) + 1, Declared(stream).value;
    var rest := stream[at..arrived];
    assert Needed(stream) == at && |rest| < CHUNK;
    assert Before(rest, hlen) == [] && From(rest, hlen + 1) == rest;
    assert rest + stream[arrived..] == stream[at..];
  }

  /** A body that is counted from the end of what has arrived. */
  lemma NegativeLengthDepends(prefix: seq<byte>, h: int, rest: seq<byte>)
    requires COLON !in prefix && ParseInt(prefix) == Some(h) && -CHUNK < h < -1 && |rest| == -h
    ensures !ChunksDoNotMatter(prefix + [COLON] + rest)
  {
    hide ParseInt, IndexOf, Cut;
    HasPrefix(prefix, rest);
    Ends(prefix, rest);
    CutBodies(rest, h);
  }

  lemma CutBodies(rest: seq<byte>, h: int)
    requires h < -1 && |rest| == -h
    ensures Cut([], h, rest) == Request(map[], rest) && Cut(rest, h, []) == Request(map[], rest[1..])
  {
    hide Split, Pairs;
    NoNul([]);
    NoPairs([]);
  }

  /** The outcomes when nothing has arrived behind the colon, and when everything has. */
  lemma Ends(prefix: seq<byte>, rest: seq<byte>)
    requires COLON !in prefix && ParseInt(prefix).Some? && ParseInt(prefix).value < 0 && |rest| < CHUNK
    ensures var stream, h := prefix + [COLON] + rest, ParseInt(prefix).value;
            && Declared(stream) == Some(h)
            && CanArrive(stream, |prefix| + 1) && Finish(stream, |prefix| + 1) == Observed(Cut([], h, rest))
            && CanArrive(stream, |stream|) && Finish(stream, |stream|) == Observed(Cut(rest, h, []))
  {
    hide ParseInt, IndexOf, Cut;
    var stream := prefix + [COLON] + rest;
    HasPrefix(prefix, rest);
    var at := |prefix| + 1;
    assert stream[at..at] == [] && stream[at..] == rest && stream[at..|stream|] == rest && stream[|stream|..] == [];
  }

  /** A header block that is everything but the last byte that has arrived. */
  lemma MinusOneDepends(prefix: seq<byte>)
    requires COLON !in prefix && ParseInt(prefix) == Some(-1)
    ensures !ChunksDoNotMatter(prefix + [COLON] + [0x61, NUL, 0x62, COMMA])
  {
    hide ParseInt, IndexOf, Cut;
    hide Observed;
    Ends(prefix, [0x61, NUL, 0x62, COMMA]);
    CutFields();
  }

  lemma CutFields()
    ensures Cut([], -1, [0x61, NUL, 0x62, COMMA]).fields == map[]
    ensures Cut([0x61, NUL, 0x62, COMMA], -1, []).fields == map[[0x61] := [0x62]]
    ensures Observed(Cut([], -1, [0x61, NUL, 0x62, COMMA])) != Observed(Cut([0x61, NUL, 0x62, COMMA], -1, []))
  {
    assert Before([0x61, NUL, 0x62, COMMA], -1) == [0x61] + [NUL] + [0x62] && Before([], -1) == [];
    hide Split, Before, From;
    NoNul([]);
    SplitAtNul([0x61], [0x62]);
    NoNul([0x62]);
    PairsStep([0x61], [0x62], []);
    assert [[0x61]] + [[0x62]] == [[0x61], [0x62]] + [];
    assert |CONTENT_LENGTH| != 1;
    assert [0x61] in map[[0x61] := [0x62]];
  }

  lemma NoNul(s: seq<byte>)
    requires NUL !in s
    ensures Split(s, NUL) == [s]
  {
    assert IndexOf(s, NUL) == |s|;
  }

  lemma SplitAtNul(s: seq<byte>, t: seq<byte>)
    requires NUL !in s
    ensures Split(s + [NUL] + t, NUL) == [s] + Split(t, NUL)
  {
    var u := s + [NUL] + t;
    IndexOfAt(s, NUL, t);
    assert u[..|s|] == s && u[|s| + 1..] == t;
  }

  lemma HasPrefix(prefix: seq<byte>, rest: seq<byte>)
    requires COLON !in prefix
    ensures var stream := prefix + [COLON] + rest;
            COLON in stream && IndexOf(stream, COLON) == |prefix| && Declared(stream) == ParseInt(prefix)
  {
    hide ParseInt;
    var stream := prefix + [COLON] + rest;
    IndexOfAt(prefix, COLON, rest);
    assert stream[|prefix|] == COLON && stream[..|prefix|] == prefix;
  }

  // ---------------------------------------------------------------- round trip

  datatype Header = Header(name: seq<byte>, value: seq<byte>)

  predicate NulFree(h: Header) {
    NUL !in h.name && NUL !in h.value
  }

  /** Decimal digits, most significant first. */
  function Decimal(n: nat): (s: seq<byte>)
    ensures s != [] && forall b <- s :: IsDigit(b)
  {
    var last: byte := 0x30 + n % 10;
    if n < 10 then [last] else Decimal(n / 10) + [last]
  }

  function HeaderBytes(hs: seq<Header>): seq<byte> {
    if hs == [] then [] else hs[0].name + [NUL] + (hs[0].value + [NUL] + HeaderBytes(hs[1..]))
  }

  /** An SCGI request: the headers as a netstring, then the body. */
  function Encode(hs: seq<Header>, body: seq<byte>): seq<byte> {
    Decimal(|HeaderBytes(hs)|) + [COLON] + (HeaderBytes(hs) + [COMMA] + body)
  }

  function ToMap(hs: seq<Header>): map<seq<byte>, seq<byte>> {
    if hs == [] then map[] else map[hs[0].name := hs[0].value] + ToMap(hs[1..])
  }

  lemma {:induction false} DigitsOfDecimal(n: nat)
    ensures Digits(Decimal(n)) == Some(n)
  {
    var s := Decimal(n);
    if n >= 10 {
      var high := Decimal(n / 10);
      DigitsOfDecimal(n / 10);
      assert s[..|s| - 1] == high;
      assert high[|high| - 1] in high;
    } else {
      assert s[..|s| - 1] == [];
    }
  }

  lemma ParseDecimal(n: nat)
    ensures ParseInt(Decimal(n)) == Some(n) && COLON !in Decimal(n)
  {
    var s := Decimal(n);
    assert s[0] in s && s[|s| - 1] in s;
    DigitsOfDecimal(n);
  }

  lemma NoPairs(part: seq<byte>)
    ensures Pairs([part]) == map[]
  {
  }

  lemma PairsStep(name: seq<byte>, value: seq<byte>, parts: seq<seq<byte>>)
    ensures Pairs([name, value] + parts) == map[name := value] + Pairs(parts)
  {
    assert ([name, value] + parts)[2..] == parts;
  }

  lemma ParseMinus(n: nat)
    ensures ParseInt([0x2D] + Decimal(n)) == Some(0 - n as int) && COLON !in [0x2D] + Decimal(n)
  {
    hide Digits, Decimal, StripLeft, StripRight;
    var digits := Decimal(n);
    var s := [0x2D] + digits;
    assert digits[|digits| - 1] in digits;
    NothingToStrip(s);
    DigitsOfDecimal(n);
    assert s[1..] == digits;
  }

  lemma NothingToStrip(s: seq<byte>)
    requires s != [] && !IsSpace(s[0]) && !IsSpace(s[|s| - 1])
    ensures StripRight(StripLeft(s)) == s
  {
  }

  /** Unsafe prefixes exist: a minus sign and any number from 1 to 4095. */
  lemma UnsafePrefixes(n: nat)
    requires 1 <= n <= 4095
    ensures !PrefixIsSafe([0x2D] + Decimal(n))
  {
    hide ParseInt, PrefixIsSafe, Decimal;
    ParseMinus(n);
    PrefixIsSafeExactly([0x2D] + Decimal(n));
  }

  lemma {:induction false} HeadersComeBack(hs: seq<Header>)
    requires forall h <- hs :: NulFree(h)
    ensures Pairs(Split(HeaderBytes(hs), NUL)) == ToMap(hs)
  {
    hide Split, Pairs;
    if hs == [] {
      NoNul([]);
      NoPairs([]);
    } else {
      var h, rest := hs[0], HeaderBytes(hs[1..]);
      HeadersComeBack(hs[1..]);
      assert NulFree(h);
      SplitAtNul(h.name, h.value + [NUL] + rest);
      SplitAtNul(h.value, rest);
      PairsStep(h.name, h.value, Split(rest, NUL));
      assert [h.name] + ([h.value] + Split(rest, NUL)) == [h.name, h.value] + Split(rest, NUL);
    }
  }

  /**
   * What the request with these headers and body leads to: all of it, or the error of a
   * CONTENT_LENGTH that is no text.
   */
  ghost function Expected(hs: seq<Header>, body: seq<byte>): Outcome {
    var name, fields := Ascii("CONTENT_LENGTH"), ToMap(hs);
    if name in fields && !IsText(fields[name]) then UnicodeError else Handled(Request(fields, body))
  }

  /** Whatever the chunks, the handler gets back the headers and the body of an encoded request. */
  lemma RequestRoundTrip(hs: seq<Header>, body: seq<byte>, arrived: nat)
    requires forall h <- hs :: NulFree(h)
    ensures var stream := Encode(hs, body);
            && Declared(stream) == Some(|HeaderBytes(hs)|) && Needed(stream) <= |stream|
            && (Needed(stream) <= arrived <= |stream| ==> Finish(stream, arrived) == Expected(hs, body))
  {
    hide ParseInt, Split, Pairs, IndexOf, HeaderBytes, Decimal, Finish, ToMap;
    var hdrs, stream := HeaderBytes(hs), Encode(hs, body);
    var prefix := Decimal(|hdrs|);
    ParseDecimal(|hdrs|);
    HasPrefix(prefix, hdrs + [COMMA] + body);
    if Needed(stream) <= arrived <= |stream| {
      FinishCuts(stream, arrived);
      Slices(prefix + [COLON], hdrs, COMMA, body);
      HeadersComeBack(hs);
      ObservedExactly(Request(ToMap(hs), body));
    }
  }

  /** No error arises without a CONTENT_LENGTH, or for one in ASCII; one arises for a value with 0xFF in front. */
  lemma OutcomeOfRequest(hs: seq<Header>, body: seq<byte>)
    ensures var name, fields := Ascii("CONTENT_LENGTH"), ToMap(hs);
            && (name !in fields || (forall b <- fields[name] :: b < 0x80) ==>
                  Expected(hs, body) == Handled(Request(fields, body)))
            && (name in fields && [0xFF] <= fields[name] ==> Expected(hs, body) == UnicodeError)
  {
    hide ToMap, IsText;
    var name, fields := Ascii("CONTENT_LENGTH"), ToMap(hs);
    if name in fields {
      if forall b <- fields[name] :: b < 0x80 { AsciiIsText(fields[name]); }
      if [0xFF] <= fields[name] { NotText(fields[name]); }
    }
  }

  /** A request as bytes: 18 bytes of headers, of which the only one says that the body has 16 bytes. */
  lemma ShortRequest(body: seq<byte>, arrived: nat)
    ensures var headers := Ascii("CONTENT_LENGTH") + [0] + Ascii("16") + [0];
            var stream := Ascii("18:") + headers + Ascii(",") + body;
            && Declared(stream) == Some(18) && Needed(stream) == 22
            && (22 <= arrived <= |stream| ==>
                  Finish(stream, arrived) == Handled(Request(map[Ascii("CONTENT_LENGTH") := Ascii("16")], body)))
  {
    hide Finish, Declared, Needed, Ascii, ToMap, HeaderBytes;
    var h := Header(Ascii("CONTENT_LENGTH"), Ascii("16"));
    OneHeader(h);
    var headers := HeaderBytes([h]);
    EighteenBytes();
    assert Encode([h], body) == Ascii("18:") + headers + Ascii(",") + body;
    assert NulFree(h) && |headers| == 18;
    RequestRoundTrip([h], body, arrived);
    OutcomeOfRequest([h], body);
    ParseDecimal(18);
    HasPrefix(Decimal(18), headers + [COMMA] + body);
    NeededBytes(Encode([h], body));
  }

  lemma OneHeader(h: Header)
    ensures HeaderBytes([h]) == h.name + [0] + h.value + [0]
    ensures ToMap([h]) == map[h.name := h.value]
  {
    assert [h][1..] == [];
  }

  lemma EighteenBytes()
    ensures Decimal(18) + [COLON] == Ascii("18:") && [COMMA] == Ascii(",")
  {
    assert Decimal(1) == [0x31];
  }

  lemma Slices(front: seq<byte>, middle: seq<byte>, b: byte, back: seq<byte>)
    ensures var s := front + (middle + [b] + back);
            s[|front|..|front| + |middle|] == middle && s[|front| + |middle| + 1..] == back
  {
  }

  lemma {:induction false} NamesOfMap(hs: seq<Header>)
    ensures ToMap(hs).Keys == set h <- hs :: h.name
  {
    if hs == [] {
    } else {
      NamesOfMap(hs[1..]);
      assert forall h :: h in hs <==> h == hs[0] || h in hs[1..];
    }
  }

  /** With distinct names the map holds each header, and nothing else. */
  lemma {:induction false} DistinctHeadersAreKept(hs: seq<Header>, name: seq<byte>, value: seq<byte>)
    requires forall i, j :: 0 <= i < j < |hs| ==> hs[i].name != hs[j].name
    ensures name in ToMap(hs) && ToMap(hs)[name] == value <==> Header(name, value) in hs
  {
    if hs == [] {
    } else {
      DistinctHeadersAreKept(hs[1..], name, value);
      NamesOfMap(hs[1..]);
      assert Header(name, value) in hs <==> Header(name, value) == hs[0] || Header(name, value) in hs[1..];
      assert hs[0].name !in ToMap(hs[1..]);
    }
  }

  /** On a socket that delivers an encoded request, in any chunks, the handler returns that request. */
  method HandleEncoded(sock: Socket, ghost hs: seq<Header>, ghost body: seq<byte>) returns (r: Outcome)
    requires forall h <- hs :: NulFree(h)
    requires sock.incoming == Encode(hs, body)
    modifies sock`incoming
    ensures r == Expected(hs, body) && sock.incoming == []
  {
    hide Encode, Needed, Declared, Finish, Expected, HeaderBytes;
    ghost var stream := sock.incoming;
    RequestRoundTrip(hs, body, |stream|);
    ghost var arrived: nat;
    r, arrived := Handle(sock);
    RequestRoundTrip(hs, body, arrived);
  }
}
