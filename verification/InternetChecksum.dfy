/** The Internet checksum (RFC 1071) of ipv4_checksum, and its place in an IPv4 header (RFC 791 section 3.1). */
module InternetChecksum {
  import opened ByteStreams

  const MAX16 := 0xFFFF

  // -------------------------------------------------------- the specification

  /** The sum of the big-endian 16-bit words. */
  function Sum(h: seq<byte>): nat
    requires |h| % 2 == 0
  {
    if h == [] then 0 else U16(h[..2]) + Sum(h[2..])
  }

  /** Adding the carries back in until the value fits 16 bits. */
  function Fold(total: nat): (r: nat)
    ensures r <= MAX16
  {
    if total <= MAX16 then total else Fold(total % 0x1_0000 + total / 0x1_0000)
  }

  function Padded(h: seq<byte>): (p: seq<byte>)
    ensures |p| % 2 == 0
  {
    if |h| % 2 == 1 then h + [0] else h
  }

  function Checksum(h: seq<byte>): (r: nat)
    ensures r <= MAX16
  {
    MAX16 - Fold(Sum(Padded(h)))
  }

  // --------------------------------------------------------------- the method

  method Ipv4Checksum(bytes: seq<byte>) returns (r: nat)
    ensures r == Checksum(bytes)
  {
    var header := bytes;
    if |header| % 2 != 0 {
      header := header + [0];
    }
    var total: nat := Sum(header);
    while total > MAX16
      invariant Fold(total) == Fold(Sum(header))
    {
      total := total % 0x1_0000 + total / 0x1_0000;
    }
    // The complement ~total is -1 - total on unbounded integers; the mask keeps 16 bits.
    r := (-1 - total) % 0x1_0000;
  }

  // ----------------------------------------------------- what is summed up

  lemma SumOfWord(high: byte, low: byte)
    ensures Sum([high, low]) == 0x100 * high as int + low as int
  {
    assert [high, low][2..] == [];
  }

  lemma {:induction false} SumOfJoined(a: seq<byte>, b: seq<byte>)
    requires |a| % 2 == 0 && |b| % 2 == 0
    ensures Sum(a + b) == Sum(a) + Sum(b)
  {
    if a == [] {
      assert a + b == b;
    } else {
      SumOfJoined(a[2..], b);
      assert (a + b)[..2] == a[..2] && (a + b)[2..] == a[2..] + b;
    }
  }

  lemma PaddedOdd(h: seq<byte>, last: byte)
    requires |h| % 2 == 0
    ensures Padded(h + [last]) == h + [last, 0] == Padded(h + [last, 0])
  {
    assert h + [last] + [0] == h + [last, 0];
  }

  /** The last byte of an odd-length header is the high byte of a word. */
  lemma OddLength(h: seq<byte>, last: byte)
    requires |h| % 2 == 0
    ensures Checksum(h + [last]) == Checksum(h + [last, 0])
    ensures Sum(Padded(h + [last])) == Sum(h) + 0x100 * last as int
  {
    hide Sum, Fold, Padded;
    PaddedOdd(h, last);
    SumOfJoined(h, [last, 0]);
    SumOfWord(last, 0);
  }

  lemma SumAt(h: seq<byte>, i: nat)
    requires |h| % 2 == 0 && i % 2 == 0 && i < |h|
    ensures Sum(h[i..]) == 0x100 * h[i] as int + h[i + 1] as int + Sum(h[i + 2..])
  {
    assert h[i..] == [h[i], h[i + 1]] + h[i + 2..];
    SumOfJoined([h[i], h[i + 1]], h[i + 2..]);
    SumOfWord(h[i], h[i + 1]);
  }

  /** The sum over a header without options: the bytes at even places count 256 times. */
  lemma SumOfHeader(h: seq<byte>)
    requires |h| == 20
    ensures Sum(h) == 0x100 * (h[0] as int + h[2] + h[4] + h[6] + h[8] + h[10] + h[12] + h[14] + h[16] + h[18])
                      + h[1] as int + h[3] + h[5] + h[7] + h[9] + h[11] + h[13] + h[15] + h[17] + h[19]
  {
    hide Sum;
    assert h[0..] == h && h[20..] == [];
    SumAt(h, 0);
    SumAt(h, 2);
    SumAt(h, 4);
    SumAt(h, 6);
    SumAt(h, 8);
    SumAt(h, 10);
    SumAt(h, 12);
    SumAt(h, 14);
    SumAt(h, 16);
    SumAt(h, 18);
    SumOfJoined([], []);
  }

  /** The checksum of a header from 192.0.2.1 to 192.0.2.2 with a UDP packet of 8 bytes. */
  lemma MinimalHeader()
    ensures Checksum([0x45, 0, 0, 28, 0, 0, 0, 0, 64, 17, 0, 0, 192, 0, 2, 1, 192, 0, 2, 2]) == 0xF6CD
  {
    hide Sum, Checksum;
    var h: seq<byte> := [0x45, 0, 0, 28, 0, 0, 0, 0, 64, 17, 0, 0, 192, 0, 2, 1, 192, 0, 2, 2];
    SumOfHeader(h);
    ChecksumIsComplement(h, 0xF6CD);
  }

  // -------------------------------------------------- folding modulo 65535

  /** Folding subtracts a multiple of 65535 and never turns a non-zero sum into zero. */
  lemma {:induction false} FoldSubtracts(total: nat) returns (m: int)
    ensures Fold(total) == total - MAX16 * m
    ensures Fold(total) == 0 <==> total == 0
  {
    if total <= MAX16 {
      m := 0;
    } else {
      var q := total / 0x1_0000;
      var m' := FoldSubtracts(total % 0x1_0000 + q);
      m := m' + q;
    }
  }

  /** That determines the folded value. */
  lemma FoldIsUnique(total: nat, f: nat, j: int)
    requires f <= MAX16 && f == total + MAX16 * j
    requires f == 0 <==> total == 0
    ensures Fold(total) == f
  {
    var m := FoldSubtracts(total);
    SmallMultiple(f - Fold(total), j + m);
  }

  lemma SmallMultiple(d: int, k: int)
    requires d == MAX16 * k && -MAX16 < d < MAX16
    ensures d == 0
  {
  }

  /**
   * The checksum is the one 16-bit value that complements the sum modulo 65535 and is 0xFFFF
   * for the zero sum only.
   */
  lemma ChecksumIsComplement(h: seq<byte>, c: nat)
    requires c <= MAX16
    ensures c == Checksum(h) <==> (Sum(Padded(h)) + c) % 65535 == 0 && (c == 65535 <==> Sum(Padded(h)) == 0)
  {
    hide Sum, Fold, Padded;
    var total := Sum(Padded(h));
    var m := FoldSubtracts(total);
    Congruent(total + c, MAX16 * (m + 1), c - Checksum(h));
  }

  // ---------------------------------------------------- byte-order independence

  function SwapWord(w: nat): (r: nat)
    requires w <= MAX16
    ensures r <= MAX16
  {
    w % 0x100 * 0x100 + w / 0x100
  }

  function Swapped(h: seq<byte>): (s: seq<byte>)
    requires |h| % 2 == 0
    ensures |s| == |h|
  {
    if h == [] then [] else [h[1], h[0]] + Swapped(h[2..])
  }

  lemma SwapWordBytes(high: byte, low: byte)
    ensures SwapWord(0x100 * high as int + low as int) == 0x100 * low as int + high as int
  {
  }

  lemma {:induction false} SwappedBytes(h: seq<byte>, i: nat)
    requires |h| % 2 == 0 && i < |h|
    ensures Swapped(h)[i] == if i % 2 == 0 then h[i + 1] else h[i - 1]
  {
    if i >= 2 { SwappedBytes(h[2..], i - 2); }
  }

  /** Modulo 65535, swapping the bytes of every word multiplies the sum by 256. */
  lemma {:induction false} SumOfSwapped(h: seq<byte>) returns (k: int)
    requires |h| % 2 == 0
    ensures Sum(Swapped(h)) == 0x100 * Sum(h) - MAX16 * k
    ensures Sum(Swapped(h)) == 0 <==> Sum(h) == 0
  {
    if h == [] {
      k := 0;
    } else {
      var k' := SumOfSwapped(h[2..]);
      k := k' + h[0];
      var s := Swapped(h);
      assert s[..2] == [h[1], h[0]] && s[2..] == Swapped(h[2..]);
      assert h[..2] == [h[0], h[1]];
    }
  }

  /** The checksum of the byte-swapped header is the byte-swapped checksum. */
  lemma ChecksumOfSwapped(h: seq<byte>)
    requires |h| % 2 == 0
    ensures Checksum(Swapped(h)) == SwapWord(Checksum(h))
  {
    hide Sum, Fold, Swapped, SwapWord;
    var f := Fold(Sum(h));
    var k := SumOfSwapped(h);
    var m := FoldSubtracts(Sum(h));
    var q := SwapSubtracts(f);
    FoldIsUnique(Sum(Swapped(h)), SwapWord(f), k - 0x100 * m - q);
  }

  /** Swapping is multiplication by 256 modulo 65535, and commutes with the complement. */
  lemma SwapSubtracts(w: nat) returns (q: int)
    requires w <= MAX16
    ensures SwapWord(w) == 0x100 * w - MAX16 * q
    ensures SwapWord(w) == 0 <==> w == 0
    ensures SwapWord(MAX16 - w) == MAX16 - SwapWord(w)
  {
    q := w / 0x100;
    var low := w % 0x100;
    assert MAX16 - w == 0x100 * (0xFF - q) + (0xFF - low);
    assert (MAX16 - w) / 0x100 == 0xFF - q && (MAX16 - w) % 0x100 == 0xFF - low;
  }

  // --------------------------------------------------- writing words in place

  /** The header with its i-th word replaced. */
  function WithWord(h: seq<byte>, i: nat, w: nat): (s: seq<byte>)
    requires |h| % 2 == 0 && 2 * i < |h| && w <= MAX16
    ensures |s| == |h|
  {
    h[..2 * i] + ToU16(w) + h[2 * i + 2..]
  }

  function WordAt(h: seq<byte>, i: nat): (w: nat)
    requires |h| % 2 == 0 && 2 * i < |h|
    ensures w <= MAX16
  {
    U16(h[2 * i..2 * i + 2])
  }

  /** Writing a word changes that word only. */
  lemma WordsOfWithWord(h: seq<byte>, i: nat, w: nat, j: nat)
    requires |h| % 2 == 0 && 2 * i < |h| && 2 * j < |h| && w <= MAX16
    ensures WordAt(h, j) == 0x100 * h[2 * j] as int + h[2 * j + 1] as int
    ensures WordAt(WithWord(h, i, w), j) == if j == i then w else WordAt(h, j)
  {
    hide ToU16;
    var s := WithWord(h, i, w);
    if j == i {
      U16Inverse(w, ToU16(w));
      assert s[2 * i..2 * i + 2] == ToU16(w);
    } else {
      assert s[2 * j..2 * j + 2] == h[2 * j..2 * j + 2];
    }
  }

  lemma {:induction false} SumOfWithWord(h: seq<byte>, i: nat, w: nat)
    requires |h| % 2 == 0 && 2 * i < |h| && w <= MAX16
    ensures Sum(WithWord(h, i, w)) == Sum(h) - WordAt(h, i) + w
    ensures Sum(h) >= WordAt(h, i)
  {
    var s := WithWord(h, i, w);
    if i == 0 {
      assert s[..2] == ToU16(w) && s[2..] == h[2..];
    } else {
      SumOfWithWord(h[2..], i - 1, w);
      assert s[..2] == h[..2] && s[2..] == WithWord(h[2..], i - 1, w);
      assert h[2..][2 * (i - 1)..2 * (i - 1) + 2] == h[2 * i..2 * i + 2];
    }
  }

  /** A header verifies when its checksum, over the checksum word too, is zero. */
  lemma VerifiesExactly(h: seq<byte>)
    requires |h| % 2 == 0
    ensures Checksum(h) == 0 <==> Sum(h) > 0 && Sum(h) % MAX16 == 0
  {
    hide Sum, Fold;
    var m := FoldSubtracts(Sum(h));
    if Checksum(h) == 0 { IsMultiple(Sum(h), m + 1); }
    if Sum(h) > 0 && Sum(h) % MAX16 == 0 {
      FoldIsUnique(Sum(h), MAX16, 1 - Sum(h) / MAX16);
    }
  }

  lemma IsMultiple(n: int, k: int)
    requires n == MAX16 * k
    ensures n % MAX16 == 0
  {
  }

  /**
   * In a word that was zero the computed checksum makes the header verify, and nothing else
   * does except 0xFFFF for a computed 0.
   */
  lemma InsertedChecksumVerifies(h: seq<byte>, i: nat, w: nat)
    requires |h| % 2 == 0 && 2 * i < |h| && WordAt(h, i) == 0 && w <= MAX16
    ensures Checksum(WithWord(h, i, w)) == 0 <==> w == Checksum(h) || (w == MAX16 && Checksum(h) == 0)
  {
    hide Sum, Fold, WithWord, WordAt;
    SumOfWithWord(h, i, w);
    VerifiesExactly(WithWord(h, i, w));
    var m := FoldSubtracts(Sum(h));
    Congruent(Sum(h) + w, MAX16 * (m + 1), w - Checksum(h));
  }

  /** a and a multiple of 65535 that differ by d. */
  lemma Congruent(a: nat, multiple: int, d: int)
    requires multiple % MAX16 == 0 && a == multiple + d && -MAX16 <= d <= MAX16
    ensures a % MAX16 == 0 <==> d == 0 || d == MAX16 || d == -MAX16
  {
    var k := multiple / MAX16;
    assert a == MAX16 * k + d;
  }

  /**
   * Error detection: changing one word of a header that verifies goes unnoticed exactly when
   * the word swaps one 16-bit zero, 0 or 0xFFFF, for the other and the sum stays positive.
   */
  lemma ChangedWordDetected(h: seq<byte>, i: nat, w: nat)
    requires |h| % 2 == 0 && 2 * i < |h| && w <= MAX16
    requires Checksum(h) == 0
    ensures var was := WordAt(h, i);
            Checksum(WithWord(h, i, w)) == 0 <==>
            w == was || (was == 0 && w == MAX16) || (was == MAX16 && w == 0 && Sum(h) > MAX16)
  {
    hide Sum, Fold, WithWord, WordAt, Checksum;
    SumOfWithWord(h, i, w);
    VerifiesExactly(h);
    VerifiesExactly(WithWord(h, i, w));
    Congruent(Sum(WithWord(h, i, w)), Sum(h), w - WordAt(h, i));
  }
}
