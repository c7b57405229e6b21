/** The incremental FastCGI header scanner: fcgi_getheaders_old and fcgi_getheaders_patched. */
module FcgiHeaders {
  import opened ByteStreams

  const NL: byte := 0x0A
  const CR: byte := 0x0D
  const COLON: byte := 0x3A

  /** 1: the blank line was found; -1: a malformed line; 0: more input is needed. */
  datatype Scanned = Scanned(verdict: int, rest: seq<byte>)

  predicate Blank(line: seq<byte>) {
    forall i :: 0 <= i < |line| ==> line[i] == CR
  }

  /** line.rstrip(b"\r") */
  function RStrip(line: seq<byte>): (s: seq<byte>)
    ensures s == [] <==> Blank(line)
    ensures COLON in s <==> COLON in line
  {
    if line != [] && line[|line| - 1] == CR then
      var front := line[..|line| - 1];
      assert line == front + [CR];
      assert Blank(line) <==> Blank(front) by {
        if Blank(front) {
          forall i | 0 <= i < |line| ensures line[i] == CR { if i < |front| { assert front[i] == CR; } }
        }
        if Blank(line) {
          forall i | 0 <= i < |front| ensures front[i] == CR { assert line[i] == CR; }
        }
      }
      RStrip(front)
    else line
  }

  function Scan(buffer: seq<byte>): Scanned
    decreases |buffer|
  {
    if NL !in buffer then Scanned(0, buffer)
    else
      var i := IndexOf(buffer, NL);
      var line, rest := RStrip(buffer[..i]), buffer[i + 1..];
      if line == [] then Scanned(1, rest)
      else if COLON !in line then Scanned(-1, rest)
      else Scan(rest)
  }

  method FcgiGetHeadersPatched(buffer: seq<byte>) returns (ret: int, rest: seq<byte>)
    ensures Scanned(ret, rest) == Scan(buffer)
  {
    rest := buffer;
    while true
      invariant Scan(rest) == Scan(buffer)
      decreases |rest|
    {
      if NL !in rest {
        return 0, rest;
      }
      var i := IndexOf(rest, NL);
      var line := RStrip(rest[..i]);
      rest := rest[i + 1..];
      if line == [] {
        return 1, rest;
      }
      if COLON !in line {
        return -1, rest;
      }
    }
  }

  /** The old scanner answers with the same rest, but its False covers both other verdicts. */
  method FcgiGetHeadersOld(buffer: seq<byte>) returns (done: bool, rest: seq<byte>)
    ensures rest == Scan(buffer).rest
    ensures done <==> Scan(buffer).verdict == 1
  {
    rest := buffer;
    while true
      invariant Scan(rest) == Scan(buffer)
      decreases |rest|
    {
      if NL !in rest {
        return false, rest;
      }
      var i := IndexOf(rest, NL);
      var line := RStrip(rest[..i]);
      rest := rest[i + 1..];
      if line == [] {
        return true, rest;
      }
      if COLON !in line {
        return false, rest;
      }
    }
  }

  // ------------------------------------------------------- what it recognises

  predicate HeaderLine(line: seq<byte>) {
    NL !in line && COLON in line
  }

  function Text(lines: seq<seq<byte>>): seq<byte> {
    if lines == [] then [] else lines[0] + [NL] + Text(lines[1..])
  }

  /** The buffer is some header lines, then a last line that explains the verdict, then rest. */
  ghost predicate Explains(buffer: seq<byte>, lines: seq<seq<byte>>, last: seq<byte>, r: Scanned) {
    && (forall line <- lines :: HeaderLine(line)) && NL !in last
    && match r.verdict
       case 0 => buffer == Text(lines) + last && r.rest == last
       case 1 => buffer == Text(lines) + (last + [NL] + r.rest) && Blank(last)
       case -1 => buffer == Text(lines) + (last + [NL] + r.rest) && !Blank(last) && COLON !in last
       case _ => false
  }

  /** In bytes: a line of 0x0D only ends the headers, and one without 0x3A is malformed. */
  lemma ScanLine(line: seq<byte>, rest: seq<byte>)
    requires 0x0A !in line
    ensures Scan(line + [0x0A] + rest) ==
            if forall i :: 0 <= i < |line| ==> line[i] == 0x0D then Scanned(1, rest)
            else if 0x3A !in line then Scanned(-1, rest)
            else Scan(rest)
    ensures Scan(line) == Scanned(0, line)
  {
    var buffer := line + [NL] + rest;
    IndexOfAt(line, NL, rest);
    assert buffer[|line|] == NL;
    assert buffer[..|line|] == line && buffer[|line| + 1..] == rest;
  }

  lemma BlankHasNoColon(line: seq<byte>)
    requires COLON in line
    ensures !Blank(line)
  {
  }

  /** Every explanation of a buffer is the scanner's answer. */
  lemma {:induction false} ExplainedIsScanned(buffer: seq<byte>, lines: seq<seq<byte>>, last: seq<byte>, r: Scanned)
    requires Explains(buffer, lines, last, r)
    ensures Scan(buffer) == r
    decreases |lines|
  {
    if lines == [] {
      if r.verdict == 0 {
        assert buffer == last;
      } else {
        assert buffer == last + [NL] + r.rest;
        ScanLine(last, r.rest);
      }
    } else {
      var rest := Text(lines[1..]) + if r.verdict == 0 then last else last + [NL] + r.rest;
      assert buffer == lines[0] + [NL] + rest;
      assert HeaderLine(lines[0]);
      BlankHasNoColon(lines[0]);
      ScanLine(lines[0], rest);
      ExplainedIsScanned(rest, lines[1..], last, r);
    }
  }

  /** Every answer of the scanner has an explanation. */
  lemma {:induction false} ScannedIsExplained(buffer: seq<byte>) returns (lines: seq<seq<byte>>, last: seq<byte>)
    ensures Explains(buffer, lines, last, Scan(buffer))
    decreases |buffer|
  {
    lines, last := [], buffer;
    if NL !in buffer {
    } else {
      var i := IndexOf(buffer, NL);
      FirstIsFirst(buffer, NL);
      var line, rest := buffer[..i], buffer[i + 1..];
      assert buffer == line + [NL] + rest;
      ScanLine(line, rest);
      if HeaderLine(line) {
        BlankHasNoColon(line);
        lines, last := ScannedIsExplained(rest);
        ExplainsMore(rest, line, lines, last, Scan(rest));
        lines := [line] + lines;
      } else {
        last := line;
      }
    }
  }

  lemma ExplainsMore(rest: seq<byte>, line: seq<byte>, lines: seq<seq<byte>>, last: seq<byte>, r: Scanned)
    requires Explains(rest, lines, last, r) && HeaderLine(line)
    ensures Explains(line + [NL] + rest, [line] + lines, last, r)
  {
    assert ([line] + lines)[1..] == lines;
    assert Text([line] + lines) == line + [NL] + Text(lines);
  }

  /** The scanner's answer, in terms of lines only. */
  lemma ScanMeans(buffer: seq<byte>, r: Scanned)
    ensures Scan(buffer) == r <==> exists lines: seq<seq<byte>>, last: seq<byte> :: Explains(buffer, lines, last, r)
  {
    var lines, last := ScannedIsExplained(buffer);
    if ls: seq<seq<byte>>, l: seq<byte> :| Explains(buffer, ls, l, r) {
      ExplainedIsScanned(buffer, ls, l, r);
    }
  }

  // ---------------------------------------------------------------- resumption

  /** Further bytes never change a decided verdict; an undecided scan goes on from its rest. */
  lemma {:induction false} ScanResumes(buffer: seq<byte>, more: seq<byte>)
    ensures var r := Scan(buffer);
            Scan(buffer + more) ==
            if r.verdict == 0 then Scan(r.rest + more) else Scanned(r.verdict, r.rest + more)
    decreases |buffer|
  {
    if NL !in buffer {
    } else {
      var i := IndexOf(buffer, NL);
      FirstIsFirst(buffer, NL);
      var line, rest := buffer[..i], buffer[i + 1..];
      assert buffer == line + [NL] + rest;
      assert buffer + more == line + [NL] + (rest + more);
      ScanLine(line, rest);
      ScanLine(line, rest + more);
      ScanResumes(rest, more);
    }
  }

  /** Scanning as the chunks come in, until there is a verdict. */
  function Feed(r: Scanned, chunks: seq<seq<byte>>): Scanned
    decreases |chunks|
  {
    if chunks == [] then r
    else
      var buffer := r.rest + chunks[0];
      Feed(if r.verdict == 0 then Scan(buffer) else r.(rest := buffer), chunks[1..])
  }

  function Joined(chunks: seq<seq<byte>>): seq<byte> {
    if chunks == [] then [] else chunks[0] + Joined(chunks[1..])
  }

  lemma {:induction false} FeedContinues(buffer: seq<byte>, chunks: seq<seq<byte>>)
    ensures Feed(Scan(buffer), chunks) == Scan(buffer + Joined(chunks))
    decreases |chunks|
  {
    hide Scan;
    if chunks == [] {
      assert buffer + Joined(chunks) == buffer;
    } else {
      ScanResumes(buffer, chunks[0]);
      FeedContinues(buffer + chunks[0], chunks[1..]);
      assert buffer + Joined(chunks) == buffer + chunks[0] + Joined(chunks[1..]);
    }
  }

  /** However the input is cut into chunks, feeding them gives the answer for the whole input. */
  lemma FeedIsScan(chunks: seq<seq<byte>>)
    ensures Feed(Scanned(0, []), chunks) == Scan(Joined(chunks))
  {
    FeedContinues([], chunks);
    assert [] + Joined(chunks) == Joined(chunks);
  }
}
