/** The bounded command-line join of doas, over strlcpy and strlcat. */
module DoasLog {
  import opened Wrappers

  const LINE_MAX: nat := 2048

  /** The exceptions: no argv[0], or a command line that does not fit. */
  datatype Error = IndexError | ValueError

  function Strlcpy(dst: string, src: string, size: nat): (string, nat) {
    if size == 0 then ("", |src|)
    else (Before(src, size - 1), |src|)
  }

  function Strlcat(dst: string, src: string, size: nat): (string, nat) {
    var wanted := |dst| + |src|;
    if |dst| >= size then (dst, wanted)
    else (dst + Before(src, Max(0, size - |dst| - 1)), wanted)
  }

  /** s[:n] */
  function Before(s: string, n: nat): string {
    if n < |s| then s[..n] else s
  }

  function Max(a: int, b: int): (m: nat)
    requires a >= 0
    ensures m >= a && m >= b && (m == a || m == b)
  {
    if a < b then b else a
  }

  /** " ".join(argv) */
  function Join(argv: seq<string>): string {
    if argv == [] then ""
    else if |argv| == 1 then argv[0]
    else argv[0] + " " + Join(argv[1..])
  }

  /** Joining two lists puts one space between them. */
  lemma {:induction false} JoinOfBoth(a: seq<string>, b: seq<string>)
    requires a != [] && b != []
    ensures Join(a + b) == Join(a) + " " + Join(b)
    ensures |a| == 1 ==> Join(a) == a[0]
  {
    assert (a + b)[1..] == a[1..] + b;
    if |a| > 1 {
      JoinOfBoth(a[1..], b);
      assert a[0] + " " + (Join(a[1..]) + " " + Join(b)) == a[0] + " " + Join(a[1..]) + " " + Join(b);
    } else {
      assert a[1..] + b == b;
    }
  }

  /** What is appended for the arguments behind the first one. */
  function Tail(args: seq<string>): string {
    if args == [] then "" else " " + args[0] + Tail(args[1..])
  }

  lemma {:induction false} JoinIsTail(argv: seq<string>)
    requires argv != []
    ensures Join(argv) == argv[0] + Tail(argv[1..])
  {
    if |argv| == 1 {
    } else {
      JoinIsTail(argv[1..]);
      assert argv[0] + " " + (argv[1] + Tail(argv[2..])) == argv[0] + (" " + argv[1] + Tail(argv[2..]));
      assert argv[1..][1..] == argv[2..];
    }
  }

  /** strlcpy copies as much as leaves room for a NUL, and tells the length that it wanted. */
  lemma StrlcpyCopies(dst: string, src: string, size: nat)
    ensures Strlcpy(dst, src, size).1 == |src|
    ensures |src| < size ==> Strlcpy(dst, src, size).0 == src
    ensures |src| >= size > 0 ==> Strlcpy(dst, src, size).0 == src[..size - 1]
    ensures size == 0 ==> Strlcpy(dst, src, size).0 == ""
  {
  }

  /** strlcat appends as much as leaves room for a NUL, and tells the length that it wanted. */
  lemma StrlcatAppends(dst: string, src: string, size: nat)
    ensures Strlcat(dst, src, size).1 == |dst + src|
    ensures |dst| >= size ==> Strlcat(dst, src, size).0 == dst
    ensures |dst| < size <= |dst + src| ==> Strlcat(dst, src, size).0 == (dst + src)[..size - 1]
    ensures |dst + src| < size ==> Strlcat(dst, src, size).0 == dst + src
  {
  }

  /** What is written of a line, and what strlcat does to it. */
  function Fitted(line: string): string {
    Before(line, LINE_MAX - 1)
  }

  lemma StrlcatFits(line: string, src: string)
    ensures Strlcat(Fitted(line), src, LINE_MAX).0 == Fitted(line + src)
    ensures |line| < LINE_MAX ==> Strlcat(Fitted(line), src, LINE_MAX).1 == |line + src|
    ensures |line| >= LINE_MAX ==> Strlcat(Fitted(line), src, LINE_MAX).1 == LINE_MAX - 1 + |src|
  {
  }

  lemma FittedPrefix(line: string, more: string)
    requires |line| >= LINE_MAX - 1
    ensures Fitted(line + more) == Fitted(line)
  {
  }

  lemma JoinStep(line: string, argv: seq<string>, i: nat)
    requires 1 <= i < |argv| && line + Tail(argv[i..]) == Join(argv)
    ensures line + " " + argv[i] + Tail(argv[i + 1..]) == Join(argv)
    ensures line + " " + (argv[i] + Tail(argv[i + 1..])) == Join(argv)
  {
    hide Join, Tail;
    TailStep(argv, i);
    Associative(line, " ", argv[i], Tail(argv[i + 1..]));
  }

  lemma TailStep(argv: seq<string>, i: nat)
    requires i < |argv|
    ensures Tail(argv[i..]) == " " + argv[i] + Tail(argv[i + 1..])
  {
    assert argv[i..][1..] == argv[i + 1..];
  }

  lemma Associative(a: string, b: string, c: string, d: string)
    ensures a + (b + c + d) == a + b + c + d == a + b + (c + d)
  {
  }

  function OldLog(argv: seq<string>): Result<string, Error> {
    if argv == [] then Err(IndexError) else Ok(Fitted(Join(argv)))
  }

  function PatchedLog(argv: seq<string>): Result<string, Error> {
    if argv == [] then Err(IndexError)
    else if |Join(argv)| < LINE_MAX then Ok(Join(argv))
    else Err(ValueError)
  }

  /** The truncating logger writes the first LINE_MAX - 1 characters of the join, whatever is cut off. */
  method DoasLogOld(argv: seq<string>) returns (r: Result<string, Error>)
    ensures r == OldLog(argv)
  {
    hide Join, Tail, Strlcat, Before;
    if argv == [] {
      return Err(IndexError);
    }
    ghost var line := argv[0];
    var cmdline := Strlcpy("", argv[0], LINE_MAX).0;
    JoinIsTail(argv);
    for i := 1 to |argv|
      invariant cmdline == Fitted(line) && line + Tail(argv[i..]) == Join(argv)
      invariant i > 1 ==> |line| < LINE_MAX
    {
      var arg := argv[i];
      JoinStep(line, argv, i);
      StrlcatFits(line, " ");
      var space := Strlcat(cmdline, " ", LINE_MAX);
      cmdline := space.0;
      line := line + " ";
      if space.1 >= LINE_MAX {
        FittedPrefix(line, arg + Tail(argv[i + 1..]));
        return Ok(cmdline);
      }
      StrlcatFits(line, arg);
      var word := Strlcat(cmdline, arg, LINE_MAX);
      cmdline := word.0;
      line := line + arg;
      if word.1 >= LINE_MAX {
        FittedPrefix(line, Tail(argv[i + 1..]));
        return Ok(cmdline);
      }
    }
    NoTail(argv, line);
    return Ok(cmdline);
  }

  lemma NoTail(argv: seq<string>, line: string)
    ensures line + Tail(argv[|argv|..]) == line
  {
  }

  /** The patched logger writes the whole join, or raises when it has LINE_MAX characters or more. */
  method DoasLogPatched(argv: seq<string>) returns (r: Result<string, Error>)
    ensures r == PatchedLog(argv)
  {
    hide Join, Tail, Strlcat, Before;
    if argv == [] {
      return Err(IndexError);
    }
    ghost var line := argv[0];
    JoinIsTail(argv);
    var copied := Strlcpy("", argv[0], LINE_MAX);
    var cmdline := copied.0;
    if copied.1 >= LINE_MAX {
      return Err(ValueError);
    }
    for i := 1 to |argv|
      invariant cmdline == Fitted(line) && line + Tail(argv[i..]) == Join(argv)
      invariant |line| < LINE_MAX
    {
      var arg := argv[i];
      JoinStep(line, argv, i);
      StrlcatFits(line, " ");
      var space := Strlcat(cmdline, " ", LINE_MAX);
      cmdline := space.0;
      line := line + " ";
      if space.1 >= LINE_MAX {
        return Err(ValueError);
      }
      StrlcatFits(line, arg);
      var word := Strlcat(cmdline, arg, LINE_MAX);
      cmdline := word.0;
      line := line + arg;
      if word.1 >= LINE_MAX {
        return Err(ValueError);
      }
    }
    NoTail(argv, line);
    WholeLine(line);
    return Ok(cmdline);
  }

  lemma WholeLine(line: string)
    requires |line| < LINE_MAX
    ensures Fitted(line) == line
  {
  }

  /**
   * The truncating log is always a prefix of the join. It is the whole join exactly when the
   * patched logger does not raise, and then both loggers return the same.
   */
  lemma HiddenExactly(argv: seq<string>)
    requires argv != []
    ensures OldLog(argv) == Ok(if |Join(argv)| <= 2047 then Join(argv) else Join(argv)[..2047])
    ensures OldLog(argv).value == Join(argv) <==> PatchedLog(argv).Ok?
    ensures PatchedLog(argv) == if |Join(argv)| <= 2047 then OldLog(argv) else Err(ValueError)
  {
  }
}
