/**
 * The HTTP/2 stream-priority comparator spri_cmp: the recursive parent walk and the
 * bounded loop that replaced it, over a forest of streams.
 *
 * The order is the dependency order of RFC 7540 section 5.3.1, ties being broken by
 * the weights of section 5.3.2.
 */
module PriorityOrder {
  import opened Wrappers

  /** Stream identifiers are 31 bits wide, so their difference fits an int32. */
  type StreamId = i: int | 0 <= i < 0x8000_0000 witness 0

  type Weight = w: int | 1 <= w <= 256 witness 16

  /** A stream without an entry in `parent` is a root (its parent pointer is null). */
  datatype Forest = Forest(parent: map<StreamId, StreamId>, weight: StreamId -> Weight)

  const LIMIT: nat := 1000

  function Parent(f: Forest, s: StreamId): Option<StreamId> {
    if s in f.parent then Some(f.parent[s]) else None
  }

  /** The k-th ancestor; a stream is its own ancestor number 0. */
  ghost function Up(f: Forest, s: StreamId, k: nat): Option<StreamId> {
    if k == 0 then Some(s)
    else match Up(f, s, k - 1)
      case None => None
      case Some(t) => Parent(f, t)
  }

  ghost predicate Acyclic(f: Forest) {
    forall s: StreamId, k: nat :: k > 0 ==> Up(f, s, k) != Some(s)
  }

  // ---------------------------------------------------------------- ancestors

  lemma {:induction false} UpCompose(f: Forest, s: StreamId, i: nat, j: nat)
    ensures Up(f, s, i + j) == match Up(f, s, i) case None => None case Some(t) => Up(f, t, j)
  {
    if j == 0 {
    } else {
      UpCompose(f, s, i, j - 1);
      assert i + j - 1 == i + (j - 1);
    }
  }

  /** One step first, then the rest. */
  lemma UpFront(f: Forest, s: StreamId, k: nat)
    ensures Up(f, s, k + 1) == match Parent(f, s) case None => None case Some(p) => Up(f, p, k)
  {
    UpCompose(f, s, 1, k);
    UpOne(f, s);
    assert 1 + k == k + 1;
  }

  lemma UpOne(f: Forest, s: StreamId)
    ensures Up(f, s, 1) == Parent(f, s)
  {
    assert Up(f, s, 0) == Some(s);
  }

  lemma UpStaysNone(f: Forest, s: StreamId, i: nat, j: nat)
    requires i <= j && Up(f, s, i) == None
    ensures Up(f, s, j) == None
  {
    UpCompose(f, s, i, j - i);
  }

  /** Two walks that have met stay together. */
  lemma UpStaysEqual(f: Forest, a: StreamId, b: StreamId, i: nat, j: nat)
    requires i <= j && Up(f, a, i) == Up(f, b, i)
    ensures Up(f, a, j) == Up(f, b, j)
  {
    hide Up;
    UpCompose(f, a, i, j - i);
    UpCompose(f, b, i, j - i);
  }

  /** t is among the ancestors of s below number n. */
  ghost predicate OnWalk(f: Forest, s: StreamId, n: nat, t: StreamId) {
    exists i: nat :: i < n && Up(f, s, i) == Some(t)
  }

  /** If none repeats, the first n ancestors are n different streams with a parent. */
  lemma {:induction false} AncestorsAreDistinct(f: Forest, s: StreamId, n: nat) returns (walk: set<StreamId>)
    requires Up(f, s, n).Some?
    requires forall i: nat, j: nat :: i < j < n ==> Up(f, s, i) != Up(f, s, j)
    ensures |walk| == n && walk <= f.parent.Keys
    ensures forall t <- walk :: OnWalk(f, s, n, t)
  {
    walk := {};
    if n == 0 {
    } else {
      var before := AncestorsAreDistinct(f, s, n - 1);
      var last := Up(f, s, n - 1).value;
      walk := before + {last};
      forall t <- before ensures OnWalk(f, s, n, t) {
        var i: nat :| i < n - 1 && Up(f, s, i) == Some(t);
        assert i < n && Up(f, s, i) == Some(t);
      }
      assert n - 1 < n && Up(f, s, n - 1) == Some(last);
    }
  }

  /** A walk that is longer than there are parents comes to a stream twice. */
  lemma LongWalkRepeats(f: Forest, s: StreamId) returns (i: nat, j: nat)
    requires Up(f, s, |f.parent| + 1).Some?
    ensures i < j <= |f.parent| && Up(f, s, i) == Up(f, s, j)
  {
    var n := |f.parent| + 1;
    if forall i: nat, j: nat :: i < j < n ==> Up(f, s, i) != Up(f, s, j) {
      var walk := AncestorsAreDistinct(f, s, n);
      Subset(walk, f.parent.Keys);
      assert false;
    }
    i, j :| i < j < n && Up(f, s, i) == Up(f, s, j);
  }

  lemma WalkEnds(f: Forest, s: StreamId)
    requires Acyclic(f)
    ensures Up(f, s, |f.parent| + 1) == None
  {
    if Up(f, s, |f.parent| + 1).Some? {
      var i, j := LongWalkRepeats(f, s);
      if Up(f, s, i) == None { UpStaysNone(f, s, i, |f.parent| + 1); }
      UpCompose(f, s, i, j - i);
      assert false;
    }
  }

  lemma Subset<T>(a: set<T>, b: set<T>)
    requires a <= b
    ensures |a| <= |b|
  {
    assert b == a + (b - a);
  }

  /** The number of streams on the walk from s to its root, both included. */
  ghost function Height(f: Forest, s: StreamId): (h: nat)
    requires Acyclic(f)
    ensures h > 0 && Up(f, s, h) == None
    ensures forall k: nat :: k < h <==> Up(f, s, k).Some?
  {
    WalkEnds(f, s);
    FirstNone(f, s, 0)
  }

  ghost function FirstNone(f: Forest, s: StreamId, k: nat): (h: nat)
    requires Up(f, s, |f.parent| + 1) == None && k <= |f.parent| + 1
    requires forall i: nat :: i < k ==> Up(f, s, i).Some?
    ensures Up(f, s, h) == None
    ensures forall i: nat :: i < h <==> Up(f, s, i).Some?
    decreases |f.parent| + 1 - k
  {
    if Up(f, s, k) == None then
      assert forall i: nat :: k <= i ==> Up(f, s, i) == None by {
        forall i: nat | k <= i ensures Up(f, s, i) == None { UpStaysNone(f, s, k, i); }
      }
      k
    else FirstNone(f, s, k + 1)
  }

  lemma HeightOfParent(f: Forest, s: StreamId)
    requires Acyclic(f) && Parent(f, s).Some?
    ensures Height(f, s) == Height(f, Parent(f, s).value) + 1
  {
    var p := Parent(f, s).value;
    var h := Height(f, p);
    UpFront(f, s, h);
    UpFront(f, s, h - 1);
    assert Up(f, s, h).Some? && Up(f, s, h + 1) == None;
  }

  // ---------------------------------------------------- how long a walk decides

  /** After i levels both walks are still below different parents. */
  ghost predicate Undecided(f: Forest, a: StreamId, b: StreamId, i: nat) {
    Up(f, a, i + 1).Some? && Up(f, b, i + 1).Some? && Up(f, a, i + 1) != Up(f, b, i + 1)
  }

  ghost predicate UndecidedFor(f: Forest, a: StreamId, b: StreamId, n: nat) {
    forall i: nat :: i < n ==> Undecided(f, a, b, i)
  }

  lemma UndecidedStep(f: Forest, a: StreamId, b: StreamId, n: nat)
    requires Parent(f, a).Some? && Parent(f, b).Some? && Parent(f, a) != Parent(f, b)
    ensures UndecidedFor(f, a, b, n + 1) <==> UndecidedFor(f, Parent(f, a).value, Parent(f, b).value, n)
  {
    var pa, pb := Parent(f, a).value, Parent(f, b).value;
    assert Undecided(f, a, b, 0) by { UpOne(f, a); UpOne(f, b); }
    forall i: nat ensures Undecided(f, a, b, i + 1) <==> Undecided(f, pa, pb, i) {
      UpFront(f, a, i + 1);
      UpFront(f, b, i + 1);
    }
    if UndecidedFor(f, pa, pb, n) {
      forall i: nat | i < n + 1 ensures Undecided(f, a, b, i) {
        if i > 0 { assert Undecided(f, pa, pb, i - 1); assert i == (i - 1) + 1; }
      }
    }
    if UndecidedFor(f, a, b, n + 1) {
      forall i: nat | i < n ensures Undecided(f, pa, pb, i) {
        assert Undecided(f, a, b, i + 1);
      }
    }
  }

  /** The recursion on a and b reaches a result after finitely many levels. */
  ghost predicate Decides(f: Forest, a: StreamId, b: StreamId) {
    exists n: nat :: !UndecidedFor(f, a, b, n)
  }

  /** The level at which the walks from a and b decide. */
  ghost function Level(f: Forest, a: StreamId, b: StreamId): (n: nat)
    requires Decides(f, a, b)
    ensures UndecidedFor(f, a, b, n) && !Undecided(f, a, b, n)
  {
    var m: nat :| !UndecidedFor(f, a, b, m);
    FirstDecided(f, a, b, 0, m)
  }

  ghost function FirstDecided(f: Forest, a: StreamId, b: StreamId, k: nat, m: nat): (n: nat)
    requires k <= m && UndecidedFor(f, a, b, k) && !UndecidedFor(f, a, b, m)
    ensures UndecidedFor(f, a, b, n) && !Undecided(f, a, b, n)
    decreases m - k
  {
    if Undecided(f, a, b, k) then FirstDecided(f, a, b, k + 1, m) else k
  }

  lemma LevelStep(f: Forest, a: StreamId, b: StreamId)
    requires Decides(f, a, b)
    requires Parent(f, a).Some? && Parent(f, b).Some? && Parent(f, a) != Parent(f, b)
    ensures Decides(f, Parent(f, a).value, Parent(f, b).value)
    ensures Level(f, a, b) == Level(f, Parent(f, a).value, Parent(f, b).value) + 1
  {
    var pa, pb, n := Parent(f, a).value, Parent(f, b).value, Level(f, a, b);
    UpOne(f, a);
    UpOne(f, b);
    assert Undecided(f, a, b, 0);
    UndecidedStep(f, a, b, n - 1);
    UndecidedStep(f, a, b, n);
    assert !UndecidedFor(f, a, b, n + 1);
    var m := Level(f, pa, pb);
    assert UndecidedFor(f, pa, pb, m) && !UndecidedFor(f, pa, pb, m + 1);
  }

  // ------------------------------------------------------------ the two forms

  /** The removed recursive form, on every pair of streams for which it ends. */
  ghost function SpriCmpRec(f: Forest, sid1: StreamId, s1: StreamId, sid2: StreamId, s2: StreamId): int
    requires Decides(f, s1, s2)
    decreases Level(f, s1, s2)
  {
    var p1, p2 := Parent(f, s1), Parent(f, s2);
    if p1 == p2 then f.weight(s2) - f.weight(s1)
    else if p1 == None then -1
    else if p2 == None then 1
    else
      LevelStep(f, s1, s2);
      SpriCmpRec(f, sid1, p1.value, sid2, p2.value)
  }

  /** The same walk cut off after n levels, on any forest, cyclic ones included. */
  ghost function Bounded(f: Forest, sid1: StreamId, s1: StreamId, sid2: StreamId, s2: StreamId, n: nat): int
    decreases n
  {
    if n == 0 then sid1 - sid2
    else
      var p1, p2 := Parent(f, s1), Parent(f, s2);
      if p1 == p2 then f.weight(s2) - f.weight(s1)
      else if p1 == None then -1
      else if p2 == None then 1
      else Bounded(f, sid1, p1.value, sid2, p2.value, n - 1)
  }

  /** The added bounded loop. */
  method SpriCmp(f: Forest, sid1: StreamId, start1: StreamId, sid2: StreamId, start2: StreamId) returns (r: int)
    ensures r == Bounded(f, sid1, start1, sid2, start2, LIMIT)
    ensures -0x8000_0000 <= r < 0x8000_0000
  {
    var s1, s2 := start1, start2;
    var depth := 0;
    while depth < LIMIT
      invariant 0 <= depth <= LIMIT
      invariant Bounded(f, sid1, start1, sid2, start2, LIMIT) == Bounded(f, sid1, s1, sid2, s2, LIMIT - depth)
    {
      depth := depth + 1;
      var p1 := Parent(f, s1);
      var p2 := Parent(f, s2);
      if p1 == p2 {
        var w1: int := f.weight(s1);
        var w2: int := f.weight(s2);
        return w2 - w1;
      } else if p1 == None {
        return -1;
      } else if p2 == None {
        return 1;
      }
      s1, s2 := p1.value, p2.value;
    }
    return sid1 - sid2;
  }

  // ------------------------------------------- the loop refines the recursion

  /**
   * On every forest and every pair of streams the loop is the recursion when that decides
   * within n levels, and the id difference otherwise.
   */
  lemma {:induction false} LoopRefinesRecursion(f: Forest, sid1: StreamId, a: StreamId,
                                                sid2: StreamId, b: StreamId, n: nat)
    ensures UndecidedFor(f, a, b, n) ==> Bounded(f, sid1, a, sid2, b, n) == sid1 - sid2
    ensures !UndecidedFor(f, a, b, n) ==>
              Decides(f, a, b) && Bounded(f, sid1, a, sid2, b, n) == SpriCmpRec(f, sid1, a, sid2, b)
    decreases n
  {
    if n == 0 {
    } else {
      UpOne(f, a);
      UpOne(f, b);
      if Undecided(f, a, b, 0) {
        UndecidedStep(f, a, b, n - 1);
        LoopRefinesRecursion(f, sid1, Parent(f, a).value, sid2, Parent(f, b).value, n - 1);
      }
    }
  }

  /** A stream within n nodes of its root decides every comparison in n levels. */
  lemma ShallowIsDecided(f: Forest, a: StreamId, b: StreamId, n: nat)
    requires Acyclic(f) && (Height(f, a) <= n || Height(f, b) <= n)
    ensures !UndecidedFor(f, a, b, n)
  {
    var h := if Height(f, a) <= n then Height(f, a) else Height(f, b);
    assert !Undecided(f, a, b, h - 1);
  }

  // --------------------------------------------- where the recursion can stop

  ghost predicate OnCycle(f: Forest, s: StreamId) {
    exists k: nat :: k > 0 && Up(f, s, k) == Some(s)
  }

  /** An endless walk comes to a stream on a cycle. */
  lemma EndlessReachesCycle(f: Forest, s: StreamId) returns (i: nat)
    requires forall k: nat :: Up(f, s, k).Some?
    ensures OnCycle(f, Up(f, s, i).value)
  {
    var j: nat;
    i, j := LongWalkRepeats(f, s);
    UpCompose(f, s, i, j - i);
    assert Up(f, Up(f, s, i).value, j - i) == Some(Up(f, s, i).value);
  }

  /** Around a cycle: any number of turns comes back. */
  lemma {:induction false} Turns(f: Forest, s: StreamId, k: nat, m: nat)
    requires Up(f, s, k) == Some(s)
    ensures Up(f, s, m * k) == Some(s)
  {
    if m == 0 {
    } else {
      Turns(f, s, k, m - 1);
      UpCompose(f, s, (m - 1) * k, k);
      assert (m - 1) * k + k == m * k;
    }
  }

  /** Two streams on cycles are back at the same time, arbitrarily late. */
  lemma BackTogether(f: Forest, x: StreamId, k: nat, y: StreamId, l: nat, i: nat) returns (far: nat)
    requires k > 0 && Up(f, x, k) == Some(x) && l > 0 && Up(f, y, l) == Some(y)
    ensures i <= far && Up(f, x, far) == Some(x) && Up(f, y, far) == Some(y)
  {
    hide Up;
    Turns(f, x, k, i * l);
    Turns(f, y, l, i * k);
    far := Reordered(i, k, l);
  }

  lemma Reordered(i: nat, k: nat, l: nat) returns (far: nat)
    requires k > 0 && l > 0
    ensures far == (i * l) * k == (i * k) * l && i <= far
  {
    far := (i * l) * k;
    assert i <= i * l;
    assert i * l <= far;
    assert (i * l) * k == i * (l * k) == i * (k * l) == (i * k) * l;
  }

  /** Two streams on cycles never meet. */
  lemma CyclesDoNotMeet(f: Forest, x: StreamId, y: StreamId, i: nat)
    requires OnCycle(f, x) && OnCycle(f, y) && x != y
    ensures Up(f, x, i).Some? && Up(f, y, i).Some? && Up(f, x, i) != Up(f, y, i)
  {
    hide Up;
    var k: nat :| k > 0 && Up(f, x, k) == Some(x);
    var l: nat :| l > 0 && Up(f, y, l) == Some(y);
    var far := BackTogether(f, x, k, y, l, i);
    if Up(f, x, i) == None { UpStaysNone(f, x, i, far); }
    if Up(f, y, i) == None { UpStaysNone(f, y, i, far); }
    if Up(f, x, i) == Up(f, y, i) { UpStaysEqual(f, x, y, i, far); }
  }

  lemma CyclesNeverDecide(f: Forest, x: StreamId, y: StreamId)
    requires OnCycle(f, x) && OnCycle(f, y) && x != y
    ensures !Decides(f, x, y)
  {
    forall i: nat ensures Undecided(f, x, y, i) {
      CyclesDoNotMeet(f, x, y, i + 1);
    }
  }

  /** With at most one stream on a cycle, that stream is its own parent and every endless walk ends up in it. */
  lemma LoneCycleDecides(f: Forest, a: StreamId, b: StreamId)
    requires forall x: StreamId, y: StreamId :: OnCycle(f, x) && OnCycle(f, y) ==> x == y
    ensures Decides(f, a, b)
  {
    if !Decides(f, a, b) {
      forall k: nat ensures Up(f, a, k).Some? && Up(f, b, k).Some? && (k > 0 ==> Up(f, a, k) != Up(f, b, k)) {
        assert UndecidedFor(f, a, b, k + 1);
        assert Undecided(f, a, b, k);
        if k > 0 { assert Undecided(f, a, b, k - 1); }
      }
      var i := EndlessReachesCycle(f, a);
      var j := EndlessReachesCycle(f, b);
      var z := Up(f, a, i).value;
      assert Up(f, b, j) == Some(z);
      CycleIsClosed(f, z);
      SettlesAt(f, a, i, z, i + j + 1);
      SettlesAt(f, b, j, z, i + j + 1);
      assert false;
    }
  }

  /** The parent of a stream on a cycle is on it as well. */
  lemma CycleIsClosed(f: Forest, z: StreamId)
    requires OnCycle(f, z)
    requires forall x: StreamId, y: StreamId :: OnCycle(f, x) && OnCycle(f, y) ==> x == y
    ensures Parent(f, z) == Some(z)
  {
    var k: nat :| k > 0 && Up(f, z, k) == Some(z);
    UpFront(f, z, k - 1);
    var p := Parent(f, z).value;
    UpCompose(f, p, k - 1, 1);
    UpOne(f, z);
    assert Up(f, p, k) == Some(p);
    assert OnCycle(f, p);
  }

  lemma {:induction false} SettlesAt(f: Forest, s: StreamId, i: nat, z: StreamId, k: nat)
    requires Up(f, s, i) == Some(z) && Parent(f, z) == Some(z) && i <= k
    ensures Up(f, s, k) == Some(z)
  {
    if i == k {
    } else {
      SettlesAt(f, s, i, z, k - 1);
    }
  }

  /** The recursion ends on all pairs exactly when at most one stream is its own ancestor. */
  lemma RecursionEndsExactly(f: Forest)
    ensures (forall a: StreamId, b: StreamId :: Decides(f, a, b)) <==>
            (forall x: StreamId, y: StreamId :: OnCycle(f, x) && OnCycle(f, y) ==> x == y)
  {
    if forall x: StreamId, y: StreamId :: OnCycle(f, x) && OnCycle(f, y) ==> x == y {
      forall a: StreamId, b: StreamId ensures Decides(f, a, b) { LoneCycleDecides(f, a, b); }
    } else {
      var x: StreamId, y: StreamId :| OnCycle(f, x) && OnCycle(f, y) && x != y;
      CyclesNeverDecide(f, x, y);
    }
  }

  // ------------------------------------------------- what the comparison means

  /**
   * i is the level of the two streams just below the nearest common ancestor of a and b
   * (or of the two roots, when a and b are in different trees).
   */
  ghost predicate MeetAt(f: Forest, a: StreamId, b: StreamId, i: nat) {
    && Up(f, a, i).Some? && Up(f, b, i).Some?
    && Up(f, a, i + 1) == Up(f, b, i + 1)
    && forall j: nat :: 0 < j <= i ==> Up(f, a, j) != Up(f, b, j)
  }

  ghost function WeightAt(f: Forest, a: StreamId, i: nat): Weight
    requires Up(f, a, i).Some?
  {
    f.weight(Up(f, a, i).value)
  }

  /** Streams of equal height meet. */
  lemma {:induction false} Meet(f: Forest, a: StreamId, b: StreamId, k: nat) returns (i: nat)
    requires Acyclic(f) && Height(f, a) == Height(f, b)
    requires k < Height(f, a)
    requires forall j: nat :: 0 < j <= k ==> Up(f, a, j) != Up(f, b, j)
    ensures MeetAt(f, a, b, i)
    decreases Height(f, a) - k
  {
    if Up(f, a, k + 1) == Up(f, b, k + 1) {
      i := k;
    } else {
      assert k + 1 < Height(f, a);
      i := Meet(f, a, b, k + 1);
    }
  }

  lemma MeetIsUnique(f: Forest, a: StreamId, b: StreamId, i: nat, j: nat)
    requires MeetAt(f, a, b, i) && MeetAt(f, a, b, j)
    ensures i == j
  {
  }

  /** Meeting after a common step is meeting one level earlier above it. */
  lemma MeetAbove(f: Forest, a: StreamId, b: StreamId, i: nat)
    requires MeetAt(f, a, b, i) && i > 0
    ensures Parent(f, a).Some? && Parent(f, b).Some? && Parent(f, a) != Parent(f, b)
    ensures MeetAt(f, Parent(f, a).value, Parent(f, b).value, i - 1)
    ensures WeightAt(f, a, i) == WeightAt(f, Parent(f, a).value, i - 1)
    ensures WeightAt(f, b, i) == WeightAt(f, Parent(f, b).value, i - 1)
  {
    UpOne(f, a);
    UpOne(f, b);
    UpFront(f, a, i - 1);
    UpFront(f, b, i - 1);
    UpFront(f, a, i);
    UpFront(f, b, i);
    assert Up(f, a, 1) != Up(f, b, 1);
    forall j: nat | 0 < j <= i - 1
      ensures Up(f, Parent(f, a).value, j) != Up(f, Parent(f, b).value, j)
    {
      UpFront(f, a, j);
      UpFront(f, b, j);
      assert Up(f, a, j + 1) != Up(f, b, j + 1);
    }
  }

  /** Streams nearer to their root come first. */
  lemma {:induction false} DepthDecides(f: Forest, sid1: StreamId, a: StreamId, sid2: StreamId, b: StreamId)
    requires Acyclic(f) && Height(f, a) != Height(f, b)
    ensures Decides(f, a, b)
    ensures SpriCmpRec(f, sid1, a, sid2, b) == if Height(f, a) < Height(f, b) then -1 else 1
    decreases Height(f, a)
  {
    ShallowIsDecided(f, a, b, Height(f, a));
    var pa, pb := Parent(f, a), Parent(f, b);
    if pa.Some? { HeightOfParent(f, a); } else { RootHeight(f, a); }
    if pb.Some? { HeightOfParent(f, b); } else { RootHeight(f, b); }
    if pa.Some? && pb.Some? {
      DepthDecides(f, sid1, pa.value, sid2, pb.value);
    }
  }

  lemma RootHeight(f: Forest, s: StreamId)
    requires Acyclic(f) && Parent(f, s) == None
    ensures Height(f, s) == 1
  {
    UpFront(f, s, 0);
  }

  /** At equal depth the heavier branch just below the nearest common ancestor comes first. */
  lemma {:induction false} WeightDecides(f: Forest, sid1: StreamId, a: StreamId, sid2: StreamId, b: StreamId, i: nat)
    requires MeetAt(f, a, b, i)
    ensures Decides(f, a, b)
    ensures SpriCmpRec(f, sid1, a, sid2, b) == WeightAt(f, b, i) - WeightAt(f, a, i)
    decreases i
  {
    assert !Undecided(f, a, b, i);
    assert !UndecidedFor(f, a, b, i + 1);
    if i == 0 {
      UpFront(f, a, 0);
      UpFront(f, b, 0);
    } else {
      MeetAbove(f, a, b, i);
      WeightDecides(f, sid1, Parent(f, a).value, sid2, Parent(f, b).value, i - 1);
    }
  }

  lemma MeetersHaveEqualHeight(f: Forest, a: StreamId, b: StreamId, i: nat)
    requires Acyclic(f) && MeetAt(f, a, b, i)
    ensures Height(f, a) == Height(f, b)
  {
    var ha, hb := Height(f, a), Height(f, b);
    UpStaysEqual(f, a, b, i + 1, if ha <= i then i + 1 else ha);
    UpStaysEqual(f, a, b, i + 1, if hb <= i then i + 1 else hb);
  }

  // ----------------------------------------------------------------- the order

  /** The comparator as the queue sort calls it: each stream with its own id. */
  ghost function Cmp(f: Forest, a: StreamId, b: StreamId): int {
    Bounded(f, a, a, b, b, LIMIT)
  }

  ghost predicate Shallow(f: Forest, h: nat) {
    Acyclic(f) && forall s: StreamId :: Height(f, s) <= h
  }

  /** "Comes first" is transitive on these three streams. */
  ghost predicate InOrder(f: Forest, a: StreamId, b: StreamId, c: StreamId) {
    Cmp(f, a, b) < 0 && Cmp(f, b, c) < 0 ==> Cmp(f, a, c) < 0
  }

  ghost predicate Transitive(f: Forest) {
    forall a: StreamId, b: StreamId, c: StreamId :: InOrder(f, a, b, c)
  }

  /** On every forest, cyclic or deep, swapping the arguments negates the result. */
  lemma {:induction false} SwapNegates(f: Forest, sid1: StreamId, a: StreamId, sid2: StreamId, b: StreamId, n: nat)
    ensures Bounded(f, sid1, a, sid2, b, n) == -Bounded(f, sid2, b, sid1, a, n)
    decreases n
  {
    if n == 0 {
    } else {
      var pa, pb := Parent(f, a), Parent(f, b);
      if pa.Some? && pb.Some? && pa != pb {
        SwapNegates(f, sid1, pa.value, sid2, pb.value, n - 1);
      }
    }
  }

  lemma Irreflexive(f: Forest, a: StreamId)
    ensures Cmp(f, a, a) == 0
  {
    SwapNegates(f, a, a, a, a, LIMIT);
  }

  /** Within the limit the comparator is: depth first, then the weights where the branches part. */
  lemma CmpMeans(f: Forest, a: StreamId, b: StreamId) returns (i: nat)
    requires Acyclic(f) && !UndecidedFor(f, a, b, LIMIT)
    ensures Height(f, a) < Height(f, b) ==> Cmp(f, a, b) == -1
    ensures Height(f, a) > Height(f, b) ==> Cmp(f, a, b) == 1
    ensures Height(f, a) == Height(f, b) ==>
              MeetAt(f, a, b, i) && Cmp(f, a, b) == WeightAt(f, b, i) - WeightAt(f, a, i)
  {
    LoopRefinesRecursion(f, a, a, b, b, LIMIT);
    if Height(f, a) == Height(f, b) {
      i := Meet(f, a, b, 0);
      WeightDecides(f, a, a, b, b, i);
    } else {
      i := 0;
      DepthDecides(f, a, a, b, b);
    }
  }

  /** Parting at level i is enough: below it the walks cannot have met before. */
  lemma PartAt(f: Forest, a: StreamId, c: StreamId, i: nat)
    requires Up(f, a, i).Some? && Up(f, c, i).Some? && Up(f, a, i + 1) == Up(f, c, i + 1)
    requires i == 0 || Up(f, a, i) != Up(f, c, i)
    ensures MeetAt(f, a, c, i)
  {
    forall k: nat | 0 < k <= i ensures Up(f, a, k) != Up(f, c, k) {
      if Up(f, a, k) == Up(f, c, k) { UpStaysEqual(f, a, c, k, i); }
    }
  }

  /** a meets b below the level where b meets c: then a meets c where b does. */
  lemma MeetLater(f: Forest, a: StreamId, b: StreamId, c: StreamId, i: nat, j: nat)
    requires MeetAt(f, a, b, i) && MeetAt(f, b, c, j) && i < j
    ensures MeetAt(f, a, c, j) && Up(f, a, j) == Up(f, b, j)
  {
    hide Up;
    assert Up(f, b, j) != Up(f, c, j) && Up(f, b, j + 1) == Up(f, c, j + 1) && Up(f, c, j).Some?;
    assert Up(f, a, i + 1) == Up(f, b, i + 1);
    hide MeetAt;
    UpStaysEqual(f, a, b, i + 1, j);
    UpStaysEqual(f, a, b, i + 1, j + 1);
    PartAt(f, a, c, j);
  }

  lemma MeetSymmetric(f: Forest, a: StreamId, b: StreamId, i: nat)
    requires MeetAt(f, a, b, i)
    ensures MeetAt(f, b, a, i)
  {
  }

  /** The level where a and c part, from those of a, b and b, c. */
  lemma MeetOfThree(f: Forest, a: StreamId, b: StreamId, c: StreamId, i: nat, j: nat)
    requires MeetAt(f, a, b, i) && MeetAt(f, b, c, j)
    ensures i < j ==> MeetAt(f, a, c, j) && Up(f, a, j) == Up(f, b, j)
    ensures i > j ==> MeetAt(f, a, c, i) && Up(f, c, i) == Up(f, b, i)
    ensures i == j && (i == 0 || Up(f, a, i) != Up(f, c, i)) ==> MeetAt(f, a, c, i)
  {
    if i < j {
      MeetLater(f, a, b, c, i, j);
    } else if j < i {
      MeetSymmetric(f, a, b, i);
      MeetSymmetric(f, b, c, j);
      MeetLater(f, c, b, a, j, i);
      MeetSymmetric(f, c, a, i);
    } else if i == 0 || Up(f, a, i) != Up(f, c, i) {
      PartAt(f, a, c, i);
    }
  }

  // --------------------------------------- the order within and beyond the limit

  /** The first level, up to one past the limit, at which the walk from s has ended. */
  ghost function Reach(f: Forest, s: StreamId): (k: nat)
    ensures 0 < k <= LIMIT + 1
    ensures forall i: nat :: i < k ==> Up(f, s, i).Some?
    ensures k <= LIMIT ==> Up(f, s, k) == None
  {
    assert Up(f, s, 0) == Some(s);
    ReachFrom(f, s, 1)
  }

  ghost function ReachFrom(f: Forest, s: StreamId, n: nat): (k: nat)
    requires 0 < n <= LIMIT + 1 && forall i: nat :: i < n ==> Up(f, s, i).Some?
    ensures n <= k <= LIMIT + 1
    ensures forall i: nat :: i < k ==> Up(f, s, i).Some?
    ensures k <= LIMIT ==> Up(f, s, k) == None
    decreases LIMIT + 1 - n
  {
    if n == LIMIT + 1 || Up(f, s, n) == None then n else ReachFrom(f, s, n + 1)
  }

  /** On every forest a walk that ends within the limit, and before the other one, comes first. */
  lemma {:induction false} ShorterIsFirst(f: Forest, sid1: StreamId, a: StreamId,
                                          sid2: StreamId, b: StreamId, k: nat, n: nat)
    requires Up(f, a, k) == None && Up(f, b, k).Some? && k <= n
    ensures Bounded(f, sid1, a, sid2, b, n) == -1
    decreases n
  {
    var pa, pb := Parent(f, a), Parent(f, b);
    UpFront(f, a, k - 1);
    UpFront(f, b, k - 1);
    if pa == None {
    } else {
      ShorterIsFirst(f, sid1, pa.value, sid2, pb.value, k - 1, n - 1);
    }
  }

  /** Walks that agree at level m have met below it. */
  lemma {:induction false} MeetBelow(f: Forest, a: StreamId, b: StreamId, m: nat) returns (i: nat)
    requires m > 0 && Up(f, a, m) == Up(f, b, m) && Up(f, a, m - 1).Some? && Up(f, b, m - 1).Some?
    ensures i < m && MeetAt(f, a, b, i)
  {
    if m == 1 || Up(f, a, m - 1) != Up(f, b, m - 1) {
      i := m - 1;
      PartAt(f, a, b, i);
    } else {
      i := MeetBelow(f, a, b, m - 1);
    }
  }

  /** Streams that meet within the limit compare by weight, on every forest. */
  lemma MeetCompares(f: Forest, a: StreamId, b: StreamId, i: nat)
    requires MeetAt(f, a, b, i) && i < LIMIT
    ensures Cmp(f, a, b) == WeightAt(f, b, i) - WeightAt(f, a, i)
  {
    assert !Undecided(f, a, b, i);
    WeightDecides(f, a, a, b, b, i);
    LoopRefinesRecursion(f, a, a, b, b, LIMIT);
  }

  /** The two walks are equally long and agree at the limit, so that they meet within it. */
  ghost predicate Near(f: Forest, a: StreamId, b: StreamId) {
    Reach(f, a) == Reach(f, b) && Up(f, a, LIMIT) == Up(f, b, LIMIT)
  }

  /** The comparator on every forest: the shorter walk, else the weights, else the ids. */
  lemma CmpCases(f: Forest, a: StreamId, b: StreamId) returns (i: nat)
    ensures Reach(f, a) < Reach(f, b) ==> Cmp(f, a, b) == -1
    ensures Reach(f, a) > Reach(f, b) ==> Cmp(f, a, b) == 1
    ensures Near(f, a, b) ==> MeetAt(f, a, b, i) && i < LIMIT && Cmp(f, a, b) == WeightAt(f, b, i) - WeightAt(f, a, i)
    ensures Reach(f, a) == Reach(f, b) && !Near(f, a, b) ==> Cmp(f, a, b) == a - b && Reach(f, a) == LIMIT + 1
  {
    hide Up;
    var k, l := Reach(f, a), Reach(f, b);
    i := 0;
    if k < l {
      ShorterIsFirst(f, a, a, b, b, k, LIMIT);
    } else if l < k {
      ShorterIsFirst(f, b, b, a, a, l, LIMIT);
      SwapNegates(f, a, a, b, b, LIMIT);
    } else {
      if k <= LIMIT {
        UpStaysNone(f, a, k, LIMIT);
        UpStaysNone(f, b, k, LIMIT);
      }
      if Near(f, a, b) {
        i := MeetBelow(f, a, b, if k <= LIMIT then k else LIMIT);
        MeetCompares(f, a, b, i);
      } else {
        NeverMeet(f, a, b);
        LoopRefinesRecursion(f, a, a, b, b, LIMIT);
      }
    }
  }

  /** Walks that differ at the limit are undecided up to it. */
  lemma NeverMeet(f: Forest, a: StreamId, b: StreamId)
    requires Up(f, a, LIMIT).Some? && Up(f, b, LIMIT).Some? && Up(f, a, LIMIT) != Up(f, b, LIMIT)
    ensures UndecidedFor(f, a, b, LIMIT)
  {
    hide Up;
    forall i: nat | i < LIMIT ensures Undecided(f, a, b, i) {
      if Up(f, a, i + 1) == None { UpStaysNone(f, a, i + 1, LIMIT); }
      if Up(f, b, i + 1) == None { UpStaysNone(f, b, i + 1, LIMIT); }
      if Up(f, a, i + 1) == Up(f, b, i + 1) { UpStaysEqual(f, a, b, i + 1, LIMIT); }
    }
  }

  /** A stream and its ancestors, as the parent entries list them. */
  ghost predicate IsWalk(f: Forest, walk: seq<StreamId>) {
    walk != [] && forall i :: 0 <= i < |walk| - 1 ==> walk[i] in f.parent && f.parent[walk[i]] == walk[i + 1]
  }

  ghost predicate EndsInRoot(f: Forest, walk: seq<StreamId>)
    requires walk != []
  {
    walk[|walk| - 1] !in f.parent
  }

  lemma {:induction false} UpOnWalk(f: Forest, walk: seq<StreamId>, k: nat)
    requires IsWalk(f, walk) && k <= |walk|
    ensures k < |walk| ==> Up(f, walk[0], k) == Some(walk[k])
    ensures k == |walk| && EndsInRoot(f, walk) ==> Up(f, walk[0], k) == None
  {
    if k == 0 {
    } else {
      UpOnWalk(f, walk, k - 1);
    }
  }

  lemma ShorterWalkFirst(f: Forest, a: seq<StreamId>, b: seq<StreamId>)
    requires IsWalk(f, a) && EndsInRoot(f, a) && IsWalk(f, b) && |a| < |b| && |a| <= 1000
    ensures Cmp(f, a[0], b[0]) == -1
  {
    hide Up;
    UpOnWalk(f, a, |a|);
    UpOnWalk(f, b, |a|);
    ShorterIsFirst(f, a[0], a[0], b[0], b[0], |a|, LIMIT);
  }

  /** The i-th streams of the walks are siblings, or both roots, and no earlier ones are the same. */
  ghost predicate PartOnWalks(f: Forest, a: seq<StreamId>, b: seq<StreamId>, i: nat)
    requires a != [] && b != []
  {
    && i < |a| && i < |b| && (forall j :: 0 < j <= i ==> a[j] != b[j])
    && if i + 1 < |a| && i + 1 < |b| then a[i + 1] == b[i + 1]
       else |a| == |b| && EndsInRoot(f, a) && EndsInRoot(f, b)
  }

  lemma WalksMeet(f: Forest, a: seq<StreamId>, b: seq<StreamId>, i: nat)
    requires IsWalk(f, a) && IsWalk(f, b) && PartOnWalks(f, a, b, i) && i < 1000
    ensures Cmp(f, a[0], b[0]) == f.weight(b[i]) as int - f.weight(a[i]) as int
  {
    hide Up, Cmp;
    forall j: nat | j <= i ensures Up(f, a[0], j) == Some(a[j]) && Up(f, b[0], j) == Some(b[j]) {
      UpOnWalk(f, a, j);
      UpOnWalk(f, b, j);
    }
    UpOnWalk(f, a, i + 1);
    UpOnWalk(f, b, i + 1);
    MeetCompares(f, a[0], b[0], i);
  }

  lemma WalksBeyondLimit(f: Forest, a: seq<StreamId>, b: seq<StreamId>)
    requires IsWalk(f, a) && IsWalk(f, b) && |a| > 1000 && |b| > 1000 && a[1000] != b[1000]
    ensures Cmp(f, a[0], b[0]) == a[0] as int - b[0] as int
  {
    hide Up;
    UpOnWalk(f, a, LIMIT);
    UpOnWalk(f, b, LIMIT);
    NeverMeet(f, a[0], b[0]);
    LoopRefinesRecursion(f, a[0], a[0], b[0], b[0], LIMIT);
  }

  /**
   * The comparator by the entries of the parent map: the shorter of two walks to a root comes
   * first; else the weights decide where the walks part; and walks of more than 1000 streams
   * that are still apart there compare by id.
   */
  lemma CmpOfWalks(f: Forest, a: seq<StreamId>, b: seq<StreamId>, i: nat)
    requires IsWalk(f, a) && IsWalk(f, b)
    ensures EndsInRoot(f, a) && |a| < |b| && |a| <= 1000 ==> Cmp(f, a[0], b[0]) == -1
    ensures EndsInRoot(f, b) && |b| < |a| && |b| <= 1000 ==> Cmp(f, a[0], b[0]) == 1
    ensures PartOnWalks(f, a, b, i) && i < 1000 ==> Cmp(f, a[0], b[0]) == f.weight(b[i]) as int - f.weight(a[i]) as int
    ensures |a| > 1000 && |b| > 1000 && a[1000] != b[1000] ==> Cmp(f, a[0], b[0]) == a[0] as int - b[0] as int
  {
    hide PartOnWalks, Bounded;
    SwapNegates(f, a[0], a[0], b[0], b[0], LIMIT);
    if EndsInRoot(f, a) && |a| < |b| && |a| <= 1000 { ShorterWalkFirst(f, a, b); }
    if EndsInRoot(f, b) && |b| < |a| && |b| <= 1000 { ShorterWalkFirst(f, b, a); }
    if PartOnWalks(f, a, b, i) && i < 1000 { WalksMeet(f, a, b, i); }
    if |a| > 1000 && |b| > 1000 && a[1000] != b[1000] { WalksBeyondLimit(f, a, b); }
  }

  /** x and z part at level i, and x's branch is not the heavier one. */
  ghost predicate NotHeavier(f: Forest, x: StreamId, z: StreamId, i: nat) {
    MeetAt(f, x, z, i) && WeightAt(f, x, i) <= WeightAt(f, z, i)
  }

  /**
   * The id of y lies between those of x and z. All three walks go on to the limit; there x
   * and z have met, with x not in the heavier branch, and y is elsewhere.
   */
  ghost predicate Straddles(f: Forest, x: StreamId, y: StreamId, z: StreamId) {
    && x < y < z
    && Up(f, x, LIMIT).Some? && Up(f, y, LIMIT).Some?
    && Up(f, x, LIMIT) == Up(f, z, LIMIT) != Up(f, y, LIMIT)
    && exists i: nat :: NotHeavier(f, x, z, i)
  }

  lemma FullReach(f: Forest, s: StreamId)
    ensures Up(f, s, LIMIT).Some? <==> Reach(f, s) == LIMIT + 1
  {
    if Reach(f, s) <= LIMIT { UpStaysNone(f, s, Reach(f, s), LIMIT); }
  }

  /** A straddle breaks transitivity: x, y and y, z compare by id, but x does not come before z. */
  lemma StraddleBreaks(f: Forest, x: StreamId, y: StreamId, z: StreamId)
    requires Straddles(f, x, y, z)
    ensures !InOrder(f, x, y, z)
  {
    hide Up, Cmp;
    FullReach(f, x);
    FullReach(f, y);
    FullReach(f, z);
    var i := CmpCases(f, x, y);
    var j := CmpCases(f, y, z);
    var k := CmpCases(f, x, z);
    var n: nat :| NotHeavier(f, x, z, n);
    MeetIsUnique(f, x, z, k, n);
  }

  /** Three streams that meet within the limit are in order. */
  lemma NearInOrder(f: Forest, a: StreamId, b: StreamId, c: StreamId)
    requires Near(f, a, b) && Near(f, b, c)
    ensures InOrder(f, a, b, c)
  {
    hide Up, Cmp;
    var i := CmpCases(f, a, b);
    var j := CmpCases(f, b, c);
    var k := CmpCases(f, a, c);
    MeetOfThree(f, a, b, c, i, j);
    if Cmp(f, a, b) < 0 && Cmp(f, b, c) < 0 {
      if i == j { SiblingsDiffer(f, a, c, i); }
      MeetIsUnique(f, a, c, k, if i < j then j else i);
    }
  }

  lemma SiblingsDiffer(f: Forest, a: StreamId, c: StreamId, i: nat)
    requires Up(f, a, i).Some? && Up(f, c, i).Some? && WeightAt(f, a, i) != WeightAt(f, c, i)
    ensures Up(f, a, i) != Up(f, c, i)
  {
  }

  /** Any three streams are in order, unless one of them is straddled by the other two. */
  lemma InOrderUnlessStraddled(f: Forest, a: StreamId, b: StreamId, c: StreamId)
    ensures InOrder(f, a, b, c) || Straddles(f, a, b, c) || Straddles(f, b, c, a) || Straddles(f, c, a, b)
  {
    hide Up, Cmp, Near, MeetAt, WeightAt;
    if Cmp(f, a, b) < 0 && Cmp(f, b, c) < 0 && Cmp(f, a, c) >= 0 {
      var i := CmpCases(f, a, b);
      var j := CmpCases(f, b, c);
      var k := CmpCases(f, a, c);
      NearTops(f, a, b);
      NearTops(f, b, c);
      NearTops(f, a, c);
      NearTops(f, b, a);
      NearTops(f, c, a);
      NearTops(f, c, b);
      if Near(f, a, b) && Near(f, b, c) {
        NearInOrder(f, a, b, c);
      } else if Near(f, a, b) {
        Straddled(f, b, c, a, i);
      } else if Near(f, b, c) {
        Straddled(f, c, a, b, j);
      } else if Near(f, a, c) {
        Straddled(f, a, b, c, k);
      }
    }
  }

  lemma NearTops(f: Forest, a: StreamId, b: StreamId)
    requires Reach(f, a) == Reach(f, b)
    ensures Near(f, a, b) <==> Up(f, a, LIMIT) == Up(f, b, LIMIT)
    ensures Up(f, a, LIMIT).Some? <==> Reach(f, a) == LIMIT + 1
  {
    FullReach(f, a);
  }

  lemma Straddled(f: Forest, x: StreamId, y: StreamId, z: StreamId, i: nat)
    requires x < y < z && Near(f, x, z) && !Near(f, x, y) && Reach(f, x) == Reach(f, y) == LIMIT + 1
    requires MeetAt(f, x, z, i) || MeetAt(f, z, x, i)
    requires MeetAt(f, x, z, i) ==> WeightAt(f, x, i) <= WeightAt(f, z, i)
    requires MeetAt(f, z, x, i) ==> WeightAt(f, x, i) <= WeightAt(f, z, i)
    ensures Straddles(f, x, y, z)
  {
    FullReach(f, x);
    FullReach(f, y);
    if MeetAt(f, z, x, i) { MeetSymmetric(f, z, x, i); }
    assert NotHeavier(f, x, z, i);
  }

  ghost predicate TransitiveOn(f: Forest, streams: iset<StreamId>) {
    forall a: StreamId, b: StreamId, c: StreamId ::
      a in streams && b in streams && c in streams ==> InOrder(f, a, b, c)
  }

  /**
   * On every forest, deep or cyclic, and every set of streams in it: "comes first" is
   * transitive exactly when no stream of the set is straddled by two others.
   */
  lemma OrderExactly(f: Forest, streams: iset<StreamId>)
    ensures TransitiveOn(f, streams) <==>
            forall x: StreamId, y: StreamId, z: StreamId ::
              x in streams && y in streams && z in streams ==> !Straddles(f, x, y, z)
  {
    hide InOrder, Straddles;
    if TransitiveOn(f, streams) {
      forall x: StreamId, y: StreamId, z: StreamId | x in streams && y in streams && z in streams
        ensures !Straddles(f, x, y, z)
      {
        if Straddles(f, x, y, z) { StraddleBreaks(f, x, y, z); }
      }
    } else {
      var a: StreamId, b: StreamId, c: StreamId
        :| a in streams && b in streams && c in streams && !InOrder(f, a, b, c);
      InOrderUnlessStraddled(f, a, b, c);
    }
  }

  /** In particular it is transitive on streams whose comparisons all end within the limit. */
  lemma DecidedIsTransitive(f: Forest, a: StreamId, b: StreamId, c: StreamId)
    requires !UndecidedFor(f, a, b, LIMIT) && !UndecidedFor(f, b, c, LIMIT) && !UndecidedFor(f, a, c, LIMIT)
    ensures InOrder(f, a, b, c)
  {
    InOrderUnlessStraddled(f, a, b, c);
    if Straddles(f, a, b, c) {
      NeverMeet(f, a, b);
    } else if Straddles(f, b, c, a) {
      NeverMeet(f, b, c);
    } else if Straddles(f, c, a, b) {
      NeverMeet(f, a, b);
    }
  }

  /** A chain of any depth is in order: no two of its streams meet at the limit. */
  lemma ChainInOrder(f: Forest, s: StreamId)
    requires Acyclic(f)
    ensures TransitiveOn(f, iset t: StreamId | OnChain(f, s, t))
  {
    hide Up;
    var chain := iset t: StreamId | OnChain(f, s, t);
    forall x: StreamId, y: StreamId, z: StreamId | x in chain && y in chain && z in chain
      ensures !Straddles(f, x, y, z)
    {
      var p: nat :| Up(f, s, p) == Some(x);
      var q: nat :| Up(f, s, q) == Some(z);
      if Straddles(f, x, y, z) {
        if p < q { NoMeeting(f, s, p, q); } else { NoMeeting(f, s, q, p); }
      }
    }
    OrderExactly(f, chain);
  }

  ghost predicate OnChain(f: Forest, s: StreamId, t: StreamId) {
    exists p: nat :: Up(f, s, p) == Some(t)
  }

  lemma NoMeeting(f: Forest, s: StreamId, p: nat, q: nat)
    requires Acyclic(f) && p < q && Up(f, s, q).Some? && Up(f, s, p).Some?
    requires Up(f, Up(f, s, p).value, LIMIT).Some?
    ensures Up(f, Up(f, s, p).value, LIMIT) != Up(f, Up(f, s, q).value, LIMIT)
  {
    hide Up;
    var t := Up(f, Up(f, s, p).value, LIMIT).value;
    UpCompose(f, s, p, LIMIT);
    UpCompose(f, s, q, LIMIT);
    UpCompose(f, s, p + LIMIT, q - p);
    assert Up(f, t, q - p) != Some(t);
  }

  // --------------------------------------------- the limit is exactly the bound

  /** The walk from s has at most h streams and ends in stream 0, the root of the dependency tree. */
  ghost predicate RootedWithin(f: Forest, s: StreamId, h: nat)
    requires Acyclic(f)
  {
    Height(f, s) <= h && Up(f, s, Height(f, s) - 1) == Some(0)
  }

  ghost predicate RootedTransitive(f: Forest, h: nat)
    requires Acyclic(f)
  {
    forall a: StreamId, b: StreamId, c: StreamId ::
      RootedWithin(f, a, h) && RootedWithin(f, b, h) && RootedWithin(f, c, h) ==> InOrder(f, a, b, c)
  }

  /** The common root gives one level more than the limit. */
  lemma RootedIsDecided(f: Forest, a: StreamId, b: StreamId)
    requires Acyclic(f) && RootedWithin(f, a, LIMIT + 1) && RootedWithin(f, b, LIMIT + 1)
    ensures !UndecidedFor(f, a, b, LIMIT)
  {
    if Height(f, a) <= LIMIT || Height(f, b) <= LIMIT {
      ShallowIsDecided(f, a, b, LIMIT);
    } else {
      assert !Undecided(f, a, b, LIMIT - 1);
    }
  }

  /**
   * Two chains of client streams, 3-7-11-...-4003 and 5-9-13-...-4005, and stream 1 as a
   * second child of 4001, lighter than its sibling 4005. When rooted, 3 and 5 depend on
   * stream 0; otherwise both are roots.
   */
  ghost function Twins(rooted: bool): Forest {
    Forest(map i: StreamId | 1 <= i <= 4005 && Linked(i, rooted) :: TwinParent(i),
           (s: StreamId) => if s == 1 then 1 else 16)
  }

  ghost predicate Linked(i: StreamId, rooted: bool) {
    i % 2 == 1 && (rooted || (i != 3 && i != 5))
  }

  ghost function TwinParent(i: StreamId): StreamId {
    if i == 1 then 4001 else if i <= 5 then 0 else i - 4
  }

  ghost predicate OnTwin(s: StreamId) {
    3 <= s <= 4005 && s % 2 == 1
  }

  lemma TwinParents(rooted: bool, s: StreamId)
    ensures OnTwin(s) && s > 5 ==> Parent(Twins(rooted), s) == Some(s - 4)
    ensures s == 3 || s == 5 ==> Parent(Twins(rooted), s) == if rooted then Some(0) else None
    ensures s == 1 ==> Parent(Twins(rooted), s) == Some(4001)
    ensures s != 1 && !OnTwin(s) ==> Parent(Twins(rooted), s) == None
  {
  }

  lemma {:induction false} TwinUp(rooted: bool, s: StreamId, k: nat)
    requires OnTwin(s)
    ensures Up(Twins(rooted), s, k) ==
            if s - 4 * k >= 3 then Some(s - 4 * k) else if rooted && s - 4 * k >= -1 then Some(0) else None
  {
    if k == 0 {
    } else {
      TwinUp(rooted, s, k - 1);
      var at := s - 4 * (k - 1);
      if at >= 3 { TwinParents(rooted, at); } else { TwinParents(rooted, 0); }
    }
  }

  lemma TwinsAcyclic(rooted: bool)
    ensures Acyclic(Twins(rooted))
  {
    var f := Twins(rooted);
    forall s: StreamId, k: nat | k > 0 ensures Up(f, s, k) != Some(s) {
      TwinParents(rooted, s);
      UpFront(f, s, k - 1);
      if OnTwin(s) {
        TwinUp(rooted, s, k);
      } else if s == 1 {
        TwinUp(rooted, 4001, k - 1);
      }
    }
  }

  /** Without the common root no walk has more than 1001 streams. */
  lemma TwinsShallow()
    ensures Shallow(Twins(false), LIMIT + 1)
  {
    var f := Twins(false);
    TwinsAcyclic(false);
    forall s: StreamId ensures Height(f, s) <= LIMIT + 1 {
      TwinParents(false, s);
      UpFront(f, s, LIMIT);
      if OnTwin(s) {
        TwinUp(false, s, LIMIT + 1);
      } else if s == 1 {
        TwinUp(false, 4001, LIMIT);
      }
      assert Up(f, s, LIMIT + 1) == None;
    }
  }

  lemma TwinsRooted(s: StreamId)
    requires s == 1 || s == 4003 || s == 4005
    ensures Acyclic(Twins(true)) && RootedWithin(Twins(true), s, LIMIT + 2)
  {
    var f := Twins(true);
    TwinsAcyclic(true);
    TwinParents(true, s);
    UpFront(f, s, LIMIT);
    UpFront(f, s, LIMIT + 1);
    if s == 1 {
      TwinUp(true, 4001, LIMIT);
      TwinUp(true, 4001, LIMIT + 1);
    } else {
      TwinUp(true, s, LIMIT + 1);
      TwinUp(true, s, LIMIT + 2);
    }
    assert Up(f, s, LIMIT + 1) == Some(0) && Up(f, s, LIMIT + 2) == None;
    assert Height(f, s) == LIMIT + 2;
  }

  lemma {:induction false} TwinsUndecided(rooted: bool, sid1: StreamId, a: StreamId,
                                          sid2: StreamId, b: StreamId, n: nat)
    requires OnTwin(a) && OnTwin(b) && a != b && 4 * n + 3 <= a && 4 * n + 3 <= b
    ensures Bounded(Twins(rooted), sid1, a, sid2, b, n) == sid1 - sid2
    decreases n
  {
    hide Twins;
    if n == 0 {
    } else {
      TwinParents(rooted, a);
      TwinParents(rooted, b);
      TwinsUndecided(rooted, sid1, a - 4, sid2, b - 4, n - 1);
    }
  }

  /** With or without the common root the id fallback makes the relation circular: 4003, 4005, 1, 4003. */
  lemma TwinsCircular(rooted: bool)
    ensures var f := Twins(rooted);
            Cmp(f, 4003, 4005) < 0 && Cmp(f, 4005, 1) < 0 && Cmp(f, 1, 4003) < 0 && !InOrder(f, 4003, 4005, 1)
  {
    TwinsUndecided(rooted, 4003, 4003, 4005, 4005, LIMIT);
    TwinParents(rooted, 4003);
    TwinParents(rooted, 4005);
    TwinParents(rooted, 1);
    assert Cmp(Twins(rooted), 4005, 1) == 1 - 16;
    TwinsUndecided(rooted, 1, 4001, 4003, 3999, LIMIT - 1);
    SwapNegates(Twins(rooted), 1, 1, 4003, 4003, LIMIT);
  }

  /**
   * The bound for HTTP/2: over all dependency trees, the order of the streams whose walk to
   * stream 0 has at most h streams is transitive exactly for h up to 1001.
   */
  lemma RootedTransitiveExactly(h: nat)
    ensures (forall f: Forest :: Acyclic(f) && 0 !in f.parent ==> RootedTransitive(f, h)) <==> h <= LIMIT + 1
  {
    hide Cmp, Twins;
    if h <= LIMIT + 1 {
      forall f: Forest | Acyclic(f) && 0 !in f.parent ensures RootedTransitive(f, h) {
        RootedIsTransitive(f, h);
      }
    } else {
      TwinsRooted(4003);
      TwinsRooted(4005);
      TwinsRooted(1);
      TwinsCircular(true);
      TwinsKeepRoot();
      assert !RootedTransitive(Twins(true), h);
    }
  }

  lemma TwinsKeepRoot()
    ensures 0 !in Twins(true).parent
  {
  }

  lemma RootedIsTransitive(f: Forest, h: nat)
    requires Acyclic(f) && h <= LIMIT + 1
    ensures RootedTransitive(f, h)
  {
    forall a: StreamId, b: StreamId, c: StreamId
      | RootedWithin(f, a, h) && RootedWithin(f, b, h) && RootedWithin(f, c, h)
      ensures InOrder(f, a, b, c)
    {
      RootedIsDecided(f, a, b);
      RootedIsDecided(f, b, c);
      RootedIsDecided(f, a, c);
      DecidedIsTransitive(f, a, b, c);
    }
  }

  /**
   * The bound for arbitrary forests, in which the compared streams need not have a common
   * root: it is one less.
   */
  lemma TransitiveExactlyUpToLimit(h: nat)
    ensures (forall f: Forest :: Shallow(f, h) ==> Transitive(f)) <==> h <= LIMIT
  {
    hide Cmp, Twins;
    if h <= LIMIT {
      forall f: Forest | Shallow(f, h) ensures Transitive(f) {
        ShallowIsTransitive(f);
      }
    } else {
      TwinsShallow();
      TwinsCircular(false);
      assert Shallow(Twins(false), h);
      assert !Transitive(Twins(false));
    }
  }

  /** "Comes first" is transitive when every stream is within 1000 nodes of its root. */
  lemma ShallowIsTransitive(f: Forest)
    requires Shallow(f, LIMIT)
    ensures Transitive(f)
  {
    forall a: StreamId, b: StreamId, c: StreamId ensures InOrder(f, a, b, c) {
      ShallowIsDecided(f, a, b, LIMIT);
      ShallowIsDecided(f, b, c, LIMIT);
      ShallowIsDecided(f, a, c, LIMIT);
      DecidedIsTransitive(f, a, b, c);
    }
  }

  /** No comparison reaches the limit. */
  ghost predicate Settled(f: Forest) {
    forall a: StreamId, b: StreamId :: !UndecidedFor(f, a, b, LIMIT)
  }

  /** Mixed forests of depth 1000, or 1001 for streams below stream 0, are settled and so in order. */
  lemma SettledForests(f: Forest)
    requires Acyclic(f)
    requires forall s: StreamId :: Height(f, s) <= LIMIT || RootedWithin(f, s, LIMIT + 1)
    ensures Settled(f) && Transitive(f)
  {
    hide Bounded, InOrder;
    forall a: StreamId, b: StreamId ensures !UndecidedFor(f, a, b, LIMIT) {
      if Height(f, a) <= LIMIT || Height(f, b) <= LIMIT {
        ShallowIsDecided(f, a, b, LIMIT);
      } else {
        RootedIsDecided(f, a, b);
      }
    }
    forall a: StreamId, b: StreamId, c: StreamId ensures InOrder(f, a, b, c) {
      DecidedIsTransitive(f, a, b, c);
    }
  }

  // ------------------------------------------------------------------- ties

  ghost predicate TiesTransitive(f: Forest, streams: iset<StreamId>) {
    forall a: StreamId, b: StreamId, c: StreamId ::
      a in streams && b in streams && c in streams && Cmp(f, a, b) == 0 && Cmp(f, b, c) == 0 ==> Cmp(f, a, c) == 0
  }

  /**
   * a and b sit in two branches of equal weight; c is in a's branch, but a and c part
   * further down, at level j, into branches of different weight.
   */
  ghost predicate SplitTie(f: Forest, a: StreamId, b: StreamId, c: StreamId, i: nat, j: nat) {
    && MeetAt(f, a, b, i) && WeightAt(f, a, i) == WeightAt(f, b, i)
    && j < i && MeetAt(f, a, c, j) && WeightAt(f, a, j) != WeightAt(f, c, j)
  }

  /**
   * On every forest, deep or cyclic, and every set of streams in it: result 0 is transitive
   * exactly when no tie within the limit is split. (Different streams never tie by their ids.)
   */
  lemma TiesTransitiveExactly(f: Forest, streams: iset<StreamId>)
    ensures TiesTransitive(f, streams) <==>
            forall a: StreamId, b: StreamId, c: StreamId, i: nat, j: nat ::
              a in streams && b in streams && c in streams && i < LIMIT ==> !SplitTie(f, a, b, c, i, j)
  {
    hide Cmp, SplitTie;
    if TiesTransitive(f, streams) {
      forall a: StreamId, b: StreamId, c: StreamId, i: nat, j: nat
        | a in streams && b in streams && c in streams && i < LIMIT
        ensures !SplitTie(f, a, b, c, i, j)
      {
        if SplitTie(f, a, b, c, i, j) { SplitTieBreaks(f, a, b, c, i, j); }
      }
    } else {
      var a: StreamId, b: StreamId, c: StreamId
        :| a in streams && b in streams && c in streams && Cmp(f, a, b) == 0 && Cmp(f, b, c) == 0 && Cmp(f, a, c) != 0;
      var i, j := BrokenTieIsSplit(f, a, b, c);
    }
  }

  lemma SplitTieBreaks(f: Forest, a: StreamId, b: StreamId, c: StreamId, i: nat, j: nat)
    requires i < LIMIT && SplitTie(f, a, b, c, i, j)
    ensures Cmp(f, a, b) == 0 && Cmp(f, b, c) == 0 && Cmp(f, a, c) != 0
  {
    hide Cmp, Up;
    MeetCompares(f, a, b, i);
    MeetCompares(f, a, c, j);
    MeetSymmetric(f, a, b, i);
    MeetOfThree(f, b, a, c, i, j);
    MeetCompares(f, b, c, i);
  }

  /** A result of 0 comes from two branches of equal weight that meet within the limit. */
  lemma TieMeets(f: Forest, a: StreamId, b: StreamId) returns (i: nat)
    requires Cmp(f, a, b) == 0
    ensures i < LIMIT && MeetAt(f, a, b, i) && WeightAt(f, a, i) == WeightAt(f, b, i)
  {
    hide Cmp;
    i := CmpCases(f, a, b);
    assert Near(f, a, b);
  }

  lemma BrokenTieIsSplit(f: Forest, a: StreamId, b: StreamId, c: StreamId) returns (i: nat, k: nat)
    requires Cmp(f, a, b) == 0 && Cmp(f, b, c) == 0 && Cmp(f, a, c) != 0
    ensures i < LIMIT && SplitTie(f, a, b, c, i, k)
  {
    hide Cmp, Up;
    i := TieMeets(f, a, b);
    var j := TieMeets(f, b, c);
    MeetOfThree(f, a, b, c, i, j);
    if i != j || i == 0 || Up(f, a, i) != Up(f, c, i) {
      MeetCompares(f, a, c, if i < j then j else i);
      assert false;
    }
    k := MeetWithin(f, a, c, i);
    MeetCompares(f, a, c, k);
  }

  lemma MeetWithin(f: Forest, a: StreamId, c: StreamId, i: nat) returns (k: nat)
    requires i > 0 && Up(f, a, i) == Up(f, c, i) && Up(f, a, i).Some?
    ensures k < i && MeetAt(f, a, c, k)
  {
    k := MeetBelow(f, a, c, i);
  }
}
