/** One rendered roadmap node: its position label, its colour, the paths it
    hands to its children and to the view's handlers, and the flags its
    gestures toggle. */
module RoadmapNode {
  import opened Wrappers
  import opened Steps
  import opened TreeEdits
  import opened RoadmapView

  // ---------------------------------------------------------------------
  // Depth and colour

  /** The palette, cycled by depth. */
  const Colors: seq<string> :=
    ["bg-blue-500", "bg-green-500", "bg-purple-500", "bg-pink-500", "bg-orange-500"]

  /** A node's depth: 0 for a top-level step. */
  function Depth(path: Path): int
  {
    |path| - 1
  }

  /** JavaScript's %, which truncates toward zero: the remainder takes the
      sign of the dividend. */
  function JsRem(a: int, b: int): int
    requires b != 0
  {
    var m := (if a < 0 then -a else a) % (if b < 0 then -b else b);
    if a < 0 then -m else m
  }

  /** The palette index of a node's colour. For every path a node can have
      (length at least one) it is a valid index; the empty path would give
      -1, which the palette does not hold. */
  function ColorIndex(path: Path): (k: int)
    ensures |path| > 0 ==> 0 <= k < |Colors|
    ensures |path| == 0 ==> k == -1
    ensures |path| > 0 ==> k == Depth(path) % |Colors|
  {
    JsRem(Depth(path), |Colors|)
  }

  /** The path a node hands to its child at position index. */
  function ChildPath(path: Path, index: nat): (child: Path)
    ensures IsPrefix(path, child) && |child| == |path| + 1 && child[|path|] == index
  {
    path + [index]
  }

  /** A child sits one level deeper and, below the top level, takes the
      next colour of the palette; its path addresses exactly the child step. */
  lemma ChildPathAddressesChild(r: seq<Step>, path: Path, index: nat)
    requires Addresses(r, path) && index < |At(r, path).subSteps|
    ensures Depth(ChildPath(path, index)) == Depth(path) + 1
    ensures ColorIndex(ChildPath(path, index)) == (ColorIndex(path) + 1) % |Colors|
    ensures Addresses(r, ChildPath(path, index))
    ensures At(r, ChildPath(path, index)) == At(r, path).subSteps[index]
  {
    AtViaLevel(r, path);
    WalkSnoc(r, path, index);
    var child := ChildPath(path, index);
    assert Parent(child) == path && Last(child) == index;
    AtViaLevel(r, child);
    assert ColorIndex(child) == (ColorIndex(path) + 1) % |Colors| by {
      var d := |path| - 1;
      assert Depth(child) == d + 1;
      NextColor(d);
    }
  }

  /** One level deeper is the next colour of the palette, cyclically. */
  lemma NextColor(d: nat)
    ensures JsRem(d + 1, |Colors|) == (JsRem(d, |Colors|) + 1) % |Colors|
  {
    assert |Colors| == 5;
    assert JsRem(d + 1, 5) == (d + 1) % 5;
    assert JsRem(d, 5) == d % 5;
  }

  // ---------------------------------------------------------------------
  // Position labels

  function DigitChar(d: nat): char
    requires d < 10
  {
    (48 + d) as char
  }

  predicate IsDigit(c: char)
  {
    48 <= c as int <= 57
  }

  /** Number.prototype.toString for a non-negative integer: its decimal
      digits, most significant first. */
  function Decimal(n: nat): (s: string)
    ensures |s| > 0 && forall i | 0 <= i < |s| :: IsDigit(s[i])
    ensures |s| == 1 <==> n < 10
    ensures s[0] == '0' <==> n == 0
    ensures |s| > 1 ==> s[0] != '0'
  {
    if n < 10 then [DigitChar(n)] else Decimal(n / 10) + [DigitChar(n % 10)]
  }

  /** The value a string of decimal digits denotes. */
  function DigitsValue(s: string): nat
    requires forall i | 0 <= i < |s| :: IsDigit(s[i])
  {
    if s == [] then 0
    else
      assert IsDigit(s[|s| - 1]);
      DigitsValue(s[..|s| - 1]) * 10 + (s[|s| - 1] as int - 48)
  }

  /** Reading back the digits Decimal writes gives n. */
  lemma {:induction false} DecimalRoundTrip(n: nat)
    ensures DigitsValue(Decimal(n)) == n
  {
    if n >= 10 {
      DecimalRoundTrip(n / 10);
      var s := Decimal(n);
      assert s[..|s| - 1] == Decimal(n / 10);
    }
  }

  /** Array.prototype.join with "." as separator. */
  function JoinDots(segments: seq<string>): string
  {
    if |segments| == 0 then ""
    else if |segments| == 1 then segments[0]
    else segments[0] + "." + JoinDots(segments[1..])
  }

  /** String.prototype.split on "."; the inverse of JoinDots for segments
      without dots. */
  function SplitDots(s: string): (parts: seq<string>)
    ensures |parts| > 0
  {
    if s == [] then [[]]
    else
      var rest := SplitDots(s[1..]);
      if s[0] == '.' then [[]] + rest else [[s[0]] + rest[0]] + rest[1..]
  }

  /** The 1-based indices of a path, each written in decimal. */
  function OneBased(path: Path): seq<string>
  {
    seq(|path|, k requires 0 <= k < |path| => Decimal(path[k] + 1))
  }

  /** getNodeNumber: a top-level path [i] is labelled with i + 1 written
      out; a longer path with its 1-based indices joined by ".". */
  function NodeNumber(path: Path): string
  {
    if |path| == 1 then Decimal(path[0] + 1) else JoinDots(OneBased(path))
  }

  /** Reads a label back into the path it was made from: split at the dots,
      read each part as a positive decimal number and subtract one. */
  function ParseNodeNumber(text: string): Option<Path>
  {
    var parts := SplitDots(text);
    if forall k | 0 <= k < |parts| ::
         |parts[k]| > 0 && (forall i | 0 <= i < |parts[k]| :: IsDigit(parts[k][i])) &&
         DigitsValue(parts[k]) >= 1
    then Some(seq(|parts|, k requires 0 <= k < |parts| => DigitsValue(parts[k]) - 1))
    else None
  }

  /** Split undoes a dot-free prefix: the prefix ends up at the front of
      the first part. */
  lemma {:induction false} SplitDotFree(a: string, t: string)
    requires forall i | 0 <= i < |a| :: a[i] != '.'
    ensures SplitDots(a + t) == [a + SplitDots(t)[0]] + SplitDots(t)[1..]
    decreases a
  {
    if a != [] {
      assert (a + t)[0] == a[0] && (a + t)[1..] == a[1..] + t;
      SplitDotFree(a[1..], t);
      assert [a[0]] + (a[1..] + SplitDots(t)[0]) == a + SplitDots(t)[0];
    } else {
      assert a + t == t;
      assert SplitDots(t) == [SplitDots(t)[0]] + SplitDots(t)[1..];
      assert a + SplitDots(t)[0] == SplitDots(t)[0];
    }
  }

  /** Splitting a join of dot-free segments gives the segments back. */
  lemma {:induction false} SplitJoin(segments: seq<string>)
    requires |segments| > 0
    requires forall k, i | 0 <= k < |segments| && 0 <= i < |segments[k]| :: segments[k][i] != '.'
    ensures SplitDots(JoinDots(segments)) == segments
    decreases |segments|
  {
    if |segments| == 1 {
      SplitDotFree(segments[0], []);
      assert segments[0] + [] == segments[0];
      assert SplitDots([]) == [[]];
    } else {
      var tail := JoinDots(segments[1..]);
      SplitJoin(segments[1..]);
      assert segments[0] + "." + tail == segments[0] + ("." + tail);
      SplitDotFree(segments[0], "." + tail);
      assert ("." + tail)[0] == '.' && ("." + tail)[1..] == tail;
      assert SplitDots("." + tail) == [[]] + SplitDots(tail);
      assert segments[0] + [] == segments[0];
      assert segments == [segments[0]] + segments[1..];
    }
  }

  /** Both branches of getNodeNumber agree: the special case for a
      top-level path writes the same label as the join. */
  lemma NodeNumberIsJoin(path: Path)
    ensures NodeNumber(path) == JoinDots(OneBased(path))
  {
  }

  /** The label of a path of length one is the decimal form of its index
      plus one; longer labels hold one dot fewer than the path has indices. */
  lemma NodeNumberTopLevel(i: nat)
    ensures NodeNumber([i]) == Decimal(i + 1)
    ensures DigitsValue(NodeNumber([i])) == i + 1
  {
    DecimalRoundTrip(i + 1);
  }

  /** A label reads back as the path it labels, so two different paths never
      get the same label (the empty path, which no node has, reads as none). */
  lemma NodeNumberRoundTrip(path: Path)
    ensures ParseNodeNumber(NodeNumber(path)) == if path == [] then None else Some(path)
  {
    NodeNumberIsJoin(path);
    var segments := OneBased(path);
    forall k | 0 <= k < |segments|
      ensures |segments[k]| > 0 && forall i | 0 <= i < |segments[k]| :: IsDigit(segments[k][i])
      ensures DigitsValue(segments[k]) == path[k] + 1
    {
      DecimalRoundTrip(path[k] + 1);
    }
    if path == [] {
      assert SplitDots(NodeNumber(path)) == [[]];
      assert |SplitDots(NodeNumber(path))[0]| == 0;
    } else {
      SplitJoin(segments);
      var parsed := seq(|segments|, k requires 0 <= k < |segments| => DigitsValue(segments[k]) - 1);
      assert parsed == path;
    }
  }

  /** Distinct paths get distinct labels. */
  lemma NodeNumberInjective(a: Path, b: Path)
    requires NodeNumber(a) == NodeNumber(b)
    ensures a == b
  {
    NodeNumberRoundTrip(a);
    NodeNumberRoundTrip(b);
  }

  // ---------------------------------------------------------------------
  // The paths the nodes render with

  /** The paths a node and its descendants render with, in render order:
      the node's own path, then for each child in order the paths of the
      child's node, which receives ChildPath(path, index). */
  function SubtreePaths(path: Path, s: Step): seq<Path>
    decreases s, 1
  {
    [path] + ChildrenPaths(path, s.subSteps, 0)
  }

  /** The paths rendered for kids[from..], the children of the node at path. */
  function ChildrenPaths(path: Path, kids: seq<Step>, from: nat): seq<Path>
    decreases kids, 0, |kids| - from
  {
    if from >= |kids| then []
    else SubtreePaths(ChildPath(path, from), kids[from]) + ChildrenPaths(path, kids, from + 1)
  }

  /** The view renders top-level step index with path [index], that is,
      as a child of the empty path. */
  function RenderedPaths(r: seq<Step>): seq<Path>
  {
    ChildrenPaths([], r, 0)
  }

  /** Every path rendered below the node at path extends it and addresses,
      relative to it, one of its descendants. */
  lemma {:induction false} SubtreePathsValid(path: Path, s: Step)
    ensures forall p | p in SubtreePaths(path, s) ::
              p == path || (|path| < |p| && p[..|path|] == path && Addresses(s.subSteps, p[|path|..]))
    decreases s, 1
  {
    ChildrenPathsValid(path, s.subSteps, 0);
  }

  lemma {:induction false} ChildrenPathsValid(path: Path, kids: seq<Step>, from: nat)
    ensures forall p | p in ChildrenPaths(path, kids, from) ::
              |path| < |p| && p[..|path|] == path && from <= p[|path|] && Addresses(kids, p[|path|..])
    decreases kids, 0, |kids| - from
  {
    if from < |kids| {
      var child := ChildPath(path, from);
      SubtreePathsValid(child, kids[from]);
      ChildrenPathsValid(path, kids, from + 1);
      forall p | p in SubtreePaths(child, kids[from])
        ensures |path| < |p| && p[..|path|] == path && from <= p[|path|] && Addresses(kids, p[|path|..])
      {
        var t := p[|child|..];
        assert p[..|child|] == child;
        assert p[..|path|] == child[..|path|] == path;
        assert p[|path|..] == [from] + t;
        assert ([from] + t)[0] == from && ([from] + t)[1..] == t;
        assert WalkValid(kids, [from] + t);
      }
    }
  }

  /** Every node below the node at path is rendered, with its path. */
  lemma {:induction false} ChildrenPathsComplete(path: Path, kids: seq<Step>, from: nat, s: Path)
    requires Addresses(kids, s) && from <= s[0]
    ensures path + s in ChildrenPaths(path, kids, from)
    decreases kids, 0, |kids| - from
  {
    var child := ChildPath(path, from);
    if s[0] == from {
      if |s| == 1 {
        assert path + s == child;
      } else {
        assert s == [s[0]] + s[1..];
        ChildrenPathsComplete(child, kids[from].subSteps, 0, s[1..]);
        assert child + s[1..] == path + s;
      }
    } else {
      ChildrenPathsComplete(path, kids, from + 1, s);
    }
  }

  /** One rendered path per node. */
  lemma {:induction false} ChildrenPathsCount(path: Path, kids: seq<Step>, from: nat)
    requires from <= |kids|
    ensures |ChildrenPaths(path, kids, from)| == Count(kids[from..])
    decreases kids, 0, |kids| - from
  {
    if from < |kids| {
      ChildrenPathsCount(ChildPath(path, from), kids[from].subSteps, 0);
      ChildrenPathsCount(path, kids, from + 1);
      assert kids[from].subSteps[0..] == kids[from].subSteps;
      assert kids[from..][0] == kids[from] && kids[from..][1..] == kids[from + 1..];
    } else {
      assert kids[from..] == [];
    }
  }

  /** Pre-order on paths: a comes before b when a is a proper prefix of b,
      or at the first index where they differ a's index is smaller. */
  predicate Precedes(a: Path, b: Path)
    decreases |a|
  {
    if a == [] then b != []
    else b != [] && (a[0] < b[0] || (a[0] == b[0] && Precedes(a[1..], b[1..])))
  }

  predicate InPreorder(ps: seq<Path>)
  {
    forall i, j | 0 <= i < j < |ps| :: Precedes(ps[i], ps[j])
  }

  lemma {:induction false} PrecedesIrreflexive(a: Path)
    ensures !Precedes(a, a)
    decreases |a|
  {
    if a != [] {
      PrecedesIrreflexive(a[1..]);
    }
  }

  lemma {:induction false} PrecedesUnderPrefix(base: Path, u: Path, v: Path)
    ensures Precedes(base + u, base + v) <==> Precedes(u, v)
    decreases |base|
  {
    if base != [] {
      assert (base + u)[0] == base[0] && (base + u)[1..] == base[1..] + u;
      assert (base + v)[0] == base[0] && (base + v)[1..] == base[1..] + v;
      PrecedesUnderPrefix(base[1..], u, v);
    } else {
      assert base + u == u && base + v == v;
    }
  }

  lemma ConcatPreorder(a: seq<Path>, b: seq<Path>)
    requires InPreorder(a) && InPreorder(b)
    requires forall x, y | x in a && y in b :: Precedes(x, y)
    ensures InPreorder(a + b)
  {
    forall i, j | 0 <= i < j < |a + b|
      ensures Precedes((a + b)[i], (a + b)[j])
    {
      if j < |a| {
        assert (a + b)[i] == a[i] && (a + b)[j] == a[j];
      } else if i >= |a| {
        assert (a + b)[i] == b[i - |a|] && (a + b)[j] == b[j - |a|];
      } else {
        assert (a + b)[i] == a[i] && (a + b)[j] == b[j - |a|];
      }
    }
  }

  lemma {:induction false} SubtreePathsPreorder(path: Path, s: Step)
    ensures InPreorder(SubtreePaths(path, s))
    decreases s, 1
  {
    var kids := ChildrenPaths(path, s.subSteps, 0);
    ChildrenPathsPreorder(path, s.subSteps, 0);
    ChildrenPathsValid(path, s.subSteps, 0);
    forall x, y | x in [path] && y in kids
      ensures Precedes(x, y)
    {
      var t := y[|path|..];
      assert y == path + t && path == path + [];
      PrecedesUnderPrefix(path, [], t);
    }
    ConcatPreorder([path], kids);
  }

  lemma {:induction false} ChildrenPathsPreorder(path: Path, kids: seq<Step>, from: nat)
    ensures InPreorder(ChildrenPaths(path, kids, from))
    decreases kids, 0, |kids| - from
  {
    if from < |kids| {
      var child := ChildPath(path, from);
      var first := SubtreePaths(child, kids[from]);
      var rest := ChildrenPaths(path, kids, from + 1);
      SubtreePathsPreorder(child, kids[from]);
      ChildrenPathsPreorder(path, kids, from + 1);
      SubtreeBeforeSiblings(path, kids, from);
      ConcatPreorder(first, rest);
    }
  }

  /** Every path of the subtree at child from precedes every path of the
      later siblings' subtrees. */
  lemma SubtreeBeforeSiblings(path: Path, kids: seq<Step>, from: nat)
    requires from < |kids|
    ensures forall x, y | x in SubtreePaths(ChildPath(path, from), kids[from]) &&
                          y in ChildrenPaths(path, kids, from + 1) :: Precedes(x, y)
  {
    var child := ChildPath(path, from);
    SubtreePathsValid(child, kids[from]);
    ChildrenPathsValid(path, kids, from + 1);
    forall x, y | x in SubtreePaths(child, kids[from]) && y in ChildrenPaths(path, kids, from + 1)
      ensures Precedes(x, y)
    {
      assert |child| <= |x| && x[..|child|] == child;
      assert x[..|path|] == x[..|child|][..|path|] && x[|path|] == x[..|child|][|path|];
      SiblingBranchesPrecede(path, x, y);
    }
  }

  /** Two paths below path whose indices at the next level are increasing
      are in pre-order. */
  lemma SiblingBranchesPrecede(path: Path, x: Path, y: Path)
    requires |path| < |x| && x[..|path|] == path
    requires |path| < |y| && y[..|path|] == path && x[|path|] < y[|path|]
    ensures Precedes(x, y)
  {
    var u, v := x[|path|..], y[|path|..];
    assert x == path + u && y == path + v;
    assert u[0] == x[|path|] && v[0] == y[|path|];
    PrecedesUnderPrefix(path, u, v);
  }

  /** The block the print rendering writes for step s at depth d. */
  function LineOf(s: Step, d: nat): PrintLine
  {
    PrintLine(d, s.title, s.description)
  }

  /** lines and paths correspond one to one: the k-th block is the step the
      k-th path addresses (relative to the first base indices, which are
      the path of the node whose children kids are), at its depth. */
  predicate LinesMatch(lines: seq<PrintLine>, paths: seq<Path>, base: nat, kids: seq<Step>, depth: nat)
  {
    |lines| == |paths| &&
    forall k | 0 <= k < |lines| ::
      base < |paths[k]| && Addresses(kids, paths[k][base..]) &&
      lines[k] == LineOf(At(kids, paths[k][base..]), depth + |paths[k]| - base - 1)
  }

  lemma LinesMatchConcat(a: seq<PrintLine>, pa: seq<Path>, b: seq<PrintLine>, pb: seq<Path>,
                         base: nat, kids: seq<Step>, depth: nat)
    requires LinesMatch(a, pa, base, kids, depth) && LinesMatch(b, pb, base, kids, depth)
    ensures LinesMatch(a + b, pa + pb, base, kids, depth)
  {
    forall k | 0 <= k < |a + b|
      ensures (a + b)[k] == (if k < |a| then a[k] else b[k - |a|])
      ensures (pa + pb)[k] == (if k < |a| then pa[k] else pb[k - |a|])
    {
    }
  }

  /** A match for the children of kids[from], read one level up: relative to
      the node at path, as blocks below kids[from]. */
  lemma LinesMatchLift(lines: seq<PrintLine>, paths: seq<Path>, path: Path, kids: seq<Step>,
                       from: nat, depth: nat)
    requires from < |kids|
    requires LinesMatch(lines, paths, |path| + 1, kids[from].subSteps, depth + 1)
    requires forall p | p in paths :: |path| + 1 < |p| && p[..|path| + 1] == ChildPath(path, from)
    ensures LinesMatch(lines, paths, |path|, kids, depth)
  {
    forall k | 0 <= k < |lines|
      ensures |path| < |paths[k]| && Addresses(kids, paths[k][|path|..])
      ensures lines[k] == LineOf(At(kids, paths[k][|path|..]), depth + |paths[k]| - |path| - 1)
    {
      var p := paths[k];
      assert p in paths;
      var t := p[|path| + 1..];
      assert p[|path|..] == [from] + t by {
        assert p[..|path| + 1][|path|] == from;
      }
      assert ([from] + t)[0] == from && ([from] + t)[1..] == t;
      assert At(kids, [from] + t) == At(kids[from].subSteps, t);
    }
  }

  lemma LinesMatchHead(path: Path, kids: seq<Step>, from: nat, depth: nat)
    requires from < |kids|
    ensures LinesMatch([LineOf(kids[from], depth)], [ChildPath(path, from)], |path|, kids, depth)
  {
    assert ChildPath(path, from)[|path|..] == [from];
    assert [from][1..] == [] && WalkValid(kids, [from]);
    assert At(kids, [from]) == kids[from];
  }

  /** The print rendering of kids[from..] and the node rendering of the same
      steps go through them in the same order. */
  lemma {:induction false} PrintMatchesChildren(path: Path, kids: seq<Step>, from: nat, depth: nat)
    ensures LinesMatch(PrintFrom(kids, from, depth), ChildrenPaths(path, kids, from), |path|, kids, depth)
    decreases kids, 0, |kids| - from
  {
    if from < |kids| {
      var child := ChildPath(path, from);
      var sub := kids[from].subSteps;
      var subLines, subPaths := PrintFrom(sub, 0, depth + 1), ChildrenPaths(child, sub, 0);
      PrintMatchesChildren(child, sub, 0, depth + 1);
      PrintMatchesChildren(path, kids, from + 1, depth);
      ChildrenPathsValid(child, sub, 0);
      LinesMatchLift(subLines, subPaths, path, kids, from, depth);
      var head := [LineOf(kids[from], depth)];
      LinesMatchHead(path, kids, from, depth);
      LinesMatchConcat(head, [child], subLines, subPaths, |path|, kids, depth);
      var restLines, restPaths := PrintFrom(kids, from + 1, depth), ChildrenPaths(path, kids, from + 1);
      LinesMatchConcat(head + subLines, [child] + subPaths, restLines, restPaths,
                       |path|, kids, depth);
      assert PrintFrom(kids, from, depth) == head + subLines + restLines;
      assert ChildrenPaths(path, kids, from) == [child] + subPaths + restPaths;
    }
  }

  /** The print rendering visits every step exactly once, in pre-order:
      its blocks correspond one to one with the rendered node paths, which
      are in pre-order (a parent before its children, siblings in sequence
      order), all different, each addressing a step, and which include
      every step's path. There are as many blocks as steps. */
  lemma PrintVisitsEachStepOnce(r: seq<Step>)
    ensures |PrintSteps(r)| == |RenderedPaths(r)| == Count(r)
    ensures forall k | 0 <= k < |RenderedPaths(r)| ::
              Addresses(r, RenderedPaths(r)[k]) &&
              PrintSteps(r)[k] == LineOf(At(r, RenderedPaths(r)[k]), |RenderedPaths(r)[k]| - 1)
    ensures InPreorder(RenderedPaths(r))
    ensures forall i, j | 0 <= i < j < |RenderedPaths(r)| :: RenderedPaths(r)[i] != RenderedPaths(r)[j]
    ensures forall p | Addresses(r, p) :: p in RenderedPaths(r)
  {
    var paths := RenderedPaths(r);
    PrintMatchesChildren([], r, 0, 0);
    assert LinesMatch(PrintSteps(r), paths, 0, r, 0);
    ChildrenPathsCount([], r, 0);
    assert r[0..] == r;
    ChildrenPathsPreorder([], r, 0);
    forall k | 0 <= k < |paths|
      ensures paths[k][0..] == paths[k]
    {
    }
    forall i, j | 0 <= i < j < |paths|
      ensures paths[i] != paths[j]
    {
      PrecedesIrreflexive(paths[i]);
    }
    forall p | Addresses(r, p)
      ensures p in paths
    {
      ChildrenPathsComplete([], r, 0, p);
      assert [] + p == p;
    }
  }

  /** Every rendered path addresses a step of the roadmap it was rendered
      from, so a gesture on a rendered node names an existing step. */
  lemma RenderedPathAddresses(r: seq<Step>, p: Path)
    requires p in RenderedPaths(r)
    ensures Addresses(r, p)
  {
    ChildrenPathsValid([], r, 0);
    assert p[0..] == p;
  }

  // ---------------------------------------------------------------------
  // One rendered node's own state and gestures

  /** The state one rendered node keeps: whether its edit dialog, its
      description popover and its delete confirmation are open, and whether
      its children show. Its path is fixed when it is rendered. Gestures
      that change the roadmap call the handlers of the view's editor, which
      is passed to them. */
  class NodeView {
    const path: Path
    var isEditing: bool
    var isExpanded: bool
    var showDescription: bool
    var showDeleteModal: bool

    /** A node mounts with everything closed and its children expanded. */
    constructor (path: Path)
      ensures this.path == path
      ensures !isEditing && isExpanded && !showDescription && !showDeleteModal
    {
      this.path := path;
      isEditing := false;
      isExpanded := true;
      showDescription := false;
      showDeleteModal := false;
    }

    /** Clicking the numbered circle opens the description popover, which
        shows exactly when the step's description is not empty. */
    method ShowDescription(step: Step) returns (popoverShown: bool)
      modifies this
      ensures showDescription
      ensures popoverShown <==> step.description != ""
      ensures isEditing == old(isEditing) && isExpanded == old(isExpanded)
      ensures showDeleteModal == old(showDeleteModal)
    {
      showDescription := true;
      popoverShown := showDescription && step.description != "";
    }

    /** The popover's close button. */
    method HideDescription()
      modifies this
      ensures !showDescription
      ensures isEditing == old(isEditing) && isExpanded == old(isExpanded)
      ensures showDeleteModal == old(showDeleteModal)
    {
      showDescription := false;
    }

    /** The pencil button opens the edit dialog. */
    method StartEditing()
      modifies this
      ensures isEditing
      ensures isExpanded == old(isExpanded) && showDescription == old(showDescription)
      ensures showDeleteModal == old(showDeleteModal)
    {
      isEditing := true;
    }

    /** The dialog's close button or backdrop closes it without saving. */
    method CancelEditing()
      modifies this
      ensures !isEditing
      ensures isExpanded == old(isExpanded) && showDescription == old(showDescription)
      ensures showDeleteModal == old(showDeleteModal)
    {
      isEditing := false;
    }

    /** Submitting the edit dialog sends the new title and description to
        the edit handler with this node's path, then closes the dialog.
        When the node was rendered from the current roadmap, the edit
        applies: the node gets the new texts and keeps its id and children,
        and the number of steps and the ids do not change. */
    method Save(editor: Editor, title: string, description: string) returns (outcome: Outcome)
      modifies this, editor
      ensures !isEditing
      ensures isExpanded == old(isExpanded) && showDescription == old(showDescription)
      ensures showDeleteModal == old(showDeleteModal)
      ensures outcome == Applied <==> path == [] || Addresses(old(editor.roadmap), path)
      ensures editor.roadmap == if outcome == Applied && path != []
                                then UpdateAt(old(editor.roadmap), path, TextPatch(title, description))
                                else old(editor.roadmap)
      ensures path in RenderedPaths(old(editor.roadmap)) ==>
                Addresses(old(editor.roadmap), path) && outcome == Applied &&
                Addresses(editor.roadmap, path) &&
                At(editor.roadmap, path) ==
                  Step(At(old(editor.roadmap), path).id, title, description,
                       At(old(editor.roadmap), path).subSteps) &&
                Count(editor.roadmap) == Count(old(editor.roadmap)) &&
                Ids(editor.roadmap) == Ids(old(editor.roadmap))
    {
      ghost var before := editor.roadmap;
      outcome := editor.UpdateStep(path, TextPatch(title, description));
      isEditing := false;
      if path in RenderedPaths(before) {
        RenderedPathAddresses(before, path);
        UpdateReplacesNode(before, path, TextPatch(title, description));
        UpdateViaRebuild(before, path, TextPatch(title, description));
        AtViaLevel(before, path);
        RebuildCount(before, Parent(path),
                     Level(before, Parent(path))[Last(path) := Merge(At(before, path), TextPatch(title, description))]);
        CountUpdate(Level(before, Parent(path)), Last(path), Merge(At(before, path), TextPatch(title, description)));
        UpdateKeepsIds(before, path, TextPatch(title, description));
      }
    }

    /** The trash button asks for confirmation. */
    method OpenDeleteModal()
      modifies this
      ensures showDeleteModal
      ensures isEditing == old(isEditing) && isExpanded == old(isExpanded)
      ensures showDescription == old(showDescription)
    {
      showDeleteModal := true;
    }

    /** The confirmation's Cancel button. */
    method CloseDeleteModal()
      modifies this
      ensures !showDeleteModal
      ensures isEditing == old(isEditing) && isExpanded == old(isExpanded)
      ensures showDescription == old(showDescription)
    {
      showDeleteModal := false;
    }

    /** The confirmation's Delete button sends this node's path to the
        delete handler, then closes the confirmation. When the node was
        rendered from the current roadmap, its whole subtree is removed,
        and unique ids stay unique. */
    method ConfirmDelete(editor: Editor) returns (outcome: Outcome)
      modifies this, editor
      ensures !showDeleteModal
      ensures isEditing == old(isEditing) && isExpanded == old(isExpanded)
      ensures showDescription == old(showDescription)
      ensures outcome == Applied <==> path == [] || WalkValid(old(editor.roadmap), Parent(path))
      ensures path == [] ==> editor.roadmap == RemoveAt(old(editor.roadmap), 0)
      ensures path != [] ==>
                editor.roadmap == if outcome == Applied then DeleteAt(old(editor.roadmap), path)
                                  else old(editor.roadmap)
      ensures path in RenderedPaths(old(editor.roadmap)) ==>
                Addresses(old(editor.roadmap), path) && outcome == Applied &&
                editor.roadmap == DeleteAt(old(editor.roadmap), path) &&
                Count(editor.roadmap) == Count(old(editor.roadmap)) - Size(At(old(editor.roadmap), path)) &&
                (UniqueIds(old(editor.roadmap)) ==> UniqueIds(editor.roadmap))
    {
      ghost var before := editor.roadmap;
      outcome := editor.DeleteStep(path);
      showDeleteModal := false;
      if path in RenderedPaths(before) {
        RenderedPathAddresses(before, path);
        DeleteCount(before, path);
        if UniqueIds(before) {
          DeleteKeepsUniqueIds(before, path);
        }
      }
    }

    /** The plus button sends this node's path to the add-child handler.
        When the node was rendered from the current roadmap, a fresh leaf
        becomes its last child and the roadmap gains exactly one step; the
        ids stay unique exactly when the drawn id is new. */
    method AddClicked(editor: Editor, randomSuffix: string) returns (outcome: Outcome)
      modifies editor
      ensures outcome == Applied <==> WalkValid(old(editor.roadmap), path)
      ensures editor.roadmap == if outcome == Applied
                                then AddChildAt(old(editor.roadmap), path, NewLeaf("step_" + randomSuffix))
                                else old(editor.roadmap)
      ensures path in RenderedPaths(old(editor.roadmap)) ==>
                Addresses(old(editor.roadmap), path) && outcome == Applied &&
                Addresses(editor.roadmap, path + [|At(old(editor.roadmap), path).subSteps|]) &&
                At(editor.roadmap, path + [|At(old(editor.roadmap), path).subSteps|])
                  == NewLeaf("step_" + randomSuffix) &&
                Count(editor.roadmap) == Count(old(editor.roadmap)) + 1 &&
                (UniqueIds(editor.roadmap) <==>
                   UniqueIds(old(editor.roadmap)) && "step_" + randomSuffix !in Ids(old(editor.roadmap)))
    {
      ghost var before := editor.roadmap;
      outcome := editor.AddSubStep(path, randomSuffix);
      if path in RenderedPaths(before) {
        RenderedPathAddresses(before, path);
        AtViaLevel(before, path);
        AddChildAppends(before, path, NewLeaf("step_" + randomSuffix));
        AddChildCount(before, path, "step_" + randomSuffix);
        AddChildUniqueIds(before, path, "step_" + randomSuffix);
      }
    }
  }
}
