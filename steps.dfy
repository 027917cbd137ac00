/** The roadmap's entity model: a step tree, forests of steps, and the
    positional paths the editor uses to address a node. */
module Steps {

  /** One node of the roadmap: an opaque id, a title, a description and
      its ordered children. */
  datatype Step = Step(id: string, title: string, description: string, subSteps: seq<Step>)

  /** A roadmap is a forest: an ordered sequence of top-level steps. */
  type Roadmap = seq<Step>

  /** A path descends by child index from the forest root: path[0] picks a
      top-level step, path[1] a child of it, and so on. */
  type Path = seq<nat>

  /** Number of nodes in the subtree rooted at s (s included). */
  function Size(s: Step): nat
    decreases s, 1
  {
    1 + Count(s.subSteps)
  }

  /** Total number of nodes in a forest. */
  function Count(r: seq<Step>): nat
    decreases r, 0
  {
    if r == [] then 0 else Size(r[0]) + Count(r[1..])
  }

  /** The ids of a forest in pre-order: each step's id, then the ids of
      its subtree, then those of the following siblings. There is one per
      step. */
  function Ids(r: seq<Step>): (ids: seq<string>)
    ensures |ids| == Count(r)
    decreases r
  {
    if r == [] then [] else [r[0].id] + Ids(r[0].subSteps) + Ids(r[1..])
  }

  /** Every index of q is in range at the level it indexes, so that
      descending through all of q succeeds. */
  predicate WalkValid(r: seq<Step>, q: Path)
    decreases q
  {
    q == [] || (q[0] < |r| && WalkValid(r[q[0]].subSteps, q[1..]))
  }

  /** The sibling sequence reached by descending through every index of q:
      the forest itself for q == [], otherwise the children of the node q
      addresses. */
  function Level(r: seq<Step>, q: Path): seq<Step>
    requires WalkValid(r, q)
    decreases q
  {
    if q == [] then r else Level(r[q[0]].subSteps, q[1..])
  }

  /** p addresses an existing node of r: it is not empty and every index is
      in range. Then the parent path walks too, and the last index is in
      range of the level it reaches. */
  predicate Addresses(r: seq<Step>, p: Path)
    ensures Addresses(r, p) ==> |p| > 0 && WalkValid(r, Parent(p)) && Last(p) < |Level(r, Parent(p))|
  {
    if |p| == 0 then false
    else
      assert p == Parent(p) + [Last(p)];
      WalkSnoc(r, Parent(p), Last(p));
      WalkValid(r, p)
  }

  /** The node that p addresses. */
  function At(r: seq<Step>, p: Path): Step
    requires Addresses(r, p)
    decreases p
  {
    if |p| == 1 then r[p[0]] else At(r[p[0]].subSteps, p[1..])
  }

  /** All but the last index of a path: the path of the parent's level. */
  function Parent(p: Path): Path
    requires |p| > 0
  {
    p[..|p| - 1]
  }

  function Last(p: Path): nat
    requires |p| > 0
  {
    p[|p| - 1]
  }

  /** a is a (not necessarily proper) prefix of b. */
  predicate IsPrefix(a: Path, b: Path)
  {
    |a| <= |b| && b[..|a|] == a
  }

  /** The part of a node that survives an edit of its children. */
  datatype Label = Label(id: string, title: string, description: string)

  function LabelOf(s: Step): Label
  {
    Label(s.id, s.title, s.description)
  }

  /** Descending through q + [j] succeeds exactly when descending through q
      does and j is in range there; the level reached is the children of
      that element. This is the step the editor's walk takes per index. */
  lemma {:induction false} WalkSnoc(r: seq<Step>, q: Path, j: nat)
    ensures WalkValid(r, q + [j]) <==> WalkValid(r, q) && j < |Level(r, q)|
    ensures WalkValid(r, q + [j]) ==> Level(r, q + [j]) == Level(r, q)[j].subSteps
    decreases q
  {
    if q == [] {
      assert q + [j] == [j];
      assert [j][1..] == [];
    } else {
      assert (q + [j])[0] == q[0];
      assert (q + [j])[1..] == q[1..] + [j];
      if q[0] < |r| {
        WalkSnoc(r[q[0]].subSteps, q[1..], j);
      }
    }
  }

  /** A node is the element of its parent's level at its last index, and its
      children are the level its own path reaches. */
  lemma {:induction false} AtViaLevel(r: seq<Step>, p: Path)
    requires Addresses(r, p)
    ensures WalkValid(r, Parent(p)) && Last(p) < |Level(r, Parent(p))|
    ensures At(r, p) == Level(r, Parent(p))[Last(p)]
    ensures Level(r, p) == At(r, p).subSteps
    decreases p
  {
    assert p == Parent(p) + [Last(p)];
    WalkSnoc(r, Parent(p), Last(p));
    if |p| > 1 {
      AtViaLevel(r[p[0]].subSteps, p[1..]);
      assert Parent(p[1..]) == Parent(p)[1..];
    }
  }

  /** Walking a concatenated path walks the first part, then the second
      part from the level reached. */
  lemma {:induction false} WalkAppend(r: seq<Step>, q: Path, s: Path)
    requires WalkValid(r, q)
    ensures WalkValid(r, q + s) <==> WalkValid(Level(r, q), s)
    ensures WalkValid(r, q + s) ==> Level(r, q + s) == Level(Level(r, q), s)
    decreases q
  {
    if q == [] {
      assert q + s == s;
    } else {
      assert (q + s)[0] == q[0];
      assert (q + s)[1..] == q[1..] + s;
      WalkAppend(r[q[0]].subSteps, q[1..], s);
    }
  }

  /** The node at q + s is the node at s within the level q reaches. */
  lemma {:induction false} AtAppend(r: seq<Step>, q: Path, s: Path)
    requires WalkValid(r, q) && |s| > 0
    ensures Addresses(r, q + s) <==> Addresses(Level(r, q), s)
    ensures Addresses(r, q + s) ==> At(r, q + s) == At(Level(r, q), s)
    decreases q
  {
    WalkAppend(r, q, s);
    if q == [] {
      assert q + s == s;
    } else {
      assert (q + s)[0] == q[0];
      assert (q + s)[1..] == q[1..] + s;
      AtAppend(r[q[0]].subSteps, q[1..], s);
      if Addresses(r, q + s) {
        assert |q + s| > 1;
        assert At(r, q + s) == At(r[q[0]].subSteps, q[1..] + s);
      }
    }
  }

  /** Node count is additive over concatenation of forests. */
  lemma {:induction false} CountAppend(a: seq<Step>, b: seq<Step>)
    ensures Count(a + b) == Count(a) + Count(b)
    decreases a
  {
    if a == [] {
      assert a + b == b;
    } else {
      assert (a + b)[0] == a[0];
      assert (a + b)[1..] == a[1..] + b;
      CountAppend(a[1..], b);
    }
  }

  /** Replacing one element of a forest changes its count by the difference
      of the two subtrees' sizes. */
  lemma CountUpdate(r: seq<Step>, i: nat, s: Step)
    requires i < |r|
    ensures Count(r[i := s]) == Count(r) - Size(r[i]) + Size(s)
  {
    assert r == r[..i] + [r[i]] + r[i + 1..];
    assert r[i := s] == r[..i] + [s] + r[i + 1..];
    CountAppend(r[..i] + [r[i]], r[i + 1..]);
    CountAppend(r[..i], [r[i]]);
    CountAppend(r[..i] + [s], r[i + 1..]);
    CountAppend(r[..i], [s]);
    assert Count([s]) == Size(s) by { assert [s][1..] == []; }
    assert Count([r[i]]) == Size(r[i]) by { assert [r[i]][1..] == []; }
  }

  /** Every prefix of a path that walks also walks. */
  lemma {:induction false} WalkPrefix(r: seq<Step>, q: Path, k: nat)
    requires WalkValid(r, q) && k <= |q|
    ensures WalkValid(r, q[..k])
    decreases q
  {
    if k > 0 {
      assert q[..k][0] == q[0] && q[..k][1..] == q[1..][..k - 1];
      WalkPrefix(r[q[0]].subSteps, q[1..], k - 1);
    }
  }

  // ---------------------------------------------------------------------
  // Ids

  /** No element occurs twice. */
  predicate Distinct<T(==)>(xs: seq<T>)
  {
    forall i, j | 0 <= i < j < |xs| :: xs[i] != xs[j]
  }

  /** No two steps of the forest share an id, as the view requires of the
      keys it renders the steps with. */
  predicate UniqueIds(r: seq<Step>)
  {
    Distinct(Ids(r))
  }

  /** A sequence is free of repeats exactly when each of its elements occurs
      in it once. */
  lemma {:induction false} DistinctCounts<T>(xs: seq<T>)
    ensures Distinct(xs) <==> forall x | x in multiset(xs) :: multiset(xs)[x] == 1
    decreases |xs|
  {
    if xs != [] {
      var rest := xs[1..];
      assert xs == [xs[0]] + rest;
      assert multiset(xs) == multiset{xs[0]} + multiset(rest);
      DistinctCounts(rest);
      if Distinct(xs) {
        forall i, j | 0 <= i < j < |rest|
          ensures rest[i] != rest[j]
        {
          assert rest[i] == xs[i + 1] && rest[j] == xs[j + 1];
        }
      } else {
        var i, j :| 0 <= i < j < |xs| && xs[i] == xs[j];
        if i == 0 {
          assert rest[j - 1] == xs[0];
          assert multiset(xs)[xs[0]] >= 2;
        } else {
          assert rest[i - 1] == rest[j - 1];
          assert !Distinct(rest);
          var x :| x in multiset(rest) && multiset(rest)[x] != 1;
          assert multiset(xs)[x] >= multiset(rest)[x] >= 2;
        }
      }
    }
  }

  /** The ids of a concatenation are the ids of the parts, in order. */
  lemma {:induction false} IdsAppend(a: seq<Step>, b: seq<Step>)
    ensures Ids(a + b) == Ids(a) + Ids(b)
    decreases a
  {
    if a == [] {
      assert a + b == b;
    } else {
      assert (a + b)[0] == a[0];
      assert (a + b)[1..] == a[1..] + b;
      IdsAppend(a[1..], b);
    }
  }

  /** The ids of one step: its own, then those of its subtree. */
  lemma IdsOne(s: Step)
    ensures Ids([s]) == [s.id] + Ids(s.subSteps)
  {
    assert [s][1..] == [];
  }

  /** A sequence is its part before i, its element i and its part after. */
  lemma SplitAround<T>(r: seq<T>, i: nat)
    requires i < |r|
    ensures r == r[..i + 1] + r[i + 1..]
    ensures r[..i + 1] == r[..i] + [r[i]]
  {
  }

  /** The ids of a forest around its element i. */
  lemma IdsAround(r: seq<Step>, i: nat)
    requires i < |r|
    ensures Ids(r) == Ids(r[..i]) + Ids([r[i]]) + Ids(r[i + 1..])
  {
    SplitAround(r, i);
    IdsAppend(r[..i + 1], r[i + 1..]);
    IdsAppend(r[..i], [r[i]]);
  }
}
