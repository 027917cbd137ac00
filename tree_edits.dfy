/** The three path-addressed edits of the roadmap editor, as pure functions
    from the old forest to the new one, and what each of them changes and
    keeps. The editor's handlers (module RoadmapView) are proved to compute
    exactly these functions. */
module TreeEdits {
  import opened Wrappers
  import opened Steps

  /** The fields an edit supplies; a field that is Some overrides the node's
      own, as an object spread does. The edit dialog supplies only the title
      and the description. */
  datatype Patch = Patch(id: Option<string>, title: Option<string>,
                         description: Option<string>, subSteps: Option<seq<Step>>)

  /** The patch the edit dialog submits. */
  function TextPatch(title: string, description: string): Patch
  {
    Patch(None, Some(title), Some(description), None)
  }

  /** Shallow merge: the node's fields, overridden by those the patch carries. */
  function Merge(s: Step, x: Patch): Step
  {
    Step(x.id.GetOr(s.id), x.title.GetOr(s.title),
         x.description.GetOr(s.description), x.subSteps.GetOr(s.subSteps))
  }

  const NewStepTitle := "New Step"
  const NewStepDescription := "Add a description."

  /** The leaf the add-child gesture appends. */
  function NewLeaf(id: string): Step
  {
    Step(id, NewStepTitle, NewStepDescription, [])
  }

  /** A sibling sequence without its element at index i; past the end,
      nothing is removed (as an array splice past the end removes nothing). */
  function RemoveAt(level: seq<Step>, i: nat): seq<Step>
  {
    if i < |level| then level[..i] + level[i + 1..] else level
  }

  /** The update edit: the node p addresses is replaced by its merge with x. */
  function UpdateAt(r: seq<Step>, p: Path, x: Patch): seq<Step>
    requires Addresses(r, p)
    decreases p
  {
    if |p| == 1 then r[p[0] := Merge(r[p[0]], x)]
    else r[p[0] := r[p[0]].(subSteps := UpdateAt(r[p[0]].subSteps, p[1..], x))]
  }

  /** The delete edit: the element at p's last index is removed from the
      level p's parent path reaches, together with its subtree. */
  function DeleteAt(r: seq<Step>, p: Path): seq<Step>
    requires |p| > 0 && WalkValid(r, Parent(p))
    decreases p
  {
    if |p| == 1 then RemoveAt(r, p[0])
    else
      assert Parent(p)[1..] == Parent(p[1..]);
      r[p[0] := r[p[0]].(subSteps := DeleteAt(r[p[0]].subSteps, p[1..]))]
  }

  /** The add-child edit: leaf is appended to the level all of p reaches,
      that is, as the last child of the node p addresses (to the top level
      when p is empty). */
  function AddChildAt(r: seq<Step>, p: Path, leaf: Step): seq<Step>
    requires WalkValid(r, p)
    decreases p
  {
    if p == [] then r + [leaf]
    else r[p[0] := r[p[0]].(subSteps := AddChildAt(r[p[0]].subSteps, p[1..], leaf))]
  }

  /** The forest in which the level q reaches is replaced by level: the
      copy-on-write result of changing one sibling sequence of a draft. */
  function Rebuild(r: seq<Step>, q: Path, level: seq<Step>): seq<Step>
    requires WalkValid(r, q)
    decreases q
  {
    if q == [] then level
    else r[q[0] := r[q[0]].(subSteps := Rebuild(r[q[0]].subSteps, q[1..], level))]
  }

  /** a lies inside the subtree of the node q addresses, strictly below it. */
  predicate StrictlyBelow(a: Path, q: Path)
  {
    |q| < |a| && a[..|q|] == q
  }

  // ---------------------------------------------------------------------
  // Rebuild: inside the replaced level, and outside it

  /** The replaced level and everything under it is read from the new level. */
  lemma {:induction false} RebuildInside(r: seq<Step>, q: Path, level: seq<Step>, s: Path)
    requires WalkValid(r, q)
    ensures WalkValid(Rebuild(r, q, level), q + s) <==> WalkValid(level, s)
    ensures WalkValid(level, s) ==> Level(Rebuild(r, q, level), q + s) == Level(level, s)
    decreases q
  {
    if q == [] {
      assert q + s == s;
    } else {
      assert (q + s)[0] == q[0];
      assert (q + s)[1..] == q[1..] + s;
      RebuildInside(r[q[0]].subSteps, q[1..], level, s);
    }
  }

  /** A node strictly below q, read through the rebuilt forest, is the node of
      the new level at the same relative path. */
  lemma RebuildInsideAt(r: seq<Step>, q: Path, level: seq<Step>, s: Path)
    requires WalkValid(r, q) && |s| > 0
    ensures Addresses(Rebuild(r, q, level), q + s) <==> Addresses(level, s)
    ensures Addresses(level, s) ==> At(Rebuild(r, q, level), q + s) == At(level, s)
  {
    var r' := Rebuild(r, q, level);
    RebuildInside(r, q, level, []);
    assert q + [] == q;
    AtAppend(r', q, s);
  }

  /** Outside the replaced level nothing appears or disappears; every node
      keeps its id, title and description, and a node that is not on the
      way down to the level is entirely unchanged. */
  lemma {:induction false} RebuildOutside(r: seq<Step>, q: Path, level: seq<Step>, a: Path)
    requires WalkValid(r, q) && |a| > 0 && !StrictlyBelow(a, q)
    ensures Addresses(Rebuild(r, q, level), a) <==> Addresses(r, a)
    ensures Addresses(r, a) ==> LabelOf(At(Rebuild(r, q, level), a)) == LabelOf(At(r, a))
    ensures Addresses(r, a) && !IsPrefix(a, q) ==> At(Rebuild(r, q, level), a) == At(r, a)
    decreases q
  {
    if q == [] {
      assert false;
    } else {
      var r' := Rebuild(r, q, level);
      assert |r'| == |r|;
      if a[0] != q[0] || |a| == 1 {
        if a[0] < |r| && a[0] != q[0] {
          assert r'[a[0]] == r[a[0]];
        } else if a[0] < |r| {
          assert WalkValid(r', a) && WalkValid(r, a);
        }
      } else {
        assert !StrictlyBelow(a[1..], q[1..]) by {
          if |q| < |a| {
            assert a[..|q|] == [a[0]] + a[1..][..|q| - 1];
            assert q == [q[0]] + q[1..];
          }
        }
        assert IsPrefix(a, q) <==> IsPrefix(a[1..], q[1..]) by {
          if |a| <= |q| {
            assert q[..|a|] == [q[0]] + q[1..][..|a| - 1];
            assert a == [a[0]] + a[1..];
          }
        }
        RebuildOutside(r[q[0]].subSteps, q[1..], level, a[1..]);
      }
    }
  }

  /** The node count moves by the difference between the new and the old level. */
  lemma {:induction false} RebuildCount(r: seq<Step>, q: Path, level: seq<Step>)
    requires WalkValid(r, q)
    ensures Count(Rebuild(r, q, level)) == Count(r) - Count(Level(r, q)) + Count(level)
    decreases q
  {
    if q != [] {
      var sub := r[q[0]].subSteps;
      RebuildCount(sub, q[1..], level);
      CountUpdate(r, q[0], r[q[0]].(subSteps := Rebuild(sub, q[1..], level)));
    }
  }

  // ---------------------------------------------------------------------
  // The three edits as level replacements

  lemma {:induction false} UpdateViaRebuild(r: seq<Step>, p: Path, x: Patch)
    requires Addresses(r, p)
    ensures WalkValid(r, Parent(p)) && Last(p) < |Level(r, Parent(p))|
    ensures UpdateAt(r, p, x) ==
            Rebuild(r, Parent(p), Level(r, Parent(p))[Last(p) := Merge(At(r, p), x)])
    decreases p
  {
    AtViaLevel(r, p);
    if |p| > 1 {
      assert Parent(p)[1..] == Parent(p[1..]);
      assert Last(p) == Last(p[1..]);
      UpdateViaRebuild(r[p[0]].subSteps, p[1..], x);
    }
  }

  lemma {:induction false} DeleteViaRebuild(r: seq<Step>, p: Path)
    requires |p| > 0 && WalkValid(r, Parent(p))
    ensures DeleteAt(r, p) == Rebuild(r, Parent(p), RemoveAt(Level(r, Parent(p)), Last(p)))
    decreases p
  {
    if |p| > 1 {
      assert Parent(p)[1..] == Parent(p[1..]);
      assert Last(p) == Last(p[1..]);
      DeleteViaRebuild(r[p[0]].subSteps, p[1..]);
    }
  }

  lemma {:induction false} AddChildViaRebuild(r: seq<Step>, p: Path, leaf: Step)
    requires WalkValid(r, p)
    ensures AddChildAt(r, p, leaf) == Rebuild(r, p, Level(r, p) + [leaf])
    decreases p
  {
    if p != [] {
      AddChildViaRebuild(r[p[0]].subSteps, p[1..], leaf);
    }
  }

  /** Replacing a level by itself gives back the same forest. */
  lemma {:induction false} RebuildSame(r: seq<Step>, q: Path)
    requires WalkValid(r, q)
    ensures Rebuild(r, q, Level(r, q)) == r
    decreases q
  {
    if q != [] {
      RebuildSame(r[q[0]].subSteps, q[1..]);
    }
  }

  /** Count of a sibling sequence without its element i. */
  lemma CountRemoveAt(level: seq<Step>, i: nat)
    requires i < |level|
    ensures Count(RemoveAt(level, i)) == Count(level) - Size(level[i])
  {
    assert level == level[..i] + [level[i]] + level[i + 1..];
    CountAppend(level[..i] + [level[i]], level[i + 1..]);
    CountAppend(level[..i], [level[i]]);
    CountAppend(level[..i], level[i + 1..]);
    assert Count([level[i]]) == Size(level[i]) by { assert [level[i]][1..] == []; }
  }

  // ---------------------------------------------------------------------
  // Update

  /** The addressed node becomes the shallow merge of its old value with the
      patch: the patch's fields win, the node's other fields stay. */
  lemma {:induction false} UpdateReplacesNode(r: seq<Step>, p: Path, x: Patch)
    requires Addresses(r, p)
    ensures Addresses(UpdateAt(r, p, x), p)
    ensures At(UpdateAt(r, p, x), p) == Merge(At(r, p), x)
    ensures x.title.Some? ==> At(UpdateAt(r, p, x), p).title == x.title.value
    ensures x.id.None? ==> At(UpdateAt(r, p, x), p).id == At(r, p).id
    ensures x.subSteps.None? ==> At(UpdateAt(r, p, x), p).subSteps == At(r, p).subSteps
  {
    UpdateViaRebuild(r, p, x);
    var q, i := Parent(p), Last(p);
    var level := Level(r, q)[i := Merge(At(r, p), x)];
    assert p == q + [i];
    assert [i][1..] == [] && WalkValid(level, [i]);
    RebuildInsideAt(r, q, level, [i]);
  }

  /** Every other node keeps its id, title and description, and every node
      that is not an ancestor of the addressed one is entirely unchanged, as
      long as the patch does not replace the children. */
  lemma {:induction false} UpdateFrame(r: seq<Step>, p: Path, x: Patch, a: Path)
    requires Addresses(r, p) && Addresses(r, a) && a != p && x.subSteps.None?
    ensures Addresses(UpdateAt(r, p, x), a)
    ensures LabelOf(At(UpdateAt(r, p, x), a)) == LabelOf(At(r, a))
    ensures !IsPrefix(a, p) ==> At(UpdateAt(r, p, x), a) == At(r, a)
  {
    UpdateViaRebuild(r, p, x);
    var q, i := Parent(p), Last(p);
    var before := Level(r, q);
    var m := Merge(At(r, p), x);
    var level := before[i := m];
    assert p == q + [i];
    AtViaLevel(r, p);
    if !StrictlyBelow(a, q) {
      RebuildOutside(r, q, level, a);
      if IsPrefix(a, q) {
        assert p[..|q|] == q;
        assert p[..|a|] == p[..|q|][..|a|];
      }
    } else {
      var s := a[|q|..];
      assert a == q + s;
      RebuildInsideAt(r, q, level, s);
      AtAppend(r, q, s);
      assert s == [s[0]] + s[1..];
      if s[0] == i {
        assert |s| > 1;
        assert level[i].subSteps == before[i].subSteps;
      } else {
        assert s[0] < |before| ==> level[s[0]] == before[s[0]];
      }
    }
  }

  /** With the children left alone, an update keeps the shape of the tree:
      every path walks in the new forest exactly when it walks in the old
      one, and reaches a sibling sequence of the same length. */
  lemma {:induction false} UpdateKeepsShape(r: seq<Step>, p: Path, x: Patch, a: Path)
    requires Addresses(r, p) && x.subSteps.None?
    ensures WalkValid(UpdateAt(r, p, x), a) <==> WalkValid(r, a)
    ensures WalkValid(r, a) ==> |Level(UpdateAt(r, p, x), a)| == |Level(r, a)|
    decreases p
  {
    var r' := UpdateAt(r, p, x);
    if a != [] {
      if |p| == 1 || a[0] != p[0] {
        if a[0] < |r| {
          assert r'[a[0]].subSteps == r[a[0]].subSteps;
        }
      } else {
        UpdateKeepsShape(r[p[0]].subSteps, p[1..], x, a[1..]);
      }
    }
  }

  // ---------------------------------------------------------------------
  // Delete

  /** Deleting removes exactly the addressed element from its sibling
      sequence: that sequence becomes old[..i] + old[i+1..], one shorter.
      For a path of length one this is the top-level sequence itself. */
  lemma {:induction false} DeleteRemovesElement(r: seq<Step>, p: Path)
    requires Addresses(r, p)
    ensures WalkValid(DeleteAt(r, p), Parent(p))
    ensures Level(DeleteAt(r, p), Parent(p))
            == Level(r, Parent(p))[..Last(p)] + Level(r, Parent(p))[Last(p) + 1..]
    ensures |Level(DeleteAt(r, p), Parent(p))| == |Level(r, Parent(p))| - 1
    ensures |p| == 1 ==> DeleteAt(r, p) == r[..p[0]] + r[p[0] + 1..]
  {
    AtViaLevel(r, p);
    DeleteViaRebuild(r, p);
    var q := Parent(p);
    RebuildInside(r, q, RemoveAt(Level(r, q), Last(p)), []);
    assert q + [] == q;
  }

  /** Siblings before the deleted one keep their index and their subtree;
      those after it move down by one index, subtree and all. */
  lemma {:induction false} DeleteShiftsSiblings(r: seq<Step>, p: Path, j: nat, t: Path)
    requires Addresses(r, p)
    ensures j < Last(p) ==>
      (Addresses(DeleteAt(r, p), Parent(p) + [j] + t) <==> Addresses(r, Parent(p) + [j] + t))
    ensures j < Last(p) && Addresses(r, Parent(p) + [j] + t) ==>
      At(DeleteAt(r, p), Parent(p) + [j] + t) == At(r, Parent(p) + [j] + t)
    ensures j >= Last(p) ==>
      (Addresses(DeleteAt(r, p), Parent(p) + [j] + t) <==> Addresses(r, Parent(p) + [j + 1] + t))
    ensures j >= Last(p) && Addresses(r, Parent(p) + [j + 1] + t) ==>
      At(DeleteAt(r, p), Parent(p) + [j] + t) == At(r, Parent(p) + [j + 1] + t)
  {
    AtViaLevel(r, p);
    DeleteViaRebuild(r, p);
    var q, i := Parent(p), Last(p);
    var before := Level(r, q);
    var level := RemoveAt(before, i);
    var k := if j < i then j else j + 1;
    assert q + [j] + t == q + ([j] + t);
    assert q + [k] + t == q + ([k] + t);
    RebuildInsideAt(r, q, level, [j] + t);
    AtAppend(r, q, [k] + t);
    assert ([j] + t)[0] == j && ([j] + t)[1..] == t;
    assert ([k] + t)[0] == k && ([k] + t)[1..] == t;
    assert |level| == |before| - 1;
    assert j < |level| ==> level[j] == before[k];
  }

  /** Nodes outside the parent's sibling sequence neither appear nor
      disappear and keep their id, title and description; those not on the
      way down to it are entirely unchanged. */
  lemma DeleteFrame(r: seq<Step>, p: Path, a: Path)
    requires Addresses(r, p) && |a| > 0 && !StrictlyBelow(a, Parent(p))
    ensures Addresses(DeleteAt(r, p), a) <==> Addresses(r, a)
    ensures Addresses(r, a) ==> LabelOf(At(DeleteAt(r, p), a)) == LabelOf(At(r, a))
    ensures Addresses(r, a) && !IsPrefix(a, Parent(p)) ==> At(DeleteAt(r, p), a) == At(r, a)
  {
    AtViaLevel(r, p);
    DeleteViaRebuild(r, p);
    RebuildOutside(r, Parent(p), RemoveAt(Level(r, Parent(p)), Last(p)), a);
  }

  /** The whole subtree goes: the node count drops by its size. */
  lemma DeleteCount(r: seq<Step>, p: Path)
    requires Addresses(r, p)
    ensures Count(DeleteAt(r, p)) == Count(r) - Size(At(r, p))
  {
    AtViaLevel(r, p);
    DeleteViaRebuild(r, p);
    RebuildCount(r, Parent(p), RemoveAt(Level(r, Parent(p)), Last(p)));
    CountRemoveAt(Level(r, Parent(p)), Last(p));
  }

  /** A final index past the end of its sibling sequence removes nothing. */
  lemma DeletePastEnd(r: seq<Step>, p: Path)
    requires |p| > 0 && WalkValid(r, Parent(p)) && Last(p) >= |Level(r, Parent(p))|
    ensures DeleteAt(r, p) == r
  {
    DeleteViaRebuild(r, p);
    RebuildSame(r, Parent(p));
  }

  // ---------------------------------------------------------------------
  // Add child

  /** The leaf becomes the new last child of the node p addresses (the new
      last top-level step when p is empty); the existing children stay in
      front of it, in order. */
  lemma AddChildAppends(r: seq<Step>, p: Path, leaf: Step)
    requires WalkValid(r, p)
    ensures WalkValid(AddChildAt(r, p, leaf), p)
    ensures Level(AddChildAt(r, p, leaf), p) == Level(r, p) + [leaf]
    ensures Addresses(AddChildAt(r, p, leaf), p + [|Level(r, p)|])
    ensures At(AddChildAt(r, p, leaf), p + [|Level(r, p)|]) == leaf
  {
    AddChildViaRebuild(r, p, leaf);
    var level := Level(r, p) + [leaf];
    RebuildInside(r, p, level, []);
    assert p + [] == p;
    var n := |Level(r, p)|;
    assert [n][1..] == [] && WalkValid(level, [n]);
    RebuildInsideAt(r, p, level, [n]);
  }

  /** Every existing descendant of the target node keeps its path and its
      content. */
  lemma {:induction false} AddChildKeepsChildren(r: seq<Step>, p: Path, leaf: Step, j: nat, t: Path)
    requires WalkValid(r, p) && j < |Level(r, p)|
    ensures Addresses(AddChildAt(r, p, leaf), p + [j] + t) <==> Addresses(r, p + [j] + t)
    ensures Addresses(r, p + [j] + t) ==> At(AddChildAt(r, p, leaf), p + [j] + t) == At(r, p + [j] + t)
  {
    AddChildViaRebuild(r, p, leaf);
    var level := Level(r, p) + [leaf];
    assert p + [j] + t == p + ([j] + t);
    RebuildInsideAt(r, p, level, [j] + t);
    AtAppend(r, p, [j] + t);
    assert ([j] + t)[0] == j && ([j] + t)[1..] == t;
    assert level[j] == Level(r, p)[j];
  }

  /** Nodes outside the target's children keep their id, title and
      description, and those not on the way down are entirely unchanged. */
  lemma AddChildFrame(r: seq<Step>, p: Path, leaf: Step, a: Path)
    requires WalkValid(r, p) && |a| > 0 && !StrictlyBelow(a, p)
    ensures Addresses(AddChildAt(r, p, leaf), a) <==> Addresses(r, a)
    ensures Addresses(r, a) ==> LabelOf(At(AddChildAt(r, p, leaf), a)) == LabelOf(At(r, a))
    ensures Addresses(r, a) && !IsPrefix(a, p) ==> At(AddChildAt(r, p, leaf), a) == At(r, a)
  {
    AddChildViaRebuild(r, p, leaf);
    RebuildOutside(r, p, Level(r, p) + [leaf], a);
  }

  /** Adding a child adds exactly one node. */
  lemma AddChildCount(r: seq<Step>, p: Path, id: string)
    requires WalkValid(r, p)
    ensures Count(AddChildAt(r, p, NewLeaf(id))) == Count(r) + 1
  {
    AddChildViaRebuild(r, p, NewLeaf(id));
    RebuildCount(r, p, Level(r, p) + [NewLeaf(id)]);
    CountAppend(Level(r, p), [NewLeaf(id)]);
    assert Count([NewLeaf(id)]) == 1 by { assert [NewLeaf(id)][1..] == []; }
  }

  // ---------------------------------------------------------------------
  // Ids

  /** The ids, in pre-order, that come before the level q reaches: those of
      the earlier siblings on the way down and of the ancestors. */
  function IdsBefore(r: seq<Step>, q: Path): seq<string>
    requires WalkValid(r, q)
    decreases q
  {
    if q == [] then []
    else Ids(r[..q[0]]) + [r[q[0]].id] + IdsBefore(r[q[0]].subSteps, q[1..])
  }

  /** The ids, in pre-order, that come after the level q reaches: those of
      the later siblings on the way back up. */
  function IdsAfter(r: seq<Step>, q: Path): seq<string>
    requires WalkValid(r, q)
    decreases q
  {
    if q == [] then []
    else IdsAfter(r[q[0]].subSteps, q[1..]) + Ids(r[q[0] + 1..])
  }

  /** Replacing a level replaces its ids and keeps all the others, in
      their pre-order positions around it. */
  lemma {:induction false} RebuildIds(r: seq<Step>, q: Path, level: seq<Step>)
    requires WalkValid(r, q)
    ensures Ids(r) == IdsBefore(r, q) + Ids(Level(r, q)) + IdsAfter(r, q)
    ensures Ids(Rebuild(r, q, level)) == IdsBefore(r, q) + Ids(level) + IdsAfter(r, q)
    decreases q
  {
    if q == [] {
      assert Ids(r) == [] + Ids(r) + [];
      assert Ids(level) == [] + Ids(level) + [];
    } else {
      var i := q[0];
      var s := r[i];
      var s' := s.(subSteps := Rebuild(s.subSteps, q[1..], level));
      var r' := r[i := s'];
      var A, B := Ids(r[..i]), Ids(r[i + 1..]);
      var P, S := IdsBefore(s.subSteps, q[1..]), IdsAfter(s.subSteps, q[1..]);
      assert IdsBefore(r, q) == A + [s.id] + P;
      assert IdsAfter(r, q) == S + B;
      assert Level(r, q) == Level(s.subSteps, q[1..]);
      assert Rebuild(r, q, level) == r';
      RebuildIds(s.subSteps, q[1..], level);
      assert Ids(r) == A + ([s.id] + (P + Ids(Level(r, q)) + S)) + B by {
        IdsAround(r, i);
        IdsOne(s);
      }
      assert Ids(r') == A + ([s.id] + (P + Ids(level) + S)) + B by {
        IdsAround(r', i);
        assert r'[..i] == r[..i] && r'[i + 1..] == r[i + 1..];
        IdsOne(s');
      }
      Regroup(A, s.id, P, Ids(Level(r, q)), S, B);
      Regroup(A, s.id, P, Ids(level), S, B);
    }
  }

  /** Concatenation regrouped around a middle part. */
  lemma Regroup<T>(a: seq<T>, x: T, p: seq<T>, m: seq<T>, s: seq<T>, b: seq<T>)
    ensures a + ([x] + (p + m + s)) + b == (a + [x] + p) + m + (s + b)
  {
  }

  /** Multiset view of inserting w between u and v, inside b and a. */
  lemma MultisetInsert<T>(b: seq<T>, u: seq<T>, w: seq<T>, v: seq<T>, a: seq<T>)
    ensures multiset(b + (u + w + v) + a) == multiset(b + (u + v) + a) + multiset(w)
  {
  }

  /** An edit that changes neither the id nor the children keeps every id
      in its place in pre-order. */
  lemma {:induction false} UpdateKeepsIds(r: seq<Step>, p: Path, x: Patch)
    requires Addresses(r, p) && x.id.None? && x.subSteps.None?
    ensures Ids(UpdateAt(r, p, x)) == Ids(r)
    decreases p
  {
    var s := r[p[0]];
    var s' := UpdateAt(r, p, x)[p[0]];
    if |p| > 1 {
      UpdateKeepsIds(s.subSteps, p[1..], x);
    }
    assert s'.id == s.id && Ids(s'.subSteps) == Ids(s.subSteps);
    IdsOne(s);
    IdsOne(s');
    IdsAround(r, p[0]);
    IdsAround(UpdateAt(r, p, x), p[0]);
    assert UpdateAt(r, p, x) == r[p[0] := s'];
    assert r[p[0] := s'][..p[0]] == r[..p[0]] && r[p[0] := s'][p[0] + 1..] == r[p[0] + 1..];
  }

  /** Deleting removes exactly the ids of the deleted subtree. */
  lemma DeleteIds(r: seq<Step>, p: Path)
    requires Addresses(r, p)
    ensures multiset(Ids(DeleteAt(r, p))) + multiset(Ids([At(r, p)])) == multiset(Ids(r))
  {
    AtViaLevel(r, p);
    var level := Level(r, Parent(p));
    var k := Last(p);
    var before, after := IdsBefore(r, Parent(p)), IdsAfter(r, Parent(p));
    var u, w, v := Ids(level[..k]), Ids([level[k]]), Ids(level[k + 1..]);
    assert Ids(DeleteAt(r, p)) == before + (u + v) + after by {
      DeleteViaRebuild(r, p);
      RebuildIds(r, Parent(p), RemoveAt(level, k));
      IdsAppend(level[..k], level[k + 1..]);
    }
    assert Ids(r) == before + (u + w + v) + after by {
      RebuildIds(r, Parent(p), RemoveAt(level, k));
      IdsAround(level, k);
    }
    MultisetInsert(before, u, w, v, after);
  }

  /** Adding a child adds exactly the new leaf's id. */
  lemma AddChildIds(r: seq<Step>, p: Path, leaf: Step)
    requires WalkValid(r, p)
    ensures multiset(Ids(AddChildAt(r, p, leaf))) == multiset(Ids(r)) + multiset(Ids([leaf]))
  {
    var before, after := IdsBefore(r, p), IdsAfter(r, p);
    var u, w := Ids(Level(r, p)), Ids([leaf]);
    var grown := Ids(AddChildAt(r, p, leaf));
    assert grown == before + (u + w + []) + after by {
      AddChildViaRebuild(r, p, leaf);
      RebuildIds(r, p, Level(r, p) + [leaf]);
      IdsAppend(Level(r, p), [leaf]);
      assert u + w + [] == u + w;
    }
    assert Ids(r) == before + (u + []) + after by {
      RebuildIds(r, p, Level(r, p));
      assert u + [] == u;
    }
    MultisetInsert(before, u, w, [], after);
  }

  /** Deleting never makes two steps share an id. */
  lemma DeleteKeepsUniqueIds(r: seq<Step>, p: Path)
    requires Addresses(r, p) && UniqueIds(r)
    ensures UniqueIds(DeleteAt(r, p))
  {
    DeleteIds(r, p);
    DistinctCounts(Ids(r));
    DistinctCounts(Ids(DeleteAt(r, p)));
    var m, m' := multiset(Ids(r)), multiset(Ids(DeleteAt(r, p)));
    forall x | x in m'
      ensures m'[x] == 1
    {
      assert m'[x] <= m[x];
    }
  }

  /** After adding a leaf with a given id, the ids are unique exactly when
      they were before and the new id was not among them: the random id the
      view draws keeps the steps apart only if it is fresh. */
  lemma AddChildUniqueIds(r: seq<Step>, p: Path, id: string)
    requires WalkValid(r, p)
    ensures UniqueIds(AddChildAt(r, p, NewLeaf(id))) <==> UniqueIds(r) && id !in Ids(r)
  {
    AddChildIds(r, p, NewLeaf(id));
    IdsOne(NewLeaf(id));
    assert Ids([NewLeaf(id)]) == [id];
    DistinctCounts(Ids(r));
    DistinctCounts(Ids(AddChildAt(r, p, NewLeaf(id))));
    var m, m' := multiset(Ids(r)), multiset(Ids(AddChildAt(r, p, NewLeaf(id))));
    assert m' == m + multiset{id};
    if UniqueIds(AddChildAt(r, p, NewLeaf(id))) {
      forall x | x in m
        ensures m[x] == 1
      {
        assert m[x] <= m'[x];
      }
      assert m'[id] == m[id] + 1;
    }
  }
}
