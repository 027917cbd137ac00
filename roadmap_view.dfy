/** The roadmap view: the session's current roadmap, the three handlers the
    nodes call with a path, and the flattened print rendering. */
module RoadmapView {
  import opened Steps
  import opened TreeEdits

  /** How a handler ended: its edit was applied, or an index on the way down
      was out of range. In the second case the handler throws before the
      draft is finished, so the roadmap state is not replaced. */
  datatype Outcome = Applied | BoundsError

  /** Descends from the forest r through every index of q, the way each
      handler walks its draft level by level. */
  method Descend(r: seq<Step>, q: Path) returns (walks: bool, level: seq<Step>)
    ensures walks <==> WalkValid(r, q)
    ensures walks ==> level == Level(r, q)
  {
    level := r;
    var i := 0;
    while i < |q|
      invariant i <= |q|
      invariant WalkValid(r, q[..i]) && level == Level(r, q[..i])
    {
      assert q[..i + 1] == q[..i] + [q[i]];
      WalkSnoc(r, q[..i], q[i]);
      if q[i] >= |level| {
        if WalkValid(r, q) {
          WalkPrefix(r, q, i + 1);
        }
        return false, level;
      }
      level := level[q[i]].subSteps;
      i := i + 1;
    }
    assert q[..|q|] == q;
    walks := true;
  }

  /** The state the view edits: the roadmap currently shown. */
  class Editor {
    var roadmap: seq<Step>

    constructor (initial: seq<Step>)
      ensures roadmap == initial
    {
      roadmap := initial;
    }

    /** The edit handler: walks all but the last index, then replaces the
        addressed node by its merge with the patch. An empty path writes a
        non-index property of the top-level array, which changes no step. */
    method UpdateStep(path: Path, patch: Patch) returns (outcome: Outcome)
      modifies this
      ensures outcome == Applied <==> path == [] || Addresses(old(roadmap), path)
      ensures roadmap == if outcome == Applied && path != []
                         then UpdateAt(old(roadmap), path, patch) else old(roadmap)
    {
      if path == [] {
        return Applied;
      }
      var parent := path[..|path| - 1];
      var walks, currentLevel := Descend(roadmap, parent);
      var finalIndex := path[|path| - 1];
      assert path == parent + [finalIndex];
      if walks {
        WalkSnoc(roadmap, parent, finalIndex);
      }
      if !walks || finalIndex >= |currentLevel| {
        return BoundsError;
      }
      UpdateViaRebuild(roadmap, path, patch);
      AtViaLevel(roadmap, path);
      roadmap := Rebuild(roadmap, parent,
                         currentLevel[finalIndex := Merge(currentLevel[finalIndex], patch)]);
      outcome := Applied;
    }

    /** The delete handler: a path of length one is spliced out of the top
        level directly; a longer path walks all but the last index and
        splices the last index out of that level. A splice past the end
        removes nothing; an empty path splices at index 0, because the
        missing last index reads as undefined, which splice takes as 0. */
    method DeleteStep(path: Path) returns (outcome: Outcome)
      modifies this
      ensures outcome == Applied <==> path == [] || WalkValid(old(roadmap), Parent(path))
      ensures path == [] ==> roadmap == RemoveAt(old(roadmap), 0)
      ensures path != [] ==>
                roadmap == if outcome == Applied then DeleteAt(old(roadmap), path) else old(roadmap)
    {
      if |path| == 1 {
        roadmap := RemoveAt(roadmap, path[0]);
        return Applied;
      }
      var parent := if path == [] then [] else path[..|path| - 1];
      var walks, currentLevel := Descend(roadmap, parent);
      if !walks {
        return BoundsError;
      }
      var finalIndex := if path == [] then 0 else path[|path| - 1];
      if path != [] {
        DeleteViaRebuild(roadmap, path);
      }
      roadmap := Rebuild(roadmap, parent, RemoveAt(currentLevel, finalIndex));
      outcome := Applied;
    }

    /** The add-child handler: walks every index of the path, so the path
        names the parent, and pushes a fresh leaf onto that level. The id is
        "step_" followed by randomSuffix, the random part the source draws. */
    method AddSubStep(path: Path, randomSuffix: string) returns (outcome: Outcome)
      modifies this
      ensures outcome == Applied <==> WalkValid(old(roadmap), path)
      ensures roadmap == if outcome == Applied
                         then AddChildAt(old(roadmap), path, NewLeaf("step_" + randomSuffix))
                         else old(roadmap)
    {
      var walks, currentLevel := Descend(roadmap, path);
      if !walks {
        return BoundsError;
      }
      var newStep := NewLeaf("step_" + randomSuffix);
      AddChildViaRebuild(roadmap, path, newStep);
      roadmap := Rebuild(roadmap, path, currentLevel + [newStep]);
      outcome := Applied;
    }
  }

  // ---------------------------------------------------------------------
  // Print rendering

  /** One block of the printable roadmap: a step's title and description,
      nested depth levels deep. */
  datatype PrintLine = PrintLine(depth: nat, title: string, description: string)

  /** The printable rendering of steps[from..], in document order: each
      step's own block, then its children's blocks nested one level deeper,
      then the following siblings. */
  function PrintFrom(steps: seq<Step>, from: nat, depth: nat): seq<PrintLine>
    decreases steps, |steps| - from
  {
    if from >= |steps| then []
    else [PrintLine(depth, steps[from].title, steps[from].description)]
         + PrintFrom(steps[from].subSteps, 0, depth + 1)
         + PrintFrom(steps, from + 1, depth)
  }

  /** The printable rendering of a whole roadmap. */
  function PrintSteps(r: seq<Step>): seq<PrintLine>
  {
    PrintFrom(r, 0, 0)
  }
}
