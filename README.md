# Roadmap generator: the step tree, its editor and the generation action

This project models the core of a web application that turns a prompt into a
learning roadmap and lets the user edit it. A roadmap is a forest of steps.
Each step has an id, a title, a description and ordered sub-steps.

- **The generation action** checks the prompt. It asks a generator for a JSON
  text, parses it, and hydrates each element into a step. Hydration gives each
  step a fresh `step_…` id and default texts for missing fields. Every failure
  after the prompt check comes back as an error message with a fixed prefix.
  This is module `Actions`.
- **The roadmap view** holds the current roadmap. It offers three handlers
  that the nodes call with a positional path (a sequence of child indices):
  - update a step's fields;
  - delete a step together with its subtree;
  - append a new leaf under a step.

  Each handler walks the draft level by level and edits one level. The view
  also renders a flattened printable copy. This is module `RoadmapView`
  (class `Editor`).
- **A rendered node** computes the following from its path:
  - its label ("1", "2.3.1");
  - its colour;
  - the paths of its children.

  It keeps four flags: edit dialog, description popover, delete confirmation
  and expanded. Its gestures call the view's handlers with its own path.
  This is module `RoadmapNode` (class `NodeView`).

The tree and its paths live in module `Steps`. The pure specifications of the
three edits are in module `TreeEdits`:
- `UpdateAt`, `DeleteAt` and `AddChildAt`;
- `Rebuild`, the copy-on-write finalisation of a draft that was changed at one
  level.

`Wrappers` holds `Option` and `Result`.

The editor's methods are proved against those specification functions. The
functions in turn carry lemmas:
- the addressed node changes as intended;
- every other node keeps its label;
- the number of steps changes by the expected amount;
- ids are preserved, removed or added as a multiset;
- unique ids stay unique.

The node's label is proved to round-trip through a parser, so two nodes never
share a label. The print rendering is proved to list every step exactly once,
in pre-order, at its depth. The paths the nodes receive are proved to address
steps of the roadmap they were rendered from. Hydration is proved against an
independent description of what it accepts and produces. The action's every
outcome is stated, including the message a failed hydration reports. A lemma
proves that the generator's sample output yields the sample roadmap.

The generator, the JSON parser and the random part of each id are parameters.
- The generator is a function from prompt to `Generation`.
- The parser is a function from text to `Result<Json, string>`.
- The random id part is `ids: nat -> string` for hydration (draws consumed in
  pre-order) and `randomSuffix` for the add-child handler.

## Model

| member | source | states |
|---|---|---|
| Steps.Ids | src/components/roadmap/roadmap-view.tsx:99-101 | the ids the steps are keyed by, in pre-order, exactly one per step of the forest |
| Steps.Addresses | src/components/roadmap/roadmap-view.tsx:19-24 | a path addresses a step when it is non-empty and every index is in range; then its parent path walks and its last index is in range of the level reached |
| Steps.WalkSnoc | src/components/roadmap/roadmap-view.tsx:20-22 | one more step of the walk succeeds exactly when the index is in range of the current level, and moves to that element's sub-steps |
| Steps.AtViaLevel | src/components/roadmap/roadmap-view.tsx:19-24 | the addressed step is the element of its parent's level at the last index, and its children are the level its own path reaches |
| Steps.WalkAppend | src/components/roadmap/roadmap-view.tsx:75-77 | walking a concatenated path is walking the first part, then the second from the level reached |
| Steps.AtAppend | src/components/roadmap/roadmap-node.tsx:154-156 | the step at q + s is the step at s inside the level q reaches |
| Steps.CountUpdate | src/components/roadmap/roadmap-view.tsx:24 | replacing one element changes the step count by the difference of the two subtree sizes |
| Steps.WalkPrefix | src/components/roadmap/roadmap-view.tsx:20-22 | a walk that succeeds also succeeds on each of its prefixes |
| Steps.IdsAround | src/components/roadmap/roadmap-view.tsx:99-101 | the ids of a forest split around any element: before it, its subtree, after it |
| TreeEdits.Merge | src/components/roadmap/roadmap-view.tsx:24 | defines the object spread: each field the patch carries replaces the step's, the others are kept (proved in `UpdateReplacesNode`) |
| TreeEdits.NewLeaf | src/components/roadmap/roadmap-view.tsx:78-83 | defines the step the add handler pushes: the given id, title "New Step", description "Add a description." and no sub-steps |
| TreeEdits.RemoveAt | src/components/roadmap/roadmap-view.tsx:33 | defines `splice(i, 1)`: the element at i is dropped, and an index past the end removes nothing (proved in `CountRemoveAt` and `DeletePastEnd`) |
| TreeEdits.Rebuild | src/components/roadmap/roadmap-view.tsx:17-25 | defines the copy-on-write result of a draft changed at one level: the ancestors on the walk are copied with new sub-steps, everything else is shared (proved in the `Rebuild…` lemmas) |
| TreeEdits.UpdateAt | src/components/roadmap/roadmap-view.tsx:16-25 | defines the update edit on a path that addresses a step: the step becomes its merge with the patch (proved in `UpdateReplacesNode`, `UpdateFrame`, `UpdateKeepsShape`, `UpdateKeepsIds`) |
| TreeEdits.DeleteAt | src/components/roadmap/roadmap-view.tsx:28-42 | defines the delete edit: the element at the last index is spliced out of the level the parent path reaches (proved in the `Delete…` lemmas) |
| TreeEdits.AddChildAt | src/components/roadmap/roadmap-view.tsx:71-86 | defines the add edit: the leaf is pushed onto the level the whole path reaches (proved in the `AddChild…` lemmas) |
| TreeEdits.RebuildInside | src/components/roadmap/roadmap-view.tsx:17-25 | after the draft changes one level, paths below that level walk and reach exactly what the new level gives |
| TreeEdits.RebuildInsideAt | src/components/roadmap/roadmap-view.tsx:17-25 | after the draft changes one level, the step below that level at a path is the step of the new level at the rest of the path |
| TreeEdits.RebuildOutside | src/components/roadmap/roadmap-view.tsx:17-25 | every path that does not go through the changed level addresses the same steps as before; each keeps id, title and description, and those that are not ancestors are unchanged |
| TreeEdits.RebuildCount | src/components/roadmap/roadmap-view.tsx:17-25 | the step count changes by the count of the new level minus that of the old |
| TreeEdits.RebuildSame | src/components/roadmap/roadmap-view.tsx:17-18 | finalising a draft whose level was not changed gives the same roadmap |
| TreeEdits.UpdateViaRebuild | src/components/roadmap/roadmap-view.tsx:19-24 | the update is the draft walk to the parent level followed by replacing the last index with the merged step |
| TreeEdits.DeleteViaRebuild | src/components/roadmap/roadmap-view.tsx:31-40 | the delete is the draft walk to the parent level followed by a splice of one element at the last index |
| TreeEdits.AddChildViaRebuild | src/components/roadmap/roadmap-view.tsx:74-84 | adding a child is the walk through every index followed by a push onto the level reached |
| TreeEdits.CountRemoveAt | src/components/roadmap/roadmap-view.tsx:40 | splicing out one element removes the steps of its subtree and no others |
| TreeEdits.UpdateReplacesNode | src/components/roadmap/roadmap-view.tsx:23-24 | the addressed step becomes its merge with the patch: patched fields take the new values, other fields keep the old ones |
| TreeEdits.UpdateFrame | src/components/roadmap/roadmap-view.tsx:16-25 | every other path addresses the same steps after an update; their id, title and description do not change, and steps that are not ancestors do not change at all |
| TreeEdits.UpdateKeepsShape | src/components/roadmap/roadmap-view.tsx:16-25 | an update leaves every level's length, and so the set of valid paths, unchanged |
| TreeEdits.DeleteRemovesElement | src/components/roadmap/roadmap-view.tsx:32-40 | the parent level loses exactly the element at the last index and is one shorter; a top-level path splices the forest itself |
| TreeEdits.DeleteShiftsSiblings | src/components/roadmap/roadmap-view.tsx:39-40 | earlier siblings keep their paths and later siblings move one index down, with their subtrees intact |
| TreeEdits.DeleteFrame | src/components/roadmap/roadmap-view.tsx:28-42 | paths outside the parent level address the same steps with the same labels, and those that are not ancestors are unchanged |
| TreeEdits.DeleteCount | src/components/roadmap/roadmap-view.tsx:28-42 | deleting a step removes exactly the steps of its subtree |
| TreeEdits.DeletePastEnd | src/components/roadmap/roadmap-view.tsx:39-40 | a splice at an index past the end of the level leaves the roadmap as it was |
| TreeEdits.AddChildAppends | src/components/roadmap/roadmap-view.tsx:75-84 | the addressed step's children become the old children followed by the new leaf, which sits at the next index |
| TreeEdits.AddChildKeepsChildren | src/components/roadmap/roadmap-view.tsx:84 | the existing children and their subtrees keep their paths |
| TreeEdits.AddChildFrame | src/components/roadmap/roadmap-view.tsx:71-86 | every existing path addresses the same steps with the same labels, and steps that are not ancestors are unchanged |
| TreeEdits.AddChildCount | src/components/roadmap/roadmap-view.tsx:78-84 | adding a leaf adds exactly one step |
| TreeEdits.RebuildIds | src/components/roadmap/roadmap-view.tsx:17-25 | the ids before and after the changed level are the same; only the ids of that level change |
| TreeEdits.UpdateKeepsIds | src/components/roadmap/roadmap-view.tsx:23-24 | an update that sets neither id nor sub-steps leaves the id list of the roadmap unchanged |
| TreeEdits.DeleteIds | src/components/roadmap/roadmap-view.tsx:28-42 | the ids after a delete, together with those of the removed subtree, are exactly the ids before |
| TreeEdits.AddChildIds | src/components/roadmap/roadmap-view.tsx:78-84 | the ids after adding a leaf are the ids before plus the leaf's id |
| TreeEdits.DeleteKeepsUniqueIds | src/components/roadmap/roadmap-view.tsx:28-42 | a roadmap with unique ids still has unique ids after a delete |
| TreeEdits.AddChildUniqueIds | src/components/roadmap/roadmap-view.tsx:78-84 | after adding a leaf the ids are unique exactly when they were unique before and the new id was not among them |
| RoadmapView.PrintFrom | src/components/roadmap/roadmap-view.tsx:57-69 | defines the printable blocks of a level: each step's title and description, then its sub-steps one level deeper, then its later siblings (proved in `PrintMatchesChildren`) |
| RoadmapView.PrintSteps | src/components/roadmap/roadmap-view.tsx:95-97 | defines the printable copy of the whole roadmap, from the top level at depth 0 (proved in `PrintVisitsEachStepOnce`) |
| RoadmapView.Descend | src/components/roadmap/roadmap-view.tsx:20-22 | the level-by-level walk succeeds exactly when every index is in range, and then reaches the level the path names |
| RoadmapView.Editor.constructor | src/components/roadmap/roadmap-view.tsx:14 | the editor starts out showing the roadmap it is given |
| RoadmapView.Editor.UpdateStep | src/components/roadmap/roadmap-view.tsx:16-25 | the update applies exactly when the path addresses a step, and the new roadmap is the update of the old; an empty path changes nothing; otherwise the roadmap is unchanged |
| RoadmapView.Editor.DeleteStep | src/components/roadmap/roadmap-view.tsx:28-42 | a top-level path splices the forest directly; a longer one applies exactly when its parent walks, giving the delete of the old roadmap; an empty path removes the first step |
| RoadmapView.Editor.AddSubStep | src/components/roadmap/roadmap-view.tsx:71-86 | the add applies exactly when the whole path walks, and appends the leaf with id "step_" plus the random part, title "New Step", description "Add a description." and no sub-steps |
| RoadmapNode.Depth | src/components/roadmap/roadmap-node.tsx:29 | defines a node's depth as its path length minus one, so top-level steps have depth 0 |
| RoadmapNode.ColorIndex | src/components/roadmap/roadmap-node.tsx:29-30 | for every node path the colour index is in the palette and equals the depth modulo the palette size; the empty path gives -1 |
| RoadmapNode.ChildPath | src/components/roadmap/roadmap-node.tsx:156 | a child's path extends the parent's path by the child's index |
| RoadmapNode.NextColor | src/components/roadmap/roadmap-node.tsx:29-30 | one level deeper takes the next colour of the palette, wrapping after the fifth |
| RoadmapNode.ChildPathAddressesChild | src/components/roadmap/roadmap-node.tsx:137-160 | a child is one level deeper, takes the next colour, and its path addresses exactly that child step |
| RoadmapNode.Decimal | src/components/roadmap/roadmap-node.tsx:33 | a number's decimal text is non-empty and all digits, has one digit exactly when the number is under 10, and starts with "0" only for 0 |
| RoadmapNode.DecimalRoundTrip | src/components/roadmap/roadmap-node.tsx:33 | reading the decimal text of n back gives n |
| RoadmapNode.SplitDots | src/components/roadmap/roadmap-node.tsx:34 | splitting at dots always gives at least one part |
| RoadmapNode.SplitDotFree | src/components/roadmap/roadmap-node.tsx:34 | a dot-free prefix ends up at the front of the first part |
| RoadmapNode.SplitJoin | src/components/roadmap/roadmap-node.tsx:34 | splitting the dot-joined segments gives the segments back when they have no dots |
| RoadmapNode.JoinDots | src/components/roadmap/roadmap-node.tsx:34 | defines `join('.')`: the segments with one dot between neighbours, "" for none (inverted by `SplitJoin`) |
| RoadmapNode.OneBased | src/components/roadmap/roadmap-node.tsx:34 | defines `path.map(idx => idx + 1)` written in decimal, one segment per index |
| RoadmapNode.NodeNumber | src/components/roadmap/roadmap-node.tsx:32-35 | defines `getNodeNumber`: a one-index path gives i + 1 written out, any other path its 1-based indices joined by dots (proved in `NodeNumberIsJoin`, `NodeNumberRoundTrip`, `NodeNumberInjective`) |
| RoadmapNode.NodeNumberIsJoin | src/components/roadmap/roadmap-node.tsx:32-35 | the one-element case agrees with the general join, so a label is always the 1-based indices joined by dots |
| RoadmapNode.NodeNumberTopLevel | src/components/roadmap/roadmap-node.tsx:33 | a top-level step at index i is labelled with i + 1 |
| RoadmapNode.NodeNumberRoundTrip | src/components/roadmap/roadmap-node.tsx:32-35 | parsing a node's label gives its path back |
| RoadmapNode.NodeNumberInjective | src/components/roadmap/roadmap-node.tsx:32-37 | two different node paths never get the same label |
| RoadmapNode.SubtreePaths | src/components/roadmap/roadmap-node.tsx:137-160 | defines the paths a node and its descendants render with: its own path, then each child's subtree with the child's index appended |
| RoadmapNode.ChildrenPaths | src/components/roadmap/roadmap-node.tsx:137-160 | defines the paths rendered for the children from a given index on, in order |
| RoadmapNode.RenderedPaths | src/components/roadmap/roadmap-view.tsx:99-103 | defines the paths of the whole node tree: top-level step i gets [i] (proved in `RenderedPathAddresses` and `PrintVisitsEachStepOnce`) |
| RoadmapNode.SubtreePathsValid | src/components/roadmap/roadmap-node.tsx:137-160 | every path a step hands down extends its own path and addresses a step of its subtree |
| RoadmapNode.ChildrenPathsValid | src/components/roadmap/roadmap-view.tsx:99-103 | every path handed to children from a given index addresses a step among them at or after that index |
| RoadmapNode.ChildrenPathsComplete | src/components/roadmap/roadmap-node.tsx:137-160 | every step among the children is rendered with its path |
| RoadmapNode.ChildrenPathsCount | src/components/roadmap/roadmap-node.tsx:137-160 | one node is rendered per step |
| RoadmapNode.PrecedesIrreflexive | src/components/roadmap/roadmap-view.tsx:57-69 | no path comes before itself in pre-order |
| RoadmapNode.PrecedesUnderPrefix | src/components/roadmap/roadmap-view.tsx:64 | nesting under a common prefix keeps the pre-order |
| RoadmapNode.ConcatPreorder | src/components/roadmap/roadmap-view.tsx:58-68 | two pre-ordered runs, the first wholly before the second, concatenate to a pre-ordered run |
| RoadmapNode.SubtreePathsPreorder | src/components/roadmap/roadmap-view.tsx:58-68 | a step's subtree is rendered in pre-order |
| RoadmapNode.SubtreeBeforeSiblings | src/components/roadmap/roadmap-view.tsx:58-68 | every path in a child's subtree comes before every path of the later siblings' subtrees |
| RoadmapNode.ChildrenPathsPreorder | src/components/roadmap/roadmap-view.tsx:58-68 | children and their subtrees are rendered in pre-order |
| RoadmapNode.LinesMatchConcat | src/components/roadmap/roadmap-view.tsx:58-68 | printed blocks that match their paths concatenate to blocks that match |
| RoadmapNode.LinesMatchLift | src/components/roadmap/roadmap-view.tsx:62-66 | blocks that match the sub-steps of a step match it when seen from the step's level |
| RoadmapNode.LinesMatchHead | src/components/roadmap/roadmap-view.tsx:59-61 | a step's own block shows its title and description at its depth |
| RoadmapNode.PrintMatchesChildren | src/components/roadmap/roadmap-view.tsx:57-69 | the print rendering of a level shows, block by block, the step each rendered path addresses, at that path's depth |
| RoadmapNode.PrintVisitsEachStepOnce | src/components/roadmap/roadmap-view.tsx:95-103 | the print rendering and the node tree both show every step exactly once, in pre-order, each with its own title and description |
| RoadmapNode.RenderedPathAddresses | src/components/roadmap/roadmap-node.tsx:156 | every path a rendered node holds addresses a step of the roadmap it was rendered from |
| RoadmapNode.NodeView.constructor | src/components/roadmap/roadmap-node.tsx:24-27 | a node mounts with the dialog, popover and confirmation closed and its children expanded |
| RoadmapNode.NodeView.ShowDescription | src/components/roadmap/roadmap-node.tsx:51 | clicking the circle opens the popover, which shows exactly when the description is not empty; other flags do not change |
| RoadmapNode.NodeView.HideDescription | src/components/roadmap/roadmap-node.tsx:109 | the popover's close button closes it and nothing else |
| RoadmapNode.NodeView.StartEditing | src/components/roadmap/roadmap-node.tsx:67 | the pencil opens the edit dialog and nothing else |
| RoadmapNode.NodeView.CancelEditing | src/components/roadmap/edit-step-dialog.tsx:47-53 | the dialog's backdrop and close button close it without an edit |
| RoadmapNode.NodeView.Save | src/components/roadmap/roadmap-node.tsx:171 | submitting sends the new title and description with the node's path and closes the dialog; the new roadmap is the update of the old with those texts when it applies, and the old roadmap otherwise; for a rendered node the step gets the texts and keeps its id and children, and the step count and ids do not change |
| RoadmapNode.NodeView.OpenDeleteModal | src/components/roadmap/roadmap-node.tsx:40 | the trash button opens the confirmation and nothing else |
| RoadmapNode.NodeView.CloseDeleteModal | src/components/roadmap/roadmap-node.tsx:41 | the confirmation's Cancel closes it and nothing else |
| RoadmapNode.NodeView.ConfirmDelete | src/components/roadmap/roadmap-node.tsx:42-45 | Delete sends the node's path to the delete handler and closes the confirmation; the new roadmap is the delete of the old when it applies, the old roadmap otherwise, and the first step removed for an empty path; for a rendered node its subtree is removed and unique ids stay unique |
| RoadmapNode.NodeView.AddClicked | src/components/roadmap/roadmap-node.tsx:64 | the plus button sends the node's path to the add handler; the new roadmap is the old one with the new leaf added under the path when it applies, the old roadmap otherwise; for a rendered node a fresh leaf becomes its last child, one step is added, and ids stay unique exactly when the drawn id is new |
| Actions.Truthy | src/app/actions.ts:11-13 | defines JavaScript truthiness of a property: a missing property, null, false, 0 and "" are falsy, arrays and objects are truthy |
| Actions.LastIndexOf | src/app/actions.ts:11-13 | the position of the last member with the key, or -1 exactly when there is none |
| Actions.Property | src/app/actions.ts:11-13 | reading a property gives a value exactly when the element is an object with that key; with duplicate keys the value is that of the last member with the key |
| Actions.TextField | src/app/actions.ts:11-12 | a falsy field takes the default; a string field is kept and is non-empty; anything else is an error |
| Actions.HydrateStep | src/app/actions.ts:9-14 | defines the hydration of one element: null fails; the id draw comes first, then the title, the description and the children, each falling back to its default when falsy (proved in `HydrateStepCorrect`, `FaultCorrect`) |
| Actions.HydrateChildren | src/app/actions.ts:13 | defines the children of a hydrated element: none for a falsy subSteps, the hydrated elements of an array, an error otherwise (proved in `HydrateChildrenCorrect`) |
| Actions.HydrateSteps | src/app/actions.ts:8-14 | defines the hydration of an array, left to right, each element drawing its ids after the previous one's; the first error stops it (proved in `HydrateStepsCorrect`, `ItemsFaultCorrect`) |
| Actions.HydrateStepAccepts | src/app/actions.ts:9-13 | a non-null element hydrates exactly when its title and description are accepted and its children hydrate |
| Actions.HydrateStepDescribes | src/app/actions.ts:9-13 | a hydrated element gives the step it describes, with the first draw as its id and its subtree's draws after it |
| Actions.HydrateStepCorrect | src/app/actions.ts:9-14 | hydrating one element succeeds exactly when it is hydratable; the step matches the element, defaults filled, and its subtree's ids are the next draws in pre-order |
| Actions.HydrateChildrenCorrect | src/app/actions.ts:13 | a falsy subSteps gives no children, an array gives its hydrated elements, and anything else fails |
| Actions.HydrateStepsCorrect | src/app/actions.ts:8-14 | hydrating an array succeeds exactly when every element is hydratable, and gives one matching step per element, in order, with ids drawn in pre-order |
| Actions.Fault | src/app/actions.ts:9-14 | defines the message hydration stops with on one element, as an independent description: null first, then a non-text title or description, then the children |
| Actions.ChildrenFault | src/app/actions.ts:13 | defines the message for the children: none for a falsy subSteps, the not-an-array message, or the first element's fault |
| Actions.ItemsFault | src/app/actions.ts:9 | defines the message for an array: the fault of its first element that has one |
| Actions.FaultCorrect | src/app/actions.ts:9-14 | hydrating one element fails exactly when it has a fault, and then with the fault's message; a fault is always one of the three hydration messages, and there is none exactly when the element is hydratable |
| Actions.ChildrenFaultCorrect | src/app/actions.ts:13 | hydrating the children fails exactly when they have a fault, and then with its message |
| Actions.ItemsFaultCorrect | src/app/actions.ts:9 | hydrating an array fails exactly when it has a fault, and then with its message |
| Actions.FaultNone | src/app/actions.ts:9-14 | an element has no fault exactly when it is hydratable |
| Actions.ItemsFaultFirst | src/app/actions.ts:9 | the message a failed array hydration reports is that of its first element that is not hydratable; every element before it is hydratable |
| Actions.HydratableHead | src/app/actions.ts:9 | past a hydratable first element, the array's fault is the rest's, and a hydratable prefix of the rest extends to one of the whole array |
| Actions.ItemsFaultSkip | src/app/actions.ts:9 | a hydratable first element adds no fault |
| Actions.HydratedIdsFresh | src/app/actions.ts:6 | every hydrated id starts with "step_", and draws that never repeat give unique ids |
| Actions.SkipBlanks | src/app/actions.ts:20 | the first position at or after i that trim does not remove |
| Actions.SkipBlanksBack | src/app/actions.ts:20 | the last end position at or before j after which trim removes everything |
| Actions.Trim | src/app/actions.ts:20 | trimming keeps the slice between the leading and the trailing white space, and what remains neither starts nor ends with white space |
| Actions.Utf16Length | src/app/actions.ts:20 | a string's length in UTF-16 code units lies between its character count and twice that |
| Actions.ShortPromptByLength | src/app/actions.ts:20-22 | a prompt with fewer than 5 characters after trimming is refused, one with 10 or more is not, and white space alone is refused |
| Actions.ShortPrompt | src/app/actions.ts:20 | defines the prompt check: an empty prompt, or one under 10 UTF-16 code units after trimming (proved in `ShortPromptByLength`) |
| Actions.Attempt | src/app/actions.ts:24-43 | defines the try block: generation, the empty-output check, parsing, the array check and hydration, the first failure giving its message (proved in `ActionOutcome`) |
| Actions.AttemptSucceeds | src/app/actions.ts:24-38 | when the generator returns text that parses to an array whose elements hydrate, the try block returns the hydrated steps |
| Actions.GenerateRoadmapAction | src/app/actions.ts:17-44 | a short prompt gives the fixed refusal; every other failure message starts with the common prefix |
| Actions.ShortPromptSkipsGeneration | src/app/actions.ts:20-22 | a refused prompt never reaches the generator, the parser or the id source |
| Actions.ActionOutcome | src/app/actions.ts:17-44 | the action succeeds exactly when the prompt is long enough, the output is non-empty, parses to an array and every element is hydratable; the roadmap then matches the array with ids drawn in pre-order; each failure carries its cause's message; a failed hydration carries the message of the array's fault |
| Actions.ExampleStepHydrates | src/app/actions.ts:9-14 | a sample element with hydratable sub-steps becomes the step with those texts and the next id |
| Actions.ExamplePromptAccepted | src/app/actions.ts:20 | the sample prompt passes the prompt check |
| Actions.LeafHydrates | src/ai/flows/generate-roadmap-from-prompt.ts:44-48 | a one-element array holding an element with texts and no children hydrates to one leaf with the next draw |
| Actions.ParentHydrates | src/ai/flows/generate-roadmap-from-prompt.ts:40-50 | an element with one childless sub-element hydrates to a step with the next draw, its sub-step taking the draw after |
| Actions.HydratePair | src/app/actions.ts:9 | two elements hydrate to the first's step then the second's, the second drawing after the first |
| Actions.TwoPhasesHydrate | src/ai/flows/generate-roadmap-from-prompt.ts:39-56 | an array shaped like the generator's sample (a phase with one sub-step, then a childless phase) hydrates in pre-order using three draws |
| Actions.ExampleTextNonEmpty | src/ai/flows/generate-roadmap-from-prompt.ts:39 | the sample text is not empty: it opens with a bracket |
| Actions.ExampleAttempt | src/app/actions.ts:24-38 | with a generator returning the sample text and a parser for it, the try block yields the sample roadmap |
| Actions.ExampleHydrates | src/ai/flows/generate-roadmap-from-prompt.ts:39-56 | the generator's sample array hydrates to the two-phase roadmap, using three draws |
| Actions.ExampleGeneration | src/app/actions.ts:17-38 | with the sample prompt, a generator returning the sample text and a parser for it, the action yields the sample roadmap |

Helper lemmas without a row of their own:
- `Steps.DistinctCounts`, `Steps.CountAppend`, `Steps.IdsAppend`, `Steps.IdsOne` and `Steps.SplitAround` (sequence bookkeeping);
- `Actions.DrawnFromAppend`, `Actions.HydrateStepsCons` and `Actions.PrefixedDraw` (id draws and array heads);
- `Actions.ExampleStepFields`, `Actions.ExamplePromptTrimmed` and `Actions.ExamplePromptEnds` (facts about the sample's literals);
- `RoadmapNode.SiblingBranchesPrecede` (pre-order under a common prefix).

## Left out

- Immer internals are left out; the model's `Rebuild` is the copy-on-write finalisation of a draft changed at one level. The handlers' `!draft` guard is left out because the view is only rendered with a roadmap.
- RoadmapView.Editor.UpdateStep: when the parent walks but the last index is out of range, the model reports `BoundsError` and leaves the roadmap unchanged. The source instead writes a new slot holding only the patched fields (no id, no sub-steps), which the model's `Step` type cannot represent. No rendered node produces such a path (`RoadmapNode.RenderedPathAddresses`).
- Actions.TextField: a title or description that is truthy but not a string (a number, `true`, an array or object) is an error (`NonTextMessage`) here. The source stores the non-string value in the step, which the model's `Step` type cannot hold. `HydrateStep`, `HydrateStepCorrect`, `HydrateStepsCorrect`, the `Fault` lemmas and `ActionOutcome` inherit this: such an element counts as not hydratable.
- The JSON parser and the AI generator are parameters. Their failures come in as messages. A generator output of `null` is `NoOutput`, with the message of reading `roadmap` from null.
- A thrown value that is not an `Error` goes through `String(e)`; the model folds it into `Threw(message)`.
- `Math.random().toString(36).substring(2, 11)` is the `ids` parameter of hydration and the `randomSuffix` parameter of the add handler. No claim is made about its distribution or its length.
- `console.error` logging is left out.
- The edit dialog's form validation is left out. This is a zod schema requiring at least 3 characters for both the title and the description (`edit-step-dialog.tsx`, lines 13-16). `Save` receives any title and description.
- The form's reset to the step's current texts is left out.
- The following files are not part of this model:
  - the page component, which holds the roadmap, the loading flag, the error message and the section's visibility;
  - `header.tsx`, which is static markup with no state;
  - `roadmap-form.tsx`;
  - the `RoadmapStep` type file.
- Styling, window positioning, `window.print` and the SVG connectors are left out.
- `isExpanded` is modelled with its initial value only, because no code path in the node changes it.
- `renderRoadmapList` is defined in the view but never rendered. It walks the tree the same way as the print rendering, which is modelled (`PrintFrom`).
- The described behaviour and the code differ on edge paths. The model follows the code:
  - an empty path in the delete handler removes the first top-level step;
  - a delete at an index past the end of a level is a no-op, not an error;
  - an empty path in the update handler changes nothing;
  - an empty path in the add handler appends a top-level step.

  No rendered node passes an empty path.
- Concurrency of the React state updates is left out. Each handler is one atomic step on the editor's roadmap.
