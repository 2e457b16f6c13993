# OFraMP molecule graph — a Dafny model

OFraMP (Online Fragment Molecule Parameterisation) shows a molecule as atoms joined
by bonds. The user selects and hovers atoms, and parameterises them by assigning
charges. This project models the two classes behind the molecule graph:

- `Atom` (atoms.dfy, with the status bitmask in statuses.dfy). It covers:
  - the status bits and their highlight operations;
  - charge assignment with its fragment log;
  - the NaN-guarded `move`;
  - the incident-bond and neighbour queries;
  - hydrogen handling: base, status delegation, and charge folding over hidden hydrogens;
  - the label;
  - the JSON and LGF record exports.
- `AtomList` (atom_lists.dfy). It covers:
  - id lookup;
  - the order-preserving filters;
  - the breadth-first spanning tree and cycle search;
  - the selection and hover updates, which edit status bits and move atoms to the end of the list;
  - the coordinate import and check;
  - the LGF export;
  - in bounding_box.dfy, the bounding-box getters over JavaScript's extended numbers.

How the model is built:

- An `Atom` is a class. Its mutable fields are `status`, the charges, the positions and the fragment log; the rest are constants. Every mutating operation is a method with a `modifies` frame.
- An `AtomList` is a class whose `atoms` field is a `seq<Atom>`. The reordering done by `toBack` is a reassignment of that field.
- Bonds are values `Bond(a1, a2, bondType)` over atom references. Atom identity matters, as it does with `===` in the source.
- The molecule's bond list and the settings `showHAtoms` and `combineHLabels` are explicit parameters.
- `isVisible` depends on the canvas, so the hover code receives it as a boolean parameter.
- `$ext.number.format` and the number-to-text conversion in the LGF line are function parameters.
- Supporting modules:
  - seqs.dfy: the `$ext.array` helpers `toBack`, `unique` and `flatten`, plus sequence facts;
  - text.dfy: splitting and joining of tab- and newline-terminated text;
  - wrappers.dfy: `Option` and an `Outcome` that is either a value or a thrown error.

## Model

| member | source | states |
|---|---|---|
| Statuses.Add | src/static/js/OFraMP/Atom.js:514-516 | `status \|= flag` sets every bit of the flag and keeps every other bit |
| Statuses.Remove | src/static/js/OFraMP/Atom.js:518-520 | `status &= ~flag` clears every bit of the flag and keeps every other bit |
| Statuses.Idempotent | src/static/js/OFraMP/Atom.js:514-520 | adding or removing the same bits a second time changes nothing, so `select` and `hover` are idempotent |
| Statuses.AddThenRemove | src/static/js/OFraMP/Atom.js:514-520 | removing just-added bits equals removing them from the original status |
| Statuses.OneBit | src/static/js/OFraMP/Atom.js:529-552 | for a one-bit flag: after `hover`/`select` the bit is set and after `dehover`/`deselect` it is clear; each is a no-op when the bit already had that value |
| Statuses.Toggle | src/static/js/OFraMP/AtomList.js:477-483 | the `addSelected` branch (deselect if selected, else select) inverts the bit and keeps all others |
| Statuses.ToggleTwice | src/static/js/OFraMP/AtomList.js:477-483 | toggling twice gives the original status back |
| Atoms.Atom.constructor | src/static/js/OFraMP/Atom.js:4-47 | every argument is stored; a missing fragment log becomes `[]`; a zero status becomes `todo`; the radius is kept |
| Atoms.Atom.SimpleJSON | src/static/js/OFraMP/Atom.js:52-62 | the simple record is the projection of the full record onto id, IACM type and coordinates |
| Atoms.Atom.SetHighlight | src/static/js/OFraMP/Atom.js:510-512 | the status becomes the given mask |
| Atoms.Atom.AddHighlight | src/static/js/OFraMP/Atom.js:514-516 | the new status is `Add(old status, mask)` |
| Atoms.Atom.RemoveHighlight | src/static/js/OFraMP/Atom.js:518-520 | the new status is `Remove(old status, mask)` |
| Atoms.Atom.ResetHighlight | src/static/js/OFraMP/Atom.js:522-524 | the status becomes `todo` |
| Atoms.Atom.Hover | src/static/js/OFraMP/Atom.js:529-531 | adds the hover bit; afterwards the atom is hovered |
| Atoms.Atom.Dehover | src/static/js/OFraMP/Atom.js:536-538 | removes the hover bit; afterwards the atom is not hovered |
| Atoms.Atom.Select | src/static/js/OFraMP/Atom.js:543-545 | adds the selected bit; afterwards the atom is selected |
| Atoms.Atom.Deselect | src/static/js/OFraMP/Atom.js:550-552 | removes the selected bit; afterwards the atom is not selected |
| Atoms.Atom.SetCharge | src/static/js/OFraMP/Atom.js:362-367 | the charge becomes `c`; the fragment log grows by exactly the fragment when one is given, else it is unchanged |
| Atoms.Atom.Move | src/static/js/OFraMP/Atom.js:471-484 | throws "moving to nowhere" iff a delta is NaN, leaving x and y unchanged; otherwise adds the deltas and returns the atom |
| Atoms.Atom.IncidentBonds | src/static/js/OFraMP/Atom.js:184-204 | the result holds exactly the bonds with this atom as an endpoint (and type 5 when aromatic) |
| Atoms.Atom.IncidentBondsOrder | src/static/js/OFraMP/Atom.js:184-204 | those bonds come in bond-list order, with their multiplicity |
| Atoms.Atom.GetBonds | src/static/js/OFraMP/Atom.js:184-204 | the push loop returns exactly `IncidentBonds` |
| Atoms.Atom.BondedAtoms | src/static/js/OFraMP/Atom.js:210-227 | position by position, the opposite endpoint of each incident bond; all are bond endpoints. Its meaning is given by `BondedAtomsSpec`, `BondedSymmetric` and `BondCountPositions` |
| Atoms.BondedAtomsSpec | src/static/js/OFraMP/Atom.js:210-227 | `c` is a neighbour iff some kept bond has `c` as the other endpoint |
| Atoms.BondedSymmetric | src/static/js/OFraMP/Atom.js:176-178 | `IsBondedWith` (`isBondedWith`) is symmetric |
| Atoms.AromaticBonded | src/static/js/OFraMP/Atom.js:193 | an aromatic neighbour is also a neighbour |
| Atoms.Atom.BondCount | src/static/js/OFraMP/Atom.js:241-255 | the count is the number of bonded atoms, i.e. the length of `getBonds` |
| Atoms.BondCountPositions | src/static/js/OFraMP/Atom.js:241-255 | the count equals the number of positions in the bond list holding a kept bond |
| Atoms.Atom.Hydrogens | src/static/js/OFraMP/Atom.js:232-236 | exactly the bonded atoms whose element is H |
| Atoms.Atom.Base | src/static/js/OFraMP/Atom.js:103-109 | a non-hydrogen is its own base; a hydrogen's base is a bonded atom, and it has none exactly when no bond is incident to it |
| Atoms.Atom.BaseIsFirstBond | src/static/js/OFraMP/Atom.js:103-109 | a hydrogen's base is the other endpoint of the first incident bond in bond-list order, i.e. `getBondedAtoms()[0]` |
| Atoms.Atom.FirstIncident | src/static/js/OFraMP/Atom.js:184-204 | the first bond `getBonds` collects is the earliest bond of the list with this atom as an endpoint |
| Atoms.LabelRoundTrip | src/static/js/OFraMP/Atom.js:132-148 | `Label` (`getLabel`) is the element, then, when hydrogens are asked for or combined and there are any, the character `H`, then for two or more the character with code `8320 + n`; its length is exactly that, and the count read back from the label is the number of bonded hydrogens when they are shown in it, else 0 |
| Atoms.Status | src/static/js/OFraMP/Atom.js:417-423 | through `StatusFrom`: the own status unless the atom is a hidden hydrogen; then the base's status, or a TypeError when there is no base |
| Atoms.StatusIsSomeAtoms | src/static/js/OFraMP/Atom.js:417-423 | a returned status is always the status of an atom that is not a hidden hydrogen (this one or a bond endpoint) |
| Atoms.GetCharge | src/static/js/OFraMP/Atom.js:442-453 | the loop returns `Charge` (`getCharge`): the own charge, folded with the hydrogens' charges when hydrogens are hidden |
| Atoms.ChargeWithHydrogens | src/static/js/OFraMP/Atom.js:442-453 | with hydrogens hidden and defined hydrogen charges, the total is the own charge (0 if unset) plus their sum |
| Atoms.FoldChargeSum | src/static/js/OFraMP/Atom.js:444-450 | folding defined charges onto a start value adds their sum to it |
| Atoms.FoldChargeRestart | src/static/js/OFraMP/Atom.js:444-450 | an undefined hydrogen charge makes the running total NaN; the `!charge` reset then restarts the sum from 0 |
| Atoms.GetPreviewCharge | src/static/js/OFraMP/Atom.js:458-466 | the loop returns `PreviewCharge` (`getPreviewCharge`): the own preview charge, plus the hydrogens' when hydrogens are hidden and the own one is set |
| Atoms.FoldPreviewSum | src/static/js/OFraMP/Atom.js:460-464 | folding preview charges gives the sum when all are defined, otherwise NaN |
| Atoms.PreviewChargeWithHydrogens | src/static/js/OFraMP/Atom.js:458-466 | with a defined own preview charge and hidden hydrogens: own plus hydrogen sum, or NaN if a hydrogen's is undefined |
| Atoms.LGFLayout | src/static/js/OFraMP/Atom.js:85-92 | `Atom.LGF` (`getLGF`): the line is eight tab-terminated fields followed by a newline |
| Atoms.LGFSplit | src/static/js/OFraMP/Atom.js:85-92 | splitting the line at tabs gives back the eight fields (charge, id, elementID, iacm, x3d, y3d, z3d, id) and the newline |
| AtomLists.Restore | src/static/js/OFraMP/AtomList.js:15-30 | rebuilding from a record of `Atom.JSON` reproduces it exactly iff its status is nonzero; otherwise the record comes back with status `todo` and is unchanged apart from the status |
| AtomLists.Records | src/static/js/OFraMP/AtomList.js:44-48 | JSON records become constructor inputs one to one, with no radius. The constructor row gives the rebuild: each record comes back as `Restore` of itself |
| AtomLists.AtomList.constructor | src/static/js/OFraMP/AtomList.js:15-30 | existing atoms are kept; each record becomes a fresh atom whose JSON is the restored record; the list is `Valid` (no atom twice, no id twice) whenever the inputs carry distinct ids |
| AtomLists.AtomList.JSON | src/static/js/OFraMP/AtomList.js:44-48 | one record per atom, in list order. The constructor and `Restore` rows give the round trip through `Records` |
| AtomLists.AtomList.SimpleJSON | src/static/js/OFraMP/AtomList.js:35-39 | one simple record per atom, in list order. The `Atoms.Atom.SimpleJSON` row gives each record's meaning: the projection of the full record |
| AtomLists.AtomList.IndexOf | src/static/js/OFraMP/AtomList.js:98-104 | the least index whose atom has the id, or none if no atom has it |
| AtomLists.AtomList.Get | src/static/js/OFraMP/AtomList.js:91-93 | the first atom with the id, or none iff no atom has that id |
| AtomLists.Find | src/static/js/OFraMP/AtomList.js:91-104 | none iff no atom has the id; otherwise an atom with that id at an index before which no atom has it |
| AtomLists.FindFirst | src/static/js/OFraMP/AtomList.js:91-104 | the atom at the least index with the id is the one found |
| AtomLists.AtomList.GetMember | src/static/js/OFraMP/AtomList.js:91-104 | in a list without repeated ids, looking up a member's id finds that member |
| AtomLists.Select | src/static/js/OFraMP/AtomList.js:138-162 | the filter keeps exactly the atoms that are selected (or uncharged non-H) |
| AtomLists.SelectOrder | src/static/js/OFraMP/AtomList.js:138-153 | the filtered list is a subsequence of the list |
| AtomLists.SelectCounts | src/static/js/OFraMP/AtomList.js:138-153 | each matching atom keeps its multiplicity and each other atom is dropped |
| AtomLists.HeavyAtomsPartition | src/static/js/OFraMP/AtomList.js:147-162 | uncharged and charged non-H atoms together account for every non-H atom exactly once |
| AtomLists.AtomList.Selected | src/static/js/OFraMP/AtomList.js:138-142 | `getSelected`: a subsequence of the list holding exactly its atoms with the selected bit |
| AtomLists.AtomList.Unparameterized | src/static/js/OFraMP/AtomList.js:147-151 | `getUnparameterized`: a subsequence of the list holding exactly its uncharged non-H atoms |
| AtomLists.AtomList.ParameterizedIDs | src/static/js/OFraMP/AtomList.js:156-162 | the ids of the charged non-H atoms, position by position in list order, one per such atom |
| AtomLists.CheckCoordinatesAsWrittenIsEmptiness | src/static/js/OFraMP/AtomList.js:54-58 | as written, `CheckCoordinatesAsWritten` is true iff the list is empty |
| AtomLists.AtomList.CoordinatesCheckedAsWritten | src/static/js/OFraMP/AtomList.js:54-58 | `checkCoordinates` of the list as written: true iff the list has no atoms |
| AtomLists.AtomList.CoordinatesChecked | src/static/js/OFraMP/AtomList.js:50-58 | `checkCoordinates` as documented: true iff no atom of the list sits at (0, 0, 0) |
| AtomLists.CheckCoordinatesAsWrittenRejects | src/static/js/OFraMP/AtomList.js:50-58 | a list with one atom away from the origin is rejected, although no atom is at (0,0,0) |
| AtomLists.CheckCoordinates | src/static/js/OFraMP/AtomList.js:50-58 | the documented check: true iff no atom has coordinates (0,0,0) |
| AtomLists.AtomList.Place | src/static/js/OFraMP/AtomList.js:67-74 | the atom takes the 3D coordinates of the first record with its elementID, and keeps them when there is none |
| AtomLists.AtomList.SetCoordinates | src/static/js/OFraMP/AtomList.js:65-76 | the same for every atom of the list |
| AtomLists.FirstMatch | src/static/js/OFraMP/AtomList.js:67-74 | none iff no record has the elementID, otherwise the first record that has it |
| AtomLists.LGFColumnsSplit | src/static/js/OFraMP/AtomList.js:79-81 | the column header splits at tabs into the eight column names |
| AtomLists.AtomList.LGFLines | src/static/js/OFraMP/AtomList.js:82-84 | one LGF line per atom, in list order. `LGFRows` and `LGFLayoutRows` give the text these lines make |
| AtomLists.LGFLayoutRows | src/static/js/OFraMP/AtomList.js:78-86 | `AtomList.LGF` (`getLGF`): the text is `@nodes`, the header and the atom lines, each ended by a newline |
| AtomLists.LGFRows | src/static/js/OFraMP/AtomList.js:78-86 | splitting the LGF text at newlines gives back `@nodes`, the header and one row per atom |
| AtomLists.AtomList.Resolve | src/static/js/OFraMP/AtomList.js:170-176 | the root is the given atom, the first atom, or the atom with the id |
| AtomLists.AtomList.GetTree | src/static/js/OFraMP/AtomList.js:169-193 | a TypeError iff there is no root; otherwise a tree rooted at the root whose every child is a neighbour of its parent, where no id is expanded twice, and every neighbour of an expanded node is on some node; an id may still sit on two nodes |
| AtomLists.BuildTree | src/static/js/OFraMP/AtomList.js:178-192 | the breadth-first loop terminates with such a tree |
| AtomLists.TreeStep | src/static/js/OFraMP/AtomList.js:182-190 | one iteration keeps the tree invariant and either expands a new id or dequeues an expanded one |
| AtomLists.Expand | src/static/js/OFraMP/AtomList.js:183-190 | expanding an id records it once in `pq` and appends children, keeping the invariant |
| AtomLists.AddChildren | src/static/js/OFraMP/AtomList.js:185-189 | every neighbour whose id is not yet expanded is appended as a child, and only those |
| AtomLists.ExpandShrinks | src/static/js/OFraMP/AtomList.js:182-184 | expanding a new id strictly shrinks the set of unexpanded ids (the termination measure) |
| AtomLists.AtomList.GetCycle | src/static/js/OFraMP/AtomList.js:200-244 | a TypeError iff there is no root; a nonempty result is a closed walk from the root; the result is empty iff no atom reachable from the root lies on a ring (a bond to itself, or a simple cycle of three or more distinct atoms), so in particular no simple cycle passes through the root |
| AtomLists.AtomList.CycleFrom | src/static/js/OFraMP/AtomList.js:209-243 | the search terminates; a nonempty result starts at the root, has bonded neighbours in sequence, and its last atom is bonded to the root; a nonempty result comes with an atom reachable from the root that lies on a ring; an empty result comes with the expanded ids and `pred`, which form a tree that is closed under bonds and has no bond besides its `pred` links |
| AtomLists.AtomList.CycleStep | src/static/js/OFraMP/AtomList.js:213-240 | one iteration: a found cycle is a closed walk, and the head of the queue is reachable from the root and lies on a ring; otherwise the search state is kept and fewer ids are left to expand, or as many with a shorter queue |
| AtomLists.AtomList.ExpandHead | src/static/js/OFraMP/AtomList.js:215-239 | expanding the head adds its id to `pq` once; a found cycle is a closed walk, and then the head is reachable from the root and lies on a ring; otherwise the search state is kept |
| AtomLists.AtomList.ExpandKeeps | src/static/js/OFraMP/AtomList.js:215-239 | a scan that finds no cycle leaves every bond among expanded atoms a `pred` link and every neighbour of an expanded atom expanded or queued |
| AtomLists.AtomList.TreeHasNoCycle | src/static/js/OFraMP/AtomList.js:209-243 | in such a tree no simple cycle passes through a reached atom |
| AtomLists.AtomList.TreeNoRing | src/static/js/OFraMP/AtomList.js:209-243 | in such a tree, no atom reached from the root by a chain of bonds lies on a ring |
| AtomLists.TreePath | src/static/js/OFraMP/AtomList.js:223-236 | the path of `pred` links between two expanded ids runs from one to the other, repeats no id, and stays among the ids expanded no later than either end |
| AtomLists.TreePathLong | src/static/js/OFraMP/AtomList.js:223-236 | between two expanded ids that are neither equal nor `pred`-linked, that path has at least three ids |
| AtomLists.AtomList.BackEdgeRing | src/static/js/OFraMP/AtomList.js:220-223 | a bond between two expanded atoms that is not a `pred` link puts the first atom on a ring: itself, or a simple cycle along the tree path |
| AtomLists.AtomList.ReachedReachable | src/static/js/OFraMP/AtomList.js:215-221 | every expanded atom is reached from the root by a chain of bonds |
| AtomLists.AtomList.FoundRing | src/static/js/OFraMP/AtomList.js:216-223 | the back edge met while scanning the newest expanded atom puts that atom on a ring reachable from the root |
| AtomLists.AtomList.LastLink | src/static/js/OFraMP/AtomList.js:218-222 | a bond from an atom reached no later than `v` is `v`'s own `pred` link |
| AtomLists.AtomList.WalkReached | src/static/js/OFraMP/AtomList.js:213-222 | a walk along bonds from a reached atom stays among listed, reached atoms |
| AtomLists.AtomList.ScanNeighbours | src/static/js/OFraMP/AtomList.js:216-238 | the `pred` map stays a tree of bonded links to the root; a reported cycle is a closed walk, and comes with a neighbour of the scanned atom that is expanded and is not its predecessor (a back edge); with no cycle, every expanded neighbour is the scanned atom's predecessor, every other neighbour is queued behind the old queue with the scanned atom as predecessor, and no other link changes |
| AtomLists.ScanQueue | src/static/js/OFraMP/AtomList.js:219-222 | queueing an unexpanded neighbour with the scanned atom as predecessor extends the scan's record |
| AtomLists.AtomList.PredTreeLink | src/static/js/OFraMP/AtomList.js:219-222 | overwriting `pred` for an unexpanded neighbour keeps it a tree of bonded links |
| AtomLists.AtomList.PathToRoot | src/static/js/OFraMP/AtomList.js:226-235 | following `pred` from an expanded id terminates with a bonded path to the root |
| AtomLists.AtomList.ClimbStep | src/static/js/OFraMP/AtomList.js:226-229 | one step to the predecessor moves strictly earlier in `pq` and keeps the path bonded |
| AtomLists.AtomList.CloseCycle | src/static/js/OFraMP/AtomList.js:223-236 | the cycle built for a back edge, from the two climbs along `pred` to the root, is a closed walk from the root |
| AtomLists.CycleClosed | src/static/js/OFraMP/AtomList.js:224-236 | the reversed first path, the root and the second path form a closed walk |
| AtomLists.AtomList.CycleOf | src/static/js/OFraMP/Atom.js:559-575 | an atom's cycle, when reported, has more than one atom and is a closed walk from the atom; when none is reported, no simple cycle passes through the atom and no atom reachable from it lies on a ring, unless it is bonded to itself; when no reachable atom lies on a ring, none is reported |
| AtomLists.Group | src/static/js/OFraMP/AtomList.js:439-441 | an atom's group holds the atom, its base and its hydrogens, and nothing else |
| AtomLists.Targets | src/static/js/OFraMP/AtomList.js:437-442 | with hydrogens shown the targets are `s`; otherwise exactly the members of the groups of `s` |
| AtomLists.AtomList.SetSelected | src/static/js/OFraMP/AtomList.js:436-466 | afterwards an atom is selected iff it is a target, with its other bits kept; the list is the old list with the newly selected atoms moved to the end in target order; the result is true iff a status changed |
| AtomLists.AtomList.SelectExactly | src/static/js/OFraMP/AtomList.js:444-465 | the two loops together: the same, for a given target list |
| AtomLists.AtomList.Deselect | src/static/js/OFraMP/AtomList.js:445-451 | every atom outside the targets loses the selected bit; the result is true iff a status changed |
| AtomLists.AtomList.SelectAll | src/static/js/OFraMP/AtomList.js:454-463 | targets gain the selected bit; the newly selected ones move to the end one by one; true iff one was newly selected |
| AtomLists.AtomList.SelectEach | src/static/js/OFraMP/AtomList.js:454-463 | the selecting loop alone: every target gets the selected bit, the newly selected ones sit at the end in target order, and the result is true iff one was newly selected |
| AtomLists.AtomList.SelectOne | src/static/js/OFraMP/AtomList.js:455-461 | a target is selected, and moved to the end iff it was not selected before; no other status changes |
| AtomLists.AtomList.MoveToEnd | src/static/js/OFraMP/AtomList.js:459 | `toBack` at `indexOf(a.id)` moves exactly that atom to the end and keeps the list free of repeats |
| AtomLists.NewlySelectedToBack | src/static/js/OFraMP/AtomList.js:454-463 | moving the newly selected atoms to the end one by one gives the other atoms in order followed by those atoms in order |
| AtomLists.NewlyChanged | src/static/js/OFraMP/AtomList.js:454-463 | the selecting loop changed a status iff some target was newly selected |
| AtomLists.HoverTarget | src/static/js/OFraMP/AtomList.js:395-401 | a visible atom is its own target; an invisible one is replaced by its base (`Base`), which is a bonded atom |
| AtomLists.AtomList.SetHover | src/static/js/OFraMP/AtomList.js:394-429 | an invisible atom with hydrogens shown returns nothing and changes nothing; otherwise the target becomes the only hovered atom, moves to the end iff newly hovered, and the result is true iff a status changed |
| AtomLists.AtomList.HoverExactly | src/static/js/OFraMP/AtomList.js:403-428 | the target gains the hover bit and every other atom loses it; the reorder and result are as above |
| AtomLists.AtomList.DehoverOthers | src/static/js/OFraMP/AtomList.js:406-412 | every atom other than the target loses the hover bit; true iff a status changed |
| AtomLists.AtomList.HoverOne | src/static/js/OFraMP/AtomList.js:415-422 | the target is hovered, and moved to the end iff it was not hovered before |
| AtomLists.Picks | src/static/js/OFraMP/AtomList.js:469-475 | the atoms `addSelected` flips: `s` itself, or its groups de-duplicated when hydrogens are hidden |
| AtomLists.AtomList.AddSelected | src/static/js/OFraMP/AtomList.js:468-484 | each picked atom's selected bit is flipped once per listing; with hydrogens hidden, exactly once |
| AtomLists.AtomList.FlipEach | src/static/js/OFraMP/AtomList.js:477-483 | after the loop, each atom's status is its old status flipped once per occurrence |
| AtomLists.AtomList.FlipOne | src/static/js/OFraMP/AtomList.js:478-482 | the loop body inverts the atom's selected bit and keeps its other bits |
| AtomLists.FlippedSoFarStep | src/static/js/OFraMP/AtomList.js:477-483 | one more iteration flips the next listed atom once more and leaves the others as they were |
| AtomLists.FlippedMeaning | src/static/js/OFraMP/AtomList.js:477-483 | after k flips the selected bit is as before when k is even and inverted when k is odd; all other bits are kept |
| AtomLists.FlippedStep | src/static/js/OFraMP/AtomList.js:477-483 | one more flip toggles the selected bit once more |
| AtomLists.AtomList.Dehighlight | src/static/js/OFraMP/AtomList.js:489-497 | with a nonzero mask every atom loses those bits; with none (0) every atom is reset to `todo` |
| AtomLists.AtomList.Move | src/static/js/OFraMP/AtomList.js:502-506 | a nonempty list throws iff a delta is NaN, with nothing moved; otherwise every atom moves by the deltas |
| AtomLists.AtomList.MoveEach | src/static/js/OFraMP/AtomList.js:503-505 | every atom moves by the deltas |
| BoundingBox.Plus | src/static/js/OFraMP/AtomList.js:352-355 | JavaScript `+` on finite values, infinities and NaN |
| BoundingBox.MinOf | src/static/js/OFraMP/AtomList.js:284-297 | the minimum is NaN iff an element is; it is a lower bound, is Infinity or attained, and is Infinity for no elements |
| BoundingBox.MaxOf | src/static/js/OFraMP/AtomList.js:310-323 | the maximum is NaN iff an element is; it is an upper bound, is -Infinity or attained |
| BoundingBox.Lows | src/static/js/OFraMP/AtomList.js:284-297 | per atom, `x - radius` (or `y - radius`), and Infinity for a hidden hydrogen. `AxisInside` and `ShownInside` give the box these values bound |
| BoundingBox.Highs | src/static/js/OFraMP/AtomList.js:310-323 | per atom, `x + radius` (or `y + radius`), and 0 for a hidden hydrogen. `AxisInside` and `ShownInside` give the box these values bound |
| BoundingBox.AxisInside | src/static/js/OFraMP/AtomList.js:281-324 | along one axis a shown atom lies between the two finite edges, and the near edge is reached by a shown atom |
| BoundingBox.ShownInside | src/static/js/OFraMP/AtomList.js:281-324 | `LeftTop` and `RightBottom`: every shown atom's disc lies inside the box, whose corners are then finite |
| BoundingBox.CornerReached | src/static/js/OFraMP/AtomList.js:281-305 | the left and top edges are each reached by a shown atom |
| BoundingBox.SizeNonNegative | src/static/js/OFraMP/AtomList.js:249-344 | `Width`, `Height` and `GetSize`: with a shown atom of non-negative radius, width and height are finite and non-negative |
| BoundingBox.CenterIsMidpoint | src/static/js/OFraMP/AtomList.js:349-364 | `CenterPoint`: with a shown atom the centre is the midpoint of the two corners |
| BoundingBox.NothingShown | src/static/js/OFraMP/AtomList.js:281-364 | with no shown atom the left-top corner is (Infinity, Infinity) and the centre is (NaN, NaN) |
| BoundingBox.HiddenReachesOrigin | src/static/js/OFraMP/AtomList.js:310-323 | a hidden hydrogen's 0 puts the right-bottom corner at or beyond the origin on both axes |
| Seqs.ToBack | src/static/js/OFraMP/AtomList.js:420 | `toBack` puts the chosen element last and is a permutation |
| Seqs.MoveToBack | src/static/js/OFraMP/AtomList.js:454-463 | the repeated `toBack` of the selecting loop is a permutation |
| Seqs.Unique | src/static/js/OFraMP/AtomList.js:474 | de-duplication keeps first occurrences in their order of first appearance, is free of repeats and keeps membership |
| Seqs.Flatten | src/static/js/OFraMP/AtomList.js:439-441 | flattening keeps exactly the members of the inner lists |

## Left out

- The `Cache` class. Memoised getters are modelled as their recomputation, and cache invalidation is not modelled. As a result, `getBondCount` calling `cache.get` where it means `set` (src/static/js/OFraMP/Atom.js:250-252) has no visible effect.
- The `Tree` class is not part of this model. The spanning tree is a list of `TreeNode(key, value, parent)`, where `parent` is an index into the list. `findSequences` and `findOccurrences` walk that class and are left out with it.
- Canvas and UI code: `draw`, `getColor`, `getBackgroundColor`, `isShowingLabel`, `getAtomAt`, `getAtomsIn`, and the cursor style set by `setHover` and `setSelected`. None of it changes the model's state.
- Floating-point and trigonometric geometry: `getDistanceTo`, `getBondAnchor`, `getDistanceToBond`, `isTouching`, `isInBB`, `rotateAround`, `scale`, `zoom`, `center`, `centerOn`, `bestFit`.
- Coordinates are exact reals. The bounding box adds `Infinity`, `-Infinity` and `NaN` only where the source can produce them.
- `isVisible` reads the canvas size, so it is a boolean parameter of `SetHover`.
- `$ext.number.format` and JavaScript's number-to-string conversion are parameters of the LGF functions. `$ext.array.min` and `max` are assumed to return the least and greatest element (`Infinity` and `-Infinity` for none, NaN as soon as one element is NaN). `$ext.array.toBack`, `unique` and `flatten` are assumed to behave as written in seqs.dfy.
- `ATOM_STATUSES` is not part of this model. The flags are assumed to be distinct single bits, with `todo` nonzero.
- `get_name_and_charge`, `getChargeLabel`, `count`, `each`, `map` and `slice` are one-line accessors or formatting helpers. They are not modelled.
- Atoms.Atom.SetCharge: a fragment is taken as given exactly when it is present (`Some`). A present but falsy fragment, such as `0` or `""`, would not be logged by the source.
- AtomLists.AtomList.SetSelected: takes a sequence of atoms. The source documents that an undefined `s` selects no atom (src/static/js/OFraMP/AtomList.js:432), and the empty sequence plays that role here.
- AtomLists.AtomList.SetSelected: requires every hidden-hydrogen target to have a base. On an isolated hydrogen the source would push `undefined` into the list and fail with a TypeError later.
- AtomLists.AtomList.AddSelected: the same requirement as `SetSelected`. Its statuses are stated only for atoms that existed before the call.
- AtomLists.AtomList.SetHover and AtomLists.AtomList.SetSelected require every target to be in the list. The source would call `toBack` with an undefined index otherwise.
- AtomLists.AtomList.MoveEach: requires a list without repeated atoms. An atom listed twice would be moved twice by the source.
- AtomLists.AtomList.Move: has the same requirement as `MoveEach`.
- AtomLists.AtomList.GetCycle, AtomLists.AtomList.CycleFrom, AtomLists.AtomList.CycleOf and AtomLists.AtomList.ScanNeighbours: require the bond list to be closed over the list's atoms, so that `this.get(p)` finds every atom of a path.
- Atoms.Atom.SetCharge and AtomLists.AtomList.constructor: the fragment log is a value here. In the source, `getJSON` hands out the atom's own log array (src/static/js/OFraMP/Atom.js:80), and an atom rebuilt from such a record keeps that same array (src/static/js/OFraMP/AtomList.js:25-27, src/static/js/OFraMP/Atom.js:44). A later `setCharge` with a fragment (src/static/js/OFraMP/Atom.js:365) then grows the log of both atoms. The model copies the log, so only the atom charged gains the fragment.
- AtomLists.AtomList.CycleOf and AtomLists.AtomList.GetCycle: a reported walk passes through the starting atom, but that atom need not lie on the ring. With a bond R–A and a triangle A–B–C, the search from R returns R, A, B, C, A (src/static/js/OFraMP/AtomList.js:224-237). Yet `Atom.getCycle` is documented as the cycle the atom is part of (src/static/js/OFraMP/Atom.js:555). The model promises only what the code does: a closed walk from the atom, and a ring reachable from it.
- AtomLists.AtomList.constructor: promises `Valid` only for inputs with distinct ids. The source does not check ids, and a list built from repeated ids is simply not `Valid`.
- Text.IntToText: writes every integer in plain decimal. JavaScript switches to exponent notation from 10^21 in magnitude on, which atom ids and IACM types do not reach.
- `isCharged` and `isBondedWith` are one-line predicates (`Atom.IsCharged`, `Atom.IsBondedWith`). Their meaning is stated by the filters and by `BondedSymmetric`.
- The LGF header constant is written as the eight column names, each terminated by a tab. This spells out the literal `"partial_charge\tlabel\t…\tinitColor\t"`.
- Atoms.LabelRoundTrip: assumes fewer than 46976 bonded hydrogens, so that code point `8320 + n` is a character.

## Findings

| source | as written | input that shows it | evidently intended | confidence | as-written member | corrected member |
|---|---|---|---|---|---|---|
| src/static/js/OFraMP/AtomList.js:54-58 | `this.map(...)` keeps one entry per atom, so the length test is `=== 0` only for an empty list | one atom at (1, 0, 0): as written the result is false | true iff no atom is at (0, 0, 0), as the doc comment says (a `filter`) | high, not executed | AtomLists.CheckCoordinatesAsWrittenRejects | AtomLists.CheckCoordinates |
