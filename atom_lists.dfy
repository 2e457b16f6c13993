/**
 * The ordered atom collection of a molecule. The order of `atoms` is the
 * drawing order: atoms that become selected or hovered are moved to the end
 * so that they are drawn on top.
 */
module AtomLists {
  import opened Wrappers
  import opened Statuses
  import opened Atoms
  import Seqs
  import Text

  /** An element of the constructor's input: an atom, or a plain record to build one from. */
  datatype AtomInput = Existing(atom: Atom) | Record(json: AtomJSON, radius: Option<real>)

  /** The id an input atom or record carries. */
  function InputId(x: AtomInput): int {
    match x
    case Existing(a) => a.id
    case Record(r, _) => r.id
  }

  /** No two inputs carry the same id. */
  predicate DistinctIds(inputs: seq<AtomInput>) {
    forall i, j | 0 <= i < j < |inputs| :: InputId(inputs[i]) != InputId(inputs[j])
  }

  /** A record of the `setCoordinates` input. */
  datatype Coordinates = Coordinates(elementID: string, x3d: real, y3d: real, z3d: real)

  /** A 3D position. */
  datatype Point = Point(x: real, y: real, z: real)

  /** The selections the list offers. */
  datatype Kind = SelectedAtoms | Unparameterized | Parameterized

  /**
   * The record an atom rebuilt from `r` reports: `r` itself, except that a
   * zero status comes back as `TODO`.
   */
  function Restore(r: AtomJSON): (j: AtomJSON)
    ensures j == r <==> r.status != 0
    ensures j.status != 0 && j.(status := r.status) == r
    ensures r.status == 0 ==> j.status == TODO
  {
    r.(status := if r.status == 0 then TODO else r.status)
  }

  /** The records of an export, as constructor input (a record carries no radius). */
  function Records(js: seq<AtomJSON>): (r: seq<AtomInput>)
    ensures |r| == |js| && forall i :: 0 <= i < |js| ==> r[i] == Record(js[i], None)
  {
    seq(|js|, i requires 0 <= i < |js| => Record(js[i], None))
  }

  predicate Matches(a: Atom, kind: Kind)
    reads a
  {
    match kind
    case SelectedAtoms => Has(a.status, SELECTED)
    case Unparameterized => !a.IsCharged() && a.element != "H"
    case Parameterized => a.IsCharged() && a.element != "H"
  }

  /** The atoms of `s` of the given kind, in their order in `s`. */
  function Select(s: seq<Atom>, kind: Kind): (r: seq<Atom>)
    reads s
    ensures forall a | a in r :: a in s && Matches(a, kind)
    ensures forall a | a in s && Matches(a, kind) :: a in r
  {
    if s == [] then []
    else
      var rest, a := Select(s[..|s| - 1], kind), s[|s| - 1];
      assert s == s[..|s| - 1] + [a];
      if Matches(a, kind) then rest + [a] else rest
  }

  /** A selection grows by the last atom of the list exactly when that atom is of the kind. */
  lemma SelectSnoc(s: seq<Atom>, kind: Kind)
    requires s != []
    ensures var n := |s| - 1;
      Select(s, kind) == Select(s[..n], kind) + if Matches(s[n], kind) then [s[n]] else []
  {
  }

  /** The selections keep the order of the list. */
  lemma {:induction false} SelectOrder(s: seq<Atom>, kind: Kind)
    ensures Seqs.IsSubsequence(Select(s, kind), s)
  {
    if s != [] {
      var n := |s| - 1;
      SelectOrder(s[..n], kind);
      SelectSnoc(s, kind);
      var r := Select(s, kind);
      if Matches(s[n], kind) {
        assert r[..|r| - 1] == Select(s[..n], kind);
      }
    }
  }

  /** The selections keep every atom of the kind as often as the list holds it, and no other. */
  lemma {:induction false} SelectCounts(s: seq<Atom>, kind: Kind)
    ensures forall a | a in s :: multiset(Select(s, kind))[a] == if Matches(a, kind) then multiset(s)[a] else 0
  {
    if s != [] {
      var n := |s| - 1;
      SelectCounts(s[..n], kind);
      SelectSnoc(s, kind);
      assert s == s[..n] + [s[n]];
      forall a | a in s
        ensures multiset(Select(s, kind))[a] == if Matches(a, kind) then multiset(s)[a] else 0
      {
        if a !in s[..n] {
          assert multiset(s[..n])[a] == 0;
          assert a !in Select(s[..n], kind);
        }
      }
    }
  }

  /**
   * The unparameterised and the parameterised atoms together are the atoms
   * that are not hydrogens, each as often as it occurs in the list.
   */
  lemma {:induction false} HeavyAtomsPartition(s: seq<Atom>)
    ensures forall a | a in s ::
      multiset(Select(s, Unparameterized))[a] + multiset(Select(s, Parameterized))[a]
      == if a.element != "H" then multiset(s)[a] else 0
  {
    if s != [] {
      var init := s[..|s| - 1];
      assert s == init + [s[|s| - 1]];
      HeavyAtomsPartition(init);
    }
  }

  /** The first record with the given element label. */
  function FirstMatch(recs: seq<Coordinates>, elementID: string): (r: Option<Coordinates>)
    ensures r.None? <==> forall k | 0 <= k < |recs| :: recs[k].elementID != elementID
    ensures r.Some? ==> exists k | 0 <= k < |recs| ::
      recs[k] == r.value && r.value.elementID == elementID &&
      forall j | 0 <= j < k :: recs[j].elementID != elementID
  {
    if recs == [] then None
    else if recs[0].elementID == elementID then Some(recs[0])
    else
      var r := FirstMatch(recs[1..], elementID);
      assert forall k | 1 <= k < |recs| :: recs[k] == recs[1..][k - 1];
      r
  }

  /** The first atom of `s` with the given id. */
  function Find(s: seq<Atom>, id: int): (r: Option<Atom>)
    ensures r.None? <==> forall a | a in s :: a.id != id
    ensures r.Some? ==> exists k | 0 <= k < |s| ::
      s[k] == r.value && r.value.id == id && forall j | 0 <= j < k :: s[j].id != id
  {
    if s == [] then None
    else if s[0].id == id then Some(s[0])
    else
      var r := Find(s[1..], id);
      assert forall k | 1 <= k < |s| :: s[k] == s[1..][k - 1];
      assert forall a | a in s[1..] :: a in s;
      r
  }

  /** The atom at the least index carrying `id` is the one `Find` gives. */
  lemma {:induction false} FindFirst(s: seq<Atom>, id: int, k: nat)
    requires k < |s| && s[k].id == id
    requires forall j | 0 <= j < k :: s[j].id != id
    ensures Find(s, id) == Some(s[k])
  {
    if k > 0 {
      FindFirst(s[1..], id, k - 1);
    }
  }

  predicate AtOrigin(p: Point) {
    p.x == 0.0 && p.y == 0.0 && p.z == 0.0
  }

  /** `checkCoordinates` as written: the length of a `map` over the list is compared with 0. */
  function CheckCoordinatesAsWritten(ps: seq<Point>): bool {
    |seq(|ps|, i requires 0 <= i < |ps| => AtOrigin(ps[i]))| == 0
  }

  /** As written, the check holds exactly for an empty list. */
  lemma CheckCoordinatesAsWrittenIsEmptiness(ps: seq<Point>)
    ensures CheckCoordinatesAsWritten(ps) <==> ps == []
  {
    assert |seq(|ps|, i requires 0 <= i < |ps| => AtOrigin(ps[i]))| == |ps|;
  }

  /** A single atom away from the origin fails the check as written. */
  lemma CheckCoordinatesAsWrittenRejects()
    ensures !CheckCoordinatesAsWritten([Point(1.0, 0.0, 0.0)])
    ensures forall i :: 0 <= i < |[Point(1.0, 0.0, 0.0)]| ==> !AtOrigin([Point(1.0, 0.0, 0.0)][i])
  {
    CheckCoordinatesAsWrittenIsEmptiness([Point(1.0, 0.0, 0.0)]);
  }

  /** The points at the origin, in order. */
  function AtOriginIn(ps: seq<Point>): (r: seq<Point>)
    ensures forall p | p in r :: p in ps && AtOrigin(p)
    ensures forall p | p in ps && AtOrigin(p) :: p in r
  {
    Seqs.Filter(ps, AtOrigin)
  }

  /** `checkCoordinates` as documented: the origin points are filtered, not mapped. */
  function CheckCoordinates(ps: seq<Point>): (r: bool)
    ensures r <==> forall i :: 0 <= i < |ps| ==> !AtOrigin(ps[i])
  {
    var r := AtOriginIn(ps);
    assert r != [] ==> r[0] in r;
    assert forall i | 0 <= i < |ps| :: ps[i] in ps;
    |r| == 0
  }

  const LGFColumnNames := ["partial_charge", "label", "label2", "atomType", "coordX", "coordY", "coordZ", "initColor"]

  /** The column row of the node section, without its newline: each column name followed by a tab. */
  const LGFColumns := Text.Terminated(LGFColumnNames, '\t')

  lemma LGFColumnNamesPlain()
    ensures forall k | 0 <= k < |LGFColumnNames| :: '\t' !in LGFColumnNames[k] && '\n' !in LGFColumnNames[k]
  {
  }

  /** The header row names one column per field of an atom line. */
  lemma LGFColumnsSplit()
    ensures Text.SplitOn(LGFColumns, '\t') == LGFColumnNames + [""]
    ensures |LGFColumnNames| == 8
  {
    LGFColumnNamesPlain();
    Text.SplitLayout(LGFColumnNames, '\t');
  }

  /* Traversals. */

  /** The root argument of `getTree` and `getCycle`: an atom, nothing (the first atom), or an id. */
  datatype RootRef = AtomRef(atom: Atom) | NoRoot | IdRef(id: int)

  /**
   * A node of the tree `getTree` builds, with the nodes numbered in the order
   * they are created (the root is node 0): its key, its atom and the number of
   * its parent node.
   */
  datatype TreeNode = TreeNode(key: int, value: Atom, parent: Option<nat>)

  /** No node before node `p` has the key of node `p`. */
  ghost predicate FirstKey(t: seq<TreeNode>, p: nat)
    requires p < |t|
  {
    forall m | 0 <= m < p :: t[m].key != t[p].key
  }

  /**
   * Node `c` hangs below an earlier node, is keyed by its atom's id, holds a
   * bonded neighbour of its parent's atom, and its key was not expanded when
   * it was added: no node up to its parent carries it. Its parent is the first
   * node with the parent's key, so no id is expanded twice.
   */
  ghost predicate ChildOk(t: seq<TreeNode>, c: nat, bonds: seq<Bond>, arom: bool)
    requires 0 < c < |t|
  {
    var p := t[c].parent;
    p.Some? && p.value < c && t[c].key == t[c].value.id &&
    Bonded(t[p.value].value, t[c].value, bonds, arom) &&
    FirstKey(t, p.value) &&
    forall m | 0 <= m <= p.value :: t[m].key != t[c].key
  }

  /** `t` is a tree of bonded atoms rooted at `root`, expanding each id at most once. */
  ghost predicate IsTree(t: seq<TreeNode>, root: Atom, bonds: seq<Bond>, arom: bool) {
    |t| >= 1 && t[0] == TreeNode(root.id, root, None) &&
    forall c | 0 < c < |t| :: ChildOk(t, c, bonds, arom)
  }

  /** Every neighbour of an expanded node (the first node of its key) has its id on some node. */
  ghost predicate Spans(t: seq<TreeNode>, bonds: seq<Bond>, arom: bool) {
    forall p | 0 <= p < |t| :: Covers(t, p, bonds, arom)
  }

  /** The facts about old nodes survive the growth of the tree. */
  lemma ChildOkGrow(t: seq<TreeNode>, u: seq<TreeNode>, c: nat, bonds: seq<Bond>, arom: bool)
    requires 0 < c < |t| <= |u| && u[..|t|] == t
    requires ChildOk(t, c, bonds, arom)
    ensures ChildOk(u, c, bonds, arom)
  {
    assert forall m | 0 <= m < |t| :: u[m] == t[m];
  }

  /** The ids of `ids` not yet expanded. */
  ghost function Unexpanded(ids: set<int>, pq: seq<int>): set<int> {
    ids - set x | x in pq
  }

  /** The ids a tree from `root` can hold: the root's and those of the bonded atoms. */
  ghost function TreeIds(root: Atom, bonds: seq<Bond>): (ids: set<int>)
    ensures root.id in ids && forall a | a in Endpoints(bonds) :: a.id in ids
  {
    {root.id} + set a | a in Endpoints(bonds) :: a.id
  }

  /** The number of ids of `ids` not yet expanded. */
  ghost function Remaining(ids: set<int>, pq: seq<int>): nat {
    |Unexpanded(ids, pq)|
  }

  /** Adding one key to the expanded ids takes it out of the rest. */
  lemma ExpandShrinks(ids: set<int>, pq: seq<int>, k: int)
    requires k in ids && k !in pq
    ensures |Unexpanded(ids, pq + [k])| < |Unexpanded(ids, pq)|
  {
    var before, after := set x | x in pq, set x | x in pq + [k];
    assert after == before + {k};
    assert ids - before == (ids - after) + {k};
  }

  /**
   * The state of `getTree` before node `h` is taken from the queue: the keys
   * of the nodes before `h` are exactly the expanded ids `pq`, every child
   * hangs below a node already taken, and every expanded node's neighbours
   * have their ids on some node.
   */
  ghost predicate TreeState(t: seq<TreeNode>, h: nat, pq: seq<int>, root: Atom, ids: set<int>, bonds: seq<Bond>, arom: bool) {
    h <= |t| && |t| >= 1 && t[0] == TreeNode(root.id, root, None) &&
    (forall c | 0 <= c < |t| :: t[c].key in ids) &&
    (forall k | k in pq :: k in ids) &&
    (forall m | 0 <= m < h :: t[m].key in pq) &&
    (forall k | k in pq :: exists m | 0 <= m < h :: t[m].key == k) &&
    (forall c | 0 < c < |t| :: Hung(t, c, h, bonds, arom)) &&
    (forall p | 0 <= p < h :: Covers(t, p, bonds, arom))
  }

  /** Node `c` is a proper child whose parent is among the first `h` nodes. */
  ghost predicate Hung(t: seq<TreeNode>, c: nat, h: nat, bonds: seq<Bond>, arom: bool)
    requires 0 < c < |t|
  {
    ChildOk(t, c, bonds, arom) && t[c].parent.value < h
  }

  /** If node `p` is expanded, every neighbour of its atom has its id on some node. */
  ghost predicate Covers(t: seq<TreeNode>, p: nat, bonds: seq<Bond>, arom: bool)
    requires p < |t|
  {
    FirstKey(t, p) ==> forall b | b in t[p].value.BondedAtoms(bonds, arom) :: exists m | 0 <= m < |t| :: t[m].key == b.id
  }

  /** Before the loop of `getTree` the queue holds the root alone and nothing is expanded. */
  lemma TreeStateInit(root: Atom, ids: set<int>, bonds: seq<Bond>, arom: bool)
    requires root.id in ids
    ensures TreeState([TreeNode(root.id, root, None)], 0, [], root, ids, bonds, arom)
  {
  }

  /** At the end of `getTree` the state is a spanning tree. */
  lemma TreeStateDone(t: seq<TreeNode>, pq: seq<int>, root: Atom, ids: set<int>, bonds: seq<Bond>, arom: bool)
    requires TreeState(t, |t|, pq, root, ids, bonds, arom)
    ensures IsTree(t, root, bonds, arom) && Spans(t, bonds, arom)
  {
    forall c | 0 < c < |t| ensures ChildOk(t, c, bonds, arom) {
      assert Hung(t, c, |t|, bonds, arom);
    }
  }

  /** A node whose key is already expanded is dropped from the queue. */
  lemma SkipExpanded(t: seq<TreeNode>, h: nat, pq: seq<int>, root: Atom, ids: set<int>, bonds: seq<Bond>, arom: bool)
    requires TreeState(t, h, pq, root, ids, bonds, arom) && h < |t| && t[h].key in pq
    ensures TreeState(t, h + 1, pq, root, ids, bonds, arom)
  {
    var m :| 0 <= m < h && t[m].key == t[h].key;
    assert !FirstKey(t, h);
    var next := h + 1;
    forall c | 0 < c < |t| ensures Hung(t, c, next, bonds, arom) {
      assert Hung(t, c, h, bonds, arom);
    }
    forall p | 0 <= p < next ensures Covers(t, p, bonds, arom) {
      if p < h {
        assert Covers(t, p, bonds, arom);
      }
    }
  }

  /** One expansion of `getTree`: node `h` has an unexpanded key, which is expanded. */
  method Expand(t: seq<TreeNode>, h: nat, pq: seq<int>, root: Atom, ghost ids: set<int>, bonds: seq<Bond>, arom: bool)
    returns (u: seq<TreeNode>, pq': seq<int>)
    requires TreeState(t, h, pq, root, ids, bonds, arom) && h < |t| && t[h].key !in pq
    requires forall a | a in Endpoints(bonds) :: a.id in ids
    ensures pq' == pq + [t[h].key]
    ensures |u| >= |t| && u[..|t|] == t
    ensures TreeState(u, h + 1, pq', root, ids, bonds, arom)
  {
    pq' := pq + [t[h].key];
    var nbrs := t[h].value.BondedAtoms(bonds, arom);
    u := AddChildren(t, h, nbrs, pq');
    assert forall m | 0 <= m < |t| :: u[m] == t[m];
    assert FirstKey(u, h) by {
      forall m | 0 <= m < h ensures u[m].key != u[h].key {
        assert t[m].key in pq;
      }
    }
    var next := h + 1;
    forall c | 0 < c < |u| ensures Hung(u, c, next, bonds, arom) {
      if c < |t| {
        assert Hung(t, c, h, bonds, arom);
        ChildOkGrow(t, u, c, bonds, arom);
      } else {
        forall m | 0 <= m <= h ensures u[m].key != u[c].key {
          if m < h {
            assert t[m].key in pq;
          }
        }
      }
    }
    forall p | 0 <= p < h + 1 ensures Covers(u, p, bonds, arom) {
      if p < h {
        CoversGrow(t, u, p, bonds, arom);
      } else {
        forall b | b in nbrs ensures exists m | 0 <= m < |u| :: u[m].key == b.id {
          if b.id == t[h].key {
            assert u[h].key == b.id;
          } else if b.id in pq {
            var m :| 0 <= m < h && t[m].key == b.id;
            assert u[m].key == b.id;
          } else {
            var c :| |t| <= c < |u| && u[c].value == b;
            assert u[c].key == b.id;
          }
        }
      }
    }
    forall c | 0 <= c < |u| ensures u[c].key in ids {
      if c >= |t| {
        assert u[c].value in nbrs;
      }
    }
    forall k | k in pq' ensures exists m | 0 <= m < h + 1 :: u[m].key == k {
      if k in pq {
        var m :| 0 <= m < h && t[m].key == k;
        assert u[m].key == k;
      } else {
        assert u[h].key == k;
      }
    }
  }

  /** Coverage of an old node survives the growth of the tree. */
  lemma CoversGrow(t: seq<TreeNode>, u: seq<TreeNode>, p: nat, bonds: seq<Bond>, arom: bool)
    requires p < |t| <= |u| && u[..|t|] == t
    requires Covers(t, p, bonds, arom)
    ensures Covers(u, p, bonds, arom)
  {
    assert forall m | 0 <= m < |t| :: u[m] == t[m];
    if FirstKey(u, p) {
      assert FirstKey(t, p);
      forall b | b in u[p].value.BondedAtoms(bonds, arom) ensures exists m | 0 <= m < |u| :: u[m].key == b.id {
        var m :| 0 <= m < |t| && t[m].key == b.id;
        assert u[m].key == b.id;
      }
    }
  }

  /** The loop of `getTree`. The queue is always the nodes from `h` on, in creation order. */
  method BuildTree(root: Atom, bonds: seq<Bond>, arom: bool) returns (t: seq<TreeNode>)
    ensures IsTree(t, root, bonds, arom) && Spans(t, bonds, arom)
  {
    ghost var ids := TreeIds(root, bonds);
    t := [TreeNode(root.id, root, None)];
    var h := 0;
    var pq: seq<int> := [];
    TreeStateInit(root, ids, bonds, arom);
    while h < |t|
      // Compared with `true`, the invariant stays one fact, which TreeStep and
      // TreeStateInit ensure whole; written bare, Dafny unfolds it into its
      // clauses and proves each again, several times as slowly.
      invariant TreeState(t, h, pq, root, ids, bonds, arom) == true
      decreases Remaining(ids, pq), |t| - h
    {
      t, pq := TreeStep(t, h, pq, root, ids, bonds, arom);
      h := h + 1;
    }
    TreeStateDone(t, pq, root, ids, bonds, arom);
  }

  /** One round of `getTree`'s loop: node `h` leaves the queue and is expanded unless its key was. */
  method TreeStep(t: seq<TreeNode>, h: nat, pq: seq<int>, root: Atom, ghost ids: set<int>, bonds: seq<Bond>, arom: bool)
    returns (u: seq<TreeNode>, pq': seq<int>)
    requires TreeState(t, h, pq, root, ids, bonds, arom) && h < |t|
    requires ids == TreeIds(root, bonds)
    ensures TreeState(u, h + 1, pq', root, ids, bonds, arom)
    ensures Remaining(ids, pq') < Remaining(ids, pq) || (Remaining(ids, pq') == Remaining(ids, pq) && |u| == |t|)
  {
    if t[h].key !in pq {
      ExpandShrinks(ids, pq, t[h].key);
      u, pq' := Expand(t, h, pq, root, ids, bonds, arom);
    } else {
      SkipExpanded(t, h, pq, root, ids, bonds, arom);
      u, pq' := t, pq;
    }
  }

  /** The inner loop of `getTree`: each neighbour whose id is not expanded becomes a child of node `h`. */
  method AddChildren(t: seq<TreeNode>, h: nat, nbrs: seq<Atom>, pq: seq<int>) returns (u: seq<TreeNode>)
    requires h < |t|
    ensures |u| >= |t| && u[..|t|] == t
    ensures forall c | |t| <= c < |u| ::
      u[c].parent == Some(h) && u[c].key == u[c].value.id && u[c].value in nbrs && u[c].key !in pq
    ensures forall b | b in nbrs && b.id !in pq :: exists c | |t| <= c < |u| :: u[c].value == b
  {
    u := t;
    var i := 0;
    while i < |nbrs|
      invariant 0 <= i <= |nbrs|
      invariant |u| >= |t| && u[..|t|] == t
      invariant forall c | |t| <= c < |u| ::
        u[c].parent == Some(h) && u[c].key == u[c].value.id && u[c].value in nbrs && u[c].key !in pq
      invariant forall b | b in nbrs[..i] && b.id !in pq :: exists c | |t| <= c < |u| :: u[c].value == b
    {
      var b := nbrs[i];
      assert nbrs[..i + 1] == nbrs[..i] + [b];
      if b.id !in pq {
        var before := u;
        u := u + [TreeNode(b.id, b, Some(h))];
        forall x | x in nbrs[..i + 1] && x.id !in pq ensures exists c | |t| <= c < |u| :: u[c].value == x {
          if x == b {
            assert u[|u| - 1].value == x;
          } else {
            var c :| |t| <= c < |before| && before[c].value == x;
            assert u[c] == before[c];
          }
        }
      }
      i := i + 1;
    }
    assert nbrs[..|nbrs|] == nbrs;
  }

  /** Consecutive atoms of `c` are bonded. */
  ghost predicate Chain(c: seq<Atom>, bonds: seq<Bond>, arom: bool) {
    forall i | 0 <= i < |c| - 1 :: Bonded(c[i], c[i + 1], bonds, arom)
  }

  /** `c` starts at `root`, walks along bonds and is bonded back to `root` at its end. */
  ghost predicate ClosedWalk(c: seq<Atom>, root: Atom, bonds: seq<Bond>, arom: bool) {
    c != [] && c[0] == root && Chain(c, bonds, arom) && Bonded(c[|c| - 1], root, bonds, arom)
  }

  /**
   * `path` climbs the `pred` links towards `root`: each atom is bonded to the one
   * before it, and `root` is bonded to the last one.
   */
  ghost predicate Climbs(path: seq<Atom>, root: Atom, bonds: seq<Bond>, arom: bool) {
    (forall i | 0 <= i < |path| - 1 :: Bonded(path[i + 1], path[i], bonds, arom)) &&
    (path != [] ==> Bonded(root, path[|path| - 1], bonds, arom))
  }

  /** Joining two chains by a bond gives a chain. */
  lemma ChainAppend(c: seq<Atom>, d: seq<Atom>, bonds: seq<Bond>, arom: bool)
    requires Chain(c, bonds, arom) && Chain(d, bonds, arom)
    requires c != [] && d != [] ==> Bonded(c[|c| - 1], d[0], bonds, arom)
    ensures Chain(c + d, bonds, arom)
  {
    var e := c + d;
    forall i | 0 <= i < |e| - 1 ensures Bonded(e[i], e[i + 1], bonds, arom) {
      if i < |c| - 1 {
        assert e[i] == c[i] && e[i + 1] == c[i + 1];
      } else if i == |c| - 1 {
        assert e[i] == c[|c| - 1] && e[i + 1] == d[0];
      } else {
        assert e[i] == d[i - |c|] && e[i + 1] == d[i - |c| + 1];
      }
    }
  }

  /** A climb, read downwards from the root, is a chain. */
  lemma ClimbReversed(path: seq<Atom>, root: Atom, bonds: seq<Bond>, arom: bool)
    requires Climbs(path, root, bonds, arom)
    ensures Chain(Seqs.Reverse(path + [root]), bonds, arom)
  {
    var f := path + [root];
    var rf := Seqs.Reverse(f);
    forall i | 0 <= i < |rf| - 1 ensures Bonded(rf[i], rf[i + 1], bonds, arom) {
      var j := |f| - 2 - i;
      assert rf[i] == f[j + 1] && rf[i + 1] == f[j];
      if j == |f| - 2 {
        assert f[j + 1] == root && f[j] == path[|path| - 1];
      } else {
        assert f[j + 1] == path[j + 1] && f[j] == path[j];
      }
    }
  }

  /** A climb, read upwards, is a chain too, since bonds have no direction. */
  lemma ClimbChain(path: seq<Atom>, root: Atom, bonds: seq<Bond>, arom: bool)
    requires Climbs(path, root, bonds, arom)
    ensures Chain(path, bonds, arom)
    ensures path != [] ==> Bonded(path[|path| - 1], root, bonds, arom)
  {
    forall i | 0 <= i < |path| - 1 ensures Bonded(path[i], path[i + 1], bonds, arom) {
      BondedSymmetric(path[i + 1], path[i], bonds, arom);
    }
    if path != [] {
      BondedSymmetric(root, path[|path| - 1], bonds, arom);
    }
  }

  /**
   * The cycle `getCycle` assembles for a back edge from `n` to `nbr`: the climb
   * from `n`, reversed after the root, then the climb from `nbr`.
   */
  lemma CycleClosed(first: seq<Atom>, second: seq<Atom>, root: Atom, n: Atom, nbr: Atom, bonds: seq<Bond>, arom: bool)
    requires Climbs(first, root, bonds, arom) && Climbs(second, root, bonds, arom)
    requires if first == [] then n == root else first[0] == n
    requires if second == [] then nbr == root else second[0] == nbr
    requires Bonded(n, nbr, bonds, arom)
    ensures ClosedWalk(Seqs.Reverse(first + [root]) + second, root, bonds, arom)
  {
    var rf := Seqs.Reverse(first + [root]);
    assert rf[0] == root;
    assert rf[|rf| - 1] == n;
    ClimbReversed(first, root, bonds, arom);
    ClimbChain(second, root, bonds, arom);
    ChainAppend(rf, second, bonds, arom);
    var c := rf + second;
    if second == [] {
      assert c == rf;
    } else {
      assert c[|c| - 1] == second[|second| - 1];
    }
  }

  /** A `pred` link joins the ids `i` and `j`, in one direction or the other. */
  ghost predicate PredLink(pred: map<int, int>, i: int, j: int) {
    (i in pred && pred[i] == j) || (j in pred && pred[j] == i)
  }

  /** `w` is a cycle through `root` of at least three atoms that repeats no atom. */
  ghost predicate SimpleCycle(w: seq<Atom>, root: Atom, bonds: seq<Bond>, arom: bool) {
    |w| >= 3 && ClosedWalk(w, root, bonds, arom) && Seqs.Distinct(w)
  }

  /** `c` is a chain of bonds from `root` to `a`. */
  ghost predicate Walk(root: Atom, c: seq<Atom>, a: Atom, bonds: seq<Bond>, arom: bool) {
    c != [] && c[0] == root && c[|c| - 1] == a && Chain(c, bonds, arom)
  }

  /** `w` is a ring through `a`: a bond of `a` to itself, or a simple cycle from `a`. */
  ghost predicate Ring(w: seq<Atom>, a: Atom, bonds: seq<Bond>, arom: bool) {
    (w == [a] && Bonded(a, a, bonds, arom)) || SimpleCycle(w, a, bonds, arom)
  }

  /** Between two ids that are neither equal nor linked, the tree path has an id in between. */
  lemma TreePathLong(x: int, y: int, pred: map<int, int>, pq: seq<int>) returns (r: seq<int>)
    requires ParentsFirst(pred, pq) && x in pq && y in pq
    requires x != y && !PredLink(pred, x, y)
    ensures |r| >= 3 && r[0] == x && r[|r| - 1] == y && Seqs.Distinct(r)
    ensures forall i | 0 <= i < |r| :: r[i] in pq
    ensures forall i | 0 <= i < |r| - 1 :: PredLink(pred, r[i], r[i + 1])
  {
    r := TreePath(x, y, pred, pq);
    assert |r| != 2;
    forall i | 0 <= i < |r| ensures r[i] in pq {
      assert r[i] in r;
    }
  }

  /** A chain from `u` to `v` of at least three distinct atoms, closed by a bond of `v` to `u`, is a ring. */
  lemma PathRing(w: seq<Atom>, u: Atom, v: Atom, bonds: seq<Bond>, arom: bool)
    requires |w| >= 3 && w[0] == u && w[|w| - 1] == v && Chain(w, bonds, arom) && Seqs.Distinct(w)
    requires Bonded(v, u, bonds, arom)
    ensures Ring(w, u, bonds, arom)
  {
  }

  /** Every id of `pq` but the first has a `pred` link to an id listed before it. */
  ghost predicate ParentsFirst(pred: map<int, int>, pq: seq<int>) {
    pq != [] &&
    forall y | y in pq && y != pq[0] :: y in pred && pred[y] in pq && Seqs.IndexOf(pq, pred[y]) < Seqs.IndexOf(pq, y)
  }

  /**
   * The path between the listed ids `x` and `y` along `pred` links: up from
   * whichever of the two is listed later, until they meet. It repeats no id.
   */
  ghost function TreePath(x: int, y: int, pred: map<int, int>, pq: seq<int>): (r: seq<int>)
    requires ParentsFirst(pred, pq) && x in pq && y in pq
    ensures r != [] && r[0] == x && r[|r| - 1] == y
    ensures forall e | e in r :: e in pq && (Seqs.IndexOf(pq, e) <= Seqs.IndexOf(pq, x) || Seqs.IndexOf(pq, e) <= Seqs.IndexOf(pq, y))
    ensures forall i | 0 <= i < |r| - 1 :: PredLink(pred, r[i], r[i + 1])
    ensures Seqs.Distinct(r)
    decreases Seqs.IndexOf(pq, x) + Seqs.IndexOf(pq, y)
  {
    var i, j := Seqs.IndexOf(pq, x), Seqs.IndexOf(pq, y);
    if x == y then [x]
    else if i > j then
      assert pq[0] in pq[..i];
      var t := TreePath(pred[x], y, pred, pq);
      assert x !in t;
      [x] + t
    else
      assert pq[0] in pq[..j];
      var t := TreePath(x, pred[y], pred, pq);
      assert y !in t;
      t + [y]
  }

  /**
   * What the scan of `n`'s neighbours has done after the neighbours `done`,
   * starting from the queue `q` and the links `pred` with the expanded ids
   * `pq`: each expanded neighbour met is `n`'s predecessor; each other one is
   * queued with `n` as its predecessor; the queue only grew, by unexpanded
   * neighbours of `n`; and `pred` only gained or changed links of unexpanded
   * ids, to `n`.
   */
  ghost predicate ScanDone(n: Atom, q: seq<Atom>, pq: seq<int>, pred: map<int, int>,
                           q': seq<Atom>, pred': map<int, int>, done: seq<Atom>, bonds: seq<Bond>, arom: bool) {
    (forall b | b in done ::
      if b.id in pq then n.id in pred' && pred'[n.id] == b.id else b in q' && b.id in pred' && pred'[b.id] == n.id) &&
    |q| <= |q'| && q'[..|q|] == q &&
    (forall a | a in q'[|q|..] :: Bonded(n, a, bonds, arom) && a.id !in pq) &&
    (forall k | k in pred :: k in pred') &&
    (forall k | k in pred' && (k !in pred || pred'[k] != pred[k]) :: k !in pq && pred'[k] == n.id)
  }

  /** Queueing an unexpanded neighbour with `n` as its predecessor extends the scan. */
  lemma ScanQueue(n: Atom, q: seq<Atom>, pq: seq<int>, pred: map<int, int>,
                  q': seq<Atom>, pred': map<int, int>, done: seq<Atom>, nbr: Atom, bonds: seq<Bond>, arom: bool)
    requires ScanDone(n, q, pq, pred, q', pred', done, bonds, arom)
    requires n.id in pq && nbr.id !in pq && Bonded(n, nbr, bonds, arom)
    ensures ScanDone(n, q, pq, pred, q' + [nbr], pred'[nbr.id := n.id], done + [nbr], bonds, arom)
  {
    var q'' := q' + [nbr];
    assert q''[..|q|] == q;
    assert q''[|q|..] == q'[|q|..] + [nbr];
  }

  /** Meeting `n`'s predecessor extends the scan without a change. */
  lemma ScanKeep(n: Atom, q: seq<Atom>, pq: seq<int>, pred: map<int, int>,
                 q': seq<Atom>, pred': map<int, int>, done: seq<Atom>, nbr: Atom, bonds: seq<Bond>, arom: bool)
    requires ScanDone(n, q, pq, pred, q', pred', done, bonds, arom)
    requires nbr.id in pq && n.id in pred' && pred'[n.id] == nbr.id
    ensures ScanDone(n, q, pq, pred, q', pred', done + [nbr], bonds, arom)
  {
  }

  /* Selection and hover. */

  /** An atom with its hydrogens and its base, as a hidden-hydrogen selection lists it. */
  function Group(a: Atom, bonds: seq<Bond>): (r: seq<Atom>)
    requires a.Base(bonds).Some?
    ensures a in r && a.Base(bonds).value in r
    ensures forall h | h in a.Hydrogens(bonds) :: h in r
    ensures forall x | x in r :: x == a || x == a.Base(bonds).value || x in a.Hydrogens(bonds)
  {
    a.Hydrogens(bonds) + [a, a.Base(bonds).value]
  }

  /**
   * The atoms a selection stands for: the atoms themselves when hydrogens are
   * shown; otherwise, for each atom in turn, its hydrogens, the atom and its base.
   */
  function Targets(s: seq<Atom>, bonds: seq<Bond>, showHAtoms: bool): (r: seq<Atom>)
    requires showHAtoms || forall a | a in s :: a.Base(bonds).Some?
    ensures showHAtoms ==> r == s
    ensures !showHAtoms ==> forall a, x | a in s && x in Group(a, bonds) :: x in r
    ensures !showHAtoms ==> forall x | x in r :: exists a | a in s :: x in Group(a, bonds)
  {
    if showHAtoms then s
    else
      var groups := seq(|s|, i requires 0 <= i < |s| => Group(s[i], bonds));
      var r := Seqs.Flatten(groups);
      assert forall a, x | a in s && x in Group(a, bonds) :: x in r by {
        forall a, x | a in s && x in Group(a, bonds) ensures x in r {
          var i := Seqs.IndexOf(s, a);
          assert x in groups[i];
        }
      }
      assert forall x | x in r :: exists a | a in s :: x in Group(a, bonds) by {
        forall x | x in r ensures exists a | a in s :: x in Group(a, bonds) {
          var i :| 0 <= i < |groups| && x in groups[i];
          assert s[i] in s;
        }
      }
      r
  }

  /** The atoms of `s` whose selected bit is set. */
  function SelectedIn(s: seq<Atom>): (r: set<Atom>)
    reads s
    ensures forall a | a in s :: a in r <==> Has(a.status, SELECTED)
    ensures forall a | a in r :: a in s
  {
    set a | a in s && Has(a.status, SELECTED)
  }

  /**
   * The atoms `setSelected` selects, in the order it selects them: the
   * members of `t` outside `sel` (the atoms selected before), each at its
   * first listing.
   */
  function NewlySelected(t: seq<Atom>, sel: set<Atom>): (r: seq<Atom>)
    ensures Seqs.Distinct(r)
    ensures forall a | a in r :: a in t && a !in sel
    ensures forall a | a in t && a !in sel :: a in r
  {
    if t == [] then []
    else
      var init, a := t[..|t| - 1], t[|t| - 1];
      assert t == init + [a];
      var rest := NewlySelected(init, sel);
      if a !in init && a !in sel then
        assert forall j | 0 <= j < |rest| :: rest[j] in rest && rest[j] != a;
        rest + [a]
      else rest
  }

  /** `NewlySelected` grows by the next atom exactly when that atom is new and not selected. */
  lemma NewlyStep(t: seq<Atom>, j: nat, sel: set<Atom>)
    requires j < |t|
    ensures NewlySelected(t[..j + 1], sel) ==
      if t[j] !in t[..j] && t[j] !in sel then NewlySelected(t[..j], sel) + [t[j]] else NewlySelected(t[..j], sel)
  {
    assert t[..j + 1][..j] == t[..j];
  }

  /**
   * Moving the newly selected atoms to the back, one by one, keeps the other
   * atoms in their order and puts the newly selected ones last, in selection order.
   */
  lemma NewlySelectedToBack(l: seq<Atom>, t: seq<Atom>, sel: set<Atom>)
    requires Seqs.Distinct(l) && forall a | a in t :: a in l
    ensures var n := NewlySelected(t, sel); Seqs.MoveToBack(l, n) == Seqs.Without(l, n) + n
  {
    Seqs.MoveToBackShape(l, NewlySelected(t, sel));
  }

  /** The atoms of `before` listed in `prefix` have their selected bit added to their `initial` status; the others keep it. */
  ghost predicate SelectedSoFar(before: seq<Atom>, prefix: seq<Atom>, initial: map<Atom, Mask>)
    reads before
  {
    forall a | a in before ::
      a in initial && a.status == (if a in prefix then Add(initial[a], SELECTED) else initial[a])
  }

  /**
   * Selecting the atoms of `t` changes a status exactly when some atom of `t`
   * was not selected before (`initial` holds the statuses before).
   */
  lemma NewlyChanged(before: seq<Atom>, t: seq<Atom>, sel: set<Atom>, initial: map<Atom, Mask>)
    requires forall a | a in t :: a in before
    requires forall a | a in before :: a in initial && (a in sel <==> Has(initial[a], SELECTED))
    requires SelectedSoFar(before, t, initial)
    ensures NewlySelected(t, sel) != [] <==> exists a | a in before :: a.status != initial[a]
  {
    if NewlySelected(t, sel) != [] {
      var a := NewlySelected(t, sel)[0];
      assert a in t && a !in sel;
      OneBit(initial[a], SELECTED);
    } else {
      forall a | a in before
        ensures a.status == initial[a]
      {
        OneBit(initial[a], SELECTED);
        assert !(a in t && a !in sel);
      }
    }
  }

  /** Only whether the atoms of `t` were selected matters. */
  lemma {:induction false} NewlySelectedOn(t: seq<Atom>, s1: set<Atom>, s2: set<Atom>)
    requires forall a | a in t :: a in s1 <==> a in s2
    ensures NewlySelected(t, s1) == NewlySelected(t, s2)
  {
    if t != [] {
      var init := t[..|t| - 1];
      assert forall a | a in init :: a in t;
      NewlySelectedOn(init, s1, s2);
    }
  }

  /** The atom `setHover` hovers: an invisible atom is replaced by its base. */
  function HoverTarget(h: Option<Atom>, visible: bool, bonds: seq<Bond>): (r: Option<Atom>)
    ensures visible || h.None? ==> r == h
    ensures h.Some? && !visible && h.value.element != "H" ==> r == h
    ensures r.Some? && h.Some? && r.value != h.value ==> h.value.IsBondedWith(r.value, bonds)
    ensures h.Some? && !visible ==> r == h.value.Base(bonds)
  {
    if h.Some? && !visible then h.value.Base(bonds) else h
  }

  /** The atoms `addSelected` flips, in order: the targets, de-duplicated when hydrogens are hidden. */
  function Picks(s: seq<Atom>, bonds: seq<Bond>, showHAtoms: bool): (r: seq<Atom>)
    requires showHAtoms || forall a | a in s :: a.Base(bonds).Some?
    ensures showHAtoms ==> r == s
    ensures !showHAtoms ==> Seqs.Distinct(r)
    ensures forall a | a in r :: a in Targets(s, bonds, showHAtoms)
    ensures forall a | a in Targets(s, bonds, showHAtoms) :: a in r
  {
    if showHAtoms then s else Seqs.Unique(Targets(s, bonds, showHAtoms))
  }

  /** `k` selects or deselects flips of the selected bit. */
  function Flipped(status: Mask, k: nat): Mask {
    if k % 2 == 1 then Toggle(status, SELECTED) else status
  }

  /** One flip more toggles the selected bit once more. */
  lemma FlippedStep(status: Mask, k: nat)
    ensures Toggle(Flipped(status, k), SELECTED) == Flipped(status, k + 1)
  {
    if k % 2 == 1 {
      ToggleTwice(status, SELECTED);
    }
  }

  /**
   * After `k` flips the selected bit is as before when `k` is even and
   * inverted when `k` is odd; the other bits are kept.
   */
  lemma FlippedMeaning(status: Mask, k: nat)
    ensures Has(Flipped(status, k), SELECTED) <==> (Has(status, SELECTED) <==> k % 2 == 0)
    ensures Remove(Flipped(status, k), SELECTED) == Remove(status, SELECTED)
  {
    if k % 2 == 1 {
      OneBit(status, SELECTED);
      Idempotent(status, SELECTED);
      AddThenRemove(status, SELECTED);
    }
  }

  /** One flip toggles the selected bit. */
  lemma FlippedOnce(status: Mask)
    ensures Flipped(status, 1) == Toggle(status, SELECTED)
  {
  }

  /** After the flips of `prefix`, each atom of `t` is its status in `initial` flipped once per listing in `prefix`. */
  ghost predicate FlippedSoFar(t: seq<Atom>, prefix: seq<Atom>, initial: map<Atom, Mask>)
    reads t
  {
    forall a | a in t :: a in initial && a.status == Flipped(initial[a], multiset(prefix)[a])
  }

  /** Flipping `t[j]`, with the statuses before the flip in `mid`, extends the flipped prefix by one. */
  lemma FlippedSoFarStep(t: seq<Atom>, j: nat, initial: map<Atom, Mask>, mid: map<Atom, Mask>)
    requires j < |t|
    requires forall b | b in t :: b in mid && b in initial && mid[b] == Flipped(initial[b], multiset(t[..j])[b])
    requires forall b | b in t && b != t[j] :: b.status == mid[b]
    requires t[j].status == Toggle(mid[t[j]], SELECTED)
    ensures FlippedSoFar(t, t[..j + 1], initial)
  {
    assert t[..j + 1] == t[..j] + [t[j]];
    forall b | b in t ensures b.status == Flipped(initial[b], multiset(t[..j + 1])[b]) {
      if b == t[j] {
        FlippedStep(initial[b], multiset(t[..j])[b]);
      }
    }
  }

  /** Each atom is listed once and no two atoms share an id. */
  predicate UniqueAtoms(s: seq<Atom>) {
    Seqs.Distinct(s) && forall a, b | a in s && b in s && a.id == b.id :: a == b
  }

  /** In a list without repeated ids, the first atom with an atom's id is that atom. */
  lemma IdIndex(s: seq<Atom>, a: Atom)
    requires UniqueAtoms(s) && a in s
    ensures var i := Seqs.IndexOf(s, a); s[i] == a && forall j | 0 <= j < i :: s[j].id != a.id
  {
    var i := Seqs.IndexOf(s, a);
    forall j | 0 <= j < i ensures s[j].id != a.id {
      assert s[j] in s[..i];
    }
  }

  /** Reordering a list keeps it free of repeats. */
  lemma PermutationUnique(s: seq<Atom>, t: seq<Atom>)
    requires UniqueAtoms(s) && multiset(s) == multiset(t)
    ensures UniqueAtoms(t)
  {
    Seqs.PermutationDistinct(s, t);
    assert forall x :: x in t <==> x in multiset(s);
  }

  /** One atom more is moved to the back exactly when it is newly selected. */
  lemma SelectOrderStep(before: seq<Atom>, t: seq<Atom>, j: nat, sel: set<Atom>, moved: seq<Atom>,
                        cur: seq<Atom>, selected: bool)
    requires j < |t| && t[j] in cur
    requires moved == NewlySelected(t[..j], sel) && cur == Seqs.MoveToBack(before, moved)
    requires selected <==> t[j] !in t[..j] && t[j] !in sel
    ensures var moved' := if selected then moved + [t[j]] else moved;
      moved' == NewlySelected(t[..j + 1], sel) &&
      Seqs.MoveToBack(before, moved') == if selected then Seqs.ToBack(cur, Seqs.IndexOf(cur, t[j])) else cur
  {
    NewlyStep(t, j, sel);
    if selected {
      assert (moved + [t[j]])[..|moved|] == moved;
    }
  }

  /**
   * Selecting `t[j]`, with the statuses before the step in `mid`, extends the
   * selected prefix by one.
   */
  lemma SelectedSoFarStep(before: seq<Atom>, t: seq<Atom>, j: nat, initial: map<Atom, Mask>, mid: map<Atom, Mask>)
    requires j < |t| && t[j] in before
    requires forall b | b in before ::
      b in mid && b in initial && mid[b] == (if b in t[..j] then Add(initial[b], SELECTED) else initial[b])
    requires forall b | b in before && b != t[j] :: b.status == mid[b]
    requires t[j].status == Add(mid[t[j]], SELECTED)
    ensures SelectedSoFar(before, t[..j + 1], initial)
  {
    Seqs.PrefixStep(t, j);
    forall b | b in before
      ensures b.status == (if b in t[..j + 1] then Add(initial[b], SELECTED) else initial[b])
    {
      if b == t[j] {
        Idempotent(initial[b], SELECTED);
      }
    }
  }

  class AtomList {
    var atoms: seq<Atom>

    /** Each atom is listed once and no two atoms share an id. */
    predicate Valid()
      reads this
    {
      UniqueAtoms(atoms)
    }

    /** Every endpoint of the molecule's bonds is in the list. */
    predicate Closed(bonds: seq<Bond>)
      reads this
    {
      forall a | a in Endpoints(bonds) :: a in atoms
    }

    /**
     * Keeps given atoms and builds fresh ones from records, in input order;
     * a rebuilt atom reports its record back, with a zero status as `TODO`.
     */
    constructor (inputs: seq<AtomInput>)
      ensures |atoms| == |inputs|
      ensures forall i | 0 <= i < |inputs| && inputs[i].Existing? :: atoms[i] == inputs[i].atom
      ensures forall i | 0 <= i < |inputs| && inputs[i].Record? ::
        fresh(atoms[i]) && atoms[i].JSON() == Restore(inputs[i].json) && atoms[i].radius == inputs[i].radius
      ensures DistinctIds(inputs) ==> Valid()
    {
      var built: seq<Atom> := [];
      var i := 0;
      while i < |inputs|
        invariant 0 <= i <= |inputs| && |built| == i
        invariant forall j | 0 <= j < i && inputs[j].Existing? :: built[j] == inputs[j].atom
        invariant forall j | 0 <= j < i && inputs[j].Record? ::
          fresh(built[j]) && built[j].JSON() == Restore(inputs[j].json) && built[j].radius == inputs[j].radius
        invariant forall j | 0 <= j < i :: built[j].id == InputId(inputs[j])
      {
        match inputs[i] {
          case Existing(a) =>
            built := built + [a];
          case Record(r, radius) =>
            var a := new Atom(r.id, r.element, r.elementID, r.iacm, r.x, r.y, r.x3d, r.y3d, r.z3d,
                              r.charge, r.previewCharge, Some(r.usedFragments), r.status, radius);
            built := built + [a];
        }
        i := i + 1;
      }
      atoms := built;
      if DistinctIds(inputs) {
        forall a, b | a in built && b in built && a.id == b.id ensures a == b {
          var i :| 0 <= i < |built| && built[i] == a;
          var j :| 0 <= j < |built| && built[j] == b;
          assert i == j;
        }
      }
    }

    /** `getJSON`: the records of the atoms, in list order. */
    function JSON(): (r: seq<AtomJSON>)
      reads this, atoms
      ensures |r| == |atoms| && forall i :: 0 <= i < |atoms| ==> r[i] == atoms[i].JSON()
    {
      seq(|atoms|, i requires 0 <= i < |atoms| reads this, atoms => atoms[i].JSON())
    }

    /** `getSimpleJSON`: the basic records of the atoms, in list order. */
    function SimpleJSON(): (r: seq<SimpleAtomJSON>)
      reads this, atoms
      ensures |r| == |atoms| && forall i :: 0 <= i < |atoms| ==> r[i] == Simplify(JSON()[i])
    {
      seq(|atoms|, i requires 0 <= i < |atoms| reads this, atoms => atoms[i].SimpleJSON())
    }

    /* Lookup. */

    /** `indexOf`: the least index holding an atom with the given id, if any. */
    method IndexOf(id: int) returns (r: Option<nat>)
      ensures r.Some? ==> r.value < |atoms| && atoms[r.value].id == id
      ensures r.Some? ==> forall j | 0 <= j < r.value :: atoms[j].id != id
      ensures r.None? ==> forall j | 0 <= j < |atoms| :: atoms[j].id != id
    {
      var i := 0;
      while i < |atoms|
        invariant 0 <= i <= |atoms|
        invariant forall j | 0 <= j < i :: atoms[j].id != id
      {
        if atoms[i].id == id {
          return Some(i);
        }
        i := i + 1;
      }
      return None;
    }

    /** `get`: the first atom with the given id, if any. */
    method Get(id: int) returns (r: Option<Atom>)
      ensures r == Find(atoms, id)
      ensures r.Some? ==> r.value in atoms && r.value.id == id
      ensures r.Some? ==> forall j | 0 <= j < Seqs.IndexOf(atoms, r.value) :: atoms[j].id != id
      ensures r.None? <==> forall a | a in atoms :: a.id != id
    {
      var i := IndexOf(id);
      if i.None? {
        return None;
      }
      var k := i.value;
      assert Seqs.IndexOf(atoms, atoms[k]) <= k;
      FindFirst(atoms, id, k);
      return Some(atoms[k]);
    }

    /** In a valid list the atom found for a member's id is that member. */
    lemma GetMember(a: Atom, r: Option<Atom>)
      requires Valid() && a in atoms
      requires r.Some? ==> r.value in atoms && r.value.id == a.id
      requires r.None? <==> forall b | b in atoms :: b.id != a.id
      ensures r == Some(a)
    {
    }

    /* Selections. */

    /** `getSelected`. */
    function Selected(): (r: seq<Atom>)
      reads this, atoms
      ensures Seqs.IsSubsequence(r, atoms)
      ensures forall a | a in r :: a in atoms
      ensures forall a | a in atoms :: a in r <==> Has(a.status, SELECTED)
    {
      SelectOrder(atoms, SelectedAtoms);
      Select(atoms, SelectedAtoms)
    }

    /** `getUnparameterized`: the uncharged atoms that are not hydrogens. */
    function Unparameterized(): (r: seq<Atom>)
      reads this, atoms
      ensures Seqs.IsSubsequence(r, atoms)
      ensures forall a | a in r :: a in atoms
      ensures forall a | a in atoms :: a in r <==> !a.IsCharged() && a.element != "H"
    {
      SelectOrder(atoms, Kind.Unparameterized);
      Select(atoms, Kind.Unparameterized)
    }

    /** `getParameterizedIDs`: the ids of the charged atoms that are not hydrogens. */
    function ParameterizedIDs(): (r: seq<int>)
      reads this, atoms
      ensures forall id | id in r :: exists a | a in atoms :: a.id == id && a.IsCharged() && a.element != "H"
      ensures forall a | a in atoms && a.IsCharged() && a.element != "H" :: a.id in r
      ensures var p := Select(atoms, Parameterized); |r| == |p| && forall i | 0 <= i < |p| :: r[i] == p[i].id
    {
      var p := Select(atoms, Parameterized);
      var r := seq(|p|, i requires 0 <= i < |p| => p[i].id);
      assert forall a | a in p :: a.id in r by {
        forall a | a in p ensures a.id in r {
          var i := Seqs.IndexOf(p, a);
          assert r[i] == a.id;
        }
      }
      assert forall id | id in r :: exists a | a in atoms :: a.id == id && a.IsCharged() && a.element != "H" by {
        forall id | id in r ensures exists a | a in atoms :: a.id == id && a.IsCharged() && a.element != "H" {
          var i :| 0 <= i < |r| && r[i] == id;
          assert p[i] in p;
        }
      }
      r
    }

    /* Traversals. */

    /** The root a traversal starts from: the atom given, the first atom, or the atom found by id. */
    function RootOf(ref: RootRef): Option<Atom>
      reads this
    {
      match ref
      case AtomRef(a) => Some(a)
      case NoRoot => if atoms == [] then None else Some(atoms[0])
      case IdRef(id) => Find(atoms, id)
    }

    method Resolve(ref: RootRef) returns (r: Option<Atom>)
      ensures r == RootOf(ref)
      ensures ref.IdRef? && r.Some? ==> r.value in atoms && r.value.id == ref.id
      ensures ref.NoRoot? ==> (r.None? <==> atoms == [])
    {
      match ref {
        case AtomRef(a) => r := Some(a);
        case NoRoot => r := if atoms == [] then None else Some(atoms[0]);
        case IdRef(id) => r := Get(id);
      }
    }

    /**
     * `getTree`: breadth-first from the root, a node is expanded when its key
     * has not been expanded before, and then gets a child for every bonded atom
     * whose id has not been expanded. An unresolved root fails on `root.id`.
     */
    method GetTree(ref: RootRef, bonds: seq<Bond>, arom: bool) returns (r: Outcome<seq<TreeNode>>)
      ensures r.Throws? <==> RootOf(ref).None?
      ensures r.Throws? ==> r.error == TypeError
      ensures r.Returns? ==> IsTree(r.value, RootOf(ref).value, bonds, arom) && Spans(r.value, bonds, arom)
    {
      var found := Resolve(ref);
      if found.None? {
        return Throws(TypeError);
      }
      var t := BuildTree(found.value, bonds, arom);
      return Returns(t);
    }

    /** Some atom of the list has id `k`. */
    ghost predicate HasId(k: int)
      reads this
    {
      exists a | a in atoms :: a.id == k
    }

    /** Every atom with id `i` is bonded to every atom with id `j`. */
    ghost predicate Linked(i: int, j: int, bonds: seq<Bond>, arom: bool)
      reads this
    {
      forall a, b | a in atoms && b in atoms && a.id == i && b.id == j :: Bonded(a, b, bonds, arom)
    }

    /**
     * What `getCycle` knows of `pred` once the root is expanded: the expanded
     * ids `pq` start with the root's; every expanded id but the root's has a
     * predecessor; every predecessor is an expanded id, linked by a bond to its
     * key, and for an expanded key it was expanded earlier. So following `pred`
     * from an expanded id reaches the root.
     */
    ghost predicate PredTree(pred: map<int, int>, pq: seq<int>, root: Atom, bonds: seq<Bond>, arom: bool)
      reads this
    {
      pq != [] && pq[0] == root.id &&
      (forall k | k in pq :: HasId(k)) &&
      root.id !in pred &&
      (forall y | y in pq && y != root.id :: y in pred) &&
      (forall y | y in pred :: pred[y] in pq && HasId(y) && Linked(pred[y], y, bonds, arom)) &&
      (forall y | y in pred && y in pq :: Seqs.IndexOf(pq, pred[y]) < Seqs.IndexOf(pq, y))
    }

    /** Expanding an id that has a predecessor keeps the invariant. */
    lemma PredTreePush(pred: map<int, int>, pq: seq<int>, x: int, root: Atom, bonds: seq<Bond>, arom: bool)
      requires PredTree(pred, pq, root, bonds, arom) && x !in pq && x in pred
      ensures PredTree(pred, pq + [x], root, bonds, arom)
    {
      var pq' := pq + [x];
      assert forall j | 0 <= j < |pq| :: pq'[j] == pq[j];
      forall y | y in pred && y in pq' ensures Seqs.IndexOf(pq', pred[y]) < Seqs.IndexOf(pq', y) {
        Seqs.IndexOfPrefix(pq, [x], pred[y]);
        if y in pq {
          Seqs.IndexOfPrefix(pq, [x], y);
        } else {
          var i := Seqs.IndexOf(pq', y);
          assert pq'[i] == x;
          assert i >= |pq|;
        }
      }
    }

    /** Recording `x` as the predecessor of an unexpanded id `y` keeps the invariant. */
    lemma PredTreeLink(pred: map<int, int>, pq: seq<int>, y: int, x: int, root: Atom, bonds: seq<Bond>, arom: bool)
      requires PredTree(pred, pq, root, bonds, arom) && y !in pq && x in pq
      requires HasId(y) && Linked(x, y, bonds, arom)
      ensures PredTree(pred[y := x], pq, root, bonds, arom)
    {
    }

    /**
     * The walks of `getCycle` from an expanded id along `pred` to the root: the
     * atoms met, by `get`, before the root.
     */
    method PathToRoot(start: int, pred: map<int, int>, ghost pq: seq<int>, root: Atom, bonds: seq<Bond>, arom: bool)
      returns (path: seq<Atom>)
      requires Valid() && root in atoms && PredTree(pred, pq, root, bonds, arom) && start in pq
      ensures Climbs(path, root, bonds, arom)
      ensures path == [] <==> start == root.id
      ensures path != [] ==> path[0] in atoms && path[0].id == start
    {
      path := [];
      var p := start;
      while p != root.id
        invariant p in pq && ClimbState(path, p, start, root, bonds, arom)
        decreases Seqs.IndexOf(pq, p)
      {
        assert HasId(p);
        var g := Get(p);
        var a := g.value;
        ClimbStep(path, a, p, start, pred, pq, root, bonds, arom);
        path := path + [a];
        p := pred[p];
      }
    }

    /**
     * The walk of `PathToRoot` so far: `path` holds listed atoms, starts at
     * `start` unless it is empty, climbs along bonds, and its last atom is
     * bonded to every atom with the id `p` it has reached.
     */
    ghost predicate ClimbState(path: seq<Atom>, p: int, start: int, root: Atom, bonds: seq<Bond>, arom: bool)
      reads this
    {
      (path == [] ==> p == start) &&
      (path != [] ==> path[0] in atoms && path[0].id == start && start != root.id) &&
      (forall a | a in path :: a in atoms) &&
      (forall i | 0 <= i < |path| - 1 :: Bonded(path[i + 1], path[i], bonds, arom)) &&
      (path != [] ==> Linked(p, path[|path| - 1].id, bonds, arom))
    }

    /** Stepping from `p` to its predecessor through the atom `a` with id `p` keeps the walk. */
    lemma ClimbStep(path: seq<Atom>, a: Atom, p: int, start: int, pred: map<int, int>, pq: seq<int>,
                    root: Atom, bonds: seq<Bond>, arom: bool)
      requires PredTree(pred, pq, root, bonds, arom) && p in pq && p != root.id
      requires ClimbState(path, p, start, root, bonds, arom)
      requires a in atoms && a.id == p
      ensures p in pred && Seqs.IndexOf(pq, pred[p]) < Seqs.IndexOf(pq, p)
      ensures ClimbState(path + [a], pred[p], start, root, bonds, arom)
    {
      var path' := path + [a];
      assert Linked(pred[p], p, bonds, arom);
      forall i | 0 <= i < |path'| - 1 ensures Bonded(path'[i + 1], path'[i], bonds, arom) {
        if i == |path| - 1 {
          assert path'[i] == path[|path| - 1];
        } else {
          assert path'[i] == path[i] && path'[i + 1] == path[i + 1];
        }
      }
    }

    /** Every bond between two expanded atoms is a `pred` link. */
    ghost predicate NoBackEdge(pred: map<int, int>, pq: seq<int>, bonds: seq<Bond>, arom: bool)
      reads this
    {
      forall a, b | a in atoms && b in atoms && a.id in pq && b.id in pq && Bonded(a, b, bonds, arom) ::
        PredLink(pred, a.id, b.id)
    }

    /** Every atom bonded to an expanded atom is expanded or waits in the queue `q`. */
    ghost predicate Covered(q: seq<Atom>, pq: seq<int>, bonds: seq<Bond>, arom: bool)
      reads this
    {
      forall a, b | a in atoms && b in atoms && a.id in pq && Bonded(a, b, bonds, arom) :: b.id in pq || b in q
    }

    /**
     * The root's component is a tree: the ids `reached` hold the root's and
     * every atom bonded to one of them, `pred` links each of them but the root
     * to an earlier one, and every bond among them is such a link.
     */
    ghost predicate TreeComponent(reached: seq<int>, pred: map<int, int>, root: Atom, bonds: seq<Bond>, arom: bool)
      reads this
    {
      PredTree(pred, reached, root, bonds, arom) && Covered([], reached, bonds, arom) &&
      NoBackEdge(pred, reached, bonds, arom)
    }

    /** A walk from a reached atom along bonds stays among the listed, reached atoms. */
    lemma WalkReached(reached: seq<int>, w: seq<Atom>, bonds: seq<Bond>, arom: bool)
      requires Closed(bonds) && Covered([], reached, bonds, arom) && Chain(w, bonds, arom)
      requires w != [] && w[0] in atoms && w[0].id in reached
      ensures forall j | 0 <= j < |w| :: w[j] in atoms && w[j].id in reached
    {
      var i := 0;
      while i < |w| - 1
        invariant 0 <= i <= |w| - 1
        invariant forall j | 0 <= j <= i :: w[j] in atoms && w[j].id in reached
      {
        assert Bonded(w[i], w[i + 1], bonds, arom);
        i := i + 1;
      }
    }

    /** The position on `w` of the atom reached last. */
    lemma Latest(reached: seq<int>, w: seq<Atom>) returns (k: nat)
      requires w != [] && forall j | 0 <= j < |w| :: w[j].id in reached
      ensures k < |w| && forall j | 0 <= j < |w| :: Seqs.IndexOf(reached, w[j].id) <= Seqs.IndexOf(reached, w[k].id)
    {
      k := 0;
      var m := 1;
      while m < |w|
        invariant 0 <= k < m <= |w|
        invariant forall j | 0 <= j < m :: Seqs.IndexOf(reached, w[j].id) <= Seqs.IndexOf(reached, w[k].id)
      {
        if Seqs.IndexOf(reached, w[m].id) > Seqs.IndexOf(reached, w[k].id) {
          k := m;
        }
        m := m + 1;
      }
    }

    /**
     * A component that is a tree has no cycle: on a cycle, the atom reached
     * last has two neighbours on it, both reached earlier, so both bonds would
     * have to be its own `pred` link.
     */
    lemma TreeHasNoCycle(reached: seq<int>, pred: map<int, int>, root: Atom, w: seq<Atom>, bonds: seq<Bond>, arom: bool)
      requires Valid() && Closed(bonds) && TreeComponent(reached, pred, root, bonds, arom)
      ensures w != [] && w[0] in atoms && w[0].id in reached ==> !SimpleCycle(w, w[0], bonds, arom)
    {
      if w != [] && w[0] in atoms && w[0].id in reached && SimpleCycle(w, w[0], bonds, arom) {
        WalkReached(reached, w, bonds, arom);
        var k := Latest(reached, w);
        var before := if k == 0 then |w| - 1 else k - 1;
        var after := if k == |w| - 1 then 0 else k + 1;
        assert Bonded(w[before], w[k], bonds, arom);
        assert Bonded(w[k], w[after], bonds, arom);
        LastLink(reached, pred, root, w[before], w[k], bonds, arom);
        BondedSymmetric(w[k], w[after], bonds, arom);
        LastLink(reached, pred, root, w[after], w[k], bonds, arom);
        assert false;
      }
    }

    /** The listed atom with id `k`, the only one when the list is valid. */
    ghost function IdAtom(k: int): (a: Atom)
      reads this
      requires HasId(k)
      ensures a in atoms && a.id == k
    {
      var a :| a in atoms && a.id == k; a
    }

    /** The listed atoms with the ids of `r`, in order. */
    ghost function IdAtoms(r: seq<int>): (w: seq<Atom>)
      reads this
      requires forall i | 0 <= i < |r| :: HasId(r[i])
      ensures |w| == |r| && forall i | 0 <= i < |r| :: w[i] in atoms && w[i].id == r[i]
    {
      seq(|r|, i requires 0 <= i < |r| && HasId(r[i]) reads this => IdAtom(r[i]))
    }

    /** A `pred` tree lists every expanded id after its predecessor. */
    lemma PredTreeParents(pred: map<int, int>, pq: seq<int>, root: Atom, bonds: seq<Bond>, arom: bool)
      requires PredTree(pred, pq, root, bonds, arom)
      ensures ParentsFirst(pred, pq) && pq[0] == root.id
    {
    }

    /** The atoms along a path of `pred` links form a chain of bonds. */
    lemma LinkedChain(r: seq<int>, pred: map<int, int>, pq: seq<int>, root: Atom, bonds: seq<Bond>, arom: bool)
      requires PredTree(pred, pq, root, bonds, arom)
      requires forall i | 0 <= i < |r| :: HasId(r[i])
      requires forall i | 0 <= i < |r| - 1 :: PredLink(pred, r[i], r[i + 1])
      ensures Chain(IdAtoms(r), bonds, arom)
    {
      var w := IdAtoms(r);
      forall i | 0 <= i < |w| - 1 ensures Bonded(w[i], w[i + 1], bonds, arom) {
        if r[i] in pred && pred[r[i]] == r[i + 1] {
          assert Linked(r[i + 1], r[i], bonds, arom);
          BondedSymmetric(w[i + 1], w[i], bonds, arom);
        } else {
          assert Linked(r[i], r[i + 1], bonds, arom);
        }
      }
    }

    /** Atoms with distinct ids are distinct. */
    lemma IdAtomsDistinct(r: seq<int>)
      requires forall i | 0 <= i < |r| :: HasId(r[i])
      requires Seqs.Distinct(r)
      ensures Seqs.Distinct(IdAtoms(r))
    {
      var w := IdAtoms(r);
      forall i, j | 0 <= i < j < |w| ensures w[i] != w[j] {
        assert r[i] != r[j];
      }
    }

    /** Expanded ids are ids of listed atoms. */
    lemma ExpandedIds(pred: map<int, int>, pq: seq<int>, root: Atom, r: seq<int>, bonds: seq<Bond>, arom: bool)
      requires PredTree(pred, pq, root, bonds, arom) && forall i | 0 <= i < |r| :: r[i] in pq
      ensures forall i | 0 <= i < |r| :: HasId(r[i])
    {
    }

    /** A bond between two expanded atoms that is no `pred` link closes a ring through them. */
    lemma BackEdgeRing(pred: map<int, int>, pq: seq<int>, root: Atom, u: Atom, v: Atom, bonds: seq<Bond>, arom: bool)
      requires Valid() && PredTree(pred, pq, root, bonds, arom)
      requires u in atoms && v in atoms && u.id in pq && v.id in pq
      requires Bonded(u, v, bonds, arom) && !PredLink(pred, u.id, v.id)
      ensures exists w :: Ring(w, u, bonds, arom)
    {
      if u == v {
        assert Ring([u], u, bonds, arom);
      } else {
        var w := TreeWalk(pred, pq, root, u, v, bonds, arom);
        BondedSymmetric(u, v, bonds, arom);
        PathRing(w, u, v, bonds, arom);
      }
    }

    /** The atoms along the tree path between two distinct expanded atoms that are not `pred`-linked. */
    lemma TreeWalk(pred: map<int, int>, pq: seq<int>, root: Atom, u: Atom, v: Atom, bonds: seq<Bond>, arom: bool)
      returns (w: seq<Atom>)
      requires Valid() && PredTree(pred, pq, root, bonds, arom)
      requires u in atoms && v in atoms && u.id in pq && v.id in pq
      requires u != v && !PredLink(pred, u.id, v.id)
      ensures |w| >= 3 && w[0] == u && w[|w| - 1] == v && Chain(w, bonds, arom) && Seqs.Distinct(w)
    {
      PredTreeParents(pred, pq, root, bonds, arom);
      assert u.id != v.id;
      var r := TreePathLong(u.id, v.id, pred, pq);
      ExpandedIds(pred, pq, root, r, bonds, arom);
      w := IdAtoms(r);
      LinkedChain(r, pred, pq, root, bonds, arom);
      IdAtomsDistinct(r);
      IdAtomAt(r, 0, u);
      IdAtomAt(r, |r| - 1, v);
    }

    /** In a valid list, the atom listed for `a`'s id is `a`. */
    lemma IdAtomAt(r: seq<int>, i: nat, a: Atom)
      requires Valid() && a in atoms && i < |r| && r[i] == a.id
      requires forall i | 0 <= i < |r| :: HasId(r[i])
      ensures IdAtoms(r)[i] == a
    {
    }

    /** Every expanded atom is reached from the root by a chain of bonds. */
    lemma {:induction false} ReachedReachable(pred: map<int, int>, pq: seq<int>, root: Atom, a: Atom, bonds: seq<Bond>, arom: bool)
      requires Valid() && root in atoms && PredTree(pred, pq, root, bonds, arom)
      requires a in atoms && a.id in pq
      ensures exists c :: Walk(root, c, a, bonds, arom)
      decreases Seqs.IndexOf(pq, a.id)
    {
      if a.id == root.id {
        assert Walk(root, [a], a, bonds, arom);
      } else {
        var b := IdAtom(pred[a.id]);
        ReachedReachable(pred, pq, root, b, bonds, arom);
        var c :| Walk(root, c, b, bonds, arom);
        assert Linked(pred[a.id], a.id, bonds, arom);
        ChainAppend(c, [a], bonds, arom);
        assert Walk(root, c + [a], a, bonds, arom);
      }
    }

    /**
     * The back edge `getCycle` meets while scanning the newest expanded atom
     * `n`: an expanded neighbour other than `n`'s predecessor. Then `n` is
     * reached from the root and lies on a ring.
     */
    lemma FoundRing(n: Atom, pq: seq<int>, pred: map<int, int>, root: Atom, bonds: seq<Bond>, arom: bool)
      requires Valid() && root in atoms && n in atoms && n.id !in pq
      requires PredTree(pred, pq + [n.id], root, bonds, arom)
      requires exists b | b in atoms && b.id in pq + [n.id] :: Bonded(n, b, bonds, arom) && !(n.id in pred && pred[n.id] == b.id)
      ensures exists c :: Walk(root, c, n, bonds, arom)
      ensures exists w :: Ring(w, n, bonds, arom)
    {
      var pq' := pq + [n.id];
      var b :| b in atoms && b.id in pq' && Bonded(n, b, bonds, arom) && !(n.id in pred && pred[n.id] == b.id);
      assert Seqs.IndexOf(pq', n.id) == |pq| by {
        assert forall k | 0 <= k < |pq| :: pq'[k] == pq[k];
      }
      assert b.id in pred ==> Seqs.IndexOf(pq', pred[b.id]) < Seqs.IndexOf(pq', b.id);
      BackEdgeRing(pred, pq', root, n, b, bonds, arom);
      ReachedReachable(pred, pq', root, n, bonds, arom);
    }

    /** In a tree component, no atom reached from the root lies on a ring. */
    lemma TreeNoRing(reached: seq<int>, pred: map<int, int>, root: Atom, c: seq<Atom>, a: Atom, bonds: seq<Bond>, arom: bool)
      requires Valid() && Closed(bonds) && root in atoms && TreeComponent(reached, pred, root, bonds, arom)
      requires Walk(root, c, a, bonds, arom)
      ensures forall w :: !Ring(w, a, bonds, arom)
    {
      WalkReached(reached, c, bonds, arom);
      assert a in atoms && a.id in reached;
      forall w ensures !SimpleCycle(w, a, bonds, arom) {
        TreeHasNoCycle(reached, pred, root, w, bonds, arom);
      }
      assert Bonded(a, a, bonds, arom) ==> PredLink(pred, a.id, a.id);
      assert a.id in pred ==> Seqs.IndexOf(reached, pred[a.id]) < Seqs.IndexOf(reached, a.id);
    }

    /** A bond from an atom reached no later than `v` is `v`'s own `pred` link. */
    lemma LastLink(reached: seq<int>, pred: map<int, int>, root: Atom, u: Atom, v: Atom, bonds: seq<Bond>, arom: bool)
      requires Valid() && TreeComponent(reached, pred, root, bonds, arom)
      requires u in atoms && v in atoms && u != v && u.id in reached && v.id in reached
      requires Seqs.IndexOf(reached, u.id) <= Seqs.IndexOf(reached, v.id)
      requires Bonded(u, v, bonds, arom)
      ensures v.id in pred && pred[v.id] == u.id
    {
      assert PredLink(pred, u.id, v.id);
    }

    /** Taking an already expanded atom off the queue keeps its neighbours covered. */
    lemma CoveredPop(n: Atom, q: seq<Atom>, pq: seq<int>, bonds: seq<Bond>, arom: bool)
      requires n.id in pq && Covered([n] + q, pq, bonds, arom)
      ensures Covered(q, pq, bonds, arom)
    {
      forall a, b | a in atoms && b in atoms && a.id in pq && Bonded(a, b, bonds, arom) ensures b.id in pq || b in q {
        assert b.id in pq || b in [n] + q;
      }
    }

    /**
     * Expanding `n` keeps both facts when its scan met no back edge: every
     * expanded neighbour of `n` is its predecessor, every other neighbour is
     * queued, and the links of the ids expanded before are unchanged.
     */
    lemma ExpandKeeps(n: Atom, q: seq<Atom>, q': seq<Atom>, pq: seq<int>, pred: map<int, int>, pred': map<int, int>,
                      bonds: seq<Bond>, arom: bool)
      requires Valid() && n in atoms && n.id !in pq
      requires NoBackEdge(pred, pq, bonds, arom) && Covered([n] + q, pq, bonds, arom)
      requires ScanDone(n, q, pq + [n.id], pred, q', pred', n.BondedAtoms(bonds, arom), bonds, arom)
      ensures NoBackEdge(pred', pq + [n.id], bonds, arom) && Covered(q', pq + [n.id], bonds, arom)
    {
      var pq' := pq + [n.id];
      forall a, b | a in atoms && b in atoms && a.id in pq' && b.id in pq' && Bonded(a, b, bonds, arom)
        ensures PredLink(pred', a.id, b.id)
      {
        if a.id == n.id {
          assert a == n;
        } else if b.id == n.id {
          assert b == n;
          BondedSymmetric(a, b, bonds, arom);
        } else {
          assert PredLink(pred, a.id, b.id);
        }
      }
      forall a, b | a in atoms && b in atoms && a.id in pq' && Bonded(a, b, bonds, arom) ensures b.id in pq' || b in q' {
        if a.id == n.id {
          assert a == n;
        } else {
          assert b.id in pq || b in [n] + q;
          if b in q {
            assert b in q'[..|q|];
          }
        }
      }
    }

    /**
     * The `for` loop of `getCycle` over the neighbours of the expanded atom `n`:
     * an unexpanded neighbour is queued with `n` as its predecessor (possibly
     * replacing an earlier one); an expanded neighbour that is not `n`'s
     * predecessor closes a cycle. Without one, every expanded neighbour is
     * `n`'s predecessor and every other one is queued.
     */
    method ScanNeighbours(n: Atom, q: seq<Atom>, pq: seq<int>, pred: map<int, int>, root: Atom, bonds: seq<Bond>, arom: bool)
      returns (q': seq<Atom>, pred': map<int, int>, found: Option<seq<Atom>>)
      requires Valid() && Closed(bonds) && n in atoms && root in atoms
      requires PredTree(pred, pq, root, bonds, arom) && n.id in pq
      requires forall a | a in q :: a in atoms && (a.id == root.id || a.id in pred)
      ensures found.Some? ==> ClosedWalk(found.value, root, bonds, arom)
      ensures found.Some? ==> exists b | b in atoms && b.id in pq :: Bonded(n, b, bonds, arom) && !(n.id in pred' && pred'[n.id] == b.id)
      ensures found.None? ==> ScanDone(n, q, pq, pred, q', pred', n.BondedAtoms(bonds, arom), bonds, arom)
      ensures PredTree(pred', pq, root, bonds, arom)
      ensures forall a | a in q' :: a in atoms && (a.id == root.id || a.id in pred')
    {
      var nbrs := n.BondedAtoms(bonds, arom);
      q', pred' := q, pred;
      var i := 0;
      while i < |nbrs|
        invariant 0 <= i <= |nbrs|
        invariant PredTree(pred', pq, root, bonds, arom)
        invariant forall a | a in q' :: a in atoms && (a.id == root.id || a.id in pred')
        invariant ScanDone(n, q, pq, pred, q', pred', nbrs[..i], bonds, arom)
      {
        var nbr := nbrs[i];
        assert nbr in Endpoints(bonds);
        assert Bonded(n, nbr, bonds, arom);
        Seqs.PrefixStep(nbrs, i);
        if nbr.id !in pq {
          assert Linked(n.id, nbr.id, bonds, arom);
          PredTreeLink(pred', pq, nbr.id, n.id, root, bonds, arom);
          ScanQueue(n, q, pq, pred, q', pred', nbrs[..i], nbr, bonds, arom);
          q' := q' + [nbr];
          pred' := pred'[nbr.id := n.id];
        } else if !(n.id in pred' && pred'[n.id] == nbr.id) {
          var cycle := CloseCycle(n, nbr, pred', pq, root, bonds, arom);
          return q', pred', Some(cycle);
        } else {
          ScanKeep(n, q, pq, pred, q', pred', nbrs[..i], nbr, bonds, arom);
        }
        i := i + 1;
      }
      assert nbrs[..i] == nbrs;
      return q', pred', None;
    }

    /**
     * The cycle `getCycle` returns for the back edge from `n` to `nbr`: the
     * climb from `n` to the root, reversed, then the climb from `nbr`.
     */
    method CloseCycle(n: Atom, nbr: Atom, pred: map<int, int>, ghost pq: seq<int>, root: Atom, bonds: seq<Bond>, arom: bool)
      returns (cycle: seq<Atom>)
      requires Valid() && root in atoms && n in atoms && nbr in atoms
      requires PredTree(pred, pq, root, bonds, arom) && n.id in pq && nbr.id in pq && Bonded(n, nbr, bonds, arom)
      ensures ClosedWalk(cycle, root, bonds, arom)
    {
      var first := PathToRoot(n.id, pred, pq, root, bonds, arom);
      var second := PathToRoot(nbr.id, pred, pq, root, bonds, arom);
      CycleClosed(first, second, root, n, nbr, bonds, arom);
      cycle := Seqs.Reverse(first + [root]) + second;
    }

    /**
     * `getCycle`: breadth-first from the root, keeping for every queued id the
     * id it was reached from. The first bond to an expanded atom other than the
     * predecessor closes the cycle that is returned; there is one exactly when
     * some atom reachable from the root lies on a ring. An unresolved root
     * fails on `root.id`.
     */
    method GetCycle(ref: RootRef, bonds: seq<Bond>, arom: bool) returns (r: Outcome<seq<Atom>>)
      requires Valid() && Closed(bonds)
      requires ref.AtomRef? ==> ref.atom in atoms
      ensures r.Throws? <==> RootOf(ref).None?
      ensures r.Throws? ==> r.error == TypeError
      ensures r.Returns? && r.value != [] ==> ClosedWalk(r.value, RootOf(ref).value, bonds, arom)
      ensures r == Returns([]) ==> forall w :: !SimpleCycle(w, RootOf(ref).value, bonds, arom)
      ensures r.Returns? ==>
        (r.value == [] <==> forall a, p, w :: Walk(RootOf(ref).value, p, a, bonds, arom) ==> !Ring(w, a, bonds, arom))
    {
      var found := Resolve(ref);
      if found.None? {
        return Throws(TypeError);
      }
      var root := found.value;
      ghost var reached, tree;
      var c;
      c, reached, tree := CycleFrom(root, bonds, arom);
      if c == [] {
        forall w ensures !SimpleCycle(w, root, bonds, arom) {
          TreeHasNoCycle(reached, tree, root, w, bonds, arom);
        }
        forall a, p, w | Walk(root, p, a, bonds, arom) ensures !Ring(w, a, bonds, arom) {
          TreeNoRing(reached, tree, root, p, a, bonds, arom);
        }
      }
      return Returns(c);
    }

    /** The ids of the listed atoms. */
    ghost function AtomIds(): (ids: set<int>)
      reads this
      ensures forall a | a in atoms :: a.id in ids
    {
      set a | a in atoms :: a.id
    }

    /**
     * The state of `getCycle` between two iterations: queued atoms are listed
     * and have a predecessor unless they are the root; before the first
     * expansion only the root is queued; afterwards `pred` is a tree over the
     * expanded ids `pq`, which are ids of `ids`; every bond between expanded
     * atoms is a `pred` link; and every neighbour of an expanded atom is
     * expanded or queued.
     */
    ghost predicate CycleState(q: seq<Atom>, pq: seq<int>, pred: map<int, int>, root: Atom, ids: set<int>,
                               bonds: seq<Bond>, arom: bool)
      reads this
    {
      (forall a | a in q :: a in atoms && (a.id == root.id || a.id in pred)) &&
      (pq == [] ==> q == [root] && pred == map[]) &&
      (pq != [] ==> PredTree(pred, pq, root, bonds, arom)) &&
      (forall k | k in pq :: k in ids) &&
      NoBackEdge(pred, pq, bonds, arom) && Covered(q, pq, bonds, arom)
    }

    /**
     * One iteration of the `while` loop of `getCycle`: the head of the queue
     * is taken off and, unless its id was expanded already, expanded and its
     * neighbours scanned. Either a cycle is found, or the state is kept and
     * fewer ids are left to expand, or as many with a shorter queue.
     */
    method CycleStep(q: seq<Atom>, pq: seq<int>, pred: map<int, int>, root: Atom, ghost ids: set<int>,
                     bonds: seq<Bond>, arom: bool)
      returns (q': seq<Atom>, pq': seq<int>, pred': map<int, int>, found: Option<seq<Atom>>)
      requires Valid() && Closed(bonds) && root in atoms && ids == AtomIds()
      requires q != [] && CycleState(q, pq, pred, root, ids, bonds, arom)
      ensures found.Some? ==> ClosedWalk(found.value, root, bonds, arom)
      ensures found.Some? ==> (exists c :: Walk(root, c, q[0], bonds, arom)) && exists w :: Ring(w, q[0], bonds, arom)
      ensures found.None? ==> CycleState(q', pq', pred', root, ids, bonds, arom)
      ensures found.None? ==>
        Remaining(ids, pq') < Remaining(ids, pq) || (Remaining(ids, pq') == Remaining(ids, pq) && |q'| < |q|)
    {
      var n := q[0];
      assert n in q;
      var rest := q[1..];
      assert q == [n] + rest;
      if n.id in pq {
        PopState(n, rest, pq, pred, root, ids, bonds, arom);
        return rest, pq, pred, None;
      }
      ExpandShrinks(ids, pq, n.id);
      q', pq', pred', found := ExpandHead(n, rest, pq, pred, root, ids, bonds, arom);
    }

    /** The expansion of the head `n` of the queue, whose id was not expanded yet. */
    method ExpandHead(n: Atom, rest: seq<Atom>, pq: seq<int>, pred: map<int, int>, root: Atom, ghost ids: set<int>,
                      bonds: seq<Bond>, arom: bool)
      returns (q': seq<Atom>, pq': seq<int>, pred': map<int, int>, found: Option<seq<Atom>>)
      requires Valid() && Closed(bonds) && root in atoms && ids == AtomIds()
      requires n.id !in pq && CycleState([n] + rest, pq, pred, root, ids, bonds, arom)
      ensures pq' == pq + [n.id]
      ensures found.Some? ==> ClosedWalk(found.value, root, bonds, arom)
      ensures found.Some? ==> (exists c :: Walk(root, c, n, bonds, arom)) && exists w :: Ring(w, n, bonds, arom)
      ensures found.None? ==> CycleState(q', pq', pred', root, ids, bonds, arom)
    {
      assert n in [n] + rest;
      if pq == [] {
        PredTreeRoot(root, bonds, arom);
        pq' := [n.id];
      } else {
        PredTreePush(pred, pq, n.id, root, bonds, arom);
        pq' := pq + [n.id];
      }
      q', pred', found := ScanNeighbours(n, rest, pq', pred, root, bonds, arom);
      if found.None? {
        ExpandState(n, rest, q', pq, pred, pred', root, ids, bonds, arom);
      } else {
        FoundRing(n, pq, pred', root, bonds, arom);
      }
    }

    /** Taking an already expanded atom off the queue keeps the state of `getCycle`. */
    lemma PopState(n: Atom, rest: seq<Atom>, pq: seq<int>, pred: map<int, int>,
                   root: Atom, ids: set<int>, bonds: seq<Bond>, arom: bool)
      requires n.id in pq && CycleState([n] + rest, pq, pred, root, ids, bonds, arom)
      ensures CycleState(rest, pq, pred, root, ids, bonds, arom)
    {
      CoveredPop(n, rest, pq, bonds, arom);
    }

    /** Before the first expansion, the root alone is a tree. */
    lemma PredTreeRoot(root: Atom, bonds: seq<Bond>, arom: bool)
      requires root in atoms
      ensures PredTree(map[], [root.id], root, bonds, arom)
    {
      assert HasId(root.id);
    }

    /** Expanding `n` without meeting a back edge keeps the state of `getCycle`. */
    lemma ExpandState(n: Atom, rest: seq<Atom>, q': seq<Atom>, pq: seq<int>, pred: map<int, int>, pred': map<int, int>,
                      root: Atom, ids: set<int>, bonds: seq<Bond>, arom: bool)
      requires Valid() && n in atoms && n.id !in pq && n.id in ids
      requires CycleState([n] + rest, pq, pred, root, ids, bonds, arom)
      requires ScanDone(n, rest, pq + [n.id], pred, q', pred', n.BondedAtoms(bonds, arom), bonds, arom)
      requires PredTree(pred', pq + [n.id], root, bonds, arom)
      requires forall a | a in q' :: a in atoms && (a.id == root.id || a.id in pred')
      ensures CycleState(q', pq + [n.id], pred', root, ids, bonds, arom)
    {
      ExpandKeeps(n, rest, q', pq, pred, pred', bonds, arom);
    }

    /**
     * The loop of `getCycle` from a resolved root. A cycle is found at an atom
     * reachable from the root that lies on a ring. An empty result comes with
     * the expanded ids and the final `pred`, which show the root's component
     * to be a tree.
     */
    method CycleFrom(root: Atom, bonds: seq<Bond>, arom: bool)
      returns (c: seq<Atom>, ghost reached: seq<int>, ghost tree: map<int, int>)
      requires Valid() && Closed(bonds) && root in atoms
      ensures c != [] ==> ClosedWalk(c, root, bonds, arom)
      ensures c != [] ==> exists a, p, w :: Walk(root, p, a, bonds, arom) && Ring(w, a, bonds, arom)
      ensures c == [] ==> TreeComponent(reached, tree, root, bonds, arom)
    {
      ghost var ids := AtomIds();
      var q := [root];
      var pq: seq<int> := [];
      var pred: map<int, int> := map[];
      while q != []
        invariant CycleState(q, pq, pred, root, ids, bonds, arom)
        decreases Remaining(ids, pq), |q|
      {
        var cycle;
        ghost var head := q[0];
        q, pq, pred, cycle := CycleStep(q, pq, pred, root, ids, bonds, arom);
        if cycle.Some? {
          return cycle.value, pq, pred;
        }
      }
      return [], pq, pred;
    }

    /**
     * The cycle through `a` an atom reports (`Atom.getCycle`): the list's
     * cycle from `a` when it has more than one atom, otherwise nothing. Nothing
     * is reported when no atom reachable from `a` lies on a ring; when nothing
     * is reported, none does, unless `a` is bonded to itself.
     */
    method CycleOf(a: Atom, bonds: seq<Bond>, arom: bool) returns (r: Option<seq<Atom>>)
      requires Valid() && Closed(bonds) && a in atoms
      ensures r.Some? ==> |r.value| > 1 && ClosedWalk(r.value, a, bonds, arom)
      ensures r.None? ==> Bonded(a, a, bonds, arom) || forall w :: !SimpleCycle(w, a, bonds, arom)
      ensures r.None? ==> Bonded(a, a, bonds, arom) || forall b, p, w :: Walk(a, p, b, bonds, arom) ==> !Ring(w, b, bonds, arom)
      ensures (forall b, p, w :: Walk(a, p, b, bonds, arom) ==> !Ring(w, b, bonds, arom)) ==> r.None?
    {
      var path := GetCycle(AtomRef(a), bonds, arom);
      if path.Returns? && |path.value| > 1 {
        return Some(path.value);
      }
      return None;
    }

    /* Selection and hover. */

    /**
     * `setSelected`: atoms outside the (normalised) selection are deselected;
     * then each atom of the selection that is not selected is selected and
     * moved to the back of the list. The result tells whether a status changed.
     */
    method SetSelected(s: seq<Atom>, bonds: seq<Bond>, showHAtoms: bool) returns (changed: bool)
      requires Valid()
      requires showHAtoms || forall a | a in s :: a.Base(bonds).Some?
      requires forall a | a in Targets(s, bonds, showHAtoms) :: a in atoms
      modifies this`atoms, atoms`status
      ensures Valid() && multiset(atoms) == multiset(old(atoms))
      ensures var n := NewlySelected(Targets(s, bonds, showHAtoms), old(SelectedIn(atoms)));
        atoms == Seqs.Without(old(atoms), n) + n
      ensures forall a | a in old(atoms) ::
        a.status == (if a in Targets(s, bonds, showHAtoms) then Add(old(a.status), SELECTED) else Remove(old(a.status), SELECTED))
      ensures changed <==> exists a | a in old(atoms) :: a.status != old(a.status)
    {
      var t := Targets(s, bonds, showHAtoms);
      changed := SelectExactly(t);
    }

    /** Both loops of `setSelected` on the targets `t`: exactly the atoms of `t` end up selected. */
    method SelectExactly(t: seq<Atom>) returns (changed: bool)
      requires Valid() && forall a | a in t :: a in atoms
      modifies this`atoms, atoms`status
      ensures Valid() && multiset(atoms) == multiset(old(atoms))
      ensures var n := NewlySelected(t, old(SelectedIn(atoms))); atoms == Seqs.Without(old(atoms), n) + n
      ensures forall a | a in old(atoms) ::
        a.status == (if a in t then Add(old(a.status), SELECTED) else Remove(old(a.status), SELECTED))
      ensures changed <==> exists a | a in old(atoms) :: a.status != old(a.status)
    {
      ghost var before, sel := atoms, SelectedIn(atoms);
      var deselected := Deselect(t);
      ghost var kept := SelectedIn(atoms);
      assert NewlySelected(t, kept) == NewlySelected(t, sel) by {
        NewlySelectedOn(t, sel, kept);
      }
      var selected := SelectAll(t);
      assert atoms == Seqs.Without(before, NewlySelected(t, sel)) + NewlySelected(t, sel) by {
        NewlySelectedToBack(before, t, sel);
      }
      changed := deselected || selected;
    }

    /** The second loop of `setSelected`: each atom of `t` not yet selected is selected and moved to the back. */
    method SelectAll(t: seq<Atom>) returns (changed: bool)
      requires Valid() && forall a | a in t :: a in atoms
      modifies this`atoms, atoms`status
      ensures Valid() && multiset(atoms) == multiset(old(atoms))
      ensures atoms == Seqs.MoveToBack(old(atoms), NewlySelected(t, old(SelectedIn(atoms))))
      ensures forall a | a in old(atoms) :: a.status == (if a in t then Add(old(a.status), SELECTED) else old(a.status))
      ensures changed <==> NewlySelected(t, old(SelectedIn(atoms))) != []
      ensures changed <==> exists a | a in old(atoms) :: a.status != old(a.status)
    {
      ghost var before, sel := atoms, SelectedIn(atoms);
      ghost var initial := map a | a in before :: a.status;
      ghost var moved;
      changed, moved := SelectEach(t, before, sel, initial);
      PermutationUnique(before, atoms);
      NewlyChanged(before, t, sel, initial);
    }

    /**
     * The second loop of `setSelected` itself: after it, the atoms of `t` are
     * selected and the newly selected ones (`moved`) sit at the back in order.
     */
    method SelectEach(t: seq<Atom>, ghost before: seq<Atom>, ghost sel: set<Atom>, ghost initial: map<Atom, Mask>)
      returns (changed: bool, ghost moved: seq<Atom>)
      requires Valid() && before == atoms && forall a | a in t :: a in atoms
      requires forall a | a in before :: a in initial && a.status == initial[a]
      requires forall a | a in before :: a in sel <==> Has(initial[a], SELECTED)
      modifies this`atoms, atoms`status
      ensures moved == NewlySelected(t, sel) && atoms == Seqs.MoveToBack(before, moved)
      ensures SelectedSoFar(before, t, initial)
      ensures changed <==> moved != []
    {
      moved := [];
      changed := false;
      var j := 0;
      while j < |t|
        invariant 0 <= j <= |t|
        invariant moved == NewlySelected(t[..j], sel)
        invariant atoms == Seqs.MoveToBack(before, moved)
        invariant SelectedSoFar(before, t[..j], initial)
        invariant changed <==> moved != []
      {
        assert t[j] in before by {
          assert t[j] in t;
        }
        var selected := SelectNext(t, j, before, sel, initial, moved);
        if selected {
          moved := moved + [t[j]];
          changed := true;
        }
        assert moved == NewlySelected(t[..j + 1], sel);
        j := j + 1;
        assert moved == NewlySelected(t[..j], sel);
      }
      assert t[..|t|] == t;
    }

    /**
     * One round of `setSelected`'s second loop, with the order it keeps: the
     * atoms selected so far (`moved`) sit at the back, in the order they were selected.
     */
    method SelectNext(t: seq<Atom>, j: nat, ghost before: seq<Atom>, ghost sel: set<Atom>,
                      ghost initial: map<Atom, Mask>, ghost moved: seq<Atom>)
      returns (selected: bool)
      requires j < |t| && t[j] in before && UniqueAtoms(before)
      requires t[j] in initial && (t[j] in sel <==> Has(initial[t[j]], SELECTED))
      requires SelectedSoFar(before, t[..j], initial)
      requires moved == NewlySelected(t[..j], sel)
      requires atoms == Seqs.MoveToBack(before, moved)
      modifies this`atoms, {t[j]}`status
      ensures selected <==> t[j] !in t[..j] && t[j] !in sel
      ensures var moved' := if selected then moved + [t[j]] else moved;
        moved' == NewlySelected(t[..j + 1], sel) && atoms == Seqs.MoveToBack(before, moved')
      ensures SelectedSoFar(before, t[..j + 1], initial)
    {
      var a := t[j];
      assert Has(a.status, SELECTED) <==> a in t[..j] || a in sel by {
        OneBit(initial[a], SELECTED);
      }
      assert a in atoms && UniqueAtoms(atoms) by {
        assert a in multiset(before);
        PermutationUnique(before, atoms);
      }
      ghost var cur := atoms;
      ghost var mid := map b | b in before :: b.status;
      selected := SelectOne(a);
      SelectOrderStep(before, t, j, sel, moved, cur, selected);
      SelectedSoFarStep(before, t, j, initial, mid);
    }

    /**
     * The body of `setSelected`'s second loop: an atom that is not selected
     * is selected and moved to the back (found by `indexOf` on its id).
     */
    method SelectOne(a: Atom) returns (selected: bool)
      requires Valid() && a in atoms
      modifies this`atoms, a`status
      ensures Valid() && multiset(atoms) == multiset(old(atoms))
      ensures selected == !Has(old(a.status), SELECTED)
      ensures a.status == Add(old(a.status), SELECTED)
      ensures forall b: Atom | old(allocated(b)) && b != a :: b.status == old(b.status)
      ensures atoms == if selected then Seqs.ToBack(old(atoms), Seqs.IndexOf(old(atoms), a)) else old(atoms)
    {
      OneBit(a.status, SELECTED);
      selected := !Has(a.status, SELECTED);
      if selected {
        a.Select();
        MoveToEnd(a);
      }
    }

    /** An atom found by its id (`indexOf`) is taken out of the list and pushed at its end. */
    method MoveToEnd(a: Atom)
      requires Valid() && a in atoms
      modifies this`atoms
      ensures Valid() && multiset(atoms) == multiset(old(atoms))
      ensures atoms == Seqs.ToBack(old(atoms), Seqs.IndexOf(old(atoms), a))
    {
      var k := IndexOf(a.id);
      IdIndex(atoms, a);
      PermutationUnique(atoms, Seqs.ToBack(atoms, k.value));
      atoms := Seqs.ToBack(atoms, k.value);
    }

    /** The first loop of `setSelected`: every selected atom outside `t` is deselected. */
    method Deselect(t: seq<Atom>) returns (changed: bool)
      requires Valid()
      modifies atoms`status
      ensures forall a | a in atoms :: a.status == if a in t then old(a.status) else Remove(old(a.status), SELECTED)
      ensures changed <==> exists a | a in atoms :: a.status != old(a.status)
    {
      changed := false;
      var i := 0;
      while i < |atoms|
        invariant 0 <= i <= |atoms|
        invariant forall a | a in atoms[..i] :: a.status == if a in t then old(a.status) else Remove(old(a.status), SELECTED)
        invariant forall a | a in atoms && a !in atoms[..i] :: a.status == old(a.status)
        invariant changed <==> exists a | a in atoms[..i] :: a.status != old(a.status)
      {
        var a := atoms[i];
        assert atoms[..i + 1] == atoms[..i] + [a];
        assert a !in atoms[..i];
        OneBit(a.status, SELECTED);
        if Has(a.status, SELECTED) && a !in t {
          a.Deselect();
          changed := true;
        }
        i := i + 1;
      }
      assert atoms[..|atoms|] == atoms;
    }

    /**
     * `setHover`: an invisible atom is refused (no result) when hydrogens are
     * shown and replaced by its base otherwise; every other hovered atom is
     * dehovered; the target, when not hovered yet, is hovered and moved to the
     * back of the list. The result tells whether a status changed.
     */
    method SetHover(h: Option<Atom>, visible: bool, bonds: seq<Bond>, showHAtoms: bool) returns (r: Option<bool>)
      requires Valid()
      requires var g := HoverTarget(h, visible, bonds); g.Some? ==> g.value in atoms
      modifies this`atoms, atoms`status
      ensures Valid() && multiset(atoms) == multiset(old(atoms))
      ensures r.None? <==> h.Some? && !visible && showHAtoms
      ensures r.None? ==> atoms == old(atoms) && forall a | a in atoms :: a.status == old(a.status)
      ensures r.Some? ==> var g := HoverTarget(h, visible, bonds);
        (forall a | a in old(atoms) ::
          a.status == if g == Some(a) then Add(old(a.status), HOVER) else Remove(old(a.status), HOVER)) &&
        atoms == (if g.Some? && !Has(old(g.value.status), HOVER)
                  then Seqs.ToBack(old(atoms), Seqs.IndexOf(old(atoms), g.value)) else old(atoms)) &&
        (r.value <==> exists a | a in old(atoms) :: a.status != old(a.status))
      ensures r.Some? ==> forall a | a in atoms :: Has(a.status, HOVER) <==> HoverTarget(h, visible, bonds) == Some(a)
    {
      if h.Some? && !visible && showHAtoms {
        return None;
      }
      var g := HoverTarget(h, visible, bonds);
      var changed := HoverExactly(g);
      r := Some(changed);
      forall a | a in atoms ensures Has(a.status, HOVER) <==> g == Some(a) {
        assert a in multiset(old(atoms));
        OneBit(old(a.status), HOVER);
      }
    }

    /** `setHover` once the target `g` is known: `g` alone ends up hovered, and moves to the back when newly hovered. */
    method HoverExactly(g: Option<Atom>) returns (changed: bool)
      requires Valid() && (g.Some? ==> g.value in atoms)
      modifies this`atoms, atoms`status
      ensures Valid() && multiset(atoms) == multiset(old(atoms))
      ensures forall a | a in old(atoms) ::
        a.status == if g == Some(a) then Add(old(a.status), HOVER) else Remove(old(a.status), HOVER)
      ensures atoms == if g.Some? && !Has(old(g.value.status), HOVER)
        then Seqs.ToBack(old(atoms), Seqs.IndexOf(old(atoms), g.value)) else old(atoms)
      ensures changed <==> exists a | a in old(atoms) :: a.status != old(a.status)
    {
      var dehovered := DehoverOthers(g);
      var hovered := false;
      if g.Some? {
        hovered := HoverOne(g.value);
      }
      changed := dehovered || hovered;
      forall a | a in old(atoms)
        ensures a.status == if g == Some(a) then Add(old(a.status), HOVER) else Remove(old(a.status), HOVER)
      {
        OneBit(old(a.status), HOVER);
      }
      assert hovered ==> g.value.status != old(g.value.status);
    }

    /** The first loop of `setHover`: every hovered atom other than `g` is dehovered. */
    method DehoverOthers(g: Option<Atom>) returns (changed: bool)
      requires Valid()
      modifies atoms`status
      ensures forall a | a in atoms :: a.status == if g == Some(a) then old(a.status) else Remove(old(a.status), HOVER)
      ensures changed <==> exists a | a in atoms :: a.status != old(a.status)
    {
      changed := false;
      var i := 0;
      while i < |atoms|
        invariant 0 <= i <= |atoms|
        invariant forall a | a in atoms[..i] :: a.status == if g == Some(a) then old(a.status) else Remove(old(a.status), HOVER)
        invariant forall a | a in atoms && a !in atoms[..i] :: a.status == old(a.status)
        invariant changed <==> exists a | a in atoms[..i] :: a.status != old(a.status)
      {
        var a := atoms[i];
        assert atoms[..i + 1] == atoms[..i] + [a];
        assert a !in atoms[..i];
        OneBit(a.status, HOVER);
        if Has(a.status, HOVER) && g != Some(a) {
          a.Dehover();
          changed := true;
        }
        i := i + 1;
      }
      assert atoms[..|atoms|] == atoms;
    }

    /** The end of `setHover`: an atom that is not hovered is hovered and moved to the back. */
    method HoverOne(a: Atom) returns (hovered: bool)
      requires Valid() && a in atoms
      modifies this`atoms, a`status
      ensures Valid() && multiset(atoms) == multiset(old(atoms))
      ensures hovered == !Has(old(a.status), HOVER)
      ensures a.status == Add(old(a.status), HOVER)
      ensures atoms == if hovered then Seqs.ToBack(old(atoms), Seqs.IndexOf(old(atoms), a)) else old(atoms)
    {
      OneBit(a.status, HOVER);
      hovered := !Has(a.status, HOVER);
      if hovered {
        a.Hover();
        MoveToEnd(a);
      }
    }

    /**
     * `addSelected`: the selected bit of every target is flipped, once per
     * listing; with hydrogens hidden the targets are the de-duplicated groups,
     * so each is flipped exactly once. The order of the list is kept.
     */
    method AddSelected(s: seq<Atom>, bonds: seq<Bond>, showHAtoms: bool)
      requires showHAtoms || forall a | a in s :: a.Base(bonds).Some?
      modifies Picks(s, bonds, showHAtoms)`status
      ensures var t := Picks(s, bonds, showHAtoms);
        forall a: Atom | old(allocated(a)) && a in t :: a.status == Flipped(old(a.status), multiset(t)[a])
      ensures var t := Picks(s, bonds, showHAtoms);
        !showHAtoms ==> forall a: Atom | old(allocated(a)) && a in t :: a.status == Toggle(old(a.status), SELECTED)
    {
      var t := Picks(s, bonds, showHAtoms);
      FlipEach(t);
      if !showHAtoms {
        forall a: Atom | old(allocated(a)) && a in t ensures a.status == Toggle(old(a.status), SELECTED) {
          Seqs.DistinctOnce(t, a);
          FlippedOnce(old(a.status));
        }
      }
    }

    /** The loop of `addSelected`: each listed atom has its selected bit flipped, once per listing. */
    method FlipEach(t: seq<Atom>)
      modifies t`status
      ensures forall a | a in t :: a.status == Flipped(old(a.status), multiset(t)[a])
    {
      ghost var initial := map a | a in t :: a.status;
      var j := 0;
      while j < |t|
        invariant 0 <= j <= |t|
        invariant FlippedSoFar(t, t[..j], initial)
      {
        var a := t[j];
        ghost var mid := map b | b in t :: b.status;
        FlipOne(a);
        FlippedSoFarStep(t, j, initial, mid);
        j := j + 1;
      }
      assert t[..|t|] == t;
    }

    /** The body of `addSelected`'s loop: a selected atom is deselected, any other one selected. */
    method FlipOne(a: Atom)
      modifies a`status
      ensures a.status == Toggle(old(a.status), SELECTED)
    {
      if Has(a.status, SELECTED) {
        a.Deselect();
      } else {
        a.Select();
      }
    }

    /* Updates of every atom. */

    /** `dehighlight`: clears the given bits everywhere; no bits (0) reset everything to `TODO`. */
    method Dehighlight(highlight: Mask)
      modifies atoms`status
      ensures forall a | a in atoms :: a.status == if highlight == 0 then TODO else Remove(old(a.status), highlight)
    {
      var i := 0;
      while i < |atoms|
        invariant 0 <= i <= |atoms|
        invariant forall a | a in atoms[..i] :: a.status == if highlight == 0 then TODO else Remove(old(a.status), highlight)
        invariant forall a | a in atoms && a !in atoms[..i] :: a.status == old(a.status)
      {
        var a := atoms[i];
        assert atoms[..i + 1] == atoms[..i] + [a];
        if highlight != 0 {
          a.RemoveHighlight(highlight);
          Idempotent(old(a.status), highlight);
        } else {
          a.ResetHighlight();
        }
        i := i + 1;
      }
      assert atoms[..|atoms|] == atoms;
    }

    /**
     * `move`: moves every atom by (dx, dy). A `NaN` or missing delta makes the
     * first atom throw before anything moves.
     */
    method Move(dx: Number, dy: Number) returns (r: Outcome<()>)
      requires Valid()
      modifies atoms`x, atoms`y
      ensures r.Throws? <==> atoms != [] && (dx.IsNaN() || dy.IsNaN())
      ensures r.Throws? ==> r.error == MovingToNowhere && forall a | a in atoms :: a.x == old(a.x) && a.y == old(a.y)
      ensures r.Returns? ==> forall a | a in atoms :: a.x == old(a.x) + dx.value && a.y == old(a.y) + dy.value
    {
      if dx.IsNaN() || dy.IsNaN() {
        if atoms == [] {
          return Returns(());
        }
        var o := atoms[0].Move(dx, dy);
        return Throws(o.error);
      }
      MoveEach(dx.value, dy.value);
      return Returns(());
    }

    /** The loop of `move` with finite deltas: each atom moves once. */
    method MoveEach(dx: real, dy: real)
      requires Valid()
      modifies atoms`x, atoms`y
      ensures forall k | 0 <= k < |atoms| :: atoms[k].x == old(atoms[k].x) + dx && atoms[k].y == old(atoms[k].y) + dy
    {
      var i := 0;
      while i < |atoms|
        invariant 0 <= i <= |atoms|
        invariant forall k | 0 <= k < i :: atoms[k].x == old(atoms[k].x) + dx && atoms[k].y == old(atoms[k].y) + dy
        invariant forall k | i <= k < |atoms| :: atoms[k].x == old(atoms[k].x) && atoms[k].y == old(atoms[k].y)
      {
        var o := atoms[i].Move(Real(dx), Real(dy));
        i := i + 1;
      }
    }

    /* Coordinates. */

    /** The inner loop of `setCoordinates`: the first record with the atom's label places it. */
    method Place(a: Atom, recs: seq<Coordinates>)
      modifies a`x3d, a`y3d, a`z3d
      ensures FirstMatch(recs, a.elementID).None? ==> a.x3d == old(a.x3d) && a.y3d == old(a.y3d) && a.z3d == old(a.z3d)
      ensures FirstMatch(recs, a.elementID).Some? ==>
        var c := FirstMatch(recs, a.elementID).value;
        a.x3d == c.x3d && a.y3d == c.y3d && a.z3d == c.z3d
    {
      var i := 0;
      while i < |recs|
        invariant 0 <= i <= |recs|
        invariant forall j | 0 <= j < i :: recs[j].elementID != a.elementID
      {
        if recs[i].elementID == a.elementID {
          a.x3d, a.y3d, a.z3d := recs[i].x3d, recs[i].y3d, recs[i].z3d;
          assert FirstMatch(recs, a.elementID) == Some(recs[i]);
          return;
        }
        i := i + 1;
      }
    }

    /** `setCoordinates`: every atom takes the 3D position of the first record with its label. */
    method SetCoordinates(recs: seq<Coordinates>)
      modifies atoms`x3d, atoms`y3d, atoms`z3d
      ensures forall a | a in atoms && FirstMatch(recs, a.elementID).None? ::
        a.x3d == old(a.x3d) && a.y3d == old(a.y3d) && a.z3d == old(a.z3d)
      ensures forall a | a in atoms && FirstMatch(recs, a.elementID).Some? ::
        var c := FirstMatch(recs, a.elementID).value;
        a.x3d == c.x3d && a.y3d == c.y3d && a.z3d == c.z3d
    {
      var i := 0;
      while i < |atoms|
        invariant 0 <= i <= |atoms|
        invariant forall a | a in atoms[..i] && FirstMatch(recs, a.elementID).None? ::
          a.x3d == old(a.x3d) && a.y3d == old(a.y3d) && a.z3d == old(a.z3d)
        invariant forall a | a in atoms[..i] && FirstMatch(recs, a.elementID).Some? ::
          var c := FirstMatch(recs, a.elementID).value;
          a.x3d == c.x3d && a.y3d == c.y3d && a.z3d == c.z3d
        invariant forall a | a in atoms && a !in atoms[..i] ::
          a.x3d == old(a.x3d) && a.y3d == old(a.y3d) && a.z3d == old(a.z3d)
      {
        assert atoms[..i + 1] == atoms[..i] + [atoms[i]];
        Place(atoms[i], recs);
        i := i + 1;
      }
      assert atoms[..|atoms|] == atoms;
    }

    /** The 3D positions of the atoms, in list order. */
    function Points(): (r: seq<Point>)
      reads this, atoms
      ensures |r| == |atoms| && forall i :: 0 <= i < |atoms| ==> r[i] == Point(atoms[i].x3d, atoms[i].y3d, atoms[i].z3d)
    {
      seq(|atoms|, i requires 0 <= i < |atoms| reads this, atoms => Point(atoms[i].x3d, atoms[i].y3d, atoms[i].z3d))
    }

    /** `checkCoordinates` as written, on the atoms' 3D positions: it holds only for an empty list. */
    function CoordinatesCheckedAsWritten(): (r: bool)
      reads this, atoms
      ensures r <==> atoms == []
    {
      CheckCoordinatesAsWrittenIsEmptiness(Points());
      CheckCoordinatesAsWritten(Points())
    }

    /** `checkCoordinates` as documented: no atom has the 3D position (0, 0, 0). */
    function CoordinatesChecked(): (r: bool)
      reads this, atoms
      ensures r <==> forall a | a in atoms :: !(a.x3d == 0.0 && a.y3d == 0.0 && a.z3d == 0.0)
    {
      var ps := Points();
      assert forall a | a in atoms :: Point(a.x3d, a.y3d, a.z3d) in ps by {
        forall a | a in atoms ensures Point(a.x3d, a.y3d, a.z3d) in ps {
          assert ps[Seqs.IndexOf(atoms, a)] == Point(a.x3d, a.y3d, a.z3d);
        }
      }
      assert forall i | 0 <= i < |ps| :: atoms[i] in atoms;
      CheckCoordinates(ps)
    }

    /* Export. */

    /** The LGF lines of the atoms, in list order. */
    function LGFLines(chargeText: real -> string, numberText: real -> string): (r: seq<string>)
      reads this, atoms
      ensures |r| == |atoms| && forall i :: 0 <= i < |atoms| ==> r[i] == atoms[i].LGF(chargeText, numberText)
    {
      seq(|atoms|, i requires 0 <= i < |atoms| reads this, atoms => atoms[i].LGF(chargeText, numberText))
    }

    /** `getLGF`: the `@nodes` section header, the column row and one line per atom. */
    function LGF(chargeText: real -> string, numberText: real -> string): string
      reads this, atoms
    {
      "@nodes\n" + LGFColumns + "\n" + Text.Concat(LGFLines(chargeText, numberText))
    }
  }

  /** The tab-separated body of each atom's line. */
  function LineBodies(l: AtomList, chargeText: real -> string, numberText: real -> string): (r: seq<string>)
    reads l, l.atoms
    ensures |r| == |l.atoms|
    ensures forall i :: 0 <= i < |l.atoms| ==> r[i] == Text.Terminated(LGFFields(l.atoms[i], chargeText, numberText), '\t')
  {
    seq(|l.atoms|, i requires 0 <= i < |l.atoms| reads l, l.atoms =>
      Text.Terminated(LGFFields(l.atoms[i], chargeText, numberText), '\t'))
  }

  /** The LGF line of an atom has no newline but its last character. */
  lemma BodyHasNoNewline(a: Atom, chargeText: real -> string, numberText: real -> string)
    requires '\n' !in a.elementID
    requires forall v :: '\n' !in chargeText(v)
    requires forall v :: '\n' !in numberText(v)
    ensures '\n' !in Text.Terminated(LGFFields(a, chargeText, numberText), '\t')
  {
    var fs := LGFFields(a, chargeText, numberText);
    var c := a.charge.GetOr(0.0);
    var u, v, w := a.x3d, a.y3d, a.z3d;
    assert '\n' !in chargeText(c);
    assert '\n' !in numberText(u) && '\n' !in numberText(v) && '\n' !in numberText(w);
    assert forall k :: 0 <= k < |fs| ==> '\n' !in fs[k];
    Text.TerminatedAvoids(fs, '\t', '\n');
  }

  /** No atom's line body holds a newline when no field does. */
  lemma BodiesHaveNoNewline(l: AtomList, chargeText: real -> string, numberText: real -> string)
    requires forall a | a in l.atoms :: '\n' !in a.elementID
    requires forall v :: '\n' !in chargeText(v)
    requires forall v :: '\n' !in numberText(v)
    ensures var bodies := LineBodies(l, chargeText, numberText);
      forall i :: 0 <= i < |bodies| ==> '\n' !in bodies[i]
  {
    forall i | 0 <= i < |l.atoms| ensures '\n' !in LineBodies(l, chargeText, numberText)[i] {
      assert l.atoms[i] in l.atoms;
      BodyHasNoNewline(l.atoms[i], chargeText, numberText);
    }
  }

  /** Each atom's line is its body followed by a newline. */
  lemma LinesEndBodies(l: AtomList, chargeText: real -> string, numberText: real -> string)
    ensures var lines, bodies := l.LGFLines(chargeText, numberText), LineBodies(l, chargeText, numberText);
      forall i :: 0 <= i < |lines| ==> lines[i] == bodies[i] + ['\n']
  {
    var lines, bodies := l.LGFLines(chargeText, numberText), LineBodies(l, chargeText, numberText);
    forall i | 0 <= i < |lines| ensures lines[i] == bodies[i] + ['\n'] {
      LGFLayout(l.atoms[i], chargeText, numberText);
    }
  }

  /** The export is its rows, each followed by a newline. */
  lemma LGFLayoutRows(l: AtomList, chargeText: real -> string, numberText: real -> string)
    ensures l.LGF(chargeText, numberText)
            == Text.Terminated(["@nodes", LGFColumns] + LineBodies(l, chargeText, numberText), '\n')
  {
    var bodies := LineBodies(l, chargeText, numberText);
    var lines := l.LGFLines(chargeText, numberText);
    LinesEndBodies(l, chargeText, numberText);
    Text.HeadedLayout("@nodes", LGFColumns, lines, bodies, '\n');
    assert "@nodes\n" == "@nodes" + ['\n'];
  }

  /**
   * Splitting the export on newlines gives the section name, the column row,
   * one tab-separated row per atom in list order, and the empty rest after
   * the final newline, when no field contains a newline.
   */
  lemma LGFRows(l: AtomList, chargeText: real -> string, numberText: real -> string)
    requires forall a | a in l.atoms :: '\n' !in a.elementID
    requires forall v :: '\n' !in chargeText(v)
    requires forall v :: '\n' !in numberText(v)
    ensures Text.SplitOn(l.LGF(chargeText, numberText), '\n')
            == ["@nodes", LGFColumns] + LineBodies(l, chargeText, numberText) + [""]
  {
    BodiesHaveNoNewline(l, chargeText, numberText);
    LGFColumnNamesPlain();
    Text.TerminatedAvoids(LGFColumnNames, '\t', '\n');
    LGFLayoutRows(l, chargeText, numberText);
    Text.SplitHeaded("@nodes", LGFColumns, LineBodies(l, chargeText, numberText), '\n');
  }
}
