/**
 * The molecule graph node. An atom carries immutable identity data (id,
 * element, element label, IACM type, explicit radius) and mutable position,
 * charges, fragment log and status bits. Bonds are triples over atom
 * references; the molecule's bond list and the `showHAtoms` /
 * `combineHLabels` settings are parameters of the queries that use them.
 */
module Atoms {
  import opened Wrappers
  import opened Statuses
  import Seqs
  import Text

  /** An entry of an atom's fragment log (any non-empty fragment object). */
  datatype Fragment = Fragment(key: int)

  /** A JavaScript number as the charge and move code sees it. */
  datatype Number = Undefined | NaN | Real(value: real) {
    /** `isNaN(v)`: true of `undefined` and of `NaN`. */
    predicate IsNaN() {
      !Real?
    }

    /** `!v`: `undefined`, `NaN` and zero are falsy. */
    predicate Falsy() {
      !Real? || value == 0.0
    }

    /** `v + w`: anything added to `undefined` or `NaN` is `NaN`. */
    function Plus(other: Number): Number {
      if Real? && other.Real? then Real(value + other.value) else NaN
    }
  }

  function FromOption(c: Option<real>): Number {
    match c
    case None => Undefined
    case Some(v) => Real(v)
  }

  /** A bond of the molecule; `bondType` 5 is aromatic. */
  datatype Bond = Bond(a1: Atom, a2: Atom, bondType: int)

  const AROMATIC := 5

  /** The record `getJSON` returns. */
  datatype AtomJSON = AtomJSON(
    id: int, element: string, elementID: string, iacm: int,
    x: real, y: real, x3d: real, y3d: real, z3d: real,
    charge: Option<real>, previewCharge: Option<real>,
    usedFragments: seq<Fragment>, status: Mask)

  /** The record `getSimpleJSON` returns (`type` is the IACM type). */
  datatype SimpleAtomJSON = SimpleAtomJSON(
    id: int, atomType: int, x: real, y: real, x3d: real, y3d: real, z3d: real)

  function Simplify(j: AtomJSON): SimpleAtomJSON {
    SimpleAtomJSON(j.id, j.iacm, j.x, j.y, j.x3d, j.y3d, j.z3d)
  }

  /** Every atom that is an endpoint of some bond. */
  function Endpoints(bonds: seq<Bond>): set<Atom> {
    (set b | b in bonds :: b.a1) + (set b | b in bonds :: b.a2)
  }

  class Atom {
    const id: int
    const element: string
    const elementID: string
    const iacm: int
    const radius: Option<real>
    var x: real
    var y: real
    var x3d: real
    var y3d: real
    var z3d: real
    var charge: Option<real>
    var previewCharge: Option<real>
    var usedFragments: seq<Fragment>
    var status: Mask

    /**
     * A missing fragment log starts empty and a zero (or missing) status
     * becomes `TODO`; every other argument is stored as given.
     */
    constructor (id: int, element: string, elementID: string, iacm: int,
                 x: real, y: real, x3d: real, y3d: real, z3d: real,
                 charge: Option<real>, previewCharge: Option<real>,
                 usedFragments: Option<seq<Fragment>>, status: Mask, radius: Option<real>)
      ensures JSON() == AtomJSON(id, element, elementID, iacm, x, y, x3d, y3d, z3d,
                                 charge, previewCharge, usedFragments.GetOr([]),
                                 if status == 0 then TODO else status)
      ensures this.radius == radius
    {
      this.id, this.element, this.elementID, this.iacm := id, element, elementID, iacm;
      this.x, this.y, this.x3d, this.y3d, this.z3d := x, y, x3d, y3d, z3d;
      this.charge, this.previewCharge := charge, previewCharge;
      this.usedFragments := usedFragments.GetOr([]);
      this.status := if status == 0 then TODO else status;
      this.radius := radius;
    }

    function JSON(): AtomJSON
      reads this
    {
      AtomJSON(id, element, elementID, iacm, x, y, x3d, y3d, z3d,
               charge, previewCharge, usedFragments, status)
    }

    /** The basic record is the full record with the other fields dropped. */
    function SimpleJSON(): (r: SimpleAtomJSON)
      reads this
      ensures r == Simplify(JSON())
    {
      SimpleAtomJSON(id, iacm, x, y, x3d, y3d, z3d)
    }

    /* Status bits. */

    method SetHighlight(highlight: Mask)
      modifies this`status
      ensures status == highlight
    {
      status := highlight;
    }

    method AddHighlight(highlight: Mask)
      modifies this`status
      ensures status == Add(old(status), highlight)
    {
      status := status | highlight;
    }

    method RemoveHighlight(highlight: Mask)
      modifies this`status
      ensures status == Remove(old(status), highlight)
    {
      status := status & !highlight;
    }

    method ResetHighlight()
      modifies this`status
      ensures status == TODO
    {
      SetHighlight(TODO);
    }

    method Hover()
      modifies this`status
      ensures status == Add(old(status), HOVER) && Has(status, HOVER)
    {
      AddHighlight(HOVER);
      OneBit(old(status), HOVER);
    }

    method Dehover()
      modifies this`status
      ensures status == Remove(old(status), HOVER) && !Has(status, HOVER)
    {
      RemoveHighlight(HOVER);
      OneBit(old(status), HOVER);
    }

    method Select()
      modifies this`status
      ensures status == Add(old(status), SELECTED) && Has(status, SELECTED)
    {
      AddHighlight(SELECTED);
      OneBit(old(status), SELECTED);
    }

    method Deselect()
      modifies this`status
      ensures status == Remove(old(status), SELECTED) && !Has(status, SELECTED)
    {
      RemoveHighlight(SELECTED);
      OneBit(old(status), SELECTED);
    }

    /* Charge. */

    predicate IsCharged()
      reads this
    {
      charge.Some?
    }

    /** Sets the charge; a given fragment is appended to the fragment log. */
    method SetCharge(c: Option<real>, fragment: Option<Fragment>)
      modifies this`charge, this`usedFragments
      ensures charge == c
      ensures fragment.Some? ==> usedFragments == old(usedFragments) + [fragment.value]
      ensures fragment.None? ==> usedFragments == old(usedFragments)
    {
      charge := c;
      if fragment.Some? {
        usedFragments := usedFragments + [fragment.value];
      }
    }

    /* Position. */

    /** Moves the 2D position; a `NaN` or missing delta throws and moves nothing. */
    method Move(dx: Number, dy: Number) returns (r: Outcome<Atom>)
      modifies this`x, this`y
      ensures r.Throws? <==> dx.IsNaN() || dy.IsNaN()
      ensures r.Throws? ==> r.error == MovingToNowhere && x == old(x) && y == old(y)
      ensures r.Returns? ==> r.value == this && x == old(x) + dx.value && y == old(y) + dy.value
    {
      if dx.IsNaN() || dy.IsNaN() {
        return Throws(MovingToNowhere);
      }
      x := x + dx.value;
      y := y + dy.value;
      return Returns(this);
    }

    /* Bonds and neighbours. */

    /** The test of the `getBonds` loop: incident, and aromatic when asked for. */
    predicate Keeps(b: Bond, arom: bool) {
      (b.a1 == this || b.a2 == this) && (!arom || b.bondType == AROMATIC)
    }

    /** The bonds `Keeps` accepts, in bond-list order. */
    function IncidentBonds(bonds: seq<Bond>, arom: bool): (r: seq<Bond>)
      ensures forall b | b in r :: b in bonds && Keeps(b, arom)
      ensures forall b | b in bonds && Keeps(b, arom) :: b in r
      decreases |bonds|
    {
      if bonds == [] then []
      else
        var rest, b := IncidentBonds(bonds[..|bonds| - 1], arom), bonds[|bonds| - 1];
        assert bonds == bonds[..|bonds| - 1] + [b];
        if Keeps(b, arom) then rest + [b] else rest
    }

    /**
     * The incident bonds come in bond-list order, each as often as it occurs
     * in the bond list.
     */
    lemma {:induction false} IncidentBondsOrder(bonds: seq<Bond>, arom: bool)
      ensures Seqs.IsSubsequence(IncidentBonds(bonds, arom), bonds)
      ensures forall b :: multiset(IncidentBonds(bonds, arom))[b] == (if Keeps(b, arom) then multiset(bonds)[b] else 0)
      decreases |bonds|
    {
      if bonds != [] {
        var init := bonds[..|bonds| - 1];
        assert bonds == init + [bonds[|bonds| - 1]];
        IncidentBondsOrder(init, arom);
      }
    }

    /** `getBonds`: one pass over the bond list, pushing the kept bonds. */
    method GetBonds(bonds: seq<Bond>, arom: bool) returns (r: seq<Bond>)
      ensures r == IncidentBonds(bonds, arom)
    {
      r := [];
      var i := 0;
      while i < |bonds|
        invariant 0 <= i <= |bonds|
        invariant r == IncidentBonds(bonds[..i], arom)
      {
        assert bonds[..i + 1][..i] == bonds[..i];
        if Keeps(bonds[i], arom) {
          r := r + [bonds[i]];
        }
        i := i + 1;
      }
      assert bonds[..|bonds|] == bonds;
    }

    /** The endpoint of `b` that is not this atom (`a1` when both are). */
    function Other(b: Bond): Atom {
      if b.a1 == this then b.a2 else b.a1
    }

    /** `getBondedAtoms`: the opposite endpoint of each incident bond, in order. */
    function BondedAtoms(bonds: seq<Bond>, arom: bool): (r: seq<Atom>)
      ensures |r| == |IncidentBonds(bonds, arom)|
      ensures forall i :: 0 <= i < |r| ==> r[i] == Other(IncidentBonds(bonds, arom)[i])
      ensures forall y | y in r :: y in Endpoints(bonds)
    {
      var ib := IncidentBonds(bonds, arom);
      seq(|ib|, i requires 0 <= i < |ib| => Other(ib[i]))
    }

    /** `getBondCount`: the number of incident bonds (recomputed on every call). */
    function BondCount(bonds: seq<Bond>, arom: bool): (n: nat)
      ensures n == |BondedAtoms(bonds, arom)|
    {
      |IncidentBonds(bonds, arom)|
    }

    /** `isBondedWith`: `other` is among the bonded atoms. */
    predicate IsBondedWith(other: Atom, bonds: seq<Bond>) {
      other in BondedAtoms(bonds, false)
    }

    /** `getHydrogenAtoms`: the bonded atoms whose element is "H", in order. */
    function Hydrogens(bonds: seq<Bond>): (r: seq<Atom>)
      ensures forall h | h in r :: h in BondedAtoms(bonds, false) && h.element == "H"
      ensures forall h | h in BondedAtoms(bonds, false) && h.element == "H" :: h in r
      ensures forall h | h in r :: h in Endpoints(bonds)
    {
      Seqs.Filter(BondedAtoms(bonds, false), (h: Atom) => h.element == "H")
    }

    /**
     * `getBase`: a hydrogen's first bonded atom (`None` stands for the
     * `undefined` of a hydrogen without bonds); any other atom is its own base.
     */
    function Base(bonds: seq<Bond>): (r: Option<Atom>)
      ensures element != "H" ==> r == Some(this)
      ensures r.Some? && r.value != this ==> IsBondedWith(r.value, bonds)
      ensures element == "H" && r.Some? ==> r.value in Endpoints(bonds)
      ensures element == "H" ==> (r.None? <==> forall b | b in bonds :: !Keeps(b, false))
    {
      if element == "H" then
        var bs := BondedAtoms(bonds, false);
        if bs == [] then None
        else
          assert IncidentBonds(bonds, false)[0] in IncidentBonds(bonds, false);
          Some(bs[0])
      else Some(this)
    }

    /**
     * A hydrogen's base is the other end of the first bond that touches it in
     * the bond list.
     */
    lemma BaseIsFirstBond(bonds: seq<Bond>)
      requires element == "H" && Base(bonds).Some?
      ensures exists k | 0 <= k < |bonds| ::
        Keeps(bonds[k], false) && Base(bonds).value == Other(bonds[k]) &&
        forall j | 0 <= j < k :: !Keeps(bonds[j], false)
    {
      var k := FirstIncident(bonds, false);
      assert BondedAtoms(bonds, false)[0] == Other(bonds[k]);
    }

    /** The first incident bond is the first bond of the list that `Keeps` accepts. */
    lemma {:induction false} FirstIncident(bonds: seq<Bond>, arom: bool) returns (k: nat)
      requires IncidentBonds(bonds, arom) != []
      ensures k < |bonds| && Keeps(bonds[k], arom) && IncidentBonds(bonds, arom)[0] == bonds[k]
      ensures forall j | 0 <= j < k :: !Keeps(bonds[j], arom)
      decreases |bonds|
    {
      var init := bonds[..|bonds| - 1];
      assert bonds == init + [bonds[|bonds| - 1]];
      if IncidentBonds(init, arom) != [] {
        k := FirstIncident(init, arom);
      } else {
        k := |bonds| - 1;
        forall j | 0 <= j < k ensures !Keeps(bonds[j], arom) {
          assert bonds[j] in init;
        }
      }
    }

    /* Label. */

    /**
     * `getLabel`: the element, then "H" and, for two or more hydrogens, the
     * subscript character of their count, whenever hydrogens are asked for or
     * combined into the labels of hidden hydrogens.
     */
    function Label(bonds: seq<Bond>, withHs: bool, combineHLabels: bool, showHAtoms: bool): string {
      var n := |Hydrogens(bonds)|;
      if (withHs || (combineHLabels && !showHAtoms)) && n > 0 then
        element + "H" + (if n > 1 then [FromCharCode(8320 + n)] else [])
      else element
    }

    /* Export. */

    /**
     * `getLGF`: charge (0 when unset) as `chargeText` formats it, id, element
     * label, IACM type, the three 3D coordinates as `numberText` writes them
     * and the id again, each followed by a tab, then a newline.
     */
    function LGF(chargeText: real -> string, numberText: real -> string): string
      reads this
    {
      chargeText(charge.GetOr(0.0)) + "\t" + Text.IntToText(id) + "\t"
        + elementID + "\t" + Text.IntToText(iacm) + "\t" + numberText(x3d) + "\t"
        + numberText(y3d) + "\t" + numberText(z3d) + "\t"
        + Text.IntToText(id) + "\t" + "\n"
    }
  }

  /* Neighbourhood properties. */

  /** `c` is a bonded (or aromatically bonded) atom of `a`. */
  predicate Bonded(a: Atom, c: Atom, bonds: seq<Bond>, arom: bool) {
    c in a.BondedAtoms(bonds, arom)
  }

  /** An atom is bonded with `y` exactly when some kept bond joins them. */
  lemma BondedAtomsSpec(a: Atom, bonds: seq<Bond>, arom: bool, y: Atom)
    ensures Bonded(a, y, bonds, arom) <==> exists b :: b in bonds && a.Keeps(b, arom) && a.Other(b) == y
  {
    var ib := a.IncidentBonds(bonds, arom);
    var r := a.BondedAtoms(bonds, arom);
    if y in r {
      var i :| 0 <= i < |r| && r[i] == y;
      assert ib[i] in ib;
    }
    if exists b :: b in bonds && a.Keeps(b, arom) && a.Other(b) == y {
      var b :| b in bonds && a.Keeps(b, arom) && a.Other(b) == y;
      assert b in ib;
      var i :| 0 <= i < |ib| && ib[i] == b;
      assert r[i] == y;
    }
  }

  /** Bonds have no direction: bonded-with is symmetric. */
  lemma BondedSymmetric(a: Atom, c: Atom, bonds: seq<Bond>, arom: bool)
    requires Bonded(a, c, bonds, arom)
    ensures Bonded(c, a, bonds, arom)
  {
    BondedAtomsSpec(a, bonds, arom, c);
    var b :| b in bonds && a.Keeps(b, arom) && a.Other(b) == c;
    assert c.Keeps(b, arom) && c.Other(b) == a;
    BondedAtomsSpec(c, bonds, arom, a);
  }

  /** An aromatic neighbour is a neighbour. */
  lemma AromaticBonded(a: Atom, c: Atom, bonds: seq<Bond>)
    requires Bonded(a, c, bonds, true)
    ensures Bonded(a, c, bonds, false)
  {
    BondedAtomsSpec(a, bonds, true, c);
    var b :| b in bonds && a.Keeps(b, true) && a.Other(b) == c;
    BondedAtomsSpec(a, bonds, false, c);
  }

  /** The positions of the bonds `Keeps` accepts. */
  function KeptPositions(a: Atom, bonds: seq<Bond>, arom: bool): set<nat> {
    set k: nat | k < |bonds| && a.Keeps(bonds[k], arom)
  }

  /** The kept positions of a bond list grow by the last position when its bond is kept. */
  lemma KeptPositionsSnoc(a: Atom, bonds: seq<Bond>, arom: bool)
    requires bonds != []
    ensures var n := |bonds| - 1;
      KeptPositions(a, bonds, arom) == KeptPositions(a, bonds[..n], arom) + if a.Keeps(bonds[n], arom) then {n} else {}
  {
    var n := |bonds| - 1;
    var s, t := KeptPositions(a, bonds[..n], arom), KeptPositions(a, bonds, arom);
    forall k: nat | k < n ensures k in t <==> k in s {
      assert bonds[..n][k] == bonds[k];
    }
  }

  /** The bond count is the number of positions in the bond list holding a kept bond. */
  lemma {:induction false} BondCountPositions(a: Atom, bonds: seq<Bond>, arom: bool)
    ensures a.BondCount(bonds, arom) == |KeptPositions(a, bonds, arom)|
    decreases |bonds|
  {
    if bonds != [] {
      var n := |bonds| - 1;
      BondCountPositions(a, bonds[..n], arom);
      KeptPositionsSnoc(a, bonds, arom);
      assert n !in KeptPositions(a, bonds[..n], arom);
    }
  }

  /* Label properties. */

  /**
   * `String.fromCharCode(c)`: the UTF-16 unit `c` modulo 2^16; a lone
   * surrogate unit, which a Dafny string cannot hold, becomes U+FFFD.
   */
  function FromCharCode(c: nat): char {
    var u := c % 0x1_0000;
    if 0xD800 <= u < 0xE000 then '�' else u as char
  }

  /** Reads the hydrogen count back from a label built on `element`. */
  function LabelHydrogens(element: string, text: string): int {
    if |text| <= |element| then 0
    else if |text| == |element| + 1 then 1
    else text[|text| - 1] as int - 8320
  }

  /**
   * A label starts with the element and encodes the number of bonded
   * hydrogens exactly when hydrogens are shown in labels (for fewer than
   * 46976 hydrogens, where the subscript code stays below the surrogates).
   */
  lemma LabelRoundTrip(a: Atom, bonds: seq<Bond>, withHs: bool, combineHLabels: bool, showHAtoms: bool)
    requires |a.Hydrogens(bonds)| < 46976
    ensures a.element <= a.Label(bonds, withHs, combineHLabels, showHAtoms)
    ensures var n, shown := |a.Hydrogens(bonds)|, withHs || (combineHLabels && !showHAtoms);
      var text := a.Label(bonds, withHs, combineHLabels, showHAtoms);
      |text| == |a.element| + (if shown && n > 0 then (if n > 1 then 2 else 1) else 0) &&
      (shown && n > 0 ==> text[|a.element|] == 'H') &&
      (shown && n > 1 ==> text[|a.element| + 1] as int == 8320 + n)
    ensures LabelHydrogens(a.element, a.Label(bonds, withHs, combineHLabels, showHAtoms))
            == if withHs || (combineHLabels && !showHAtoms) then |a.Hydrogens(bonds)| else 0
  {
    var n := |a.Hydrogens(bonds)|;
    if n > 1 {
      assert FromCharCode(8320 + n) as int == 8320 + n;
    }
  }

  /* Status delegation. */

  /**
   * `getStatus` with the atoms already delegated through in `visited`: a
   * hidden hydrogen asks its base, any other atom answers its own status.
   * Reading through a missing base is a `TypeError`; delegating back to an
   * atom already on the way recurses without end, a `RangeError`.
   */
  function StatusFrom(a: Atom, bonds: seq<Bond>, showHAtoms: bool, visited: set<Atom>): Outcome<Mask>
    reads {a} + Endpoints(bonds)
    decreases (Endpoints(bonds) + {a}) - visited
  {
    if !showHAtoms && a.element == "H" then
      if a in visited then Throws(RangeError)
      else
        match a.Base(bonds)
        case None => Throws(TypeError)
        case Some(b) =>
          assert (Endpoints(bonds) + {b}) - (visited + {a}) < (Endpoints(bonds) + {a}) - visited;
          StatusFrom(b, bonds, showHAtoms, visited + {a})
    else Returns(a.status)
  }

  /**
   * `getStatus`: an atom's own status, unless it is a hydrogen while
   * hydrogens are hidden; then the status of its base.
   */
  function Status(a: Atom, bonds: seq<Bond>, showHAtoms: bool): (r: Outcome<Mask>)
    reads {a} + Endpoints(bonds)
    ensures showHAtoms || a.element != "H" ==> r == Returns(a.status)
    ensures !showHAtoms && a.element == "H" && a.Base(bonds).None? ==> r == Throws(TypeError)
    ensures !showHAtoms && a.element == "H" && a.Base(bonds).Some? && a.Base(bonds).value.element != "H"
            ==> r == Returns(a.Base(bonds).value.status)
  {
    if !showHAtoms && a.element == "H" && a.Base(bonds).Some? then
      var b := a.Base(bonds).value;
      assert {} + {a} == {a};
      assert StatusFrom(a, bonds, showHAtoms, {}) == StatusFrom(b, bonds, showHAtoms, {} + {a});
      StatusFrom(a, bonds, showHAtoms, {})
    else StatusFrom(a, bonds, showHAtoms, {})
  }

  /** Whatever status a lookup answers is the own status of some atom on the way. */
  lemma {:induction false} StatusIsSomeAtoms(a: Atom, bonds: seq<Bond>, showHAtoms: bool, visited: set<Atom>)
    requires StatusFrom(a, bonds, showHAtoms, visited).Returns?
    ensures exists c :: c in {a} + Endpoints(bonds) && (showHAtoms || c.element != "H") &&
                        StatusFrom(a, bonds, showHAtoms, visited) == Returns(c.status)
    decreases (Endpoints(bonds) + {a}) - visited
  {
    if !showHAtoms && a.element == "H" {
      var b := a.Base(bonds).value;
      assert (Endpoints(bonds) + {b}) - (visited + {a}) < (Endpoints(bonds) + {a}) - visited;
      StatusIsSomeAtoms(b, bonds, showHAtoms, visited + {a});
    }
  }

  /* Charges. */

  /** The charges of the given atoms, in order. */
  function ChargesOf(hs: seq<Atom>): (r: seq<Option<real>>)
    reads hs
    ensures |r| == |hs| && forall i :: 0 <= i < |hs| ==> r[i] == hs[i].charge
  {
    seq(|hs|, i requires 0 <= i < |hs| reads hs => hs[i].charge)
  }

  /** The preview charges of the given atoms, in order. */
  function PreviewChargesOf(hs: seq<Atom>): (r: seq<Option<real>>)
    reads hs
    ensures |r| == |hs| && forall i :: 0 <= i < |hs| ==> r[i] == hs[i].previewCharge
  {
    seq(|hs|, i requires 0 <= i < |hs| reads hs => hs[i].previewCharge)
  }

  predicate AllDefined(cs: seq<Option<real>>) {
    forall i :: 0 <= i < |cs| ==> cs[i].Some?
  }

  /** The sum of the defined values. */
  function Sum(cs: seq<Option<real>>): real {
    if cs == [] then 0.0 else Sum(cs[..|cs| - 1]) + cs[|cs| - 1].GetOr(0.0)
  }

  /** One hydrogen step of `getCharge`: a falsy total restarts at 0, then the hydrogen's charge is added. */
  function ChargeStep(total: Number, h: Option<real>): Number {
    (if total.Falsy() then Real(0.0) else total).Plus(FromOption(h))
  }

  function FoldCharge(total: Number, cs: seq<Option<real>>): Number {
    if cs == [] then total else ChargeStep(FoldCharge(total, cs[..|cs| - 1]), cs[|cs| - 1])
  }

  /** One hydrogen step of `getPreviewCharge`: plain addition. */
  function FoldPreview(total: Number, cs: seq<Option<real>>): Number {
    if cs == [] then total else FoldPreview(total, cs[..|cs| - 1]).Plus(FromOption(cs[|cs| - 1]))
  }

  /** What a falsy total counts as once a hydrogen is added to it. */
  function Start(total: Number): real {
    if total.Falsy() then 0.0 else total.value
  }

  /**
   * `getCharge`: the own charge, plus (with hydrogens hidden) the charges of
   * the bonded hydrogens.
   */
  function Charge(a: Atom, bonds: seq<Bond>, showHAtoms: bool): Number
    reads {a} + Endpoints(bonds)
  {
    if showHAtoms then FromOption(a.charge)
    else FoldCharge(FromOption(a.charge), ChargesOf(a.Hydrogens(bonds)))
  }

  /**
   * `getPreviewCharge`: the own preview charge, plus (with hydrogens hidden
   * and an own preview charge set) the preview charges of the bonded hydrogens.
   */
  function PreviewCharge(a: Atom, bonds: seq<Bond>, showHAtoms: bool): Number
    reads {a} + Endpoints(bonds)
  {
    if a.previewCharge.None? || showHAtoms then FromOption(a.previewCharge)
    else FoldPreview(FromOption(a.previewCharge), PreviewChargesOf(a.Hydrogens(bonds)))
  }

  /** `getCharge`, the loop over the hydrogens written out. */
  method GetCharge(a: Atom, bonds: seq<Bond>, showHAtoms: bool) returns (r: Number)
    ensures r == Charge(a, bonds, showHAtoms)
  {
    r := FromOption(a.charge);
    if !showHAtoms {
      var hs := a.Hydrogens(bonds);
      ghost var cs := ChargesOf(hs);
      var i := 0;
      while i < |hs|
        invariant 0 <= i <= |hs|
        invariant r == FoldCharge(FromOption(a.charge), cs[..i])
      {
        assert cs[..i + 1][..i] == cs[..i];
        if r.Falsy() {
          r := Real(0.0);
        }
        r := r.Plus(FromOption(hs[i].charge));
        i := i + 1;
      }
      assert cs[..|hs|] == cs;
    }
  }

  /** `getPreviewCharge`, the loop over the hydrogens written out. */
  method GetPreviewCharge(a: Atom, bonds: seq<Bond>, showHAtoms: bool) returns (r: Number)
    ensures r == PreviewCharge(a, bonds, showHAtoms)
  {
    r := FromOption(a.previewCharge);
    if a.previewCharge.Some? && !showHAtoms {
      var hs := a.Hydrogens(bonds);
      ghost var cs := PreviewChargesOf(hs);
      var i := 0;
      while i < |hs|
        invariant 0 <= i <= |hs|
        invariant r == FoldPreview(FromOption(a.previewCharge), cs[..i])
      {
        assert cs[..i + 1][..i] == cs[..i];
        r := r.Plus(FromOption(hs[i].previewCharge));
        i := i + 1;
      }
      assert cs[..|hs|] == cs;
    }
  }

  /** Folding over a concatenation folds the second part onto the first part's total. */
  lemma {:induction false} FoldChargeAppend(total: Number, p: seq<Option<real>>, q: seq<Option<real>>)
    ensures FoldCharge(total, p + q) == FoldCharge(FoldCharge(total, p), q)
    decreases |q|
  {
    if q == [] {
      assert p + q == p;
    } else {
      var n := |q| - 1;
      assert (p + q)[..|p + q| - 1] == p + q[..n];
      FoldChargeAppend(total, p, q[..n]);
    }
  }

  /**
   * With every hydrogen charge set and at least one hydrogen, the folded
   * charge is the starting total (0 if it was unset, `NaN` or 0) plus the sum
   * of the hydrogen charges.
   */
  lemma {:induction false} FoldChargeSum(total: Number, cs: seq<Option<real>>)
    requires cs != [] && AllDefined(cs)
    ensures FoldCharge(total, cs) == Real(Start(total) + Sum(cs))
    decreases |cs|
  {
    var init := cs[..|cs| - 1];
    if init != [] {
      assert AllDefined(init) by {
        forall i | 0 <= i < |init| ensures init[i].Some? {
          assert init[i] == cs[i];
        }
      }
      FoldChargeSum(total, init);
    }
  }

  /**
   * A hydrogen without a charge turns the running total into `NaN`, which the
   * next hydrogen restarts from 0: only the charges after the last unset one
   * count, and an unset last charge leaves `NaN`.
   */
  lemma FoldChargeRestart(total: Number, p: seq<Option<real>>, q: seq<Option<real>>)
    requires AllDefined(q)
    ensures q == [] ==> FoldCharge(total, p + [None] + q) == NaN
    ensures q != [] ==> FoldCharge(total, p + [None] + q) == Real(Sum(q))
  {
    FoldChargeAppend(total, p + [None], q);
    var mid := FoldCharge(total, p + [None]);
    assert (p + [None])[..|p|] == p;
    assert mid == NaN;
    if q == [] {
      assert p + [None] + q == p + [None];
    } else {
      FoldChargeSum(mid, q);
    }
  }

  /** The total charge with hidden hydrogens whose charges are all set. */
  lemma ChargeWithHydrogens(a: Atom, bonds: seq<Bond>)
    requires a.Hydrogens(bonds) != [] && AllDefined(ChargesOf(a.Hydrogens(bonds)))
    ensures Charge(a, bonds, false) == Real(a.charge.GetOr(0.0) + Sum(ChargesOf(a.Hydrogens(bonds))))
  {
    FoldChargeSum(FromOption(a.charge), ChargesOf(a.Hydrogens(bonds)));
  }

  /** Adding up preview charges: a real sum when all are set, `NaN` otherwise. */
  lemma {:induction false} FoldPreviewSum(p: real, cs: seq<Option<real>>)
    ensures AllDefined(cs) ==> FoldPreview(Real(p), cs) == Real(p + Sum(cs))
    ensures !AllDefined(cs) ==> FoldPreview(Real(p), cs) == NaN
    decreases |cs|
  {
    if cs != [] {
      var init := cs[..|cs| - 1];
      FoldPreviewSum(p, init);
      if AllDefined(cs) {
        assert AllDefined(init) by {
          forall i | 0 <= i < |init| ensures init[i].Some? {
            assert init[i] == cs[i];
          }
        }
      } else if AllDefined(init) {
        assert cs[|cs| - 1].None? by {
          forall i | 0 <= i < |init| ensures cs[i].Some? {
            assert init[i] == cs[i];
          }
        }
      }
    }
  }

  /** The total preview charge with hidden hydrogens and an own preview charge set. */
  lemma PreviewChargeWithHydrogens(a: Atom, bonds: seq<Bond>)
    requires a.previewCharge.Some?
    ensures AllDefined(PreviewChargesOf(a.Hydrogens(bonds))) ==>
            PreviewCharge(a, bonds, false) == Real(a.previewCharge.value + Sum(PreviewChargesOf(a.Hydrogens(bonds))))
    ensures !AllDefined(PreviewChargesOf(a.Hydrogens(bonds))) ==> PreviewCharge(a, bonds, false) == NaN
  {
    FoldPreviewSum(a.previewCharge.value, PreviewChargesOf(a.Hydrogens(bonds)));
  }

  /* Export properties. */

  /** The eight fields of an atom's LGF line. */
  function LGFFields(a: Atom, chargeText: real -> string, numberText: real -> string): seq<string>
    reads a
  {
    [chargeText(a.charge.GetOr(0.0)), Text.IntToText(a.id), a.elementID, Text.IntToText(a.iacm),
     numberText(a.x3d), numberText(a.y3d), numberText(a.z3d), Text.IntToText(a.id)]
  }

  /** An LGF line is its fields, each followed by a tab, and a newline. */
  lemma LGFLayout(a: Atom, chargeText: real -> string, numberText: real -> string)
    ensures a.LGF(chargeText, numberText) == Text.Terminated(LGFFields(a, chargeText, numberText), '\t') + "\n"
  {
    Text.TerminatedEight(LGFFields(a, chargeText, numberText), '\t');
  }

  /**
   * Splitting an LGF line on tabs gives back its eight fields and the final
   * newline, when neither formatter nor the element label produces a tab.
   */
  lemma LGFSplit(a: Atom, chargeText: real -> string, numberText: real -> string)
    requires '\t' !in a.elementID
    requires forall v :: '\t' !in chargeText(v)
    requires forall v :: '\t' !in numberText(v)
    ensures Text.SplitOn(a.LGF(chargeText, numberText), '\t') == LGFFields(a, chargeText, numberText) + ["\n"]
  {
    var fs := LGFFields(a, chargeText, numberText);
    var t := '\t';
    assert forall i :: 0 <= i < |fs| ==> t !in fs[i] by {
      var c := a.charge.GetOr(0.0);
      assert t !in chargeText(c);
      var u, v, w := a.x3d, a.y3d, a.z3d;
      assert t !in numberText(u) && t !in numberText(v) && t !in numberText(w);
    }
    LGFLayout(a, chargeText, numberText);
    Text.SplitTerminated(fs, t, "\n");
    Text.SplitNone("\n", t);
  }
}
