/**
 * The bounding box of an atom list: the left-top corner is the least
 * `x - radius` and `y - radius` over the shown atoms, the right-bottom corner
 * the greatest `x + radius` and `y + radius`; width, height, size and centre
 * follow from the two corners. A hidden hydrogen contributes `Infinity` to the
 * minima and `0` to the maxima, so the arithmetic is over JavaScript's
 * extended numbers.
 */
module BoundingBox {
  import Atoms
  type Atom = Atoms.Atom

  /** A JavaScript number over exact reals: finite, an infinity, or `NaN`. */
  datatype Num = Fin(v: real) | PosInf | NegInf | NaN

  /** `a <= b`; every comparison with `NaN` is false. */
  predicate Le(a: Num, b: Num) {
    if a.NaN? || b.NaN? then false
    else if a.NegInf? || b.PosInf? then true
    else if a.PosInf? || b.NegInf? then false
    else a.v <= b.v
  }

  /** `a + b`: `NaN` absorbs, and opposite infinities give `NaN`. */
  function Plus(a: Num, b: Num): (r: Num)
    ensures a.Fin? && b.Fin? ==> r == Fin(a.v + b.v)
    ensures a.NaN? || b.NaN? || (a.PosInf? && b.NegInf?) || (a.NegInf? && b.PosInf?) ==> r == NaN
    ensures r.PosInf? <==> (a.PosInf? && !b.NaN? && !b.NegInf?) || (b.PosInf? && !a.NaN? && !a.NegInf?)
  {
    if a.NaN? || b.NaN? then NaN
    else if a.PosInf? then (if b.NegInf? then NaN else PosInf)
    else if a.NegInf? then (if b.PosInf? then NaN else NegInf)
    else if b.Fin? then Fin(a.v + b.v)
    else b
  }

  /** `-a`. */
  function Neg(a: Num): Num {
    match a
    case Fin(v) => Fin(-v)
    case PosInf => NegInf
    case NegInf => PosInf
    case NaN => NaN
  }

  /** `a - b`. */
  function Minus(a: Num, b: Num): Num {
    Plus(a, Neg(b))
  }

  /** `a / 2`. */
  function Half(a: Num): Num {
    if a.Fin? then Fin(a.v / 2.0) else a
  }

  /** `Math.min(a, b)`. */
  function Min2(a: Num, b: Num): Num {
    if a.NaN? || b.NaN? then NaN else if Le(a, b) then a else b
  }

  /** `Math.max(a, b)`. */
  function Max2(a: Num, b: Num): Num {
    if a.NaN? || b.NaN? then NaN else if Le(a, b) then b else a
  }

  /** `$ext.array.min`: the least element, `Infinity` for none, `NaN` as soon as one is `NaN`. */
  function MinOf(s: seq<Num>): (r: Num)
    ensures r.NaN? <==> exists i :: 0 <= i < |s| && s[i].NaN?
    ensures !r.NaN? ==> forall i :: 0 <= i < |s| ==> Le(r, s[i])
    ensures !r.NaN? ==> r == PosInf || exists i :: 0 <= i < |s| && r == s[i]
    ensures s == [] ==> r == PosInf
  {
    if s == [] then PosInf
    else
      var n := |s| - 1;
      var r := Min2(MinOf(s[..n]), s[n]);
      assert forall i | 0 <= i < n :: s[..n][i] == s[i];
      r
  }

  /** `$ext.array.max`: the greatest element, `-Infinity` for none, `NaN` as soon as one is `NaN`. */
  function MaxOf(s: seq<Num>): (r: Num)
    ensures r.NaN? <==> exists i :: 0 <= i < |s| && s[i].NaN?
    ensures !r.NaN? ==> forall i :: 0 <= i < |s| ==> Le(s[i], r)
    ensures !r.NaN? ==> r == NegInf || exists i :: 0 <= i < |s| && r == s[i]
    ensures s == [] ==> r == NegInf
  {
    if s == [] then NegInf
    else
      var n := |s| - 1;
      var r := Max2(MaxOf(s[..n]), s[n]);
      assert forall i | 0 <= i < n :: s[..n][i] == s[i];
      r
  }

  /** The radius settings for atoms without an explicit radius. */
  datatype Radii = Radii(standard: real, charged: real)

  /** `getRadius`: the explicit radius, else the charged or the standard one. */
  function Radius(a: Atom, radii: Radii): real
    reads a
  {
    if a.radius.Some? then a.radius.value
    else if a.IsCharged() then radii.charged
    else radii.standard
  }

  /** An atom the box takes into account: any atom when hydrogens are shown, otherwise the non-hydrogens. */
  predicate Shown(a: Atom, showHAtoms: bool) {
    showHAtoms || a.element != "H"
  }

  /** What the box reads of one atom: whether it counts, its centre and its radius. */
  datatype Disc = Disc(shown: bool, x: real, y: real, r: real)

  /** The discs of the atoms, in list order. */
  function Discs(atoms: seq<Atom>, showHAtoms: bool, radii: Radii): (d: seq<Disc>)
    reads atoms
    ensures |d| == |atoms|
    ensures forall i :: 0 <= i < |atoms| ==>
      d[i] == Disc(Shown(atoms[i], showHAtoms), atoms[i].x, atoms[i].y, Radius(atoms[i], radii))
  {
    seq(|atoms|, i requires 0 <= i < |atoms| reads atoms =>
      Disc(Shown(atoms[i], showHAtoms), atoms[i].x, atoms[i].y, Radius(atoms[i], radii)))
  }

  /** A point with extended coordinates. */
  datatype NumPoint = NumPoint(x: Num, y: Num)

  /** A size with extended width and height. */
  datatype Size = Size(w: Num, h: Num)

  /** The near edge of a disc along one axis (`y` when `vertical`), `Infinity` when it does not count. */
  function Low(d: Disc, vertical: bool): Num {
    if !d.shown then PosInf else Fin((if vertical then d.y else d.x) - d.r)
  }

  /** The far edge of a disc along one axis, `0` when it does not count. */
  function High(d: Disc, vertical: bool): Num {
    if !d.shown then Fin(0.0) else Fin((if vertical then d.y else d.x) + d.r)
  }

  /** The candidates for the left edge, or the top edge when `vertical`. */
  function Lows(ds: seq<Disc>, vertical: bool): (r: seq<Num>)
    ensures |r| == |ds| && forall i :: 0 <= i < |ds| ==> r[i] == Low(ds[i], vertical)
  {
    seq(|ds|, i requires 0 <= i < |ds| => Low(ds[i], vertical))
  }

  /** The candidates for the right edge, or the bottom edge when `vertical`. */
  function Highs(ds: seq<Disc>, vertical: bool): (r: seq<Num>)
    ensures |r| == |ds| && forall i :: 0 <= i < |ds| ==> r[i] == High(ds[i], vertical)
  {
    seq(|ds|, i requires 0 <= i < |ds| => High(ds[i], vertical))
  }

  /** `getLeftTop`. */
  function LeftTop(ds: seq<Disc>): NumPoint {
    NumPoint(MinOf(Lows(ds, false)), MinOf(Lows(ds, true)))
  }

  /** `getRightBottom`. */
  function RightBottom(ds: seq<Disc>): NumPoint {
    NumPoint(MaxOf(Highs(ds, false)), MaxOf(Highs(ds, true)))
  }

  /** `getWidth`. */
  function Width(ds: seq<Disc>): Num {
    Minus(RightBottom(ds).x, LeftTop(ds).x)
  }

  /** `getHeight`. */
  function Height(ds: seq<Disc>): Num {
    Minus(RightBottom(ds).y, LeftTop(ds).y)
  }

  /** `getSize`. */
  function GetSize(ds: seq<Disc>): Size {
    Size(Width(ds), Height(ds))
  }

  /** `getCenterPoint`: the left-top corner plus half the size. */
  function CenterPoint(ds: seq<Disc>): NumPoint {
    var lt, s := LeftTop(ds), GetSize(ds);
    NumPoint(Plus(lt.x, Half(s.w)), Plus(lt.y, Half(s.h)))
  }

  /** A least element that is reached by a finite one, among finite ones and `Infinity`, is finite and is an element. */
  lemma MinFinite(s: seq<Num>, i: nat)
    requires i < |s| && s[i].Fin? && forall k :: 0 <= k < |s| ==> s[k].Fin? || s[k].PosInf?
    ensures MinOf(s).Fin? && Le(MinOf(s), s[i])
    ensures exists k :: 0 <= k < |s| && MinOf(s) == s[k]
  {
  }

  /** The greatest of finite elements is finite. */
  lemma MaxFinite(s: seq<Num>, i: nat)
    requires i < |s| && forall k :: 0 <= k < |s| ==> s[k].Fin?
    ensures MaxOf(s).Fin? && Le(s[i], MaxOf(s))
  {
  }

  /** Left edge plus half the width is the midpoint of the edges. */
  lemma Midpoint(lo: Num, hi: Num)
    requires lo.Fin? && hi.Fin?
    ensures Plus(lo, Half(Minus(hi, lo))) == Fin((lo.v + hi.v) / 2.0)
  {
  }

  /** Along one axis, a shown disc lies between the two edges, and the near edge is reached by a shown disc. */
  lemma AxisInside(ds: seq<Disc>, vertical: bool, i: nat)
    requires i < |ds| && ds[i].shown
    ensures var lo, hi := MinOf(Lows(ds, vertical)), MaxOf(Highs(ds, vertical));
      lo.Fin? && hi.Fin? && Le(lo, Low(ds[i], vertical)) && Le(High(ds[i], vertical), hi)
    ensures exists k :: 0 <= k < |ds| && ds[k].shown && MinOf(Lows(ds, vertical)) == Low(ds[k], vertical)
  {
    var lo := Lows(ds, vertical);
    MinFinite(lo, i);
    MaxFinite(Highs(ds, vertical), i);
    var k :| 0 <= k < |lo| && MinOf(lo) == lo[k];
    assert ds[k].shown;
  }

  /** Every shown disc lies inside the box, whose corners are then finite. */
  lemma ShownInside(ds: seq<Disc>, i: nat)
    requires i < |ds| && ds[i].shown
    ensures var d, lt, rb := ds[i], LeftTop(ds), RightBottom(ds);
      lt.x.Fin? && lt.y.Fin? && rb.x.Fin? && rb.y.Fin? &&
      lt.x.v <= d.x - d.r && lt.y.v <= d.y - d.r && d.x + d.r <= rb.x.v && d.y + d.r <= rb.y.v
  {
    AxisInside(ds, false, i);
    AxisInside(ds, true, i);
  }

  /** The left and top edges are each reached by a shown disc. */
  lemma CornerReached(ds: seq<Disc>, i: nat)
    requires i < |ds| && ds[i].shown
    ensures exists k :: 0 <= k < |ds| && ds[k].shown && LeftTop(ds).x == Fin(ds[k].x - ds[k].r)
    ensures exists k :: 0 <= k < |ds| && ds[k].shown && LeftTop(ds).y == Fin(ds[k].y - ds[k].r)
  {
    AxisInside(ds, false, i);
    AxisInside(ds, true, i);
  }

  /** With a shown disc and non-negative radii, width and height are finite and non-negative. */
  lemma SizeNonNegative(ds: seq<Disc>, i: nat)
    requires i < |ds| && ds[i].shown && ds[i].r >= 0.0
    ensures var s := GetSize(ds); s.w.Fin? && s.h.Fin? && s.w.v >= 0.0 && s.h.v >= 0.0
  {
    ShownInside(ds, i);
  }

  /** With a shown disc the centre is the midpoint of the two corners. */
  lemma CenterIsMidpoint(ds: seq<Disc>, i: nat)
    requires i < |ds| && ds[i].shown
    ensures var lt, rb := LeftTop(ds), RightBottom(ds);
      lt.x.Fin? && lt.y.Fin? && rb.x.Fin? && rb.y.Fin? &&
      CenterPoint(ds) == NumPoint(Fin((lt.x.v + rb.x.v) / 2.0), Fin((lt.y.v + rb.y.v) / 2.0))
  {
    ShownInside(ds, i);
    var lt, rb := LeftTop(ds), RightBottom(ds);
    Midpoint(lt.x, rb.x);
    Midpoint(lt.y, rb.y);
  }

  /** Without a shown disc the near edge is at infinity and the far edge is zero or absent. */
  lemma Unshown(ds: seq<Disc>, vertical: bool)
    requires forall k :: 0 <= k < |ds| ==> !ds[k].shown
    ensures MinOf(Lows(ds, vertical)) == PosInf
    ensures var m := MaxOf(Highs(ds, vertical)); m == NegInf || m == Fin(0.0)
  {
    var lo, hi := Lows(ds, vertical), Highs(ds, vertical);
    assert forall k | 0 <= k < |lo| :: lo[k] == PosInf;
    assert forall k | 0 <= k < |hi| :: hi[k] == Fin(0.0);
  }

  /** Without a shown disc the left-top corner is at infinity and the centre is not a number. */
  lemma NothingShown(ds: seq<Disc>)
    requires forall k :: 0 <= k < |ds| ==> !ds[k].shown
    ensures LeftTop(ds) == NumPoint(PosInf, PosInf)
    ensures CenterPoint(ds) == NumPoint(NaN, NaN)
  {
    Unshown(ds, false);
    Unshown(ds, true);
  }

  /** A hidden hydrogen counts as `0` for the far edges, so the right-bottom corner is never left of or above the origin. */
  lemma HiddenReachesOrigin(ds: seq<Disc>, i: nat)
    requires i < |ds| && !ds[i].shown
    ensures Le(Fin(0.0), RightBottom(ds).x) && Le(Fin(0.0), RightBottom(ds).y)
  {
    MaxFinite(Highs(ds, false), i);
    MaxFinite(Highs(ds, true), i);
  }
}
