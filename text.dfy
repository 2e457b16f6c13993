/**
 * Text helpers for the tab-separated atom export: JavaScript's
 * `String.prototype.split` on one character, the "each field followed by a
 * separator" layout, and the decimal text JavaScript gives an integer.
 */
module Text {

  /** `s.split(t)` for a one-character separator `t`. */
  function SplitOn(s: string, t: char): (r: seq<string>)
    ensures |r| >= 1
  {
    if s == [] then [""]
    else
      var rest := SplitOn(s[1..], t);
      if s[0] == t then [""] + rest else [[s[0]] + rest[0]] + rest[1..]
  }

  /** The pieces, each followed by `t`. */
  function Terminated(ps: seq<string>, t: char): string {
    if ps == [] then "" else ps[0] + [t] + Terminated(ps[1..], t)
  }

  lemma {:induction false} SplitNone(p: string, t: char)
    requires t !in p
    ensures SplitOn(p, t) == [p]
  {
    if p != [] {
      SplitNone(p[1..], t);
      assert [p[0]] + p[1..] == p;
    }
  }

  lemma {:induction false} SplitPiece(p: string, u: string, t: char)
    requires t !in p
    ensures SplitOn(p + [t] + u, t) == [p] + SplitOn(u, t)
  {
    var s := p + [t] + u;
    if p == [] {
      assert s[1..] == u;
    } else {
      assert s[1..] == p[1..] + [t] + u;
      SplitPiece(p[1..], u, t);
      assert [p[0]] + p[1..] == p;
    }
  }

  /** The layout of two leading pieces and the rest. */
  lemma TerminatedTwo(p: string, q: string, ps: seq<string>, t: char)
    ensures Terminated([p, q] + ps, t) == p + [t] + q + [t] + Terminated(ps, t)
  {
    var s := [p, q] + ps;
    assert s[1..] == [q] + ps;
    assert s[1..][1..] == ps;
  }

  /** Splitting separator-terminated pieces gives the pieces back. */
  lemma {:induction false} SplitTerminated(ps: seq<string>, t: char, rest: string)
    requires forall i :: 0 <= i < |ps| ==> t !in ps[i]
    ensures SplitOn(Terminated(ps, t) + rest, t) == ps + SplitOn(rest, t)
  {
    if ps != [] {
      var u := Terminated(ps[1..], t) + rest;
      SplitTerminated(ps[1..], t, rest);
      assert Terminated(ps, t) + rest == ps[0] + [t] + u;
      assert t !in ps[0];
      SplitPiece(ps[0], u, t);
      assert ps == [ps[0]] + ps[1..];
    } else {
      assert Terminated(ps, t) + rest == rest;
    }
  }

  /** Splitting a separator-terminated layout gives the pieces and an empty last piece. */
  lemma SplitLayout(ps: seq<string>, t: char)
    requires forall i :: 0 <= i < |ps| ==> t !in ps[i]
    ensures SplitOn(Terminated(ps, t), t) == ps + [""]
  {
    SplitTerminated(ps, t, "");
    assert Terminated(ps, t) + "" == Terminated(ps, t);
  }

  /** Splitting the layout of two leading pieces and the rest gives them all back. */
  lemma SplitHeaded(p: string, q: string, ps: seq<string>, t: char)
    requires t !in p && t !in q && forall i :: 0 <= i < |ps| ==> t !in ps[i]
    ensures SplitOn(Terminated([p, q] + ps, t), t) == [p, q] + ps + [""]
  {
    var all := [p, q] + ps;
    assert forall i :: 0 <= i < |all| ==> t !in all[i] by {
      assert forall i :: 2 <= i < |all| ==> all[i] == ps[i - 2];
    }
    SplitLayout(all, t);
  }

  /** A character that is neither the separator nor in any piece is not in the layout. */
  lemma {:induction false} TerminatedAvoids(ps: seq<string>, t: char, c: char)
    requires c != t && forall i :: 0 <= i < |ps| ==> c !in ps[i]
    ensures c !in Terminated(ps, t)
  {
    if ps != [] {
      assert c !in ps[0];
      TerminatedAvoids(ps[1..], t, c);
    }
  }

  /** `ss.join("")`. */
  function Concat(ss: seq<string>): string {
    if ss == [] then "" else ss[0] + Concat(ss[1..])
  }

  /** Joining lines that each end in `t` is the separator-terminated layout of their bodies. */
  lemma {:induction false} ConcatTerminated(ls: seq<string>, ps: seq<string>, t: char)
    requires |ls| == |ps| && forall i :: 0 <= i < |ls| ==> ls[i] == ps[i] + [t]
    ensures Concat(ls) == Terminated(ps, t)
  {
    if ls != [] {
      ConcatTerminated(ls[1..], ps[1..], t);
    }
  }

  /** Two leading pieces, then lines that each end in `t`: the layout of all their bodies. */
  lemma HeadedLayout(p: string, q: string, ls: seq<string>, ps: seq<string>, t: char)
    requires |ls| == |ps| && forall i :: 0 <= i < |ls| ==> ls[i] == ps[i] + [t]
    ensures p + [t] + q + [t] + Concat(ls) == Terminated([p, q] + ps, t)
  {
    ConcatTerminated(ls, ps, t);
    TerminatedTwo(p, q, ps, t);
  }

  /** Separator-terminated layout of eight pieces, written out. */
  lemma TerminatedEight(ps: seq<string>, t: char)
    requires |ps| == 8
    ensures Terminated(ps, t) == ps[0] + [t] + ps[1] + [t] + ps[2] + [t] + ps[3] + [t]
                                + ps[4] + [t] + ps[5] + [t] + ps[6] + [t] + ps[7] + [t]
  {
    assert Terminated(ps[7..], t) == ps[7] + [t] by {
      assert Terminated(ps[8..], t) == [];
    }
    assert Terminated(ps[6..], t) == ps[6] + [t] + Terminated(ps[7..], t);
    assert Terminated(ps[5..], t) == ps[5] + [t] + Terminated(ps[6..], t);
    assert Terminated(ps[4..], t) == ps[4] + [t] + Terminated(ps[5..], t);
    assert Terminated(ps[3..], t) == ps[3] + [t] + Terminated(ps[4..], t);
    assert Terminated(ps[2..], t) == ps[2] + [t] + Terminated(ps[3..], t);
    assert Terminated(ps[1..], t) == ps[1] + [t] + Terminated(ps[2..], t);
  }

  function Digit(d: nat): (c: char)
    requires d < 10
    ensures '0' <= c <= '9'
  {
    "0123456789"[d]
  }

  function Digits(n: nat): (r: string)
    ensures r != [] && forall i :: 0 <= i < |r| ==> '0' <= r[i] <= '9'
  {
    if n < 10 then [Digit(n)] else Digits(n / 10) + [Digit(n % 10)]
  }

  /** The value of a string of decimal digits. */
  function DigitsValue(s: string): int
    requires forall i :: 0 <= i < |s| ==> '0' <= s[i] <= '9'
  {
    if s == [] then 0 else 10 * DigitsValue(s[..|s| - 1]) + (s[|s| - 1] as int - '0' as int)
  }

  lemma {:induction false} DigitsRoundTrip(n: nat)
    ensures DigitsValue(Digits(n)) == n
  {
    if n >= 10 {
      DigitsRoundTrip(n / 10);
      var s := Digits(n);
      assert s[..|s| - 1] == Digits(n / 10);
    }
  }

  /**
   * JavaScript's text for an integer number (`"" + n`): its decimal digits,
   * after a minus sign when negative. From 10^21 in magnitude on, JavaScript
   * writes an exponent instead, which this function does not model.
   */
  function IntToText(n: int): (r: string)
    ensures r != [] && '\t' !in r && '\n' !in r
    ensures n < 0 <==> r[0] == '-'
  {
    if n < 0 then "-" + Digits(-n) else Digits(n)
  }
}
