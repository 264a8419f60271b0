/**
 * Integer lattice vectors (Unity's Vector3Int), the real triples the
 * conversions work on, and the integer helpers shared by the grid code.
 */
module Vectors {

  /** An integer triple; the hex grid uses cube coordinates, the square grid the x/z plane. */
  datatype Vec = Vec(x: int, y: int, z: int)
  {
    function Plus(o: Vec): Vec { Vec(x + o.x, y + o.y, z + o.z) }
    function Minus(o: Vec): Vec { Vec(x - o.x, y - o.y, z - o.z) }
    function Neg(): Vec { Vec(-x, -y, -z) }
    /** Vector3Int * int */
    function Times(k: int): Vec { Vec(x * k, y * k, z * k) }
    /** Vector3Int.sqrMagnitude */
    function SqrMagnitude(): int { x * x + y * y + z * z }
  }

  const Zero: Vec := Vec(0, 0, 0)

  lemma {:induction false} NegByComponents(a: Vec, b: Vec)
    requires a.x == -b.x && a.y == -b.y && a.z == -b.z
    ensures a == b.Neg() && b == a.Neg()
  {
  }

  /** A Vector3 of the world-space code; rounding of single-precision floats is not modelled. */
  datatype RealVec = RealVec(x: real, y: real, z: real)

  /** float.MaxValue, the "not yet reached" depth and the distance to a missing tile. */
  const MaxFloat: real := 340282346638528859811704183484516925440.0

  function Abs(a: int): int { if a < 0 then -a else a }

  function RealAbs(r: real): real { if r < 0.0 then -r else r }

  function Max(a: int, b: int): int { if a < b then b else a }

  function Min(a: int, b: int): int { if a < b then a else b }

  /** Mathf.FloorToInt */
  function FloorToInt(r: real): int { r.Floor }

  /** Mathf.CeilToInt */
  function CeilToInt(r: real): (c: int)
    ensures r <= c as real < r + 1.0
  {
    -((-r).Floor)
  }

  /** C# integer division, which truncates toward zero (Dafny's `/` is Euclidean). */
  function CsDiv(a: int, b: int): (q: int)
    requires b != 0
    ensures a >= 0 && b > 0 ==> q == a / b
  {
    var q := Abs(a) / Abs(b);
    if (a < 0) != (b < 0) then -q else q
  }

  /** C# `%`, whose result takes the sign of the dividend. */
  function CsRem(a: int, b: int): (r: int)
    requires b != 0
    ensures a >= 0 && b > 0 ==> r == a % b
    ensures -Abs(b) < r < Abs(b)
    ensures a >= 0 ==> r >= 0
  {
    var r := Abs(a) % Abs(b);
    if a < 0 then -r else r
  }

  /** Array.IndexOf / List.IndexOf: the first index holding `v`, or -1. */
  function IndexOf<T(==)>(s: seq<T>, v: T): (i: int)
    ensures -1 <= i < |s|
    ensures i >= 0 <==> v in s
    ensures i >= 0 ==> s[i] == v && forall j :: 0 <= j < i ==> s[j] != v
  {
    if |s| == 0 then -1
    else if s[0] == v then 0
    else
      var k := IndexOf(s[1..], v);
      if k < 0 then -1 else k + 1
  }

  /** No value occurs twice. */
  predicate Distinct<T(==)>(s: seq<T>)
  {
    forall i, j :: 0 <= i < j < |s| ==> s[i] != s[j]
  }

  /** The set of values of a list. */
  function Elems<T>(s: seq<T>): set<T>
  {
    set x | x in s
  }

  /** A sequence with no repeated element is as long as the set of its elements. */
  lemma {:induction false} DistinctCard<T>(s: seq<T>)
    requires Distinct(s)
    ensures |Elems(s)| == |s|
  {
    if |s| > 0 {
      var init := s[..|s| - 1];
      assert Distinct(init);
      DistinctCard(init);
      assert Elems(s) == Elems(init) + {s[|s| - 1]};
      assert s[|s| - 1] !in Elems(init);
    }
  }

  /** Every cell of `s` moved by `offset`. */
  function Shift(offset: Vec, s: seq<Vec>): (r: seq<Vec>)
    ensures |r| == |s| && forall i :: 0 <= i < |s| ==> r[i] == s[i].Plus(offset)
  {
    seq(|s|, i requires 0 <= i < |s| => s[i].Plus(offset))
  }

  /** The shifted list holds exactly the cells whose offset is listed, and repeats none if `s` repeats none. */
  lemma {:induction false} ShiftMembers(offset: Vec, s: seq<Vec>)
    ensures forall v :: v in Shift(offset, s) <==> v.Minus(offset) in s
    ensures Distinct(s) ==> Distinct(Shift(offset, s))
  {
    var r := Shift(offset, s);
    forall v
      ensures v in r <==> v.Minus(offset) in s
    {
      if v in r {
        var i :| 0 <= i < |r| && r[i] == v;
        assert s[i] == v.Minus(offset);
      }
      if v.Minus(offset) in s {
        var i :| 0 <= i < |s| && s[i] == v.Minus(offset);
        assert r[i] == v;
      }
    }
    if Distinct(s) {
      forall i, j | 0 <= i < j < |r|
        ensures r[i] != r[j]
      {
        assert s[i] != s[j];
        assert s[i] == r[i].Minus(offset) && s[j] == r[j].Minus(offset);
      }
    }
  }

  /** The laws the pathfinder relies on for a map's distance delegate. */
  ghost predicate MetricLaws(d: (Vec, Vec) -> real)
  {
    forall a, b :: d(a, b) >= 0.0 && d(a, b) == d(b, a) && (d(a, b) == 0.0 <==> a == b)
  }
}
