/** Reduced disjunctive normal form: conversion, distribution and negation.
    A type's normal form is a list of conjunctions of signed atoms. */
module Rdnf {
  import opened Types

  datatype Signed = Pos(atom: Ty) | NegAtom(atom: Ty) {
    function Negate(): Signed {
      match this
      case Pos(a) => NegAtom(a)
      case NegAtom(a) => Pos(a)
    }
  }

  type Conjunction = seq<Signed>
  type Rdnf = seq<Conjunction>

  const TopRdnf: Rdnf := [[]]
  const NeverRdnf: Rdnf := []

  // ---------- specification of the normal form ----------

  function RowTimes(l: Conjunction, right: Rdnf): (r: Rdnf)
    ensures |r| == |right|
    ensures forall i :: 0 <= i < |r| ==> r[i] == l + right[i]
  {
    if right == [] then [] else [l + right[0]] + RowTimes(l, right[1..])
  }

  function Product(left: Rdnf, right: Rdnf): Rdnf {
    if left == [] then []
    else var k := |left| - 1; Product(left[..k], right) + RowTimes(left[k], right)
  }

  /** Distribution with the size guard: over the cap the result is Top. */
  function Distribute(left: Rdnf, right: Rdnf, cap: nat): Rdnf {
    if left == [] || right == [] then NeverRdnf
    else if |left| * |right| > cap then TopRdnf
    else Product(left, right)
  }

  function NegateAtoms(c: Conjunction): (r: Rdnf)
    ensures |r| == |c|
    ensures forall i :: 0 <= i < |c| ==> r[i] == [c[i].Negate()]
  {
    if c == [] then [] else [[c[0].Negate()]] + NegateAtoms(c[1..])
  }

  /** The negation loop, started from `acc`. */
  function NegateFrom(acc: Rdnf, rdnf: Rdnf, cap: nat): Rdnf
    decreases |rdnf|
  {
    if rdnf == [] then acc
    else if rdnf[0] == [] then NeverRdnf
    else NegateFrom(Distribute(acc, NegateAtoms(rdnf[0]), cap), rdnf[1..], cap)
  }

  function Negate(rdnf: Rdnf, cap: nat): Rdnf {
    NegateFrom(TopRdnf, rdnf, cap)
  }

  function ToRdnf(t: Ty, cap: nat): Rdnf
    decreases t, 1
  {
    match t
    case Top => TopRdnf
    case Never => NeverRdnf
    case Unknown => TopRdnf
    case Error => NeverRdnf
    case Union(members) => UnionRdnf(members, cap)
    case Inter(members) =>
      if members == [] then TopRdnf
      else InterFrom(ToRdnf(members[0], cap), members[1..], cap)
    case Neg(of) => Negate(ToRdnf(of, cap), cap)
    case _ => [[Pos(t)]]
  }

  function UnionRdnf(members: seq<Ty>, cap: nat): Rdnf
    decreases members, 0
  {
    if members == [] then [] else ToRdnf(members[0], cap) + UnionRdnf(members[1..], cap)
  }

  function InterFrom(acc: Rdnf, members: seq<Ty>, cap: nat): Rdnf
    decreases members, 0
  {
    if members == [] then acc
    else InterFrom(Distribute(acc, ToRdnf(members[0], cap), cap), members[1..], cap)
  }

  // ---------- the loops that build it ----------

  method DistributeLoop(left: Rdnf, right: Rdnf, cap: nat) returns (result: Rdnf)
    ensures result == Distribute(left, right, cap)
  {
    if left == [] || right == [] {
      return [];
    }
    var productSize := |left| * |right|;
    if productSize > cap {
      return [[]];
    }
    result := ProductLoop(left, right);
  }

  method ProductLoop(left: Rdnf, right: Rdnf) returns (result: Rdnf)
    ensures result == Product(left, right)
  {
    result := [];
    for i := 0 to |left|
      invariant result == Product(left[..i], right)
    {
      ghost var before, row := result, RowTimes(left[i], right);
      for j := 0 to |right|
        invariant result == before + row[..j]
      {
        var conjunction := left[i] + right[j];
        assert conjunction == row[j];
        result := result + [conjunction];
        assert row[..j + 1] == row[..j] + [row[j]];
      }
      assert left[..i + 1][..i] == left[..i];
      assert row[..|right|] == row;
    }
    assert left[..|left|] == left;
  }

  method NegateLoop(rdnf: Rdnf, cap: nat) returns (result: Rdnf)
    ensures result == Negate(rdnf, cap)
  {
    if rdnf == [] {
      return [[]];
    }
    result := [[]];
    for i := 0 to |rdnf|
      invariant NegateFrom(result, rdnf[i..], cap) == Negate(rdnf, cap)
    {
      var conjunction := rdnf[i];
      if conjunction == [] {
        return [];
      }
      var negated: Rdnf := [];
      for j := 0 to |conjunction|
        invariant |negated| == j
        invariant forall k :: 0 <= k < j ==> negated[k] == [conjunction[k].Negate()]
      {
        negated := negated + [[conjunction[j].Negate()]];
      }
      assert negated == NegateAtoms(conjunction);
      result := DistributeLoop(result, negated, cap);
      assert rdnf[i..][1..] == rdnf[i + 1..];
    }
    assert rdnf[|rdnf|..] == [];
  }

  method ToRdnfLoop(t: Ty, cap: nat) returns (result: Rdnf)
    ensures result == ToRdnf(t, cap)
    decreases t
  {
    match t
    case Top => result := [[]];
    case Never => result := [];
    case Unknown => result := [[]];
    case Error => result := [];
    case Union(members) =>
      result := [];
      for i := 0 to |members|
        invariant result + UnionRdnf(members[i..], cap) == UnionRdnf(members, cap)
      {
        var part := ToRdnfLoop(members[i], cap);
        result := result + part;
        assert members[i..][1..] == members[i + 1..];
      }
      assert members[|members|..] == [];
    case Inter(members) =>
      if members == [] {
        return [[]];
      }
      result := ToRdnfLoop(members[0], cap);
      for i := 1 to |members|
        invariant InterFrom(result, members[i..], cap) == ToRdnf(t, cap)
      {
        var right := ToRdnfLoop(members[i], cap);
        result := DistributeLoop(result, right, cap);
        assert members[i..][1..] == members[i + 1..];
      }
      assert members[|members|..] == [];
    case Neg(of) =>
      var inner := ToRdnfLoop(of, cap);
      result := NegateLoop(inner, cap);
    case _ => result := [[Pos(t)]];
  }
}
