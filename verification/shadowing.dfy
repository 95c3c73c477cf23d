/**
 * The clause walk that FLWOR and quantified expressions share in `removable`
 * and `remove`: clauses are visited in order, and the first clause that binds
 * the variable again (shadows it) ends the walk, because nothing after it can
 * refer to the outer variable.
 */
module Shadowing {
  import opened Values
  import opened Exprs

  /**
   * The decision of the clause walk in `removable`: Some(false) at the first
   * clause that is not removable, Some(true) at the first clause that shadows
   * the variable, None when the walk falls through to the remaining parts.
   */
  function ScanClauses(fl: seq<ForLet>, v: Var, an: Analysis): Option<bool> {
    if fl == [] then None
    else if !an.clauseRemovable(fl[0], v) then Some(false)
    else if an.shadows(fl[0], v) then Some(true)
    else ScanClauses(fl[1..], v, an)
  }

  /** The clause loop of `removable`, with its early exits. */
  method ScanRemovable(fl: seq<ForLet>, v: Var, an: Analysis) returns (d: Option<bool>)
    ensures d == ScanClauses(fl, v, an)
  {
    var i := 0;
    while i < |fl|
      invariant 0 <= i <= |fl|
      invariant ScanClauses(fl, v, an) == ScanClauses(fl[i..], v, an)
    {
      assert fl[i..][1..] == fl[i + 1..];
      if !an.clauseRemovable(fl[i], v) {
        return Some(false);
      }
      if an.shadows(fl[i], v) {
        return Some(true);
      }
      i := i + 1;
    }
    return None;
  }

  /** Clause k shadows the variable, no clause before it does, and every clause up to it is removable. */
  ghost predicate ShadowedAt(fl: seq<ForLet>, v: Var, an: Analysis, k: int) {
    0 <= k < |fl| && an.shadows(fl[k], v) &&
    (forall j :: 0 <= j <= k ==> an.clauseRemovable(fl[j], v)) &&
    (forall j :: 0 <= j < k ==> !an.shadows(fl[j], v))
  }

  /** The walk says true exactly when some clause shadows the variable and every clause up to it is removable. */
  lemma {:induction false} ScanTrueIff(fl: seq<ForLet>, v: Var, an: Analysis)
    ensures ScanClauses(fl, v, an) == Some(true) <==> exists k :: ShadowedAt(fl, v, an, k)
  {
    if fl != [] {
      ScanTrueIff(fl[1..], v, an);
      assert forall j :: 1 <= j < |fl| ==> fl[j] == fl[1..][j - 1];
      if ScanClauses(fl, v, an) == Some(true) {
        if an.shadows(fl[0], v) {
          assert ShadowedAt(fl, v, an, 0);
        } else {
          var k :| ShadowedAt(fl[1..], v, an, k);
          assert ShadowedAt(fl, v, an, k + 1);
        }
      } else {
        forall k | ShadowedAt(fl, v, an, k) ensures false {
          assert k > 0;
          assert ShadowedAt(fl[1..], v, an, k - 1);
        }
      }
    }
  }

  /** The walk falls through exactly when every clause is removable and none shadows the variable. */
  lemma {:induction false} ScanNoneIff(fl: seq<ForLet>, v: Var, an: Analysis)
    ensures ScanClauses(fl, v, an) == None <==>
      forall j :: 0 <= j < |fl| ==> an.clauseRemovable(fl[j], v) && !an.shadows(fl[j], v)
  {
    if fl != [] {
      ScanNoneIff(fl[1..], v, an);
      assert forall j :: 1 <= j < |fl| ==> fl[j] == fl[1..][j - 1];
    }
  }

  /** Index of the first clause that shadows the variable once `remove` has been applied to it; |fl| if none. */
  function FirstShadow(fl: seq<ForLet>, v: Var, an: Analysis): (k: nat)
    ensures k <= |fl|
    ensures forall j :: 0 <= j < k ==> !an.shadows(an.clauseRemove(fl[j], v), v)
    ensures k < |fl| ==> an.shadows(an.clauseRemove(fl[k], v), v)
  {
    if fl == [] then 0
    else if an.shadows(an.clauseRemove(fl[0], v), v) then 0
    else 1 + FirstShadow(fl[1..], v, an)
  }

  /** The clauses after `remove`: rewritten up to and including the first shadowing one, untouched after it. */
  function RemovedClauses(fl: seq<ForLet>, v: Var, an: Analysis): (r: seq<ForLet>)
    ensures |r| == |fl|
  {
    var k := FirstShadow(fl, v, an);
    seq(|fl|, i requires 0 <= i < |fl| => if i <= k then an.clauseRemove(fl[i], v) else fl[i])
  }

  /** The clause loop of `remove`: rewrites each clause and stops after the first that shadows the variable. */
  method RemoveInClauses(fl: seq<ForLet>, v: Var, an: Analysis) returns (res: seq<ForLet>, shadowed: bool)
    ensures res == RemovedClauses(fl, v, an)
    ensures shadowed <==> FirstShadow(fl, v, an) < |fl|
  {
    res := fl;
    var i := 0;
    while i < |fl|
      invariant 0 <= i <= |fl| && |res| == |fl|
      invariant forall j :: 0 <= j < i ==> !an.shadows(an.clauseRemove(fl[j], v), v)
      invariant forall j :: 0 <= j < i ==> res[j] == an.clauseRemove(fl[j], v)
      invariant forall j :: i <= j < |fl| ==> res[j] == fl[j]
    {
      var f := an.clauseRemove(fl[i], v);
      res := res[i := f];
      if an.shadows(f, v) {
        FirstShadowAt(fl, v, an, i);
        return res, true;
      }
      i := i + 1;
    }
    FirstShadowAt(fl, v, an, |fl|);
    shadowed := false;
  }

  /** FirstShadow is the first index at which a rewritten clause shadows the variable. */
  lemma {:induction false} FirstShadowAt(fl: seq<ForLet>, v: Var, an: Analysis, k: nat)
    requires k <= |fl|
    requires forall j :: 0 <= j < k ==> !an.shadows(an.clauseRemove(fl[j], v), v)
    requires k < |fl| ==> an.shadows(an.clauseRemove(fl[k], v), v)
    ensures FirstShadow(fl, v, an) == k
  {
    if k > 0 {
      FirstShadowAt(fl[1..], v, an, k - 1);
    }
  }
}
