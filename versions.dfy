/** Version tuples and the way update_module.py compares them: it builds the
    text "<actual><op><required>" from two Python tuples and evaluates it, so
    the comparison is Python's tuple order — lexicographic, a proper prefix
    below every extension of it, and no padding with zeros. */
module Versions {

  /** What version_string_2_tuple returns: a tuple of non-negative integers. */
  type Version = seq<nat>

  /** Python's a < b on tuples of integers. */
  predicate TupleLess(a: Version, b: Version)
    ensures TupleLess(a, b) ==> b != []
    ensures |a| < |b| && a == b[..|a|] ==> TupleLess(a, b)
  {
    if a == [] then b != []
    else if b == [] then false
    else if a[0] != b[0] then a[0] < b[0]
    else TupleLess(a[1..], b[1..])
  }

  /** The five operators the dependency check accepts. */
  predicate IsOperator(op: string)
  {
    op == "==" || op == ">=" || op == "<=" || op == ">" || op == "<"
  }

  /** eval(str(actual) + op + str(required)) for an accepted operator. */
  predicate Satisfies(actual: Version, op: string, required: Version)
    requires IsOperator(op)
    ensures actual == required ==> (Satisfies(actual, op, required) <==> op == "==" || op == "<=" || op == ">=")
  {
    TupleLessIrreflexive(actual);
    match op
    case "==" => actual == required
    case "<" => TupleLess(actual, required)
    case ">" => TupleLess(required, actual)
    case "<=" => TupleLess(actual, required) || actual == required
    case _ => TupleLess(required, actual) || actual == required
  }

  /** The first position where a and b differ, or the length of the shorter. */
  function CommonPrefix(a: Version, b: Version): (k: nat)
    ensures k <= |a| && k <= |b|
    ensures a[..k] == b[..k]
    ensures k < |a| && k < |b| ==> a[k] != b[k]
  {
    if a == [] || b == [] || a[0] != b[0] then 0
    else
      var k := 1 + CommonPrefix(a[1..], b[1..]);
      assert a[..k] == [a[0]] + a[1..][..k - 1];
      assert b[..k] == [b[0]] + b[1..][..k - 1];
      k
  }

  /** The order as a closed formula: a < b exactly when b extends a properly,
      or at the first difference a holds the smaller number. */
  lemma {:induction false} TupleLessMeaning(a: Version, b: Version)
    ensures TupleLess(a, b) <==>
      var k := CommonPrefix(a, b);
      (k == |a| && k < |b|) || (k < |a| && k < |b| && a[k] < b[k])
  {
    if a != [] && b != [] && a[0] == b[0] {
      TupleLessMeaning(a[1..], b[1..]);
    }
  }

  /** No version is below itself. */
  lemma {:induction false} TupleLessIrreflexive(a: Version)
    ensures !TupleLess(a, a)
  {
    if a != [] {
      TupleLessIrreflexive(a[1..]);
    }
  }

  lemma {:induction false} TupleLessTransitive(a: Version, b: Version, c: Version)
    requires TupleLess(a, b) && TupleLess(b, c)
    ensures TupleLess(a, c)
  {
    if a != [] && a[0] == b[0] && b[0] == c[0] {
      TupleLessTransitive(a[1..], b[1..], c[1..]);
    }
  }

  /** Any two versions compare one way: below, equal or above, and only one. */
  lemma {:induction false} TupleLessTrichotomy(a: Version, b: Version)
    ensures TupleLess(a, b) || a == b || TupleLess(b, a)
    ensures !(TupleLess(a, b) && TupleLess(b, a))
  {
    if a != [] && b != [] && a[0] == b[0] {
      TupleLessTrichotomy(a[1..], b[1..]);
      if a[1..] == b[1..] {
        assert a == [a[0]] + a[1..] && b == [b[0]] + b[1..];
      }
    }
  }

  /** No zero padding: a version is below every proper extension of it, so
      (1, 0) < (1, 0, 0) and a "== 1.0" requirement rejects version 1.0.0. */
  lemma {:induction false} PrefixIsBelow(a: Version, tail: Version)
    requires tail != []
    ensures TupleLess(a, a + tail)
    ensures !Satisfies(a + tail, "==", a) && !Satisfies(a + tail, "<=", a)
  {
    if a != [] {
      assert (a + tail)[1..] == a[1..] + tail;
      PrefixIsBelow(a[1..], tail);
    }
    TupleLessTrichotomy(a, a + tail);
  }

  /** The operators mean what their names say: "<=" is "<" or "==", ">" is
      "<" reversed, and exactly one of "<", "==" and ">" holds. */
  lemma OperatorsAgree(actual: Version, required: Version)
    ensures Satisfies(actual, "<=", required) <==> !Satisfies(actual, ">", required)
    ensures Satisfies(actual, ">=", required) <==> !Satisfies(actual, "<", required)
    ensures Satisfies(actual, "==", required) <==> Satisfies(actual, "<=", required) && Satisfies(actual, ">=", required)
  {
    TupleLessTrichotomy(actual, required);
  }
}
