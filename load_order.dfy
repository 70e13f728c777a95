/** The load order of update(): every registered mod sorted by the key
    (get_depth(), name). get_depth recurses through the dependency edges
    without memory; a cycle exhausts Python's recursion limit, which the
    model counts down as fuel. */
module LoadOrder {
  import opened Wrappers
  import opened Versions

  /** The edges after the dependency check: mod name to the names of its
      dependencies, in the order add_dependency appended them. */
  type Graph = map<string, seq<string>>

  function Deps(g: Graph, n: string): seq<string>
  {
    if n in g then g[n] else []
  }

  function Max(a: nat, b: nat): nat
  {
    if a < b then b else a
  }

  /** get_depth of mod n with fuel nested calls left; None is the
      RecursionError. */
  function Depth(g: Graph, n: string, fuel: nat): (r: Option<nat>)
    ensures r.Some? ==> 1 <= r.value
    ensures r.Some? ==> (r.value == 1 <==> Deps(g, n) == [])
    decreases fuel, 0
  {
    if fuel == 0 then None else DepthFrom(g, Deps(g, n), 1, fuel - 1)
  }

  /** The loop of get_depth from a running depth over the dependencies left. */
  function DepthFrom(g: Graph, ds: seq<string>, depth: nat, fuel: nat): (r: Option<nat>)
    ensures r.Some? ==> depth <= r.value
    ensures r.Some? ==> (r.value == depth <==> ds == [])
    decreases fuel, 1, |ds|
  {
    if ds == [] then Some(depth)
    else
      match Depth(g, ds[0], fuel)
      case None => None
      case Some(d) => DepthFrom(g, ds[1..], Max(depth, depth + d), fuel)
  }

  /** Mod.get_depth. */
  method GetDepth(g: Graph, n: string, fuel: nat) returns (r: Option<nat>)
    ensures r == Depth(g, n, fuel)
    decreases fuel
  {
    if fuel == 0 {
      return None;
    }
    var ds := Deps(g, n);
    var depth: nat := 1;
    var i := 0;
    while i < |ds|
      invariant 0 <= i <= |ds|
      invariant Depth(g, n, fuel) == DepthFrom(g, ds[i..], depth, fuel - 1)
    {
      assert ds[i..][1..] == ds[i + 1..];
      var d := GetDepth(g, ds[i], fuel - 1);
      if d.None? {
        return None;
      }
      depth := Max(depth, depth + d.value);
      i := i + 1;
    }
    return Some(depth);
  }

  // ---------------------------------------------------------------------------
  // What the depth is

  /** The sum of the depths of ds, or None when one of them raises. */
  function SumDepths(g: Graph, ds: seq<string>, fuel: nat): Option<nat>
    decreases |ds|
  {
    if ds == [] then Some(0)
    else
      match (Depth(g, ds[0], fuel), SumDepths(g, ds[1..], fuel))
      case (Some(d), Some(s)) => Some(d + s)
      case _ => None
  }

  lemma {:induction false} DepthFromIsSum(g: Graph, ds: seq<string>, depth: nat, fuel: nat)
    ensures DepthFrom(g, ds, depth, fuel) ==
      match SumDepths(g, ds, fuel) case None => None case Some(s) => Some(depth + s)
    decreases |ds|
  {
    if ds != [] {
      DepthFromIsSum(g, ds[1..], depth + (if Depth(g, ds[0], fuel).Some? then Depth(g, ds[0], fuel).value else 0), fuel);
    }
  }

  /** Since max(depth, depth + d) is always depth + d, a mod's depth is one
      plus the sum of its dependencies' depths, one count per edge. */
  lemma DepthIsOnePlusSum(g: Graph, n: string, fuel: nat)
    requires fuel > 0
    ensures Depth(g, n, fuel) ==
      match SumDepths(g, Deps(g, n), fuel - 1) case None => None case Some(s) => Some(1 + s)
  {
    DepthFromIsSum(g, Deps(g, n), 1, fuel - 1);
  }

  /** More room on the stack never changes a depth that was computed. */
  lemma {:induction false} DepthFuelMonotone(g: Graph, n: string, fuel: nat, more: nat)
    requires fuel <= more && Depth(g, n, fuel).Some?
    ensures Depth(g, n, more) == Depth(g, n, fuel)
    decreases fuel, 0
  {
    DepthIsOnePlusSum(g, n, fuel);
    DepthIsOnePlusSum(g, n, more);
    SumFuelMonotone(g, Deps(g, n), fuel - 1, more - 1);
  }

  lemma {:induction false} SumFuelMonotone(g: Graph, ds: seq<string>, fuel: nat, more: nat)
    requires fuel <= more && SumDepths(g, ds, fuel).Some?
    ensures SumDepths(g, ds, more) == SumDepths(g, ds, fuel)
    decreases fuel, 1, |ds|
  {
    if ds != [] {
      DepthFuelMonotone(g, ds[0], fuel, more);
      SumFuelMonotone(g, ds[1..], fuel, more);
    }
  }

  lemma {:induction false} SumCoversEach(g: Graph, ds: seq<string>, m: string, fuel: nat)
    requires m in ds && SumDepths(g, ds, fuel).Some?
    ensures Depth(g, m, fuel).Some? && Depth(g, m, fuel).value <= SumDepths(g, ds, fuel).value
    decreases |ds|
  {
    if ds[0] != m {
      SumCoversEach(g, ds[1..], m, fuel);
    }
  }

  /** A mod is strictly deeper than each of its dependencies. */
  lemma DependencyShallower(g: Graph, n: string, m: string, fuel: nat)
    requires Depth(g, n, fuel).Some? && m in Deps(g, n)
    ensures Depth(g, m, fuel).Some? && Depth(g, m, fuel).value < Depth(g, n, fuel).value
  {
    DepthIsOnePlusSum(g, n, fuel);
    SumCoversEach(g, Deps(g, n), m, fuel - 1);
    DepthFuelMonotone(g, m, fuel - 1, fuel);
  }

  /** Along a dependency path the depth falls by at least one per edge. */
  lemma {:induction false} PathShallower(g: Graph, path: seq<string>, fuel: nat)
    requires |path| >= 1 && Depth(g, path[0], fuel).Some?
    requires forall i :: 0 <= i < |path| - 1 ==> path[i + 1] in Deps(g, path[i])
    ensures Depth(g, path[|path| - 1], fuel).Some?
    ensures Depth(g, path[|path| - 1], fuel).value + |path| - 1 <= Depth(g, path[0], fuel).value
    decreases |path|
  {
    if |path| > 1 {
      PathShallower(g, path[..|path| - 1], fuel);
      DependencyShallower(g, path[|path| - 2], path[|path| - 1], fuel);
    }
  }

  /** A mod on a dependency cycle has no depth: get_depth raises
      RecursionError however deep the stack. */
  lemma CycleRaises(g: Graph, cycle: seq<string>, fuel: nat)
    requires |cycle| >= 1
    requires forall i :: 0 <= i < |cycle| - 1 ==> cycle[i + 1] in Deps(g, cycle[i])
    requires cycle[0] in Deps(g, cycle[|cycle| - 1])
    ensures Depth(g, cycle[0], fuel).None?
  {
    if Depth(g, cycle[0], fuel).Some? {
      PathShallower(g, cycle, fuel);
      DependencyShallower(g, cycle[|cycle| - 1], cycle[0], fuel);
    }
  }

  // ---------------------------------------------------------------------------
  // The sort

  /** The sort key (get_depth(), name). */
  datatype Key = Key(depth: nat, name: string)

  /** The code points of a string: Python orders strings by them. */
  function Codes(s: string): (c: seq<nat>)
    ensures |c| == |s| && forall i :: 0 <= i < |s| ==> c[i] == s[i] as nat
  {
    if s == [] then [] else [s[0] as nat] + Codes(s[1..])
  }

  lemma CodesInjective(a: string, b: string)
    requires Codes(a) == Codes(b)
    ensures a == b
  {
    assert forall i :: 0 <= i < |a| ==> a[i] as nat == b[i] as nat;
  }

  /** Python's a < b on strings. */
  predicate StrLess(a: string, b: string)
  {
    TupleLess(Codes(a), Codes(b))
  }

  /** Python's tuple order on keys, or equality. */
  predicate KeyLe(a: Key, b: Key)
  {
    a.depth < b.depth || (a.depth == b.depth && (StrLess(a.name, b.name) || a.name == b.name))
  }

  lemma KeyLeTotal(a: Key, b: Key)
    ensures KeyLe(a, b) || KeyLe(b, a)
  {
    TupleLessTrichotomy(Codes(a.name), Codes(b.name));
    if Codes(a.name) == Codes(b.name) {
      CodesInjective(a.name, b.name);
    }
  }

  lemma KeyLeTransitive(a: Key, b: Key, c: Key)
    requires KeyLe(a, b) && KeyLe(b, c)
    ensures KeyLe(a, c)
  {
    if a.depth == b.depth == c.depth && StrLess(a.name, b.name) && StrLess(b.name, c.name) {
      TupleLessTransitive(Codes(a.name), Codes(b.name), Codes(c.name));
    }
  }

  /** Every mod has a depth, stored by name; None when one get_depth raises. */
  function Depths(g: Graph, names: seq<string>, limit: nat): (r: Option<map<string, nat>>)
    ensures r.None? <==> exists n :: n in names && Depth(g, n, limit).None?
    ensures r.Some? ==> forall n :: n in names ==> n in r.value && Some(r.value[n]) == Depth(g, n, limit)
  {
    if forall n :: n in names ==> Depth(g, n, limit).Some? then
      Some(map n | n in names :: Depth(g, n, limit).value)
    else None
  }

  function KeyOf(depths: map<string, nat>, n: string): Key
  {
    Key(if n in depths then depths[n] else 0, n)
  }

  ghost predicate Sorted(depths: map<string, nat>, ns: seq<string>)
  {
    forall i, j :: 0 <= i < j < |ns| ==> KeyLe(KeyOf(depths, ns[i]), KeyOf(depths, ns[j]))
  }

  function InsertName(depths: map<string, nat>, n: string, ns: seq<string>): (r: seq<string>)
    requires Sorted(depths, ns)
    ensures Sorted(depths, r) && multiset(r) == multiset(ns) + multiset{n}
  {
    if ns == [] then [n]
    else if KeyLe(KeyOf(depths, n), KeyOf(depths, ns[0])) then
      var r := [n] + ns;
      assert Sorted(depths, r) by {
        forall i, j | 0 <= i < j < |r| ensures KeyLe(KeyOf(depths, r[i]), KeyOf(depths, r[j])) {
          if i == 0 && j > 1 {
            KeyLeTransitive(KeyOf(depths, n), KeyOf(depths, ns[0]), KeyOf(depths, ns[j - 1]));
          }
        }
      }
      r
    else
      var tail := InsertName(depths, n, ns[1..]);
      var r := [ns[0]] + tail;
      assert ns == [ns[0]] + ns[1..];
      assert Sorted(depths, r) by {
        KeyLeTotal(KeyOf(depths, n), KeyOf(depths, ns[0]));
        forall j | 0 <= j < |tail| ensures KeyLe(KeyOf(depths, ns[0]), KeyOf(depths, tail[j])) {
          assert tail[j] in multiset(tail);
          if tail[j] != n {
            assert tail[j] in ns[1..];
          }
        }
      }
      r
  }

  /** sorted() on the names, by key: sorted, and a permutation. */
  function SortNames(depths: map<string, nat>, ns: seq<string>): (r: seq<string>)
    ensures Sorted(depths, r) && multiset(r) == multiset(ns)
  {
    if ns == [] then []
    else
      assert ns == [ns[0]] + ns[1..];
      InsertName(depths, ns[0], SortNames(depths, ns[1..]))
  }

  /** load_order: names is the registry's order; limit is the stack room
      each get_depth call starts with. */
  function Order(g: Graph, names: seq<string>, limit: nat): (r: Option<seq<string>>)
    ensures r.Some? ==> multiset(r.value) == multiset(names)
  {
    match Depths(g, names, limit)
    case None => None
    case Some(depths) => Some(SortNames(depths, names))
  }

  /** The load order raises exactly when some mod has no depth; otherwise it
      is a permutation of the registry sorted by (depth, name). */
  lemma OrderMeaning(g: Graph, names: seq<string>, limit: nat)
    ensures Order(g, names, limit).None? <==> exists n :: n in names && Depth(g, n, limit).None?
    ensures Order(g, names, limit).Some? ==>
      var order := Order(g, names, limit).value;
      multiset(order) == multiset(names) &&
      forall i, j :: 0 <= i < j < |order| ==>
        Depth(g, order[i], limit).Some? && Depth(g, order[j], limit).Some? &&
        KeyLe(Key(Depth(g, order[i], limit).value, order[i]), Key(Depth(g, order[j], limit).value, order[j]))
  {
    if Order(g, names, limit).Some? {
      var depths := Depths(g, names, limit).value;
      var order := SortNames(depths, names);
      forall i, j | 0 <= i < j < |order|
        ensures Depth(g, order[i], limit).Some? && Depth(g, order[j], limit).Some? &&
          KeyLe(Key(Depth(g, order[i], limit).value, order[i]), Key(Depth(g, order[j], limit).value, order[j]))
      {
        assert order[i] in multiset(order) && order[j] in multiset(order);
        assert order[i] in names && order[j] in names;
        assert KeyOf(depths, order[i]) == Key(Depth(g, order[i], limit).value, order[i]);
        assert KeyOf(depths, order[j]) == Key(Depth(g, order[j], limit).value, order[j]);
      }
    }
  }

  /** Every mod comes after all of its dependencies. */
  lemma DependenciesFirst(g: Graph, names: seq<string>, limit: nat, i: nat, j: nat)
    requires Order(g, names, limit).Some?
    requires i < |Order(g, names, limit).value| && j < |Order(g, names, limit).value|
    requires Order(g, names, limit).value[j] in Deps(g, Order(g, names, limit).value[i])
    ensures j < i
  {
    var order := Order(g, names, limit).value;
    OrderDepth(g, names, limit, i);
    DependencyShallower(g, order[i], order[j], limit);
    if i == j {
      assert false;
    } else if i < j {
      OrderedPair(g, names, limit, i, j);
      assert false;
    }
  }

  /** Every mod in the load order has a depth. */
  lemma OrderDepth(g: Graph, names: seq<string>, limit: nat, i: nat)
    requires Order(g, names, limit).Some? && i < |Order(g, names, limit).value|
    ensures Depth(g, Order(g, names, limit).value[i], limit).Some?
  {
    var order := Order(g, names, limit).value;
    OrderMeaning(g, names, limit);
    assert order[i] in multiset(names);
  }

  /** An earlier mod in the load order is no deeper than a later one. */
  lemma OrderedPair(g: Graph, names: seq<string>, limit: nat, i: nat, j: nat)
    requires Order(g, names, limit).Some? && i < j < |Order(g, names, limit).value|
    ensures var order := Order(g, names, limit).value;
      Depth(g, order[i], limit).Some? && Depth(g, order[j], limit).Some? &&
      Depth(g, order[i], limit).value <= Depth(g, order[j], limit).value
  {
    OrderMeaning(g, names, limit);
  }
}
