/** get_order: objects sorted the way Factorio lists them, by group, then
    subgroup, then the object itself, each compared by its order string and
    then its name. An object that is also an item (or a rail placed by a rail
    planner) takes the item's order and subgroup, rewritten onto the object
    in place. The lookup tables are given as maps; convert_table_to_dict is
    not part of this model. */
module ItemOrder {
  import opened Wrappers
  import opened Versions
  import opened LoadOrder

  /** An item prototype as get_order reads it. */
  datatype Prototype = Prototype(name: string, order: Option<string>, subgroup: Option<string>)

  /** A rail planner and the two rails it places. */
  datatype RailPlanner = RailPlanner(proto: Prototype, straightRail: string, curvedRail: string)

  /** An item subgroup and an item group; "group" is required, "order" is
      looked up only when the entry is built. */
  datatype ItemSubgroup = ItemSubgroup(name: string, order: Option<string>, group: string)
  datatype ItemGroup = ItemGroup(name: string, order: Option<string>)

  /** A dictionary lookup: the value, or the KeyError for the missing key. */
  datatype Lookup<T> = Found(value: T) | KeyError(key: string)

  // ---------------------------------------------------------------------------
  // Rail planners stand in for their rails

  /** items after the loop over the rail planners, in order. */
  function Overlay(items: map<string, Prototype>, planners: seq<RailPlanner>): (r: map<string, Prototype>)
    ensures items.Keys <= r.Keys
    ensures forall p :: p in planners ==> p.straightRail in r && p.curvedRail in r
  {
    if planners == [] then items
    else
      var p := planners[|planners| - 1];
      Overlay(items, planners[..|planners| - 1])[p.straightRail := p.proto][p.curvedRail := p.proto]
  }

  method AddRailPlanners(items: map<string, Prototype>, planners: seq<RailPlanner>) returns (r: map<string, Prototype>)
    ensures r == Overlay(items, planners)
  {
    r := items;
    for i := 0 to |planners|
      invariant r == Overlay(items, planners[..i])
    {
      assert planners[..i + 1][..i] == planners[..i];
      r := r[planners[i].straightRail := planners[i].proto];
      r := r[planners[i].curvedRail := planners[i].proto];
    }
    assert planners[..|planners|] == planners;
  }

  predicate Places(p: RailPlanner, rail: string)
  {
    p.straightRail == rail || p.curvedRail == rail
  }

  /** The last planner that places rail, if any. */
  function LastPlacing(planners: seq<RailPlanner>, rail: string): (r: Option<nat>)
    ensures r.Some? ==> (r.value < |planners| && Places(planners[r.value], rail) &&
      forall j :: r.value < j < |planners| ==> !Places(planners[j], rail))
    ensures r.None? ==> forall j :: 0 <= j < |planners| ==> !Places(planners[j], rail)
  {
    if planners == [] then None
    else if Places(planners[|planners| - 1], rail) then Some(|planners| - 1)
    else LastPlacing(planners[..|planners| - 1], rail)
  }

  /** A rail placed by some planner looks up as the last such planner;
      every other name looks up as the item, if there is one. */
  lemma {:induction false} OverlayMeaning(items: map<string, Prototype>, planners: seq<RailPlanner>, name: string)
    ensures name in Overlay(items, planners) <==> name in items || LastPlacing(planners, name).Some?
    ensures LastPlacing(planners, name).Some? ==>
      Overlay(items, planners)[name] == planners[LastPlacing(planners, name).value].proto
    ensures LastPlacing(planners, name).None? && name in items ==> Overlay(items, planners)[name] == items[name]
  {
    if planners != [] {
      OverlayMeaning(items, planners[..|planners| - 1], name);
    }
  }

  // ---------------------------------------------------------------------------
  // One object

  /** An object being sorted: its name, and the fields get_order rewrites. */
  class Obj {
    const name: string
    var order: Option<string>
    var subgroup: Option<string>

    constructor (name: string, order: Option<string>, subgroup: Option<string>)
      ensures this.name == name && this.order == order && this.subgroup == subgroup
    {
      this.name := name;
      this.order := order;
      this.subgroup := subgroup;
    }
  }

  datatype ObjState = ObjState(order: Option<string>, subgroup: Option<string>)

  function State(o: Obj): ObjState
    reads o
  {
    ObjState(o.order, o.subgroup)
  }

  /** The rewrite of an object that is an item: the item's order, then its
      subgroup, are copied onto it. A missing field is a KeyError. */
  function Rewrite(items: map<string, Prototype>, name: string, s: ObjState): (r: Lookup<ObjState>)
    ensures r.KeyError? ==> name in items && (r.key == "order" || r.key == "subgroup")
    ensures r.Found? && name in items ==> r.value.order == items[name].order && r.value.subgroup == items[name].subgroup
    ensures r.Found? ==> (r.value.order.Some? && r.value.subgroup.Some?) || name !in items
  {
    if name !in items then Found(s)
    else
      var p := items[name];
      if p.order.None? then KeyError("order")
      else if p.subgroup.None? then KeyError("subgroup")
      else Found(ObjState(p.order, p.subgroup))
  }

  /** Rewriting a rewritten object changes nothing. */
  lemma RewriteIdempotent(items: map<string, Prototype>, name: string, s: ObjState)
    requires Rewrite(items, name, s).Found?
    ensures Rewrite(items, name, Rewrite(items, name, s).value) == Rewrite(items, name, s)
  {
  }

  /** What the sort compares and what it returns. key flattens
      ((group order, group name), (subgroup order, subgroup name),
      (order, sort name, name)): tuples of fixed length compare the same
      nested or flat. */
  datatype SortEntry = SortEntry(key: seq<string>, name: string)

  /** The entry of a rewritten object: its subgroup ("other" when it has
      none), that subgroup's group, then its order. */
  function EntryOf(items: map<string, Prototype>, subgroups: map<string, ItemSubgroup>, groups: map<string, ItemGroup>, name: string, s: ObjState): (r: Lookup<SortEntry>)
    ensures r.Found? ==> r.value.name == name && |r.value.key| == 7 && r.value.key[6] == name
  {
    var subgroupName := if s.subgroup.Some? then s.subgroup.value else "other";
    if subgroupName !in subgroups then KeyError(subgroupName)
    else
      var sub := subgroups[subgroupName];
      if sub.group !in groups then KeyError(sub.group)
      else
        var group := groups[sub.group];
        if s.order.None? || sub.order.None? || group.order.None? then KeyError("order")
        else
          var sortName := if name in items then items[name].name else name;
          Found(SortEntry([group.order.value, group.name, sub.order.value, sub.name, s.order.value, sortName, name], name))
  }

  /** One pass of the loop: the rewrite, then the entry. */
  function Outcome(items: map<string, Prototype>, subgroups: map<string, ItemSubgroup>, groups: map<string, ItemGroup>, name: string, s: ObjState): (r: Lookup<SortEntry>)
    ensures r.Found? ==> Rewrite(items, name, s).Found? && r.value.name == name
  {
    match Rewrite(items, name, s)
    case KeyError(k) => KeyError(k)
    case Found(t) => EntryOf(items, subgroups, groups, name, t)
  }

  /** An item sorts by the item's order, subgroup and name, its own name
      last; anything else by its own fields and its own name. */
  lemma SortKeyFields(items: map<string, Prototype>, subgroups: map<string, ItemSubgroup>, groups: map<string, ItemGroup>, name: string, s: ObjState)
    requires Outcome(items, subgroups, groups, name, s).Found?
    ensures var e := Outcome(items, subgroups, groups, name, s).value;
      |e.key| == 7 && e.key[6] == name && e.name == name &&
      (name in items ==>
        items[name].order == Some(e.key[4]) && e.key[5] == items[name].name &&
        items[name].subgroup.Some? && e.key[3] == subgroups[items[name].subgroup.value].name) &&
      (name !in items ==> s.order == Some(e.key[4]) && e.key[5] == name)
  {
  }

  /** The loop body for one object. */
  method Prepare(o: Obj, items: map<string, Prototype>, subgroups: map<string, ItemSubgroup>, groups: map<string, ItemGroup>) returns (r: Lookup<SortEntry>)
    modifies o
    ensures r == Outcome(items, subgroups, groups, o.name, old(State(o)))
    ensures Rewrite(items, o.name, old(State(o))).Found? ==> State(o) == Rewrite(items, o.name, old(State(o))).value
  {
    var sortName := o.name;
    if o.name in items {
      var p := items[o.name];
      sortName := p.name;
      if p.order.None? {
        return KeyError("order");
      }
      o.order := p.order;
      if p.subgroup.None? {
        return KeyError("subgroup");
      }
      o.subgroup := p.subgroup;
    }
    var subgroupName := if o.subgroup.Some? then o.subgroup.value else "other";
    if subgroupName !in subgroups {
      return KeyError(subgroupName);
    }
    var sub := subgroups[subgroupName];
    if sub.group !in groups {
      return KeyError(sub.group);
    }
    var group := groups[sub.group];
    if o.order.None? || sub.order.None? || group.order.None? {
      return KeyError("order");
    }
    return Found(SortEntry([group.order.value, group.name, sub.order.value, sub.name, o.order.value, sortName, o.name], o.name));
  }

  // ---------------------------------------------------------------------------
  // The whole list

  /** The entries of the objects in order, or the first KeyError. */
  function Entries(items: map<string, Prototype>, subgroups: map<string, ItemSubgroup>, groups: map<string, ItemGroup>, names: seq<string>, states: seq<ObjState>): Lookup<seq<SortEntry>>
    requires |names| == |states|
  {
    if names == [] then Found([])
    else
      var n := |names| - 1;
      match Entries(items, subgroups, groups, names[..n], states[..n])
      case KeyError(k) => KeyError(k)
      case Found(es) =>
        match Outcome(items, subgroups, groups, names[n], states[n])
        case KeyError(k) => KeyError(k)
        case Found(e) => Found(es + [e])
  }

  /** There are entries exactly when every object has one. */
  lemma {:induction false} EntriesFound(items: map<string, Prototype>, subgroups: map<string, ItemSubgroup>, groups: map<string, ItemGroup>, names: seq<string>, states: seq<ObjState>)
    requires |names| == |states|
    ensures Entries(items, subgroups, groups, names, states).Found? <==>
      forall i :: 0 <= i < |names| ==> Outcome(items, subgroups, groups, names[i], states[i]).Found?
  {
    if names != [] {
      var n := |names| - 1;
      EntriesFound(items, subgroups, groups, names[..n], states[..n]);
      PrefixOutcomes(items, subgroups, groups, names, states, n);
      var prefix := Entries(items, subgroups, groups, names[..n], states[..n]);
      var last := Outcome(items, subgroups, groups, names[n], states[n]);
      assert Entries(items, subgroups, groups, names, states).Found? <==> prefix.Found? && last.Found?;
    }
  }

  /** The objects before n fare in the prefix as they do in the whole. */
  lemma PrefixOutcomes(items: map<string, Prototype>, subgroups: map<string, ItemSubgroup>, groups: map<string, ItemGroup>, names: seq<string>, states: seq<ObjState>, n: nat)
    requires |names| == |states| && n <= |names|
    ensures (forall i :: 0 <= i < n ==> Outcome(items, subgroups, groups, names[..n][i], states[..n][i]).Found?) <==>
      (forall i :: 0 <= i < n ==> Outcome(items, subgroups, groups, names[i], states[i]).Found?)
  {
    assert forall i :: 0 <= i < n ==> names[..n][i] == names[i] && states[..n][i] == states[i];
  }

  /** The entries carry the objects' names, in order. */
  lemma {:induction false} EntriesNames(items: map<string, Prototype>, subgroups: map<string, ItemSubgroup>, groups: map<string, ItemGroup>, names: seq<string>, states: seq<ObjState>)
    requires |names| == |states|
    requires Entries(items, subgroups, groups, names, states).Found?
    ensures var es := Entries(items, subgroups, groups, names, states).value;
      |es| == |names| && forall i :: 0 <= i < |names| ==> es[i].name == names[i]
  {
    if names != [] {
      var n := |names| - 1;
      EntriesLast(items, subgroups, groups, names, states);
      var prefix := Entries(items, subgroups, groups, names[..n], states[..n]).value;
      var r := Entries(items, subgroups, groups, names, states).value;
      EntriesNames(items, subgroups, groups, names[..n], states[..n]);
      forall i | 0 <= i < n ensures r[i].name == names[i] {
        assert r[i] == prefix[i];
        assert names[..n][i] == names[i];
      }
    }
  }

  /** Successful entries are those of all objects but the last, then the
      last one's. */
  lemma EntriesLast(items: map<string, Prototype>, subgroups: map<string, ItemSubgroup>, groups: map<string, ItemGroup>, names: seq<string>, states: seq<ObjState>)
    requires |names| == |states| && names != []
    requires Entries(items, subgroups, groups, names, states).Found?
    ensures var n := |names| - 1;
      Entries(items, subgroups, groups, names[..n], states[..n]).Found? &&
      Outcome(items, subgroups, groups, names[n], states[n]).Found? &&
      Entries(items, subgroups, groups, names, states).value ==
        Entries(items, subgroups, groups, names[..n], states[..n]).value + [Outcome(items, subgroups, groups, names[n], states[n]).value]
  {
  }

  function NamesOf(es: seq<SortEntry>): (r: seq<string>)
    ensures |r| == |es| && forall i :: 0 <= i < |es| ==> r[i] == es[i].name
  {
    if es == [] then [] else [es[0].name] + NamesOf(es[1..])
  }

  /** Python's a <= b on tuples of strings. */
  predicate KeysLe(a: seq<string>, b: seq<string>)
    ensures a == b ==> KeysLe(a, b)
    ensures a == [] ==> KeysLe(a, b)
  {
    if a == [] then true
    else if b == [] then false
    else if a[0] != b[0] then StrLess(a[0], b[0])
    else KeysLe(a[1..], b[1..])
  }

  lemma StrTrichotomy(a: string, b: string)
    ensures StrLess(a, b) || a == b || StrLess(b, a)
    ensures !(StrLess(a, b) && StrLess(b, a))
  {
    TupleLessTrichotomy(Codes(a), Codes(b));
    if Codes(a) == Codes(b) {
      CodesInjective(a, b);
    }
  }

  lemma {:induction false} KeysLeTotal(a: seq<string>, b: seq<string>)
    ensures KeysLe(a, b) || KeysLe(b, a)
  {
    if a != [] && b != [] {
      if a[0] == b[0] {
        KeysLeTotal(a[1..], b[1..]);
      } else {
        StrTrichotomy(a[0], b[0]);
      }
    }
  }

  lemma {:induction false} KeysLeTransitive(a: seq<string>, b: seq<string>, c: seq<string>)
    requires KeysLe(a, b) && KeysLe(b, c)
    ensures KeysLe(a, c)
  {
    if a != [] {
      if a[0] == b[0] && b[0] == c[0] {
        KeysLeTransitive(a[1..], b[1..], c[1..]);
      } else if a[0] != b[0] && b[0] != c[0] {
        TupleLessTransitive(Codes(a[0]), Codes(b[0]), Codes(c[0]));
        StrTrichotomy(a[0], c[0]);
      }
    }
  }

  ghost predicate SortedEntries(es: seq<SortEntry>)
  {
    forall i, j :: 0 <= i < j < |es| ==> KeysLe(es[i].key, es[j].key)
  }

  /** Inserts e after every entry whose key is not above it. */
  function InsertEntry(e: SortEntry, es: seq<SortEntry>): (r: seq<SortEntry>)
    ensures multiset(r) == multiset(es) + multiset{e}
  {
    if es == [] then
      [e]
    else if KeysLe(e.key, es[0].key) then
      [e] + es
    else
      assert es == [es[0]] + es[1..];
      [es[0]] + InsertEntry(e, es[1..])
  }

  /** The inserted entries carry the same names, one more. */
  lemma {:induction false} InsertNames(e: SortEntry, es: seq<SortEntry>)
    ensures multiset(NamesOf(InsertEntry(e, es))) == multiset(NamesOf(es)) + multiset{e.name}
  {
    if es != [] {
      if KeysLe(e.key, es[0].key) {
        assert ([e] + es)[1..] == es;
      } else {
        var tail := InsertEntry(e, es[1..]);
        InsertNames(e, es[1..]);
        assert ([es[0]] + tail)[1..] == tail;
      }
    }
  }

  lemma {:induction false} InsertSorted(e: SortEntry, es: seq<SortEntry>)
    requires SortedEntries(es)
    ensures SortedEntries(InsertEntry(e, es))
  {
    if es != [] {
      if KeysLe(e.key, es[0].key) {
        InsertFirst(e, es);
      } else {
        InsertSorted(e, es[1..]);
        InsertLater(e, es, InsertEntry(e, es[1..]));
      }
    }
  }

  /** e goes in front of entries whose first key is not below it. */
  lemma InsertFirst(e: SortEntry, es: seq<SortEntry>)
    requires SortedEntries(es) && es != [] && KeysLe(e.key, es[0].key)
    ensures SortedEntries([e] + es)
  {
    var r := [e] + es;
    forall i, j | 0 <= i < j < |r| ensures KeysLe(r[i].key, r[j].key) {
      if i == 0 && j > 1 {
        KeysLeTransitive(e.key, es[0].key, es[j - 1].key);
      }
    }
  }

  /** The first entry stays in front when e goes further in. */
  lemma InsertLater(e: SortEntry, es: seq<SortEntry>, tail: seq<SortEntry>)
    requires SortedEntries(es) && es != [] && !KeysLe(e.key, es[0].key)
    requires SortedEntries(tail) && multiset(tail) == multiset(es[1..]) + multiset{e}
    ensures SortedEntries([es[0]] + tail)
  {
    KeysLeTotal(e.key, es[0].key);
    forall j | 0 <= j < |tail| ensures KeysLe(es[0].key, tail[j].key) {
      assert tail[j] in multiset(tail);
      if tail[j] != e {
        assert tail[j] in multiset(es[1..]);
        assert tail[j] == es[1..][IndexIn(tail[j], es[1..])];
      }
    }
    var r := [es[0]] + tail;
    forall i, j | 0 <= i < j < |r| ensures KeysLe(r[i].key, r[j].key) {
      if i > 0 {
        assert r[i] == tail[i - 1] && r[j] == tail[j - 1];
      } else {
        assert r[j] == tail[j - 1];
      }
    }
  }

  function IndexIn(x: SortEntry, s: seq<SortEntry>): (i: nat)
    requires x in s
    ensures i < |s| && s[i] == x
  {
    if s[0] == x then 0 else 1 + IndexIn(x, s[1..])
  }

  /** sorted() on the entries: a permutation. */
  function SortEntries(es: seq<SortEntry>): (r: seq<SortEntry>)
    ensures multiset(r) == multiset(es)
  {
    if es == [] then []
    else
      assert es == [es[0]] + es[1..];
      InsertEntry(es[0], SortEntries(es[1..]))
  }

  /** Sorting keeps the names, each as often as before. */
  lemma {:induction false} SortNames(es: seq<SortEntry>)
    ensures multiset(NamesOf(SortEntries(es))) == multiset(NamesOf(es))
  {
    if es != [] {
      SortNames(es[1..]);
      InsertNames(es[0], SortEntries(es[1..]));
    }
  }

  /** And sorted by key. */
  lemma {:induction false} SortSorted(es: seq<SortEntry>)
    ensures SortedEntries(SortEntries(es))
  {
    if es != [] {
      SortSorted(es[1..]);
      InsertSorted(es[0], SortEntries(es[1..]));
    }
  }

  /** What get_order returns for the objects' names and original fields. */
  function Order(items: map<string, Prototype>, subgroups: map<string, ItemSubgroup>, groups: map<string, ItemGroup>, names: seq<string>, states: seq<ObjState>): Lookup<seq<string>>
    requires |names| == |states|
  {
    match Entries(items, subgroups, groups, names, states)
    case KeyError(k) => KeyError(k)
    case Found(es) => Found(NamesOf(SortEntries(es)))
  }

  /** get_order succeeds exactly when every object has an entry; it then
      returns every object's name once, ordered by the entries' keys. */
  lemma OrderMeaning(items: map<string, Prototype>, subgroups: map<string, ItemSubgroup>, groups: map<string, ItemGroup>, names: seq<string>, states: seq<ObjState>)
    requires |names| == |states|
    ensures Order(items, subgroups, groups, names, states).Found? <==>
      forall i :: 0 <= i < |names| ==> Outcome(items, subgroups, groups, names[i], states[i]).Found?
    ensures Order(items, subgroups, groups, names, states).Found? ==>
      var r := Order(items, subgroups, groups, names, states).value;
      multiset(r) == multiset(names) &&
      exists sorted :: SortedEntries(sorted) && r == NamesOf(sorted) &&
        multiset(sorted) == multiset(Entries(items, subgroups, groups, names, states).value)
  {
    EntriesFound(items, subgroups, groups, names, states);
    var entries := Entries(items, subgroups, groups, names, states);
    if entries.Found? {
      EntriesNames(items, subgroups, groups, names, states);
      SortedNames(entries.value, names);
      assert Order(items, subgroups, groups, names, states).value == NamesOf(SortEntries(entries.value));
    }
  }

  lemma SortedNames(es: seq<SortEntry>, names: seq<string>)
    requires |es| == |names| && forall i :: 0 <= i < |names| ==> es[i].name == names[i]
    ensures multiset(NamesOf(SortEntries(es))) == multiset(names)
    ensures SortedEntries(SortEntries(es))
  {
    assert NamesOf(es) == names;
    SortNames(es);
    SortSorted(es);
  }

  function Names(objs: seq<Obj>): (r: seq<string>)
    ensures |r| == |objs| && forall i :: 0 <= i < |objs| ==> r[i] == objs[i].name
  {
    seq(|objs|, i requires 0 <= i < |objs| => objs[i].name)
  }

  function States(objs: seq<Obj>): (r: seq<ObjState>)
    reads set o | o in objs
    ensures |r| == |objs| && forall i :: 0 <= i < |objs| ==> r[i] == State(objs[i])
  {
    seq(|objs|, i reads set o | o in objs requires 0 <= i < |objs| => State(objs[i]))
  }

  /** get_order. On success every object that is an item carries the item's
      order and subgroup. */
  method GetOrder(items: map<string, Prototype>, planners: seq<RailPlanner>, subgroups: map<string, ItemSubgroup>, groups: map<string, ItemGroup>, objs: seq<Obj>) returns (r: Lookup<seq<string>>)
    modifies set o | o in objs
    ensures r == Order(Overlay(items, planners), subgroups, groups, Names(objs), old(States(objs)))
    ensures r.Found? ==> forall j :: 0 <= j < |objs| ==>
      Rewrite(Overlay(items, planners), objs[j].name, old(States(objs))[j]) == Found(State(objs[j]))
  {
    var all := AddRailPlanners(items, planners);
    ghost var names := Names(objs);
    ghost var before := States(objs);
    var entries: seq<SortEntry> := [];
    var i := 0;
    while i < |objs|
      invariant 0 <= i <= |objs|
      invariant Entries(all, subgroups, groups, names[..i], before[..i]) == Found(entries)
      invariant Settled(all, objs, before, i)
    {
      var e := Step(objs, i, all, subgroups, groups, before);
      EntriesStep(all, subgroups, groups, names, before, i);
      if e.KeyError? {
        EntriesErrorSticks(all, subgroups, groups, names, before, i + 1);
        return KeyError(e.key);
      }
      entries := entries + [e.value];
      i := i + 1;
    }
    assert names[..|objs|] == names && before[..|objs|] == before;
    r := Found(NamesOf(SortEntries(entries)));
  }

  /** The objects while the loop runs: before holds their fields at the
      start, the first done have been rewritten, and the rest are either
      untouched or rewritten already (the same object listed twice). */
  ghost predicate Settled(items: map<string, Prototype>, objs: seq<Obj>, before: seq<ObjState>, done: nat)
    reads set o | o in objs
  {
    |before| == |objs| && done <= |objs| &&
    (forall j, k :: 0 <= j < |objs| && 0 <= k < |objs| && objs[j] == objs[k] ==> before[j] == before[k]) &&
    (forall j :: 0 <= j < |objs| ==>
      State(objs[j]) == before[j] || Rewrite(items, objs[j].name, before[j]) == Found(State(objs[j]))) &&
    (forall j :: 0 <= j < done ==> Rewrite(items, objs[j].name, before[j]) == Found(State(objs[j])))
  }

  /** One pass of the loop in get_order. */
  method Step(objs: seq<Obj>, i: nat, items: map<string, Prototype>, subgroups: map<string, ItemSubgroup>, groups: map<string, ItemGroup>, ghost before: seq<ObjState>) returns (e: Lookup<SortEntry>)
    requires i < |objs| && Settled(items, objs, before, i)
    modifies objs[i]
    ensures e == Outcome(items, subgroups, groups, objs[i].name, before[i])
    ensures e.Found? ==> Settled(items, objs, before, i + 1)
  {
    e := PrepareAgain(objs[i], items, subgroups, groups, before[i]);
  }

  /** Prepare on an object that an earlier pass of the loop may already have
      rewritten (the same object listed twice): the outcome is that of its
      original fields. */
  method PrepareAgain(o: Obj, items: map<string, Prototype>, subgroups: map<string, ItemSubgroup>, groups: map<string, ItemGroup>, ghost original: ObjState) returns (r: Lookup<SortEntry>)
    requires State(o) == original || Rewrite(items, o.name, original) == Found(State(o))
    modifies o
    ensures r == Outcome(items, subgroups, groups, o.name, original)
    ensures r.Found? ==> Rewrite(items, o.name, original) == Found(State(o))
  {
    assert Rewrite(items, o.name, State(o)) == Rewrite(items, o.name, original) by {
      if State(o) != original {
        RewriteIdempotent(items, o.name, original);
      }
    }
    r := Prepare(o, items, subgroups, groups);
  }

  /** Entries grows by one object at a time. */
  lemma EntriesStep(items: map<string, Prototype>, subgroups: map<string, ItemSubgroup>, groups: map<string, ItemGroup>, names: seq<string>, states: seq<ObjState>, i: nat)
    requires |names| == |states| && i < |names|
    ensures Entries(items, subgroups, groups, names[..i + 1], states[..i + 1]) ==
      match Entries(items, subgroups, groups, names[..i], states[..i])
      case KeyError(k) => KeyError(k)
      case Found(es) =>
        match Outcome(items, subgroups, groups, names[i], states[i])
        case KeyError(k) => KeyError(k)
        case Found(e) => Found(es + [e])
  {
    assert names[..i + 1][..i] == names[..i] && states[..i + 1][..i] == states[..i];
  }

  /** Once an object fails, the later ones do not matter. */
  lemma {:induction false} EntriesErrorSticks(items: map<string, Prototype>, subgroups: map<string, ItemSubgroup>, groups: map<string, ItemGroup>, names: seq<string>, states: seq<ObjState>, i: nat)
    requires |names| == |states| && i <= |names|
    requires Entries(items, subgroups, groups, names[..i], states[..i]).KeyError?
    ensures Entries(items, subgroups, groups, names, states) == Entries(items, subgroups, groups, names[..i], states[..i])
    decreases |names|
  {
    if i == |names| {
      assert names[..i] == names && states[..i] == states;
    } else {
      var n := |names| - 1;
      assert names[..n][..i] == names[..i] && states[..n][..i] == states[..i];
      EntriesErrorSticks(items, subgroups, groups, names[..n], states[..n], i);
    }
  }
}
