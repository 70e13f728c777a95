/** The dependency check in update(): every registered mod other than "base"
    and "core" has its declared dependencies checked, in order, against the
    registry of enabled mods; a declaration either raises, is skipped, or adds
    one edge to the mod it names (Mod.add_dependency). */
module Resolver {
  import opened Wrappers
  import opened Versions
  import opened DependencyString

  /** The exception the check raises. */
  datatype Failure =
    | NoMatch(declaration: string)     // re.match found nothing and m[1] raised TypeError
    | Incompatible(mod: string)        // IncompatableModError(mod_name): names the declaring mod
    | Missing(dependency: string)      // MissingModError(dep_name)
    | BadOperator(op: Option<string>)  // AssertionError "incorrect operation"
    | IncorrectVersion(version: string) // IncorrectModVersionError(version)
    | MissingKey(key: string)          // KeyError: the mod's info has no such key

  /** What one declaration does. */
  datatype Rule = Skip | Edge(target: string) | Fail(failure: Failure)

  datatype Outcome<T> = Done(value: T) | Failed(failure: Failure)

  /** One declaration of the mod modName. registry maps every enabled,
      registered mod to its version string; toTuple stands for
      version_string_2_tuple, which is not part of this model. */
  function Check(modName: string, declaration: string, registry: map<string, string>, toTuple: string -> Version): (r: Rule)
    ensures r.Edge? ==> r.target in registry
    ensures r.Fail? && r.failure.NoMatch? ==> r.failure.declaration == declaration
    ensures r.Fail? && r.failure.Incompatible? ==> r.failure.mod == modName
    ensures r.Fail? && r.failure.Missing? ==> r.failure.dependency !in registry
    ensures !(r.Fail? && r.failure.MissingKey?)
  {
    match Parse(Strip(declaration))
    case None => Fail(NoMatch(declaration))
    case Some(d) =>
      if d.flag == Some('!') then
        if d.name in registry then Fail(Incompatible(modName)) else Skip
      else if d.flag == Some('?') && d.name !in registry then Skip
      else if d.name !in registry then Fail(Missing(d.name))
      else if d.flag == Some('~') then Skip
      else if d.version.None? then Edge(d.name)
      else if d.op.None? || !IsOperator(d.op.value) then Fail(BadOperator(d.op))
      else if !Satisfies(toTuple(registry[d.name]), d.op.value, toTuple(d.version.value)) then
        Fail(IncorrectVersion(d.version.value))
      else Edge(d.name)
  }

  /** "!": a registered target is an error naming the declaring mod; an
      absent one is skipped. */
  lemma IncompatibleRule(modName: string, declaration: string, registry: map<string, string>, toTuple: string -> Version)
    requires Parse(Strip(declaration)).Some? && Parse(Strip(declaration)).value.flag == Some('!')
    ensures var name := Parse(Strip(declaration)).value.name;
      Check(modName, declaration, registry, toTuple) == if name in registry then Fail(Incompatible(modName)) else Skip
  {
  }

  /** "?": an absent target is skipped, without error and without edge. */
  lemma OptionalRule(modName: string, declaration: string, registry: map<string, string>, toTuple: string -> Version)
    requires Parse(Strip(declaration)).Some? && Parse(Strip(declaration)).value.flag == Some('?')
    requires Parse(Strip(declaration)).value.name !in registry
    ensures Check(modName, declaration, registry, toTuple) == Skip
  {
  }

  /** A required or "~" declaration whose target is absent raises
      MissingModError with the target's name. */
  lemma MissingRule(modName: string, declaration: string, registry: map<string, string>, toTuple: string -> Version)
    requires Parse(Strip(declaration)).Some?
    requires var d := Parse(Strip(declaration)).value; (d.flag.None? || d.flag == Some('~')) && d.name !in registry
    ensures Check(modName, declaration, registry, toTuple) == Fail(Missing(Parse(Strip(declaration)).value.name))
  {
  }

  /** "~" with a registered target: no edge, and its version is not checked. */
  lemma LoadOrderOnlyRule(modName: string, declaration: string, registry: map<string, string>, toTuple: string -> Version)
    requires Parse(Strip(declaration)).Some?
    requires var d := Parse(Strip(declaration)).value; d.flag == Some('~') && d.name in registry
    ensures Check(modName, declaration, registry, toTuple) == Skip
  {
  }

  /** A declaration adds an edge exactly when it parses, names a registered
      mod, is neither "!" nor "~", and either gives no version or gives one of
      the five operators with a version the target satisfies; the edge goes
      to the named mod. */
  lemma EdgeRule(modName: string, declaration: string, registry: map<string, string>, toTuple: string -> Version, target: string)
    ensures Check(modName, declaration, registry, toTuple) == Edge(target) <==>
      Parse(Strip(declaration)).Some? &&
      var d := Parse(Strip(declaration)).value;
      d.name == target && d.name in registry && d.flag != Some('!') && d.flag != Some('~') &&
      (d.version.None? ||
       (d.op.Some? && IsOperator(d.op.value) &&
        Satisfies(toTuple(registry[d.name]), d.op.value, toTuple(d.version.value))))
  {
  }

  /** A version requirement on a required or optional, registered target
      fails with IncorrectModVersionError exactly when the operator is valid
      and the comparison is false, and with an assertion error when the
      operator is not one of the five. */
  lemma VersionRule(modName: string, declaration: string, registry: map<string, string>, toTuple: string -> Version)
    requires Parse(Strip(declaration)).Some?
    requires var d := Parse(Strip(declaration)).value;
      (d.flag.None? || d.flag == Some('?')) && d.name in registry && d.version.Some?
    ensures var d := Parse(Strip(declaration)).value;
      var r := Check(modName, declaration, registry, toTuple);
      (r == Fail(BadOperator(d.op)) <==> d.op.None? || !IsOperator(d.op.value)) &&
      (r == Fail(IncorrectVersion(d.version.value)) <==>
        d.op.Some? && IsOperator(d.op.value) &&
        !Satisfies(toTuple(registry[d.name]), d.op.value, toTuple(d.version.value)))
  {
  }

  // ---------------------------------------------------------------------------
  // A mod's declarations, in order

  /** The rule of each declaration, in order. */
  function Rules(modName: string, declared: seq<string>, registry: map<string, string>, toTuple: string -> Version): (r: seq<Rule>)
    ensures |r| == |declared| && forall i :: 0 <= i < |declared| ==> r[i] == Check(modName, declared[i], registry, toTuple)
  {
    seq(|declared|, i requires 0 <= i < |declared| => Check(modName, declared[i], registry, toTuple))
  }

  /** Rules applied in order: the edges they add, or the first failure. */
  function Combine(rules: seq<Rule>): Outcome<seq<string>>
  {
    if rules == [] then Done([])
    else
      match rules[0]
      case Fail(f) => Failed(f)
      case Skip => Combine(rules[1..])
      case Edge(t) => Prepend([t], Combine(rules[1..]))
  }

  function Prepend(es: seq<string>, r: Outcome<seq<string>>): Outcome<seq<string>>
  {
    match r
    case Done(rest) => Done(es + rest)
    case Failed(f) => Failed(f)
  }

  /** Rules combine without failure exactly when none fails, and every edge
      they then give is one of them. */
  lemma {:induction false} CombineMeaning(rules: seq<Rule>)
    ensures Combine(rules).Done? <==> forall i :: 0 <= i < |rules| ==> !rules[i].Fail?
    ensures Combine(rules).Done? ==> forall t :: t in Combine(rules).value ==> Edge(t) in rules
  {
    if rules != [] {
      var tail := rules[1..];
      CombineMeaning(tail);
      assert forall i :: 0 <= i < |tail| ==> tail[i] == rules[i + 1];
      if !rules[0].Fail? && !forall i :: 0 <= i < |rules| ==> !rules[i].Fail? {
        var i :| 0 <= i < |rules| && rules[i].Fail?;
        assert tail[i - 1].Fail?;
      }
    }
  }

  /** One more rule of those still to apply. */
  lemma CombineStep(rules: seq<Rule>, k: nat, added: seq<string>)
    requires k < |rules|
    ensures var next := Combine(rules[k + 1..]);
      Prepend(added, Combine(rules[k..])) ==
        match rules[k]
        case Fail(f) => Failed(f)
        case Skip => Prepend(added, next)
        case Edge(t) => Prepend(added + [t], next)
  {
    assert rules[k..][1..] == rules[k + 1..];
    var next := Combine(rules[k + 1..]);
    if next.Done? {
      forall t: string ensures added + ([t] + next.value) == (added + [t]) + next.value {
      }
    }
  }

  /** The edges a mod's declarations add, in order, or the first failure. */
  function CheckAll(modName: string, declared: seq<string>, registry: map<string, string>, toTuple: string -> Version): (r: Outcome<seq<string>>)
    ensures r.Done? ==> forall t :: t in r.value ==> t in registry
  {
    var rules := Rules(modName, declared, registry, toTuple);
    CombineMeaning(rules);
    assert forall t :: Edge(t) in rules ==> t in registry by {
      forall t | Edge(t) in rules ensures t in registry {
        var i :| 0 <= i < |rules| && rules[i] == Edge(t);
        EdgeTarget(modName, declared[i], registry, toTuple);
      }
    }
    Combine(rules)
  }

  /** An edge always names a registered mod. */
  lemma EdgeTarget(modName: string, declaration: string, registry: map<string, string>, toTuple: string -> Version)
    ensures Check(modName, declaration, registry, toTuple).Edge? ==> Check(modName, declaration, registry, toTuple).target in registry
  {
  }

  /** The check succeeds for a mod exactly when no declaration fails, and
      every edge it then adds comes from a declaration whose rule is that edge. */
  lemma CheckAllMeaning(modName: string, declared: seq<string>, registry: map<string, string>, toTuple: string -> Version)
    ensures CheckAll(modName, declared, registry, toTuple).Done? <==>
      forall i :: 0 <= i < |declared| ==> !Check(modName, declared[i], registry, toTuple).Fail?
    ensures CheckAll(modName, declared, registry, toTuple).Done? ==>
      forall t :: t in CheckAll(modName, declared, registry, toTuple).value ==>
        exists i :: 0 <= i < |declared| && Check(modName, declared[i], registry, toTuple) == Edge(t)
  {
    var rules := Rules(modName, declared, registry, toTuple);
    CombineMeaning(rules);
    if Combine(rules).Done? {
      forall t | t in Combine(rules).value
        ensures exists i :: 0 <= i < |declared| && Check(modName, declared[i], registry, toTuple) == Edge(t)
      {
        var i :| 0 <= i < |rules| && rules[i] == Edge(t);
      }
    }
  }

  /** The key of a mod's info that lists its declarations. */
  const DEPENDENCIES_KEY: string := "dependencies"

  /** A mod's check, starting from info["dependencies"]: a mod whose info has
      no such key raises KeyError before any declaration is read. */
  function CheckDeclared(modName: string, declared: Option<seq<string>>, registry: map<string, string>, toTuple: string -> Version): (r: Outcome<seq<string>>)
    ensures declared.None? ==> r == Failed(MissingKey(DEPENDENCIES_KEY))
    ensures r.Done? ==> declared.Some? && forall t :: t in r.value ==> t in registry
  {
    match declared
    case None => Failed(MissingKey(DEPENDENCIES_KEY))
    case Some(ds) => CheckAll(modName, ds, registry, toTuple)
  }

  // ---------------------------------------------------------------------------
  // The registry and its loop

  /** A registered mod. dependencies holds the names of the mods that
      add_dependency appended, each name standing for the one Mod object
      registered under it. */
  class Mod {
    const name: string
    const version: string
    /** info["dependencies"], or None when info has no such key */
    const declared: Option<seq<string>>
    var dependencies: seq<string>

    constructor (name: string, version: string, declared: Option<seq<string>>)
      ensures this.name == name && this.version == version && this.declared == declared
      ensures dependencies == []
    {
      this.name := name;
      this.version := version;
      this.declared := declared;
      dependencies := [];
    }

    method AddDependency(dependency: string)
      modifies this
      ensures dependencies == old(dependencies) + [dependency]
    {
      dependencies := dependencies + [dependency];
    }
  }

  /** Name to version, for every registered mod. */
  function Registry(mods: map<string, Mod>): map<string, string>
  {
    map n | n in mods :: mods[n].version
  }

  /** "base" and "core" are not checked. */
  predicate Exempt(name: string)
  {
    name == "base" || name == "core"
  }

  /** The failure the loop over the registry, in its order, raises first. */
  function FirstFailure(order: seq<string>, mods: map<string, Mod>, toTuple: string -> Version): Option<Failure>
    requires forall n :: n in order ==> n in mods
  {
    if order == [] then None
    else if Exempt(order[0]) then FirstFailure(order[1..], mods, toTuple)
    else
      match CheckDeclared(order[0], mods[order[0]].declared, Registry(mods), toTuple)
      case Failed(f) => Some(f)
      case Done(_) => FirstFailure(order[1..], mods, toTuple)
  }

  /** The edges the check gives a mod once the whole check has passed. */
  function EdgesOf(name: string, mods: map<string, Mod>, toTuple: string -> Version): seq<string>
    requires name in mods
  {
    if Exempt(name) then []
    else match CheckDeclared(name, mods[name].declared, Registry(mods), toTuple)
      case Done(es) => es
      case Failed(_) => []
  }

  /** The inner loop for one mod: info["dependencies"], then its
      declarations in order, stopping at the first failure; each edge is
      appended with add_dependency. */
  method CheckMod(mod: Mod, registry: map<string, string>, toTuple: string -> Version) returns (failure: Option<Failure>)
    modifies mod
    ensures failure.None? <==> CheckDeclared(mod.name, mod.declared, registry, toTuple).Done?
    ensures failure.Some? ==> CheckDeclared(mod.name, mod.declared, registry, toTuple) == Failed(failure.value)
    ensures failure.None? ==> mod.dependencies == old(mod.dependencies) + CheckDeclared(mod.name, mod.declared, registry, toTuple).value
  {
    if mod.declared.None? {
      return Some(MissingKey(DEPENDENCIES_KEY));
    }
    var declared := mod.declared.value;
    assert CheckDeclared(mod.name, mod.declared, registry, toTuple) == CheckAll(mod.name, declared, registry, toTuple);
    var k := 0;
    ghost var added: seq<string> := [];
    ghost var rules := Rules(mod.name, declared, registry, toTuple);
    assert CheckAll(mod.name, declared, registry, toTuple) == Combine(rules);
    assert rules[0..] == rules;
    assert Combine(rules).Done? ==> [] + Combine(rules).value == Combine(rules).value;
    while k < |declared|
      invariant 0 <= k <= |declared|
      invariant Combine(rules) == Prepend(added, Combine(rules[k..]))
      invariant mod.dependencies == old(mod.dependencies) + added
      decreases |declared| - k
    {
      var rule := Check(mod.name, declared[k], registry, toTuple);
      CombineStep(rules, k, added);
      if rule.Fail? {
        return Some(rule.failure);
      }
      if rule.Edge? {
        mod.AddDependency(rule.target);
        added := added + [rule.target];
      }
      k := k + 1;
    }
    assert rules[k..] == [];
    assert added + [] == added;
    return None;
  }

  /** The loop of update() over mods.items(): order is the registry's
      insertion order. It raises the first failure in that order; when none
      occurs, each mod has the edges its declarations call for appended. */
  method BuildGraph(order: seq<string>, mods: map<string, Mod>, toTuple: string -> Version) returns (failure: Option<Failure>)
    requires forall n :: n in order <==> n in mods
    requires forall i, j :: 0 <= i < j < |order| ==> order[i] != order[j]
    requires forall n :: n in mods ==> mods[n].name == n
    requires forall n, m :: n in mods && m in mods && n != m ==> mods[n] != mods[m]
    modifies set n | n in mods :: mods[n]
    ensures failure == FirstFailure(order, mods, toTuple)
    ensures failure.None? ==> forall n :: n in mods ==>
      mods[n].dependencies == old(mods[n].dependencies) + EdgesOf(n, mods, toTuple)
  {
    var registry := Registry(mods);
    ghost var before := map n | n in mods :: mods[n].dependencies;
    var i := 0;
    while i < |order|
      invariant 0 <= i <= |order|
      invariant FirstFailure(order, mods, toTuple) == FirstFailure(order[i..], mods, toTuple)
      invariant Visited(order, mods, toTuple, before, i)
    {
      assert order[i..][1..] == order[i + 1..];
      var f := VisitEntry(order, mods, i, registry, toTuple, before);
      if f.Some? {
        return f;
      }
      i := i + 1;
    }
    forall n | n in mods
      ensures mods[n].dependencies == old(mods[n].dependencies) + EdgesOf(n, mods, toTuple)
    {
      var j :| 0 <= j < |order| && order[j] == n;
    }
    return None;
  }

  /** The mods while that loop runs: the first done have their edges
      appended to what they held at the start (before), the others are as
      they were. */
  ghost predicate Visited(order: seq<string>, mods: map<string, Mod>, toTuple: string -> Version, before: map<string, seq<string>>, done: nat)
    reads set n | n in mods :: mods[n]
  {
    done <= |order| && (forall n :: n in order ==> n in mods && n in before) &&
    (forall j :: 0 <= j < done ==> mods[order[j]].dependencies == before[order[j]] + EdgesOf(order[j], mods, toTuple)) &&
    (forall j :: done <= j < |order| ==> mods[order[j]].dependencies == before[order[j]])
  }

  /** One pass of that loop: the mod at position i is checked unless it is
      exempt. */
  method VisitEntry(order: seq<string>, mods: map<string, Mod>, i: nat, registry: map<string, string>, toTuple: string -> Version, ghost before: map<string, seq<string>>) returns (failure: Option<Failure>)
    requires forall i, j :: 0 <= i < j < |order| ==> order[i] != order[j]
    requires forall n :: n in mods ==> mods[n].name == n
    requires forall n, m :: n in mods && m in mods && n != m ==> mods[n] != mods[m]
    requires i < |order| && registry == Registry(mods) && Visited(order, mods, toTuple, before, i)
    modifies mods[order[i]]
    ensures failure == (if Exempt(order[i]) then None
      else match CheckDeclared(order[i], mods[order[i]].declared, registry, toTuple)
        case Failed(f) => Some(f)
        case Done(_) => None)
    ensures failure.None? ==> Visited(order, mods, toTuple, before, i + 1)
  {
    var mod := mods[order[i]];
    failure := None;
    if !Exempt(order[i]) {
      failure := CheckMod(mod, registry, toTuple);
    }
    assert forall j :: 0 <= j < |order| && j != i ==> mods[order[j]] != mod;
  }
}
