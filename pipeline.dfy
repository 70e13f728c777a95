/** The data lifecycle driver at the end of update(): core's setup, then
    every stage for every mod in load order. The Lua engine is an abstract
    log of the calls made on it; the meaning of each call lives in Lua code
    that is not part of this model, so the order of the log is the
    specification. */
module Pipeline {

  /** One call on the Lua engine. */
  datatype Event =
    | SetGlobals(modName: string, modDir: string, currentFile: string) // MOD, MOD_NAME, MOD_DIR, CURRENT_FILE
    | AddPath(path: string)       // ADD_PATH
    | SetPath(path: string)       // SET_PATH
    | Execute(code: string)       // lua.execute
    | UnloadSessionCache          // UNLOAD_SESSION_CACHE
    | UnloadEntireCache           // UNLOAD_ENTIRE_CACHE
    | ResetModState               // RESET_MOD_STATE

  /** What the driver uses of a Mod: its name, its directory and the stage
      scripts it ships, by stage file name. */
  datatype ModScripts = ModScripts(name: string, location: string, data: map<string, string>)

  const STAGES: seq<string> := ["data.lua", "data-updates.lua", "data-final-fixes.lua"]
  const CORE_LUALIB: string := "./factorio-data/core/lualib/?.lua"
  const CLEAR_SESSION: string := "required_in_session = {}"

  /** The Lua runtime, as the calls made on it. */
  class Engine {
    var trace: seq<Event>

    constructor ()
      ensures trace == []
    {
      trace := [];
    }

    method Call(e: Event)
      modifies this
      ensures trace == old(trace) + [e]
    {
      trace := trace + [e];
    }
  }

  /** load_stage: the globals naming the mod and its file, the mod's own
      directory on the search path, then its script. */
  function LoadStageEvents(m: ModScripts, stage: string): seq<Event>
    requires stage in m.data
  {
    [SetGlobals(m.name, m.location, m.location + "/" + stage), AddPath(m.location + "/?.lua"), Execute(m.data[stage])]
  }

  method LoadStage(engine: Engine, m: ModScripts, stage: string)
    requires stage in m.data
    modifies engine
    ensures engine.trace == old(engine.trace) + LoadStageEvents(m, stage)
  {
    engine.Call(SetGlobals(m.name, m.location, m.location + "/" + stage));
    engine.Call(AddPath(m.location + "/?.lua"));
    engine.Call(Execute(m.data[stage]));
  }

  /** One mod in one stage: the path reset, and the script with its cleanup
      when the mod has that stage. */
  function Visit(basePath: string, m: ModScripts, stage: string): seq<Event>
  {
    [SetPath(basePath)] + if stage in m.data then LoadStageEvents(m, stage) + [UnloadEntireCache, ResetModState] else []
  }

  /** One stage over the mods in load order. */
  function StageTrace(basePath: string, order: seq<string>, mods: map<string, ModScripts>, stage: string): seq<Event>
    requires forall n :: n in order ==> n in mods
  {
    if order == [] then []
    else StageTrace(basePath, order[..|order| - 1], mods, stage) + Visit(basePath, mods[order[|order| - 1]], stage)
  }

  /** The stages, one after the other. */
  function StagesTrace(basePath: string, order: seq<string>, mods: map<string, ModScripts>, stages: seq<string>): seq<Event>
    requires forall n :: n in order ==> n in mods
  {
    if stages == [] then []
    else StagesTrace(basePath, order, mods, stages[..|stages| - 1]) + StageTrace(basePath, order, mods, stages[|stages| - 1])
  }

  /** core's setup, before the stage loop. */
  function CoreSetup(core: ModScripts): seq<Event>
    requires "data.lua" in core.data
  {
    [AddPath(CORE_LUALIB)] + LoadStageEvents(core, "data.lua") + [UnloadSessionCache, Execute(CLEAR_SESSION)]
  }

  /** One mod in one stage of the loop. */
  method VisitMod(engine: Engine, basePath: string, m: ModScripts, stage: string)
    modifies engine
    ensures engine.trace == old(engine.trace) + Visit(basePath, m, stage)
  {
    engine.Call(SetPath(basePath));
    if stage in m.data {
      LoadStage(engine, m, stage);
      engine.Call(UnloadEntireCache);
      engine.Call(ResetModState);
    }
  }

  /** The inner loop: one stage over the mods in load order. */
  method RunStage(engine: Engine, basePath: string, order: seq<string>, mods: map<string, ModScripts>, stage: string)
    requires forall n :: n in order ==> n in mods
    modifies engine
    ensures engine.trace == old(engine.trace) + StageTrace(basePath, order, mods, stage)
  {
    var i := 0;
    while i < |order|
      invariant 0 <= i <= |order|
      invariant engine.trace == old(engine.trace) + StageTrace(basePath, order[..i], mods, stage)
    {
      VisitMod(engine, basePath, mods[order[i]], stage);
      assert order[..i + 1][..i] == order[..i];
      i := i + 1;
    }
    assert order[..i] == order;
  }

  /** From the core setup to the end of the stage loop. basePath is the
      package.path the engine holds after core's setup, which the unseen
      ADD_PATH decides. */
  method RunLifecycle(engine: Engine, core: ModScripts, mods: map<string, ModScripts>, order: seq<string>, basePath: string)
    requires "data.lua" in core.data
    requires forall n :: n in order ==> n in mods
    modifies engine
    ensures engine.trace == old(engine.trace) + CoreSetup(core) + StagesTrace(basePath, order, mods, STAGES)
  {
    engine.Call(AddPath(CORE_LUALIB));
    LoadStage(engine, core, "data.lua");
    engine.Call(UnloadSessionCache);
    engine.Call(Execute(CLEAR_SESSION));
    ghost var start := engine.trace;
    var s := 0;
    while s < |STAGES|
      invariant 0 <= s <= |STAGES|
      invariant engine.trace == start + StagesTrace(basePath, order, mods, STAGES[..s])
    {
      RunStage(engine, basePath, order, mods, STAGES[s]);
      assert STAGES[..s + 1][..s] == STAGES[..s];
      s := s + 1;
    }
    assert STAGES[..s] == STAGES;
  }

  // ---------------------------------------------------------------------------
  // What the trace promises

  /** The scripts executed, in order. */
  function Scripts(t: seq<Event>): seq<string>
  {
    if t == [] then []
    else Scripts(t[..|t| - 1]) + if t[|t| - 1].Execute? then [t[|t| - 1].code] else []
  }

  /** The paths SET_PATH was called with, in order. */
  function SetPaths(t: seq<Event>): seq<string>
  {
    if t == [] then []
    else SetPaths(t[..|t| - 1]) + if t[|t| - 1].SetPath? then [t[|t| - 1].path] else []
  }

  lemma {:induction false} ScriptsAppend(a: seq<Event>, b: seq<Event>)
    ensures Scripts(a + b) == Scripts(a) + Scripts(b)
    ensures SetPaths(a + b) == SetPaths(a) + SetPaths(b)
    decreases |b|
  {
    if b == [] {
      assert a + b == a;
    } else {
      assert (a + b)[..|a + b| - 1] == a + b[..|b| - 1];
      ScriptsAppend(a, b[..|b| - 1]);
    }
  }

  /** The stage scripts the loop runs, stage by stage, mods in load order
      within a stage, skipping the mods that lack the stage. */
  function StageRuns(order: seq<string>, mods: map<string, ModScripts>, stage: string): seq<string>
    requires forall n :: n in order ==> n in mods
  {
    if order == [] then []
    else
      var m := mods[order[|order| - 1]];
      StageRuns(order[..|order| - 1], mods, stage) + if stage in m.data then [m.data[stage]] else []
  }

  function Runs(order: seq<string>, mods: map<string, ModScripts>, stages: seq<string>): seq<string>
    requires forall n :: n in order ==> n in mods
  {
    if stages == [] then []
    else Runs(order, mods, stages[..|stages| - 1]) + StageRuns(order, mods, stages[|stages| - 1])
  }

  lemma {:induction false} StageScripts(basePath: string, order: seq<string>, mods: map<string, ModScripts>, stage: string)
    requires forall n :: n in order ==> n in mods
    ensures Scripts(StageTrace(basePath, order, mods, stage)) == StageRuns(order, mods, stage)
    ensures SetPaths(StageTrace(basePath, order, mods, stage)) == seq(|order|, _ => basePath)
  {
    if order != [] {
      var init := order[..|order| - 1];
      var m := mods[order[|order| - 1]];
      StageScripts(basePath, init, mods, stage);
      ScriptsAppend(StageTrace(basePath, init, mods, stage), Visit(basePath, m, stage));
      VisitScripts(basePath, m, stage);
    }
  }

  lemma Single(e: Event)
    ensures Scripts([e]) == (if e.Execute? then [e.code] else [])
    ensures SetPaths([e]) == (if e.SetPath? then [e.path] else [])
  {
    assert [e][..0] == [];
  }

  /** load_stage runs the stage's script and sets no path. */
  lemma LoadStageScripts(m: ModScripts, stage: string)
    requires stage in m.data
    ensures Scripts(LoadStageEvents(m, stage)) == [m.data[stage]]
    ensures SetPaths(LoadStageEvents(m, stage)) == []
  {
    var e1 := SetGlobals(m.name, m.location, m.location + "/" + stage);
    var e2 := AddPath(m.location + "/?.lua");
    var e3 := Execute(m.data[stage]);
    Single(e1);
    Single(e2);
    Single(e3);
    ScriptsAppend([e1], [e2]);
    ScriptsAppend([e1, e2], [e3]);
    assert [e1] + [e2] == [e1, e2] && [e1, e2] + [e3] == LoadStageEvents(m, stage);
  }

  /** Two events that neither execute nor set a path. */
  lemma Quiet(e1: Event, e2: Event)
    requires !e1.Execute? && !e1.SetPath? && !e2.Execute? && !e2.SetPath?
    ensures Scripts([e1, e2]) == [] && SetPaths([e1, e2]) == []
  {
    Single(e1);
    Single(e2);
    ScriptsAppend([e1], [e2]);
    assert [e1] + [e2] == [e1, e2];
  }

  /** A visit runs the stage's script when the mod has it, and sets the path
      once. */
  lemma VisitScripts(basePath: string, m: ModScripts, stage: string)
    ensures Scripts(Visit(basePath, m, stage)) == if stage in m.data then [m.data[stage]] else []
    ensures SetPaths(Visit(basePath, m, stage)) == [basePath]
  {
    Single(SetPath(basePath));
    if stage in m.data {
      var load := LoadStageEvents(m, stage);
      var tail: seq<Event> := [UnloadEntireCache, ResetModState];
      LoadStageScripts(m, stage);
      Quiet(UnloadEntireCache, ResetModState);
      ScriptsAppend(load, tail);
      ScriptsAppend([SetPath(basePath)], load + tail);
    }
  }

  /** core's setup runs core's data.lua and then clears the session table,
      and sets no path: the first SET_PATH is the stage loop's. */
  lemma CoreSetupScripts(core: ModScripts)
    requires "data.lua" in core.data
    ensures Scripts(CoreSetup(core)) == [core.data["data.lua"], CLEAR_SESSION]
    ensures SetPaths(CoreSetup(core)) == []
  {
    var code := core.data["data.lua"];
    var head: seq<Event> := [AddPath(CORE_LUALIB)];
    var load := LoadStageEvents(core, "data.lua");
    var tail: seq<Event> := [UnloadSessionCache, Execute(CLEAR_SESSION)];
    assert Scripts(head + load) == [code] && SetPaths(head + load) == [] by {
      Single(AddPath(CORE_LUALIB));
      LoadStageScripts(core, "data.lua");
      ScriptsAppend(head, load);
    }
    assert Scripts(tail) == [CLEAR_SESSION] && SetPaths(tail) == [] by {
      Single(UnloadSessionCache);
      Single(Execute(CLEAR_SESSION));
      ScriptsAppend([UnloadSessionCache], [Execute(CLEAR_SESSION)]);
      assert [UnloadSessionCache] + [Execute(CLEAR_SESSION)] == tail;
    }
    ScriptsAppend(head + load, tail);
  }

  /** The scripts run exactly in stage order, and within a stage in load
      order, one per mod that has the stage. */
  lemma {:induction false} ScriptsInOrder(basePath: string, order: seq<string>, mods: map<string, ModScripts>, stages: seq<string>)
    requires forall n :: n in order ==> n in mods
    ensures Scripts(StagesTrace(basePath, order, mods, stages)) == Runs(order, mods, stages)
  {
    if stages != [] {
      ScriptsInOrder(basePath, order, mods, stages[..|stages| - 1]);
      StageScripts(basePath, order, mods, stages[|stages| - 1]);
      ScriptsAppend(StagesTrace(basePath, order, mods, stages[..|stages| - 1]), StageTrace(basePath, order, mods, stages[|stages| - 1]));
    }
  }

  /** Every mod gets SET_PATH(base_path) once per stage, whether or not it
      has that stage, and no other path is ever set. */
  lemma {:induction false} PathResetPerVisit(basePath: string, order: seq<string>, mods: map<string, ModScripts>, stages: seq<string>)
    requires forall n :: n in order ==> n in mods
    ensures |SetPaths(StagesTrace(basePath, order, mods, stages))| == |stages| * |order|
    ensures forall p :: p in SetPaths(StagesTrace(basePath, order, mods, stages)) ==> p == basePath
  {
    if stages != [] {
      PathResetPerVisit(basePath, order, mods, stages[..|stages| - 1]);
      StageScripts(basePath, order, mods, stages[|stages| - 1]);
      ScriptsAppend(StagesTrace(basePath, order, mods, stages[..|stages| - 1]), StageTrace(basePath, order, mods, stages[|stages| - 1]));
      assert |stages| * |order| == (|stages| - 1) * |order| + |order|;
    }
  }

  /** Each script in the stage loop runs right after the path reset and the
      mod's globals and search path, and is followed right away by
      UNLOAD_ENTIRE_CACHE and then RESET_MOD_STATE. */
  ghost predicate Framed(t: seq<Event>, basePath: string)
  {
    forall i :: 0 <= i < |t| && t[i].Execute? ==>
      3 <= i && i + 2 < |t| &&
      t[i - 3] == SetPath(basePath) && t[i - 2].SetGlobals? && t[i - 1].AddPath? &&
      t[i + 1] == UnloadEntireCache && t[i + 2] == ResetModState
  }

  lemma FramedAppend(a: seq<Event>, b: seq<Event>, basePath: string)
    requires Framed(a, basePath) && Framed(b, basePath)
    ensures Framed(a + b, basePath)
  {
    var t := a + b;
    forall i | 0 <= i < |t| && t[i].Execute?
      ensures 3 <= i && i + 2 < |t| &&
        t[i - 3] == SetPath(basePath) && t[i - 2].SetGlobals? && t[i - 1].AddPath? &&
        t[i + 1] == UnloadEntireCache && t[i + 2] == ResetModState
    {
      if i < |a| {
        assert a[i].Execute?;
      } else {
        assert b[i - |a|].Execute?;
      }
    }
  }

  lemma {:induction false} StageFramed(basePath: string, order: seq<string>, mods: map<string, ModScripts>, stage: string)
    requires forall n :: n in order ==> n in mods
    ensures Framed(StageTrace(basePath, order, mods, stage), basePath)
  {
    if order != [] {
      StageFramed(basePath, order[..|order| - 1], mods, stage);
      FramedAppend(StageTrace(basePath, order[..|order| - 1], mods, stage), Visit(basePath, mods[order[|order| - 1]], stage), basePath);
    }
  }

  lemma {:induction false} LoopFramed(basePath: string, order: seq<string>, mods: map<string, ModScripts>, stages: seq<string>)
    requires forall n :: n in order ==> n in mods
    ensures Framed(StagesTrace(basePath, order, mods, stages), basePath)
  {
    if stages != [] {
      LoopFramed(basePath, order, mods, stages[..|stages| - 1]);
      StageFramed(basePath, order, mods, stages[|stages| - 1]);
      FramedAppend(StagesTrace(basePath, order, mods, stages[..|stages| - 1]), StageTrace(basePath, order, mods, stages[|stages| - 1]), basePath);
    }
  }
}
