/** HeatInterface: an entity whose temperature and mode go through
    validating setters. The Entity base class is not part of this model; what
    it leaves behind is the list of keyword arguments it did not consume. */
module HeatInterfaces {
  import opened Wrappers
  import opened Entity

  const CLASS_NAME: string := "<class 'draftsman.prototypes.heat_interface.HeatInterface'>"
  const MODES: set<string> := {"at-least", "at-most", "exactly", "add", "remove"}
  const DEFAULT_TEMPERATURE: PyValue := PyInt(0)
  const DEFAULT_MODE: PyValue := PyStr("at-least")

  /** The temperature setter's verdict: None or any int, bools included. */
  function TemperatureCheck(value: PyValue): (r: Option<EntityError>)
    ensures r.None? <==> value.PyNone? || value.PyBool? || value.PyInt?
    ensures r.Some? ==> r.value == TypeError
  {
    if value.PyNone? || IsInt(value) then None else Some(TypeError)
  }

  /** The warning an accepted temperature outside [0, 1000] draws; the value
      is stored all the same. */
  function RangeWarnings(value: PyValue): (ws: seq<Warning>)
    ensures |ws| <= 1
    ensures |ws| == 1 <==> IsInt(value) && (IntValue(value) < 0 || 1000 < IntValue(value))
    ensures |ws| == 1 ==> ws[0] == TemperatureRangeWarning(IntValue(value))
  {
    if IsInt(value) && !(0 <= IntValue(value) <= 1000) then [TemperatureRangeWarning(IntValue(value))] else []
  }

  /** The mode setter's verdict: membership in the set of the five modes and
      None. A value that cannot be hashed makes the membership test itself
      raise TypeError. */
  function ModeCheck(value: PyValue): (r: Option<EntityError>)
    ensures r.None? <==> value == PyNone || (value.PyStr? && value.s in MODES)
    ensures r == Some(TypeError) <==> value == PyOther(false)
    ensures r.Some? && value != PyOther(false) ==> r == Some(InvalidModeError(value))
  {
    match value
    case PyNone => None
    case PyStr(s) => if s in MODES then None else Some(InvalidModeError(value))
    case PyOther(hashable) => if hashable then Some(InvalidModeError(value)) else Some(TypeError)
    case _ => Some(InvalidModeError(value))
  }

  /** The export condition of temperature: not None and not equal to 0. */
  predicate ExportsTemperature(v: PyValue)
  {
    !v.PyNone? && !EqualsInt(v, 0)
  }

  /** The export condition of mode: not None and not "at-least". */
  predicate ExportsMode(v: PyValue)
  {
    !v.PyNone? && v != PyStr("at-least")
  }

  /** Neither default is exported, and since False == 0 in Python neither
      is a temperature of False. */
  lemma ExportConditions()
    ensures !ExportsTemperature(DEFAULT_TEMPERATURE) && !ExportsMode(DEFAULT_MODE)
    ensures !ExportsTemperature(PyBool(false)) && ExportsTemperature(PyBool(true))
    ensures forall v :: TemperatureCheck(v).None? ==> (ExportsTemperature(v) <==> v != PyNone && v != PyInt(0) && v != PyBool(false))
  {
  }

  /** The value given for key, or the default. */
  function Given(kwargs: map<string, PyValue>, key: string, default: PyValue): PyValue
  {
    if key in kwargs then kwargs[key] else default
  }

  /** The arguments left once key is consumed, when it was given. */
  function Consume(unused: seq<string>, kwargs: map<string, PyValue>, key: string): seq<string>
  {
    if key in kwargs then Remove(unused, key) else unused
  }

  /** The exception __init__ raises, in the order it checks: the given
      temperature, its pop, the given mode, its pop. */
  function InitError(kwargs: map<string, PyValue>, unused: seq<string>): (r: Option<EntityError>)
    ensures r.Some? ==> "temperature" in kwargs || "mode" in kwargs
    ensures r.Some? && r.value.KeyError? ==>
      (r.value.key == "temperature" || r.value.key == "mode") && r.value.key in kwargs && r.value.key !in unused
    ensures r.Some? && r.value.InvalidModeError? ==> "mode" in kwargs && r.value.value == kwargs["mode"]
  {
    if "temperature" in kwargs && TemperatureCheck(kwargs["temperature"]).Some? then TemperatureCheck(kwargs["temperature"])
    else if "temperature" in kwargs && "temperature" !in unused then Some(KeyError("temperature"))
    else if "mode" in kwargs && ModeCheck(kwargs["mode"]).Some? then ModeCheck(kwargs["mode"])
    else if "mode" in kwargs && "mode" !in Consume(unused, kwargs, "temperature") then Some(KeyError("mode"))
    else None
  }

  /** __init__ succeeds exactly when each given setting is acceptable and was
      left to this class by the base class. */
  lemma InitSucceeds(kwargs: map<string, PyValue>, unused: seq<string>)
    ensures InitError(kwargs, unused).None? <==>
      ("temperature" in kwargs ==> TemperatureCheck(kwargs["temperature"]).None? && "temperature" in unused) &&
      ("mode" in kwargs ==> ModeCheck(kwargs["mode"]).None? && "mode" in unused)
  {
    assert "mode" in Consume(unused, kwargs, "temperature") <==> "mode" in unused;
  }

  class HeatInterface {
    var temperature: PyValue
    var mode: PyValue
    /** unused_args: keyword arguments nothing has consumed, in order. */
    var unusedArgs: seq<string>
    /** The warnings raised by this object, in order. */
    var warnings: seq<Warning>

    /** Only values the setters accept are ever stored. */
    ghost predicate Valid()
      reads this
    {
      TemperatureCheck(temperature).None? && ModeCheck(mode).None?
    }

    /** The object as the base class leaves it, before this class's
        __init__ sets anything. */
    constructor FromBase(unusedArgs: seq<string>)
      ensures Valid()
      ensures temperature == PyNone && mode == PyNone
      ensures this.unusedArgs == unusedArgs && warnings == []
    {
      temperature := PyNone;
      mode := PyNone;
      this.unusedArgs := unusedArgs;
      warnings := [];
    }

    /** The temperature setter. */
    method SetTemperature(value: PyValue) returns (err: Option<EntityError>)
      modifies this
      ensures err == TemperatureCheck(value)
      ensures err.None? ==> temperature == value && warnings == old(warnings) + RangeWarnings(value)
      ensures err.Some? ==> temperature == old(temperature) && warnings == old(warnings)
      ensures mode == old(mode) && unusedArgs == old(unusedArgs)
      ensures old(Valid()) ==> Valid()
    {
      if value.PyNone? {
        temperature := value;
      } else if IsInt(value) {
        if !(0 <= IntValue(value) <= 1000) {
          warnings := warnings + [TemperatureRangeWarning(IntValue(value))];
        }
        temperature := value;
      } else {
        return Some(TypeError);
      }
      return None;
    }

    /** The mode setter. */
    method SetMode(value: PyValue) returns (err: Option<EntityError>)
      modifies this
      ensures err == ModeCheck(value)
      ensures mode == if err.None? then value else old(mode)
      ensures temperature == old(temperature) && warnings == old(warnings) && unusedArgs == old(unusedArgs)
      ensures old(Valid()) ==> Valid()
    {
      match value
      case PyOther(false) =>
        return Some(TypeError);
      case PyNone =>
        mode := value;
        return None;
      case PyStr(s) =>
        if s in MODES {
          mode := value;
          return None;
        }
        return Some(InvalidModeError(value));
      case _ =>
        return Some(InvalidModeError(value));
    }

    /** unused_args.pop(key) */
    method PopArg(key: string) returns (err: Option<EntityError>)
      modifies this
      ensures err.None? <==> key in old(unusedArgs)
      ensures err.Some? ==> err.value == KeyError(key) && unusedArgs == old(unusedArgs)
      ensures err.None? ==> unusedArgs == Remove(old(unusedArgs), key)
      ensures temperature == old(temperature) && mode == old(mode) && warnings == old(warnings)
    {
      if key !in unusedArgs {
        return Some(KeyError(key));
      }
      unusedArgs := Remove(unusedArgs, key);
      return None;
    }

    /** The temperature part of __init__: the default through the setter,
        then the given value, if any, through the setter and popped. */
    method InitTemperature(kwargs: map<string, PyValue>) returns (err: Option<EntityError>)
      requires Valid()
      modifies this
      ensures err == (if "temperature" in kwargs && TemperatureCheck(kwargs["temperature"]).Some? then TemperatureCheck(kwargs["temperature"])
        else if "temperature" in kwargs && "temperature" !in old(unusedArgs) then Some(KeyError("temperature"))
        else None)
      ensures err.None? ==> (
        Valid() && temperature == Given(kwargs, "temperature", DEFAULT_TEMPERATURE) &&
        unusedArgs == Consume(old(unusedArgs), kwargs, "temperature") &&
        warnings == old(warnings) + RangeWarnings(temperature))
      ensures mode == old(mode)
    {
      err := SetTemperature(DEFAULT_TEMPERATURE);
      if "temperature" in kwargs {
        err := SetTemperature(kwargs["temperature"]);
        if err.Some? {
          return;
        }
        err := PopArg("temperature");
      }
    }

    /** The mode part of __init__, the same way. */
    method InitMode(kwargs: map<string, PyValue>) returns (err: Option<EntityError>)
      requires Valid()
      modifies this
      ensures err == (if "mode" in kwargs && ModeCheck(kwargs["mode"]).Some? then ModeCheck(kwargs["mode"])
        else if "mode" in kwargs && "mode" !in old(unusedArgs) then Some(KeyError("mode"))
        else None)
      ensures err.None? ==> (
        Valid() && mode == Given(kwargs, "mode", DEFAULT_MODE) &&
        unusedArgs == Consume(old(unusedArgs), kwargs, "mode") && warnings == old(warnings))
      ensures temperature == old(temperature)
    {
      err := SetMode(DEFAULT_MODE);
      if "mode" in kwargs {
        err := SetMode(kwargs["mode"]);
        if err.Some? {
          return;
        }
        err := PopArg("mode");
      }
    }

    /** HeatInterface.__init__ after the base class: unused stands for the
        arguments the base class left. On success the object holds the given
        or default settings, those arguments are consumed, and every other
        leftover argument drew one DraftsmanWarning. */
    static method Create(kwargs: map<string, PyValue>, unused: seq<string>) returns (h: HeatInterface, err: Option<EntityError>)
      ensures fresh(h)
      ensures err == InitError(kwargs, unused)
      ensures err.None? ==> (
        h.Valid() &&
        h.temperature == Given(kwargs, "temperature", DEFAULT_TEMPERATURE) &&
        h.mode == Given(kwargs, "mode", DEFAULT_MODE) &&
        h.unusedArgs == Consume(Consume(unused, kwargs, "temperature"), kwargs, "mode") &&
        |h.warnings| == |RangeWarnings(h.temperature)| + |h.unusedArgs| &&
        h.warnings[..|RangeWarnings(h.temperature)|] == RangeWarnings(h.temperature) &&
        forall i :: 0 <= i < |h.unusedArgs| ==>
          h.warnings[|RangeWarnings(h.temperature)| + i] == DraftsmanWarning(CLASS_NAME, h.unusedArgs[i]))
    {
      h := new HeatInterface.FromBase(unused);
      err := h.InitTemperature(kwargs);
      if err.Some? {
        return;
      }
      err := h.InitMode(kwargs);
      if err.Some? {
        return;
      }
      h.WarnLeftovers();
    }

    /** The constructor's last loop: one DraftsmanWarning per argument still
        unused, after the warnings already raised. */
    method WarnLeftovers()
      modifies this
      ensures |warnings| == |old(warnings)| + |unusedArgs| && warnings[..|old(warnings)|] == old(warnings)
      ensures forall i :: 0 <= i < |unusedArgs| ==> warnings[|old(warnings)| + i] == DraftsmanWarning(CLASS_NAME, unusedArgs[i])
      ensures temperature == old(temperature) && mode == old(mode) && unusedArgs == old(unusedArgs)
    {
      var ws := WarnUnused(CLASS_NAME, unusedArgs);
      warnings := warnings + ws;
    }
  }
}
