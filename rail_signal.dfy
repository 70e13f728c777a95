/** RailSignal: two setters that add or drop one key of the entity's
    control_behavior dictionary. The mixins and the Entity base class are not
    part of this model; signatures.BOOLEAN.validate is a parameter. */
module RailSignals {
  import opened Wrappers
  import opened Entity

  const CLASS_NAME: string := "<class 'draftsman.prototypes.rail_signal.RailSignal'>"
  const READ_SIGNAL_KEY: string := "circuit_read_signal"
  const CLOSE_SIGNAL_KEY: string := "circuit_close_signal"
  const ENABLE_DISABLE_KEY: string := "circuit_enable_disable"

  /** A validator: the bool a value stands for, or None when it rejects it. */
  type Validator = PyValue -> Option<bool>

  /** A setter's effect on the dictionary: the new dictionary, or the
      exception it raised. */
  datatype SignalUpdate = Updated(cb: map<string, PyValue>) | Rejected(error: EntityError)

  /** What either setter does to the dictionary under its key: None drops
      the key (absent or not), any other value is validated and stored as a
      bool, or rejected with the dictionary as it was. */
  function SetSignal(cb: map<string, PyValue>, key: string, value: PyValue, validate: Validator): (r: SignalUpdate)
    ensures r.Rejected? <==> !value.PyNone? && validate(value).None?
    ensures r.Rejected? ==> r.error == SchemaError(value)
    ensures r.Updated? ==> (key in r.cb <==> !value.PyNone?) && r.cb - {key} == cb - {key}
    ensures r.Updated? && key in r.cb ==> r.cb[key] == PyBool(validate(value).value)
  {
    if value.PyNone? then Updated(cb - {key})
    else match validate(value)
      case None => Rejected(SchemaError(value))
      case Some(b) => Updated(cb[key := PyBool(b)])
  }

  /** No other key is touched, whatever the value. */
  lemma OtherKeysKept(cb: map<string, PyValue>, key: string, value: PyValue, validate: Validator, other: string)
    requires other != key
    requires SetSignal(cb, key, value, validate).Updated?
    ensures var r := SetSignal(cb, key, value, validate).cb;
      (other in r <==> other in cb) && (other in cb ==> r[other] == cb[other])
  {
  }

  /** After None the key is gone; after an accepted value it holds the
      validated bool. */
  lemma KeyAfterSet(cb: map<string, PyValue>, key: string, value: PyValue, validate: Validator)
    ensures value.PyNone? ==> SetSignal(cb, key, value, validate) == Updated(cb - {key}) && key !in SetSignal(cb, key, value, validate).cb
    ensures !value.PyNone? ==>
      (SetSignal(cb, key, value, validate).Updated? <==> validate(value).Some?) &&
      (validate(value).Some? ==> SetSignal(cb, key, value, validate).cb[key] == PyBool(validate(value).value))
  {
  }

  /** Setting twice is setting once, and clearing after a set restores a
      dictionary that lacked the key. */
  lemma SetSignalIdempotent(cb: map<string, PyValue>, key: string, value: PyValue, validate: Validator)
    requires SetSignal(cb, key, value, validate).Updated?
    ensures SetSignal(SetSignal(cb, key, value, validate).cb, key, value, validate) == SetSignal(cb, key, value, validate)
    ensures key !in cb ==> SetSignal(SetSignal(cb, key, value, validate).cb, key, PyNone, validate) == Updated(cb)
  {
    var r := SetSignal(cb, key, value, validate).cb;
    if value.PyNone? {
      assert r - {key} == r;
    } else {
      assert r[key := r[key]] == r;
    }
    if key !in cb {
      assert r - {key} == cb;
    }
  }

  class RailSignal {
    var controlBehavior: map<string, PyValue>
    /** The warnings raised by this object, in order. */
    var warnings: seq<Warning>

    /** RailSignal.__init__ after the base classes: controlBehavior and
        unused stand for what they left; each unused argument draws one
        DraftsmanWarning. */
    constructor (controlBehavior: map<string, PyValue>, unused: seq<string>)
      ensures this.controlBehavior == controlBehavior
      ensures |warnings| == |unused|
      ensures forall i :: 0 <= i < |unused| ==> warnings[i] == DraftsmanWarning(CLASS_NAME, unused[i])
    {
      this.controlBehavior := controlBehavior;
      var ws := WarnUnused(CLASS_NAME, unused);
      warnings := ws;
    }

    /** set_read_signal */
    method SetReadSignal(value: PyValue, validate: Validator) returns (err: Option<EntityError>)
      modifies this
      ensures match SetSignal(old(controlBehavior), READ_SIGNAL_KEY, value, validate)
        case Updated(cb) => err.None? && controlBehavior == cb
        case Rejected(e) => err == Some(e) && controlBehavior == old(controlBehavior)
      ensures warnings == old(warnings)
    {
      if value.PyNone? {
        controlBehavior := controlBehavior - {READ_SIGNAL_KEY};
        return None;
      }
      var b := validate(value);
      if b.None? {
        return Some(SchemaError(value));
      }
      controlBehavior := controlBehavior[READ_SIGNAL_KEY := PyBool(b.value)];
      return None;
    }

    /** set_enable_disable: it works on "circuit_close_signal". */
    method SetEnableDisable(value: PyValue, validate: Validator) returns (err: Option<EntityError>)
      modifies this
      ensures match SetSignal(old(controlBehavior), CLOSE_SIGNAL_KEY, value, validate)
        case Updated(cb) => err.None? && controlBehavior == cb
        case Rejected(e) => err == Some(e) && controlBehavior == old(controlBehavior)
      ensures warnings == old(warnings)
    {
      if value.PyNone? {
        controlBehavior := controlBehavior - {CLOSE_SIGNAL_KEY};
        return None;
      }
      var b := validate(value);
      if b.None? {
        return Some(SchemaError(value));
      }
      controlBehavior := controlBehavior[CLOSE_SIGNAL_KEY := PyBool(b.value)];
      return None;
    }
  }

  /** set_enable_disable never touches "circuit_enable_disable", not even
      when it is given None. */
  lemma EnableDisableKeyUntouched(cb: map<string, PyValue>, value: PyValue, validate: Validator)
    requires SetSignal(cb, CLOSE_SIGNAL_KEY, value, validate).Updated?
    ensures var r := SetSignal(cb, CLOSE_SIGNAL_KEY, value, validate).cb;
      (ENABLE_DISABLE_KEY in r <==> ENABLE_DISABLE_KEY in cb) &&
      (ENABLE_DISABLE_KEY in cb ==> r[ENABLE_DISABLE_KEY] == cb[ENABLE_DISABLE_KEY])
  {
    OtherKeysKept(cb, CLOSE_SIGNAL_KEY, value, validate, ENABLE_DISABLE_KEY);
  }
}
