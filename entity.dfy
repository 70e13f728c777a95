/** What the two entity classes share: the dynamically typed values their
    setters receive, the errors and warnings they raise, and the constructor
    loop that warns once per keyword argument no one consumed. */
module Entity {
  import opened Wrappers

  /** A Python value as a setter sees it. */
  datatype PyValue =
    | PyNone
    | PyBool(b: bool)
    | PyInt(i: int)
    | PyStr(s: string)
    | PyOther(hashable: bool)  // any other object: a float, a list, a dict, ...

  /** isinstance(v, int): bool is a subclass of int. */
  predicate IsInt(v: PyValue)
  {
    v.PyBool? || v.PyInt?
  }

  /** The integer a bool or an int stands for. */
  function IntValue(v: PyValue): (n: int)
    requires IsInt(v)
    ensures v.PyInt? ==> n == v.i
    ensures v.PyBool? ==> (n == 1 <==> v.b) && (n == 0 <==> !v.b)
  {
    match v
    case PyBool(b) => if b then 1 else 0
    case PyInt(i) => i
  }

  /** Python's a == b between a stored value and an int, bools counting as
      0 and 1. */
  predicate EqualsInt(v: PyValue, n: int)
  {
    IsInt(v) && IntValue(v) == n
  }

  datatype EntityError =
    | TypeError                   // a wrong type, or an unhashable value in a set test
    | InvalidModeError(value: PyValue)
    | KeyError(key: string)       // dict.pop of a key that is not there
    | SchemaError(value: PyValue) // the signature validator rejected the value

  datatype Warning =
    | TemperatureRangeWarning(value: int)
    | DraftsmanWarning(className: string, arg: string)  // "<class> has no attribute '<arg>'"

  /** The arguments without key, the others kept in their order. */
  function Remove(s: seq<string>, key: string): (r: seq<string>)
    ensures forall k :: k in r <==> k in s && k != key
    ensures |r| <= |s|
    ensures key !in s ==> r == s
  {
    if s == [] then []
    else if s[0] == key then Remove(s[1..], key)
    else [s[0]] + Remove(s[1..], key)
  }

  /** Removal works element by element, so it keeps the order of what is
      left: removing from a concatenation removes from each part. */
  lemma {:induction false} RemoveAppend(s: seq<string>, t: seq<string>, key: string)
    ensures Remove(s + t, key) == Remove(s, key) + Remove(t, key)
  {
    if s == [] {
      assert s + t == t;
    } else {
      assert (s + t)[0] == s[0];
      assert (s + t)[1..] == s[1..] + t;
      RemoveAppend(s[1..], t, key);
    }
  }

  /** The constructor's last loop: one DraftsmanWarning per leftover
      keyword argument, in the dictionary's order. */
  method WarnUnused(className: string, unused: seq<string>) returns (ws: seq<Warning>)
    ensures |ws| == |unused|
    ensures forall i :: 0 <= i < |unused| ==> ws[i] == DraftsmanWarning(className, unused[i])
  {
    ws := [];
    for i := 0 to |unused|
      invariant |ws| == i
      invariant forall j :: 0 <= j < i ==> ws[j] == DraftsmanWarning(className, unused[j])
    {
      ws := ws + [DraftsmanWarning(className, unused[i])];
    }
  }
}
