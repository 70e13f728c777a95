/** The property-tree format of Factorio's mod-settings.dat, as get_mod_settings
    reads it: a 9-byte header, then one recursively encoded node.

    The decoder is stated here as functions of the bytes not yet read (what the
    Python byte stream still holds after its cursor); each returns the value it
    read and the bytes left after it. SettingsReader runs the same decoding step
    by step over a stream object and is proved equal to it. A reference encoder
    is given for well-formed values, and decoding is proved to invert it. */
module PropertyTree {
  import opened Bytes
  import opened Wrappers

  /** The Python values the decoder produces. */
  datatype Value =
    | Null                        // Python None: a None node, an absent String, an unknown tag
    | Bool(b: bool)
    | Number(bits: seq<byte>)     // the 8 raw bytes of the double, uninterpreted
    | Str(text: seq<byte>)        // the raw bytes handed to bytes.decode()
    | List(items: seq<Value>)
    | Dict(entries: seq<Entry>)   // a Python dict: insertion-ordered, unique keys

  datatype Entry = Entry(key: Key, value: Value)

  /** A dictionary key is what get_string returns: None or a string. */
  type Key = Option<seq<byte>>

  datatype Error =
    | Truncated         // struct.unpack was handed fewer bytes than its format needs
    | CountNotInteger   // range() was handed the tuple that struct.unpack returns
    | HeaderRejected    // the header assertion on the version and the flag failed

  datatype Result<T> = Ok(value: T) | Err(error: Error)

  /** A decoded value and the bytes still unread after it. */
  datatype Decoded<T> = Decoded(value: T, rest: seq<byte>)

  const NONE_TAG: byte := 0
  const BOOL_TAG: byte := 1
  const NUMBER_TAG: byte := 2
  const STRING_TAG: byte := 3
  const LIST_TAG: byte := 4
  const DICT_TAG: byte := 5

  /** A one-byte string length of this value means a 4-byte length follows. */
  const LENGTH_ESCAPE: byte := 255

  /** One more than the largest count or length a 4-byte field holds. */
  const U32_LIMIT: nat := Pow256(4)

  /** How many bytes read(n) returns: all n, or what is left at the end. */
  function ReadCount(s: seq<byte>, n: nat): (k: nat)
    ensures k <= |s| && k <= n
    ensures k == n || k == |s|
  {
    if n <= |s| then n else |s|
  }

  // ---------------------------------------------------------------------------
  // Decoding

  /** get_string: an "absent" byte, then a one-byte length (255 escapes to a
      4-byte length), then the body. The body is read with read(length), which
      returns fewer bytes at the end of the buffer instead of failing. */
  function DecodeString(s: seq<byte>): (r: Result<Decoded<Key>>)
    ensures r.Ok? ==> |r.value.rest| < |s|
    ensures r.Err? ==> r.error == Truncated
    ensures r.Ok? && r.value.value.Some? ==> |r.value.rest| + |r.value.value.value| + 2 <= |s|
  {
    if s == [] then Err(Truncated)
    else if s[0] != 0 then Ok(Decoded(None, s[1..]))
    else if |s| == 1 then Err(Truncated)
    else if s[1] != LENGTH_ESCAPE then StringBody(s[2..], s[1] as nat)
    else if |s| < 6 then Err(Truncated)
    else StringBody(s[6..], LittleEndian(s[2..6]))
  }

  function StringBody(s: seq<byte>, length: nat): (r: Result<Decoded<Key>>)
    ensures r.Ok? && r.value.value.Some? && |r.value.value.value| + |r.value.rest| == |s|
  {
    var k := ReadCount(s, length);
    Ok(Decoded(Some(s[..k]), s[k..]))
  }

  /** get_data: a type tag, a flag byte that is read and ignored, then the
      payload the tag calls for. read(2) at the very end returns the tag alone. */
  function DecodeNode(s: seq<byte>): (r: Result<Decoded<Value>>)
    ensures r.Ok? ==> |r.value.rest| < |s|
    decreases |s|, 3
  {
    if s == [] then Err(Truncated) else DecodePayload(s[0], s[ReadCount(s, 2)..])
  }

  /** The payload of a node with the given tag. An unknown tag yields None and
      reads nothing more. */
  function DecodePayload(tag: byte, p: seq<byte>): (r: Result<Decoded<Value>>)
    ensures r.Ok? ==> |r.value.rest| <= |p|
    decreases |p|, 2
  {
    if tag == NONE_TAG then Ok(Decoded(Null, p))
    else if tag == BOOL_TAG then
      if p == [] then Err(Truncated) else Ok(Decoded(Bool(p[0] != 0), p[1..]))
    else if tag == NUMBER_TAG then
      if |p| < 8 then Err(Truncated) else Ok(Decoded(Number(p[..8]), p[8..]))
    else if tag == STRING_TAG then
      match DecodeString(p)
      case Err(e) => Err(e)
      case Ok(Decoded(k, q)) => Ok(Decoded(if k.None? then Null else Str(k.value), q))
    else if tag == LIST_TAG then DecodeList(p)
    else if tag == DICT_TAG then DecodeDict(p)
    else Ok(Decoded(Null, p))
  }

  /** A List payload: a 4-byte count, then that many nodes. The code as it
      stands does not reach the nodes (see ListAsWritten). */
  function DecodeList(p: seq<byte>): (r: Result<Decoded<Value>>)
    ensures r.Ok? ==> |r.value.rest| + 4 <= |p| && r.value.value.List?
    decreases |p|, 1
  {
    if |p| < 4 then Err(Truncated)
    else
      match DecodeItems(p[4..], LittleEndian(p[..4]), [])
      case Err(e) => Err(e)
      case Ok(Decoded(items, q)) => Ok(Decoded(List(items), q))
  }

  /** A Dictionary payload: a 4-byte count, then that many entries. */
  function DecodeDict(p: seq<byte>): (r: Result<Decoded<Value>>)
    ensures r.Ok? ==> |r.value.rest| + 4 <= |p| && r.value.value.Dict?
    decreases |p|, 1
  {
    if |p| < 4 then Err(Truncated)
    else
      match DecodeEntries(p[4..], LittleEndian(p[..4]), [])
      case Err(e) => Err(e)
      case Ok(Decoded(entries, q)) => Ok(Decoded(Dict(Collect(entries)), q))
  }

  /** The List loop: n more nodes appended, in order, to those read so far. */
  function DecodeItems(s: seq<byte>, n: nat, acc: seq<Value>): (r: Result<Decoded<seq<Value>>>)
    ensures r.Ok? ==> |r.value.rest| <= |s| && |r.value.value| == |acc| + n
    decreases |s|, 4
  {
    if n == 0 then Ok(Decoded(acc, s))
    else
      match DecodeNode(s)
      case Err(e) => Err(e)
      case Ok(Decoded(v, q)) => DecodeItems(q, n - 1, acc + [v])
  }

  /** The Dictionary loop: n more (key, node) pairs appended, in the order
      they are read, to those read so far. The dictionary itself is the result
      of storing them one after the other (Collect). */
  function DecodeEntries(s: seq<byte>, n: nat, acc: seq<Entry>): (r: Result<Decoded<seq<Entry>>>)
    ensures r.Ok? ==> |r.value.rest| <= |s| && |r.value.value| == |acc| + n
    decreases |s|, 4
  {
    if n == 0 then Ok(Decoded(acc, s))
    else
      match DecodeEntry(s)
      case Err(e) => Err(e)
      case Ok(Decoded(e, q)) => DecodeEntries(q, n - 1, acc + [e])
  }

  /** One dictionary entry: a String key, then a node. */
  function DecodeEntry(s: seq<byte>): (r: Result<Decoded<Entry>>)
    ensures r.Ok? ==> |r.value.rest| < |s|
    decreases |s|, 3
  {
    match DecodeString(s)
    case Err(e) => Err(e)
    case Ok(Decoded(k, q)) =>
      match DecodeNode(q)
      case Err(e) => Err(e)
      case Ok(Decoded(v, q')) => Ok(Decoded(Entry(k, v), q'))
  }

  // ---------------------------------------------------------------------------
  // Python dictionaries

  /** The value stored under k, if any. */
  function Lookup(d: seq<Entry>, k: Key): Option<Value>
  {
    if d == [] then None else if d[0].key == k then Some(d[0].value) else Lookup(d[1..], k)
  }

  /** No key occurs twice. */
  ghost predicate DistinctKeys(d: seq<Entry>)
  {
    forall i, j :: 0 <= i < j < |d| ==> d[i].key != d[j].key
  }

  /** out[k] = v on a Python dict: a new key goes at the end, an existing key
      keeps its place and takes the new value (the last write wins). */
  function Insert(d: seq<Entry>, k: Key, v: Value): (r: seq<Entry>)
    ensures |d| <= |r| <= |d| + 1
  {
    if d == [] then [Entry(k, v)]
    else if d[0].key == k then [Entry(k, v)] + d[1..]
    else [d[0]] + Insert(d[1..], k, v)
  }

  /** Storing under a new key appends the pair at the end. */
  lemma {:induction false} InsertNew(d: seq<Entry>, k: Key, v: Value)
    requires Lookup(d, k).None?
    ensures Insert(d, k, v) == d + [Entry(k, v)]
  {
    if d != [] {
      InsertNew(d[1..], k, v);
      assert d == [d[0]] + d[1..];
    }
  }

  /** After out[k] = v, k maps to v and every other key to what it mapped to. */
  lemma {:induction false} InsertLookup(d: seq<Entry>, k: Key, v: Value, k': Key)
    ensures Lookup(Insert(d, k, v), k') == if k' == k then Some(v) else Lookup(d, k')
  {
    if d != [] && d[0].key != k {
      assert Insert(d, k, v)[1..] == Insert(d[1..], k, v);
      InsertLookup(d[1..], k, v, k');
    }
  }

  /** Overwriting an existing key changes no position: the keys stay in order. */
  lemma {:induction false} InsertKeepsOrder(d: seq<Entry>, k: Key, v: Value)
    requires Lookup(d, k).Some?
    ensures |Insert(d, k, v)| == |d|
    ensures forall i :: 0 <= i < |d| ==> Insert(d, k, v)[i].key == d[i].key
  {
    if d[0].key != k {
      InsertKeepsOrder(d[1..], k, v);
    }
  }

  /** A key is absent exactly when no entry carries it. */
  lemma {:induction false} LookupAbsent(d: seq<Entry>, k: Key)
    ensures Lookup(d, k).None? <==> forall i :: 0 <= i < |d| ==> d[i].key != k
  {
    if d != [] {
      LookupAbsent(d[1..], k);
      if Lookup(d, k).None? {
        forall i | 0 <= i < |d| ensures d[i].key != k {
          if i > 0 { assert d[i] == d[1..][i - 1]; }
        }
      }
    }
  }

  /** Assigning into a dictionary never makes a key occur twice. */
  lemma InsertKeepsDistinct(d: seq<Entry>, k: Key, v: Value)
    requires DistinctKeys(d)
    ensures DistinctKeys(Insert(d, k, v))
  {
    var r := Insert(d, k, v);
    LookupAbsent(d, k);
    if Lookup(d, k).Some? {
      InsertKeepsOrder(d, k, v);
      forall i, j | 0 <= i < j < |r| ensures r[i].key != r[j].key {
        assert r[i].key == d[i].key && r[j].key == d[j].key;
      }
    } else {
      InsertNew(d, k, v);
      forall i, j | 0 <= i < j < |r| ensures r[i].key != r[j].key {
        assert r[i] == d[i];
        if j < |d| { assert r[j] == d[j]; }
      }
    }
  }

  /** The dictionary that storing the pairs of es one after the other, into an
      empty dictionary, leaves behind. */
  function Collect(es: seq<Entry>): (r: seq<Entry>)
    ensures |r| <= |es|
    ensures es != [] ==> r != []
  {
    if es == [] then []
    else
      var last := es[|es| - 1];
      Insert(Collect(es[..|es| - 1]), last.key, last.value)
  }

  /** Whatever pairs are stored, the dictionary has no repeated key. */
  lemma {:induction false} CollectKeysDistinct(es: seq<Entry>)
    ensures DistinctKeys(Collect(es))
  {
    if es != [] {
      var last := es[|es| - 1];
      CollectKeysDistinct(es[..|es| - 1]);
      InsertKeepsDistinct(Collect(es[..|es| - 1]), last.key, last.value);
    }
  }

  /** The value the last pair with key k carries, if any. */
  function LastValue(es: seq<Entry>, k: Key): Option<Value>
  {
    if es == [] then None
    else if es[|es| - 1].key == k then Some(es[|es| - 1].value)
    else LastValue(es[..|es| - 1], k)
  }

  /** The last write wins: after storing the pairs in order, each key holds the
      value of its last pair, and only keys some pair carries are present. */
  lemma {:induction false} CollectLookup(es: seq<Entry>, k: Key)
    ensures Lookup(Collect(es), k) == LastValue(es, k)
  {
    if es != [] {
      var last := es[|es| - 1];
      CollectLookup(es[..|es| - 1], k);
      InsertLookup(Collect(es[..|es| - 1]), last.key, last.value, k);
    }
  }

  /** Pairs with no repeated key are stored as they come: the dictionary holds
      them all, in the same order. */
  lemma {:induction false} CollectDistinct(es: seq<Entry>)
    requires DistinctKeys(es)
    ensures Collect(es) == es
  {
    if es != [] {
      var init, last := es[..|es| - 1], es[|es| - 1];
      CollectDistinct(init);
      LookupAbsent(init, last.key);
      InsertNew(init, last.key, last.value);
      assert init + [last] == es;
    }
  }

  // ---------------------------------------------------------------------------
  // The file header

  /** Python's version[::-1]. */
  function Reverse(s: seq<nat>): (r: seq<nat>)
    ensures |r| == |s|
  {
    if s == [] then [] else Reverse(s[1..]) + [s[0]]
  }

  /** get_mod_settings: an 8-byte little-endian version number, decoded by the
      given decode_version; a 1-byte header flag; then the root node. The file
      is accepted only when the reversed decoded version is the expected
      Factorio version and the flag is clear. Bytes after the root are ignored. */
  function DecodeSettings(b: seq<byte>, decodeVersion: nat -> seq<nat>, expected: seq<nat>): (r: Result<Value>)
    ensures r.Ok? ==> |b| >= 9 && b[8] == 0 && Reverse(decodeVersion(LittleEndian(b[..8]))) == expected
  {
    if |b| < 8 then Err(Truncated)
    else
      var version := decodeVersion(LittleEndian(b[..8]));
      if |b| == 8 then Err(Truncated)
      else if Reverse(version) != expected || b[8] != 0 then Err(HeaderRejected)
      else
        match DecodeNode(b[9..])
        case Err(e) => Err(e)
        case Ok(Decoded(v, _)) => Ok(v)
  }

  // ---------------------------------------------------------------------------
  // The reference encoder

  ghost predicate KeyFits(k: Key)
  {
    k.Some? ==> |k.value| < U32_LIMIT
  }

  /** The values the format can carry: 8-byte numbers, lengths and counts that
      fit their 4-byte fields, dictionaries without repeated keys. */
  ghost predicate WellFormed(v: Value)
    decreases v
  {
    match v
    case Null => true
    case Bool(_) => true
    case Number(bits) => |bits| == 8
    case Str(t) => |t| < U32_LIMIT
    case List(items) => |items| < U32_LIMIT && ItemsWellFormed(items)
    case Dict(es) => |es| < U32_LIMIT && DistinctKeys(es) && EntriesWellFormed(es)
  }

  ghost predicate ItemsWellFormed(items: seq<Value>)
    decreases items
  {
    items == [] || (WellFormed(items[0]) && ItemsWellFormed(items[1..]))
  }

  ghost predicate EntriesWellFormed(es: seq<Entry>)
    decreases es
  {
    es == [] || (EntryWellFormed(es[0]) && EntriesWellFormed(es[1..]))
  }

  ghost predicate EntryWellFormed(e: Entry)
    decreases e
  {
    KeyFits(e.key) && WellFormed(e.value)
  }

  /** A present string in its shortest form: lengths below 255 take one byte,
      every other length the escape byte and four more. */
  function EncodeString(s: seq<byte>): (r: seq<byte>)
    requires |s| < U32_LIMIT
  {
    [0] + (if |s| < 255 then [|s| as byte] else [LENGTH_ESCAPE] + ToLittleEndian(|s|, 4)) + s
  }

  function EncodeKey(k: Key): seq<byte>
    requires KeyFits(k)
  {
    match k
    case None => [1]
    case Some(s) => EncodeString(s)
  }

  function Encode(v: Value): seq<byte>
    requires WellFormed(v)
    decreases v
  {
    match v
    case Null => [NONE_TAG, 0]
    case Bool(x) => [BOOL_TAG, 0, if x then 1 else 0]
    case Number(bits) => [NUMBER_TAG, 0] + bits
    case Str(t) => [STRING_TAG, 0] + EncodeString(t)
    case List(items) => [LIST_TAG, 0] + ToLittleEndian(|items|, 4) + EncodeItems(items)
    case Dict(es) => [DICT_TAG, 0] + ToLittleEndian(|es|, 4) + EncodeEntries(es)
  }

  /** The encodings of the items, one after another. */
  function EncodeItems(items: seq<Value>): seq<byte>
    requires ItemsWellFormed(items)
    decreases items
  {
    if items == [] then [] else Encode(items[0]) + EncodeItems(items[1..])
  }

  /** Each entry's key, then its value, entry after entry. */
  function EncodeEntries(es: seq<Entry>): seq<byte>
    requires EntriesWellFormed(es)
    decreases es
  {
    if es == [] then [] else EncodeEntry(es[0]) + EncodeEntries(es[1..])
  }

  function EncodeEntry(e: Entry): seq<byte>
    requires EntryWellFormed(e)
    decreases e
  {
    EncodeKey(e.key) + Encode(e.value)
  }

  /** Splitting a concatenation at the end of its first part. */
  lemma Split(a: seq<byte>, r: seq<byte>)
    ensures (a + r)[..|a|] == a && (a + r)[|a|..] == r
  {
  }

  lemma Assoc(a: seq<byte>, b: seq<byte>, c: seq<byte>)
    ensures (a + b) + c == a + (b + c)
  {
  }

  // ---------------------------------------------------------------------------
  // Round trips

  /** A string encoded in its shortest form decodes to itself, and what
      follows it is left unread. */
  lemma StringRoundTrip(s: seq<byte>, rest: seq<byte>)
    requires |s| < U32_LIMIT
    ensures DecodeString(EncodeString(s) + rest) == Ok(Decoded(Some(s), rest))
  {
    var b := EncodeString(s) + rest;
    Split(s, rest);
    if |s| < 255 {
      assert b == [0, |s| as byte] + (s + rest);
      assert b[2..] == s + rest;
    } else {
      var len := ToLittleEndian(|s|, 4);
      assert b == [0, LENGTH_ESCAPE] + len + (s + rest);
      assert b[2..6] == len;
      assert b[6..] == s + rest;
      LittleEndianRoundTrip(|s|, 4);
    }
  }

  lemma KeyRoundTrip(k: Key, rest: seq<byte>)
    requires KeyFits(k)
    ensures DecodeString(EncodeKey(k) + rest) == Ok(Decoded(k, rest))
  {
    if k.Some? {
      StringRoundTrip(k.value, rest);
    } else {
      assert (EncodeKey(k) + rest)[1..] == rest;
    }
  }

  /** Decoding inverts encoding: every well-formed value decodes to itself and
      leaves whatever follows its encoding unread. */
  lemma {:induction false} RoundTrip(v: Value, rest: seq<byte>)
    requires WellFormed(v)
    ensures DecodeNode(Encode(v) + rest) == Ok(Decoded(v, rest))
    decreases v, 2
  {
    match v
    case List(_) => ListRoundTrip(v, rest);
    case Dict(_) => DictRoundTrip(v, rest);
    case _ => ScalarRoundTrip(v, rest);
  }

  /** The nodes without children. */
  lemma ScalarRoundTrip(v: Value, rest: seq<byte>)
    requires !v.List? && !v.Dict? && WellFormed(v)
    ensures DecodeNode(Encode(v) + rest) == Ok(Decoded(v, rest))
  {
    var e := Encode(v);
    var b := e + rest;
    assert b[0] == e[0];
    assert ReadCount(b, 2) == 2;
    var p := b[2..];
    assert p == e[2..] + rest;
    match v
    case Null =>
    case Bool(x) =>
      assert p[1..] == rest;
    case Number(bits) =>
      assert e[2..] == bits;
      Split(bits, rest);
    case Str(t) =>
      assert e[2..] == EncodeString(t);
      StringRoundTrip(t, rest);
  }

  lemma {:induction false} ListRoundTrip(v: Value, rest: seq<byte>)
    requires v.List? && WellFormed(v)
    ensures DecodeNode(Encode(v) + rest) == Ok(Decoded(v, rest))
    decreases v, 1
  {
    var b := Encode(v) + rest;
    var p := ToLittleEndian(|v.items|, 4) + EncodeItems(v.items) + rest;
    assert DecodeNode(b) == DecodeList(p) by {
      assert b[0] == LIST_TAG && ReadCount(b, 2) == 2 && b[2..] == p;
    }
    ListPayload(v.items, rest);
  }

  lemma {:induction false} DictRoundTrip(v: Value, rest: seq<byte>)
    requires v.Dict? && WellFormed(v)
    ensures DecodeNode(Encode(v) + rest) == Ok(Decoded(v, rest))
    decreases v, 1
  {
    var b := Encode(v) + rest;
    var p := ToLittleEndian(|v.entries|, 4) + EncodeEntries(v.entries) + rest;
    assert DecodeNode(b) == DecodeDict(p) by {
      assert b[0] == DICT_TAG && ReadCount(b, 2) == 2 && b[2..] == p;
    }
    DictPayload(v.entries, rest);
  }

  /** A List payload: the count, then the encoded nodes. */
  lemma {:induction false} ListPayload(items: seq<Value>, rest: seq<byte>)
    requires |items| < U32_LIMIT && ItemsWellFormed(items)
    ensures DecodeList(ToLittleEndian(|items|, 4) + EncodeItems(items) + rest) == Ok(Decoded(List(items), rest))
    decreases items, 3
  {
    var count := ToLittleEndian(|items|, 4);
    var p := count + EncodeItems(items) + rest;
    Assoc(count, EncodeItems(items), rest);
    Split(count, EncodeItems(items) + rest);
    LittleEndianRoundTrip(|items|, 4);
    ItemsThenAppend(items, rest);
    ItemsRoundTrip(items, rest, []);
    assert [] + items == items;
  }

  /** A Dictionary payload: the count, then the encoded pairs; pairs with
      distinct keys make up the dictionary as they come. */
  lemma {:induction false} DictPayload(es: seq<Entry>, rest: seq<byte>)
    requires |es| < U32_LIMIT && EntriesWellFormed(es) && DistinctKeys(es)
    ensures DecodeDict(ToLittleEndian(|es|, 4) + EncodeEntries(es) + rest) == Ok(Decoded(Dict(es), rest))
    decreases es, 3
  {
    var count := ToLittleEndian(|es|, 4);
    var p := count + EncodeEntries(es) + rest;
    Assoc(count, EncodeEntries(es), rest);
    Split(count, EncodeEntries(es) + rest);
    LittleEndianRoundTrip(|es|, 4);
    EntriesThenAppend(es, rest);
    EntriesRoundTrip(es, rest, []);
    assert [] + es == es;
    CollectDistinct(es);
  }

  /** The encodings of the items followed by rest, built from the back. */
  function ItemsThen(items: seq<Value>, rest: seq<byte>): seq<byte>
    requires ItemsWellFormed(items)
    decreases items
  {
    if items == [] then rest else Encode(items[0]) + ItemsThen(items[1..], rest)
  }

  function EntriesThen(es: seq<Entry>, rest: seq<byte>): seq<byte>
    requires EntriesWellFormed(es)
    decreases es
  {
    if es == [] then rest else EncodeEntry(es[0]) + EntriesThen(es[1..], rest)
  }

  lemma {:induction false} ItemsThenAppend(items: seq<Value>, rest: seq<byte>)
    requires ItemsWellFormed(items)
    ensures ItemsThen(items, rest) == EncodeItems(items) + rest
    decreases items
  {
    if items != [] {
      ItemsThenAppend(items[1..], rest);
      Assoc(Encode(items[0]), EncodeItems(items[1..]), rest);
    }
  }

  lemma {:induction false} EntriesThenAppend(es: seq<Entry>, rest: seq<byte>)
    requires EntriesWellFormed(es)
    ensures EntriesThen(es, rest) == EncodeEntries(es) + rest
    decreases es
  {
    if es != [] {
      EntriesThenAppend(es[1..], rest);
      Assoc(EncodeEntry(es[0]), EncodeEntries(es[1..]), rest);
    }
  }

  lemma {:induction false} ItemsRoundTrip(items: seq<Value>, rest: seq<byte>, acc: seq<Value>)
    requires ItemsWellFormed(items)
    ensures DecodeItems(ItemsThen(items, rest), |items|, acc) == Ok(Decoded(acc + items, rest))
    decreases items, 2
  {
    if items == [] {
      assert acc + items == acc;
    } else {
      var t := ItemsThen(items[1..], rest);
      assert DecodeItems(ItemsThen(items, rest), |items|, acc) == DecodeItems(t, |items| - 1, acc + [items[0]]) by {
        RoundTrip(items[0], t);
      }
      ItemsRoundTrip(items[1..], rest, acc + [items[0]]);
      assert acc + [items[0]] + items[1..] == acc + items;
    }
  }

  lemma {:induction false} EntriesRoundTrip(es: seq<Entry>, rest: seq<byte>, acc: seq<Entry>)
    requires EntriesWellFormed(es)
    ensures DecodeEntries(EntriesThen(es, rest), |es|, acc) == Ok(Decoded(acc + es, rest))
    decreases es, 2
  {
    if es == [] {
      assert acc + es == acc;
    } else {
      var t := EntriesThen(es[1..], rest);
      assert DecodeEntries(EntriesThen(es, rest), |es|, acc) == DecodeEntries(t, |es| - 1, acc + [es[0]]) by {
        EntryRoundTrip(es[0], t);
      }
      EntriesRoundTrip(es[1..], rest, acc + [es[0]]);
      assert acc + [es[0]] + es[1..] == acc + es;
    }
  }

  /** An entry decodes to itself, what follows it left unread. */
  lemma {:induction false} EntryRoundTrip(e: Entry, rest: seq<byte>)
    requires EntryWellFormed(e)
    ensures DecodeEntry(EncodeEntry(e) + rest) == Ok(Decoded(e, rest))
    decreases e, 1
  {
    var ek, ev := EncodeKey(e.key), Encode(e.value);
    Assoc(ek, ev, rest);
    KeyRoundTrip(e.key, ev + rest);
    RoundTrip(e.value, rest);
  }

  /** A whole settings file: the header with a clear flag, then the root. */
  lemma SettingsRoundTrip(version: nat, decodeVersion: nat -> seq<nat>, v: Value)
    requires version < Pow256(8) && WellFormed(v)
    ensures DecodeSettings(ToLittleEndian(version, 8) + [0] + Encode(v), decodeVersion, Reverse(decodeVersion(version))) == Ok(v)
  {
    var b := ToLittleEndian(version, 8) + [0] + Encode(v);
    assert b[..8] == ToLittleEndian(version, 8);
    LittleEndianRoundTrip(version, 8);
    assert b[9..] == Encode(v) + [];
    RoundTrip(v, []);
  }

  /** A set header flag rejects the file whatever follows. */
  lemma HeaderFlagRejects(b: seq<byte>, decodeVersion: nat -> seq<nat>, expected: seq<nat>)
    requires |b| >= 9 && b[8] != 0
    ensures DecodeSettings(b, decodeVersion, expected) == Err(HeaderRejected)
  {
  }

  // ---------------------------------------------------------------------------
  // Short reads

  /** Fixed-size fields fail on a short buffer: a Bool or Number node cut by
      its last byte is a truncation error. */
  lemma CutFixedFieldFails(v: Value)
    requires (v.Bool? || v.Number?) && WellFormed(v)
    ensures DecodeNode(Encode(v)[..|Encode(v)| - 1]) == Err(Truncated)
  {
  }

  /** A String body is read with read(length), which does not fail on a short
      buffer: a String node cut by its last byte decodes, without error, to the
      string minus that byte. */
  lemma CutStringBodyAccepted(t: seq<byte>)
    requires 0 < |t| < 255
    ensures DecodeNode(Encode(Str(t))[..|Encode(Str(t))| - 1]) == Ok(Decoded(Str(t[..|t| - 1]), []))
  {
    var e := Encode(Str(t));
    assert e == [STRING_TAG, 0, 0, |t| as byte] + t;
    var cut := e[..|e| - 1];
    assert cut[0] == STRING_TAG;
    var p := cut[2..];
    assert p[0] == 0 && p[1] == |t| as byte;
    assert p[1] as nat == |t| && p[1] != LENGTH_ESCAPE;
    var body := p[2..];
    assert body == t[..|t| - 1];
    assert ReadCount(body, |t|) == |body|;
    assert body[..|body|] == body && body[|body|..] == [];
  }

  /** Every node spends a tag byte and an ignored flag byte; after them None
      reads nothing, Bool one byte (any non-zero byte is true), Number eight,
      and a tag outside 0..5 gives None without reading anything more. */
  lemma NodeLayout(tag: byte, flag: byte, p: seq<byte>)
    ensures tag == NONE_TAG || tag > DICT_TAG ==> DecodeNode([tag, flag] + p) == Ok(Decoded(Null, p))
    ensures tag == BOOL_TAG && p != [] ==> DecodeNode([tag, flag] + p) == Ok(Decoded(Bool(p[0] != 0), p[1..]))
    ensures tag == NUMBER_TAG && |p| >= 8 ==> DecodeNode([tag, flag] + p) == Ok(Decoded(Number(p[..8]), p[8..]))
    ensures tag == BOOL_TAG && p == [] ==> DecodeNode([tag, flag] + p) == Err(Truncated)
    ensures tag == NUMBER_TAG && |p| < 8 ==> DecodeNode([tag, flag] + p) == Err(Truncated)
  {
    assert ([tag, flag] + p)[2..] == p;
  }

  // ---------------------------------------------------------------------------
  // The List branch as written

  /** update_module.py reads a List count with struct.unpack("<I", ...) and no
      [0], so range() receives a 1-tuple: a truncated count fails inside
      struct.unpack, any other count fails in range(). p is what follows the
      flag byte. */
  function ListAsWritten(p: seq<byte>): (r: Result<Decoded<Value>>)
    ensures r.Err?
  {
    if |p| < 4 then Err(Truncated) else Err(CountNotInteger)
  }

  /** As written, no List node decodes, not even the empty list, although the
      corrected branch decodes every encoded list. */
  lemma ListAsWrittenRejectsEveryList(items: seq<Value>)
    requires WellFormed(List(items))
    ensures ListAsWritten(Encode(List(items))[2..]) == Err(CountNotInteger)
    ensures DecodeNode(Encode(List(items))) == Ok(Decoded(List(items), []))
  {
    var e := Encode(List(items));
    assert e + [] == e;
    RoundTrip(List(items), []);
  }
}
