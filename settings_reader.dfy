/** get_mod_settings as the Python code runs it: get_string and get_data
    advance one shared byte stream, read by read(n), and the List and
    Dictionary branches are loops. Each method is proved to compute exactly
    what the decoder functions of PropertyTree describe, and to leave the
    stream just after what it decoded. */
module SettingsReader {
  import opened Bytes
  import opened PropertyTree
  import opened Wrappers

  /** An in-memory binary stream: the file's bytes and the cursor. */
  class ByteStream {
    var bytes: seq<byte>
    var pos: nat

    ghost predicate Valid()
      reads this
    {
      pos <= |bytes|
    }

    /** The bytes not yet read. */
    ghost function Rest(): seq<byte>
      reads this
      requires Valid()
    {
      bytes[pos..]
    }

    constructor (contents: seq<byte>)
      ensures Valid() && bytes == contents && pos == 0
    {
      bytes := contents;
      pos := 0;
    }

    /** read(n): up to n bytes; fewer, without error, at the end of the stream. */
    method Read(n: nat) returns (data: seq<byte>)
      requires Valid()
      modifies this
      ensures Valid() && bytes == old(bytes)
      ensures data == old(Rest())[..ReadCount(old(Rest()), n)]
      ensures Rest() == old(Rest())[ReadCount(old(Rest()), n)..]
      ensures pos == old(pos) + |data|
    {
      var k := ReadCount(bytes[pos..], n);
      data := bytes[pos .. pos + k];
      pos := pos + k;
    }
  }

  /** The method's outcome r, with the stream left at rest, is the one the
      decoder function describes: the same error, or the same value with the
      same bytes left unread. */
  ghost predicate Agrees<T>(d: Result<Decoded<T>>, r: Result<T>, rest: seq<byte>)
  {
    match d
    case Err(e) => r == Err(e)
    case Ok(Decoded(v, q)) => r == Ok(v) && rest == q
  }

  /** get_string on the stream. */
  method GetString(st: ByteStream) returns (r: Result<Key>)
    requires st.Valid()
    modifies st
    ensures st.Valid() && st.bytes == old(st.bytes) && old(st.pos) <= st.pos
    ensures Agrees(DecodeString(old(st.Rest())), r, st.Rest())
    ensures r.Ok? ==> old(st.pos) < st.pos
  {
    ghost var s := st.Rest();
    var absent := st.Read(1);
    if |absent| < 1 {
      return Err(Truncated);
    }
    if absent[0] != 0 {
      return Ok(None);
    }
    var short := st.Read(1);
    if |short| < 1 {
      return Err(Truncated);
    }
    var length := short[0] as nat;
    if short[0] == LENGTH_ESCAPE {
      var long := st.Read(4);
      if |long| < 4 {
        return Err(Truncated);
      }
      assert long == s[2..6];
      length := LittleEndian(long);
    }
    ghost var before := st.Rest();
    var body := st.Read(length);
    assert StringBody(before, length) == Ok(Decoded(Some(body), st.Rest()));
    return Ok(Some(body));
  }

  /** get_data on the stream: the tag, the ignored flag, then the payload. */
  method GetData(st: ByteStream) returns (r: Result<Value>)
    requires st.Valid()
    modifies st
    ensures st.Valid() && st.bytes == old(st.bytes) && old(st.pos) <= st.pos
    ensures Agrees(DecodeNode(old(st.Rest())), r, st.Rest())
    decreases |st.bytes| - st.pos, 1
  {
    ghost var s := st.Rest();
    var tagBytes := st.Read(1);
    if |tagBytes| < 1 {
      return Err(Truncated);
    }
    var tag := tagBytes[0];
    var _ := st.Read(1);
    assert st.Rest() == s[ReadCount(s, 2)..];
    ghost var p := st.Rest();
    if tag == NONE_TAG {
      r := Ok(Null);
    } else if tag == BOOL_TAG {
      var d := st.Read(1);
      if |d| < 1 {
        return Err(Truncated);
      }
      r := Ok(Bool(d[0] != 0));
    } else if tag == NUMBER_TAG {
      var d := st.Read(8);
      if |d| < 8 {
        return Err(Truncated);
      }
      r := Ok(Number(d));
    } else if tag == STRING_TAG {
      var k := GetString(st);
      match k
      case Err(e) => r := Err(e);
      case Ok(key) => r := Ok(if key.None? then Null else Str(key.value));
    } else if tag == LIST_TAG {
      r := GetList(st);
    } else if tag == DICT_TAG {
      r := GetDict(st);
    } else {
      r := Ok(Null);
    }
    assert DecodeNode(s) == DecodePayload(tag, p);
  }

  /** The List branch with its count read as an integer: that many nodes,
      appended in order. */
  method GetList(st: ByteStream) returns (r: Result<Value>)
    requires st.Valid()
    modifies st
    ensures st.Valid() && st.bytes == old(st.bytes) && old(st.pos) <= st.pos
    ensures Agrees(DecodeList(old(st.Rest())), r, st.Rest())
    decreases |st.bytes| - st.pos, 2
  {
    ghost var s := st.Rest();
    ghost var pos0 := st.pos;
    var count := st.Read(4);
    if |count| < 4 {
      return Err(Truncated);
    }
    var n := LittleEndian(count);
    ghost var p := st.Rest();
    var out: seq<Value> := [];
    var i := 0;
    while i < n
      invariant 0 <= i <= n && |out| == i
      invariant st.Valid() && st.bytes == old(st.bytes) && pos0 + 4 <= st.pos
      invariant DecodeItems(p, n, []) == DecodeItems(st.Rest(), n - i, out)
    {
      var v := GetData(st);
      if v.Err? {
        return Err(v.error);
      }
      out := out + [v.value];
      i := i + 1;
    }
    return Ok(List(out));
  }

  /** The Dictionary branch: a count, then the entries, each stored with
      out[name] = value. */
  method GetDict(st: ByteStream) returns (r: Result<Value>)
    requires st.Valid()
    modifies st
    ensures st.Valid() && st.bytes == old(st.bytes) && old(st.pos) <= st.pos
    ensures Agrees(DecodeDict(old(st.Rest())), r, st.Rest())
    decreases |st.bytes| - st.pos, 4
  {
    ghost var s := st.Rest();
    var count := st.Read(4);
    if |count| < 4 {
      return Err(Truncated);
    }
    assert st.Rest() == s[4..] && count == s[..4];
    var entries, out := GetEntries(st, LittleEndian(count));
    if entries.Err? {
      return Err(entries.error);
    }
    return Ok(Dict(out));
  }

  /** That many (get_string, get_data) pairs, in the order read, and the
      dictionary out they fill. */
  method GetEntries(st: ByteStream, n: nat) returns (r: Result<seq<Entry>>, out: seq<Entry>)
    requires st.Valid()
    modifies st
    ensures st.Valid() && st.bytes == old(st.bytes) && old(st.pos) <= st.pos
    ensures Agrees(DecodeEntries(old(st.Rest()), n, []), r, st.Rest())
    ensures r.Ok? ==> out == Collect(r.value)
    decreases |st.bytes| - st.pos, 3
  {
    ghost var p := st.Rest();
    ghost var pos0 := st.pos;
    var pairs: seq<Entry> := [];
    out := [];
    var i := 0;
    while i < n
      invariant 0 <= i <= n && |pairs| == i
      invariant st.Valid() && st.bytes == old(st.bytes) && pos0 <= st.pos
      invariant DecodeEntries(p, n, []) == DecodeEntries(st.Rest(), n - i, pairs)
      invariant out == Collect(pairs)
    {
      var entry;
      entry, out := ReadAndStore(st, p, n, i, pairs, out);
      if entry.Err? {
        return Err(entry.error), out;
      }
      pairs := pairs + [entry.value];
      i := i + 1;
    }
    r := Ok(pairs);
  }

  /** One pass of the Dictionary loop: a pair is read and stored into out.
      p is what the loop started from, n its count, and pairs the i pairs
      read so far. */
  method ReadAndStore(st: ByteStream, ghost p: seq<byte>, n: nat, i: nat, pairs: seq<Entry>, out: seq<Entry>)
    returns (entry: Result<Entry>, stored: seq<Entry>)
    requires st.Valid() && i < n
    requires DecodeEntries(p, n, []) == DecodeEntries(st.Rest(), n - i, pairs)
    requires out == Collect(pairs)
    modifies st
    ensures st.Valid() && st.bytes == old(st.bytes) && old(st.pos) <= st.pos
    ensures entry.Err? ==> DecodeEntries(p, n, []) == Err(entry.error)
    ensures entry.Ok? ==> DecodeEntries(p, n, []) == DecodeEntries(st.Rest(), n - (i + 1), pairs + [entry.value])
    ensures entry.Ok? ==> stored == Collect(pairs + [entry.value])
    decreases |st.bytes| - st.pos, 2, 1
  {
    ghost var here := st.Rest();
    entry := GetEntry(st);
    if entry.Err? {
      EntriesFail(here, n - i, pairs);
      return entry, out;
    }
    EntriesStep(p, n, i, pairs, out, here, entry.value, st.Rest());
    stored := Insert(out, entry.value.key, entry.value.value);
  }

  /** One pass of the Dictionary loop keeps both of its invariants. */
  lemma EntriesStep(p: seq<byte>, n: nat, i: nat, pairs: seq<Entry>, out: seq<Entry>, here: seq<byte>, e: Entry, q: seq<byte>)
    requires i < n && DecodeEntry(here) == Ok(Decoded(e, q))
    requires DecodeEntries(p, n, []) == DecodeEntries(here, n - i, pairs)
    requires out == Collect(pairs)
    ensures DecodeEntries(p, n, []) == DecodeEntries(q, n - (i + 1), pairs + [e])
    ensures Insert(out, e.key, e.value) == Collect(pairs + [e])
  {
    EntriesNext(here, n - i, pairs, e, q);
    CollectAppend(pairs, e);
  }

  /** The Dictionary loop after one more entry. */
  lemma EntriesNext(s: seq<byte>, k: nat, acc: seq<Entry>, e: Entry, q: seq<byte>)
    requires k > 0 && DecodeEntry(s) == Ok(Decoded(e, q))
    ensures DecodeEntries(s, k, acc) == DecodeEntries(q, k - 1, acc + [e])
  {
  }

  /** The Dictionary loop stops at the first entry that fails. */
  lemma EntriesFail(s: seq<byte>, k: nat, acc: seq<Entry>)
    requires k > 0 && DecodeEntry(s).Err?
    ensures DecodeEntries(s, k, acc) == Err(DecodeEntry(s).error)
  {
  }

  /** Storing one more pair is one more insertion. */
  lemma CollectAppend(pairs: seq<Entry>, e: Entry)
    ensures Collect(pairs + [e]) == Insert(Collect(pairs), e.key, e.value)
  {
    assert (pairs + [e])[..|pairs|] == pairs;
  }

  /** One pair: get_string for the name, then get_data for the value. */
  method GetEntry(st: ByteStream) returns (r: Result<Entry>)
    requires st.Valid()
    modifies st
    ensures st.Valid() && st.bytes == old(st.bytes) && old(st.pos) <= st.pos
    ensures Agrees(DecodeEntry(old(st.Rest())), r, st.Rest())
    decreases |st.bytes| - st.pos, 2, 0
  {
    var name := GetString(st);
    if name.Err? {
      return Err(name.error);
    }
    var value := GetData(st);
    if value.Err? {
      return Err(value.error);
    }
    return Ok(Entry(name.value, value.value));
  }

  /** get_mod_settings on an opened file: the header, its check, then the
      root node. decodeVersion stands for decode_version and expected for the
      running Factorio version, neither of which is part of this model. */
  method GetModSettings(st: ByteStream, decodeVersion: nat -> seq<nat>, expected: seq<nat>) returns (r: Result<Value>)
    requires st.Valid() && st.pos == 0
    modifies st
    ensures r == DecodeSettings(old(st.bytes), decodeVersion, expected)
  {
    ghost var b := st.bytes;
    var versionBytes := st.Read(8);
    if |versionBytes| < 8 {
      return Err(Truncated);
    }
    var version := decodeVersion(LittleEndian(versionBytes));
    var flag := st.Read(1);
    if |flag| < 1 {
      return Err(Truncated);
    }
    if Reverse(version) != expected || flag[0] != 0 {
      return Err(HeaderRejected);
    }
    assert st.Rest() == b[9..];
    var root := GetData(st);
    match root
    case Err(e) => r := Err(e);
    case Ok(v) => r := Ok(v);
  }
}
