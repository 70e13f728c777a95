/** python_require: the Lua side asks for a module by name, and the search
    imitates Lua's package.path inside a zipped mod. */
module ModuleSearch {
  import opened Bytes

  /** str.split(sep) with a one-character separator: the pieces between
      separators, empty pieces included, so k separators give k + 1 pieces. */
  function Split(s: string, sep: char): (r: seq<string>)
    ensures |r| >= 1 && forall p :: p in r ==> sep !in p
  {
    if s == [] then [""]
    else
      var tail := Split(s[1..], sep);
      if s[0] == sep then [""] + tail
      else [[s[0]] + tail[0]] + tail[1..]
  }

  /** sep.join(pieces) */
  function Join(pieces: seq<string>, sep: char): string
    requires |pieces| >= 1
  {
    if |pieces| == 1 then pieces[0] else pieces[0] + [sep] + Join(pieces[1..], sep)
  }

  /** Splitting loses nothing: joining the pieces gives the path back. */
  lemma {:induction false} SplitJoin(s: string, sep: char)
    ensures Join(Split(s, sep), sep) == s
  {
    if s != [] {
      SplitJoin(s[1..], sep);
      var tail := Split(s[1..], sep);
      if s[0] != sep {
        if |tail| > 1 {
          assert ([[s[0]] + tail[0]] + tail[1..])[1..] == tail[1..];
          assert Join(tail, sep) == tail[0] + [sep] + Join(tail[1..], sep);
        }
      } else {
        assert ([""] + tail)[1..] == tail;
      }
    }
  }

  /** And the pieces come back: separator-free pieces split apart again. */
  lemma {:induction false} JoinSplit(pieces: seq<string>, sep: char)
    requires |pieces| >= 1 && forall p :: p in pieces ==> sep !in p
    ensures Split(Join(pieces, sep), sep) == pieces
  {
    if |pieces| == 1 {
      PieceSplit(pieces[0], [], sep);
      assert pieces[0] + [] == pieces[0];
      assert Split([], sep) == [""];
      assert [pieces[0] + ""] + [""][1..] == pieces;
    } else {
      var rest := Join(pieces[1..], sep);
      JoinSplit(pieces[1..], sep);
      assert pieces[0] + [sep] + rest == pieces[0] + ([sep] + rest);
      PieceSplit(pieces[0], [sep] + rest, sep);
      assert ([sep] + rest)[1..] == rest;
      assert Split([sep] + rest, sep) == [""] + pieces[1..];
      assert ([""] + pieces[1..])[1..] == pieces[1..];
      assert pieces[0] + "" == pieces[0];
      assert [pieces[0]] + pieces[1..] == pieces;
    }
  }

  /** Splitting a separator-free piece followed by t extends t's first piece. */
  lemma {:induction false} PieceSplit(p: string, t: string, sep: char)
    requires sep !in p
    ensures Split(p + t, sep) == [p + Split(t, sep)[0]] + Split(t, sep)[1..]
  {
    var r := Split(t, sep);
    if p != [] {
      assert (p + t)[1..] == p[1..] + t;
      assert (p + t)[0] == p[0] != sep;
      PieceSplit(p[1..], t, sep);
      var tail := Split(p[1..] + t, sep);
      assert tail[0] == p[1..] + r[0];
      assert tail[1..] == r[1..];
      assert [p[0]] + (p[1..] + r[0]) == p + r[0];
    } else {
      assert p + t == t;
      assert p + r[0] == r[0];
      assert [r[0]] + r[1..] == r;
    }
  }

  /** str.replace(pattern, replacement): every occurrence, scanning left to
      right, without overlap. */
  function Replace(s: string, pattern: string, replacement: string): (r: string)
    requires pattern != []
    ensures replacement == pattern ==> r == s
    ensures |replacement| <= |pattern| ==> |r| <= |s|
    decreases |s|
  {
    if |s| < |pattern| then s
    else if s[..|pattern|] == pattern then replacement + Replace(s[|pattern|..], pattern, replacement)
    else [s[0]] + Replace(s[1..], pattern, replacement)
  }

  /** For a one-character pattern, the same thing character by character. */
  function ReplaceChar(s: string, c: char, replacement: string): string
  {
    if s == [] then [] else (if s[0] == c then replacement else [s[0]]) + ReplaceChar(s[1..], c, replacement)
  }

  lemma {:induction false} ReplaceOneChar(s: string, c: char, replacement: string)
    ensures Replace(s, [c], replacement) == ReplaceChar(s, c, replacement)
  {
    if s != [] {
      ReplaceOneChar(s[1..], c, replacement);
      assert s[..1] == [s[0]];
    }
  }

  predicate OccursAt(s: string, pattern: string, i: nat)
  {
    i + |pattern| <= |s| && s[i..i + |pattern|] == pattern
  }

  /** A string without the pattern is left as it is. */
  lemma {:induction false} ReplaceAbsent(s: string, pattern: string, replacement: string)
    requires pattern != []
    requires forall i: nat :: !OccursAt(s, pattern, i)
    ensures Replace(s, pattern, replacement) == s
  {
    if |s| >= |pattern| {
      assert !OccursAt(s, pattern, 0);
      forall i: nat ensures !OccursAt(s[1..], pattern, i) {
        if i + |pattern| <= |s[1..]| {
          assert s[1..][i..i + |pattern|] == s[i + 1..i + 1 + |pattern|];
          assert !OccursAt(s, pattern, i + 1);
        }
      }
      ReplaceAbsent(s[1..], pattern, replacement);
    }
  }

  /** Every placeholder is filled: after the "?" replacement no "?" is left,
      unless the module name brings one. */
  lemma {:induction false} PlaceholderFilled(s: string, name: string)
    requires '?' !in name
    ensures '?' !in Replace(s, "?", name)
  {
    ReplaceOneChar(s, '?', name);
    NoCharLeft(s, '?', name);
  }

  lemma {:induction false} NoCharLeft(s: string, c: char, replacement: string)
    requires c !in replacement
    ensures c !in ReplaceChar(s, c, replacement)
  {
    if s != [] {
      NoCharLeft(s[1..], c, replacement);
    }
  }

  // ---------------------------------------------------------------------------
  // The search

  /** What python_require uses of a Mod; files stands for files.read, which
      succeeds exactly on the paths it holds. */
  datatype ModFiles = ModFiles(name: string, archive: bool, files: map<string, seq<byte>>)

  /** The values python_require hands back to Lua. */
  datatype Answer =
    | NotArchive                 // bare return: nil in Lua
    | Found(content: seq<byte>)  // the file's contents
    | NotFound(message: string)  // the tuple (None, message)

  /** The raw module first, then each entry of the search path. */
  function SearchList(packagePath: string): seq<string>
  {
    ["?.lua"] + Split(packagePath, ';')
  }

  /** A search path entry made into a path inside the archive. */
  function Candidate(mod: ModFiles, moduleName: string, entry: string): string
  {
    Replace(Replace(entry, "?", moduleName), "./factorio-mods/" + mod.name, mod.name)
  }

  function NotFoundMessage(moduleName: string, modName: string): string
  {
    "no file '" + moduleName + "' found in '" + modName + "' archive"
  }

  /** python_require: a mod that is not an archive answers nothing; otherwise
      the first candidate the archive holds is read, and when none is held the
      answer is the error tuple. */
  method PythonRequire(mod: ModFiles, moduleName: string, packagePath: string) returns (answer: Answer)
    ensures !mod.archive ==> answer == NotArchive
    ensures mod.archive ==> answer != NotArchive
    ensures answer.Found? ==>
      var entries := SearchList(packagePath);
      exists i :: 0 <= i < |entries| && Candidate(mod, moduleName, entries[i]) in mod.files &&
        answer.content == mod.files[Candidate(mod, moduleName, entries[i])] &&
        forall j :: 0 <= j < i ==> Candidate(mod, moduleName, entries[j]) !in mod.files
    ensures answer.NotFound? ==>
      answer.message == NotFoundMessage(moduleName, mod.name) &&
      forall e :: e in SearchList(packagePath) ==> Candidate(mod, moduleName, e) !in mod.files
  {
    if !mod.archive {
      return NotArchive;
    }
    var entries := SearchList(packagePath);
    var i := 0;
    while i < |entries|
      invariant 0 <= i <= |entries|
      invariant forall j :: 0 <= j < i ==> Candidate(mod, moduleName, entries[j]) !in mod.files
    {
      var path := Replace(entries[i], "?", moduleName);
      path := Replace(path, "./factorio-mods/" + mod.name, mod.name);
      if path in mod.files {
        return Found(mod.files[path]);
      }
      i := i + 1;
    }
    return NotFound(NotFoundMessage(moduleName, mod.name));
  }
}
