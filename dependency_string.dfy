/** A mod's dependency declarations, as update() reads them: every whitespace
    character is removed, then the declaration is matched (re.match, so from
    the start and not necessarily to the end) against

      [^\w?!~]*  ([?!~])?  [^\w?!]*  ([\w-]+)  ([><=]=?)?  ([\d.]+)?

    whose four groups are the flag, the mod name, the operator and the
    version. Parse below is a hand-written matcher that makes the same choices
    as Python's backtracking engine; ParseFindsAMatch and ParseMissesNoMatch
    tie it to the pattern. */
module DependencyString {
  import opened Wrappers

  // ---------------------------------------------------------------------------
  // Whitespace

  /** str.isspace: the characters str.split() with no argument splits on. */
  predicate IsSpace(c: char)
  {
    var n := c as int;
    (9 <= n <= 13) || (28 <= n <= 32) || n == 0x85 || n == 0xA0 || n == 0x1680 ||
    (0x2000 <= n <= 0x200A) || n == 0x2028 || n == 0x2029 || n == 0x202F ||
    n == 0x205F || n == 0x3000
  }

  /** "".join(s.split()): s with every whitespace character removed. */
  function Strip(s: string): (r: string)
    ensures |r| <= |s|
    ensures forall i :: 0 <= i < |r| ==> !IsSpace(r[i])
  {
    if s == [] then []
    else if IsSpace(s[0]) then Strip(s[1..])
    else [s[0]] + Strip(s[1..])
  }

  /** Text without whitespace is left as it is. */
  lemma {:induction false} StripKeepsText(s: string)
    requires forall i :: 0 <= i < |s| ==> !IsSpace(s[i])
    ensures Strip(s) == s
  {
    if s != [] {
      StripKeepsText(s[1..]);
    }
  }

  /** Stripping twice is stripping once. */
  lemma StripIdempotent(s: string)
    ensures Strip(Strip(s)) == Strip(s)
  {
    StripKeepsText(Strip(s));
  }

  /** Stripping a concatenation strips each part. */
  lemma {:induction false} StripAppend(s: string, t: string)
    ensures Strip(s + t) == Strip(s) + Strip(t)
  {
    if s != [] {
      assert (s + t)[0] == s[0] && (s + t)[1..] == s[1..] + t;
      StripAppend(s[1..], t);
      if !IsSpace(s[0]) {
        assert [s[0]] + (Strip(s[1..]) + Strip(t)) == [s[0]] + Strip(s[1..]) + Strip(t);
      }
    } else {
      assert s + t == t;
    }
  }

  // ---------------------------------------------------------------------------
  // Character classes of the pattern (ASCII)

  /** \w */
  predicate IsWord(c: char)
  {
    ('a' <= c <= 'z') || ('A' <= c <= 'Z') || ('0' <= c <= '9') || c == '_'
  }

  /** \d */
  predicate IsDigit(c: char)
  {
    '0' <= c <= '9'
  }

  /** [?!~]: the flag. */
  predicate IsFlag(c: char)
  {
    c == '?' || c == '!' || c == '~'
  }

  /** [^\w?!~]: what may stand before the flag. */
  predicate Lead(c: char)
  {
    !IsWord(c) && !IsFlag(c)
  }

  /** [^\w?!]: what may stand between the flag and the name. */
  predicate Gap(c: char)
  {
    !IsWord(c) && c != '?' && c != '!'
  }

  /** [\w-]: the name. */
  predicate NameChar(c: char)
  {
    IsWord(c) || c == '-'
  }

  /** [><=]: the first character of the operator. */
  predicate OpChar(c: char)
  {
    c == '>' || c == '<' || c == '='
  }

  /** [\d.]: the version. */
  predicate VersionChar(c: char)
  {
    IsDigit(c) || c == '.'
  }

  predicate All(s: string, lo: nat, hi: nat, p: char -> bool)
    requires lo <= hi <= |s|
  {
    forall k :: lo <= k < hi ==> p(s[k])
  }

  /** Where a greedy run of characters satisfying p, started at i, ends. */
  function RunEnd(s: string, i: nat, p: char -> bool): (j: nat)
    requires i <= |s|
    ensures i <= j <= |s| && All(s, i, j, p)
    ensures j == |s| || !p(s[j])
    decreases |s| - i
  {
    if i == |s| || !p(s[i]) then i else RunEnd(s, i + 1, p)
  }

  /** No run of p-characters from i reaches past RunEnd. */
  lemma {:induction false} RunEndIsLongest(s: string, i: nat, j: nat, p: char -> bool)
    requires i <= j <= |s| && All(s, i, j, p)
    ensures j <= RunEnd(s, i, p)
    decreases j - i
  {
    if i < j {
      RunEndIsLongest(s, i + 1, j, p);
    }
  }

  /** The last '-' in s[lo..hi], if any. */
  function LastDash(s: string, lo: nat, hi: nat): (r: Option<nat>)
    requires lo <= hi <= |s|
    ensures r.Some? ==> lo <= r.value < hi && s[r.value] == '-'
    ensures r.Some? ==> forall k :: r.value < k < hi ==> s[k] != '-'
    ensures r.None? ==> forall k :: lo <= k < hi ==> s[k] != '-'
    decreases hi - lo
  {
    if lo == hi then None
    else if s[hi - 1] == '-' then Some(hi - 1)
    else LastDash(s, lo, hi - 1)
  }

  // ---------------------------------------------------------------------------
  // The match

  /** The four groups: m[1] .. m[4]. */
  datatype Declaration = Declaration(flag: Option<char>, name: string, op: Option<string>, version: Option<string>)

  /** The operator group at position i: one of [><=], then '=' if present. */
  function OpEnd(s: string, i: nat): (j: nat)
    requires i <= |s|
    ensures i <= j <= i + 2 && j <= |s|
  {
    if i < |s| && OpChar(s[i]) then
      if i + 1 < |s| && s[i + 1] == '=' then i + 2 else i + 1
    else i
  }

  /** The groups as the pattern cuts them: a name of [\w-] characters, an
      operator of one of [><=] and an optional '=', a version of [\d.]. */
  ghost predicate Shaped(d: Declaration)
  {
    d.name != [] && All(d.name, 0, |d.name|, NameChar) &&
    (d.op.Some? ==> 1 <= |d.op.value| <= 2 && OpChar(d.op.value[0]) && (|d.op.value| == 2 ==> d.op.value[1] == '=')) &&
    (d.version.Some? ==> d.version.value != [] && All(d.version.value, 0, |d.version.value|, VersionChar))
  }

  /** The groups once the name is known to start at n: the name, the
      operator and the version, each as long as it can be. */
  function Groups(s: string, flag: Option<char>, n: nat): (d: Declaration)
    requires n < |s| && NameChar(s[n])
    ensures d.flag == flag && d.name != []
  {
    var ne := RunEnd(s, n, NameChar);
    var oe := OpEnd(s, ne);
    var ve := RunEnd(s, oe, VersionChar);
    Declaration(flag, s[n..ne],
      if oe == ne then None else Some(s[ne..oe]),
      if ve == oe then None else Some(s[oe..ve]))
  }

  /** Each group holds only characters of its class. */
  lemma GroupsShaped(s: string, flag: Option<char>, n: nat)
    requires n < |s| && NameChar(s[n])
    ensures Shaped(Groups(s, flag, n))
  {
    var d := Groups(s, flag, n);
    var ne := RunEnd(s, n, NameChar);
    var oe := OpEnd(s, ne);
    var ve := RunEnd(s, oe, VersionChar);
    assert All(d.name, 0, |d.name|, NameChar) by {
      assert forall k :: 0 <= k < |d.name| ==> d.name[k] == s[n + k];
    }
    if d.version.Some? {
      assert forall k :: 0 <= k < |d.version.value| ==> d.version.value[k] == s[oe + k];
    }
  }

  /** The match Python finds, if any. The leading run of [^\w?!~] is as long
      as possible; a word character after it starts the name. A flag there is
      taken when a name can follow it: a word character after the longest
      gap, or else the last '-' in that gap. Failing both, the leading run
      gives back characters until its last '-', which becomes the name "-". */
  function Parse(s: string): (r: Option<Declaration>)
    ensures r.Some? ==> Shaped(r.value) && (r.value.flag.None? || IsFlag(r.value.flag.value))
  {
    var a := RunEnd(s, 0, Lead);
    if a < |s| && IsWord(s[a]) then
      GroupsShaped(s, None, a);
      Some(Groups(s, None, a))
    else
      var flagged := if a < |s| && IsFlag(s[a]) then AfterFlag(s, a) else None;
      if flagged.Some? then flagged
      else
        match LastDash(s, 0, a)
        case Some(d) =>
          GroupsShaped(s, None, d);
          Some(Groups(s, None, d))
        case None => None
  }

  /** The flag at a is taken; the name follows the longest gap, or is the
      last '-' inside it. */
  function AfterFlag(s: string, a: nat): (r: Option<Declaration>)
    requires a < |s| && IsFlag(s[a])
    ensures r.Some? ==> r.value.flag == Some(s[a]) && Shaped(r.value)
  {
    var e := RunEnd(s, a + 1, Gap);
    if e < |s| && IsWord(s[e]) then
      GroupsShaped(s, Some(s[a]), e);
      Some(Groups(s, Some(s[a]), e))
    else
      match LastDash(s, a + 1, e)
      case Some(d) =>
        GroupsShaped(s, Some(s[a]), d);
        Some(Groups(s, Some(s[a]), d))
      case None => None
  }

  /** The pattern up to the first character of the name: s[..a] is leading
      text, s[a..f] the flag (one character) or nothing, s[f..n] the gap, and
      s[n] can start a name. The rest of the pattern always matches. */
  ghost predicate Fits(s: string, a: nat, f: nat, n: nat)
  {
    a <= f <= n < |s| && All(s, 0, a, Lead) && (f == a || (f == a + 1 && IsFlag(s[a]))) &&
    All(s, f, n, Gap) && NameChar(s[n])
  }

  /** Every result Parse gives is a match of the pattern: its groups are cut
      out of s at boundaries the pattern allows, and the name, operator and
      version are as long as the pattern lets them be. */
  lemma ParseFindsAMatch(s: string)
    requires Parse(s).Some?
    ensures exists a: nat, f: nat, n: nat ::
      (Fits(s, a, f, n) && Parse(s).value == Groups(s, if f == a then None else Some(s[a]), n))
  {
    var a := RunEnd(s, 0, Lead);
    if a < |s| && IsWord(s[a]) {
      assert Fits(s, a, a, a);
    } else if a < |s| && IsFlag(s[a]) && AfterFlag(s, a).Some? {
      var e := RunEnd(s, a + 1, Gap);
      if e < |s| && IsWord(s[e]) {
        assert Fits(s, a, a + 1, e);
      } else {
        var d := LastDash(s, a + 1, e).value;
        assert Fits(s, a, a + 1, d);
      }
    } else {
      var d := LastDash(s, 0, a).value;
      assert Fits(s, d, d, d);
    }
  }

  /** Parse fails only when the pattern cannot match at all: in Python,
      re.match returns None and the subscript m[1] raises. */
  lemma ParseMissesNoMatch(s: string, a': nat, f': nat, n': nat)
    requires Fits(s, a', f', n')
    ensures Parse(s).Some?
  {
    var a := RunEnd(s, 0, Lead);
    RunEndIsLongest(s, 0, a', Lead);
    if a < |s| && IsWord(s[a]) {
    } else if f' == a' + 1 {
      // The flag cannot sit inside the leading run, so it is s[a].
      assert a' == a;
      var e := RunEnd(s, a + 1, Gap);
      RunEndIsLongest(s, a + 1, n', Gap);
      if n' < e {
        assert s[n'] == '-';
      }
    } else if n' < a {
      assert s[n'] == '-';
    } else {
      // The gap runs through s[a], which is neither leading text nor a word
      // character: it is a '~' flag, and the name start lies after it.
      assert a < n' && s[a] == '~';
      var e := RunEnd(s, a + 1, Gap);
      RunEndIsLongest(s, a + 1, n', Gap);
      if s[n'] == '-' {
        assert n' < e;
      }
    }
  }

  /** The optional flag group is greedy: when a flag follows the leading text
      and a name can follow that flag, the match takes the flag, even where
      leaving it out would also match. */
  lemma FlagTaken(s: string, n: nat)
    requires RunEnd(s, 0, Lead) < |s| && IsFlag(s[RunEnd(s, 0, Lead)])
    requires Fits(s, RunEnd(s, 0, Lead), RunEnd(s, 0, Lead) + 1, n)
    ensures Parse(s).Some? && Parse(s).value.flag == Some(s[RunEnd(s, 0, Lead)])
  {
    var a := RunEnd(s, 0, Lead);
    NameAfterFlag(s, a, n);
    assert !IsWord(s[a]);
  }

  /** A flag followed by a gap and a character that can start a name is
      always matched together with a name. */
  lemma NameAfterFlag(s: string, a: nat, n: nat)
    requires a < n < |s| && IsFlag(s[a]) && All(s, a + 1, n, Gap) && NameChar(s[n])
    ensures AfterFlag(s, a).Some?
  {
    var e := RunEnd(s, a + 1, Gap);
    RunEndIsLongest(s, a + 1, n, Gap);
    if n < e {
      assert s[n] == '-';
    }
  }

  /** When a word character ends the leading text, no way of matching starts
      the name later than that character. */
  lemma LatestWhenWord(s: string, a': nat, f': nat, n': nat)
    requires Fits(s, a', f', n')
    requires RunEnd(s, 0, Lead) < |s| && IsWord(s[RunEnd(s, 0, Lead)])
    ensures n' <= RunEnd(s, 0, Lead)
  {
    var a := RunEnd(s, 0, Lead);
    // A later start would put s[a] in the flag or the gap, and a word
    // character can be in neither.
    RunEndIsLongest(s, 0, a', Lead);
  }

  /** When a flag ends the leading text, every way of matching starts the
      name inside or at the end of the gap after that flag, and a start
      inside the gap (past the flag) is a '-'. */
  lemma LatestWhenFlag(s: string, a': nat, f': nat, n': nat)
    requires Fits(s, a', f', n')
    requires RunEnd(s, 0, Lead) < |s| && IsFlag(s[RunEnd(s, 0, Lead)])
    ensures n' <= RunEnd(s, RunEnd(s, 0, Lead) + 1, Gap)
    ensures RunEnd(s, 0, Lead) < n' < RunEnd(s, RunEnd(s, 0, Lead) + 1, Gap) ==> s[n'] == '-'
    ensures n' == RunEnd(s, RunEnd(s, 0, Lead) + 1, Gap) ==> IsWord(s[n'])
  {
    var a := RunEnd(s, 0, Lead);
    RunEndIsLongest(s, 0, a', Lead);
    if a < n' {
      assert All(s, a + 1, n', Gap);
      RunEndIsLongest(s, a + 1, n', Gap);
    }
  }

  /** When neither a word nor a flag with a name after it ends the leading
      text, every way of matching starts the name at a '-' inside the leading
      text. */
  lemma LatestWhenDash(s: string, a': nat, f': nat, n': nat)
    requires Fits(s, a', f', n')
    requires !(RunEnd(s, 0, Lead) < |s| && IsWord(s[RunEnd(s, 0, Lead)]))
    requires !(RunEnd(s, 0, Lead) < |s| && IsFlag(s[RunEnd(s, 0, Lead)]) &&
               AfterFlag(s, RunEnd(s, 0, Lead)).Some?)
    ensures n' < RunEnd(s, 0, Lead) && s[n'] == '-'
  {
    var a := RunEnd(s, 0, Lead);
    RunEndIsLongest(s, 0, a', Lead);
    if a < n' {
      // s[a] is then a flag with a name after it, which Parse would take.
      assert IsFlag(s[a]) && All(s, a + 1, n', Gap);
      FlagTaken(s, n');
    }
  }

  /** Among all the ways the pattern can match, Parse's result starts the
      name as late as possible: like Python's backtracking engine, it gives
      back from the greedy leading text and gap only as much as the name
      needs, so "-foo" gives the name "foo" and not "-foo". */
  lemma ParseTakesLatestStart(s: string, a': nat, f': nat, n': nat)
    requires Fits(s, a', f', n')
    ensures Parse(s).Some?
    ensures exists a: nat, f: nat, n: nat ::
      (Fits(s, a, f, n) && Parse(s).value == Groups(s, if f == a then None else Some(s[a]), n) && n' <= n)
  {
    ParseMissesNoMatch(s, a', f', n');
    var a := RunEnd(s, 0, Lead);
    if a < |s| && IsWord(s[a]) {
      LatestWhenWord(s, a', f', n');
      assert Fits(s, a, a, a);
    } else if a < |s| && IsFlag(s[a]) && AfterFlag(s, a).Some? {
      LatestWhenFlag(s, a', f', n');
      var e := RunEnd(s, a + 1, Gap);
      if e < |s| && IsWord(s[e]) {
        assert Fits(s, a, a + 1, e);
      } else {
        var d := LastDash(s, a + 1, e).value;
        assert n' <= d;
        assert Fits(s, a, a + 1, d);
      }
    } else {
      LatestWhenDash(s, a', f', n');
      var d := LastDash(s, 0, a).value;
      assert Fits(s, d, d, d);
    }
  }

  // ---------------------------------------------------------------------------
  // Declarations written the usual way

  /** A declaration as mods write it: an optional flag, a name that starts
      with a word character, then an operator and a version, or neither. */
  ghost predicate Canonical(d: Declaration)
  {
    (d.flag.None? || IsFlag(d.flag.value)) &&
    d.name != [] && IsWord(d.name[0]) && All(d.name, 0, |d.name|, NameChar) &&
    d.op.Some? == d.version.Some? &&
    (d.op.Some? ==> d.op.value in ["==", ">=", "<=", ">", "<", "="]) &&
    (d.version.Some? ==> d.version.value != [] && All(d.version.value, 0, |d.version.value|, VersionChar))
  }

  function FlagText(d: Declaration): string
  {
    if d.flag.Some? then [d.flag.value] else []
  }

  function OpText(d: Declaration): string
  {
    if d.op.Some? then d.op.value else []
  }

  function VersionText(d: Declaration): string
  {
    if d.version.Some? then d.version.value else []
  }

  /** The text after the flag: name, operator, version. */
  function Tail(d: Declaration): string
  {
    d.name + OpText(d) + VersionText(d)
  }

  function Render(d: Declaration): string
  {
    FlagText(d) + Tail(d)
  }

  /** A run of p-characters stopped by a character outside p ends there. */
  lemma RunEndAt(s: string, i: nat, j: nat, p: char -> bool)
    requires i <= j <= |s| && All(s, i, j, p) && (j == |s| || !p(s[j]))
    ensures RunEnd(s, i, p) == j
  {
    RunEndIsLongest(s, i, j, p);
  }

  /** A usual declaration's name, operator and version, read from where its
      name starts. */
  lemma TailGroups(s: string, n: nat, d: Declaration)
    requires Canonical(d) && n <= |s| && s[n..] == d.name + OpText(d) + VersionText(d)
    ensures n < |s| && NameChar(s[n]) && Groups(s, d.flag, n) == d
  {
    CanonicalParts(d);
    TailGroupsOf(s, n, d.flag, d.name, OpText(d), VersionText(d));
  }

  /** What a usual declaration's parts are made of. */
  lemma CanonicalParts(d: Declaration)
    requires Canonical(d)
    ensures d.name != [] && IsWord(d.name[0]) && All(d.name, 0, |d.name|, NameChar)
    ensures OpText(d) == [] || OpText(d) in ["==", ">=", "<=", ">", "<", "="]
    ensures OpText(d) == [] <==> VersionText(d) == []
    ensures All(VersionText(d), 0, |VersionText(d)|, VersionChar)
    ensures d.op == (if OpText(d) == [] then None else Some(OpText(d)))
    ensures d.version == (if VersionText(d) == [] then None else Some(VersionText(d)))
  {
  }

  /** The groups read from n, where a name, an operator and a version are
      written one after the other. */
  lemma TailGroupsOf(s: string, n: nat, flag: Option<char>, name: string, op: string, version: string)
    requires name != [] && IsWord(name[0]) && All(name, 0, |name|, NameChar)
    requires op == [] || op in ["==", ">=", "<=", ">", "<", "="]
    requires op == [] <==> version == []
    requires All(version, 0, |version|, VersionChar)
    requires n <= |s| && s[n..] == name + op + version
    ensures n < |s| && NameChar(s[n])
    ensures Groups(s, flag, n) ==
      Declaration(flag, name, if op == [] then None else Some(op), if version == [] then None else Some(version))
  {
    var ne := n + |name|;
    var oe := ne + |op|;
    SliceParts(s, n, name, op, version);
    assert s[n] == name[0];
    if ne < |s| {
      assert s[ne] == s[ne..oe][0] == op[0];
    }
    RunOf(s, n, name, NameChar);
    if version != [] {
      assert VersionChar(version[0]);
    }
    OpRun(s, ne, op, version);
    RunOf(s, oe, version, VersionChar);
    GroupsAt(s, flag, n, ne, oe, |s|);
    assert s[oe..|s|] == s[oe..];
  }

  /** Groups, given where the three runs end. */
  lemma GroupsAt(s: string, flag: Option<char>, n: nat, ne: nat, oe: nat, ve: nat)
    requires n < |s| && NameChar(s[n])
    requires RunEnd(s, n, NameChar) == ne && OpEnd(s, ne) == oe && RunEnd(s, oe, VersionChar) == ve
    ensures n <= ne <= oe <= ve <= |s|
    ensures Groups(s, flag, n) ==
      Declaration(flag, s[n..ne], if oe == ne then None else Some(s[ne..oe]), if ve == oe then None else Some(s[oe..ve]))
  {
  }

  /** The three parts of a text that is a + b + c from n on. */
  lemma SliceParts(s: string, n: nat, a: string, b: string, c: string)
    requires n <= |s| && s[n..] == a + b + c
    ensures n + |a| + |b| + |c| == |s|
    ensures s[n..n + |a|] == a && s[n + |a|..n + |a| + |b|] == b && s[n + |a| + |b|..] == c
  {
    assert s[n..][..|a|] == a;
    assert s[n..][|a|..|a| + |b|] == b;
    assert s[n..][|a| + |b|..] == c;
  }

  /** A run of p-characters that is exactly t, stopped after it, ends there. */
  lemma RunOf(s: string, i: nat, t: string, p: char -> bool)
    requires i + |t| <= |s| && s[i..i + |t|] == t && All(t, 0, |t|, p)
    requires i + |t| == |s| || !p(s[i + |t|])
    ensures RunEnd(s, i, p) == i + |t|
  {
    forall k | i <= k < i + |t| ensures p(s[k]) {
      assert s[k] == t[k - i];
    }
    RunEndAt(s, i, i + |t|, p);
  }

  /** The operator group is exactly a usual operator followed by a version. */
  lemma OpRun(s: string, i: nat, op: string, version: string)
    requires op == [] || op in ["==", ">=", "<=", ">", "<", "="]
    requires op != [] ==> version != [] && !OpChar(version[0])
    requires op == [] ==> version == []
    requires i + |op| + |version| == |s| && s[i..i + |op|] == op && s[i + |op|..] == version
    ensures OpEnd(s, i) == i + |op|
  {
    if op != [] {
      assert s[i] == op[0];
      if |op| == 2 {
        assert s[i + 1] == op[1];
      } else {
        assert s[i + 1] == version[0];
      }
    }
  }

  /** Parsing gives back a declaration written the usual way. */
  lemma RenderRoundTrip(d: Declaration)
    requires Canonical(d)
    ensures Parse(Render(d)) == Some(d)
  {
    var s := Render(d);
    var fl := |FlagText(d)|;
    DropPrefix(FlagText(d), Tail(d));
    TailGroups(s, fl, d);
    if d.flag.Some? {
      assert s[0] == d.flag.value;
      ParseFlagged(s);
    } else {
      ParseUnflagged(s);
    }
  }

  lemma DropPrefix(a: string, b: string)
    ensures (a + b)[|a|..] == b
  {
  }

  /** Text that starts with a word character is matched from there. */
  lemma ParseUnflagged(s: string)
    requires |s| > 0 && IsWord(s[0])
    ensures Parse(s) == Some(Groups(s, None, 0))
  {
    assert RunEnd(s, 0, Lead) == 0;
  }

  /** A flag followed by a word character is taken, and the name starts
      right after it. */
  lemma ParseFlagged(s: string)
    requires |s| > 1 && IsFlag(s[0]) && IsWord(s[1])
    ensures Parse(s) == Some(Groups(s, Some(s[0]), 1))
  {
    assert RunEnd(s, 0, Lead) == 0;
    assert RunEnd(s, 1, Gap) == 1;
  }

  /** Such text has no whitespace for the stripping step to remove. */
  lemma RenderHasNoSpace(d: Declaration)
    requires Canonical(d)
    ensures Strip(Render(d)) == Render(d)
  {
    assert NoSpace(FlagText(d)) by {
      if d.flag.Some? {
        assert FlagText(d)[0] == d.flag.value;
      }
    }
    assert NoSpace(d.name) by {
      forall i | 0 <= i < |d.name| ensures !IsSpace(d.name[i]) {
        assert NameChar(d.name[i]);
      }
    }
    assert NoSpace(OpText(d)) by {
      forall i | 0 <= i < |OpText(d)| ensures !IsSpace(OpText(d)[i]) {
        assert OpChar(OpText(d)[i]);
      }
    }
    assert NoSpace(VersionText(d)) by {
      forall i | 0 <= i < |VersionText(d)| ensures !IsSpace(VersionText(d)[i]) {
        assert VersionChar(VersionText(d)[i]);
      }
    }
    ConcatNoSpace(d.name, OpText(d));
    ConcatNoSpace(d.name + OpText(d), VersionText(d));
    ConcatNoSpace(FlagText(d), Tail(d));
    StripKeepsText(Render(d));
  }

  ghost predicate NoSpace(s: string)
  {
    forall i :: 0 <= i < |s| ==> !IsSpace(s[i])
  }

  lemma ConcatNoSpace(a: string, b: string)
    requires NoSpace(a) && NoSpace(b)
    ensures NoSpace(a + b)
  {
    forall i | 0 <= i < |a + b| ensures !IsSpace((a + b)[i]) {
      if i >= |a| {
        assert (a + b)[i] == b[i - |a|];
      }
    }
  }
}
