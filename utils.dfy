/**
 * Utility functions of the linter (j2lint/utils.py): the file-type check, `flatten`,
 * `get_tuple`, `delimit_jinja_statement`, the three delimiter scanners behind
 * `get_jinja_statements`, `get_jinja_comments` and `get_jinja_variables`, and the
 * in-comment `j2lint: disable = NAME` switch read by `is_rule_disabled`.
 * Regular expressions are written out as explicit left-to-right scanners.
 */
module Utils {
  import opened Wrappers
  import opened Strings

  const LanguageJinja := "jinja"
  const JinjaExtensions := [".jinja", ".jinja2", ".j2"]

  // ---------------------------------------------------------------------------
  // File types

  /** Index of the last occurrence of `c` in `s`, or -1 (Python's `str.rfind`). */
  function RFind(s: string, c: char): (i: int)
    ensures -1 <= i < |s|
    ensures i >= 0 ==> s[i] == c
    ensures forall k :: i < k < |s| ==> s[k] != c
  {
    if s == [] then -1
    else if s[|s| - 1] == c then |s| - 1
    else RFind(s[..|s| - 1], c)
  }

  /**
   * The last path component of `path` has a character other than `.` with a
   * dot somewhere after it: then, and only then, `splitext` finds an extension.
   */
  predicate HasExtension(path: string)
  {
    exists k, j :: 0 <= k < j < |path| && path[k] != '.' && path[j] == '.' && '/' !in path[k..]
  }

  /** The last path component of `stem` has a character other than `.`. */
  predicate NamedStem(stem: string)
  {
    exists k :: 0 <= k < |stem| && stem[k] != '.' && '/' !in stem[k..]
  }

  /**
   * `os.path.splitext` on a POSIX path: the extension runs from the last dot of
   * the last path component, unless that component has only dots before it.
   */
  function SplitExt(path: string): (parts: (string, string))
    ensures parts.0 + parts.1 == path
    ensures parts.1 == [] || (parts.1[0] == '.' && '/' !in parts.1 && '.' !in parts.1[1..])
    ensures parts.1 != [] <==> HasExtension(path)
    ensures parts.1 != [] ==> NamedStem(parts.0)
  {
    var sepIndex := RFind(path, '/');
    var dotIndex := RFind(path, '.');
    if dotIndex > sepIndex && exists k :: sepIndex + 1 <= k < dotIndex && path[k] != '.' then
      var k :| sepIndex + 1 <= k < dotIndex && path[k] != '.';
      assert path[..dotIndex] + path[dotIndex..] == path;
      assert '/' !in path[k..] && path[..dotIndex][k] == path[k];
      assert path[..dotIndex][k..] == path[k..dotIndex];
      (path[..dotIndex], path[dotIndex..])
    else
      assert path + [] == path;
      NoExtension(path, sepIndex, dotIndex);
      (path, [])
  }

  /** When the last component has no dot after a character other than a dot, `HasExtension` fails. */
  lemma NoExtension(path: string, sepIndex: int, dotIndex: int)
    requires sepIndex == RFind(path, '/') && dotIndex == RFind(path, '.')
    requires !(dotIndex > sepIndex && exists k :: sepIndex + 1 <= k < dotIndex && path[k] != '.')
    ensures !HasExtension(path)
  {
    forall k, j | 0 <= k < j < |path| && path[k] != '.' && path[j] == '.'
      ensures '/' in path[k..]
    {
      assert j <= dotIndex;
      if sepIndex >= k {
        assert path[k..][sepIndex - k] == '/';
      }
    }
  }

  /** `is_valid_file_type`: the lower-cased extension is one of the Jinja extensions. */
  predicate IsValidFileType(fileName: string)
  {
    Lower(SplitExt(fileName).1) in JinjaExtensions
  }

  /** `get_file_type`: "jinja" for a Jinja file, `None` for anything else. */
  function GetFileType(fileName: string): (kind: Option<string>)
    ensures kind == Some(LanguageJinja) <==> IsValidFileType(fileName)
    ensures kind.None? <==> !IsValidFileType(fileName)
  {
    if IsValidFileType(fileName) then Some(LanguageJinja) else None
  }

  /**
   * A name ending in a Jinja extension, in any letter case, is a Jinja file
   * exactly when the last path component of what precedes the extension has
   * a character other than a dot.
   */
  lemma JinjaNameIsValid(stem: string, ext: string)
    requires Lower(ext) in JinjaExtensions
    ensures IsValidFileType(stem + ext) <==> NamedStem(stem)
    ensures GetFileType(stem + ext) == Some(LanguageJinja) <==> NamedStem(stem)
  {
    if NamedStem(stem) {
      NamedStemIsValid(stem, ext);
    }
    if IsValidFileType(stem + ext) {
      ValidStemIsNamed(stem, ext);
    }
  }

  lemma NamedStemIsValid(stem: string, ext: string)
    requires Lower(ext) in JinjaExtensions && NamedStem(stem)
    ensures SplitExt(stem + ext) == (stem, ext)
  {
    ExtensionShape(ext);
    var path := stem + ext;
    var k :| 0 <= k < |stem| && stem[k] != '.' && '/' !in stem[k..];
    forall j | k <= j < |path| ensures path[j] != '/' {
      if j >= |stem| {
        assert path[j] == ext[j - |stem|];
      } else {
        assert path[j] == stem[k..][j - k];
      }
    }
    assert path[k] == stem[k] && path[|stem|] == '.';
    assert HasExtension(path);
    LastDot(stem, ext);
    var parts := SplitExt(path);
    ExtensionAtLastDot(path, |stem|, parts.0, parts.1);
  }

  lemma ValidStemIsNamed(stem: string, ext: string)
    requires Lower(ext) in JinjaExtensions && IsValidFileType(stem + ext)
    ensures NamedStem(stem)
  {
    ExtensionShape(ext);
    var path := stem + ext;
    var parts := SplitExt(path);
    assert parts.1 != [] by { assert Lower([]) == []; }
    LastDot(stem, ext);
    ExtensionAtLastDot(path, |stem|, parts.0, parts.1);
  }

  /** The dot that starts a Jinja extension is the last dot of the name. */
  lemma LastDot(stem: string, ext: string)
    requires |ext| >= 3 && ext[0] == '.' && forall k :: 0 < k < |ext| ==> ext[k] != '.'
    ensures (stem + ext)[|stem|] == '.' && forall j :: |stem| < j < |stem + ext| ==> (stem + ext)[j] != '.'
  {
    forall j | |stem| < j < |stem + ext| ensures (stem + ext)[j] != '.' {
      assert (stem + ext)[j] == ext[j - |stem|];
    }
  }

  /** An extension found by `splitext` starts at the last dot of the path. */
  lemma ExtensionAtLastDot(path: string, d: nat, root: string, ext: string)
    requires d < |path| && path[d] == '.' && forall j :: d < j < |path| ==> path[j] != '.'
    requires root + ext == path && ext != [] && ext[0] == '.' && '.' !in ext[1..]
    ensures root == path[..d] && ext == path[d..]
  {
    var e := |root|;
    assert path[e] == '.';
    forall t | e < t < |path|
      ensures path[t] != '.'
    {
      assert path[t] == ext[1..][t - e - 1];
    }
    assert root == path[..e] && ext == path[e..];
  }

  /**
   * The converse: a Jinja file's name is a stem whose last component has a
   * character other than a dot, followed by a Jinja extension in some letter case.
   */
  lemma ValidNameShape(path: string)
    requires IsValidFileType(path)
    ensures exists n :: 0 <= n <= |path| && Lower(path[n..]) in JinjaExtensions && NamedStem(path[..n])
  {
    var parts := SplitExt(path);
    assert parts.1 != [] by { assert Lower([]) == []; }
    var n := |parts.0|;
    assert path[n..] == parts.1 && path[..n] == parts.0;
  }

  /** Every character of a Jinja extension after the leading dot is a letter or digit. */
  lemma ExtensionShape(ext: string)
    requires Lower(ext) in JinjaExtensions
    ensures |ext| >= 3 && ext[0] == '.'
    ensures forall k :: 0 < k < |ext| ==> ext[k] != '.' && ext[k] != '/'
  {
    var low := Lower(ext);
    JinjaExtensionsAlnum(low);
    LowerCharKeeps(ext[0], low[0]);
    forall k | 0 < k < |ext| ensures ext[k] != '.' && ext[k] != '/' {
      assert 'a' <= low[k] <= 'z' || '0' <= low[k] <= '9';
      LowerCharKeeps(ext[k], low[k]);
    }
  }

  lemma JinjaExtensionsAlnum(low: string)
    requires low in JinjaExtensions
    ensures IsAlnumTail(low)
  {
    if low == ".jinja" {
    } else if low == ".jinja2" {
    } else {
      assert low == ".j2";
    }
  }

  lemma LowerCharKeeps(c: char, d: char)
    requires d == LowerChar(c)
    ensures d == '.' <==> c == '.'
    ensures d != '/' ==> c != '/'
  {
  }

  /** The string is a dot followed by lower-case letters and digits. */
  predicate IsAlnumTail(s: string)
  {
    |s| >= 3 && s[0] == '.' && forall k :: 0 < k < |s| ==> ('a' <= s[k] <= 'z' || '0' <= s[k] <= '9')
  }

  /** A dot-file such as `dir/.j2` has no extension, so it is not a Jinja file. */
  lemma DotFileIsNotJinja(dir: string)
    ensures !IsValidFileType(dir + "/.j2")
  {
    var stem := dir + "/";
    assert stem + ".j2" == dir + "/.j2";
    forall k | 0 <= k < |stem|
      ensures '/' in stem[k..]
    {
      assert stem[k..][|stem| - 1 - k] == '/';
    }
    assert Lower(".j2") == ".j2";
    JinjaNameIsValid(stem, ".j2");
  }

  // ---------------------------------------------------------------------------
  // flatten

  /** A value that is either a leaf or an iterable of further values (strings are leaves). */
  datatype Nested<T> = Leaf(value: T) | Group(items: seq<Nested<T>>)

  /** `flatten`: the leaves of a nested list, depth first and left to right. */
  function Flatten<T>(xs: seq<Nested<T>>): seq<T>
    decreases xs
  {
    if xs == [] then []
    else
      (match xs[0]
       case Leaf(v) => [v]
       case Group(ys) => Flatten(ys))
      + Flatten(xs[1..])
  }

  function Concat<T>(xss: seq<seq<T>>): seq<T>
  {
    if xss == [] then [] else xss[0] + Concat(xss[1..])
  }

  function Leaves<T>(xs: seq<T>): (ns: seq<Nested<T>>)
    ensures |ns| == |xs| && forall k :: 0 <= k < |xs| ==> ns[k] == Leaf(xs[k])
  {
    seq(|xs|, k requires 0 <= k < |xs| => Leaf(xs[k]))
  }

  function Groups<T>(xss: seq<seq<T>>): (ns: seq<Nested<T>>)
    ensures |ns| == |xss| && forall k :: 0 <= k < |xss| ==> ns[k] == Group(Leaves(xss[k]))
  {
    seq(|xss|, k requires 0 <= k < |xss| => Group(Leaves(xss[k])))
  }

  lemma {:induction false} FlattenLeaves<T>(xs: seq<T>)
    ensures Flatten(Leaves(xs)) == xs
  {
    if xs != [] {
      assert Leaves(xs)[1..] == Leaves(xs[1..]);
      FlattenLeaves(xs[1..]);
    }
  }

  lemma {:induction false} FlattenGroups<T>(xss: seq<seq<T>>)
    ensures Flatten(Groups(xss)) == Concat(xss)
  {
    if xss != [] {
      assert Groups(xss)[1..] == Groups(xss[1..]);
      FlattenLeaves(xss[0]);
      FlattenGroups(xss[1..]);
    }
  }

  /**
   * Flattening a list that holds one list of tuples (the shape used to build the
   * middle-tag list) gives the tuples' elements, tuple after tuple.
   */
  lemma FlattenTwoLevels<T>(xss: seq<seq<T>>)
    ensures Flatten([Group(Groups(xss))]) == Concat(xss)
  {
    FlattenGroups(xss);
    assert [Group(Groups(xss))][1..] == [];
  }

  lemma {:induction false} InConcat<T>(xss: seq<seq<T>>, x: T)
    ensures x in Concat(xss) <==> exists k :: 0 <= k < |xss| && x in xss[k]
  {
    if xss != [] {
      InConcat(xss[1..], x);
      if x in Concat(xss[1..]) {
        var k :| 0 <= k < |xss[1..]| && x in xss[1..][k];
        assert x in xss[k + 1];
      }
      if exists k :: 0 <= k < |xss| && x in xss[k] {
        var k :| 0 <= k < |xss| && x in xss[k];
        if k > 0 { assert x in xss[1..][k - 1]; }
      }
    }
  }

  // ---------------------------------------------------------------------------
  // get_tuple

  /** The first tuple, in list order, that contains `item`; `None` if no tuple does. */
  function FirstContaining<T(==)>(tuples: seq<seq<T>>, item: T): (r: Option<seq<T>>)
    ensures r.None? <==> forall k :: 0 <= k < |tuples| ==> item !in tuples[k]
    ensures r.Some? ==>
              && item in r.value
              && exists k :: 0 <= k < |tuples| && tuples[k] == r.value && forall j :: 0 <= j < k ==> item !in tuples[j]
  {
    if tuples == [] then None
    else if item in tuples[0] then Some(tuples[0])
    else
      var r := FirstContaining(tuples[1..], item);
      assert forall k :: 1 <= k < |tuples| ==> tuples[k] == tuples[1..][k - 1];
      if r.Some? then
        var k :| 0 <= k < |tuples[1..]| && tuples[1..][k] == r.value && forall j :: 0 <= j < k ==> item !in tuples[1..][j];
        assert tuples[k + 1] == r.value;
        r
      else r
  }

  /** `get_tuple`: scans the tuples in order and returns the first one holding `item`. */
  method GetTuple<T(==)>(tuples: seq<seq<T>>, item: T) returns (r: Option<seq<T>>)
    ensures r == FirstContaining(tuples, item)
  {
    var i := 0;
    while i < |tuples|
      invariant 0 <= i <= |tuples|
      invariant FirstContaining(tuples, item) == FirstContaining(tuples[i..], item)
    {
      if item in tuples[i] {
        return Some(tuples[i]);
      }
      assert tuples[i..][1..] == tuples[i + 1..];
      i := i + 1;
    }
    return None;
  }

  // ---------------------------------------------------------------------------
  // delimit_jinja_statement

  const DefaultStart := "{%"
  const DefaultEnd := "%}"

  /**
   * `delimit_jinja_statement`: the statement text wrapped in its delimiters.
   * A single concatenation is its own specification; the ensures name the three parts.
   */
  function DelimitJinjaStatement(line: string, start: string, end: string): (s: string)
    ensures |s| == |start| + |line| + |end|
    ensures s[..|start|] == start && s[|start|..|start| + |line|] == line && s[|start| + |line|..] == end
  {
    start + line + end
  }

  /** With the default delimiters the text is wrapped in `{%` and `%}`. */
  lemma DelimitDefaults(line: string)
    ensures DelimitJinjaStatement(line, DefaultStart, DefaultEnd) == "{%" + line + "%}"
    ensures StartsWith(DelimitJinjaStatement(line, DefaultStart, DefaultEnd), "{%")
  {
  }

  // ---------------------------------------------------------------------------
  // Delimiter scanners (the regular expressions of get_jinja_statements,
  // get_jinja_comments and get_jinja_variables)

  /**
   * A delimiter pattern `(OPEN[MODIFIERS]?)((.|\n)*?)([-]?CLOSE)`: an opening
   * marker, at most one modifier character, the shortest body, and a closing
   * marker that may be preceded by `-` when `trimClose` holds.
   */
  datatype Pattern = Pattern(open: string, modifiers: seq<char>, close: string, trimClose: bool)

  /** `(\{%[-|+]?)((.|\n)*?)([-]?\%})` */
  const StatementPattern := Pattern("{%", ['-', '|', '+'], "%}", true)
  /** `(\{#)((.|\n)*?)(\#})` */
  const CommentPattern := Pattern("{#", [], "#}", false)
  /** `(\{{)((.|\n)*?)(\}})` */
  const VariablePattern := Pattern("{{", [], "}}", false)

  /** Both markers are non-empty and no modifier can be the first character of a closing marker. */
  predicate ValidPattern(p: Pattern)
  {
    |p.open| > 0 && |p.close| > 0 && forall c :: c in p.modifiers ==> c != p.close[0]
  }

  predicate OccursAt(text: string, s: string, i: nat)
  {
    i + |s| <= |text| && text[i..i + |s|] == s
  }

  /** `s` occurs somewhere in `text`. */
  predicate Contains(text: string, s: string)
  {
    exists i: nat | i <= |text| :: OccursAt(text, s, i)
  }

  /** Length of the closing marker that starts at `q` (the `[-]?` is greedy), 0 when none does. */
  function CloseLen(p: Pattern, text: string, q: nat): (n: nat)
    ensures n > 0 ==> q + n <= |text|
  {
    if p.trimClose && OccursAt(text, "-" + p.close, q) then |p.close| + 1
    else if OccursAt(text, p.close, q) then |p.close|
    else 0
  }

  /** The first position at or after `b` where a closing marker starts (what the lazy body stops at). */
  function FindClose(p: Pattern, text: string, b: nat): (r: Option<nat>)
    requires |p.close| > 0
    ensures r.Some? ==> b <= r.value < |text| && CloseLen(p, text, r.value) > 0
    ensures forall q :: b <= q < (if r.Some? then r.value else |text|) ==> CloseLen(p, text, q) == 0
    decreases |text| - b
  {
    if b >= |text| then None
    else if CloseLen(p, text, b) > 0 then Some(b)
    else FindClose(p, text, b + 1)
  }

  /** Length of the opening delimiter at `s`: the marker plus a modifier when one follows (`?` is greedy). */
  function OpenLen(p: Pattern, text: string, s: nat): nat
    requires OccursAt(text, p.open, s)
  {
    if s + |p.open| < |text| && text[s + |p.open|] in p.modifiers then |p.open| + 1 else |p.open|
  }

  /** One match: group 1 is `[start, bodyStart)`, group 2 `[bodyStart, bodyEnd)`, the closing group `[bodyEnd, end)`. */
  datatype Span = Span(start: nat, bodyStart: nat, bodyEnd: nat, end: nat)

  /** `m` is a match of `p` in `text`: delimiters in place and the body as short as possible. */
  predicate IsMatch(p: Pattern, text: string, m: Span)
  {
    && m.start <= m.bodyStart <= m.bodyEnd < m.end <= |text|
    && OccursAt(text, p.open, m.start)
    && (|| m.bodyStart == m.start + |p.open|
        || (m.bodyStart == m.start + |p.open| + 1 && text[m.start + |p.open|] in p.modifiers))
    && CloseLen(p, text, m.bodyEnd) == m.end - m.bodyEnd
    && forall q :: m.bodyStart <= q < m.bodyEnd ==> CloseLen(p, text, q) == 0
  }

  /**
   * The match the regular expression finds when it tries position `s`: the
   * greedy opening delimiter first and, when no closing marker follows, the
   * delimiter without its modifier (backtracking).
   */
  function MatchAt(p: Pattern, text: string, s: nat): (m: Option<Span>)
    requires ValidPattern(p)
    ensures m.Some? ==> IsMatch(p, text, m.value) && m.value.start == s
  {
    if !OccursAt(text, p.open, s) then None
    else
      var ol := OpenLen(p, text, s);
      match FindClose(p, text, s + ol)
      case Some(q) => Some(Span(s, s + ol, q, q + CloseLen(p, text, q)))
      case None =>
        if ol > |p.open| then
          match FindClose(p, text, s + |p.open|)
          case Some(q) => Some(Span(s, s + |p.open|, q, q + CloseLen(p, text, q)))
          case None => None
        else None
  }

  /**
   * `finditer`: the matches in left-to-right order, each search resuming where
   * the previous match ended.
   */
  function Spans(p: Pattern, text: string, from: nat): (r: seq<Span>)
    requires ValidPattern(p)
    ensures forall k :: 0 <= k < |r| ==> IsMatch(p, text, r[k]) && from <= r[k].start
    ensures forall i, j :: 0 <= i < j < |r| ==> r[i].end <= r[j].start
    decreases |text| - from
  {
    if from >= |text| then []
    else
      match MatchAt(p, text, from)
      case Some(m) => [m] + Spans(p, text, m.end)
      case None => Spans(p, text, from + 1)
  }

  /** When the regular expression fails at `s`, no match of the pattern starts at `s`. */
  lemma NoMatchAt(p: Pattern, text: string, s: nat)
    requires ValidPattern(p) && MatchAt(p, text, s).None?
    ensures forall m: Span :: m.start == s ==> !IsMatch(p, text, m)
  {
  }

  /**
   * `finditer` misses no match: a position that no found match covers starts
   * no match at all.
   */
  lemma {:induction false} SpansComplete(p: Pattern, text: string, from: nat, q: nat)
    requires ValidPattern(p) && from <= q < |text|
    requires forall k :: 0 <= k < |Spans(p, text, from)| ==> !(Spans(p, text, from)[k].start <= q < Spans(p, text, from)[k].end)
    ensures MatchAt(p, text, q).None?
    ensures forall m: Span :: m.start == q ==> !IsMatch(p, text, m)
    decreases |text| - from
  {
    var r := Spans(p, text, from);
    match MatchAt(p, text, from) {
      case Some(m) =>
        assert r[0] == m;
        var rest := Spans(p, text, m.end);
        assert forall k :: 0 <= k < |rest| ==> rest[k] == r[k + 1];
        SpansComplete(p, text, m.end, q);
      case None =>
        if q > from {
          SpansComplete(p, text, from + 1, q);
        }
    }
    NoMatchAt(p, text, q);
  }

  /**
   * Backtracking never pays: when no closing marker follows the greedy opening
   * delimiter, none follows the shorter one either, so every match keeps its
   * modifier character in group 1.
   */
  lemma GreedyOpening(p: Pattern, text: string, s: nat)
    requires ValidPattern(p) && OccursAt(text, p.open, s)
    ensures MatchAt(p, text, s).Some? ==> MatchAt(p, text, s).value.bodyStart == s + OpenLen(p, text, s)
    ensures MatchAt(p, text, s).Some? <==> FindClose(p, text, s + OpenLen(p, text, s)).Some?
  {
    var ol := OpenLen(p, text, s);
    var b := s + |p.open|;
    if ol > |p.open| && FindClose(p, text, s + ol).None? {
      ModifierStartsNoClose(p, text, b);
      assert FindClose(p, text, b) == FindClose(p, text, b + 1);
    }
  }

  /** When a closing marker follows the greedy opening delimiter, the match is made of the two. */
  lemma GreedyMatch(p: Pattern, text: string, s: nat, q: nat)
    requires ValidPattern(p) && OccursAt(text, p.open, s) && FindClose(p, text, s + OpenLen(p, text, s)) == Some(q)
    ensures MatchAt(p, text, s) == Some(Span(s, s + OpenLen(p, text, s), q, q + CloseLen(p, text, q)))
  {
    var ol := OpenLen(p, text, s);
    assert FindClose(p, text, s + ol) == Some(q);
  }

  /** A closing marker cannot start on a modifier character unless another one starts right after it. */
  lemma ModifierStartsNoClose(p: Pattern, text: string, b: nat)
    requires ValidPattern(p) && b < |text| && text[b] in p.modifiers
    requires b + 1 < |text| ==> CloseLen(p, text, b + 1) == 0
    ensures CloseLen(p, text, b) == 0
  {
    if p.trimClose && OccursAt(text, "-" + p.close, b) {
      var c := p.close;
      assert text[b + 1..b + 1 + |c|] == text[b..b + 1 + |c|][1..] == ("-" + c)[1..] == c;
      assert OccursAt(text, c, b + 1);
    }
  }

  /** `finditer`'s internal search for the closing marker: a position-by-position scan. */
  method FindCloseScan(p: Pattern, text: string, b: nat) returns (r: Option<nat>)
    requires |p.close| > 0 && b <= |text|
    ensures r == FindClose(p, text, b)
  {
    var q := b;
    while q < |text|
      invariant b <= q <= |text|
      invariant FindClose(p, text, q) == FindClose(p, text, b)
    {
      if CloseLen(p, text, q) > 0 {
        return Some(q);
      }
      q := q + 1;
    }
    return None;
  }

  /** Tries to match at position `s`. */
  method MatchFrom(p: Pattern, text: string, s: nat) returns (m: Option<Span>)
    requires ValidPattern(p) && s <= |text|
    ensures m == MatchAt(p, text, s)
  {
    if OccursAt(text, p.open, s) {
      m := MatchAfterOpen(p, text, s);
    } else {
      m := None;
    }
  }

  /** Matches at `s`, where an opening marker starts, taking the greedy opening delimiter. */
  method MatchAfterOpen(p: Pattern, text: string, s: nat) returns (m: Option<Span>)
    requires ValidPattern(p) && OccursAt(text, p.open, s)
    ensures m == MatchAt(p, text, s)
  {
    var ol := OpenLen(p, text, s);
    var close := FindCloseScan(p, text, s + ol);
    if close.Some? {
      var q := close.value;
      GreedyMatch(p, text, s, q);
      m := Some(Span(s, s + ol, q, q + CloseLen(p, text, q)));
    } else {
      GreedyOpening(p, text, s);
      m := None;
    }
  }

  /** All matches of `p` in `text`, left to right, without overlap. */
  method ScanSpans(p: Pattern, text: string) returns (spans: seq<Span>)
    requires ValidPattern(p)
    ensures spans == Spans(p, text, 0)
  {
    spans := [];
    var pos := 0;
    while pos < |text|
      invariant pos <= |text|
      invariant spans + Spans(p, text, pos) == Spans(p, text, 0)
      decreases |text| - pos
    {
      var m := MatchFrom(p, text, pos);
      if m.Some? {
        assert Spans(p, text, pos) == [m.value] + Spans(p, text, m.value.end);
        spans := spans + [m.value];
        pos := m.value.end;
      } else {
        pos := pos + 1;
      }
    }
  }

  /** A match's body never contains its closing marker: the body is the shortest one. */
  lemma BodyHasNoClose(p: Pattern, text: string, m: Span)
    requires ValidPattern(p) && IsMatch(p, text, m)
    ensures !Contains(text[m.bodyStart..m.bodyEnd], p.close)
  {
    var body := text[m.bodyStart..m.bodyEnd];
    forall i: nat | i <= |body| ensures !OccursAt(body, p.close, i) {
      if i + |p.close| <= |body| {
        var q := m.bodyStart + i;
        assert CloseLen(p, text, q) == 0;
        assert !OccursAt(text, p.close, q);
        SliceOfSlice(text, m.bodyStart, m.bodyEnd, i, i + |p.close|);
      }
    }
  }

  // ---------------------------------------------------------------------------
  // get_jinja_statements

  /** The 5-tuple `(body, start_line, end_line, start_delimiter, end_delimiter)`. */
  datatype RawStatement = RawStatement(body: string, startLine: nat, endLine: nat, startDelimiter: string, endDelimiter: string)

  /** The tokens a statement line must start with in indentation mode. */
  const StartDelimiters := ["{%", "{%-", "{%+"]

  /** 1 plus the number of newlines before `pos`: the 1-based line holding position `pos`. */
  function LineAt(text: string, pos: nat): (line: nat)
    requires pos <= |text|
    ensures 1 <= line <= CountChar(text, '\n') + 1
  {
    CountCharAppend(text[..pos], text[pos..], '\n');
    assert text[..pos] + text[pos..] == text;
    CountChar(text[..pos], '\n') + 1
  }

  /** The four positions of `m` are in order and inside `text`. */
  predicate Within(text: string, m: Span)
  {
    m.start <= m.bodyStart <= m.bodyEnd <= m.end <= |text|
  }

  lemma MatchesWithin(text: string, spans: seq<Span>)
    requires forall k :: 0 <= k < |spans| ==> IsMatch(StatementPattern, text, spans[k])
    ensures forall k :: 0 <= k < |spans| ==> Within(text, spans[k])
  {
  }

  /** The tuple reported for one match. */
  function ToRaw(text: string, m: Span): RawStatement
    requires Within(text, m)
  {
    RawStatement(text[m.bodyStart..m.bodyEnd], LineAt(text, m.bodyStart), LineAt(text, m.bodyEnd),
                 text[m.start..m.bodyStart], text[m.bodyEnd..m.end])
  }

  /** The first whitespace-separated token of line `n` (1-based) of `text` is a start delimiter. */
  predicate OnOwnLine(text: string, n: nat)
    requires 1 <= n <= CountChar(text, '\n') + 1
  {
    var words := Words(SplitOn(text, '\n')[n - 1]);
    |words| > 0 && words[0] in StartDelimiters
  }

  /** The line a statement starts on always holds a word (its `{`), so `split()[0]` cannot fail. */
  lemma StartLineHasWords(text: string, m: Span)
    requires IsMatch(StatementPattern, text, m)
    ensures |Words(SplitOn(text, '\n')[LineAt(text, m.bodyStart) - 1])| > 0
  {
    OpeningOnOneLine(text, m);
    StartLineOfOpening(text, m);
    SplitPieceHolds(text, '\n', m.start);
    WordsNonEmpty(SplitOn(text, '\n')[CountChar(text[..m.start], '\n')], text[m.start]);
  }

  /** A statement's body starts on the line of its opening delimiter. */
  lemma StartLineOfOpening(text: string, m: Span)
    requires m.start <= m.bodyStart <= |text| && '\n' !in text[m.start..m.bodyStart]
    ensures LineAt(text, m.bodyStart) == CountChar(text[..m.start], '\n') + 1
  {
    CountCharAppend(text[..m.start], text[m.start..m.bodyStart], '\n');
    assert text[..m.start] + text[m.start..m.bodyStart] == text[..m.bodyStart];
  }

  /** The opening delimiter of a statement starts with `{` and holds no newline. */
  lemma OpeningOnOneLine(text: string, m: Span)
    requires IsMatch(StatementPattern, text, m)
    ensures text[m.start] == '{' && '\n' !in text[m.start..m.bodyStart]
  {
    OpeningShape(text, m);
    var opening := text[m.start..m.bodyStart];
    assert text[m.start] == opening[0];
  }

  /** Whether the statement matched by `m` is reported: always, or in indentation mode when it starts its line. */
  predicate Kept(text: string, m: Span, indentation: bool)
    requires Within(text, m)
  {
    !indentation || OnOwnLine(text, LineAt(text, m.bodyStart))
  }

  /** The tuples one match contributes: its own, or none when `Kept` drops it. */
  function Reported(text: string, m: Span, indentation: bool): (rs: seq<RawStatement>)
    requires Within(text, m)
    ensures rs == [] || rs == [ToRaw(text, m)]
  {
    if Kept(text, m, indentation) then [ToRaw(text, m)] else []
  }

  /** The statements of `spans`, in order, that `Kept` lets through. */
  function Collect(text: string, spans: seq<Span>, indentation: bool): seq<RawStatement>
    requires forall k :: 0 <= k < |spans| ==> Within(text, spans[k])
  {
    if spans == [] then []
    else Reported(text, spans[0], indentation) + Collect(text, spans[1..], indentation)
  }

  /** Collecting from a further match adds its tuples after those collected so far. */
  lemma CollectCons(text: string, spans: seq<Span>, indentation: bool, done: seq<RawStatement>)
    requires spans != [] && forall k :: 0 <= k < |spans| ==> Within(text, spans[k])
    ensures done + Collect(text, spans, indentation)
         == (done + Reported(text, spans[0], indentation)) + Collect(text, spans[1..], indentation)
  {
  }

  /** What `get_jinja_statements(text, indentation)` returns. */
  function JinjaStatements(text: string, indentation: bool): seq<RawStatement>
  {
    var spans := Spans(StatementPattern, text, 0);
    MatchesWithin(text, spans);
    Collect(text, spans, indentation)
  }

  /**
   * One pass of the loop of `get_jinja_statements`: the tuple of match `m`,
   * or none when, in indentation mode, the first word of its start line (read
   * from `lines`) is not a start delimiter. `StartLineHasWords` shows that
   * this line is never blank, so taking its first word cannot fail.
   */
  method StatementOf(text: string, lines: seq<string>, m: Span, indentation: bool) returns (reported: seq<RawStatement>)
    requires Within(text, m)
    requires lines == SplitOn(text, '\n')
    ensures reported == Reported(text, m, indentation)
  {
    if indentation {
      var startLine := CountChar(text[..m.bodyStart], '\n') + 1;
      assert startLine == LineAt(text, m.bodyStart);
      var words := Words(lines[startLine - 1]);
      if !(|words| > 0 && words[0] in StartDelimiters) {
        return [];
      }
    }
    return [ToRaw(text, m)];
  }

  /**
   * `get_jinja_statements`: one tuple per match of the statement pattern, in
   * source order, each with 1-based start and end lines; in indentation mode
   * only the statements whose line starts with `{%`, `{%-` or `{%+` are kept.
   */
  method GetJinjaStatements(text: string, indentation: bool) returns (statements: seq<RawStatement>)
    ensures statements == JinjaStatements(text, indentation)
  {
    var spans := ScanSpans(StatementPattern, text);
    var lines := SplitOn(text, '\n');
    MatchesWithin(text, spans);
    statements := CollectStatements(text, lines, spans, indentation);
  }

  /** The loop of `get_jinja_statements` over the matches found in `text`. */
  method CollectStatements(text: string, lines: seq<string>, spans: seq<Span>, indentation: bool)
    returns (statements: seq<RawStatement>)
    requires lines == SplitOn(text, '\n')
    requires forall k :: 0 <= k < |spans| ==> Within(text, spans[k])
    ensures statements == Collect(text, spans, indentation)
  {
    statements := [];
    var rest := spans;
    while rest != []
      invariant forall k :: 0 <= k < |rest| ==> Within(text, rest[k])
      invariant statements + Collect(text, rest, indentation) == Collect(text, spans, indentation)
      decreases |rest|
    {
      var reported := StatementOf(text, lines, rest[0], indentation);
      CollectCons(text, rest, indentation, statements);
      statements := statements + reported;
      rest := rest[1..];
    }
    assert statements + [] == statements;
  }

  /** Positions further into the text lie on the same line or a later one. */
  lemma {:induction false} LineAtMonotone(text: string, a: nat, b: nat)
    requires a <= b <= |text|
    ensures LineAt(text, a) <= LineAt(text, b)
  {
    CountCharAppend(text[..a], text[a..b], '\n');
    assert text[..a] + text[a..b] == text[..b];
  }

  /** The opening delimiter of a statement match is `{%`, `{%-`, `{%|` or `{%+`. */
  lemma OpeningShape(text: string, m: Span)
    requires IsMatch(StatementPattern, text, m)
    ensures text[m.start..m.bodyStart] in {"{%", "{%-", "{%|", "{%+"}
  {
    assert text[m.start..m.start + 2] == "{%";
    if m.bodyStart != m.start + 2 {
      var c := text[m.start + 2];
      assert text[m.start..m.bodyStart] == "{%" + [c];
      if c == '-' {
        assert "{%" + [c] == "{%-";
      } else if c == '|' {
        assert "{%" + [c] == "{%|";
      } else {
        assert "{%" + [c] == "{%+";
      }
    }
  }

  /** The closing delimiter of a statement match is `%}` or `-%}`. */
  lemma ClosingShape(text: string, m: Span)
    requires IsMatch(StatementPattern, text, m)
    ensures text[m.bodyEnd..m.end] in {"%}", "-%}"}
  {
    if OccursAt(text, "-" + "%}", m.bodyEnd) {
      assert text[m.bodyEnd..m.end] == "-%}";
    } else {
      assert text[m.bodyEnd..m.end] == "%}";
    }
  }

  /** The line numbers of a match differ by the number of newlines in its body. */
  lemma LineSpan(text: string, a: nat, b: nat)
    requires a <= b <= |text|
    ensures LineAt(text, b) - LineAt(text, a) == CountChar(text[a..b], '\n')
  {
    CountCharAppend(text[..a], text[a..b], '\n');
    assert text[..a] + text[a..b] == text[..b];
  }

  /**
   * Every reported tuple has an opening delimiter among `{%`, `{%-`, `{%|`,
   * `{%+`, a closing delimiter `%}` or `-%}`, a body holding no `%}`, and
   * 1-based line numbers that differ by the number of newlines in the body.
   */
  lemma RawShape(text: string, m: Span)
    requires IsMatch(StatementPattern, text, m)
    ensures var r := ToRaw(text, m);
      && r.startDelimiter in {"{%", "{%-", "{%|", "{%+"}
      && r.endDelimiter in {"%}", "-%}"}
      && !Contains(r.body, "%}")
      && 1 <= r.startLine <= r.endLine
      && r.endLine - r.startLine == CountChar(r.body, '\n')
  {
    BodyHasNoClose(StatementPattern, text, m);
    OpeningShape(text, m);
    ClosingShape(text, m);
    LineSpan(text, m.bodyStart, m.bodyEnd);
  }

  /** Every tuple of `Collect` is the tuple of one of the spans, `spans[k]`. */
  lemma {:induction false} CollectFrom(text: string, spans: seq<Span>, indentation: bool, j: nat) returns (k: nat)
    requires forall k :: 0 <= k < |spans| ==> Within(text, spans[k])
    requires j < |Collect(text, spans, indentation)|
    ensures k < |spans| && Collect(text, spans, indentation)[j] == ToRaw(text, spans[k])
    decreases |spans|
  {
    var head := Reported(text, spans[0], indentation);
    var tail := Collect(text, spans[1..], indentation);
    assert Collect(text, spans, indentation) == head + tail;
    if j < |head| {
      k := 0;
      assert head == [ToRaw(text, spans[0])];
    } else {
      var k' := CollectFrom(text, spans[1..], indentation, j - |head|);
      k := k' + 1;
      assert spans[1..][k'] == spans[k];
      assert tail[j - |head|] == ToRaw(text, spans[k]);
    }
  }

  /** The shape of every tuple `get_jinja_statements` returns. */
  lemma StatementShape(text: string, indentation: bool, j: nat)
    requires j < |JinjaStatements(text, indentation)|
    ensures var r := JinjaStatements(text, indentation)[j];
      && r.startDelimiter in {"{%", "{%-", "{%|", "{%+"}
      && r.endDelimiter in {"%}", "-%}"}
      && !Contains(r.body, "%}")
      && 1 <= r.startLine <= r.endLine
      && r.endLine - r.startLine == CountChar(r.body, '\n')
  {
    var spans := Spans(StatementPattern, text, 0);
    MatchesWithin(text, spans);
    var k := CollectFrom(text, spans, indentation, j);
    RawShape(text, spans[k]);
  }

  /** Tuples come in source order: each ends on or before the line the next one starts on. */
  predicate InLineOrder(rs: seq<RawStatement>)
  {
    forall i, j :: 0 <= i < j < |rs| ==> rs[i].endLine <= rs[j].startLine
  }

  lemma {:induction false} CollectInOrder(text: string, spans: seq<Span>, indentation: bool)
    requires forall k :: 0 <= k < |spans| ==> Within(text, spans[k])
    requires forall i, j :: 0 <= i < j < |spans| ==> spans[i].end <= spans[j].start
    ensures InLineOrder(Collect(text, spans, indentation))
    decreases |spans|
  {
    if spans != [] {
      var head := Reported(text, spans[0], indentation);
      var rest := Collect(text, spans[1..], indentation);
      CollectInOrder(text, spans[1..], indentation);
      forall j | 0 <= j < |rest| ensures spans[0].end <= |text| && LineAt(text, spans[0].bodyEnd) <= rest[j].startLine {
        var k := CollectFrom(text, spans[1..], indentation, j);
        assert spans[1..][k] == spans[k + 1];
        assert spans[0].end <= spans[k + 1].start;
        LineAtMonotone(text, spans[0].bodyEnd, spans[k + 1].bodyStart);
      }
      assert Collect(text, spans, indentation) == head + rest;
    }
  }

  /** `get_jinja_statements` lists statements in the order they occur. */
  lemma StatementsInOrder(text: string, indentation: bool)
    ensures InLineOrder(JinjaStatements(text, indentation))
  {
    var spans := Spans(StatementPattern, text, 0);
    MatchesWithin(text, spans);
    CollectInOrder(text, spans, indentation);
  }

  /** Without indentation mode every match is reported: the k-th tuple is the k-th match. */
  lemma {:induction false} CollectAll(text: string, spans: seq<Span>)
    requires forall k :: 0 <= k < |spans| ==> Within(text, spans[k])
    ensures |Collect(text, spans, false)| == |spans|
    ensures forall k :: 0 <= k < |spans| ==> Collect(text, spans, false)[k] == ToRaw(text, spans[k])
    decreases |spans|
  {
    if spans != [] {
      CollectAll(text, spans[1..]);
      assert Collect(text, spans, false) == [ToRaw(text, spans[0])] + Collect(text, spans[1..], false);
    }
  }

  /** The tuples of the statements that start their line, in order. */
  function OwnLineOnly(text: string, rs: seq<RawStatement>): (kept: seq<RawStatement>)
    ensures |kept| <= |rs|
  {
    if rs == [] then []
    else
      var r := rs[0];
      (if 1 <= r.startLine <= CountChar(text, '\n') + 1 && OnOwnLine(text, r.startLine) then [r] else [])
      + OwnLineOnly(text, rs[1..])
  }

  lemma {:induction false} CollectFilters(text: string, spans: seq<Span>)
    requires forall k :: 0 <= k < |spans| ==> Within(text, spans[k])
    ensures Collect(text, spans, true) == OwnLineOnly(text, Collect(text, spans, false))
    decreases |spans|
  {
    if spans != [] {
      CollectFilters(text, spans[1..]);
      var all := Collect(text, spans, false);
      assert all == [ToRaw(text, spans[0])] + Collect(text, spans[1..], false);
      assert all[1..] == Collect(text, spans[1..], false);
    }
  }

  /**
   * Indentation mode only filters: it keeps, in order, exactly the tuples of
   * the plain mode whose start line begins with a statement delimiter.
   */
  lemma IndentationFilters(text: string)
    ensures JinjaStatements(text, true) == OwnLineOnly(text, JinjaStatements(text, false))
    ensures var spans := Spans(StatementPattern, text, 0);
      |JinjaStatements(text, false)| == |spans|
      && forall k :: 0 <= k < |spans| ==> JinjaStatements(text, false)[k] == ToRaw(text, spans[k])
  {
    var spans := Spans(StatementPattern, text, 0);
    MatchesWithin(text, spans);
    CollectFilters(text, spans);
    CollectAll(text, spans);
  }

  // ---------------------------------------------------------------------------
  // get_jinja_comments, get_jinja_variables

  /** The bodies (group 2) of `spans`, in order. */
  function Bodies(text: string, spans: seq<Span>): (bodies: seq<string>)
    requires forall k :: 0 <= k < |spans| ==> Within(text, spans[k])
    ensures |bodies| == |spans|
  {
    if spans == [] then []
    else
      assert Within(text, spans[0]);
      [text[spans[0].bodyStart..spans[0].bodyEnd]] + Bodies(text, spans[1..])
  }

  lemma {:induction false} BodiesAt(text: string, spans: seq<Span>, k: nat)
    requires forall k :: 0 <= k < |spans| ==> Within(text, spans[k])
    requires k < |spans|
    ensures Bodies(text, spans)[k] == text[spans[k].bodyStart..spans[k].bodyEnd]
    decreases k
  {
    if k > 0 {
      BodiesAt(text, spans[1..], k - 1);
    }
  }

  lemma SpansWithin(p: Pattern, text: string)
    requires ValidPattern(p)
    ensures forall k :: 0 <= k < |Spans(p, text, 0)| ==> Within(text, Spans(p, text, 0)[k])
  {
    var spans := Spans(p, text, 0);
    forall k | 0 <= k < |spans| ensures Within(text, spans[k]) {
      assert IsMatch(p, text, spans[k]);
    }
  }

  /** The bodies of the matches of `p`: what the `finditer`/`group(2)` loop collects. */
  function MatchBodies(p: Pattern, text: string): seq<string>
    requires ValidPattern(p)
  {
    SpansWithin(p, text);
    Bodies(text, Spans(p, text, 0))
  }

  /** What `get_jinja_comments(text)` returns. */
  function JinjaComments(text: string): seq<string>
  {
    MatchBodies(CommentPattern, text)
  }

  /** What `get_jinja_variables(text)` returns. */
  function JinjaVariables(text: string): seq<string>
  {
    MatchBodies(VariablePattern, text)
  }

  /** The loop shared by `get_jinja_comments` and `get_jinja_variables`. */
  method ScanBodies(p: Pattern, text: string) returns (bodies: seq<string>)
    requires ValidPattern(p)
    ensures bodies == MatchBodies(p, text)
  {
    var spans := ScanSpans(p, text);
    SpansWithin(p, text);
    bodies := [];
    var rest := spans;
    while rest != []
      invariant forall k :: 0 <= k < |rest| ==> Within(text, rest[k])
      invariant Bodies(text, spans) == bodies + Bodies(text, rest)
      decreases |rest|
    {
      var m := rest[0];
      assert Within(text, m);
      ghost var tail := Bodies(text, rest[1..]);
      assert Bodies(text, rest) == [text[m.bodyStart..m.bodyEnd]] + tail;
      assert bodies + ([text[m.bodyStart..m.bodyEnd]] + tail) == (bodies + [text[m.bodyStart..m.bodyEnd]]) + tail;
      bodies := bodies + [text[m.bodyStart..m.bodyEnd]];
      rest := rest[1..];
    }
    assert bodies + [] == bodies;
  }

  /** `get_jinja_comments`: the text between each `{#` and the first `#}` after it. */
  method GetJinjaComments(text: string) returns (comments: seq<string>)
    ensures comments == JinjaComments(text)
  {
    comments := ScanBodies(CommentPattern, text);
  }

  /** `get_jinja_variables`: the text between each `{{` and the first `}}` after it. */
  method GetJinjaVariables(text: string) returns (variables: seq<string>)
    ensures variables == JinjaVariables(text)
  {
    variables := ScanBodies(VariablePattern, text);
  }

  /**
   * For a pattern without modifiers or trimming, each body put back between
   * its markers is the text of its match, and never holds the closing marker.
   */
  lemma BodyDelimited(p: Pattern, text: string, k: nat)
    requires ValidPattern(p) && p.modifiers == [] && !p.trimClose
    requires k < |MatchBodies(p, text)|
    ensures var m := Spans(p, text, 0)[k];
      && text[m.start..m.end] == p.open + MatchBodies(p, text)[k] + p.close
      && !Contains(MatchBodies(p, text)[k], p.close)
  {
    var spans := Spans(p, text, 0);
    var m := spans[k];
    SpansWithin(p, text);
    BodiesAt(text, spans, k);
    assert IsMatch(p, text, m);
    BodyHasNoClose(p, text, m);
    MatchPieces(p, text, m);
  }

  lemma MatchPieces(p: Pattern, text: string, m: Span)
    requires ValidPattern(p) && p.modifiers == [] && !p.trimClose
    requires IsMatch(p, text, m)
    ensures text[m.start..m.end] == p.open + text[m.bodyStart..m.bodyEnd] + p.close
  {
    assert text[m.start..m.bodyStart] == p.open;
    assert text[m.bodyEnd..m.end] == p.close;
    assert text[m.start..m.end] == text[m.start..m.bodyStart] + text[m.bodyStart..m.bodyEnd] + text[m.bodyEnd..m.end];
  }

  /** Each comment, between `{#` and `#}`, is a piece of the text, and holds no `#}`. */
  lemma CommentsDelimited(text: string, k: nat)
    requires k < |JinjaComments(text)|
    ensures var m := Spans(CommentPattern, text, 0)[k];
      && text[m.start..m.end] == "{#" + JinjaComments(text)[k] + "#}"
      && !Contains(JinjaComments(text)[k], "#}")
  {
    BodyDelimited(CommentPattern, text, k);
  }

  /** Each variable, between `{{` and `}}`, is a piece of the text, and holds no `}}`. */
  lemma VariablesDelimited(text: string, k: nat)
    requires k < |JinjaVariables(text)|
    ensures var m := Spans(VariablePattern, text, 0)[k];
      && text[m.start..m.end] == "{{" + JinjaVariables(text)[k] + "}}"
      && !Contains(JinjaVariables(text)[k], "}}")
  {
    BodyDelimited(VariablePattern, text, k);
  }

  // ---------------------------------------------------------------------------
  // is_rule_disabled

  /** The names a rule answers to in a `j2lint: disable=` comment. */
  datatype RuleNames = RuleNames(id: string, shortDescription: string, deprecatedShortDescription: Option<string>)

  /** A character of `[\w-]` (letters, digits and `_` of ASCII, and `-`). */
  predicate IsNameChar(c: char)
  {
    ('a' <= c <= 'z') || ('A' <= c <= 'Z') || ('0' <= c <= '9') || c == '_' || c == '-'
  }

  /** Every character of `c[x..y]` is whitespace. */
  predicate Blank(c: string, x: nat, y: nat)
    decreases y - x
  {
    x <= y <= |c| && (x == y || (IsSpace(c[x]) && Blank(c, x + 1, y)))
  }

  /** Every character of `c[x..y]` is a name character. */
  predicate NameChars(c: string, x: nat, y: nat)
    decreases y - x
  {
    x <= y <= |c| && (x == y || (IsNameChar(c[x]) && NameChars(c, x + 1, y)))
  }

  /** End of the run of whitespace starting at `i`: what `\s*` consumes. */
  function SkipSpaces(c: string, i: nat): (j: nat)
    requires i <= |c|
    ensures Blank(c, i, j)
    ensures j == |c| || !IsSpace(c[j])
    decreases |c| - i
  {
    if i < |c| && IsSpace(c[i]) then SkipSpaces(c, i + 1) else i
  }

  /** End of the run of name characters starting at `i`: what `[\w-]+` consumes, greedily. */
  function NameEnd(c: string, i: nat): (j: nat)
    requires i <= |c|
    ensures NameChars(c, i, j)
    ensures j == |c| || !IsNameChar(c[j])
    decreases |c| - i
  {
    if i < |c| && IsNameChar(c[i]) then NameEnd(c, i + 1) else i
  }

  /** A piece of a run of name characters, taken out of its text, is still one. */
  lemma {:induction false} NameCharsSlice(c: string, x: nat, t: nat, y: nat)
    requires x + t <= y && NameChars(c, x + t, y)
    ensures NameChars(c[x..y], t, y - x)
    decreases y - x - t
  {
    if x + t < y {
      NameCharsSlice(c, x, t + 1, y);
      assert c[x..y][t] == c[x + t];
    }
  }

  /** A match of `j2lint\s*:\s*disable\s*=\s*([\w-]+)`: group 1 and the end of the match. */
  datatype Directive = Directive(name: string, end: nat)

  /**
   * `d` is a name the directive scanner can return from position `x` on: a
   * non-empty run of name characters ending at `d.end`, not followed by one.
   */
  predicate FoundName(c: string, x: nat, d: Directive)
  {
    && x < d.end <= |c| && 0 < |d.name| <= d.end
    && d.name == c[d.end - |d.name|..d.end]
    && NameChars(d.name, 0, |d.name|)
    && (d.end == |c| || !IsNameChar(c[d.end]))
  }

  /**
   * The match of the disable directive at position `i` of comment `c`, if any,
   * taken one piece of the pattern at a time. No backtracking is needed: `\s*`
   * cannot swallow `:`, `d` or `=`, and nothing follows the greedy name.
   */
  function DirectiveAt(c: string, i: nat): (d: Option<Directive>)
    requires i <= |c|
    ensures d.Some? ==> FoundName(c, i, d.value)
  {
    if !OccursAt(c, "j2lint", i) then None else ColonAt(c, SkipSpaces(c, i + 6))
  }

  /** The rest of the match from `:` on, the whitespace after `j2lint` ending at `a`. */
  function ColonAt(c: string, a: nat): (d: Option<Directive>)
    requires a <= |c|
    ensures d.Some? ==> FoundName(c, a, d.value)
  {
    if a == |c| || c[a] != ':' then None else DisableAt(c, SkipSpaces(c, a + 1))
  }

  /** The rest of the match from `disable` on, which must start at `b`. */
  function DisableAt(c: string, b: nat): (d: Option<Directive>)
    requires b <= |c|
    ensures d.Some? ==> FoundName(c, b, d.value)
  {
    if !OccursAt(c, "disable", b) then None else EqualsAt(c, SkipSpaces(c, b + 7))
  }

  /** The rest of the match from `=` on, the whitespace after `disable` ending at `e`. */
  function EqualsAt(c: string, e: nat): (d: Option<Directive>)
    requires e <= |c|
    ensures d.Some? ==> FoundName(c, e, d.value)
  {
    if e == |c| || c[e] != '=' then None else NameAt(c, SkipSpaces(c, e + 1))
  }

  /** Group 1, the longest run of name characters from `n`, which must not be empty. */
  function NameAt(c: string, n: nat): (d: Option<Directive>)
    requires n <= |c|
    ensures d.Some? ==> FoundName(c, n, d.value) && d.value.end - |d.value.name| == n
  {
    var end := NameEnd(c, n);
    if end == n then None
    else
      NameCharsSlice(c, n, 0, end);
      Some(Directive(c[n..end], end))
  }

  /**
   * `j2lint\s*:\s*disable\s*=\s*([\w-]+)` matches at `i`, its four runs of
   * whitespace ending at `a`, `b`, `e` and `n`: `j2lint`, blanks, `:` at `a`,
   * blanks, `disable` at `b`, blanks, `=` at `e`, blanks, and from `n` the
   * longest run of name characters, which is the name and ends the match.
   */
  predicate DirectiveLayout(c: string, i: nat, a: nat, b: nat, e: nat, n: nat, d: Directive)
  {
    && OccursAt(c, "j2lint", i) && Blank(c, i + 6, a)
    && a < |c| && c[a] == ':' && Blank(c, a + 1, b)
    && OccursAt(c, "disable", b) && Blank(c, b + 7, e)
    && e < |c| && c[e] == '=' && Blank(c, e + 1, n)
    && n < d.end <= |c| && d.name == c[n..d.end] && NameChars(c, n, d.end)
    && (d.end == |c| || !IsNameChar(c[d.end]))
  }

  /** The regular expression of the disable directive matches at `i`, with group 1 `d.name`, ending at `d.end`. */
  ghost predicate IsDirective(c: string, i: nat, d: Directive)
  {
    exists a: nat, b: nat, e: nat, n: nat :: DirectiveLayout(c, i, a, b, e, n, d)
  }

  /** The scanner finds exactly the directive the regular expression matches at `i`, and nothing when it matches none. */
  lemma DirectiveMatches(c: string, i: nat, d: Directive)
    requires i <= |c|
    ensures DirectiveAt(c, i) == Some(d) <==> IsDirective(c, i, d)
  {
    if DirectiveAt(c, i) == Some(d) {
      FoundIsDirective(c, i, d);
    }
    if IsDirective(c, i, d) {
      var a: nat, b: nat, e: nat, n: nat :| DirectiveLayout(c, i, a, b, e, n, d);
      DirectiveFound(c, i, a, b, e, n, d);
    }
  }

  lemma FoundIsDirective(c: string, i: nat, d: Directive)
    requires i <= |c| && DirectiveAt(c, i) == Some(d)
    ensures IsDirective(c, i, d)
  {
    KeywordStep(c, i, d);
    var a := SkipSpaces(c, i + 6);
    ColonStep(c, a, d);
    var b := SkipSpaces(c, a + 1);
    DisableStep(c, b, d);
    var e := SkipSpaces(c, b + 7);
    EqualsStep(c, e, d);
    var n := SkipSpaces(c, e + 1);
    NameStep(c, n, d);
    assert DirectiveLayout(c, i, a, b, e, n, d);
  }

  // What each piece of `DirectiveAt` checked on its way to a match.

  lemma KeywordStep(c: string, i: nat, d: Directive)
    requires i <= |c| && DirectiveAt(c, i) == Some(d)
    ensures OccursAt(c, "j2lint", i) && ColonAt(c, SkipSpaces(c, i + 6)) == Some(d)
  {
  }

  lemma ColonStep(c: string, a: nat, d: Directive)
    requires a <= |c| && ColonAt(c, a) == Some(d)
    ensures a < |c| && c[a] == ':' && DisableAt(c, SkipSpaces(c, a + 1)) == Some(d)
  {
  }

  lemma DisableStep(c: string, b: nat, d: Directive)
    requires b <= |c| && DisableAt(c, b) == Some(d)
    ensures OccursAt(c, "disable", b) && EqualsAt(c, SkipSpaces(c, b + 7)) == Some(d)
  {
  }

  lemma EqualsStep(c: string, e: nat, d: Directive)
    requires e <= |c| && EqualsAt(c, e) == Some(d)
    ensures e < |c| && c[e] == '=' && NameAt(c, SkipSpaces(c, e + 1)) == Some(d)
  {
  }

  lemma NameStep(c: string, n: nat, d: Directive)
    requires n <= |c| && NameAt(c, n) == Some(d)
    ensures NameEnd(c, n) == d.end && n < d.end && d.name == c[n..d.end]
  {
  }

  lemma DirectiveFound(c: string, i: nat, a: nat, b: nat, e: nat, n: nat, d: Directive)
    requires DirectiveLayout(c, i, a, b, e, n, d)
    ensures DirectiveAt(c, i) == Some(d)
  {
    SpaceRun(c, e + 1, n);
    NameCharsRun(c, n, d.end);
    assert NameAt(c, n) == Some(d);
    EqualsThen(c, e, n, d);
    SpaceRun(c, b + 7, e);
    DisableThen(c, b, e, d);
    assert c[b] == c[b..b + 7][0] == 'd';
    SpaceRun(c, a + 1, b);
    ColonThen(c, a, b, d);
    SpaceRun(c, i + 6, a);
    KeywordThen(c, i, a, d);
  }

  // Each piece of `DirectiveAt` passes the match on once its own text and the run of blanks after it are there.

  lemma KeywordThen(c: string, i: nat, a: nat, d: Directive)
    requires i <= |c| && OccursAt(c, "j2lint", i) && SkipSpaces(c, i + 6) == a && ColonAt(c, a) == Some(d)
    ensures DirectiveAt(c, i) == Some(d)
  {
  }

  lemma ColonThen(c: string, a: nat, b: nat, d: Directive)
    requires a < |c| && c[a] == ':' && SkipSpaces(c, a + 1) == b && DisableAt(c, b) == Some(d)
    ensures ColonAt(c, a) == Some(d)
  {
  }

  lemma DisableThen(c: string, b: nat, e: nat, d: Directive)
    requires b <= |c| && OccursAt(c, "disable", b) && SkipSpaces(c, b + 7) == e && EqualsAt(c, e) == Some(d)
    ensures DisableAt(c, b) == Some(d)
  {
  }

  lemma EqualsThen(c: string, e: nat, n: nat, d: Directive)
    requires e < |c| && c[e] == '=' && SkipSpaces(c, e + 1) == n && NameAt(c, n) == Some(d)
    ensures EqualsAt(c, e) == Some(d)
  {
  }

  lemma {:induction false} SpaceRun(c: string, x: nat, y: nat)
    requires Blank(c, x, y) && y < |c| && !IsSpace(c[y])
    ensures SkipSpaces(c, x) == y
    decreases y - x
  {
    if x < y {
      SpaceRun(c, x + 1, y);
    }
  }

  lemma {:induction false} NameCharsRun(c: string, x: nat, y: nat)
    requires NameChars(c, x, y) && (y == |c| || !IsNameChar(c[y]))
    ensures NameEnd(c, x) == y
    decreases y - x
  {
    if x < y {
      NameCharsRun(c, x + 1, y);
    }
  }

  /** Group 1 of every match `finditer` finds in `c` from position `from`, left to right. */
  function DisableNames(c: string, from: nat): (names: seq<string>)
    requires from <= |c|
    ensures forall k :: 0 <= k < |names| ==> names[k] != [] && NameChars(names[k], 0, |names[k]|)
    decreases |c| - from
  {
    if from == |c| then []
    else
      match DirectiveAt(c, from)
      case Some(d) => [d.name] + DisableNames(c, d.end)
      case None => DisableNames(c, from + 1)
  }

  /** Every name `finditer` returns is group 1 of a match of the directive's regular expression. */
  lemma {:induction false} NamesAreDirectives(c: string, from: nat, k: nat)
    requires from <= |c| && k < |DisableNames(c, from)|
    ensures exists i: nat, d: Directive :: from <= i <= |c| && IsDirective(c, i, d) && d.name == DisableNames(c, from)[k]
    decreases |c| - from
  {
    match DirectiveAt(c, from) {
      case Some(d) =>
        if k == 0 {
          DirectiveMatches(c, from, d);
        } else {
          NamesAreDirectives(c, d.end, k - 1);
        }
      case None =>
        NamesAreDirectives(c, from + 1, k);
    }
  }

  /**
   * A sufficient condition for `finditer` to report a match: a match at `i`
   * that no match starting in `[from, i)` overlaps yields its name. It is not
   * necessary, since an overlapping match may itself start inside a reported
   * one and so never be tried.
   */
  lemma {:induction false} DirectiveIsFound(c: string, from: nat, i: nat, d: Directive)
    requires from <= i <= |c| && IsDirective(c, i, d)
    requires forall j: nat, other: Directive :: from <= j < i && IsDirective(c, j, other) ==> other.end <= i
    ensures d.name in DisableNames(c, from)
    decreases i - from
  {
    DirectiveMatches(c, i, d);
    if from < i {
      match DirectiveAt(c, from) {
        case Some(other) =>
          DirectiveMatches(c, from, other);
          DirectiveIsFound(c, other.end, i, d);
        case None =>
          DirectiveIsFound(c, from + 1, i, d);
      }
    }
  }

  /** `rule` answers to `name`: its short description, its deprecated short description if it has one, or its id. */
  predicate Answers(rule: RuleNames, name: string)
  {
    || name == rule.shortDescription
    || (rule.deprecatedShortDescription.Some? && name == rule.deprecatedShortDescription.value)
    || name == rule.id
  }

  /** Some name of `names` is one `rule` answers to. */
  predicate NamesRule(rule: RuleNames, names: seq<string>)
  {
    exists k :: 0 <= k < |names| && Answers(rule, names[k])
  }

  /** Some directive in one of `comments` names `rule`. */
  predicate CommentsDisable(comments: seq<string>, rule: RuleNames)
  {
    comments != [] && (NamesRule(rule, DisableNames(comments[0], 0)) || CommentsDisable(comments[1..], rule))
  }

  /** Some directive in some comment of `text` names `rule`. */
  predicate RuleDisabled(text: string, rule: RuleNames)
  {
    CommentsDisable(JinjaComments(text), rule)
  }

  /** When some comment disables `rule`, a match of the directive in that comment names it. */
  lemma {:induction false} DisablingDirective(comments: seq<string>, rule: RuleNames)
    requires CommentsDisable(comments, rule)
    ensures exists k, i: nat, d: Directive :: 0 <= k < |comments| && i <= |comments[k]| && IsDirective(comments[k], i, d) && Answers(rule, d.name)
    decreases |comments|
  {
    var names := DisableNames(comments[0], 0);
    if NamesRule(rule, names) {
      var m :| 0 <= m < |names| && Answers(rule, names[m]);
      NamesAreDirectives(comments[0], 0, m);
    } else {
      DisablingDirective(comments[1..], rule);
      var k, i: nat, d: Directive :| 0 <= k < |comments[1..]| && i <= |comments[1..][k]| && IsDirective(comments[1..][k], i, d) && Answers(rule, d.name);
      assert comments[1..][k] == comments[k + 1];
    }
  }

  /**
   * A sufficient condition: a match of the directive in a comment, naming
   * `rule` and not overlapped by an earlier-starting match in that comment,
   * disables `rule`. `DisablingDirective` is the matching necessary condition.
   */
  lemma {:induction false} DirectiveDisables(comments: seq<string>, rule: RuleNames, k: nat, i: nat, d: Directive)
    requires k < |comments| && i <= |comments[k]| && IsDirective(comments[k], i, d) && Answers(rule, d.name)
    requires forall j: nat, other: Directive :: j < i && IsDirective(comments[k], j, other) ==> other.end <= i
    ensures CommentsDisable(comments, rule)
    decreases k
  {
    if k == 0 {
      DirectiveIsFound(comments[0], 0, i, d);
      var names := DisableNames(comments[0], 0);
      var m :| 0 <= m < |names| && names[m] == d.name;
      assert NamesRule(rule, names);
    } else {
      assert comments[1..][k - 1] == comments[k];
      DirectiveDisables(comments[1..], rule, k - 1, i, d);
    }
  }

  /** The names of the directives in one comment, found as `finditer` does. */
  method ScanDirectives(c: string) returns (names: seq<string>)
    ensures names == DisableNames(c, 0)
  {
    names := [];
    var pos := 0;
    while pos < |c|
      invariant pos <= |c|
      invariant names + DisableNames(c, pos) == DisableNames(c, 0)
      decreases |c| - pos
    {
      var d := DirectiveAt(c, pos);
      if d.Some? {
        names := names + [d.value.name];
        pos := d.value.end;
      } else {
        pos := pos + 1;
      }
    }
  }

  /**
   * `is_rule_disabled`: whether a `j2lint: disable=<name>` directive inside a
   * Jinja comment of `text` names the rule's short description, its
   * deprecated short description or its id.
   */
  method IsRuleDisabled(text: string, rule: RuleNames) returns (disabled: bool)
    ensures disabled <==> RuleDisabled(text, rule)
  {
    var comments := GetJinjaComments(text);
    disabled := ScanComments(comments, rule);
  }

  /** The loops of `is_rule_disabled`: every directive of every comment, in order, until one names the rule. */
  method ScanComments(comments: seq<string>, rule: RuleNames) returns (disabled: bool)
    ensures disabled <==> CommentsDisable(comments, rule)
  {
    var i := 0;
    assert comments[0..] == comments;
    while i < |comments|
      invariant i <= |comments|
      invariant CommentsDisable(comments, rule) == CommentsDisable(comments[i..], rule)
    {
      var names := ScanDirectives(comments[i]);
      var j := 0;
      while j < |names|
        invariant j <= |names|
        invariant forall k :: 0 <= k < j ==> !Answers(rule, names[k])
      {
        var name := names[j];
        if rule.shortDescription == name {
          return true;
        }
        if rule.deprecatedShortDescription.Some? && rule.deprecatedShortDescription.value == name {
          return true;
        }
        if rule.id == name {
          return true;
        }
        assert !Answers(rule, name);
        j := j + 1;
      }
      assert comments[i..][1..] == comments[i + 1..];
      i := i + 1;
    }
    return false;
  }

  /**
   * The documented form is recognised, with blanks around `:` and after `=`:
   * `j2lint : disable= S3 ` matches once, group 1 being `S3`, and `S3` is the
   * only name `finditer` finds in it.
   */
  lemma DocumentedDirective()
    ensures DirectiveAt("j2lint : disable= S3 ", 0) == Some(Directive("S3", 20))
    ensures DisableNames("j2lint : disable= S3 ", 0) == ["S3"]
  {
    var c := "j2lint : disable= S3 ";
    assert c[0..6] == "j2lint";
    assert c[9..16] == "disable";
    assert c[18..20] == "S3";
    assert Blank(c, 6, 7) && Blank(c, 8, 9) && Blank(c, 16, 16) && Blank(c, 17, 18);
    assert NameChars(c, 18, 20);
    DirectiveFound(c, 0, 7, 9, 16, 18, Directive("S3", 20));
  }

  /** Three directives in a row; `finditer` tries the ones at 0 and 30, but not the one at 15 between them. */
  const Chained := "j2lint:disable=" + "j2lint:disable=" + "j2lint:disable=" + "S3"

  /** The first match of the directive in `Chained`, which `finditer` reports. */
  lemma ChainedFirst()
    ensures DirectiveLayout(Chained, 0, 6, 7, 14, 15, Directive("j2lint", 21))
  {
    var c := Chained;
    assert c[0..6] == "j2lint";
    assert c[7..14] == "disable";
    assert c[15..21] == "j2lint";
    UnspacedDirective(c, 0, 21);
  }

  /** The second match, which starts inside the first and overlaps the third. */
  lemma ChainedSecond()
    ensures DirectiveLayout(Chained, 15, 21, 22, 29, 30, Directive("j2lint", 36))
  {
    var c := Chained;
    assert c[15..21] == "j2lint";
    assert c[22..29] == "disable";
    assert c[30..36] == "j2lint";
    UnspacedDirective(c, 15, 36);
  }

  /** The third match, which names `S3`. */
  lemma ChainedThird()
    ensures DirectiveLayout(Chained, 30, 36, 37, 44, 45, Directive("S3", 47))
  {
    var c := Chained;
    assert c[30..36] == "j2lint";
    assert c[37..44] == "disable";
    assert c[45..47] == "S3";
    UnspacedDirective(c, 30, 47);
  }

  /** `j2lint:disable=` at `i`, followed by name characters up to `n`, is a match with no whitespace. */
  lemma UnspacedDirective(c: string, i: nat, n: nat)
    requires i + 15 < n <= |c|
    requires c[i..i + 6] == "j2lint" && c[i + 6] == ':' && c[i + 7..i + 14] == "disable" && c[i + 14] == '='
    requires forall k :: i + 15 <= k < n ==> IsNameChar(c[k])
    requires n == |c| || !IsNameChar(c[n])
    ensures DirectiveLayout(c, i, i + 6, i + 7, i + 14, i + 15, Directive(c[i + 15..n], n))
  {
    AllNameChars(c, i + 15, n);
  }

  /** A stretch of name characters is a run of them. */
  lemma {:induction false} AllNameChars(c: string, x: nat, y: nat)
    requires x <= y <= |c| && forall k :: x <= k < y ==> IsNameChar(c[k])
    ensures NameChars(c, x, y)
    decreases y - x
  {
    if x < y {
      AllNameChars(c, x + 1, y);
    }
  }

  /**
   * The non-overlap premise of `DirectiveIsFound` is not necessary: in
   * `Chained` the match at 15 overlaps the one at 30, yet `finditer` reports
   * `S3`, because it resumes after the match at 0 and never tries 15.
   */
  lemma OverlappedYetReported()
    ensures IsDirective(Chained, 15, Directive("j2lint", 36)) && 30 < 36
    ensures IsDirective(Chained, 30, Directive("S3", 47))
    ensures DisableNames(Chained, 0) == ["j2lint", "S3"]
  {
    ChainedSecond();
    ChainedThird();
    ChainedNames();
  }

  /** `finditer` over `Chained` reports the first match and the third. */
  lemma ChainedNames()
    ensures DisableNames(Chained, 0) == ["j2lint", "S3"]
  {
    ChainedFirst();
    DirectiveFound(Chained, 0, 6, 7, 14, 15, Directive("j2lint", 21));
    ChainedThird();
    DirectiveFound(Chained, 30, 36, 37, 44, 45, Directive("S3", 47));
    ChainedGap();
    DisableNamesSkip(Chained, 21, 30);
  }

  /** Between the first match and the third, `Chained` holds no `j`. */
  lemma ChainedGap()
    ensures 'j' !in Chained[21..30]
  {
    assert Chained[21..30] == ":disable=";
  }

  /** Where no `j` occurs, no directive starts, and `finditer` moves on. */
  lemma {:induction false} DisableNamesSkip(c: string, from: nat, to: nat)
    requires from <= to <= |c| && 'j' !in c[from..to]
    ensures DisableNames(c, from) == DisableNames(c, to)
    decreases |c| - from
  {
    if from < to {
      assert c[from] == c[from..to][0];
      assert !OccursAt(c, "j2lint", from) by {
        if from + 6 <= |c| {
          assert c[from..from + 6][0] == c[from];
        }
      }
      assert 'j' !in c[from + 1..to] by {
        assert c[from + 1..to] == c[from..to][1..];
      }
      DisableNamesSkip(c, from + 1, to);
    }
  }

  lemma SliceOfSlice<T>(s: seq<T>, a: nat, b: nat, i: nat, j: nat)
    requires a <= b <= |s| && i <= j <= b - a
    ensures s[a..b][i..j] == s[a + i..a + j]
  {
    assert |s[a..b][i..j]| == j - i == |s[a + i..a + j]|;
    forall k | 0 <= k < j - i ensures s[a..b][i..j][k] == s[a + i..a + j][k] {
      assert s[a..b][i..j][k] == s[a..b][i + k] == s[a + i + k];
    }
  }
}
