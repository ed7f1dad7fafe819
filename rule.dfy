/**
 * The per-line and whole-text drivers of a lint rule (j2lint/linter/rule.py).
 * The rule's own tests are parameters: `check` (is this line a violation?)
 * and the value `checktext` returned for the file.
 */
module Rules {
  import opened Wrappers
  import opened Strings
  import opened Utils

  /** The attributes of a rule that its errors cite. */
  datatype Rule = Rule(id: string, description: string, shortDescription: string)

  /** `LinterError`: where the problem is, which rule found it, and what it says. */
  datatype LinterError = LinterError(lineNumber: int, line: string, filename: string, rule: Rule, message: string)

  /** One `(line, section, message)` triple of `checktext`; `message` may be absent. */
  datatype Finding = Finding(line: int, section: string, message: Option<string>)

  /** The message an error carries: the one given, unless it is absent or empty, and the rule's description then. */
  function MessageOf(rule: Rule, message: Option<string>): (m: string)
    ensures m == rule.description || (message.Some? && m == message.value)
    ensures m == "" ==> rule.description == ""
    ensures message.Some? && message.value != "" ==> m == message.value
    ensures message.None? || message.value == "" ==> m == rule.description
  {
    if message.None? || message.value == "" then rule.description else message.value
  }

  /** `Rule.is_valid_language`: the file's path has a Jinja extension. */
  predicate IsValidLanguage(path: string)
  {
    IsValidFileType(path)
  }

  /** `line.lstrip().startswith('#')`. */
  predicate IsCommentLine(line: string)
  {
    StartsWith(LStrip(line), "#")
  }

  /** A comment line is one whose first character that is not whitespace is `#`. */
  lemma CommentLineByFirstChar(line: string)
    ensures IsCommentLine(line)
        <==> exists k :: 0 <= k < |line| && line[k] == '#' && forall j :: 0 <= j < k ==> IsSpace(line[j])
  {
    var r := LStrip(line);
    var k := |line| - |r|;
    if IsCommentLine(line) {
      assert r[0] == '#' && line[k] == r[0];
    }
    if exists k :: 0 <= k < |line| && line[k] == '#' && forall j :: 0 <= j < k ==> IsSpace(line[j]) {
      var h :| 0 <= h < |line| && line[h] == '#' && forall j :: 0 <= j < h ==> IsSpace(line[j]);
      assert !IsSpace(line[h]);
      assert |r| > 0;
      assert line[k] == r[0];
      assert h == k;
      assert r[..1] == [line[k]];
    }
  }

  // ---------------------------------------------------------------------------
  // checklines

  /** A line `checklines` reports: not a comment, and flagged by `check`. */
  predicate Flagged(line: string, check: string -> bool)
  {
    !IsCommentLine(line) && check(line)
  }

  /** The error `checklines` reports for `line`, numbered `number`, if it is flagged. */
  function LineReport(rule: Rule, path: string, line: string, number: int, check: string -> bool): (es: seq<LinterError>)
    ensures es == [] || es == [LinterError(number, line, path, rule, rule.description)]
  {
    if Flagged(line, check) then [LinterError(number, line, path, rule, rule.description)] else []
  }

  /** The errors of `lines[from..]`, line `k` (0-based) reported as line number `k + 1`. */
  function ErrorsFrom(rule: Rule, path: string, lines: seq<string>, from: nat, check: string -> bool): seq<LinterError>
    decreases |lines| - from
  {
    if from >= |lines| then []
    else LineReport(rule, path, lines[from], from + 1, check) + ErrorsFrom(rule, path, lines, from + 1, check)
  }

  /** What `checklines(file, text)` returns for a file at `path`. */
  function LineErrors(rule: Rule, path: string, text: string, check: string -> bool): seq<LinterError>
  {
    if IsValidLanguage(path) then ErrorsFrom(rule, path, SplitOn(text, '\n'), 0, check) else []
  }

  /**
   * `Rule.checklines`: nothing for a file without a Jinja extension;
   * otherwise one error per line of `text.split("\n")` that is not a comment
   * and that `check` flags, numbered from 1, with the rule's description.
   */
  method CheckLines(rule: Rule, path: string, text: string, check: string -> bool) returns (errors: seq<LinterError>)
    ensures errors == LineErrors(rule, path, text, check)
    ensures !IsValidLanguage(path) ==> errors == []
  {
    errors := [];
    if !IsValidLanguage(path) {
      return;
    }
    var lines := SplitOn(text, '\n');
    var index := 0;
    while index < |lines|
      invariant index <= |lines|
      invariant errors + ErrorsFrom(rule, path, lines, index, check) == ErrorsFrom(rule, path, lines, 0, check)
      decreases |lines| - index
    {
      var line := lines[index];
      var found := ReportLine(rule, path, line, index + 1, check);
      ReportedInOrder(rule, path, lines, index, check, errors, found);
      errors := errors + found;
      index := index + 1;
    }
    assert errors + [] == errors;
  }

  /** Appending the report of line `index` moves the loop of `checklines` one line on. */
  lemma ReportedInOrder(rule: Rule, path: string, lines: seq<string>, index: nat, check: string -> bool,
                        errors: seq<LinterError>, found: seq<LinterError>)
    requires index < |lines| && found == LineReport(rule, path, lines[index], index + 1, check)
    requires errors + ErrorsFrom(rule, path, lines, index, check) == ErrorsFrom(rule, path, lines, 0, check)
    ensures (errors + found) + ErrorsFrom(rule, path, lines, index + 1, check) == ErrorsFrom(rule, path, lines, 0, check)
  {
    var rest := ErrorsFrom(rule, path, lines, index + 1, check);
    assert ErrorsFrom(rule, path, lines, index, check) == found + rest;
    assert errors + (found + rest) == (errors + found) + rest;
  }

  /** One pass of the loop of `checklines`: comment lines are skipped before `check` is asked. */
  method ReportLine(rule: Rule, path: string, line: string, number: int, check: string -> bool) returns (found: seq<LinterError>)
    ensures found == LineReport(rule, path, line, number, check)
  {
    if IsCommentLine(line) {
      return [];
    }
    var result := check(line);
    if !result {
      return [];
    }
    return [LinterError(number, line, path, rule, rule.description)];
  }

  /**
   * Every error of `lines[from..]` is about one line past `from`: its number
   * is that line's 1-based position, its text that line, which `check` flags
   * and which is no comment; it names the file and the rule and carries the
   * rule's description.
   */
  lemma {:induction false} ErrorsFromSound(rule: Rule, path: string, lines: seq<string>, from: nat, check: string -> bool)
    ensures forall e :: e in ErrorsFrom(rule, path, lines, from, check) ==>
      && from + 1 <= e.lineNumber <= |lines|
      && e.line == lines[e.lineNumber - 1]
      && Flagged(e.line, check)
      && e.filename == path && e.rule == rule && e.message == rule.description
    decreases |lines| - from
  {
    if from < |lines| {
      ErrorsFromSound(rule, path, lines, from + 1, check);
    }
  }

  /** Every flagged line from `from` on gets an error with its number. */
  lemma {:induction false} ErrorsFromComplete(rule: Rule, path: string, lines: seq<string>, from: nat, check: string -> bool, k: nat)
    requires from <= k < |lines| && Flagged(lines[k], check)
    ensures LinterError(k + 1, lines[k], path, rule, rule.description) in ErrorsFrom(rule, path, lines, from, check)
    decreases k - from
  {
    var error := LinterError(k + 1, lines[k], path, rule, rule.description);
    var head := LineReport(rule, path, lines[from], from + 1, check);
    var rest := ErrorsFrom(rule, path, lines, from + 1, check);
    assert ErrorsFrom(rule, path, lines, from, check) == head + rest;
    if from < k {
      ErrorsFromComplete(rule, path, lines, from + 1, check, k);
      assert error in rest;
    } else {
      assert head == [error];
    }
  }

  /** Line numbers strictly increase along `es`. */
  predicate Increasing(es: seq<LinterError>)
  {
    forall i, j :: 0 <= i < j < |es| ==> es[i].lineNumber < es[j].lineNumber
  }

  lemma IncreasingCons(head: seq<LinterError>, rest: seq<LinterError>, n: int)
    requires head == [] || (|head| == 1 && head[0].lineNumber == n)
    requires Increasing(rest) && forall e :: e in rest ==> n < e.lineNumber
    ensures Increasing(head + rest)
  {
    var es := head + rest;
    forall i, j | 0 <= i < j < |es| ensures es[i].lineNumber < es[j].lineNumber {
      if i >= |head| {
        assert es[i] == rest[i - |head|] && es[j] == rest[j - |head|];
      } else {
        assert es[j] == rest[j - 1] && es[j] in rest;
      }
    }
  }

  /** The errors come in line order, each line at most once. */
  lemma {:induction false} ErrorsFromOrdered(rule: Rule, path: string, lines: seq<string>, from: nat, check: string -> bool)
    ensures Increasing(ErrorsFrom(rule, path, lines, from, check))
    decreases |lines| - from
  {
    if from < |lines| {
      ErrorsFromOrdered(rule, path, lines, from + 1, check);
      ErrorsFromSound(rule, path, lines, from + 1, check);
      IncreasingCons(LineReport(rule, path, lines[from], from + 1, check), ErrorsFrom(rule, path, lines, from + 1, check), from + 1);
    }
  }

  /**
   * `checklines` on a Jinja file reports exactly the flagged lines, in line
   * order: an error is about a line that is no comment and that `check`
   * flags, numbered from 1 within `text.split("\n")`; each such line is
   * reported; and no line is reported twice.
   */
  lemma CheckLinesReportsFlaggedLines(rule: Rule, path: string, text: string, check: string -> bool)
    requires IsValidLanguage(path)
    ensures var lines := SplitOn(text, '\n');
            var es := LineErrors(rule, path, text, check);
      && (forall e :: e in es ==>
            && 1 <= e.lineNumber <= |lines| && e.line == lines[e.lineNumber - 1] && Flagged(e.line, check)
            && e.filename == path && e.rule == rule && e.message == rule.description)
      && (forall k :: 0 <= k < |lines| && Flagged(lines[k], check) ==>
            LinterError(k + 1, lines[k], path, rule, rule.description) in es)
      && Increasing(es)
  {
    var lines := SplitOn(text, '\n');
    ErrorsFromSound(rule, path, lines, 0, check);
    ErrorsFromOrdered(rule, path, lines, 0, check);
    forall k | 0 <= k < |lines| && Flagged(lines[k], check)
      ensures LinterError(k + 1, lines[k], path, rule, rule.description) in ErrorsFrom(rule, path, lines, 0, check)
    {
      ErrorsFromComplete(rule, path, lines, 0, check, k);
    }
  }

  /** A comment line is never reported, whatever `check` says about it. */
  lemma CommentsNeverReported(rule: Rule, path: string, text: string, check: string -> bool, e: LinterError)
    requires e in LineErrors(rule, path, text, check)
    ensures !IsCommentLine(e.line) && check(e.line)
  {
    ErrorsFromSound(rule, path, SplitOn(text, '\n'), 0, check);
  }

  // ---------------------------------------------------------------------------
  // checkfulltext

  /** The error for one finding of `checktext`. */
  function FindingError(rule: Rule, path: string, f: Finding): LinterError
  {
    LinterError(f.line, f.section, path, rule, MessageOf(rule, f.message))
  }

  /** What `checkfulltext(file, text)` returns, `results` being what `checktext(file, text)` returned. */
  function TextErrors(rule: Rule, path: string, results: Option<seq<Finding>>): (errors: seq<LinterError>)
    ensures !IsValidLanguage(path) || results.None? ==> errors == []
    ensures IsValidLanguage(path) && results.Some? ==>
      && |errors| == |results.value|
      && forall k :: 0 <= k < |errors| ==>
           && errors[k].lineNumber == results.value[k].line
           && errors[k].line == results.value[k].section
           && errors[k].filename == path && errors[k].rule == rule
           && (results.value[k].message.None? || results.value[k].message.value == "" ==> errors[k].message == rule.description)
           && (results.value[k].message.Some? && results.value[k].message.value != "" ==> errors[k].message == results.value[k].message.value)
  {
    if IsValidLanguage(path) && results.Some? then
      seq(|results.value|, k requires 0 <= k < |results.value| => FindingError(rule, path, results.value[k]))
    else []
  }

  /**
   * `Rule.checkfulltext`: nothing for a file without a Jinja extension or
   * when `checktext` found nothing (`None`); otherwise one error per triple,
   * in order.
   */
  method CheckFullText(rule: Rule, path: string, results: Option<seq<Finding>>) returns (errors: seq<LinterError>)
    ensures errors == TextErrors(rule, path, results)
  {
    errors := [];
    if !IsValidLanguage(path) {
      return;
    }
    if results.Some? {
      errors := FindingErrors(rule, path, results.value);
    }
  }

  /** The loop of `checkfulltext`: one error per finding, in order. */
  method FindingErrors(rule: Rule, path: string, findings: seq<Finding>) returns (errors: seq<LinterError>)
    ensures |errors| == |findings| && forall k :: 0 <= k < |findings| ==> errors[k] == FindingError(rule, path, findings[k])
  {
    errors := [];
    var i := 0;
    while i < |findings|
      invariant i <= |findings|
      invariant |errors| == i && forall k :: 0 <= k < i ==> errors[k] == FindingError(rule, path, findings[k])
    {
      errors := errors + [FindingError(rule, path, findings[i])];
      i := i + 1;
    }
  }
}
