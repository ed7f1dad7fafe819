/**
 * Properties of the reference validation `Walk` (and hence, through
 * `Validate`, of `check_indentation`): what it can and cannot end with, how
 * it treats input without tags, and its verdicts on a few small templates.
 */
module IndenterProperties {
  import opened Wrappers
  import opened Utils
  import opened Indenter

  // ---------------------------------------------------------------------------
  // The records are only ever appended to

  /** Whatever has been produced stays, in front: validation only appends records. */
  lemma {:induction false} RunExtends(table: Table, lines: seq<Statement>, i: nat, open: seq<OpenBlock>, done: seq<IndentRecord>)
    requires WellFormed(table)
    ensures done <= Run(table, lines, i, open, done).records
    decreases |lines| - i
  {
    if i < |lines| {
      match Step(table, lines[i], i, open)
      case Stop(records, fatal) =>
      case Continue(records, next) =>
        RunExtends(table, lines, i + 1, next, done + records);
    }
  }

  // ---------------------------------------------------------------------------
  // A block always has a family

  /** Every open block was opened by a begin tag. */
  predicate OpenedByBegins(table: Table, open: seq<OpenBlock>)
    requires WellFormed(table)
  {
    forall k :: 0 <= k < |open| ==> open[k].tag in BeginTags(table)
  }

  /** A begin tag is the first tag of some family, so `get_tuple` finds one for it. */
  lemma BeginHasFamily(table: Table, tag: string)
    requires WellFormed(table) && tag in BeginTags(table)
    ensures FirstContaining(table, tag).Some?
  {
    var k :| 0 <= k < |BeginTags(table)| && BeginTags(table)[k] == tag;
    assert table[k][0] == tag;
  }

  /** Opening, closing and switching sections keep every open block a begin tag's. */
  lemma StepKeepsBegins(table: Table, st: Statement, at: nat, open: seq<OpenBlock>)
    requires WellFormed(table) && OpenedByBegins(table, open)
    ensures Step(table, st, at, open).Continue? ==> OpenedByBegins(table, Step(table, st, at, open).next)
  {
    var depth := |open|;
    match Classify(table, st.firstWord)
    case BeginTag =>
      var next := open + [Opened(st, open)];
      assert next[depth].tag == st.firstWord;
      assert forall k :: 0 <= k < depth ==> next[k] == open[k];
    case EndTag =>
    case MiddleTag =>
      if depth > 0 {
        var w := WithSection(open, []);
        forall r: seq<IndentRecord> ensures OpenedByBegins(table, WithSection(open, r)) {
          var w := WithSection(open, r);
          forall k | 0 <= k < depth ensures w[k].tag in BeginTags(table) {
            if k < depth - 1 {
              assert w[k] == w[..depth - 1][k];
            }
          }
        }
      }
    case PlainLine =>
  }

  /**
   * The crash of `in None` (a middle tag under a block whose tag no family
   * contains) never happens: every block on the stack was opened by a begin
   * tag, which heads its own family.
   */
  lemma {:induction false} RunNeverNoFamily(table: Table, lines: seq<Statement>, i: nat, open: seq<OpenBlock>,
                                            done: seq<IndentRecord>)
    requires WellFormed(table) && OpenedByBegins(table, open)
    ensures var t := Run(table, lines, i, open, done); t.verdict.None? || !t.verdict.value.NoFamily?
    decreases |lines| - i
  {
    if i < |lines| {
      var st := lines[i];
      if Classify(table, st.firstWord) == MiddleTag && open != [] {
        BeginHasFamily(table, open[|open| - 1].tag);
      }
      StepKeepsBegins(table, st, i, open);
      match Step(table, st, i, open)
      case Stop(records, fatal) =>
      case Continue(records, next) =>
        RunNeverNoFamily(table, lines, i + 1, next, done + records);
    }
  }

  lemma NeverNoFamily(table: Table, lines: seq<Statement>)
    requires WellFormed(table)
    ensures Walk(table, lines).verdict.None? || !Walk(table, lines).verdict.value.NoFamily?
  {
    RunNeverNoFamily(table, lines, 0, [], []);
  }

  // ---------------------------------------------------------------------------
  // A validation that goes through is balanced

  /** The number of statements of `lines` whose first word is of kind `kind`. */
  function CountKind(table: Table, lines: seq<Statement>, kind: Kind): (n: nat)
    requires WellFormed(table)
  {
    if lines == [] then 0
    else (if Classify(table, lines[0].firstWord) == kind then 1 else 0) + CountKind(table, lines[1..], kind)
  }

  lemma {:induction false} RunBalanced(table: Table, lines: seq<Statement>, i: nat, open: seq<OpenBlock>, done: seq<IndentRecord>)
    requires WellFormed(table) && i <= |lines|
    ensures Run(table, lines, i, open, done).verdict.None? ==>
      |open| + CountKind(table, lines[i..], BeginTag) == CountKind(table, lines[i..], EndTag)
    decreases |lines| - i
  {
    if i == |lines| {
      assert lines[i..] == [];
    } else {
      var st := lines[i];
      assert lines[i..][1..] == lines[i + 1..];
      match Step(table, st, i, open)
      case Stop(records, fatal) =>
      case Continue(records, next) =>
        RunBalanced(table, lines, i + 1, next, done + records);
        match Classify(table, st.firstWord)
        case BeginTag =>
          assert |next| == |open| + 1;
        case EndTag =>
          assert |next| == |open| - 1;
        case MiddleTag =>
          assert |next| == |open|;
        case PlainLine =>
          assert |next| == |open|;
    }
  }

  /** When the validation goes through, every begin tag met its end tag: there are as many of one as of the other. */
  lemma Balanced(table: Table, lines: seq<Statement>)
    requires WellFormed(table)
    ensures Walk(table, lines).verdict.None? ==> CountKind(table, lines, BeginTag) == CountKind(table, lines, EndTag)
  {
    RunBalanced(table, lines, 0, [], []);
    assert lines[0..] == lines;
  }

  // ---------------------------------------------------------------------------
  // Input without tags

  /** The records of checking each statement at the top level, in order. */
  function TopLevelRecords(lines: seq<Statement>): seq<IndentRecord>
  {
    if lines == [] then [] else CheckRecord(lines[0], 0, None) + TopLevelRecords(lines[1..])
  }

  lemma {:induction false} RunPlain(table: Table, lines: seq<Statement>, i: nat, done: seq<IndentRecord>)
    requires WellFormed(table) && i <= |lines|
    requires forall k :: i <= k < |lines| ==> Classify(table, lines[k].firstWord) == PlainLine
    ensures Run(table, lines, i, [], done) == Trace(done + TopLevelRecords(lines[i..]), None)
    decreases |lines| - i
  {
    if i == |lines| {
      assert lines[i..] == [];
      assert done + [] == done;
    } else {
      var own := CheckRecord(lines[i], 0, None);
      assert Step(table, lines[i], i, []) == Continue(own, []);
      RunPlain(table, lines, i + 1, done + own);
      assert lines[i..][1..] == lines[i + 1..];
      assert TopLevelRecords(lines[i..]) == own + TopLevelRecords(lines[i + 1..]);
      assert (done + own) + TopLevelRecords(lines[i + 1..]) == done + (own + TopLevelRecords(lines[i + 1..]));
    }
  }

  /** A template without directive tags always goes through, each statement checked at the top level on its own. */
  lemma PlainTemplate(table: Table, lines: seq<Statement>)
    requires WellFormed(table)
    requires forall k :: 0 <= k < |lines| ==> Classify(table, lines[k].firstWord) == PlainLine
    ensures Walk(table, lines) == Trace(TopLevelRecords(lines), None)
  {
    RunPlain(table, lines, 0, []);
    assert lines[0..] == lines;
  }

  // ---------------------------------------------------------------------------
  // Small templates

  /** A table with the families `if … elif … else … endif`, `for … else … endfor` and `macro … endmacro`. */
  const Families: Table := [["if", "elif", "else", "endif"], ["for", "else", "endfor"], ["macro", "endmacro"]]

  /** A statement `{% <word> … %}` on line `lineNo` whose text starts at column `begin`. */
  function Tag(word: string, begin: nat, lineNo: nat): Statement
  {
    Statement(word, begin, lineNo, " " + word + " ", "{%", "%}")
  }

  /** The begin and end tags of the small table. */
  lemma FamilyEnds()
    ensures WellFormed(Families)
    ensures BeginTags(Families) == ["if", "for", "macro"]
    ensures EndTags(Families) == ["endif", "endfor", "endmacro"]
  {
    assert BeginTags(Families)[0] == "if" && BeginTags(Families)[1] == "for" && BeginTags(Families)[2] == "macro";
    assert EndTags(Families)[0] == "endif" && EndTags(Families)[1] == "endfor" && EndTags(Families)[2] == "endmacro";
  }

  lemma BeginKinds()
    ensures WellFormed(Families)
    ensures Classify(Families, "if") == BeginTag && Classify(Families, "for") == BeginTag
    ensures Classify(Families, "macro") == BeginTag
  {
    FamilyEnds();
  }

  lemma EndKinds()
    ensures WellFormed(Families)
    ensures Classify(Families, "endif") == EndTag && Classify(Families, "endfor") == EndTag
  {
    FamilyEnds();
  }

  /** `else` is a middle tag (of `if` and of `for`). */
  lemma ElseKind()
    ensures WellFormed(Families) && Classify(Families, "else") == MiddleTag
  {
    FamilyEnds();
    assert Families[0][2] == "else";
    assert IsMiddleOf(Families, "else");
    MiddleTagsAre(Families, "else");
  }

  /** `include` is no tag of any family. */
  lemma IncludeKind()
    ensures WellFormed(Families) && Classify(Families, "include") == PlainLine
  {
    FamilyEnds();
    MiddleTagsAre(Families, "include");
    forall k, j | 0 <= k < |Families| && 1 <= j < |Families[k]| - 1 ensures Families[k][j] != "include" {
      assert |Families[k][j]| == 4;
    }
  }

  /** A statement that does not stop the validation moves it on to the next one. */
  lemma RunOn(table: Table, lines: seq<Statement>, i: nat, open: seq<OpenBlock>, done: seq<IndentRecord>,
              records: seq<IndentRecord>, next: seq<OpenBlock>)
    requires WellFormed(table) && i < |lines| && Step(table, lines[i], i, open) == Continue(records, next)
    ensures Run(table, lines, i, open, done) == Run(table, lines, i + 1, next, done + records)
  {
  }

  /** A begin tag at column 1 at the top level opens its block with no record pending. */
  lemma OpenTop(table: Table, word: string, at: nat)
    requires WellFormed(table) && Classify(table, word) == BeginTag
    ensures Step(table, Tag(word, 1, at + 1), at, []) == Continue([], [OpenBlock(word, "{%", [], None)])
  {
    assert ExpectedColumn(Tag(word, 1, at + 1), 0, None) == 1;
  }

  /** The end tag of the only open block, at column 1, closes it with no record. */
  lemma CloseTop(table: Table, b: OpenBlock, end: string, at: nat)
    requires WellFormed(table) && end == "end" + b.tag && Classify(table, end) == EndTag
    requires b.startDelimiter == "{%" && b.openerRecords == [] && (b.middle.None? || b.middle == Some([]))
    ensures Step(table, Tag(end, 1, at + 1), at, [b]) == Continue([], [])
  {
    var st := Tag(end, 1, at + 1);
    StepAtEnd(table, st, at, [b]);
    assert ExpectedColumn(st, 0, Some("{%")) == 1;
  }

  /** `{% if %}` / `{% endif %}` at column 1 go through without a record. */
  lemma IfEndIf(table: Table)
    requires WellFormed(table) && Classify(table, "if") == BeginTag && Classify(table, "endif") == EndTag
    ensures Walk(table, [Tag("if", 1, 1), Tag("endif", 1, 2)]) == Trace([], None)
  {
    var lines := [Tag("if", 1, 1), Tag("endif", 1, 2)];
    var b := OpenBlock("if", "{%", [], None);
    OpenTop(table, "if", 0);
    RunOn(table, lines, 0, [], [], [], [b]);
    assert "end" + "if" == "endif";
    CloseTop(table, b, "endif", 1);
    RunOn(table, lines, 1, [b], [], [], []);
  }

  /** A body statement at column 4 instead of 5 gets the one record `Bad Indentation, expected 5, got 4`. */
  lemma BodyOffByOne(table: Table)
    requires WellFormed(table) && Classify(table, "if") == BeginTag && Classify(table, "endif") == EndTag
    requires Classify(table, "include") == PlainLine
    ensures Walk(table, [Tag("if", 1, 1), Tag("include", 4, 2), Tag("endif", 1, 3)])
         == Trace([IndentationError(Tag("include", 4, 2), BadIndentationMessage(5, 4))], None)
  {
    var lines := [Tag("if", 1, 1), Tag("include", 4, 2), Tag("endif", 1, 3)];
    var b := OpenBlock("if", "{%", [], None);
    var record := IndentationError(Tag("include", 4, 2), BadIndentationMessage(5, 4));
    OpenTop(table, "if", 0);
    RunOn(table, lines, 0, [], [], [], [b]);
    assert ExpectedColumn(lines[1], 4, Some("{%")) == 5;
    assert Step(table, lines[1], 1, [b]) == Continue([record], [b]);
    RunOn(table, lines, 1, [b], [], [record], [b]);
    assert "end" + "if" == "endif";
    CloseTop(table, b, "endif", 2);
    RunOn(table, lines, 2, [b], [record], [], []);
    assert [record] + [] == [record];
  }

  /** A lone `{% endif %}` has no block to close. */
  lemma LoneEnd(table: Table)
    requires WellFormed(table) && Classify(table, "endif") == EndTag
    ensures Walk(table, [Tag("endif", 1, 1)]) == Trace([], Some(EmptyStack(0)))
  {
  }

  /** `{% endfor %}` inside an `if` block is out of order: one record, and the validation stops. */
  lemma EndOutOfOrder(table: Table)
    requires WellFormed(table) && Classify(table, "if") == BeginTag && Classify(table, "endfor") == EndTag
    ensures Walk(table, [Tag("if", 1, 1), Tag("endfor", 1, 2)])
         == Trace([IndentationError(Tag("endfor", 1, 2), OutOfOrderMessage("endfor"))], Some(OutOfOrder(1, "endfor")))
  {
    var lines := [Tag("if", 1, 1), Tag("endfor", 1, 2)];
    var b := OpenBlock("if", "{%", [], None);
    OpenTop(table, "if", 0);
    RunOn(table, lines, 0, [], [], [], [b]);
    assert "end" + "if" != "endfor";
    assert Step(table, lines[1], 1, [b])
        == Stop([IndentationError(Tag("endfor", 1, 2), OutOfOrderMessage("endfor"))], OutOfOrder(1, "endfor"));
  }

  /** `{% else %}` inside a `macro` block whose family has no `else` is unsupported: one record, and the validation stops. */
  lemma MiddleOutsideFamily(table: Table)
    requires WellFormed(table) && Classify(table, "macro") == BeginTag && Classify(table, "else") == MiddleTag
    requires FirstContaining(table, "macro").Some? && "else" !in FirstContaining(table, "macro").value
    ensures Walk(table, [Tag("macro", 1, 1), Tag("else", 1, 2)])
         == Trace([IndentationError(Tag("else", 1, 2), UnsupportedMessage("else"))], Some(Unsupported(1, "else")))
  {
    var lines := [Tag("macro", 1, 1), Tag("else", 1, 2)];
    var b := OpenBlock("macro", "{%", [], None);
    OpenTop(table, "macro", 0);
    RunOn(table, lines, 0, [], [], [], [b]);
    assert Step(table, lines[1], 1, [b])
        == Stop([IndentationError(Tag("else", 1, 2), UnsupportedMessage("else"))], Unsupported(1, "else"));
  }

  /** `for` / `else` / `endfor` at column 1 go through when `else` is of the `for` family. */
  lemma ForElse(table: Table)
    requires WellFormed(table) && Classify(table, "for") == BeginTag && Classify(table, "endfor") == EndTag
    requires Classify(table, "else") == MiddleTag
    requires FirstContaining(table, "for").Some? && "else" in FirstContaining(table, "for").value
    ensures Walk(table, [Tag("for", 1, 1), Tag("else", 1, 2), Tag("endfor", 1, 3)]) == Trace([], None)
  {
    var lines := [Tag("for", 1, 1), Tag("else", 1, 2), Tag("endfor", 1, 3)];
    var b := OpenBlock("for", "{%", [], None);
    var w := b.(middle := Some([]));
    OpenTop(table, "for", 0);
    RunOn(table, lines, 0, [], [], [], [b]);
    assert ExpectedColumn(lines[1], 0, Some("{%")) == 1;
    assert WithSection([b], []) == [w];
    assert Step(table, lines[1], 1, [b]) == Continue([], [w]);
    RunOn(table, lines, 1, [b], [], [], [w]);
    assert "end" + "for" == "endfor";
    CloseTop(table, w, "endfor", 2);
    RunOn(table, lines, 2, [w], [], [], []);
  }

  /** An `if` that is never closed leaves the validation unterminated. */
  lemma Unclosed(table: Table)
    requires WellFormed(table) && Classify(table, "if") == BeginTag
    ensures Walk(table, [Tag("if", 1, 1)]) == Trace([], Some(Unterminated))
  {
    OpenTop(table, "if", 0);
    RunOn(table, [Tag("if", 1, 1)], 0, [], [], [], [OpenBlock("if", "{%", [], None)]);
  }

  /** The small table meets the premises of every template above. */
  lemma FamiliesFitTemplates()
    ensures WellFormed(Families)
    ensures Classify(Families, "if") == BeginTag && Classify(Families, "for") == BeginTag
    ensures Classify(Families, "macro") == BeginTag
    ensures Classify(Families, "endif") == EndTag && Classify(Families, "endfor") == EndTag
    ensures Classify(Families, "else") == MiddleTag && Classify(Families, "include") == PlainLine
    ensures FirstContaining(Families, "macro").Some? && "else" !in FirstContaining(Families, "macro").value
    ensures FirstContaining(Families, "for").Some? && "else" in FirstContaining(Families, "for").value
  {
    BeginKinds();
    EndKinds();
    ElseKind();
    IncludeKind();
    MacroFamily();
    ForFamily();
  }

  /** The family `get_tuple` finds for `macro`: the third one, which has no middle tags. */
  lemma MacroFamily()
    ensures FirstContaining(Families, "macro") == Some(["macro", "endmacro"])
    ensures "else" !in FirstContaining(Families, "macro").value
  {
    assert "macro" !in Families[0] && "macro" !in Families[1] && Families[2][0] == "macro";
  }

  /** The family `get_tuple` finds for `for`: the second one, which holds `else`. */
  lemma ForFamily()
    ensures FirstContaining(Families, "for") == Some(["for", "else", "endfor"])
    ensures "else" in FirstContaining(Families, "for").value
  {
    assert "for" !in Families[0] && Families[1][0] == "for";
  }
}
