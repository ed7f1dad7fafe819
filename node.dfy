/**
 * The directive indentation validator of `j2lint/linter/indenter/node.py`.
 *
 * `Node` is one directive occurrence; `Validator` holds the open-block stack
 * (`jinja_node_stack`) and the list of indentation records (`result`). The
 * recursive `Validator.CheckIndentation` is `Node.check_indentation`: one call
 * per nesting level, the frame's own node passed as `owner`.
 *
 * Its specification is `Walk`, a plain left-to-right stack machine over the
 * statements. A directive's record is only appended once the section it opens
 * has been checked, so `Walk` keeps the records of open sections pending on
 * its stack and releases them when the section closes; with that, the records
 * of the recursive method and of `Walk` agree exactly, in order.
 */
module Indenter {
  import opened Wrappers
  import opened Strings
  import opened Utils

  /** `INDENT_SHIFT`: columns added by each level of nesting. */
  const IndentShift: nat := 4
  /** `DEFAULT_WHITESPACES`: the space expected after a non-trimming `{%`. */
  const DefaultWhitespaces: nat := 1
  /** `JINJA_START_DELIMITERS`: the trimming start delimiters. */
  const JinjaStartDelimiters: seq<string> := ["{%-", "{%+"]

  /**
   * A parsed statement line (a `JinjaStatement`): its first word, the column
   * its text starts at, its 1-based line number, its text and its delimiters.
   */
  datatype Statement = Statement(firstWord: string, begin: nat, startLineNo: nat, line: string,
                                 startDelimiter: string, endDelimiter: string)

  /** One indentation error: `(line number, delimited statement, message)`. */
  datatype IndentRecord = IndentRecord(lineNumber: nat, text: string, message: string)

  /**
   * The ways a validation stops early. `OutOfOrder` and `Unsupported` are the
   * raised `JinjaLinterError`s; the other three are where the program crashes:
   * an end or middle tag with no open block (`IndexError`), an open block
   * whose tag no family contains (`in None`), and input that ends inside a
   * block (a frame returns `None` and its caller compares it).
   */
  datatype Fatal =
    | EmptyStack(at: nat)
    | OutOfOrder(at: nat, tag: string)
    | Unsupported(at: nat, tag: string)
    | NoFamily(at: nat, tag: string)
    | Unterminated

  // ---------------------------------------------------------------------------
  // Tag tables

  /** The tag families (`JINJA_STATEMENT_TAG_NAMES`): begin tag first, end tag last, middle tags between. */
  type Table = seq<seq<string>>

  predicate WellFormed(table: Table)
  {
    forall k :: 0 <= k < |table| ==> |table[k]| > 0
  }

  /** `BEGIN_TAGS`: the first tag of each family. */
  function BeginTags(table: Table): (tags: seq<string>)
    requires WellFormed(table)
    ensures |tags| == |table|
  {
    seq(|table|, k requires 0 <= k < |table| => table[k][0])
  }

  /** `END_TAGS`: the last tag of each family. */
  function EndTags(table: Table): (tags: seq<string>)
    requires WellFormed(table)
    ensures |tags| == |table|
  {
    seq(|table|, k requires 0 <= k < |table| => table[k][|table[k]| - 1])
  }

  /** `family[1:-1]`. */
  function Middles(family: seq<string>): seq<string>
  {
    if |family| >= 2 then family[1..|family| - 1] else []
  }

  /** `MIDDLE_TAGS`: `flatten` of the one-element list holding every family's middle slice. */
  function MiddleTags(table: Table): seq<string>
  {
    Flatten([Group(Groups(MiddleSlices(table)))])
  }

  /** `[i[1:-1] for i in JINJA_STATEMENT_TAG_NAMES]`. */
  function MiddleSlices(table: Table): (slices: seq<seq<string>>)
    ensures |slices| == |table| && forall k :: 0 <= k < |table| ==> slices[k] == Middles(table[k])
  {
    seq(|table|, k requires 0 <= k < |table| => Middles(table[k]))
  }

  datatype Kind = BeginTag | EndTag | MiddleTag | PlainLine

  /** The branch `check_indentation` takes for a first word: begin tags win over end tags, end tags over middle tags. */
  function Classify(table: Table, tag: string): Kind
    requires WellFormed(table)
  {
    if tag in BeginTags(table) then BeginTag
    else if tag in EndTags(table) then EndTag
    else if tag in MiddleTags(table) then MiddleTag
    else PlainLine
  }

  /** `t` is a middle tag of some family. */
  predicate IsMiddleOf(table: Table, t: string)
  {
    exists k, j :: 0 <= k < |table| && 1 <= j < |table[k]| - 1 && table[k][j] == t
  }

  lemma MiddleTagsAre(table: Table, t: string)
    ensures t in MiddleTags(table) <==> IsMiddleOf(table, t)
  {
    var slices := MiddleSlices(table);
    FlattenTwoLevels(slices);
    InConcat(slices, t);
    if IsMiddleOf(table, t) {
      MiddleInSlice(table, t);
    }
    if t in MiddleTags(table) {
      var k :| 0 <= k < |slices| && t in slices[k];
      SliceHoldsMiddle(table, t, k);
    }
  }

  lemma MiddleInSlice(table: Table, t: string)
    requires IsMiddleOf(table, t)
    ensures exists k :: 0 <= k < |table| && t in MiddleSlices(table)[k]
  {
    var k, j :| 0 <= k < |table| && 1 <= j < |table[k]| - 1 && table[k][j] == t;
    assert MiddleSlices(table)[k][j - 1] == t;
  }

  lemma SliceHoldsMiddle(table: Table, t: string, k: nat)
    requires k < |table| && t in MiddleSlices(table)[k]
    ensures IsMiddleOf(table, t)
  {
    var slice := MiddleSlices(table)[k];
    var j :| 0 <= j < |slice| && slice[j] == t;
    assert table[k][j + 1] == t;
  }

  /**
   * The classification in terms of the families: a first word is a begin tag
   * when a family starts with it; an end tag when none starts with it and one
   * ends with it; a middle tag when neither holds and it sits strictly inside
   * a family; anything else is plain content.
   */
  lemma ClassifyByFamilies(table: Table, tag: string)
    requires WellFormed(table)
    ensures var startsOne := exists k :: 0 <= k < |table| && table[k][0] == tag;
            var endsOne := exists k :: 0 <= k < |table| && table[k][|table[k]| - 1] == tag;
      && (Classify(table, tag) == BeginTag <==> startsOne)
      && (Classify(table, tag) == EndTag <==> !startsOne && endsOne)
      && (Classify(table, tag) == MiddleTag <==> !startsOne && !endsOne && IsMiddleOf(table, tag))
      && (Classify(table, tag) == PlainLine <==> !startsOne && !endsOne && !IsMiddleOf(table, tag))
  {
    MiddleTagsAre(table, tag);
    var begins := BeginTags(table);
    var ends := EndTags(table);
    if tag in begins {
      var k :| 0 <= k < |begins| && begins[k] == tag;
      assert table[k][0] == tag;
    }
    if exists k :: 0 <= k < |table| && table[k][0] == tag {
      var k :| 0 <= k < |table| && table[k][0] == tag;
      assert begins[k] == tag;
    }
    if tag in ends {
      var k :| 0 <= k < |ends| && ends[k] == tag;
      assert table[k][|table[k]| - 1] == tag;
    }
    if exists k :: 0 <= k < |table| && table[k][|table[k]| - 1] == tag {
      var k :| 0 <= k < |table| && table[k][|table[k]| - 1] == tag;
      assert ends[k] == tag;
    }
  }

  // ---------------------------------------------------------------------------
  // The indentation rule

  /** `BLOCK_START_INDENT`: 1 when the bottom open block, or a top-level statement itself, uses a trimming delimiter. */
  function BlockStartIndent(st: Statement, expectedIndent: nat, bottom: Option<string>): nat
  {
    if bottom.Some? && bottom.value in JinjaStartDelimiters then 1
    else if expectedIndent == 0 && st.startDelimiter in JinjaStartDelimiters then 1
    else 0
  }

  /** The column `check_indent_level` expects the statement's text to start at. */
  function ExpectedColumn(st: Statement, expectedIndent: nat, bottom: Option<string>): nat
  {
    if st.startDelimiter in JinjaStartDelimiters then expectedIndent + BlockStartIndent(st, expectedIndent, bottom)
    else expectedIndent + DefaultWhitespaces + BlockStartIndent(st, expectedIndent, bottom)
  }

  function BadIndentationMessage(expected: nat, actual: nat): string
  {
    "Bad Indentation, expected " + NatToString(expected) + ", got " + NatToString(actual)
  }

  function OutOfOrderMessage(tag: string): string
  {
    "Tag is out of order '" + tag + "'"
  }

  function UnsupportedMessage(tag: string): string
  {
    "Unsupported tag '" + tag + "' found"
  }

  /** `create_indentation_error`: the statement's line number, its text between its delimiters, and the message. */
  function IndentationError(st: Statement, message: string): IndentRecord
  {
    IndentRecord(st.startLineNo, DelimitJinjaStatement(st.line, st.startDelimiter, st.endDelimiter), message)
  }

  /**
   * The records `check_indent_level` appends for a statement expected at
   * `expectedIndent` under an open-block stack whose bottom block uses
   * `bottom`: none when the statement starts at the expected column, else
   * exactly one, citing both columns.
   */
  function CheckRecord(st: Statement, expectedIndent: nat, bottom: Option<string>): (records: seq<IndentRecord>)
    ensures records == [] <==> st.begin == ExpectedColumn(st, expectedIndent, bottom)
    ensures records != [] ==>
      && |records| == 1
      && records[0].lineNumber == st.startLineNo
      && records[0].text == st.startDelimiter + st.line + st.endDelimiter
      && records[0].message == BadIndentationMessage(ExpectedColumn(st, expectedIndent, bottom), st.begin)
  {
    var expected := ExpectedColumn(st, expectedIndent, bottom);
    if st.begin != expected then [IndentationError(st, BadIndentationMessage(expected, st.begin))] else []
  }

  /**
   * The expected column in closed form: `e + 1 + b` for a non-trimming
   * delimiter and `e + b` for a trimming one, where `b` is 1 under a trimming
   * bottom block and, for a trimming statement, also at the top level.
   * Hence a non-trimming statement expects one column more than a trimming
   * one, except at the top level without a trimming bottom block, where both
   * expect column 1.
   */
  lemma TrimmingOffset(st: Statement, e: nat, bottom: Option<string>)
    ensures var bottomTrims := bottom.Some? && bottom.value in JinjaStartDelimiters;
            var trimming := st.(startDelimiter := "{%-");
            var plain := st.(startDelimiter := "{%");
      && ExpectedColumn(plain, e, bottom) == e + 1 + (if bottomTrims then 1 else 0)
      && ExpectedColumn(trimming, e, bottom) == e + (if bottomTrims || e == 0 then 1 else 0)
      && ExpectedColumn(plain, e, bottom) - ExpectedColumn(trimming, e, bottom)
         == (if !bottomTrims && e == 0 then 0 else 1)
  {
    assert "{%" !in JinjaStartDelimiters;
  }

  /** The message names both columns: its two numbers read back as the expected and the actual column. */
  lemma MessageCitesColumns(expected: nat, actual: nat)
    ensures var m := BadIndentationMessage(expected, actual);
            var e := |NatToString(expected)|;
      && 26 + e + 6 < |m|
      && m[..26] == "Bad Indentation, expected "
      && m[26 + e..26 + e + 6] == ", got "
      && (forall k :: 26 <= k < 26 + e ==> IsDigit(m[k]))
      && (forall k :: 26 + e + 6 <= k < |m| ==> IsDigit(m[k]))
      && ParseNat(m[26..26 + e]) == expected
      && ParseNat(m[26 + e + 6..]) == actual
  {
    var m := BadIndentationMessage(expected, actual);
    var e := NatToString(expected);
    var a := NatToString(actual);
    assert m == "Bad Indentation, expected " + e + ", got " + a;
    assert m[26..26 + |e|] == e;
    assert m[26 + |e|..26 + |e| + 6] == ", got ";
    assert m[26 + |e| + 6..] == a;
    ParseNatToString(expected);
    ParseNatToString(actual);
  }

  /** A statement one column off its expected position gets exactly one record, citing both columns. */
  lemma OffByOneColumn(st: Statement, e: nat, bottom: Option<string>)
    requires st.begin == ExpectedColumn(st, e, bottom) + 1 || st.begin + 1 == ExpectedColumn(st, e, bottom)
    ensures |CheckRecord(st, e, bottom)| == 1
    ensures CheckRecord(st, e, bottom)[0].message == BadIndentationMessage(ExpectedColumn(st, e, bottom), st.begin)
  {
  }

  // ---------------------------------------------------------------------------
  // The reference: a stack machine over the statements

  /**
   * An open block: its tag and start delimiter, the records its opening
   * statement contributes once the block closes, and, while a middle section
   * (`else`, `elif`) is open, the records of that middle statement.
   */
  datatype OpenBlock = OpenBlock(tag: string, startDelimiter: string, openerRecords: seq<IndentRecord>,
                                 middle: Option<seq<IndentRecord>>)

  /** The start delimiter of the bottom open block (`jinja_node_stack[0]`). */
  function Bottom(open: seq<OpenBlock>): Option<string>
  {
    if open == [] then None else Some(open[0].startDelimiter)
  }

  /** Records released when the current middle section of `b` closes. */
  function Flushed(b: OpenBlock): seq<IndentRecord>
  {
    if b.middle.Some? then b.middle.value else []
  }

  /** Records released when the input ends inside `b`: those of its innermost open section. */
  function Pending(b: OpenBlock): seq<IndentRecord>
  {
    if b.middle.Some? then b.middle.value else b.openerRecords
  }

  /** The block a begin statement opens above `open`, with the record its own check will produce. */
  function Opened(st: Statement, open: seq<OpenBlock>): (b: OpenBlock)
    ensures b.tag == st.firstWord && b.startDelimiter == st.startDelimiter && b.middle.None?
  {
    OpenBlock(st.firstWord, st.startDelimiter, CheckRecord(st, IndentShift * |open|, Bottom(open)), None)
  }

  /** The open blocks after a middle tag of the innermost block: that block now has a middle section with `records`. */
  function WithSection(open: seq<OpenBlock>, records: seq<IndentRecord>): (w: seq<OpenBlock>)
    requires open != []
    ensures |w| == |open| && w[..|open| - 1] == open[..|open| - 1]
    ensures w[|open| - 1] == open[|open| - 1].(middle := Some(records))
    ensures Bottom(w) == Bottom(open)
  {
    open[..|open| - 1] + [open[|open| - 1].(middle := Some(records))]
  }

  datatype Outcome = Continue(records: seq<IndentRecord>, next: seq<OpenBlock>) | Stop(records: seq<IndentRecord>, fatal: Fatal)

  /**
   * One statement. A begin tag opens a block expected at the current depth;
   * an end tag must be `"end"` + the innermost tag, and closes it at its
   * opener's depth; a middle tag must belong to the family of the innermost
   * tag, and opens a new section of it at its opener's depth; anything else
   * is checked at the current depth.
   */
  function Step(table: Table, st: Statement, at: nat, open: seq<OpenBlock>): Outcome
    requires WellFormed(table)
  {
    var tag := st.firstWord;
    var depth := |open|;
    match Classify(table, tag)
    case BeginTag =>
      Continue([], open + [Opened(st, open)])
    case EndTag =>
      if open == [] then Stop([], EmptyStack(at))
      else
        var top := open[depth - 1];
        if "end" + top.tag == tag then
          Continue(Flushed(top) + CheckRecord(st, IndentShift * (depth - 1), Bottom(open)) + top.openerRecords, open[..depth - 1])
        else
          Stop([IndentationError(st, OutOfOrderMessage(tag))], OutOfOrder(at, tag))
    case MiddleTag =>
      if open == [] then Stop([], EmptyStack(at))
      else
        var top := open[depth - 1];
        var family := FirstContaining(table, top.tag);
        if family.None? then Stop([], NoFamily(at, top.tag))
        else if tag in family.value then
          Continue(Flushed(top), WithSection(open, CheckRecord(st, IndentShift * (depth - 1), Bottom(open))))
        else
          Stop([IndentationError(st, UnsupportedMessage(tag))], Unsupported(at, tag))
    case PlainLine =>
      Continue(CheckRecord(st, IndentShift * depth, Bottom(open)), open)
  }

  /** Records produced, and how the validation ended (`None`: it went through). */
  datatype Trace = Trace(records: seq<IndentRecord>, verdict: Option<Fatal>)

  /** The validation of `lines[i..]` with `open` as the open blocks, after `done` has been produced. */
  function Run(table: Table, lines: seq<Statement>, i: nat, open: seq<OpenBlock>, done: seq<IndentRecord>): Trace
    requires WellFormed(table)
    decreases |lines| - i
  {
    if i >= |lines| then
      if open == [] then Trace(done, None) else Trace(done + Pending(open[|open| - 1]), Some(Unterminated))
    else
      match Step(table, lines[i], i, open)
      case Stop(records, fatal) => Trace(done + records, Some(fatal))
      case Continue(records, next) => Run(table, lines, i + 1, next, done + records)
  }

  /** The validation of a whole statement sequence. */
  function Walk(table: Table, lines: seq<Statement>): Trace
    requires WellFormed(table)
  {
    Run(table, lines, 0, [], [])
  }

  /** The statement at which an enclosing frame takes over: the innermost block's end tag or one of its family's middle tags. */
  predicate Resumes(table: Table, st: Statement, open: seq<OpenBlock>)
    requires WellFormed(table)
  {
    && open != []
    && match Classify(table, st.firstWord)
       case EndTag => "end" + open[|open| - 1].tag == st.firstWord
       case MiddleTag =>
         var family := FirstContaining(table, open[|open| - 1].tag);
         family.Some? && st.firstWord in family.value
       case _ => false
  }

  /** A begin tag opens its block and produces nothing yet. */
  lemma EnterBlock(table: Table, lines: seq<Statement>, i: nat, open: seq<OpenBlock>, done: seq<IndentRecord>)
    requires WellFormed(table) && i < |lines| && Classify(table, lines[i].firstWord) == BeginTag
    ensures Run(table, lines, i, open, done) == Run(table, lines, i + 1, open + [Opened(lines[i], open)], done)
  {
    assert Step(table, lines[i], i, open) == Continue([], open + [Opened(lines[i], open)]);
    assert done + [] == done;
  }

  /** A middle tag of the innermost block's family opens a section of it and produces nothing yet. */
  lemma EnterSection(table: Table, lines: seq<Statement>, i: nat, open: seq<OpenBlock>, done: seq<IndentRecord>)
    requires WellFormed(table) && i < |lines| && open != [] && open[|open| - 1].middle.None?
    requires Classify(table, lines[i].firstWord) == MiddleTag
    requires FirstContaining(table, open[|open| - 1].tag).Some?
    requires lines[i].firstWord in FirstContaining(table, open[|open| - 1].tag).value
    ensures Run(table, lines, i, open, done)
         == Run(table, lines, i + 1, WithSection(open, CheckRecord(lines[i], IndentShift * (|open| - 1), Bottom(open))), done)
  {
    var next := WithSection(open, CheckRecord(lines[i], IndentShift * (|open| - 1), Bottom(open)));
    assert Step(table, lines[i], i, open) == Continue([], next);
    assert done + [] == done;
  }

  /** Opening a middle section does not change which statements an enclosing frame takes over at. */
  lemma ResumesSection(table: Table, st: Statement, open: seq<OpenBlock>, records: seq<IndentRecord>)
    requires WellFormed(table) && open != []
    ensures Resumes(table, st, WithSection(open, records)) <==> Resumes(table, st, open)
  {
    assert WithSection(open, records)[|open| - 1].tag == open[|open| - 1].tag;
  }

  /** Closing a middle section releases its records first and then goes on as if it had none. */
  lemma FlushMiddle(table: Table, lines: seq<Statement>, n: nat, open: seq<OpenBlock>, records: seq<IndentRecord>,
                    done: seq<IndentRecord>)
    requires WellFormed(table) && n < |lines|
    requires open != [] && open[|open| - 1].middle.None?
    requires Resumes(table, lines[n], open)
    ensures Run(table, lines, n, WithSection(open, records), done) == Run(table, lines, n, open, done + records)
  {
    if Classify(table, lines[n].firstWord) == EndTag {
      FlushAtEnd(table, lines[n], n, open, records, done);
    } else {
      FlushAtMiddle(table, lines[n], n, open, records, done);
    }
  }

  /** An end tag matching the innermost block closes it, releasing its middle section's, its own and its opener's records. */
  lemma StepAtEnd(table: Table, st: Statement, n: nat, open: seq<OpenBlock>)
    requires WellFormed(table) && open != []
    requires Classify(table, st.firstWord) == EndTag && "end" + open[|open| - 1].tag == st.firstWord
    ensures Step(table, st, n, open)
         == Continue(Flushed(open[|open| - 1]) + CheckRecord(st, IndentShift * (|open| - 1), Bottom(open))
                     + open[|open| - 1].openerRecords, open[..|open| - 1])
  {
  }

  /** The end tag of a block whose last section is a middle one: that section's records come before the end's. */
  lemma FlushAtEnd(table: Table, st: Statement, n: nat, open: seq<OpenBlock>, records: seq<IndentRecord>,
                   done: seq<IndentRecord>)
    requires WellFormed(table) && open != [] && open[|open| - 1].middle.None?
    requires Classify(table, st.firstWord) == EndTag && "end" + open[|open| - 1].tag == st.firstWord
    ensures Step(table, st, n, WithSection(open, records)).Continue? && Step(table, st, n, open).Continue?
    ensures Step(table, st, n, WithSection(open, records)).next == Step(table, st, n, open).next
    ensures done + Step(table, st, n, WithSection(open, records)).records
         == (done + records) + Step(table, st, n, open).records
  {
    var depth := |open|;
    var withMiddle := WithSection(open, records);
    StepAtEnd(table, st, n, withMiddle);
    StepAtEnd(table, st, n, open);
    var own := CheckRecord(st, IndentShift * (depth - 1), Bottom(open));
    assert Flushed(withMiddle[depth - 1]) == records && Flushed(open[depth - 1]) == [];
    assert done + (records + own + open[depth - 1].openerRecords)
        == (done + records) + ([] + own + open[depth - 1].openerRecords);
  }

  /** A further middle tag: the previous section's records come first, then the new section is pending. */
  lemma FlushAtMiddle(table: Table, st: Statement, n: nat, open: seq<OpenBlock>, records: seq<IndentRecord>,
                      done: seq<IndentRecord>)
    requires WellFormed(table) && open != [] && open[|open| - 1].middle.None?
    requires Classify(table, st.firstWord) == MiddleTag
    requires FirstContaining(table, open[|open| - 1].tag).Some?
    requires st.firstWord in FirstContaining(table, open[|open| - 1].tag).value
    ensures Step(table, st, n, WithSection(open, records)).Continue? && Step(table, st, n, open).Continue?
    ensures Step(table, st, n, WithSection(open, records)).next == Step(table, st, n, open).next
    ensures done + Step(table, st, n, WithSection(open, records)).records
         == (done + records) + Step(table, st, n, open).records
  {
    var depth := |open|;
    var withMiddle := WithSection(open, records);
    var section := CheckRecord(st, IndentShift * (depth - 1), Bottom(open));
    assert WithSection(withMiddle, section) == WithSection(open, section);
    assert Step(table, st, n, withMiddle) == Continue(records, WithSection(open, section));
    assert Step(table, st, n, open) == Continue([], WithSection(open, section));
    assert done + records == (done + records) + [];
  }

  /** Under a block opened at depth `|open|`, the bottom block is the same as before, as far as the record goes. */
  lemma BottomAfterPush(st: Statement, open: seq<OpenBlock>, b: OpenBlock)
    requires b.startDelimiter == st.startDelimiter
    ensures CheckRecord(st, IndentShift * |open|, Bottom(open + [b])) == CheckRecord(st, IndentShift * |open|, Bottom(open))
  {
    if open != [] {
      assert (open + [b])[0] == open[0];
    }
  }

  // ---------------------------------------------------------------------------
  // The objects

  /** A directive occurrence in the tree of blocks. */
  class Node {
    const statement: Statement
    const tag: string
    const nodeStart: nat
    var nodeEnd: nat
    var expectedIndent: nat
    var parent: Node?

    /** `create_node`: a node for `statement` at index `lineNo`, expected at `indentLevel`, child of `owner`. */
    constructor (owner: Node?, statement: Statement, lineNo: nat, indentLevel: nat)
      ensures this.statement == statement && tag == statement.firstWord
      ensures nodeStart == lineNo && nodeEnd == lineNo
      ensures expectedIndent == indentLevel && parent == owner
    {
      this.statement := statement;
      tag := statement.firstWord;
      nodeStart := lineNo;
      nodeEnd := lineNo;
      expectedIndent := indentLevel;
      parent := owner;
    }
  }

  /** How a frame of `check_indentation` ends. */
  datatype FrameExit =
    | Next(lineNo: nat)  // the index the caller resumes at
    | Exhausted          // the loop ran out of statements (the source returns `None`)
    | Abort(fatal: Fatal)

  /** One validation: the tag families, the open-block stack and the records appended so far. */
  class Validator {
    const table: Table
    var stack: seq<Node>
    var result: seq<IndentRecord>

    constructor (table: Table)
      requires WellFormed(table)
      ensures this.table == table && stack == [] && result == []
    {
      this.table := table;
      stack := [];
      result := [];
    }

    /** The stack mirrors the reference's open blocks, the node at depth `k` expected at column `4 k`. */
    ghost predicate Valid(open: seq<OpenBlock>)
      reads this`stack, stack
    {
      && WellFormed(table)
      && |stack| == |open|
      && forall k :: 0 <= k < |stack| ==>
           && stack[k].tag == open[k].tag
           && stack[k].statement.startDelimiter == open[k].startDelimiter
           && stack[k].expectedIndent == IndentShift * k
    }

    /**
     * The three kinds of frame: the top-level one (no owner, nothing open),
     * a block's frame (its owner is the innermost open block) and a middle
     * section's frame (its owner is the middle node, which is not on the stack).
     */
    ghost predicate Owns(owner: Node?, open: seq<OpenBlock>)
      reads this`stack
      requires |stack| == |open|
    {
      || (owner == null && stack == [])
      || (stack != [] && owner == stack[|stack| - 1] && open[|open| - 1].middle.None?)
      || (stack != [] && owner != null && owner !in stack && open[|open| - 1].middle.Some?)
    }

    /** The start delimiter of `jinja_node_stack[0]`, when the stack is not empty. */
    function StackBottom(): Option<string>
      reads this`stack
    {
      if stack == [] then None else Some(stack[0].statement.startDelimiter)
    }

    /** Opening a middle section changes no tag, delimiter or depth of the open blocks. */
    lemma SectionValid(open: seq<OpenBlock>, records: seq<IndentRecord>)
      requires open != []
      ensures Valid(open) <==> Valid(WithSection(open, records))
    {
      var w := WithSection(open, records);
      forall k | 0 <= k < |open|
        ensures w[k].tag == open[k].tag && w[k].startDelimiter == open[k].startDelimiter
      {
        if k < |open| - 1 {
          assert w[k] == w[..|open| - 1][k];
        }
      }
    }

    /** `check_indent_level`: appends the node's record, if its column is not the expected one. */
    method CheckIndentLevel(node: Node)
      modifies this`result
      ensures result == old(result) + CheckRecord(node.statement, node.expectedIndent, StackBottom())
    {
      var actual := node.statement.begin;
      var blockStartIndent: nat;
      if |stack| > 0 && stack[0].statement.startDelimiter in JinjaStartDelimiters {
        blockStartIndent := 1;
      } else if node.expectedIndent == 0 && node.statement.startDelimiter in JinjaStartDelimiters {
        blockStartIndent := 1;
      } else {
        blockStartIndent := 0;
      }
      var expected: nat;
      if node.statement.startDelimiter in JinjaStartDelimiters {
        expected := node.expectedIndent + blockStartIndent;
      } else {
        expected := node.expectedIndent + DefaultWhitespaces + blockStartIndent;
      }
      if actual != expected {
        var message := BadIndentationMessage(expected, actual);
        result := result + [IndentationError(node.statement, message)];
      }
    }

    /**
     * `check_indentation`: checks `lines[lineNo..]` at `indentLevel` until
     * the frame's block or section closes. Compared with `Walk` from the same
     * point, the records appended so far plus those `Walk` still produces
     * from where the frame stops are exactly `Walk`'s records; a block's frame
     * pops its node and leaves the opener's record to its caller; a section's
     * frame stops, without consuming it, at the statement its caller takes over.
     */
    method CheckIndentation(owner: Node?, lines: seq<Statement>, lineNo: nat, indentLevel: nat, ghost open: seq<OpenBlock>)
      returns (exit: FrameExit)
      requires Valid(open) && Owns(owner, open)
      requires lineNo <= |lines| && indentLevel == IndentShift * |stack|
      modifies this, stack
      decreases |lines| - lineNo, 3
      ensures old(result) <= result
      ensures exit.Next? && owner in old(stack) ==>
        && 0 < |old(stack)| && owner == old(stack)[|old(stack)| - 1]
        && stack == old(stack)[..|old(stack)| - 1]
        && Valid(open[..|open| - 1])
        && lineNo < exit.lineNo <= |lines|
        && owner.nodeEnd == exit.lineNo - 1
        && owner.expectedIndent == IndentShift * |stack|
        && Run(table, lines, lineNo, open, old(result))
           == Run(table, lines, exit.lineNo, open[..|open| - 1], result + open[|open| - 1].openerRecords)
      ensures exit.Next? && owner !in old(stack) ==>
        && stack == old(stack) && Valid(open)
        && lineNo <= exit.lineNo < |lines|
        && Resumes(table, lines[exit.lineNo], open)
        && Run(table, lines, lineNo, open, old(result)) == Run(table, lines, exit.lineNo, open, result)
      ensures exit.Exhausted? ==>
        && stack == old(stack) && Valid(open)
        && Run(table, lines, lineNo, open, old(result)) == Run(table, lines, |lines|, open, result)
      ensures exit.Abort? ==>
        && Run(table, lines, lineNo, open, old(result)) == Trace(result, Some(exit.fatal))
    {
      var i := lineNo;
      var level: nat := indentLevel;
      while i < |lines|
        invariant lineNo <= i <= |lines|
        invariant stack == old(stack) && Valid(open)
        invariant level == IndentShift * |stack| || (i < |lines| && Resumes(table, lines[i], open))
        invariant old(result) <= result
        invariant Run(table, lines, lineNo, open, old(result)) == Run(table, lines, i, open, result)
        decreases |lines| - i
      {
        var node := new Node(owner, lines[i], i, level);
        var leave;
        exit, leave, level := CheckStatement(owner, node, lines, i, level, open);
        if leave {
          return;
        }
        i := exit.lineNo;
      }
      return Exhausted;
    }

    /**
     * One pass of the loop of `check_indentation`, on `lines[i]`: the frame
     * either goes on at `exit.lineNo` with indent level `level'`, or, when
     * `leave` holds, returns `exit`. An end tag always leaves; a begin or
     * middle tag leaves on failure, and a middle tag also when it hands over
     * to an enclosing frame.
     */
    method CheckStatement(owner: Node?, node: Node, lines: seq<Statement>, i: nat, level: nat, ghost open: seq<OpenBlock>)
      returns (exit: FrameExit, leave: bool, level': nat)
      requires Valid(open) && Owns(owner, open)
      requires i < |lines| && node !in stack && node.statement == lines[i] && node.tag == lines[i].firstWord
      requires node.expectedIndent == level
      requires level == IndentShift * |stack| || Resumes(table, lines[i], open)
      modifies this, stack, node
      decreases |lines| - i, 2
      ensures old(result) <= result
      ensures !leave ==>
        && exit.Next? && i < exit.lineNo <= |lines|
        && stack == old(stack) && Valid(open)
        && (level' == IndentShift * |stack| || (exit.lineNo < |lines| && Resumes(table, lines[exit.lineNo], open)))
        && Run(table, lines, i, open, old(result)) == Run(table, lines, exit.lineNo, open, result)
      ensures leave && exit.Next? && owner in old(stack) ==>
        && owner == old(stack)[|old(stack)| - 1]
        && stack == old(stack)[..|old(stack)| - 1]
        && Valid(open[..|open| - 1])
        && exit.lineNo == i + 1
        && owner.nodeEnd == i
        && owner.expectedIndent == IndentShift * |stack|
        && Run(table, lines, i, open, old(result))
           == Run(table, lines, exit.lineNo, open[..|open| - 1], result + open[|open| - 1].openerRecords)
      ensures leave && exit.Next? && owner !in old(stack) ==>
        && stack == old(stack) && Valid(open) && result == old(result) && exit.lineNo == i
        && Resumes(table, lines[exit.lineNo], open)
      ensures leave ==> !exit.Exhausted?
      ensures leave && exit.Abort? ==> Run(table, lines, i, open, old(result)) == Trace(result, Some(exit.fatal))
    {
      level' := level;
      match Classify(table, node.tag) {
        case BeginTag =>
          exit := Begin(owner, node, lines, i, open);
          leave := !exit.Next?;
        case EndTag =>
          exit := EndLine(owner, node, lines, i, open);
          leave := true;
        case MiddleTag =>
          exit := MiddleLine(owner, node, lines, i, open);
          level' := node.expectedIndent;
          leave := !exit.Next? || exit.lineNo == i;
        case PlainLine =>
          PlainStatement(node, lines, i, open);
          exit := Next(i + 1);
          leave := false;
      }
    }

    /** A statement that is no tag of any family: checked at the current depth. */
    method PlainStatement(node: Node, lines: seq<Statement>, i: nat, ghost open: seq<OpenBlock>)
      requires Valid(open) && i < |lines| && Classify(table, lines[i].firstWord) == PlainLine
      requires node.statement == lines[i] && node.expectedIndent == IndentShift * |stack|
      modifies this`result
      ensures old(result) <= result
      ensures Run(table, lines, i, open, old(result)) == Run(table, lines, i + 1, open, result)
    {
      var st := lines[i];
      assert Step(table, st, i, open) == Continue(CheckRecord(st, IndentShift * |open|, Bottom(open)), open);
      CheckIndentLevel(node);
    }

    /** A fatal statement: appends the records the reference produces for it, and stops. */
    method Fail(lines: seq<Statement>, i: nat, ghost open: seq<OpenBlock>, records: seq<IndentRecord>, fatal: Fatal)
      returns (exit: FrameExit)
      requires WellFormed(table) && i < |lines| && Step(table, lines[i], i, open) == Stop(records, fatal)
      modifies this`result
      ensures result == old(result) + records && exit == Abort(fatal)
      ensures Run(table, lines, i, open, old(result)) == Trace(result, Some(fatal))
    {
      result := result + records;
      return Abort(fatal);
    }

    /**
     * An end tag: with nothing open, or not matching the innermost block, it
     * is fatal; otherwise it hands over to the innermost block's frame, or,
     * in that frame, closes the block.
     */
    method EndLine(owner: Node?, node: Node, lines: seq<Statement>, i: nat, ghost open: seq<OpenBlock>)
      returns (exit: FrameExit)
      requires Valid(open) && Owns(owner, open)
      requires i < |lines| && Classify(table, lines[i].firstWord) == EndTag
      requires node !in stack && node.statement == lines[i] && node.tag == lines[i].firstWord
      modifies this, stack, node
      ensures old(result) <= result && !exit.Exhausted?
      ensures exit.Next? && owner in old(stack) ==>
        && owner == old(stack)[|old(stack)| - 1]
        && stack == old(stack)[..|old(stack)| - 1]
        && Valid(open[..|open| - 1])
        && exit.lineNo == i + 1
        && owner.nodeEnd == i
        && owner.expectedIndent == IndentShift * |stack|
        && Run(table, lines, i, open, old(result))
           == Run(table, lines, exit.lineNo, open[..|open| - 1], result + open[|open| - 1].openerRecords)
      ensures exit.Next? && owner !in old(stack) ==>
        && stack == old(stack) && Valid(open) && result == old(result) && exit.lineNo == i
        && Resumes(table, lines[exit.lineNo], open)
      ensures exit.Abort? ==> Run(table, lines, i, open, old(result)) == Trace(result, Some(exit.fatal))
    {
      if |stack| == 0 {
        exit := Fail(lines, i, open, [], EmptyStack(i));
        return;
      }
      var top := stack[|stack| - 1];
      if "end" + top.tag == node.tag {
        if top != owner {
          return Next(i);
        }
        exit := Close(node, lines, i, open);
        return;
      }
      exit := Fail(lines, i, open, [IndentationError(node.statement, OutOfOrderMessage(node.tag))], OutOfOrder(i, node.tag));
    }

    /**
     * A middle tag: with nothing open, or outside the innermost block's
     * family, it is fatal; otherwise it hands over to the innermost block's
     * frame (`Next(i)`), or, in that frame, checks the section it opens and
     * resumes at the statement that ends the section.
     */
    method MiddleLine(owner: Node?, node: Node, lines: seq<Statement>, i: nat, ghost open: seq<OpenBlock>)
      returns (exit: FrameExit)
      requires Valid(open) && Owns(owner, open)
      requires i < |lines| && Classify(table, lines[i].firstWord) == MiddleTag
      requires node !in stack && node.statement == lines[i] && node.tag == lines[i].firstWord
      modifies this, stack, node
      decreases |lines| - i, 1
      ensures old(result) <= result && !exit.Exhausted?
      ensures exit.Next? ==>
        && stack == old(stack) && Valid(open)
        && i <= exit.lineNo < |lines|
        && Resumes(table, lines[exit.lineNo], open)
        && Run(table, lines, i, open, old(result)) == Run(table, lines, exit.lineNo, open, result)
      ensures exit.Next? && exit.lineNo == i ==> owner !in old(stack) && result == old(result)
      ensures exit.Abort? ==> Run(table, lines, i, open, old(result)) == Trace(result, Some(exit.fatal))
    {
      if |stack| == 0 {
        exit := Fail(lines, i, open, [], EmptyStack(i));
        return;
      }
      var top := stack[|stack| - 1];
      var family := GetTuple(table, top.tag);
      if family.None? {
        exit := Fail(lines, i, open, [], NoFamily(i, top.tag));
        return;
      }
      if node.tag !in family.value {
        exit := Fail(lines, i, open, [IndentationError(node.statement, UnsupportedMessage(node.tag))], Unsupported(i, node.tag));
        return;
      }
      if top != owner {
        return Next(i);
      }
      exit := Middle(owner, node, lines, i, open);
    }

    /**
     * The end-tag branch of a block's own frame: both nodes record the end
     * line, the end statement is checked at its opener's expected indent, and
     * the opener is popped.
     */
    method Close(node: Node, lines: seq<Statement>, i: nat, ghost open: seq<OpenBlock>) returns (exit: FrameExit)
      requires Valid(open) && stack != [] && open[|open| - 1].middle.None?
      requires i < |lines| && Classify(table, lines[i].firstWord) == EndTag
      requires node !in stack && node.statement == lines[i] && node.tag == lines[i].firstWord
      requires "end" + stack[|stack| - 1].tag == node.tag
      modifies this, stack[|stack| - 1], node
      ensures old(result) <= result
      ensures exit.Next? && exit.lineNo == i + 1
      ensures stack == old(stack)[..|old(stack)| - 1] && Valid(open[..|open| - 1])
      ensures old(stack)[|old(stack)| - 1].nodeEnd == i
      ensures old(stack)[|old(stack)| - 1].expectedIndent == IndentShift * |stack|
      ensures node.nodeEnd == i && node.expectedIndent == IndentShift * |stack|
      ensures Run(table, lines, i, open, old(result)) == Run(table, lines, exit.lineNo, open[..|open| - 1], result + open[|open| - 1].openerRecords)
    {
      var st := lines[i];
      var top := stack[|stack| - 1];
      ghost var own := CheckRecord(st, IndentShift * (|open| - 1), Bottom(open));
      assert Step(table, st, i, open) == Continue([] + own + open[|open| - 1].openerRecords, open[..|open| - 1]);
      assert result + ([] + own + open[|open| - 1].openerRecords) == (result + own) + open[|open| - 1].openerRecords;
      top.nodeEnd := i;
      node.nodeEnd := i;
      node.expectedIndent := top.expectedIndent;
      CheckIndentLevel(node);
      stack := stack[..|stack| - 1];
      return Next(i + 1);
    }

    /**
     * The begin-tag branch: pushes `node`, checks its body one level deeper,
     * then checks the begin statement itself, also when the body runs out of
     * statements (after which the source crashes).
     */
    method Begin(owner: Node?, node: Node, lines: seq<Statement>, i: nat, ghost open: seq<OpenBlock>)
      returns (exit: FrameExit)
      requires Valid(open) && Owns(owner, open)
      requires i < |lines| && Classify(table, lines[i].firstWord) == BeginTag
      requires node !in stack && node.statement == lines[i] && node.tag == lines[i].firstWord
      requires node.expectedIndent == IndentShift * |stack|
      modifies this, stack, node
      decreases |lines| - i, 0
      ensures old(result) <= result
      ensures exit.Next? ==>
        && stack == old(stack) && Valid(open)
        && i < exit.lineNo <= |lines|
        && Run(table, lines, i, open, old(result)) == Run(table, lines, exit.lineNo, open, result)
      ensures !exit.Next? ==>
        && exit.Abort?
        && Run(table, lines, i, open, old(result)) == Trace(result, Some(exit.fatal))
    {
      var st := lines[i];
      ghost var block := Opened(st, open);
      ghost var inner := open + [block];
      EnterBlock(table, lines, i, open, result);
      assert inner[..|inner| - 1] == open;
      stack := stack + [node];
      assert Valid(inner);
      var r := CheckIndentation(node, lines, i + 1, node.expectedIndent + IndentShift, inner);
      if r.Abort? {
        return r;
      }
      CheckIndentLevel(node);
      if r.Exhausted? {
        BottomAfterPush(st, open, block);
        return Abort(Unterminated);
      }
      return r;
    }

    /**
     * The middle-tag branch of a block's own frame: the middle node takes its
     * opener's expected indent, its section is checked one level deeper, and
     * then the middle statement itself is checked.
     */
    method Middle(owner: Node?, node: Node, lines: seq<Statement>, i: nat, ghost open: seq<OpenBlock>)
      returns (exit: FrameExit)
      requires Valid(open) && Owns(owner, open)
      requires i < |lines| && node !in stack && node.statement == lines[i] && node.tag == lines[i].firstWord
      requires stack != [] && owner == stack[|stack| - 1]
      requires Classify(table, lines[i].firstWord) == MiddleTag
      requires FirstContaining(table, stack[|stack| - 1].tag).Some?
      requires node.tag in FirstContaining(table, stack[|stack| - 1].tag).value
      modifies this, stack, node
      decreases |lines| - i, 0
      ensures old(result) <= result
      ensures node.nodeEnd == i && node.expectedIndent == IndentShift * (|old(stack)| - 1)
      ensures node.parent == old(stack[|stack| - 1].parent)
      ensures exit.Next? ==>
        && stack == old(stack) && Valid(open)
        && i < exit.lineNo < |lines|
        && Resumes(table, lines[exit.lineNo], open)
        && Run(table, lines, i, open, old(result)) == Run(table, lines, exit.lineNo, open, result)
      ensures !exit.Next? ==>
        && exit.Abort?
        && Run(table, lines, i, open, old(result)) == Trace(result, Some(exit.fatal))
    {
      var top := stack[|stack| - 1];
      node.nodeEnd := i;
      node.expectedIndent := top.expectedIndent;
      node.parent := top.parent;
      ghost var records := CheckRecord(lines[i], IndentShift * (|open| - 1), Bottom(open));
      ghost var inner := WithSection(open, records);
      EnterSection(table, lines, i, open, result);
      SectionValid(open, records);
      var r := CheckIndentation(node, lines, i + 1, node.expectedIndent + IndentShift, inner);
      if r.Abort? {
        return r;
      }
      SectionValid(open, records);
      exit := EndSection(node, lines, r, open, records);
    }

    /**
     * The middle node after its section's frame returned: its own record is
     * appended, and it is released before those of whatever ends the section,
     * or, when the statements ran out, the validation stops unterminated.
     */
    method EndSection(node: Node, lines: seq<Statement>, r: FrameExit, ghost open: seq<OpenBlock>, ghost records: seq<IndentRecord>)
      returns (exit: FrameExit)
      requires Valid(open) && open != [] && open[|open| - 1].middle.None? && !r.Abort?
      requires node.expectedIndent == IndentShift * (|open| - 1)
      requires records == CheckRecord(node.statement, IndentShift * (|open| - 1), Bottom(open))
      requires r.Next? ==> r.lineNo < |lines| && Resumes(table, lines[r.lineNo], WithSection(open, records))
      modifies this`result
      ensures old(result) <= result
      ensures exit.Next? ==>
        && exit == r && Resumes(table, lines[exit.lineNo], open)
        && Run(table, lines, exit.lineNo, WithSection(open, records), old(result)) == Run(table, lines, exit.lineNo, open, result)
      ensures !exit.Next? ==>
        && exit == Abort(Unterminated) && r.Exhausted?
        && Run(table, lines, |lines|, WithSection(open, records), old(result)) == Trace(result, Some(exit.fatal))
    {
      CheckIndentLevel(node);
      if r.Exhausted? {
        return Abort(Unterminated);
      }
      ResumesSection(table, lines[r.lineNo], open, records);
      FlushMiddle(table, lines, r.lineNo, open, records, old(result));
      return r;
    }
  }

  /**
   * A whole validation, on a fresh validator: the records are exactly those
   * of the reference `Walk`, in the same order, and it stops with the same
   * failure, if any.
   */
  method Validate(table: Table, lines: seq<Statement>) returns (records: seq<IndentRecord>, verdict: Option<Fatal>)
    requires WellFormed(table)
    ensures Trace(records, verdict) == Walk(table, lines)
  {
    var v := new Validator(table);
    var exit := v.CheckIndentation(null, lines, 0, 0, []);
    records := v.result;
    verdict := if exit.Abort? then Some(exit.fatal) else None;
  }
}
