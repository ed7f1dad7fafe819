# j2lint core, modelled in Dafny

j2lint is a linter for Jinja2 templates. This project models three parts of it:

- **The directive indentation validator** (`j2lint/linter/indenter/node.py`). The validator walks the `{% … %}` statements of a template from left to right.
  - It keeps a stack of the blocks still open. A begin tag such as `if` or `for` is pushed. An end tag must be `"end"` followed by the innermost open tag. A middle tag such as `else` or `elif` must belong to the innermost tag's family.
  - Each statement's text must start at the column that follows from its nesting depth and from its delimiters (`{%` or the trimming `{%-`/`{%+`). A statement at any other column gets an indentation record `(line, statement, "Bad Indentation, expected E, got A")`.
  - Structural violations add one record and stop the validation.
- **The text helpers** (`j2lint/utils.py`):
  - the Jinja file-type check;
  - `flatten`, `get_tuple` and `delimit_jinja_statement`;
  - the scanners for `{% … %}` statements, `{# … #}` comments and `{{ … }}` variables;
  - the in-comment switch `j2lint: disable = NAME`.
- **The per-line and whole-text drivers of a lint rule** (`j2lint/linter/rule.py`). They turn a rule's own test into error records.

Files:

- `wrappers.dfy` holds `Option`.
- `strings.dfy` (module `Strings`) holds the Python string built-ins the linter relies on: `split`, `split()`, `lstrip`, `startswith`, `lower` and `"%d"`.
- `utils.dfy` (module `Utils`) models `j2lint/utils.py`.
- `node.dfy` (module `Indenter`) models `node.py`:
  - `Node` is a node.
  - `Validator` holds the open-block stack (`jinja_node_stack`) and the records (`result`).
  - The recursive method `Validator.CheckIndentation` is `Node.check_indentation`, one call per nesting level.
  - The method is proved against a reference specification, `Walk`. `Walk` is a plain left-to-right stack machine over the statements. The method's records and failure agree with `Walk`'s exactly, in order.
- `node_properties.dfy` (module `IndenterProperties`) proves properties of `Walk`, and through `Validate` of the validator:
  - Records are only ever appended.
  - The "no family" crash cannot happen.
  - A validation that goes through is balanced.
  - Input without tags is checked statement by statement.
  - There are worked examples (`if`/`endif`, `for`/`else`/`endfor`, an out-of-order end tag, a middle tag outside its family, an unclosed block, a lone end tag).
- `rule.dfy` (module `Rules`) models `rule.py`.

Failures that only crash the original are explicit outcomes of type `Indenter.Fatal`:

- An end or middle tag with nothing open indexes an empty stack: `EmptyStack`.
- A middle tag under a block whose tag no family holds tests `in None`: `NoFamily`. The model proves this never happens.
- Input that ends inside a block makes a frame return `None`, which its caller then compares: `Unterminated`.

The open-block stack is a field of a fresh `Validator`, so it starts empty on every validation.

Three details of the expected column, as the code computes it:

- The extra column for trimming delimiters depends on the bottom of the stack, `jinja_node_stack[0]` (`node.py:82`), not on the innermost open block.
- At the top level a trimming and a non-trimming statement are both expected at column 1 (`node.py:84-92`). `Indenter.TrimmingOffset` states the rule in closed form.
- Plain statements go through the same rule as tags, trimming included (`node.py:171-175`).

`finditer` does not look for a match inside an earlier one. In `j2lint:disable=j2lint:disable=S3` the first match takes the name `j2lint` and ends at the second `:`. So the second directive is never seen, and `S3` is not disabled. The exact condition is the recursion of `Utils.DisableNames`, which follows `finditer` match by match: `Utils.IsRuleDisabled` is true exactly when `RuleDisabled` holds. In terms of matches of the expression, `Utils.DisablingDirective` gives a necessary condition (some match names the rule) and `Utils.DirectiveDisables` a sufficient one (such a match that no earlier-starting match overlaps). The sufficient condition is not necessary: in `j2lint:disable=j2lint:disable=j2lint:disable=S3` the match at offset 15 overlaps the match at offset 30 that names `S3`, yet `finditer` reports `j2lint` and then `S3`, because the match at 15 starts inside the first reported one and is never tried (`Utils.OverlappedYetReported`).

## Model

| member | source | states |
|---|---|---|
| Strings.SplitOn | j2lint/linter/rule.py:62 | `text.split(sep)` has exactly one more piece than `text` has separators |
| Strings.SplitPiecesFree | j2lint/utils.py:146 | no piece of `split(sep)` holds the separator |
| Strings.JoinSplit | j2lint/linter/rule.py:62 | joining the pieces of `split(sep)` with `sep` gives back the text: nothing is lost or invented |
| Strings.SplitPieceHolds | j2lint/utils.py:149-151 | a character that is no separator lies in the piece numbered by the separators before it, so `lines[start_line - 1]` is the line a position is on |
| Strings.LStrip | j2lint/linter/rule.py:63 | `lstrip()` is a suffix of the line; everything it drops is whitespace, and what it keeps starts with no whitespace |
| Strings.WordsAreTokens | j2lint/utils.py:151 | every word of `split()` is non-empty and free of whitespace |
| Strings.WordsNonEmpty | j2lint/utils.py:151 | `split()` has a first word whenever the line holds a character that is no whitespace |
| Strings.FirstWord | j2lint/utils.py:151 | after leading whitespace, the first word of `split()` is the run of non-whitespace characters up to the next whitespace |
| Strings.Lower | j2lint/utils.py:53 | `lower()` keeps the length and lowers each ASCII capital, leaving other characters alone |
| Strings.NatToString | j2lint/linter/indenter/node.py:94-95 | `%d` of a natural number is a non-empty run of digits without a leading zero |
| Strings.ParseNatToString | j2lint/linter/indenter/node.py:94-95 | reading the digits of `%d` back gives the number |
| Strings.NatToStringInjective | j2lint/linter/indenter/node.py:94-95 | distinct numbers are printed differently |
| Utils.SplitExt | j2lint/utils.py:53 | `os.path.splitext`: stem and extension put back together give the path. The extension is empty or runs from the last dot, holding no further dot and no `/`. It is non-empty exactly when the last path component has a character other than `.` before a dot. Then the stem's last component keeps such a character, so leading dots never start an extension |
| Utils.IsValidFileType | j2lint/utils.py:44-56 | `is_valid_file_type`: the lower-cased extension that `splitext` finds is `.jinja`, `.jinja2` or `.j2` (characterised by `JinjaNameIsValid` and `ValidNameShape`) |
| Utils.GetFileType | j2lint/utils.py:59-70 | `"jinja"` exactly when `is_valid_file_type` holds, `None` exactly when it does not |
| Utils.JinjaNameIsValid | j2lint/utils.py:44-70 | for a name ending in a Jinja extension in any letter case, both `is_valid_file_type` and `get_file_type == "jinja"` hold exactly when the last path component before the extension has a character other than `.` |
| Utils.NamedStemIsValid | j2lint/utils.py:53 | such a name splits exactly into its stem and its Jinja extension |
| Utils.ValidStemIsNamed | j2lint/utils.py:44-56 | a valid name that ends in a Jinja extension has a stem whose last component has a character other than `.` |
| Utils.ValidNameShape | j2lint/utils.py:44-56 | the converse: every Jinja file name is such a stem followed by a Jinja extension in some letter case |
| Utils.DotFileIsNotJinja | j2lint/utils.py:53-56 | a dot-file `dir/.j2` has no extension, so it is not a Jinja file |
| Utils.Flatten | j2lint/utils.py:99-113 | `flatten`: the leaves of a nested list, depth first and left to right (its properties are the lemmas below) |
| Utils.FlattenLeaves | j2lint/utils.py:99-113 | flattening a list of plain elements gives the list back |
| Utils.FlattenGroups | j2lint/utils.py:99-113 | flattening a list of lists of plain elements concatenates them, in order |
| Utils.FlattenTwoLevels | j2lint/linter/indenter/node.py:11 | flattening `[[t[1:-1] for t in families]]` gives the middle slices one after the other |
| Utils.InConcat | j2lint/utils.py:99-113 | an element is in the concatenation iff it is in one of the lists |
| Utils.FirstContaining | j2lint/utils.py:116-129 | `None` iff no tuple holds the item; otherwise a tuple that holds it, with no earlier tuple holding it |
| Utils.GetTuple | j2lint/utils.py:116-129 | the scan with early return gives exactly `FirstContaining` |
| Utils.DelimitJinjaStatement | j2lint/utils.py:159-168 | the result is the start delimiter, then the line, then the end delimiter |
| Utils.DelimitDefaults | j2lint/utils.py:159 | the defaults wrap the line in `{%` and `%}` |
| Utils.FindClose | j2lint/utils.py:143-144 | the lazy body ends at the first position at or after its start where a closing marker begins, and nowhere before |
| Utils.MatchAt | j2lint/utils.py:143-144 | what the regular expression finds at a position is a match there: opening marker with at most one modifier, shortest body, closing marker |
| Utils.NoMatchAt | j2lint/utils.py:143-144 | when the regular expression fails at a position, no match of the pattern starts there |
| Utils.Spans | j2lint/utils.py:147 | `finditer` yields matches that do not overlap and come in left-to-right order |
| Utils.SpansComplete | j2lint/utils.py:147 | `finditer` misses no match: a position that no match it yields covers starts no match at all |
| Utils.GreedyMatch | j2lint/utils.py:143-144 | when a closing marker follows the greedy opening delimiter, the match is that delimiter, the shortest body and the first closing marker |
| Utils.GreedyOpening | j2lint/utils.py:143-144 | backtracking on the optional modifier never changes the result: every match keeps its modifier in group 1 |
| Utils.FindCloseScan | j2lint/utils.py:143-144 | the left-to-right scan for the closing marker computes `FindClose` |
| Utils.MatchFrom | j2lint/utils.py:143-147 | the scan at one position computes `MatchAt` |
| Utils.MatchAfterOpen | j2lint/utils.py:143-144 | the scan after an opening marker computes `MatchAt`, backtracking included |
| Utils.ScanSpans | j2lint/utils.py:147 | the `finditer` loop computes `Spans` |
| Utils.BodyHasNoClose | j2lint/utils.py:143-144 | by shortest match, a body never holds the closing marker |
| Utils.LineAt | j2lint/utils.py:149-150 | a 1-based line number lies between 1 and the number of lines |
| Utils.StartLineHasWords | j2lint/utils.py:151 | the start line of a statement always has a first word, so `split()[0]` cannot fail |
| Utils.StartLineOfOpening | j2lint/utils.py:149 | the line of the body's start is the line of the opening `{` |
| Utils.OpeningOnOneLine | j2lint/utils.py:143-144 | an opening delimiter starts with `{` and holds no newline |
| Utils.Reported | j2lint/utils.py:151-154 | one match contributes its own tuple or none |
| Utils.StatementOf | j2lint/utils.py:148-154 | one pass of the loop reports the match's tuple, except in indentation mode when the start line's first word is not `{%`, `{%-` or `{%+` |
| Utils.CollectStatements | j2lint/utils.py:147-154 | the loop over the matches collects the reported tuples in order |
| Utils.GetJinjaStatements | j2lint/utils.py:132-156 | `get_jinja_statements` returns `JinjaStatements`: the tuples of the matches, filtered in indentation mode |
| Utils.LineAtMonotone | j2lint/utils.py:149-150 | a later position is never on an earlier line |
| Utils.OpeningShape | j2lint/utils.py:143-144 | group 1 is `{%`, `{%-`, `{%\|` or `{%+` |
| Utils.ClosingShape | j2lint/utils.py:143-144 | the closing group is `%}` or `-%}` |
| Utils.LineSpan | j2lint/utils.py:149-150 | the end line minus the start line is the number of newlines between them |
| Utils.RawShape | j2lint/utils.py:143-154 | one tuple: delimiters of the allowed shapes, a body without `%}`, `1 <= start_line <= end_line`, and the difference is the body's newlines |
| Utils.CollectFrom | j2lint/utils.py:147-154 | every collected tuple is the tuple of one of the matches |
| Utils.StatementShape | j2lint/utils.py:132-156 | every tuple `get_jinja_statements` returns has the shape of `RawShape` |
| Utils.CollectInOrder | j2lint/utils.py:147-154 | collected tuples come in source order: each ends on or before the line the next starts on |
| Utils.StatementsInOrder | j2lint/utils.py:132-156 | the tuples of `get_jinja_statements` come in source order |
| Utils.CollectAll | j2lint/utils.py:151-154 | without indentation mode, every match is reported, one tuple per match, in order |
| Utils.OwnLineOnly | j2lint/utils.py:151-152 | the filter of indentation mode never adds tuples |
| Utils.CollectFilters | j2lint/utils.py:151-152 | indentation mode keeps exactly the tuples of plain mode whose start line begins with a start delimiter |
| Utils.IndentationFilters | j2lint/utils.py:132-156 | indentation mode only filters plain mode, and plain mode reports every match of the pattern in order |
| Utils.Bodies | j2lint/utils.py:183-184 | one body per match |
| Utils.BodiesAt | j2lint/utils.py:183-184 | the k-th body is group 2 of the k-th match |
| Utils.ScanBodies | j2lint/utils.py:180-185 | the loop appending group 2 of each match computes `MatchBodies` |
| Utils.GetJinjaComments | j2lint/utils.py:171-185 | `get_jinja_comments` returns the bodies of the `{# … #}` matches |
| Utils.GetJinjaVariables | j2lint/utils.py:188-202 | `get_jinja_variables` returns the bodies of the `{{ … }}` matches |
| Utils.BodyDelimited | j2lint/utils.py:180-185 | each body, wrapped in the markers, is the matched piece of the text, and it holds no closing marker |
| Utils.MatchPieces | j2lint/utils.py:181-182 | a match of a pattern without modifiers is opening marker, body, closing marker |
| Utils.CommentsDelimited | j2lint/utils.py:171-185 | each comment is the text between a `{#` and the first `#}` after it |
| Utils.VariablesDelimited | j2lint/utils.py:188-202 | each variable is the text between a `{{` and the first `}}` after it |
| Utils.SkipSpaces | j2lint/utils.py:216 | `\s*` stops at the first character that is not whitespace |
| Utils.NameEnd | j2lint/utils.py:216 | `[\w-]+` takes the longest run of name characters |
| Utils.DirectiveAt | j2lint/utils.py:216 | a directive match yields a non-empty name of name characters that is not followed by another name character |
| Utils.DirectiveMatches | j2lint/utils.py:216 | the scanner finds a directive at a position exactly when `j2lint\s*:\s*disable\s*=\s*([\w-]+)` matches there, with any runs of whitespace, and then returns group 1 and the end of the match |
| Utils.DocumentedDirective | j2lint/utils.py:216-218 | `j2lint : disable= S3 ` matches once, and `S3` is the only name found in it |
| Utils.DisableNames | j2lint/utils.py:218 | every group 1 that `finditer` yields is a non-empty run of name characters |
| Utils.NamesAreDirectives | j2lint/utils.py:216-218 | every name `finditer` yields is group 1 of a match of the directive at some position |
| Utils.DirectiveIsFound | j2lint/utils.py:216-218 | every match of the directive that no earlier-starting match overlaps yields its name (a sufficient condition for being reported) |
| Utils.OverlappedYetReported | j2lint/utils.py:216-218 | in `j2lint:disable=j2lint:disable=j2lint:disable=S3` the match at 15 overlaps the match at 30, yet `finditer` yields exactly `j2lint` and `S3`: the non-overlap premise is not necessary |
| Utils.DisablingDirective | j2lint/utils.py:217-227 | when a rule is disabled, some comment holds a match of the directive whose name the rule answers to |
| Utils.DirectiveDisables | j2lint/utils.py:217-227 | sufficient condition: a match in a comment whose name the rule answers to, and which no earlier-starting match in that comment overlaps, disables the rule |
| Utils.ScanDirectives | j2lint/utils.py:218 | the `finditer` loop over a comment computes `DisableNames` |
| Utils.ScanComments | j2lint/utils.py:217-227 | the nested loop with early returns is true iff some directive in some comment names the rule |
| Utils.IsRuleDisabled | j2lint/utils.py:205-227 | true iff, in some `{# … #}` comment, a name that `finditer` finds for `j2lint\s*:\s*disable\s*=\s*([\w-]+)` is the rule's short description, its deprecated short description or its id. `RuleDisabled`, through `DisableNames`, is the exact condition; in terms of matches of the expression, `DisablingDirective` is a necessary condition and `DirectiveDisables` a sufficient one |
| Indenter.BeginTags | j2lint/linter/indenter/node.py:9 | one begin tag per family; which tags they are, and how they classify statements, is stated by `ClassifyByFamilies` |
| Indenter.EndTags | j2lint/linter/indenter/node.py:10 | one end tag per family; which tags they are, and how they classify statements, is stated by `ClassifyByFamilies` |
| Indenter.MiddleTags | j2lint/linter/indenter/node.py:11 | `MIDDLE_TAGS`: the flattened middle slices of the families (characterised by `MiddleTagsAre`) |
| Indenter.MiddleSlices | j2lint/linter/indenter/node.py:11 | slice k is family k without its first and last tag |
| Indenter.MiddleTagsAre | j2lint/linter/indenter/node.py:11 | a tag is in `MIDDLE_TAGS` iff it sits strictly inside some family |
| Indenter.Classify | j2lint/linter/indenter/node.py:121-170 | the branch of `check_indentation` a statement takes: begin, end or middle tag, or a plain statement (characterised by `ClassifyByFamilies`) |
| Indenter.ClassifyByFamilies | j2lint/linter/indenter/node.py:121-175 | begin tags are tried first, then end tags, then middle tags; anything else is a plain statement |
| Indenter.BlockStartIndent | j2lint/linter/indenter/node.py:81-92 | the extra column: 1 when the bottom block opens with a trimming delimiter `{%-` or `{%+`, or, at the top level, when the statement itself does; 0 otherwise (characterised by `TrimmingOffset`) |
| Indenter.ExpectedColumn | j2lint/linter/indenter/node.py:81-92 | the expected column: the level plus the extra column, plus `DEFAULT_WHITESPACES` (one space) when the statement's own delimiter is not a trimming one (characterised by `TrimmingOffset`) |
| Indenter.IndentationError | j2lint/linter/indenter/node.py:56-72 | `create_indentation_error`: the statement's line number, its text wrapped in its own delimiters, and the message |
| Indenter.CheckRecord | j2lint/linter/indenter/node.py:74-97 | no record iff the statement starts at the expected column; otherwise one, with its line number, its delimited text and both columns in the message |
| Indenter.TrimmingOffset | j2lint/linter/indenter/node.py:81-92 | the expected column in closed form, and how the trimming and non-trimming columns compare |
| Indenter.MessageCitesColumns | j2lint/linter/indenter/node.py:94-95 | the message's two numbers read back as the expected and the actual column |
| Indenter.OffByOneColumn | j2lint/linter/indenter/node.py:93-97 | a statement one column off gets exactly one record |
| Indenter.Opened | j2lint/linter/indenter/node.py:121-122 | a begin statement opens a block with its own tag and delimiter and no middle section |
| Indenter.WithSection | j2lint/linter/indenter/node.py:155-163 | a middle tag changes only the innermost block, which gets a middle section; the bottom block is unchanged |
| Indenter.EnterBlock | j2lint/linter/indenter/node.py:121-125 | a begin tag opens its block and records nothing yet |
| Indenter.EnterSection | j2lint/linter/indenter/node.py:155-162 | a middle tag of the innermost family opens a section and records nothing yet |
| Indenter.ResumesSection | j2lint/linter/indenter/node.py:130-132 | opening a middle section does not change which statements an enclosing frame takes over at |
| Indenter.FlushMiddle | j2lint/linter/indenter/node.py:161-164 | the records of a middle section come before those of whatever ends the section |
| Indenter.StepAtEnd | j2lint/linter/indenter/node.py:129-142 | a matching end tag pops the innermost block; its records follow the section's and precede the opener's |
| Indenter.FlushAtEnd | j2lint/linter/indenter/node.py:133-142 | an end tag after a middle section releases that section's records first |
| Indenter.FlushAtMiddle | j2lint/linter/indenter/node.py:148-164 | a further middle tag releases the previous section's records and opens a new one |
| Indenter.BottomAfterPush | j2lint/linter/indenter/node.py:82-92 | a begin statement, checked after its body with its own block on the stack, gets the record it would get without that block |
| Indenter.Node.constructor | j2lint/linter/indenter/node.py:33-54 | `create_node`: the tag is the statement's first word, start and end are the index, the expected indent is the level, the parent is the creator |
| Indenter.Validator.constructor | j2lint/linter/indenter/node.py:18 | a validation starts with an empty stack and no records |
| Indenter.Validator.SectionValid | j2lint/linter/indenter/node.py:155-163 | a middle section changes no tag, delimiter or depth of the open blocks |
| Indenter.Validator.CheckIndentLevel | j2lint/linter/indenter/node.py:74-97 | `check_indent_level` appends exactly `CheckRecord` under the bottom block's delimiter |
| Indenter.Validator.CheckIndentation | j2lint/linter/indenter/node.py:100-175 | the records appended so far, plus those `Walk` still produces from where the frame stops, are `Walk`'s records. A block's frame pops its node, sets its end line and returns the index after the end tag. A section's frame hands back the statement its caller takes over |
| Indenter.Validator.CheckStatement | j2lint/linter/indenter/node.py:119-175 | one pass of the loop agrees with `Walk` and says whether the frame goes on or returns |
| Indenter.Validator.PlainStatement | j2lint/linter/indenter/node.py:171-175 | a plain statement is checked at the current level and the index moves on by exactly 1 |
| Indenter.Validator.Fail | j2lint/linter/indenter/node.py:143-147 | a structural violation appends its records and stops with its failure |
| Indenter.Validator.EndLine | j2lint/linter/indenter/node.py:128-147 | an end tag is fatal with nothing open (no record) or when out of order (one record); otherwise it hands back to the owning frame unconsumed, or closes the block there |
| Indenter.Validator.MiddleLine | j2lint/linter/indenter/node.py:148-170 | a middle tag is fatal with nothing open or outside the family (one record); otherwise it hands back unconsumed, or checks its section |
| Indenter.Validator.Close | j2lint/linter/indenter/node.py:133-142 | the end tag's node and its opener both get the end tag's index as end line and the opener's indent, `IndentShift` times the remaining depth. The opener is popped, the index moves past the end tag, and the opener's records follow |
| Indenter.Validator.Begin | j2lint/linter/indenter/node.py:121-127 | the node is pushed, its body is checked one level deeper, and only then is the begin statement checked |
| Indenter.Validator.Middle | j2lint/linter/indenter/node.py:155-164 | the middle node gets its own index as end line, its opener's indent and its opener's parent. Its section is checked one level deeper without pushing, then the middle statement is checked |
| Indenter.Validator.EndSection | j2lint/linter/indenter/node.py:161-164 | after the section, the middle statement's record is released before those of whatever ends the section |
| Indenter.Validate | j2lint/linter/indenter/node.py:100-175 | a validation on a fresh validator yields exactly `Walk`'s records, in order, and `Walk`'s failure |
| IndenterProperties.RunExtends | j2lint/linter/indenter/node.py:93-97 | records are only appended, never removed or reordered |
| IndenterProperties.BeginHasFamily | j2lint/linter/indenter/node.py:149-150 | `get_tuple` finds a family for every begin tag |
| IndenterProperties.StepKeepsBegins | j2lint/linter/indenter/node.py:121-164 | every open block was opened by a begin tag |
| IndenterProperties.RunNeverNoFamily | j2lint/linter/indenter/node.py:149-151 | from any stack of begin tags, the `in None` crash never happens |
| IndenterProperties.NeverNoFamily | j2lint/linter/indenter/node.py:149-151 | a validation never ends in the `in None` crash |
| IndenterProperties.RunBalanced | j2lint/linter/indenter/node.py:121-142 | when the rest goes through, each open block and each later begin tag has its end tag |
| IndenterProperties.Balanced | j2lint/linter/indenter/node.py:121-142 | a validation that goes through has as many begin tags as end tags |
| IndenterProperties.RunPlain | j2lint/linter/indenter/node.py:171-175 | without tags, each statement is checked at the top level, in order |
| IndenterProperties.PlainTemplate | j2lint/linter/indenter/node.py:171-175 | a template without tags always goes through, each statement checked on its own |
| IndenterProperties.FamilyEnds | j2lint/linter/indenter/node.py:9-10 | the begin and end tags of a small family table |
| IndenterProperties.BeginKinds | j2lint/linter/indenter/node.py:121 | `if`, `for` and `macro` are begin tags there |
| IndenterProperties.EndKinds | j2lint/linter/indenter/node.py:128 | `endif` and `endfor` are end tags there |
| IndenterProperties.ElseKind | j2lint/linter/indenter/node.py:148 | `else` is a middle tag there |
| IndenterProperties.IncludeKind | j2lint/linter/indenter/node.py:171 | `include` is a plain statement there |
| IndenterProperties.MacroFamily | j2lint/linter/indenter/node.py:149-150 | the family found for `macro` has no `else` |
| IndenterProperties.ForFamily | j2lint/linter/indenter/node.py:149-150 | the family found for `for` holds `else` |
| IndenterProperties.FamiliesFitTemplates | j2lint/linter/indenter/node.py:9-11 | the small table meets the premises of every example |
| IndenterProperties.OpenTop | j2lint/linter/indenter/node.py:121-122 | a begin tag at column 1 opens its block with no record pending |
| IndenterProperties.CloseTop | j2lint/linter/indenter/node.py:129-142 | the matching end tag at column 1 closes the only block with no record |
| IndenterProperties.IfEndIf | j2lint/linter/indenter/node.py:121-142 | `if`/`endif` at column 1 goes through without a record |
| IndenterProperties.BodyOffByOne | j2lint/linter/indenter/node.py:171-175 | a body statement at column 4 instead of 5 gets exactly one record |
| IndenterProperties.LoneEnd | j2lint/linter/indenter/node.py:128-129 | a lone end tag has no block to close |
| IndenterProperties.EndOutOfOrder | j2lint/linter/indenter/node.py:143-147 | `endfor` in an `if` block: one out-of-order record, then failure |
| IndenterProperties.MiddleOutsideFamily | j2lint/linter/indenter/node.py:165-170 | `else` in a `macro` block: one unsupported-tag record, then failure |
| IndenterProperties.ForElse | j2lint/linter/indenter/node.py:148-164 | `for`/`else`/`endfor` at column 1 goes through |
| IndenterProperties.Unclosed | j2lint/linter/indenter/node.py:118-124 | an `if` that is never closed ends unterminated |
| Rules.MessageOf | j2lint/linter/error.py:20 | an error's message is the given message when it is present and non-empty, and the rule's description otherwise |
| Rules.IsValidLanguage | j2lint/linter/rule.py:31-43 | `is_valid_language`: the file's path passes `is_valid_file_type` |
| Rules.IsCommentLine | j2lint/linter/rule.py:63 | a line whose text after leading whitespace starts with `#` (characterised by `CommentLineByFirstChar`) |
| Rules.CommentLineByFirstChar | j2lint/linter/rule.py:63 | a line is a comment iff its first character that is not whitespace is `#` |
| Rules.LineReport | j2lint/linter/rule.py:63-69 | one line yields no error or one error for itself |
| Rules.ReportLine | j2lint/linter/rule.py:63-69 | one pass of the loop: comment lines are skipped before `check` is asked, other flagged lines are reported |
| Rules.CheckLines | j2lint/linter/rule.py:45-70 | `checklines` is empty for a file without a Jinja extension, and otherwise computes `LineErrors` |
| Rules.ErrorsFromSound | j2lint/linter/rule.py:62-69 | every error is about a numbered line (1-based, within range) that is no comment and that `check` flags, and carries the path, the rule and the rule's description |
| Rules.ErrorsFromComplete | j2lint/linter/rule.py:62-69 | every flagged line that is no comment is reported with its number |
| Rules.ErrorsFromOrdered | j2lint/linter/rule.py:62-69 | line numbers strictly increase, so errors come in line order and no line is reported twice |
| Rules.CheckLinesReportsFlaggedLines | j2lint/linter/rule.py:55-70 | for a Jinja file, `checklines` reports exactly the flagged lines, in order |
| Rules.CommentsNeverReported | j2lint/linter/rule.py:63-64 | a comment line is never reported, whatever `check` says |
| Rules.TextErrors | j2lint/linter/rule.py:83-97 | empty for a file without a Jinja extension or when `checktext` returns `None`. Otherwise one error per triple, in order, carrying its line and section. The message is the triple's message when it is present and non-empty, and the rule's description otherwise (`error.py:20`) |
| Rules.CheckFullText | j2lint/linter/rule.py:73-97 | `checkfulltext` computes `TextErrors` |
| Rules.FindingErrors | j2lint/linter/rule.py:92-95 | the loop appends one error per triple, in order |

## Left out

- `load_plugins` and `get_files` (`j2lint/utils.py`) are left out. They load plugins by reflection and walk the filesystem.
- Logging is left out everywhere.
- File reading is left out: a file is given by its path, a string, rather than as the dictionary `file`, of which only `file["path"]` is read.
- `LinterError.__repr__` is left out. It is output formatting and reads global settings.
- The rule-specific tests `check` and `checktext` are parameters. `check` is a function on a line. `checktext`'s result for the file is an `Option` of triples.
- `JinjaStatement` (how `words` and `begin` are computed) and the concrete tag-family table are not part of this model. A statement is a record of its first word, start column, line number, text and delimiters. The table is a parameter whose families are non-empty.
- `Node.children` is left out. It is a list shared by every node, and the validator never reads it. `Node.parent` is kept.
- `jinja_delimiter_stack` (`node.py:19`) is left out. It is never used.
- `Indenter.Validator.CheckIndentation`: the stack is cleared on a fresh validator, so the leftovers that a raise leaves on the module-level stack are not modelled.
- `Utils.DirectiveAt`: `\w` is modelled as ASCII letters, digits and `_`. Python's Unicode word characters beyond ASCII are not modelled.
- `Strings.Lower`: only ASCII capitals are lowered. That is enough to compare against `.jinja`, `.jinja2` and `.j2`, but Unicode case mapping is not modelled.
- `Utils.SplitExt`: models `os.path.splitext` for POSIX paths only.
- `Utils.DocumentedDirective`: a concrete comment stands for the documented form; any whitespace runs and any position are covered by `Utils.DirectiveMatches`.
- Regular expressions in general are not modelled. The three delimiter patterns and the `disable=` directive are written as explicit scanners.
