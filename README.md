# no-tslint-disable-all, modelled in Dafny

The `no-tslint-disable-all` lint rule looks at every comment in a
TypeScript source file. A comment can be a tslint directive such as
`// tslint:disable`, `/* tslint:enable:no-var */` or
`// tslint:disable-next-line: all no-var`. The rule reports each comment
that is a directive disabling *every* rule, without naming specific rules.

The model has three modules, one per part of
`src/noTslintDisableAllRule.ts`:

- `Whitespace` (whitespace.dfy) is `splitOnSpaces`. `str.split(/\s+/)` is
  modelled as `Pieces`. It splits at the leftmost maximal run of `\s`
  characters, and the first and last pieces may be empty. The
  `.filter(s => s !== "")` step is `DropEmpty`. `IsSpace` is the
  ECMAScript `\s` class: the WhiteSpace and LineTerminator code points.
  Two independent definitions are proved to match the tokenizer:
  - `JoinSpaces` joins tokens with single spaces. Splitting the joined
    string gives the tokens back.
  - `Collapse` works character by character. It squeezes every run of
    whitespace to one space and trims both ends. Joining the tokens gives
    exactly `Collapse` of the input.
- `DirectiveParser` (directive.dfy) is `parseComment`. It takes the comment
  body and the result of the directive expression on that body. The result
  is `None` or a `ParsedComment` with three fields:
  - `isEnabled`;
  - `modifier`, which is absent when that group did not match;
  - `rulesList`, which is `All` or `Rules(names)`.
- `DisableAllRule` (rule.dfy) is the scan in `Rule.applyWithProgram`.
  - `CommentBody` strips the delimiters from each comment.
  - `ApplyWithProgram` is a loop that appends one `Failure` for each
    comment that parses as a disable of `All`.
  - The loop is proved equal to the specification function `Failures`.
    `Failures` reports the comments that the scan's verdict picks, through
    `Reported`, which works for any verdict.
    The lemmas about `Failures` state soundness, completeness, order and
    behaviour under concatenation.

The directive expression `ENABLE_DISABLE_REGEX` belongs to tslint. Its text
is not part of this model, so the model takes its result as input:
- `ParseComment` takes an `Option<Match>`. A `Match` holds the length of
  the whole match and groups 1 to 3.
- The scan takes a `Matcher`, a function from a comment body to such a
  result. It must keep every match inside the body it was given
  (`MatcherFits`).

The tokenizer and compiler API (`utils.forEachComment`, `ts.SourceFile`)
is also replaced by an input: the full text and a sequence of
`Comment(pos, end, kind)` spans.

## Model

| member | source | states |
|---|---|---|
| `Whitespace.IsSpace` | src/noTslintDisableAllRule.ts:93 | `\s` matches exactly the ECMAScript WhiteSpace characters (tab, vertical tab, form feed, byte order mark, every space separator) and LineTerminator characters (line feed, carriage return, U+2028, U+2029). Each of them is a single UTF-16 code unit |
| `Whitespace.Pieces` | src/noTslintDisableAllRule.ts:93 | `split(/\s+/)` always gives at least one piece. No piece contains whitespace, and every piece except the first and last is non-empty |
| `Whitespace.DropEmpty` | src/noTslintDisableAllRule.ts:93 | the filter keeps exactly the non-empty pieces: a string is in the result exactly when it is a non-empty piece of the input. It also distributes over concatenation (`DropEmptyAppend`), so the pieces keep their order |
| `Whitespace.SplitOnSpaces` | src/noTslintDisableAllRule.ts:92-94 | every token is non-empty and contains no whitespace |
| `Whitespace.SplitOnSpacesEmptyIff` | src/noTslintDisableAllRule.ts:92-94 | the result is empty exactly when the input is all whitespace (including the empty string) |
| `Whitespace.SplitJoinRoundTrip` | src/noTslintDisableAllRule.ts:92-94 | splitting tokens that were joined with single spaces gives back the same tokens, in order and with repeats |
| `Whitespace.JoinSplitCollapses` | src/noTslintDisableAllRule.ts:92-94 | joining the tokens with single spaces gives the input with each whitespace run collapsed to one space and both ends trimmed |
| `Whitespace.SplitOnSpacesCollapse` | src/noTslintDisableAllRule.ts:92-94 | splitting the collapsed input gives the same tokens as splitting the input |
| `Whitespace.SplitOnSpacesLeading` | src/noTslintDisableAllRule.ts:92-94 | whitespace before the first token does not change the tokens |
| `DirectiveParser.RuleTokens` | src/noTslintDisableAllRule.ts:73 | the names after the matched prefix are tokens |
| `DirectiveParser.ParseComment` | src/noTslintDisableAllRule.ts:61-90 | no match gives no directive. A directive has `isEnabled` exactly when group 1 is `"enable"`, and it carries group 2 unchanged. A returned list is non-empty, holds only tokens and never contains `"all"` |
| `DirectiveParser.ParseMalformed` | src/noTslintDisableAllRule.ts:73-77 | a match gives no directive exactly when group 3 is `":"` and only whitespace follows the matched prefix |
| `DirectiveParser.ParseTargetsAll` | src/noTslintDisableAllRule.ts:78-85 | the result is `All` exactly when (a) only whitespace follows the prefix and group 3 is not `":"`, or (b) `"all"` is one of the names |
| `DirectiveParser.ParseExplicitList` | src/noTslintDisableAllRule.ts:73-89 | the result is an explicit list exactly when some name follows and none of them is `"all"`. The list is then the names in written order. Joined with single spaces, they give the collapsed text after the prefix |
| `DirectiveParser.ParseWrittenList` | src/noTslintDisableAllRule.ts:73-89 | for a directive written as prefix, whitespace and names, the result is those exact names (order and duplicates kept), or `All` if `"all"` is among them |
| `DisableAllRule.CommentBody` | src/noTslintDisableAllRule.ts:32-35 | the comment span is its body with the first two characters in front, and, for a block comment, the last two characters after it |
| `DisableAllRule.IsDisableAll` | src/noTslintDisableAllRule.ts:37-38 | the failure test passes exactly for a disable directive targeting `All`, whatever the modifier. It never passes for a non-directive, an enable directive or an explicit rule list, whatever the modifier |
| `DisableAllRule.Flagged` | src/noTslintDisableAllRule.ts:32-38 | after delimiter stripping, a comment is flagged exactly when the directive expression matches its body with a keyword other than `"enable"`, and either (a) only whitespace follows the match and the separator is not `":"`, or (b) `"all"` is one of the names written after it |
| `DisableAllRule.FailureFor` | src/noTslintDisableAllRule.ts:39-47 | the failure spans exactly the comment's `pos` to `end` and carries the message "do not disable all tslint rules" and the rule name "no-tslint-disable-all". Two comments give the same failure exactly when their spans are equal |
| `DisableAllRule.ApplyWithProgram` | src/noTslintDisableAllRule.ts:25-52 | the loop returns `Failures`: one failure for each comment that parses as a disable of `All`, in comment order |
| `DisableAllRule.ReportedAppend` | src/noTslintDisableAllRule.ts:30-51 | for any verdict on comments, reporting on two runs of comments gives the first run's failures followed by the second run's |
| `DisableAllRule.FailuresAppend` | src/noTslintDisableAllRule.ts:30-51 | scanning one run of comments after another gives the first run's failures followed by the second run's |
| `DisableAllRule.FailuresSound` | src/noTslintDisableAllRule.ts:37-48 | every failure carries the exact span, message and rule name of a comment that disables all rules |
| `DisableAllRule.FailuresComplete` | src/noTslintDisableAllRule.ts:37-48 | every comment that disables all rules yields a failure with its exact span |
| `DisableAllRule.FailuresInOrder` | src/noTslintDisableAllRule.ts:30-51 | when the comments are in source order, the failures are too, and they do not overlap |
| `DisableAllRule.FailureIffDisableAll` | src/noTslintDisableAllRule.ts:37-48 | for comments in source order, a comment yields a failure exactly when it disables all rules. Enable directives, explicit rule lists and non-directives never do |
| `DisableAllRule.NoFailuresIff` | src/noTslintDisableAllRule.ts:30-51 | the scan reports nothing exactly when no comment disables all rules |
| `DisableAllRule.SameBodySameVerdict` | src/noTslintDisableAllRule.ts:32-36 | a single-line comment and a block comment with the same text between their delimiters get the same verdict |

About the modifier and separator types:
- The type `ParsedComment` (src/noTslintDisableAllRule.ts:55-59) declares
  `modifier: string`, but the code copies `match[2]`, which is `undefined`
  when group 2 did not take part in the match. The model follows the code:
  `modifier` is an `Option<string>`, passed through unchanged.
- Group 3 is likewise an `Option<string>`. An absent separator is not
  `":"`.

## Left out

- `ENABLE_DISABLE_REGEX` comes from tslint, and its text is not part of this model. Its match result is an input (`Match`, `Matcher`), and regular-expression semantics are not modelled.
- The code uses `substr(match[0].length)`, which assumes the match starts at offset 0. The model uses the match length in the same way and requires it to be at most the body length (`Fits`, `MatcherFits`).
- `utils.forEachComment`, `ts.SourceFile`, `ts.SyntaxKind` and the unused `ts.Program` parameter are the TypeScript and tsutils API. They are replaced by the text and a sequence of comment spans. The scan visits the spans in the order given.
- JavaScript `substring` clamps and swaps out-of-range indices. That behaviour is not modelled: comment spans must be well formed (`WellFormed`: at least 2 characters for a single-line comment, at least 4 for a block comment, and within the text).
- Offsets are indices into a sequence of Unicode scalar values, not UTF-16 code units. Every `\s` character is a single UTF-16 unit, so tokenizing is unaffected.
- `Rule.metadata`, the `Lint.Rules.TypedRule` base class and the `RuleFailure` object are host glue. A failure is the datatype `Failure(pos, end, message, ruleName)`, built from the constants `FailureString` and `RuleName`.
