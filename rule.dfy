/** The no-tslint-disable-all rule: every comment of a source file is
    stripped of its delimiters and parsed, and each one that disables all
    rules yields one failure spanning the comment. */
module DisableAllRule {
  import opened Whitespace
  import opened DirectiveParser

  const RuleName: string := "no-tslint-disable-all"
  const FailureString: string := "do not disable all tslint rules"

  datatype CommentKind = SingleLine | MultiLine

  /** A comment of the source text, from offset `pos` up to offset `end`. */
  datatype Comment = Comment(pos: nat, end: nat, kind: CommentKind)

  datatype Failure = Failure(pos: nat, end: nat, message: string, ruleName: string)

  /** The directive expression, applied to a comment body. */
  type Matcher = string -> Option<Match>

  /** Every match the matcher reports lies inside the body it was given. */
  ghost predicate MatcherFits(matcher: Matcher) {
    forall body :: Fits(body, matcher(body))
  }

  /** The span holds its delimiters: `//`, or `/*` and `*/`. */
  predicate WellFormed(text: string, c: Comment) {
    c.end <= |text| &&
    match c.kind
    case SingleLine => c.pos + 2 <= c.end
    case MultiLine => c.pos + 4 <= c.end
  }

  predicate AllWellFormed(text: string, comments: seq<Comment>) {
    forall k :: 0 <= k < |comments| ==> WellFormed(text, comments[k])
  }

  /** The comments come in source order and do not overlap. */
  predicate InSourceOrder(comments: seq<Comment>) {
    forall j, k :: 0 <= j < k < |comments| ==> comments[j].end <= comments[k].pos
  }

  /** The comment text without its delimiters. */
  function CommentBody(text: string, c: Comment): (body: string)
    requires WellFormed(text, c)
    ensures c.kind == SingleLine ==>
              text[c.pos..c.end] == text[c.pos..c.pos + 2] + body
    ensures c.kind == MultiLine ==>
              text[c.pos..c.end] == text[c.pos..c.pos + 2] + body + text[c.end - 2..c.end]
  {
    if c.kind == SingleLine then text[c.pos + 2..c.end]
    else text[c.pos + 2..c.end - 2]
  }

  /** The test applied to a parse: a disable directive targeting every rule.
      No directive, an enable directive and an explicit rule list never pass,
      whatever the modifier. */
  predicate IsDisableAll(p: Option<ParsedComment>): (b: bool)
    ensures p.None? ==> !b
    ensures p.Some? && p.value.isEnabled ==> !b
    ensures p.Some? && p.value.rulesList.Rules? ==> !b
    ensures b <==> p.Some? && p.value == ParsedComment(false, p.value.modifier, All)
  {
    p.Some? && !p.value.isEnabled && p.value.rulesList == All
  }

  /** The comment parses as a directive that disables every rule: the
      directive expression matches its body with a keyword other than
      "enable", and after the match either only whitespace follows and the
      separator is not ":", or "all" is one of the names written. */
  predicate Flagged(text: string, matcher: Matcher, c: Comment): (b: bool)
    requires MatcherFits(matcher) && WellFormed(text, c)
    ensures var body := CommentBody(text, c);
            var m := matcher(body);
            b <==> m.Some? && m.value.keyword != "enable"
                   && ((m.value.separator != Some(":") && AllSpace(body[m.value.prefixLen..]))
                       || "all" in RuleTokens(body, m.value))
  {
    var body := CommentBody(text, c);
    var m := matcher(body);
    if m.Some? then ParseTargetsAll(body, m.value); IsDisableAll(ParseComment(body, m))
    else IsDisableAll(ParseComment(body, m))
  }

  /** The failure reported for a comment: it spans exactly the comment and
      carries the rule's fixed message and name; two comments give the same
      failure exactly when they have the same span. */
  function FailureFor(c: Comment): (f: Failure)
    ensures f.pos == c.pos && f.end == c.end
    ensures f.message == "do not disable all tslint rules" && f.ruleName == "no-tslint-disable-all"
    ensures forall d: Comment :: Failure(d.pos, d.end, FailureString, RuleName) == f
                                 <==> d.pos == c.pos && d.end == c.end
  {
    Failure(c.pos, c.end, FailureString, RuleName)
  }

  /** The failures for the comments a verdict picks, one per picked comment,
      in comment order. */
  function Reported(picked: Comment -> bool, comments: seq<Comment>): (fs: seq<Failure>)
    ensures |fs| <= |comments|
  {
    if comments == [] then []
    else
      (if picked(comments[0]) then [FailureFor(comments[0])] else [])
      + Reported(picked, comments[1..])
  }

  /** The verdict of the scan on one comment of the text. */
  function Verdict(text: string, matcher: Matcher): Comment -> bool
    requires MatcherFits(matcher)
  {
    c => WellFormed(text, c) && Flagged(text, matcher, c)
  }

  /** The failures of the scan: one per flagged comment, in comment order. */
  function Failures(text: string, matcher: Matcher, comments: seq<Comment>): seq<Failure>
    requires MatcherFits(matcher) && AllWellFormed(text, comments)
  {
    Reported(Verdict(text, matcher), comments)
  }

  /** Rule.applyWithProgram */
  method ApplyWithProgram(text: string, matcher: Matcher, comments: seq<Comment>)
    returns (failures: seq<Failure>)
    requires MatcherFits(matcher) && AllWellFormed(text, comments)
    ensures failures == Failures(text, matcher, comments)
  {
    failures := [];
    var i := 0;
    while i < |comments|
      invariant 0 <= i <= |comments|
      invariant AllWellFormed(text, comments[..i])
      invariant failures == Failures(text, matcher, comments[..i])
    {
      var comment := comments[i];
      var commentText := CommentBody(text, comment);
      var parsed := ParseComment(commentText, matcher(commentText));
      FailuresSnoc(text, matcher, comments, i);
      assert IsDisableAll(parsed) == Flagged(text, matcher, comment);
      if parsed.Some? {
        if !parsed.value.isEnabled && parsed.value.rulesList == All {
          failures := failures + [Failure(comment.pos, comment.end, FailureString, RuleName)];
        }
      }
      i := i + 1;
    }
    assert comments[..i] == comments;
  }

  // ---------------------------------------------------------------------
  // Properties of the scan

  /** Reporting on two runs of comments one after the other gives the
      failures of the first run followed by those of the second. */
  lemma {:induction false} ReportedAppend(picked: Comment -> bool, cs: seq<Comment>, ds: seq<Comment>)
    ensures Reported(picked, cs + ds) == Reported(picked, cs) + Reported(picked, ds)
    decreases |cs|
  {
    if cs == [] {
      assert cs + ds == ds;
    } else {
      var head := if picked(cs[0]) then [FailureFor(cs[0])] else [];
      assert (cs + ds)[0] == cs[0];
      assert (cs + ds)[1..] == cs[1..] + ds;
      ReportedAppend(picked, cs[1..], ds);
      calc {
        Reported(picked, cs + ds);
        head + Reported(picked, cs[1..] + ds);
        head + (Reported(picked, cs[1..]) + Reported(picked, ds));
        (head + Reported(picked, cs[1..])) + Reported(picked, ds);
      }
    }
  }

  /** The scan of a non-empty run: the first comment's failure, if any, then
      the failures of the rest. */
  lemma FailuresCons(text: string, matcher: Matcher, comments: seq<Comment>)
    requires MatcherFits(matcher) && AllWellFormed(text, comments) && comments != []
    ensures AllWellFormed(text, comments[1..])
    ensures Failures(text, matcher, comments)
            == (if Flagged(text, matcher, comments[0]) then [FailureFor(comments[0])] else [])
               + Failures(text, matcher, comments[1..])
  {
    assert forall k :: 0 <= k < |comments[1..]| ==> comments[1..][k] == comments[k + 1];
    assert Verdict(text, matcher)(comments[0]) == Flagged(text, matcher, comments[0]);
  }

  /** Scanning two runs of comments one after the other gives the failures of
      the first run followed by those of the second. */
  lemma FailuresAppend(text: string, matcher: Matcher, cs: seq<Comment>, ds: seq<Comment>)
    requires MatcherFits(matcher) && AllWellFormed(text, cs) && AllWellFormed(text, ds)
    ensures AllWellFormed(text, cs + ds)
    ensures Failures(text, matcher, cs + ds) == Failures(text, matcher, cs) + Failures(text, matcher, ds)
  {
    assert forall k :: 0 <= k < |cs + ds| ==> (cs + ds)[k] == if k < |cs| then cs[k] else ds[k - |cs|];
    ReportedAppend(Verdict(text, matcher), cs, ds);
  }

  /** One more comment adds its own failure, if any, at the end. */
  lemma FailuresSnoc(text: string, matcher: Matcher, comments: seq<Comment>, i: nat)
    requires MatcherFits(matcher) && AllWellFormed(text, comments) && i < |comments|
    ensures AllWellFormed(text, comments[..i]) && AllWellFormed(text, comments[..i + 1])
    ensures Failures(text, matcher, comments[..i + 1])
            == Failures(text, matcher, comments[..i])
               + if Flagged(text, matcher, comments[i]) then [FailureFor(comments[i])] else []
  {
    assert comments[..i + 1] == comments[..i] + [comments[i]];
    assert forall k :: 0 <= k < i ==> comments[..i][k] == comments[k];
    FailuresAppend(text, matcher, comments[..i], [comments[i]]);
    FailuresCons(text, matcher, [comments[i]]);
    assert [comments[i]][1..] == [];
  }

  /** Every failure spans a flagged comment of the scan. */
  lemma {:induction false} FailuresSound(text: string, matcher: Matcher, comments: seq<Comment>)
    requires MatcherFits(matcher) && AllWellFormed(text, comments)
    ensures forall f :: f in Failures(text, matcher, comments) ==>
              exists k :: 0 <= k < |comments| && Flagged(text, matcher, comments[k])
                          && f == FailureFor(comments[k])
    decreases |comments|
  {
    if comments != [] {
      var rest := comments[1..];
      FailuresCons(text, matcher, comments);
      FailuresSound(text, matcher, rest);
      forall f | f in Failures(text, matcher, rest)
        ensures exists k :: 0 <= k < |comments| && Flagged(text, matcher, comments[k])
                            && f == FailureFor(comments[k])
      {
        var k :| 0 <= k < |rest| && Flagged(text, matcher, rest[k]) && f == FailureFor(rest[k]);
        assert comments[k + 1] == rest[k];
      }
    }
  }

  /** Every flagged comment yields a failure spanning it. */
  lemma {:induction false} FailuresComplete(text: string, matcher: Matcher, comments: seq<Comment>)
    requires MatcherFits(matcher) && AllWellFormed(text, comments)
    ensures forall k :: 0 <= k < |comments| && Flagged(text, matcher, comments[k]) ==>
              FailureFor(comments[k]) in Failures(text, matcher, comments)
    decreases |comments|
  {
    if comments != [] {
      var rest := comments[1..];
      FailuresCons(text, matcher, comments);
      FailuresComplete(text, matcher, rest);
      assert forall k :: 1 <= k < |comments| ==> comments[k] == rest[k - 1];
    }
  }

  predicate FailuresOrdered(fs: seq<Failure>) {
    forall j, k :: 0 <= j < k < |fs| ==> fs[j].end <= fs[k].pos
  }

  lemma OrderedCons(f: Failure, fs: seq<Failure>)
    requires FailuresOrdered(fs)
    requires forall g :: g in fs ==> f.end <= g.pos
    ensures FailuresOrdered([f] + fs)
  {
    var all := [f] + fs;
    forall j, k | 0 <= j < k < |all|
      ensures all[j].end <= all[k].pos
    {
      assert all[k] == fs[k - 1];
      if j > 0 {
        assert all[j] == fs[j - 1];
      }
    }
  }

  /** Failures come out in source order when the comments do. */
  lemma {:induction false} FailuresInOrder(text: string, matcher: Matcher, comments: seq<Comment>)
    requires MatcherFits(matcher) && AllWellFormed(text, comments) && InSourceOrder(comments)
    ensures FailuresOrdered(Failures(text, matcher, comments))
    decreases |comments|
  {
    if comments != [] {
      var rest := comments[1..];
      FailuresCons(text, matcher, comments);
      assert InSourceOrder(rest) by {
        assert forall k :: 0 <= k < |rest| ==> rest[k] == comments[k + 1];
      }
      FailuresInOrder(text, matcher, rest);
      FailuresSound(text, matcher, rest);
      var fs := Failures(text, matcher, rest);
      forall g | g in fs
        ensures comments[0].end <= g.pos
      {
        var k :| 0 <= k < |rest| && Flagged(text, matcher, rest[k]) && g == FailureFor(rest[k]);
        assert rest[k] == comments[k + 1];
      }
      if Flagged(text, matcher, comments[0]) {
        OrderedCons(FailureFor(comments[0]), fs);
      }
    }
  }

  /** In a scan of comments in source order, a comment yields a failure
      exactly when it is a directive disabling every rule: enable directives,
      directives listing rules and ordinary comments never do. */
  lemma FailureIffDisableAll(text: string, matcher: Matcher, comments: seq<Comment>, c: Comment)
    requires MatcherFits(matcher) && AllWellFormed(text, comments) && InSourceOrder(comments)
    requires c in comments
    ensures FailureFor(c) in Failures(text, matcher, comments) <==> Flagged(text, matcher, c)
  {
    var i :| 0 <= i < |comments| && comments[i] == c;
    FailuresComplete(text, matcher, comments);
    if FailureFor(c) in Failures(text, matcher, comments) {
      FailuresSound(text, matcher, comments);
      var k :| 0 <= k < |comments| && Flagged(text, matcher, comments[k])
               && FailureFor(c) == FailureFor(comments[k]);
      assert k == i;
    }
  }

  /** A scan yields no failure exactly when no comment disables every rule. */
  lemma NoFailuresIff(text: string, matcher: Matcher, comments: seq<Comment>)
    requires MatcherFits(matcher) && AllWellFormed(text, comments)
    ensures Failures(text, matcher, comments) == []
            <==> forall k :: 0 <= k < |comments| ==> !Flagged(text, matcher, comments[k])
  {
    FailuresSound(text, matcher, comments);
    FailuresComplete(text, matcher, comments);
    var fs := Failures(text, matcher, comments);
    if fs != [] {
      assert fs[0] in fs;
    }
  }

  /** A single-line comment and a block comment with the same text between
      their delimiters are judged alike. */
  lemma SameBodySameVerdict(text: string, matcher: Matcher, line: Comment, block: Comment)
    requires MatcherFits(matcher)
    requires WellFormed(text, line) && line.kind == SingleLine
    requires WellFormed(text, block) && block.kind == MultiLine
    requires text[line.pos + 2..line.end] == text[block.pos + 2..block.end - 2]
    ensures Flagged(text, matcher, line) == Flagged(text, matcher, block)
  {
    assert CommentBody(text, line) == CommentBody(text, block);
  }
}
