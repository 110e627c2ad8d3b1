/** The directive parser `parseComment`: from a comment body and the match
    of tslint's enable/disable directive expression on it, the parsed
    directive, or nothing for a comment that is not one. */
module DirectiveParser {
  import opened Whitespace

  datatype Option<+T> = None | Some(value: T)

  /** What the directive expression reports when it matches a comment body:
      the length of the whole match (group 0), the keyword (group 1), the
      modifier (group 2, absent when that group did not take part) and the
      separator after them (group 3, likewise). */
  datatype Match = Match(prefixLen: nat, keyword: string, modifier: Option<string>, separator: Option<string>)

  /** A match lies inside the text it was taken from. */
  predicate Fits(text: string, m: Option<Match>) {
    m.Some? ==> m.value.prefixLen <= |text|
  }

  /** The rules a directive switches: every rule, or the listed ones. */
  datatype RulesList = All | Rules(names: seq<string>)

  datatype ParsedComment = ParsedComment(isEnabled: bool, modifier: Option<string>, rulesList: RulesList)

  /** The rule names written after the matched directive prefix. */
  function RuleTokens(text: string, m: Match): (ts: seq<string>)
    requires m.prefixLen <= |text|
    ensures AllTokens(ts)
  {
    SplitOnSpaces(text[m.prefixLen..])
  }

  /** parseComment */
  function ParseComment(text: string, m: Option<Match>): (r: Option<ParsedComment>)
    requires Fits(text, m)
    ensures r.Some? ==> m.Some?
    ensures r.Some? ==> r.value.isEnabled == (m.value.keyword == "enable")
    ensures r.Some? ==> r.value.modifier == m.value.modifier
    ensures r.Some? && r.value.rulesList.Rules? ==>
              r.value.rulesList.names != [] && AllTokens(r.value.rulesList.names)
              && "all" !in r.value.rulesList.names
  {
    match m
    case None => None
    case Some(mt) =>
      var rulesList := RuleTokens(text, mt);
      if |rulesList| == 0 && mt.separator == Some(":") then None
      else if |rulesList| == 0 || "all" in rulesList then
        Some(ParsedComment(mt.keyword == "enable", mt.modifier, All))
      else
        Some(ParsedComment(mt.keyword == "enable", mt.modifier, Rules(rulesList)))
  }

  /** A matched directive is rejected exactly when its separator is ":" and
      only whitespace follows the match. */
  lemma ParseMalformed(text: string, mt: Match)
    requires mt.prefixLen <= |text|
    ensures ParseComment(text, Some(mt)).None?
            <==> mt.separator == Some(":") && AllSpace(text[mt.prefixLen..])
  {
    SplitOnSpacesEmptyIff(text[mt.prefixLen..]);
  }

  /** A matched directive targets every rule exactly when nothing but
      whitespace follows the match and the separator is not ":", or when
      "all" is one of the names written after it. */
  lemma ParseTargetsAll(text: string, mt: Match)
    requires mt.prefixLen <= |text|
    ensures var r := ParseComment(text, Some(mt));
            r.Some? && r.value.rulesList == All
            <==> (mt.separator != Some(":") && AllSpace(text[mt.prefixLen..]))
                 || "all" in RuleTokens(text, mt)
  {
    SplitOnSpacesEmptyIff(text[mt.prefixLen..]);
  }

  /** Otherwise the directive lists exactly the names written after the match,
      in their order and with their repetitions; joined with single spaces
      they give that text with its whitespace collapsed. */
  lemma ParseExplicitList(text: string, mt: Match)
    requires mt.prefixLen <= |text|
    ensures var r := ParseComment(text, Some(mt));
            r.Some? && r.value.rulesList.Rules?
            <==> !AllSpace(text[mt.prefixLen..]) && "all" !in RuleTokens(text, mt)
    ensures var r := ParseComment(text, Some(mt));
            r.Some? && r.value.rulesList.Rules? ==>
              r.value.rulesList.names == RuleTokens(text, mt)
              && JoinSpaces(r.value.rulesList.names) == Collapse(text[mt.prefixLen..])
  {
    SplitOnSpacesEmptyIff(text[mt.prefixLen..]);
    JoinSplitCollapses(text[mt.prefixLen..]);
  }

  /** A directive written as the match, some whitespace and a list of rule
      names: the names come back as written when "all" is not among them,
      and the directive targets every rule when it is. */
  lemma ParseWrittenList(text: string, mt: Match, ws: string, names: seq<string>)
    requires mt.prefixLen <= |text|
    requires text[mt.prefixLen..] == ws + JoinSpaces(names)
    requires AllSpace(ws) && AllTokens(names) && names != []
    ensures ParseComment(text, Some(mt)) ==
            Some(ParsedComment(mt.keyword == "enable", mt.modifier,
                               if "all" in names then All else Rules(names)))
  {
    JoinSpacesStartsWith(names);
    assert IsToken(names[0]);
    SplitOnSpacesLeading(ws, JoinSpaces(names));
    SplitJoinRoundTrip(names);
  }
}
