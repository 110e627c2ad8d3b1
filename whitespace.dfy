/** The whitespace tokenizer `splitOnSpaces`: `str.split(/\s+/)` followed by
    dropping the empty strings. */
module Whitespace {

  /** WhiteSpace of ECMAScript: tab, vertical tab, form feed, the byte order
      mark and every space separator (category Zs). */
  predicate IsWhiteSpace(c: char) {
    || c == '\t' || c == '\U{000B}' || c == '\U{000C}' || c == '\U{FEFF}'
    || c == ' ' || c == '\U{00A0}' || c == '\U{1680}' || '\U{2000}' <= c <= '\U{200A}'
    || c == '\U{202F}' || c == '\U{205F}' || c == '\U{3000}'
  }

  /** LineTerminator of ECMAScript: line feed, carriage return, line and
      paragraph separators. */
  predicate IsLineTerminator(c: char) {
    c == '\n' || c == '\r' || c == '\U{2028}' || c == '\U{2029}'
  }

  /** The characters matched by `\s` in an ECMAScript regular expression:
      exactly the WhiteSpace and LineTerminator code points, all of them in
      the Basic Multilingual Plane (one UTF-16 code unit each). */
  predicate IsSpace(c: char): (b: bool)
    ensures b <==> IsWhiteSpace(c) || IsLineTerminator(c)
    ensures b ==> c as int < 0x1_0000
  {
    var n := c as int;
    || n == 0x09 || n == 0x0A || n == 0x0B || n == 0x0C || n == 0x0D || n == 0x20
    || n == 0xA0 || n == 0x1680 || 0x2000 <= n <= 0x200A
    || n == 0x2028 || n == 0x2029 || n == 0x202F || n == 0x205F
    || n == 0x3000 || n == 0xFEFF
  }

  predicate NoSpace(s: string) {
    forall k :: 0 <= k < |s| ==> !IsSpace(s[k])
  }

  predicate AllSpace(s: string) {
    forall k :: 0 <= k < |s| ==> IsSpace(s[k])
  }

  /** A token: a non-empty string without whitespace. */
  predicate IsToken(t: string) {
    t != [] && NoSpace(t)
  }

  predicate AllTokens(ts: seq<string>) {
    forall k :: 0 <= k < |ts| ==> IsToken(ts[k])
  }

  /** Length of the longest prefix of `s` holding no whitespace. */
  function SpanNonSpace(s: string): (r: nat)
    ensures r <= |s|
    ensures forall k :: 0 <= k < r ==> !IsSpace(s[k])
    ensures r < |s| ==> IsSpace(s[r])
  {
    if s == [] || IsSpace(s[0]) then 0 else 1 + SpanNonSpace(s[1..])
  }

  /** Length of the longest prefix of `s` made of whitespace only. */
  function SpanSpace(s: string): (r: nat)
    ensures r <= |s|
    ensures forall k :: 0 <= k < r ==> IsSpace(s[k])
    ensures r < |s| ==> !IsSpace(s[r])
  {
    if s == [] || !IsSpace(s[0]) then 0 else 1 + SpanSpace(s[1..])
  }

  /** End of the first whitespace run of `s`, when `s` holds whitespace. */
  function RunEnd(s: string): (j: nat)
    requires SpanNonSpace(s) < |s|
    ensures SpanNonSpace(s) < j <= |s|
    ensures forall k :: SpanNonSpace(s) <= k < j ==> IsSpace(s[k])
    ensures j < |s| ==> !IsSpace(s[j])
  {
    var i := SpanNonSpace(s);
    var r := SpanSpace(s[i..]);
    assert forall k :: i <= k < i + r ==> s[k] == s[i..][k - i];
    i + r
  }

  /** `s.split(/\s+/)`: the leftmost maximal whitespace run separates the
      first piece from the split of the remainder. The first and the last
      piece may be empty; the pieces between are not. */
  function Pieces(s: string): (ps: seq<string>)
    ensures |ps| >= 1
    ensures forall k :: 0 <= k < |ps| ==> NoSpace(ps[k])
    ensures forall k :: 0 < k < |ps| - 1 ==> ps[k] != []
    decreases |s|
  {
    if SpanNonSpace(s) == |s| then [s]
    else [s[..SpanNonSpace(s)]] + Pieces(s[RunEnd(s)..])
  }

  /** `ps.filter(s => s !== "")` */
  function DropEmpty(ps: seq<string>): (r: seq<string>)
    ensures forall k :: 0 <= k < |r| ==> r[k] != [] && r[k] in ps
    ensures forall x :: x in r <==> x in ps && x != []
  {
    if ps == [] then []
    else (if ps[0] == [] then [] else [ps[0]]) + DropEmpty(ps[1..])
  }

  /** splitOnSpaces */
  function SplitOnSpaces(s: string): (ts: seq<string>)
    ensures AllTokens(ts)
  {
    DropEmpty(Pieces(s))
  }

  /** The tokens joined back with one space between neighbours. */
  function JoinSpaces(ts: seq<string>): string {
    if ts == [] then []
    else if |ts| == 1 then ts[0]
    else ts[0] + " " + JoinSpaces(ts[1..])
  }

  /** Every maximal run of whitespace replaced by a single space. */
  function Squeeze(s: string): string
    decreases |s|
  {
    if s == [] then []
    else if IsSpace(s[0]) then " " + Squeeze(s[SpanSpace(s)..])
    else [s[0]] + Squeeze(s[1..])
  }

  /** Leading whitespace removed. */
  function TrimStart(s: string): string {
    if s != [] && IsSpace(s[0]) then TrimStart(s[1..]) else s
  }

  /** Trailing whitespace removed. */
  function TrimEnd(s: string): string {
    if s != [] && IsSpace(s[|s| - 1]) then TrimEnd(s[..|s| - 1]) else s
  }

  /** `s` with its whitespace runs collapsed to one space and its ends trimmed. */
  function Collapse(s: string): string {
    TrimEnd(TrimStart(Squeeze(s)))
  }

  // ---------------------------------------------------------------------
  // Unfolding splitOnSpaces one whitespace run at a time

  lemma {:induction false} DropEmptyAppend(ps: seq<string>, qs: seq<string>)
    ensures DropEmpty(ps + qs) == DropEmpty(ps) + DropEmpty(qs)
  {
    if ps == [] {
      assert ps + qs == qs;
    } else {
      assert (ps + qs)[1..] == ps[1..] + qs;
      DropEmptyAppend(ps[1..], qs);
    }
  }

  /** The first piece of `s`, before its first whitespace run, is a token
      unless it is empty; the rest is the split of what follows that run. */
  lemma SplitOnSpacesUnfold(s: string)
    requires SpanNonSpace(s) < |s|
    ensures SplitOnSpaces(s) ==
            (if SpanNonSpace(s) == 0 then [] else [s[..SpanNonSpace(s)]])
            + SplitOnSpaces(s[RunEnd(s)..])
  {
    DropEmptyAppend([s[..SpanNonSpace(s)]], Pieces(s[RunEnd(s)..]));
  }

  /** A string without whitespace is a single token, or none when empty. */
  lemma SplitOnSpacesWord(s: string)
    requires NoSpace(s)
    ensures SplitOnSpaces(s) == if s == [] then [] else [s]
  {
    assert SpanNonSpace(s) == |s| by {
      if SpanNonSpace(s) < |s| {
        assert IsSpace(s[SpanNonSpace(s)]);
      }
    }
    assert Pieces(s) == [s];
    assert DropEmpty([s]) == (if s == [] then [] else [s]) + DropEmpty([s][1..]);
    assert [s][1..] == [];
  }

  /** Leading whitespace does not change the tokens. */
  lemma SplitOnSpacesLeading(w: string, s: string)
    requires AllSpace(w)
    requires s == [] || !IsSpace(s[0])
    ensures SplitOnSpaces(w + s) == SplitOnSpaces(s)
  {
    if w != [] {
      var t := w + s;
      assert IsSpace(t[0]);
      SplitOnSpacesUnfold(t);
      assert forall k :: 0 <= k < |w| ==> t[k] == w[k];
      assert RunEnd(t) == |w| by {
        if |w| < |t| {
          assert t[|w|] == s[0];
        }
      }
      assert t[|w|..] == s;
    } else {
      assert w + s == s;
    }
  }

  // ---------------------------------------------------------------------
  // splitOnSpaces yields no token exactly for a blank input

  /** splitOnSpaces yields no token exactly when the input is all whitespace. */
  lemma {:induction false} SplitOnSpacesEmptyIff(s: string)
    ensures SplitOnSpaces(s) == [] <==> AllSpace(s)
    decreases |s|
  {
    if SpanNonSpace(s) == |s| {
      SplitOnSpacesWord(s);
    } else {
      SplitOnSpacesUnfold(s);
      var j := RunEnd(s);
      SplitOnSpacesEmptyIff(s[j..]);
      if SpanNonSpace(s) == 0 {
        assert forall k :: j <= k < |s| ==> s[k] == s[j..][k - j];
      }
    }
  }

  /** A token followed by a whitespace run is the first token. */
  lemma SplitOnSpacesWordThen(t: string, w: string, v: string)
    requires IsToken(t) && w != [] && AllSpace(w)
    requires v == [] || !IsSpace(v[0])
    ensures SplitOnSpaces(t + w + v) == [t] + SplitOnSpaces(v)
  {
    var s := t + w + v;
    assert forall k :: 0 <= k < |t| ==> s[k] == t[k];
    assert forall k :: |t| <= k < |t| + |w| ==> s[k] == w[k - |t|];
    assert SpanNonSpace(s) == |t| by {
      assert IsSpace(s[|t|]);
    }
    assert RunEnd(s) == |t| + |w| by {
      if |t| + |w| < |s| {
        assert s[|t| + |w|] == v[0];
      }
    }
    SplitOnSpacesUnfold(s);
    assert s[..|t|] == t;
    assert s[|t| + |w|..] == v;
  }

  // ---------------------------------------------------------------------
  // Round trip: splitting tokens joined by single spaces gives them back

  lemma {:induction false} JoinSpacesStartsWith(ts: seq<string>)
    requires AllTokens(ts) && ts != []
    ensures JoinSpaces(ts) != [] && JoinSpaces(ts)[0] == ts[0][0]
  {
    assert IsToken(ts[0]);
  }

  lemma {:induction false} SplitJoinRoundTrip(ts: seq<string>)
    requires AllTokens(ts)
    ensures SplitOnSpaces(JoinSpaces(ts)) == ts
    decreases |ts|
  {
    if ts == [] {
      SplitOnSpacesWord([]);
    } else if |ts| == 1 {
      assert IsToken(ts[0]);
      SplitOnSpacesWord(ts[0]);
    } else {
      assert IsToken(ts[0]);
      assert AllTokens(ts[1..]) by {
        assert forall k :: 0 <= k < |ts[1..]| ==> ts[1..][k] == ts[k + 1];
      }
      JoinSpacesStartsWith(ts[1..]);
      assert IsToken(ts[1]);
      SplitOnSpacesWordThen(ts[0], " ", JoinSpaces(ts[1..]));
      SplitJoinRoundTrip(ts[1..]);
    }
  }

  // ---------------------------------------------------------------------
  // Joining the tokens gives the input with its whitespace collapsed

  lemma {:induction false} SqueezeWord(s: string, i: nat)
    requires i <= |s|
    requires forall k :: 0 <= k < i ==> !IsSpace(s[k])
    ensures Squeeze(s) == s[..i] + Squeeze(s[i..])
    decreases i
  {
    if i > 0 {
      assert !IsSpace(s[0]);
      SqueezeWord(s[1..], i - 1);
      assert s[1..][i - 1..] == s[i..];
      assert s[..i] == [s[0]] + s[1..][..i - 1];
    }
  }

  lemma {:induction false} TrimEndAppend(x: string, y: string)
    requires y != [] && !IsSpace(y[0])
    ensures TrimEnd(x + y) == x + TrimEnd(y)
    decreases |y|
  {
    var xy := x + y;
    assert xy[|xy| - 1] == y[|y| - 1];
    if IsSpace(y[|y| - 1]) {
      assert xy[..|xy| - 1] == x + y[..|y| - 1];
      TrimEndAppend(x, y[..|y| - 1]);
    }
  }

  /** A string without whitespace collapses to itself. */
  lemma CollapseWord(s: string)
    requires NoSpace(s)
    ensures Collapse(s) == s
  {
    SqueezeWord(s, |s|);
    assert s[|s|..] == [];
  }

  lemma SpanSpaceOfRun(w: string, v: string)
    requires AllSpace(w)
    requires v == [] || !IsSpace(v[0])
    ensures SpanSpace(w + v) == |w| && (w + v)[|w|..] == v
  {
    var s := w + v;
    assert forall k :: 0 <= k < |w| ==> s[k] == w[k];
    if |w| < |s| {
      assert s[|w|] == v[0];
    }
  }

  /** A whitespace run squeezes to a single space. */
  lemma SqueezeRun(w: string, v: string)
    requires w != [] && AllSpace(w)
    requires v == [] || !IsSpace(v[0])
    ensures Squeeze(w + v) == " " + Squeeze(v)
  {
    SpanSpaceOfRun(w, v);
  }

  /** A leading whitespace run vanishes from the collapsed string. */
  lemma CollapseLeadingRun(w: string, v: string)
    requires w != [] && AllSpace(w)
    requires v == [] || !IsSpace(v[0])
    ensures Collapse(w + v) == Collapse(v)
  {
    SqueezeRun(w, v);
    assert (" " + Squeeze(v))[1..] == Squeeze(v);
  }

  /** Characters other than whitespace pass through the squeeze unchanged. */
  lemma {:induction false} SqueezePrefix(t: string, u: string)
    requires NoSpace(t)
    ensures Squeeze(t + u) == t + Squeeze(u)
    decreases |t|
  {
    if t != [] {
      assert !IsSpace(t[0]);
      assert NoSpace(t[1..]) by {
        assert forall k :: 0 <= k < |t[1..]| ==> t[1..][k] == t[k + 1];
      }
      SqueezePrefix(t[1..], u);
      assert (t + u)[0] == t[0];
      assert (t + u)[1..] == t[1..] + u;
    } else {
      assert t + u == u;
    }
  }

  lemma SqueezeWordThen(t: string, w: string, v: string)
    requires IsToken(t) && w != [] && AllSpace(w)
    requires v == [] || !IsSpace(v[0])
    ensures Squeeze(t + w + v) == t + " " + Squeeze(v)
  {
    SqueezePrefix(t, w + v);
    assert t + w + v == t + (w + v);
    SqueezeRun(w, v);
  }

  /** A token and a whitespace run collapse to the token and one space,
      which is trimmed when nothing follows. */
  lemma CollapseWordThen(t: string, w: string, v: string)
    requires IsToken(t) && w != [] && AllSpace(w)
    requires v == [] || !IsSpace(v[0])
    ensures Collapse(t + w + v) == if v == [] then t else t + " " + Collapse(v)
  {
    SqueezeWordThen(t, w, v);
    var sq := t + " " + Squeeze(v);
    assert TrimStart(sq) == sq by {
      assert sq[0] == t[0];
    }
    if v == [] {
      assert sq == t + " ";
      assert sq[..|t|] == t;
      assert TrimEnd(t) == t by {
        assert !IsSpace(t[|t| - 1]);
      }
    } else {
      assert Squeeze(v) == [v[0]] + Squeeze(v[1..]);
      TrimEndAppend(t + " ", Squeeze(v));
    }
  }

  lemma JoinSpacesCons(t: string, ts: seq<string>)
    ensures JoinSpaces([t] + ts) == if ts == [] then t else t + " " + JoinSpaces(ts)
  {
    assert ([t] + ts)[1..] == ts;
  }

  lemma Concat3(s: string, i: nat, j: nat)
    requires i <= j <= |s|
    ensures s == s[..i] + s[i..j] + s[j..]
  {
    assert s[..i] + s[i..j] == s[..j];
  }

  /** The input split at its first whitespace run: a first piece without
      whitespace, the run itself, and a rest that does not start with one. */
  lemma SplitAtRun(s: string, t: string, w: string, v: string)
    requires SpanNonSpace(s) < |s|
    requires t == s[..SpanNonSpace(s)] && w == s[SpanNonSpace(s)..RunEnd(s)] && v == s[RunEnd(s)..]
    ensures s == t + w + v
    ensures NoSpace(t) && w != [] && AllSpace(w)
    ensures v == [] || !IsSpace(v[0])
  {
    Concat3(s, SpanNonSpace(s), RunEnd(s));
    assert v != [] ==> v[0] == s[RunEnd(s)];
  }

  lemma {:induction false} JoinSplitCollapses(s: string)
    ensures JoinSpaces(SplitOnSpaces(s)) == Collapse(s)
    decreases |s|
  {
    var i := SpanNonSpace(s);
    if i == |s| {
      SplitOnSpacesWord(s);
      CollapseWord(s);
    } else {
      var t, w, v := s[..i], s[i..RunEnd(s)], s[RunEnd(s)..];
      SplitAtRun(s, t, w, v);
      SplitOnSpacesUnfold(s);
      JoinSplitCollapses(v);
      if i == 0 {
        assert s == w + v;
        assert SplitOnSpaces(s) == SplitOnSpaces(v);
        CollapseLeadingRun(w, v);
      } else {
        CollapseWordThen(t, w, v);
        JoinSpacesCons(t, SplitOnSpaces(v));
        SplitOnSpacesEmptyIff(v);
      }
    }
  }

  /** Splitting the collapsed input gives the same tokens. */
  lemma SplitOnSpacesCollapse(s: string)
    ensures SplitOnSpaces(Collapse(s)) == SplitOnSpaces(s)
  {
    JoinSplitCollapses(s);
    SplitJoinRoundTrip(SplitOnSpaces(s));
  }
}
