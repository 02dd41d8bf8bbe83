/**
 * Code-fence stripping of the vision model's reply, the step of
 * `extract_event_details` that runs before `json.loads`:
 *
 *     re.search(r"```(?:json)?\s*(\{.*\})\s*```", content, re.DOTALL)
 *
 * and, on a match, `content = match.group(1)`.
 *
 * `re.search` tries start positions from left to right. At a start p the
 * opening part is deterministic: after the three backquotes an optional
 * "json" is taken when present, then every whitespace character, and the
 * next character must be '{'. The greedy, DOTALL `.*` then settles on the
 * LAST '}' that is followed by whitespace and three backquotes. `SearchFrom`
 * computes that; `MatchAt` states the pattern declaratively, and the lemmas
 * `SearchFindsMatch`, `SearchFindsLeftmost`, `SearchFindsLongest` and
 * `SearchFindsNothing` show that the search returns the
 * leftmost match and, at its start, the longest group.
 */
module FenceStripping {
  import opened Wrappers
  import opened JsonValues

  /** The characters Python's `\s` matches in a str pattern (`str.isspace`). */
  predicate IsSpace(c: char)
  {
    c == ' ' || c == '\t' || c == '\n' || c == '\r' || c == '\U{0B}' || c == '\U{0C}'
    || ('\U{1C}' <= c <= '\U{1F}') || c == '\U{85}' || c == '\U{A0}' || c == '\U{1680}'
    || ('\U{2000}' <= c <= '\U{200A}') || c == '\U{2028}' || c == '\U{2029}'
    || c == '\U{202F}' || c == '\U{205F}' || c == '\U{3000}'
  }

  predicate AllSpace(s: string, i: nat, j: nat)
    requires i <= j <= |s|
  {
    forall k :: i <= k < j ==> IsSpace(s[k])
  }

  /** `\s*` from i: the end of the whitespace run that starts at i. */
  function SkipSpace(s: string, i: nat): (j: nat)
    requires i <= |s|
    ensures i <= j <= |s| && AllSpace(s, i, j)
    ensures j < |s| ==> !IsSpace(s[j])
    decreases |s| - i
  {
    if i < |s| && IsSpace(s[i]) then SkipSpace(s, i + 1) else i
  }

  /** A whitespace run followed by a non-space character ends at that character. */
  lemma {:induction false} SkipSpaceStopsAt(s: string, i: nat, j: nat)
    requires i <= j < |s| && AllSpace(s, i, j) && !IsSpace(s[j])
    ensures SkipSpace(s, i) == j
    decreases j - i
  {
    if i < j {
      SkipSpaceStopsAt(s, i + 1, j);
    }
  }

  // ------------------------------------------------ the pattern, declaratively

  /** Three backquotes start at i. */
  predicate FenceAt(s: string, i: nat)
  {
    i + 3 <= |s| && s[i..i + 3] == "```"
  }

  /** "```", an optional "json", whitespace, then the '{' at b. */
  predicate OpensAt(s: string, p: nat, b: nat)
  {
    && p + 3 <= b < |s|
    && FenceAt(s, p)
    && (AllSpace(s, p + 3, b) || (p + 7 <= b && s[p + 3..p + 7] == "json" && AllSpace(s, p + 7, b)))
    && s[b] == '{'
  }

  /** The '}' at e, whitespace, then the closing "```" at f. */
  predicate ClosesWith(s: string, e: nat, f: nat)
  {
    e < f < |s| && s[e] == '}' && AllSpace(s, e + 1, f) && FenceAt(s, f)
  }

  /** The pattern matches from p, with group 1 being `s[b..e + 1]`. */
  ghost predicate MatchAt(s: string, p: nat, b: nat, e: nat, f: nat)
  {
    OpensAt(s, p, b) && b < e && ClosesWith(s, e, f)
  }

  // --------------------------------------------------------------- the search

  /** Where the group's '{' is when the pattern's opening part matches at p. */
  function OpenAt(s: string, p: nat): (r: Option<nat>)
    ensures r.Some? ==> OpensAt(s, p, r.value)
  {
    if FenceAt(s, p) then
      var j := if p + 7 <= |s| && s[p + 3..p + 7] == "json" then p + 7 else p + 3;
      var b := SkipSpace(s, j);
      if b < |s| && s[b] == '{' then Some(b) else None
    else
      None
  }

  /** The opening part determines the '{': `OpenAt` finds every one there is. */
  lemma OpenAtComplete(s: string, p: nat, b: nat)
    requires OpensAt(s, p, b)
    ensures OpenAt(s, p) == Some(b)
  {
    if p + 7 <= |s| && s[p + 3..p + 7] == "json" {
      assert s[p + 3] == 'j' && !IsSpace(s[p + 3]);
      assert !AllSpace(s, p + 3, b);
      SkipSpaceStopsAt(s, p + 7, b);
    } else {
      SkipSpaceStopsAt(s, p + 3, b);
    }
  }

  /** A '}' at e that the closing part of the pattern can follow. */
  predicate ClosesAt(s: string, e: nat)
  {
    e < |s| && s[e] == '}' && FenceAt(s, SkipSpace(s, e + 1))
  }

  lemma ClosesAtIff(s: string, e: nat)
    ensures ClosesAt(s, e) ==> ClosesWith(s, e, SkipSpace(s, e + 1))
    ensures forall f :: ClosesWith(s, e, f) ==> ClosesAt(s, e)
  {
    forall f | ClosesWith(s, e, f)
      ensures ClosesAt(s, e)
    {
      SkipSpaceStopsAt(s, e + 1, f);
    }
  }

  /** The greedy `.*`: the last e with lo < e < hi at which the pattern can close. */
  function LastClose(s: string, lo: nat, hi: nat): (r: Option<nat>)
    requires hi <= |s|
    ensures r.Some? ==> lo < r.value < hi && ClosesAt(s, r.value)
    ensures r.Some? ==> forall e :: r.value < e < hi ==> !ClosesAt(s, e)
    ensures r.None? ==> forall e :: lo < e < hi ==> !ClosesAt(s, e)
    decreases hi
  {
    if hi <= lo + 1 then None
    else if ClosesAt(s, hi - 1) then Some(hi - 1)
    else LastClose(s, lo, hi - 1)
  }

  /** A match found by `re.search` from position p on: (start, '{', '}'). */
  function SearchFrom(s: string, p: nat): (r: Option<(nat, nat, nat)>)
    requires p <= |s|
    ensures r.Some? ==> p <= r.value.0 && OpenAt(s, r.value.0) == Some(r.value.1)
    ensures r.Some? ==> r.value.1 < r.value.2 < |s| && ClosesAt(s, r.value.2)
    decreases |s| - p
  {
    if p == |s| then None
    else
      match OpenAt(s, p)
      case Some(b) =>
        (match LastClose(s, b, |s|)
         case Some(e) => Some((p, b, e))
         case None => SearchFrom(s, p + 1))
      case None => SearchFrom(s, p + 1)
  }

  /** No match of the pattern starts at p. */
  ghost predicate NoMatchAt(s: string, p: nat)
  {
    forall b: nat, e: nat, f: nat :: !MatchAt(s, p, b, e, f)
  }

  lemma NoMatchWhenSearchMoves(s: string, p: nat)
    requires p < |s|
    requires OpenAt(s, p).None? || LastClose(s, OpenAt(s, p).value, |s|).None?
    ensures NoMatchAt(s, p)
  {
    forall b: nat, e: nat, f: nat | MatchAt(s, p, b, e, f)
      ensures false
    {
      OpenAtComplete(s, p, b);
      ClosesAtIff(s, e);
    }
  }

  /** A search that reports nothing leaves no match at any q from p on. */
  lemma {:induction false} SearchFindsNothing(s: string, p: nat, q: nat)
    requires p <= q && p <= |s| && SearchFrom(s, p).None?
    ensures NoMatchAt(s, q)
    decreases |s| - p
  {
    if p < |s| && p < q {
      SearchFindsNothing(s, p + 1, q);
    } else if q < |s| {
      NoMatchWhenSearchMoves(s, q);
    } else {
      NoMatchBeyondEnd(s, q);
    }
  }

  /** No match can start where three backquotes no longer fit. */
  lemma NoMatchBeyondEnd(s: string, q: nat)
    requires |s| <= q
    ensures NoMatchAt(s, q)
  {
  }

  /** A match the search reports is a match of the pattern. */
  lemma SearchFindsMatch(s: string, p: nat)
    requires p <= |s| && SearchFrom(s, p).Some?
    ensures var (q, b, e) := SearchFrom(s, p).value; MatchAt(s, q, b, e, SkipSpace(s, e + 1))
  {
    var (q, b, e) := SearchFrom(s, p).value;
    ClosesAtIff(s, e);
  }

  /** No match starts to the left of the one the search reports. */
  lemma {:induction false} SearchFindsLeftmost(s: string, p: nat, q: nat)
    requires p <= |s| && SearchFrom(s, p).Some? && p <= q < SearchFrom(s, p).value.0
    ensures NoMatchAt(s, q)
    decreases |s| - p
  {
    SearchMoves(s, p);
    if p < q {
      SearchFindsLeftmost(s, p + 1, q);
    }
  }

  /** When the search moves past p, nothing matches at p and the search goes on from p + 1. */
  lemma SearchMoves(s: string, p: nat)
    requires p <= |s| && SearchFrom(s, p).Some? && SearchFrom(s, p).value.0 != p
    ensures p < |s| && NoMatchAt(s, p) && SearchFrom(s, p + 1) == SearchFrom(s, p)
  {
    NoMatchWhenSearchMoves(s, p);
  }

  /** From the reported start, no match has a longer group: `.*` is greedy. */
  lemma SearchFindsLongest(s: string, p: nat)
    requires p <= |s| && SearchFrom(s, p).Some?
    ensures var (q, b, e) := SearchFrom(s, p).value;
      forall b': nat, e': nat, f': nat :: e < e' ==> !MatchAt(s, q, b', e', f')
  {
    var (q, b, e) := SearchFrom(s, p).value;
    SearchAtStart(s, p);
    forall b': nat, e': nat, f': nat | e < e' && MatchAt(s, q, b', e', f')
      ensures false
    {
      OpenAtComplete(s, q, b');
      ClosesAtIff(s, e');
    }
  }

  /** The reported '}' is the last closing one after the reported '{'. */
  lemma {:induction false} SearchAtStart(s: string, p: nat)
    requires p <= |s| && SearchFrom(s, p).Some?
    ensures var (q, b, e) := SearchFrom(s, p).value; LastClose(s, b, |s|) == Some(e)
    decreases |s| - p
  {
    if SearchFrom(s, p).value.0 != p {
      SearchAtStart(s, p + 1);
    }
  }

  // -------------------------------------------------------------- stripping

  /** `re.search(pattern, content, re.DOTALL)` and `match.group(1)` if any. */
  function StripFence(content: string): (r: string)
    ensures SearchFrom(content, 0).Some? ==> |r| >= 2 && r[0] == '{' && r[|r| - 1] == '}'
    ensures SearchFrom(content, 0).None? ==> r == content
  {
    match SearchFrom(content, 0)
    case Some((_, b, e)) => content[b..e + 1]
    case None => content
  }

  /**
   * The stripped content is group 1 of the leftmost match, taken at its
   * longest: stated against the pattern alone, without the search.
   */
  lemma StripFenceIsGroup(content: string, q: nat, b: nat, e: nat, f: nat)
    requires MatchAt(content, q, b, e, f)
    requires forall q': nat :: q' < q ==> NoMatchAt(content, q')
    requires forall b': nat, e': nat, f': nat :: e < e' ==> !MatchAt(content, q, b', e', f')
    ensures SearchFrom(content, 0) == Some((q, b, e))
    ensures StripFence(content) == content[b..e + 1]
  {
    SearchStartsAtLeftmost(content, q, b, e, f);
    var (q0, b0, e0) := SearchFrom(content, 0).value;
    ReportedGroupIs(content, q, b, e, f, b0, e0);
  }

  /** A search that starts at q reports the '{' and the last '}' of the matches there. */
  lemma ReportedGroupIs(content: string, q: nat, b: nat, e: nat, f: nat, b0: nat, e0: nat)
    requires SearchFrom(content, 0) == Some((q, b0, e0))
    requires MatchAt(content, q, b, e, f)
    requires forall b': nat, e': nat, f': nat :: e < e' ==> !MatchAt(content, q, b', e', f')
    ensures b0 == b && e0 == e
  {
    OpenAtComplete(content, q, b);
    SearchFindsLongest(content, 0);
    SearchFindsMatch(content, 0);
  }

  /** The search starts at the leftmost position where the pattern matches. */
  lemma SearchStartsAtLeftmost(content: string, q: nat, b: nat, e: nat, f: nat)
    requires MatchAt(content, q, b, e, f)
    requires forall q': nat :: q' < q ==> NoMatchAt(content, q')
    ensures SearchFrom(content, 0).Some? && SearchFrom(content, 0).value.0 == q
  {
    SearchReachesMatch(content, q, b, e, f);
    LeftmostReported(content, q);
  }

  /** The search never reports a start left of q when nothing matches there. */
  lemma LeftmostReported(content: string, q: nat)
    requires SearchFrom(content, 0).Some?
    requires forall q': nat :: q' < q ==> NoMatchAt(content, q')
    ensures q <= SearchFrom(content, 0).value.0
  {
    var (q0, b0, e0) := SearchFrom(content, 0).value;
    ReportedStartMatches(content, q0, b0, e0);
  }

  /** Something matches at the start the search reports. */
  lemma ReportedStartMatches(content: string, q0: nat, b0: nat, e0: nat)
    requires SearchFrom(content, 0) == Some((q0, b0, e0))
    ensures !NoMatchAt(content, q0)
  {
    SearchFindsMatch(content, 0);
    MatchRefutesNoMatch(content, q0, b0, e0, SkipSpace(content, e0 + 1));
  }

  /** A match at q makes the search report one, at q or to its left. */
  lemma SearchReachesMatch(content: string, q: nat, b: nat, e: nat, f: nat)
    requires MatchAt(content, q, b, e, f)
    ensures SearchFrom(content, 0).Some? && SearchFrom(content, 0).value.0 <= q
  {
    MatchRefutesNoMatch(content, q, b, e, f);
    if SearchFrom(content, 0).None? {
      SearchFindsNothing(content, 0, q);
      assert false;
    }
    if q < SearchFrom(content, 0).value.0 {
      SearchFindsLeftmost(content, 0, q);
      assert false;
    }
  }

  lemma MatchRefutesNoMatch(s: string, q: nat, b: nat, e: nat, f: nat)
    requires MatchAt(s, q, b, e, f)
    ensures !NoMatchAt(s, q)
  {
  }

  /** A reply with no three backquotes in it reaches `json.loads` as it is. */
  lemma UnfencedReplyUnchanged(content: string)
    requires forall i: nat :: !FenceAt(content, i)
    ensures StripFence(content) == content
  {
    NoFenceNoMatch(content, 0);
  }

  lemma {:induction false} NoFenceNoMatch(s: string, p: nat)
    requires p <= |s| && forall i: nat :: p <= i ==> !FenceAt(s, i)
    ensures SearchFrom(s, p).None?
    decreases |s| - p
  {
    if p < |s| {
      assert OpenAt(s, p).None?;
      NoFenceNoMatch(s, p + 1);
    }
  }

  /**
   * `extract_event_details` after the remote call: the reply (or the
   * exception the call raised) goes through fence stripping into the
   * external `json.loads`.
   */
  function ExtractEventDetails(reply: Result<string, string>, jsonLoads: string -> Result<Json, string>): (r: Result<Json, string>)
    ensures reply.Err? ==> r == Err(reply.error)
    ensures reply.Ok? && SearchFrom(reply.value, 0).None? ==> r == jsonLoads(reply.value)
    ensures reply.Ok? && SearchFrom(reply.value, 0).Some? ==>
      var g := StripFence(reply.value); |g| >= 2 && g[0] == '{' && g[|g| - 1] == '}' && r == jsonLoads(g)
  {
    match reply
    case Err(m) => Err(m)
    case Ok(content) => jsonLoads(StripFence(content))
  }
}
