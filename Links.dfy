/**
 * `parseLink`: classify a start.gg link and cut it down to the slug.  Three
 * patterns are searched for, in order:
 *
 *   tournament/[a-zA-Z0-9\-]+/event/[a-zA-Z0-9\-]+     -> event slug
 *   tournament/[a-zA-Z0-9\-]+                          -> full tournament slug
 *   start\.gg/[a-zA-Z0-9\-]+                           -> shorthand slug
 *
 * and a link matching none of them is taken as a bare shorthand slug.  The
 * character class cannot hold '/', and every literal after a class starts with
 * '/', so at any start position a backtracking matcher's greedy answer is the
 * longest match; a search finds the leftmost start.  Both are written out here
 * by scanning, and `InLanguage` states independently which strings each
 * pattern matches.
 */
module Links {

  import opened Options

  datatype Kind = EventSlug | TournamentFullSlug | ShorthandSlug
  datatype Link = Link(kind: Kind, slug: string)

  datatype Pattern = EventPattern | TournamentPattern | ShorthandPattern
  datatype Span = Span(start: nat, end: nat)

  const TOURNAMENT: string := "tournament/"
  const EVENT: string := "/event/"
  const START_GG: string := "start.gg/"

  /** The class [a-zA-Z0-9\-]. */
  predicate IsSlugChar(c: char)
  {
    'a' <= c <= 'z' || 'A' <= c <= 'Z' || '0' <= c <= '9' || c == '-'
  }

  predicate AllSlug(t: string)
  {
    forall k :: 0 <= k < |t| ==> IsSlugChar(t[k])
  }

  /** `lit` followed by one or more slug characters, and nothing else. */
  predicate LiteralRun(t: string, lit: string)
  {
    |t| > |lit| && t[..|lit|] == lit && AllSlug(t[|lit|..])
  }

  /** t splits at k into a tournament part and an event part. */
  predicate EventSplit(t: string, k: int)
  {
    0 <= k <= |t| && LiteralRun(t[..k], TOURNAMENT) && LiteralRun(t[k..], EVENT)
  }

  /** The strings that the pattern matches as a whole. */
  predicate InLanguage(p: Pattern, t: string)
  {
    match p
    case TournamentPattern => LiteralRun(t, TOURNAMENT)
    case ShorthandPattern => LiteralRun(t, START_GG)
    case EventPattern => exists k :: 0 <= k <= |t| && EventSplit(t, k)
  }

  /** Some substring of s matches the pattern. */
  predicate Occurs(p: Pattern, s: string)
  {
    exists i, e :: 0 <= i <= e <= |s| && InLanguage(p, s[i..e])
  }

  /**
   * s[b..e] is the leftmost-longest match of the pattern in s: it matches, no
   * substring starting further left matches, and none longer from b does.
   */
  predicate LeftmostLongest(p: Pattern, s: string, b: int, e: int)
  {
    0 <= b <= e <= |s| && InLanguage(p, s[b..e])
    && (forall i, e' :: 0 <= i < b && i <= e' <= |s| ==> !InLanguage(p, s[i..e']))
    && (forall e' :: b <= e' <= |s| && InLanguage(p, s[b..e']) ==> e' <= e)
  }

  predicate HasAt(s: string, i: nat, lit: string)
  {
    i + |lit| <= |s| && s[i..i + |lit|] == lit
  }

  /** The length of the longest run of slug characters starting at i. */
  function RunLength(s: string, i: nat): (n: nat)
    requires i <= |s|
    ensures i + n <= |s|
    ensures AllSlug(s[i..i + n])
    ensures i + n == |s| || !IsSlugChar(s[i + n])
    decreases |s| - i
  {
    if i < |s| && IsSlugChar(s[i]) then
      var n := 1 + RunLength(s, i + 1);
      assert s[i..i + n] == [s[i]] + s[i + 1..i + n];
      n
    else 0
  }

  /** Match `lit` then the greedy class at i: the end of the match. */
  function LiteralThenRun(s: string, i: nat, lit: string): Option<nat>
    requires i <= |s|
  {
    if HasAt(s, i, lit) && RunLength(s, i + |lit|) > 0
    then Some(i + |lit| + RunLength(s, i + |lit|))
    else None
  }

  /** The end of the pattern's match starting exactly at i, if any. */
  function MatchAt(p: Pattern, s: string, i: nat): Option<nat>
    requires i <= |s|
  {
    match p
    case TournamentPattern => LiteralThenRun(s, i, TOURNAMENT)
    case ShorthandPattern => LiteralThenRun(s, i, START_GG)
    case EventPattern =>
      match LiteralThenRun(s, i, TOURNAMENT)
      case None => None
      case Some(k) => if k <= |s| then LiteralThenRun(s, k, EVENT) else None
  }

  /** `re.search` from position i on: the first start with a match, and its end. */
  function SearchFrom(p: Pattern, s: string, i: nat): (r: Option<Span>)
    requires i <= |s|
    ensures r.Some? ==> i <= r.value.start <= |s| && MatchAt(p, s, r.value.start) == Some(r.value.end)
    ensures r.Some? ==> forall j :: i <= j < r.value.start ==> MatchAt(p, s, j) == None
    ensures r.None? ==> forall j :: i <= j <= |s| ==> MatchAt(p, s, j) == None
    decreases |s| - i
  {
    match MatchAt(p, s, i)
    case Some(e) => Some(Span(i, e))
    case None => if i == |s| then None else SearchFrom(p, s, i + 1)
  }

  function Search(p: Pattern, s: string): Option<Span>
  {
    SearchFrom(p, s, 0)
  }

  /** The position of the first c in t. */
  function IndexOf(t: string, c: char): (k: nat)
    requires c in t
    ensures k < |t| && t[k] == c && c !in t[..k]
  {
    if t[0] == c then 0
    else
      assert c in t[1..] by {
        var j :| 0 <= j < |t| && t[j] == c;
        assert t[1..][j - 1] == c;
      }
      var k := 1 + IndexOf(t[1..], c);
      assert t[..k] == [t[0]] + t[1..][..k - 1];
      k
  }

  /** `t.split(sep)`. */
  function Split(t: string, sep: char): (fields: seq<string>)
    ensures |fields| >= 1
    decreases |t|
  {
    if sep !in t then [t]
    else
      var k := IndexOf(t, sep);
      [t[..k]] + Split(t[k + 1..], sep)
  }

  /** The source's `parseLink`. */
  function ParseLink(link: string): Link
  {
    match Search(EventPattern, link)
    case Some(sp) => Link(EventSlug, link[sp.start..sp.end])
    case None =>
      match Search(TournamentPattern, link)
      case Some(sp) => Link(TournamentFullSlug, link[sp.start..sp.end])
      case None =>
        match Search(ShorthandPattern, link)
        case Some(sp) =>
          var fields := Split(link[sp.start..sp.end], '/');
          Link(ShorthandSlug, if |fields| > 1 then fields[1] else "")
        case None => Link(ShorthandSlug, link)
  }

  /** A run of slug characters from j never goes past the greedy run. */
  lemma {:induction false} RunCovers(s: string, j: nat, m: nat)
    requires j <= m <= |s| && AllSlug(s[j..m])
    ensures m <= j + RunLength(s, j)
    decreases m - j
  {
    if j < m {
      assert s[j..m][0] == s[j];
      assert s[j + 1..m] == s[j..m][1..];
      RunCovers(s, j + 1, m);
    }
  }

  /** What the hand-written match of `lit` then the class finds at i. */
  lemma LiteralThenRunSound(s: string, i: nat, lit: string)
    requires i <= |s|
    ensures LiteralThenRun(s, i, lit).Some? ==>
      var e := LiteralThenRun(s, i, lit).value;
      i <= e <= |s| && LiteralRun(s[i..e], lit) && (e == |s| || !IsSlugChar(s[e]))
  {
    if LiteralThenRun(s, i, lit).Some? {
      var e := LiteralThenRun(s, i, lit).value;
      assert s[i..e][..|lit|] == s[i..i + |lit|];
      assert s[i..e][|lit|..] == s[i + |lit|..e];
    }
  }

  /** Any whole match of `lit` then the class at i is found, and ends no later than the greedy one. */
  lemma {:induction false} LiteralRunEnd(s: string, i: nat, lit: string, e: nat)
    requires i <= e <= |s| && LiteralRun(s[i..e], lit)
    ensures LiteralThenRun(s, i, lit).Some?
    ensures e <= LiteralThenRun(s, i, lit).value
    ensures e == |s| || !IsSlugChar(s[e]) ==> e == LiteralThenRun(s, i, lit).value
  {
    var j := i + |lit|;
    assert s[i..j] == s[i..e][..|lit|];
    assert s[j..e] == s[i..e][|lit|..];
    RunCovers(s, j, e);
    assert s[j..j + 1] == s[i..e][|lit|..|lit| + 1];
    var n := RunLength(s, j);
    if e < j + n {
      assert s[j..j + n][e - j] == s[e];
    }
  }

  /** The match at i is the longest whole match of the pattern starting at i, and there is none when it fails. */
  lemma MatchAtIsLongest(p: Pattern, s: string, i: nat)
    requires i <= |s|
    ensures MatchAt(p, s, i).Some? ==>
      var e := MatchAt(p, s, i).value;
      i <= e <= |s| && InLanguage(p, s[i..e])
      && forall e' :: i <= e' <= |s| && InLanguage(p, s[i..e']) ==> e' <= e
    ensures MatchAt(p, s, i).None? ==> forall e' :: i <= e' <= |s| ==> !InLanguage(p, s[i..e'])
  {
    match p
    case TournamentPattern =>
      LiteralThenRunSound(s, i, TOURNAMENT);
      forall e' | i <= e' <= |s| && InLanguage(p, s[i..e'])
        ensures MatchAt(p, s, i).Some? && e' <= MatchAt(p, s, i).value
      {
        LiteralRunEnd(s, i, TOURNAMENT, e');
      }
    case ShorthandPattern =>
      LiteralThenRunSound(s, i, START_GG);
      forall e' | i <= e' <= |s| && InLanguage(p, s[i..e'])
        ensures MatchAt(p, s, i).Some? && e' <= MatchAt(p, s, i).value
      {
        LiteralRunEnd(s, i, START_GG, e');
      }
    case EventPattern =>
      EventMatchSound(s, i);
      forall e' | i <= e' <= |s| && InLanguage(p, s[i..e'])
        ensures MatchAt(p, s, i).Some? && e' <= MatchAt(p, s, i).value
      {
        var k :| 0 <= k <= e' - i && EventSplit(s[i..e'], k);
        EventSplitFound(s, i, e', k);
      }
  }

  lemma EventMatchSound(s: string, i: nat)
    requires i <= |s|
    ensures MatchAt(EventPattern, s, i).Some? ==>
      var e := MatchAt(EventPattern, s, i).value;
      i <= e <= |s| && InLanguage(EventPattern, s[i..e])
  {
    if MatchAt(EventPattern, s, i).Some? {
      var k := LiteralThenRun(s, i, TOURNAMENT).value;
      LiteralThenRunSound(s, i, TOURNAMENT);
      LiteralThenRunSound(s, k, EVENT);
      var e := MatchAt(EventPattern, s, i).value;
      var t := s[i..e];
      assert t[..k - i] == s[i..k];
      assert t[k - i..] == s[k..e];
      assert EventSplit(t, k - i);
    }
  }

  /** A whole event match at i split at k is found by the matcher, and ends no later than its match. */
  lemma {:induction false} EventSplitFound(s: string, i: nat, e: nat, k: int)
    requires i <= e <= |s| && EventSplit(s[i..e], k)
    ensures MatchAt(EventPattern, s, i).Some? && e <= MatchAt(EventPattern, s, i).value
  {
    var t := s[i..e];
    assert s[i..i + k] == t[..k];
    assert s[i + k..e] == t[k..];
    assert s[i + k] == t[k..][0] == EVENT[0] == '/';
    LiteralRunEnd(s, i, TOURNAMENT, i + k);
    LiteralRunEnd(s, i + k, EVENT, e);
  }

  /**
   * `re.search` for one of the patterns: when it finds a span, the span's text
   * matches the pattern, no substring starting further left matches it, and no
   * longer substring from the same start does; when it finds nothing, no
   * substring matches.
   */
  lemma SearchIsLeftmostLongest(p: Pattern, s: string)
    ensures Search(p, s).Some? ==> LeftmostLongest(p, s, Search(p, s).value.start, Search(p, s).value.end)
    ensures Search(p, s).None? <==> !Occurs(p, s)
  {
    if Search(p, s).Some? {
      var b, e := Search(p, s).value.start, Search(p, s).value.end;
      MatchAtIsLongest(p, s, b);
      forall i, e' | 0 <= i < b && i <= e' <= |s|
        ensures !InLanguage(p, s[i..e'])
      {
        MatchAtIsLongest(p, s, i);
      }
      assert 0 <= b <= e <= |s| && InLanguage(p, s[b..e]);
    } else {
      forall i, e | 0 <= i <= e <= |s|
        ensures !InLanguage(p, s[i..e])
      {
        MatchAtIsLongest(p, s, i);
      }
    }
  }

  /** Every event slug holds a full tournament slug, so the event pattern has to be tried first. */
  lemma EventHoldsTournament(s: string)
    requires Occurs(EventPattern, s)
    ensures Occurs(TournamentPattern, s)
  {
    var i, e :| 0 <= i <= e <= |s| && InLanguage(EventPattern, s[i..e]);
    var k :| 0 <= k <= e - i && EventSplit(s[i..e], k);
    assert s[i..i + k] == s[i..e][..k];
    assert InLanguage(TournamentPattern, s[i..i + k]);
  }

  /** Splitting "start.gg/" + slug on '/' gives the host and the slug. */
  lemma ShorthandSplit(slug: string)
    requires AllSlug(slug)
    ensures Split(START_GG + slug, '/') == ["start.gg", slug]
  {
    var t := START_GG + slug;
    assert t[8] == '/';
    assert '/' !in t[..8] by {
      assert t[..8] == "start.gg";
    }
    assert '/' in t;
    var k := IndexOf(t, '/');
    assert k == 8;
    assert t[k + 1..] == slug;
    assert '/' !in slug;
    assert Split(slug, '/') == [slug];
  }

  /**
   * The patterns are tried in order.  An event slug anywhere in the link gives
   * kind EventSlug and, as slug, the link's leftmost-longest event match;
   * otherwise a full tournament slug gives TournamentFullSlug and the link's
   * leftmost-longest tournament match; otherwise a "start.gg/..." shorthand
   * gives ShorthandSlug and the part of the link's leftmost-longest shorthand
   * match after the slash; otherwise the link itself is returned as a
   * shorthand slug, unchanged.
   */
  lemma ParseLinkPriority(link: string)
    ensures Occurs(EventPattern, link) ==>
      ParseLink(link).kind == EventSlug
      && exists b, e :: LeftmostLongest(EventPattern, link, b, e) && ParseLink(link).slug == link[b..e]
    ensures !Occurs(EventPattern, link) && Occurs(TournamentPattern, link) ==>
      ParseLink(link).kind == TournamentFullSlug
      && exists b, e :: LeftmostLongest(TournamentPattern, link, b, e) && ParseLink(link).slug == link[b..e]
    ensures !Occurs(EventPattern, link) && !Occurs(TournamentPattern, link) && Occurs(ShorthandPattern, link) ==>
      ParseLink(link).kind == ShorthandSlug
      && exists b, e :: LeftmostLongest(ShorthandPattern, link, b, e) && b + |START_GG| <= e
                        && ParseLink(link).slug == link[b + |START_GG|..e]
    ensures !Occurs(EventPattern, link) && !Occurs(TournamentPattern, link) && !Occurs(ShorthandPattern, link) ==>
      ParseLink(link) == Link(ShorthandSlug, link)
  {
    SearchIsLeftmostLongest(EventPattern, link);
    SearchIsLeftmostLongest(TournamentPattern, link);
    SearchIsLeftmostLongest(ShorthandPattern, link);
    if Occurs(EventPattern, link) {
      var sp := Search(EventPattern, link).value;
      assert LeftmostLongest(EventPattern, link, sp.start, sp.end) && ParseLink(link).slug == link[sp.start..sp.end];
    } else if Occurs(TournamentPattern, link) {
      var sp := Search(TournamentPattern, link).value;
      assert LeftmostLongest(TournamentPattern, link, sp.start, sp.end) && ParseLink(link).slug == link[sp.start..sp.end];
    } else if Occurs(ShorthandPattern, link) {
      var sp := Search(ShorthandPattern, link).value;
      var t := link[sp.start..sp.end];
      var slug := t[|START_GG|..];
      assert t == START_GG + slug;
      ShorthandSplit(slug);
      assert slug == link[sp.start + |START_GG|..sp.end];
      assert LeftmostLongest(ShorthandPattern, link, sp.start, sp.end) && ParseLink(link).slug == link[sp.start + |START_GG|..sp.end];
    }
  }
}
