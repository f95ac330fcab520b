/** YoutubeHelper.ParseVideoId: the video id in a YouTube URL, found by one
    case-insensitive, unanchored regular expression. In order, the pattern asks for
    - an optional "http://" or "https://", then an optional "www.";
    - "youtu";
    - either ".be/", or "be.com/" followed by the first of these that works:
      - "watch?", then optionally any text on the line ending in '&', then "v=";
      - "embed/", "v/" or "shorts/";
      - any text on the line, then '?' or '&', then "v=";
    - a captured group of exactly eleven characters, none of them '"', '&', '?', '/'
      or white space.

    The scanner below leaves out the two optional groups: none of their characters is
    a 'y', so the leftmost place where the whole pattern matches and the leftmost
    "youtu" from which the rest of it matches give the same capture (lemma
    IgnoresPrefix states this for any such prefix).

    The rest of the pattern is split into stages. Each stage looks at the text from
    where it starts and reports the position of the id relative to that text. */
module VideoIds {
  import opened Options
  import opened Chars

  /** Length of a video id. */
  const IdLength: nat := 11

  /** A character the captured group accepts. */
  predicate IsIdChar(c: char) {
    c != '"' && c != '&' && c != '?' && c != '/' && !IsWhitespace(c)
  }

  /** `u` starts with the lower-case literal `lit`, ignoring ASCII case. */
  predicate StartsWith(u: string, lit: string) {
    |lit| <= |u| && forall k :: 0 <= k < |lit| ==> Lower(u[k]) == lit[k]
  }

  /** Eleven id characters start at `c`. */
  predicate IdAt(u: string, c: nat) {
    c + IdLength <= |u| && forall k :: c <= k < c + IdLength ==> IsIdChar(u[k])
  }

  /** `.*` can cover `u[lo..hi]`: `.` matches everything except a line feed. */
  predicate NoNewline(u: string, lo: nat, hi: nat) {
    lo <= hi <= |u| && forall k :: lo <= k < hi ==> u[k] != '\n'
  }

  /** `[?&]v=` (only `&v=` when `ampOnly`) starts at `k`. */
  predicate VParamAt(u: string, k: nat, ampOnly: bool) {
    k + 3 <= |u| && (u[k] == '&' || (!ampOnly && u[k] == '?')) && Lower(u[k + 1]) == 'v' && u[k + 2] == '='
  }

  /** The stages of the pattern after the optional prefix groups: "youtu", then the
      rest of the host, then the path after "be.com/", then the query after "watch?". */
  datatype Stage = Youtu | Host | Path | Query

  // ---------------------------------------------------------------------------
  // What it means for the pattern to match, with no search order

  /** The pattern from `stage` on matches at the start of `u`, with the id at `c`. */
  predicate Matches(stage: Stage, u: string, c: nat)
    decreases |u|
  {
    match stage
    case Youtu =>
      StartsWith(u, "youtu") && 5 <= c && Matches(Host, u[5..], c - 5)
    case Host =>
      (StartsWith(u, ".be/") && c == 4 && IdAt(u, c))
      || (StartsWith(u, "be.com/") && 7 <= c && Matches(Path, u[7..], c - 7))
    case Path =>
      (StartsWith(u, "watch?") && 6 <= c && Matches(Query, u[6..], c - 6))
      || (IdAt(u, c)
          && ((StartsWith(u, "embed/") && c == 6)
              || (StartsWith(u, "v/") && c == 2)
              || (StartsWith(u, "shorts/") && c == 7)
              || (3 <= c && NoNewline(u, 0, c - 3) && VParamAt(u, c - 3, false))))
    case Query =>
      IdAt(u, c)
      && ((c == 2 && StartsWith(u, "v="))
          || (3 <= c && NoNewline(u, 0, c - 3) && VParamAt(u, c - 3, true)))
  }

  /** The pattern matches `s` with "youtu" at `p` and the captured id at `c`. */
  predicate MatchAt(s: string, p: nat, c: nat) {
    p <= c <= |s| && Matches(Youtu, s[p..], c - p)
  }

  // ---------------------------------------------------------------------------
  // The scanner, trying alternatives in the order the regex engine does

  /** The end of the run of non-line-feed characters starting at `i`: how far a `.*`
      started at `i` can reach. */
  function RunEnd(u: string, i: nat): (e: nat)
    requires i <= |u|
    ensures i <= e <= |u|
    decreases |u| - i
  {
    if i == |u| || u[i] == '\n' then i else RunEnd(u, i + 1)
  }

  /** Greedy `.*[?&]v=` followed by an id, with the `.*` covering `u[lo..k]` for
      k < hi: the largest such k is tried first. The result is where the id starts. */
  function LastVParam(u: string, lo: nat, hi: nat, ampOnly: bool): (c: Option<nat>)
    requires lo <= hi <= |u|
    decreases hi - lo
  {
    if lo == hi then None
    else if VParamAt(u, hi - 1, ampOnly) && IdAt(u, hi + 2) then Some(hi + 2)
    else LastVParam(u, lo, hi - 1, ampOnly)
  }

  /** `.*[?&]v=` and an id, with the `.*` starting at the start of `u`. */
  function VParamSearch(u: string, ampOnly: bool): Option<nat> {
    LastVParam(u, 0, RunEnd(u, 0), ampOnly)
  }

  function After(k: nat, c: Option<nat>): Option<nat> {
    match c
    case Some(x) => Some(k + x)
    case None => None
  }

  /** The stage `stage` at the start of `u`, its alternatives tried in pattern order:
      where the id starts, if anywhere. */
  function CaptureFrom(stage: Stage, u: string): Option<nat>
    decreases |u|
  {
    match stage
    case Youtu =>
      if StartsWith(u, "youtu") then After(5, CaptureFrom(Host, u[5..])) else None
    case Host =>
      if StartsWith(u, ".be/") && IdAt(u, 4) then Some(4)
      else if StartsWith(u, "be.com/") then After(7, CaptureFrom(Path, u[7..]))
      else None
    case Path =>
      if StartsWith(u, "watch?") && CaptureFrom(Query, u[6..]).Some? then After(6, CaptureFrom(Query, u[6..]))
      else if StartsWith(u, "embed/") && IdAt(u, 6) then Some(6)
      else if StartsWith(u, "v/") && IdAt(u, 2) then Some(2)
      else if StartsWith(u, "shorts/") && IdAt(u, 7) then Some(7)
      else VParamSearch(u, false)
    case Query =>
      // the optional `.*&` group is tried before a bare "v="
      if VParamSearch(u, true).Some? then VParamSearch(u, true)
      else if StartsWith(u, "v=") && IdAt(u, 2) then Some(2)
      else None
  }

  /** Where a match was found: "youtu" at `start`, the id at `id`. */
  datatype Hit = Hit(start: nat, id: nat)

  function ShiftHit(h: Option<Hit>, d: nat): Option<Hit> {
    match h
    case None => None
    case Some(x) => Some(Hit(x.start + d, x.id + d))
  }

  /** The leftmost match in `u`, trying each start position from the left. */
  function LocateIn(u: string): Option<Hit>
    decreases |u|
  {
    if |u| < 5 then None
    else match CaptureFrom(Youtu, u)
      case Some(c) => Some(Hit(0, c))
      case None => ShiftHit(LocateIn(u[1..]), 1)
  }

  /** `YoutubeHelper.ParseVideoId` (YouTubeHelper.cs:12-17): the captured id of the
      leftmost match, or the empty string when there is none. */
  function ParseVideoId(url: string): (id: string)
    ensures id == [] || |id| == IdLength
    ensures forall i :: 0 <= i < |id| ==> IsIdChar(id[i])
  {
    ScanCapturesId(url);
    Capture(url, LocateIn(url))
  }

  /** The eleven characters at the reported id position, or "" when nothing was found. */
  function Capture(url: string, found: Option<Hit>): string {
    match found
    case Some(h) => if h.id + IdLength <= |url| then url[h.id..h.id + IdLength] else ""
    case None => ""
  }

  // ---------------------------------------------------------------------------
  // The scanner against the declarative match

  lemma {:induction false} RunEndSpec(u: string, i: nat)
    requires i <= |u|
    ensures NoNewline(u, i, RunEnd(u, i))
    ensures RunEnd(u, i) < |u| ==> u[RunEnd(u, i)] == '\n'
    decreases |u| - i
  {
    if i < |u| && u[i] != '\n' {
      RunEndSpec(u, i + 1);
    }
  }

  /** The search finds the rightmost `[?&]v=` followed by an id, and finds one
      whenever there is one. */
  lemma {:induction false} LastVParamSpec(u: string, lo: nat, hi: nat, ampOnly: bool)
    requires lo <= hi <= |u|
    ensures var c := LastVParam(u, lo, hi, ampOnly);
      c.Some? ==>
        lo + 3 <= c.value < hi + 3 && VParamAt(u, c.value - 3, ampOnly) && IdAt(u, c.value)
        && forall k :: c.value - 3 < k < hi ==> !(VParamAt(u, k, ampOnly) && IdAt(u, k + 3))
    ensures LastVParam(u, lo, hi, ampOnly).None? ==>
      forall k :: lo <= k < hi ==> !(VParamAt(u, k, ampOnly) && IdAt(u, k + 3))
    decreases hi - lo
  {
    if lo < hi && !(VParamAt(u, hi - 1, ampOnly) && IdAt(u, hi + 2)) {
      LastVParamSpec(u, lo, hi - 1, ampOnly);
    }
  }

  /** `.*[?&]v=` and an id from the start of `u`, exactly when the greedy search finds one. */
  lemma VParamSearchSpec(u: string, ampOnly: bool)
    ensures var c := VParamSearch(u, ampOnly);
      (c.Some? ==> 3 <= c.value && NoNewline(u, 0, c.value - 3) && VParamAt(u, c.value - 3, ampOnly) && IdAt(u, c.value))
      && (c.None? ==> forall k: nat :: NoNewline(u, 0, k) && VParamAt(u, k, ampOnly) ==> !IdAt(u, k + 3))
  {
    var e := RunEnd(u, 0);
    RunEndSpec(u, 0);
    LastVParamSpec(u, 0, e, ampOnly);
    forall k: nat | NoNewline(u, 0, k) && VParamAt(u, k, ampOnly)
      ensures k < e
    {
    }
  }

  /** Each stage reports a match, and reports one whenever there is one. */
  lemma CaptureFromSpec(stage: Stage, u: string)
    ensures CaptureFrom(stage, u).Some? ==> Matches(stage, u, CaptureFrom(stage, u).value)
    ensures CaptureFrom(stage, u).None? ==> forall c: nat :: !Matches(stage, u, c)
  {
    match stage
    case Youtu => YoutuSpec(u);
    case Host => HostSpec(u);
    case Path => PathSpec(u);
    case Query => QuerySpec(u);
  }

  lemma YoutuSpec(u: string)
    ensures CaptureFrom(Youtu, u).Some? ==> Matches(Youtu, u, CaptureFrom(Youtu, u).value)
    ensures CaptureFrom(Youtu, u).None? ==> forall c: nat :: !Matches(Youtu, u, c)
  {
    if StartsWith(u, "youtu") {
      HostSpec(u[5..]);
    }
  }

  lemma HostSpec(u: string)
    ensures CaptureFrom(Host, u).Some? ==> Matches(Host, u, CaptureFrom(Host, u).value)
    ensures CaptureFrom(Host, u).None? ==> forall c: nat :: !Matches(Host, u, c)
  {
    if StartsWith(u, "be.com/") {
      PathSpec(u[7..]);
    }
  }

  lemma PathSpec(u: string)
    ensures CaptureFrom(Path, u).Some? ==> Matches(Path, u, CaptureFrom(Path, u).value)
    ensures CaptureFrom(Path, u).None? ==> forall c: nat :: !Matches(Path, u, c)
  {
    if StartsWith(u, "watch?") {
      QuerySpec(u[6..]);
    }
    VParamSearchSpec(u, false);
  }

  lemma QuerySpec(u: string)
    ensures CaptureFrom(Query, u).Some? ==> Matches(Query, u, CaptureFrom(Query, u).value)
    ensures CaptureFrom(Query, u).None? ==> forall c: nat :: !Matches(Query, u, c)
  {
    VParamSearchSpec(u, true);
  }

  /** Dropping the first character moves every match one place to the left. */
  lemma MatchAtTail(u: string, p: nat, c: nat)
    requires 1 <= p <= c <= |u|
    ensures MatchAt(u, p, c) == MatchAt(u[1..], p - 1, c - 1)
  {
    assert u[1..][p - 1..] == u[p..];
  }

  /** A match in the text without its first character is a match of the whole text. */
  lemma MatchShift(u: string, h: Hit)
    requires |u| > 0 && MatchAt(u[1..], h.start, h.id)
    ensures MatchAt(u, h.start + 1, h.id + 1)
  {
    MatchAtTail(u, h.start + 1, h.id + 1);
  }

  /** What the scan reports is a match. */
  lemma {:induction false} LocateInSound(u: string)
    ensures LocateIn(u).Some? ==> MatchAt(u, LocateIn(u).value.start, LocateIn(u).value.id)
    decreases |u|
  {
    if |u| >= 5 {
      if CaptureFrom(Youtu, u).None? {
        LocateInSound(u[1..]);
        ScanStep(u);
        if LocateIn(u[1..]).Some? {
          MatchShift(u, LocateIn(u[1..]).value);
        }
      } else {
        SoundHere(u, CaptureFrom(Youtu, u).value);
      }
    }
  }

  /** A capture at the start of the text is reported as a match there. */
  lemma SoundHere(u: string, c: nat)
    requires |u| >= 5 && CaptureFrom(Youtu, u) == Some(c)
    ensures LocateIn(u) == Some(Hit(0, c)) && MatchAt(u, 0, c)
  {
    assert u[0..] == u;
    YoutuSpec(u);
    MatchesHasId(Youtu, u, c);
  }

  /** Every match is found, at its own start or further left. */
  lemma {:induction false} LocateInLeftmost(u: string, p: nat, c: nat)
    requires MatchAt(u, p, c)
    ensures LocateIn(u).Some? && LocateIn(u).value.start <= p
    decreases |u|
  {
    if CaptureFrom(Youtu, u).None? {
      NoMatchAtStart(u);
      MatchAtTail(u, p, c);
      LocateInLeftmost(u[1..], p - 1, c - 1);
      ScanStep(u);
    }
  }

  /** When the first stage fails at the start, no match starts there. */
  lemma NoMatchAtStart(u: string)
    requires CaptureFrom(Youtu, u).None?
    ensures forall c: nat :: !MatchAt(u, 0, c)
  {
    assert u[0..] == u;
    CaptureFromSpec(Youtu, u);
  }

  /** Where the first stage fails at the start, the scan goes on one character later. */
  lemma ScanStep(u: string)
    requires CaptureFrom(Youtu, u).None? && |u| > 0
    ensures LocateIn(u) == ShiftHit(LocateIn(u[1..]), 1)
  {
  }

  /** Eleven id characters in a suffix are eleven id characters of the whole text. */
  lemma IdAtSuffix(u: string, k: nat, c: nat)
    requires k <= |u| && IdAt(u[k..], c)
    ensures IdAt(u, k + c)
  {
    assert forall i :: k + c <= i < k + c + IdLength ==> u[i] == u[k..][i - k];
  }

  /** The text captured by a match is eleven id characters. */
  lemma {:induction false} MatchesHasId(stage: Stage, u: string, c: nat)
    requires Matches(stage, u, c)
    ensures IdAt(u, c)
    decreases |u|
  {
    match stage
    case Youtu =>
      MatchesHasId(Host, u[5..], c - 5);
      IdAtSuffix(u, 5, c - 5);
    case Host =>
      if !(StartsWith(u, ".be/") && c == 4 && IdAt(u, c)) {
        MatchesHasId(Path, u[7..], c - 7);
        IdAtSuffix(u, 7, c - 7);
      }
    case Path =>
      if StartsWith(u, "watch?") && 6 <= c && Matches(Query, u[6..], c - 6) {
        MatchesHasId(Query, u[6..], c - 6);
        IdAtSuffix(u, 6, c - 6);
      }
    case Query =>
  }

  lemma MatchHasId(s: string, p: nat, c: nat)
    requires MatchAt(s, p, c)
    ensures IdAt(s, c)
  {
    MatchesHasId(Youtu, s[p..], c - p);
    IdAtSuffix(s, p, c - p);
  }

  /** What the scan reports is a match, and the id it captures is all eleven characters. */
  lemma ScanCapturesId(url: string)
    ensures LocateIn(url).Some? ==>
      var h := LocateIn(url).value;
      MatchAt(url, h.start, h.id) && IdAt(url, h.id) && Capture(url, LocateIn(url)) == url[h.id..h.id + IdLength]
  {
    LocateInSound(url);
    if LocateIn(url).Some? {
      var h := LocateIn(url).value;
      MatchHasId(url, h.start, h.id);
    }
  }

  // ---------------------------------------------------------------------------
  // Properties

  /** A non-empty id is the capture of a match, and no match starts further left. */
  lemma ParseVideoIdSound(url: string)
    requires ParseVideoId(url) != ""
    ensures exists p: nat, c: nat ::
      (MatchAt(url, p, c) && c + IdLength <= |url| && ParseVideoId(url) == url[c..c + IdLength]
       && forall p': nat, c': nat :: p' < p ==> !MatchAt(url, p', c'))
  {
    ScanCapturesId(url);
    var h := LocateIn(url).value;
    forall p': nat, c': nat | p' < h.start ensures !MatchAt(url, p', c') {
      if MatchAt(url, p', c') {
        LocateInLeftmost(url, p', c');
      }
    }
    assert MatchAt(url, h.start, h.id) && ParseVideoId(url) == url[h.id..h.id + IdLength];
  }

  /** Whenever the pattern matches anywhere, an id is returned. */
  lemma ParseVideoIdComplete(url: string, p: nat, c: nat)
    requires MatchAt(url, p, c)
    ensures |ParseVideoId(url)| == IdLength
  {
    LocateInLeftmost(url, p, c);
    ScanCapturesId(url);
  }

  /** Without a case-insensitive "youtu" there is no id. */
  lemma NoYoutuNoId(url: string)
    requires forall p :: 0 <= p <= |url| ==> !StartsWith(url[p..], "youtu")
    ensures ParseVideoId(url) == ""
  {
    LocateInSound(url);
  }

  /** A string that has no 'y' in either case. */
  predicate NoY(s: string) {
    forall i :: 0 <= i < |s| ==> Lower(s[i]) != 'y'
  }

  /** The scan passes over leading characters that are not a 'y' and then finds what
      it finds in the rest, moved by the number of characters passed over. */
  lemma {:induction false} LocateSkips(t: string, n: nat)
    requires n <= |t|
    requires forall i :: 0 <= i < n ==> Lower(t[i]) != 'y'
    ensures LocateIn(t) == ShiftHit(LocateIn(t[n..]), n)
    decreases n
  {
    if n == 0 {
      assert t[0..] == t;
    } else {
      NoYoutuAtStart(t);
      ScanStep(t);
      assert t[1..][n - 1..] == t[n..];
      LocateSkips(t[1..], n - 1);
    }
  }

  lemma NoYoutuAtStart(t: string)
    requires |t| > 0 && Lower(t[0]) != 'y'
    ensures CaptureFrom(Youtu, t).None?
  {
    assert "youtu"[0] == 'y';
  }

  /** A prefix without a 'y' (such as "https://", "http://www." or "HTTPS://WWW.") never
      changes the id: the optional `(?:https?://)?(?:www\.)?` groups do not matter. */
  lemma IgnoresPrefix(pre: string, url: string)
    requires NoY(pre)
    ensures ParseVideoId(pre + url) == ParseVideoId(url)
  {
    var t := pre + url;
    assert t[|pre|..] == url;
    LocateSkips(t, |pre|);
    CaptureShift(pre, url, LocateIn(url));
  }

  lemma CaptureShift(pre: string, url: string, found: Option<Hit>)
    ensures Capture(pre + url, ShiftHit(found, |pre|)) == Capture(url, found)
  {
    if found.Some? && found.value.id + IdLength <= |url| {
      var h := found.value;
      assert (pre + url)[|pre|..] == url;
      assert (pre + url)[|pre| + h.id..|pre| + h.id + IdLength] == url[h.id..h.id + IdLength];
    }
  }

  // ---------------------------------------------------------------------------
  // The shapes of link the pattern was written for

  /** An id of the right length made of id characters. */
  predicate IsId(id: string) {
    |id| == IdLength && forall i :: 0 <= i < |id| ==> IsIdChar(id[i])
  }

  /** Every match needs room for "youtu", the shortest tail ".be/" and the id. */
  lemma MatchNeedsRoom(s: string, p: nat, c: nat)
    requires MatchAt(s, p, c)
    ensures p + 5 + 4 <= c && c + IdLength <= |s|
  {
    assert Matches(Host, s[p..][5..], c - p - 5);
    MatchHasId(s, p, c);
  }

  /** A URL shorter than the shortest match has no id. */
  lemma TooShortNoId(url: string)
    requires |url| < 5 + 4 + IdLength
    ensures ParseVideoId(url) == ""
  {
    if ParseVideoId(url) != "" {
      ParseVideoIdSound(url);
      var p: nat, c: nat :| MatchAt(url, p, c);
      MatchNeedsRoom(url, p, c);
    }
  }

  /** A URL with no 'y' in either case has no id. */
  lemma NoYNoId(url: string)
    requires NoY(url)
    ensures ParseVideoId(url) == ""
  {
    forall p | 0 <= p <= |url| ensures !StartsWith(url[p..], "youtu") {
      if p + 5 <= |url| {
        assert Lower(url[p..][0]) != "youtu"[0];
      }
    }
    NoYoutuNoId(url);
  }

  lemma StartsWithSplit(u: string, a: string, b: string)
    requires StartsWith(u, a + b)
    ensures StartsWith(u, a) && StartsWith(u[|a|..], b)
  {
    forall k | 0 <= k < |a| ensures Lower(u[k]) == a[k] {
      assert (a + b)[k] == a[k];
    }
    forall k | 0 <= k < |b| ensures Lower(u[|a|..][k]) == b[k] {
      assert (a + b)[|a| + k] == b[k];
      assert u[|a|..][k] == u[|a| + k];
    }
  }

  lemma StartsWithExtend(x: string, y: string, lit: string)
    requires StartsWith(x, lit)
    ensures StartsWith(x + y, lit)
  {
    forall k | 0 <= k < |lit| ensures Lower((x + y)[k]) == lit[k] {
      assert (x + y)[k] == x[k];
    }
  }

  /** An id right after any `head`. */
  lemma IdAfter(head: string, id: string, rest: string)
    requires IsId(id)
    ensures IdAt(head + (id + rest), |head|)
    ensures (head + (id + rest))[|head|..|head| + IdLength] == id
  {
    var t := head + (id + rest);
    forall k | |head| <= k < |head| + IdLength ensures t[k] == id[k - |head|] {
    }
    assert t[|head|..|head| + IdLength] == id;
  }

  /** When the pattern matches at the very start, that match gives the id. */
  lemma ParseAtStart(u: string, c: nat)
    requires CaptureFrom(Youtu, u) == Some(c)
    ensures c + IdLength <= |u| && ParseVideoId(u) == u[c..c + IdLength]
  {
    assert |u| >= 5;
    assert LocateIn(u) == Some(Hit(0, c));
    ScanFound(u, Hit(0, c));
  }

  lemma ScanFound(url: string, h: Hit)
    requires LocateIn(url) == Some(h)
    ensures h.id + IdLength <= |url| && ParseVideoId(url) == url[h.id..h.id + IdLength]
  {
    ScanCapturesId(url);
  }

  /** No "&v=" followed by an id at or after `from` in `head + rest`, when `head` has
      no '&' from `from` on and `rest` holds no such parameter. */
  lemma NoAmpParamAfter(head: string, rest: string, from: nat)
    requires forall k :: from <= k < |head| ==> head[k] != '&'
    requires forall j :: 0 <= j < |rest| ==> !(VParamAt(rest, j, true) && IdAt(rest, j + 3))
    ensures forall k :: from <= k < |head + rest| ==> !(VParamAt(head + rest, k, true) && IdAt(head + rest, k + 3))
  {
    var x := head + rest;
    forall k | from <= k < |x| ensures !(VParamAt(x, k, true) && IdAt(x, k + 3)) {
      if |head| <= k {
        var j := k - |head|;
        assert VParamAt(x, k, true) ==> VParamAt(rest, j, true);
        if IdAt(x, k + 3) {
          forall m | j + 3 <= m < j + 3 + IdLength ensures IsIdChar(rest[m]) {
            assert rest[m] == x[m + |head|];
          }
        }
      }
    }
  }

  /** "youtu" hands over to the rest of the host. */
  lemma YoutuStep(u: string)
    requires StartsWith(u, "youtu")
    ensures CaptureFrom(Youtu, u) == After(5, CaptureFrom(Host, u[5..]))
  {
  }

  /** "youtube.com/" hands over to the path alternatives. */
  lemma DomainStep(u: string)
    requires StartsWith(u, "youtube.com/")
    ensures CaptureFrom(Youtu, u) == After(12, CaptureFrom(Path, u[12..]))
  {
    assert "youtube.com/" == "youtu" + "be.com/";
    StartsWithSplit(u, "youtu", "be.com/");
    YoutuStep(u);
    var v := u[5..];
    assert Lower(v[0]) == 'b';
    assert v[7..] == u[12..];
  }

  /** "youtube.com/watch?" hands over to the query, when the query has an id. */
  lemma WatchStep(u: string)
    requires StartsWith(u, "youtube.com/watch?") && CaptureFrom(Query, u[18..]).Some?
    ensures CaptureFrom(Youtu, u) == After(18, CaptureFrom(Query, u[18..]))
  {
    assert "youtube.com/watch?" == "youtube.com/" + "watch?";
    StartsWithSplit(u, "youtube.com/", "watch?");
    DomainStep(u);
    assert u[12..][6..] == u[18..];
  }

  /** A short link "youtu.be/" in any case gives the first eleven characters after the
      slash, whatever follows them. */
  lemma ShortLinkAtStart(link: string, id: string, rest: string)
    requires IsId(id)
    requires |link| == 9 && StartsWith(link, "youtu.be/")
    ensures ParseVideoId(link + (id + rest)) == id
  {
    var u := link + (id + rest);
    StartsWithExtend(link, id + rest, "youtu.be/");
    assert "youtu.be/" == "youtu" + ".be/";
    StartsWithSplit(u, "youtu", ".be/");
    var v := u[5..];
    assert v == link[5..] + (id + rest);
    IdAfter(link[5..], id, rest);
    assert CaptureFrom(Host, v) == Some(4);
    YoutuStep(u);
    ParseAtStart(u, 9);
    IdAfter(link, id, rest);
  }

  /** The same after any prefix without a 'y', such as "https://". */
  lemma ShortLink(pre: string, link: string, id: string, rest: string)
    requires NoY(pre) && IsId(id)
    requires |link| == 9 && StartsWith(link, "youtu.be/")
    ensures ParseVideoId(pre + link + id + rest) == id
  {
    ShortLinkAtStart(link, id, rest);
    IgnoresPrefix(pre, link + (id + rest));
    assert pre + link + id + rest == pre + (link + (id + rest));
  }

  /** A short link followed by fewer than eleven characters gives no id. */
  lemma ShortLinkTooShort(pre: string, link: string, frag: string)
    requires NoY(pre)
    requires |link| == 9 && StartsWith(link, "youtu.be/") && |frag| < IdLength
    ensures ParseVideoId(pre + link + frag) == ""
  {
    IgnoresPrefix(pre, link + frag);
    TooShortNoId(link + frag);
    assert pre + link + frag == pre + (link + frag);
  }

  /** A short link whose id is cut short by a character outside the id class gives no
      id, however much text follows, when no other 'y' comes after the link: for
      example "youtu.be/abc?t=1234567890". */
  lemma ShortLinkCutShort(pre: string, link: string, frag: string, stop: char, rest: string)
    requires NoY(pre) && NoY(frag + [stop] + rest)
    requires |link| == 9 && StartsWith(link, "youtu.be/")
    requires |frag| < IdLength && !IsIdChar(stop)
    ensures ParseVideoId(pre + link + frag + [stop] + rest) == ""
  {
    var tail := frag + [stop] + rest;
    assert tail[|frag|] == stop;
    CutShortAtStart(link, tail, |frag|);
    IgnoresPrefix(pre, link + tail);
    assert pre + link + frag + [stop] + rest == pre + (link + tail);
  }

  lemma CutShortAtStart(link: string, tail: string, n: nat)
    requires |link| == 9 && StartsWith(link, "youtu.be/")
    requires n < IdLength && n < |tail| && !IsIdChar(tail[n]) && NoY(tail)
    ensures ParseVideoId(link + tail) == ""
  {
    var t := link + tail;
    ShortHostFails(link, tail, n);
    ScanStep(t);
    var t1 := t[1..];
    forall i | 0 <= i < |t1| ensures Lower(t1[i]) != 'y' {
      if i < 8 {
        assert Lower(t1[i]) == "youtu.be/"[i + 1];
      } else {
        assert t1[i] == tail[i - 8];
      }
    }
    LocateSkips(t1, |t1|);
    assert LocateIn(t1[|t1|..]) == None;
  }

  /** ".be/" followed by a character outside the id class within eleven places gives
      no capture after "youtu". */
  lemma ShortHostFails(link: string, tail: string, n: nat)
    requires |link| == 9 && StartsWith(link, "youtu.be/")
    requires n < IdLength && n < |tail| && !IsIdChar(tail[n])
    ensures CaptureFrom(Youtu, link + tail).None?
  {
    var t := link + tail;
    StartsWithExtend(link, tail, "youtu.be/");
    assert "youtu.be/" == "youtu" + ".be/";
    StartsWithSplit(t, "youtu", ".be/");
    YoutuStep(t);
    var v := t[5..];
    assert v[4 + n] == tail[n];
    assert !IdAt(v, 4);
    assert Lower(v[0]) == '.';
    assert !StartsWith(v, "be.com/");
  }

  /** After "be.com/", the path "embed/", "v/" or "shorts/" and an id give that id. */
  lemma PathCapture(w: string, tag: string)
    requires tag == "embed/" || tag == "v/" || tag == "shorts/"
    requires StartsWith(w, tag) && IdAt(w, |tag|)
    ensures CaptureFrom(Path, w) == Some(|tag|)
  {
    assert Lower(w[0]) == tag[0] != "watch?"[0];
    if tag != "embed/" {
      assert tag[0] != "embed/"[0];
      if tag != "v/" {
        assert tag[0] != "v/"[0];
      }
    }
  }

  /** "youtube.com/" and one of "embed/", "v/", "shorts/" (in any case) give the id
      right after the slash. */
  lemma PathLinkAtStart(site: string, path: string, tag: string, id: string, rest: string)
    requires IsId(id)
    requires tag == "embed/" || tag == "v/" || tag == "shorts/"
    requires |site| == 12 && StartsWith(site, "youtube.com/")
    requires |path| == |tag| && StartsWith(path, tag)
    ensures ParseVideoId(site + (path + (id + rest))) == id
  {
    var u := site + (path + (id + rest));
    StartsWithExtend(site, path + (id + rest), "youtube.com/");
    DomainStep(u);
    var w := u[12..];
    assert w == path + (id + rest);
    StartsWithExtend(path, id + rest, tag);
    IdAfter(path, id, rest);
    PathCapture(w, tag);
    ParseAtStart(u, 12 + |tag|);
    assert u == (site + path) + (id + rest);
    IdAfter(site + path, id, rest);
  }

  lemma PathLink(pre: string, site: string, path: string, tag: string, id: string, rest: string)
    requires NoY(pre) && IsId(id)
    requires tag == "embed/" || tag == "v/" || tag == "shorts/"
    requires |site| == 12 && StartsWith(site, "youtube.com/")
    requires |path| == |tag| && StartsWith(path, tag)
    ensures ParseVideoId(pre + site + path + id + rest) == id
  {
    PathLinkAtStart(site, path, tag, id, rest);
    IgnoresPrefix(pre, site + (path + (id + rest)));
    assert pre + site + path + id + rest == pre + (site + (path + (id + rest)));
  }

  /** A query "v=" and an id, with no later "&v=" followed by an id: the bare "v=" is
      the only way the query stage can match. */
  lemma BareVCapture(head: string, id: string, rest: string)
    requires IsId(id)
    requires |head| == 2 && StartsWith(head, "v=")
    requires forall j :: 0 <= j < |rest| ==> !(VParamAt(rest, j, true) && IdAt(rest, j + 3))
    ensures CaptureFrom(Query, head + (id + rest)) == Some(2)
  {
    var x := head + (id + rest);
    IdAfter(head, id, rest);
    StartsWithExtend(head, id + rest, "v=");
    assert x == (head + id) + rest;
    forall k | 0 <= k < |head + id| ensures (head + id)[k] != '&' {
      if k < 2 {
        assert Lower(head[k]) == "v="[k];
      } else {
        assert (head + id)[k] == id[k - 2];
      }
    }
    NoAmpParamAfter(head + id, rest, 0);
    VParamSearchSpec(x, true);
  }

  /** "youtube.com/watch?v=" in any case gives the id after "v=", when no later "&v="
      is followed by an id. */
  lemma WatchLinkAtStart(site: string, id: string, rest: string)
    requires IsId(id)
    requires |site| == 20 && StartsWith(site, "youtube.com/watch?v=")
    requires forall j :: 0 <= j < |rest| ==> !(VParamAt(rest, j, true) && IdAt(rest, j + 3))
    ensures ParseVideoId(site + (id + rest)) == id
  {
    var u := site + (id + rest);
    assert "youtube.com/watch?v=" == "youtube.com/watch?" + "v=";
    StartsWithSplit(site, "youtube.com/watch?", "v=");
    StartsWithExtend(site, id + rest, "youtube.com/watch?");
    assert u[18..] == site[18..] + (id + rest);
    BareVCapture(site[18..], id, rest);
    WatchStep(u);
    ParseAtStart(u, 20);
    IdAfter(site, id, rest);
  }

  lemma WatchLink(pre: string, site: string, id: string, rest: string)
    requires NoY(pre) && IsId(id)
    requires |site| == 20 && StartsWith(site, "youtube.com/watch?v=")
    requires forall j :: 0 <= j < |rest| ==> !(VParamAt(rest, j, true) && IdAt(rest, j + 3))
    ensures ParseVideoId(pre + site + id + rest) == id
  {
    WatchLinkAtStart(site, id, rest);
    IgnoresPrefix(pre, site + (id + rest));
    assert pre + site + id + rest == pre + (site + (id + rest));
  }

  /** After "watch?", other parameters on the same line and then "&v=" and an id: the
      greedy `.*&` takes the last such "&v=", so with no later one it is this one. */
  lemma WatchParamsCapture(params: string, id: string, rest: string)
    requires IsId(id)
    requires forall k :: 0 <= k < |params| ==> params[k] != '\n'
    requires forall j :: 0 <= j < |rest| ==> !(VParamAt(rest, j, true) && IdAt(rest, j + 3))
    ensures CaptureFrom(Query, params + ("&v=" + (id + rest))) == Some(|params| + 3)
  {
    var x := params + ("&v=" + (id + rest));
    ParamsLayout(params, id, rest);
    LastAmpParam(x, |params|);
  }

  /** In `params + "&v=" + id + rest`, the "&v=" after the parameters is reachable by
      `.*`, is followed by the id, and is the last "&v=" followed by an id. */
  lemma ParamsLayout(params: string, id: string, rest: string)
    requires IsId(id)
    requires forall k :: 0 <= k < |params| ==> params[k] != '\n'
    requires forall j :: 0 <= j < |rest| ==> !(VParamAt(rest, j, true) && IdAt(rest, j + 3))
    ensures var x, amp := params + ("&v=" + (id + rest)), |params|;
      NoNewline(x, 0, amp) && VParamAt(x, amp, true) && IdAt(x, amp + 3)
      && forall k :: amp < k < |x| ==> !(VParamAt(x, k, true) && IdAt(x, k + 3))
  {
    var x := params + ("&v=" + (id + rest));
    var amp := |params|;
    var head := params + "&v=";
    assert IdAt(x, amp + 3) by {
      assert x == head + (id + rest);
      IdAfter(head, id, rest);
    }
    assert VParamAt(x, amp, true) && NoNewline(x, 0, amp);
    assert x == (head + id) + rest;
    forall k | amp + 1 <= k < |head + id| ensures (head + id)[k] != '&' {
      if k < amp + 3 {
        assert (head + id)[k] == "&v="[k - amp];
      } else {
        assert (head + id)[k] == id[k - amp - 3];
      }
    }
    NoAmpParamAfter(head + id, rest, amp + 1);
  }

  /** When "&v=" and an id at `amp` can be reached by `.*` and no later "&v=" is
      followed by an id, the greedy search stops at `amp`. */
  lemma LastAmpParam(x: string, amp: nat)
    requires NoNewline(x, 0, amp) && VParamAt(x, amp, true) && IdAt(x, amp + 3)
    requires forall k :: amp < k < |x| ==> !(VParamAt(x, k, true) && IdAt(x, k + 3))
    ensures VParamSearch(x, true) == Some(amp + 3)
  {
    var e := RunEnd(x, 0);
    RunEndSpec(x, 0);
    assert amp < e;
    LastVParamSpec(x, 0, e, true);
  }

  lemma WatchParamsAtStart(site: string, params: string, id: string, rest: string)
    requires IsId(id)
    requires |site| == 18 && StartsWith(site, "youtube.com/watch?")
    requires forall k :: 0 <= k < |params| ==> params[k] != '\n'
    requires forall j :: 0 <= j < |rest| ==> !(VParamAt(rest, j, true) && IdAt(rest, j + 3))
    ensures ParseVideoId(site + (params + ("&v=" + (id + rest)))) == id
  {
    var u := site + (params + ("&v=" + (id + rest)));
    StartsWithExtend(site, params + ("&v=" + (id + rest)), "youtube.com/watch?");
    assert u[18..] == params + ("&v=" + (id + rest));
    WatchParamsCapture(params, id, rest);
    WatchStep(u);
    var c := 18 + |params| + 3;
    ParseAtStart(u, c);
    assert u == (site + params + "&v=") + (id + rest);
    IdAfter(site + params + "&v=", id, rest);
  }

  lemma WatchParamsLink(pre: string, site: string, params: string, id: string, rest: string)
    requires NoY(pre) && IsId(id)
    requires |site| == 18 && StartsWith(site, "youtube.com/watch?")
    requires forall k :: 0 <= k < |params| ==> params[k] != '\n'
    requires forall j :: 0 <= j < |rest| ==> !(VParamAt(rest, j, true) && IdAt(rest, j + 3))
    ensures ParseVideoId(pre + site + params + "&v=" + id + rest) == id
  {
    WatchParamsAtStart(site, params, id, rest);
    IgnoresPrefix(pre, site + (params + ("&v=" + (id + rest))));
    assert pre + site + params + "&v=" + id + rest == pre + (site + (params + ("&v=" + (id + rest))));
  }

  // ---------------------------------------------------------------------------
  // Worked examples
  //
  // Each example cuts its URL into the pieces a general lemma above takes. The
  // `...Parts` lemmas state that the pieces join up to the literal; the solver proves
  // such an equation cheaply on its own but slowly next to `ParseVideoId`, so each
  // one sits in a lemma of its own.

  /** The video id used in the examples below. */
  const ExampleId := "dQw4w9WgXcQ"

  lemma ExampleIdIsId()
    ensures IsId(ExampleId)
  {
  }

  lemma WatchExample()
    ensures ParseVideoId("https://www.youtube.com/watch?v=dQw4w9WgXcQ") == ExampleId
  {
    ExampleIdIsId();
    WatchExampleParts();
    WatchLink("https://www.", "youtube.com/watch?v=", ExampleId, "");
  }

  lemma WatchExampleParts()
    ensures "https://www." + "youtube.com/watch?v=" + ExampleId + ""
        == "https://www.youtube.com/watch?v=dQw4w9WgXcQ"
  {
  }

  /** A later parameter that is not "v=" is ignored. */
  lemma LaterParamExample()
    ensures ParseVideoId("https://www.youtube.com/watch?v=dQw4w9WgXcQ&list=PL123") == ExampleId
  {
    ExampleIdIsId();
    var rest := "&list=PL123";
    assert forall j :: 0 <= j < |rest| ==> !VParamAt(rest, j, true) by {
      assert Lower(rest[1]) != 'v';
    }
    LaterParamExampleParts();
    WatchLink("https://www.", "youtube.com/watch?v=", ExampleId, rest);
  }

  lemma LaterParamExampleParts()
    ensures "https://www." + "youtube.com/watch?v=" + ExampleId == "https://www.youtube.com/watch?v=dQw4w9WgXcQ"
    ensures "https://www.youtube.com/watch?v=dQw4w9WgXcQ" + "&list=PL123"
        == "https://www.youtube.com/watch?v=dQw4w9WgXcQ&list=PL123"
  {
    assert "https://www." + "youtube.com/watch?v=" + ExampleId == "https://www.youtube.com/watch?v=dQw4w9WgXcQ";
  }

  lemma ShortLinkExample()
    ensures ParseVideoId("https://youtu.be/dQw4w9WgXcQ") == ExampleId
  {
    ExampleIdIsId();
    ShortLinkExampleParts();
    ShortLink("https://", "youtu.be/", ExampleId, "");
  }

  lemma ShortLinkExampleParts()
    ensures "https://" + "youtu.be/" + ExampleId + "" == "https://youtu.be/dQw4w9WgXcQ"
  {
  }

  /** The scheme and host may be written in upper case. */
  lemma UpperCaseExample()
    ensures ParseVideoId("HTTPS://YOUTU.BE/dQw4w9WgXcQ") == ExampleId
  {
    ExampleIdIsId();
    UpperCaseExampleParts();
    ShortLink("HTTPS://", "YOUTU.BE/", ExampleId, "");
  }

  lemma UpperCaseExampleParts()
    ensures "HTTPS://" + "YOUTU.BE/" + ExampleId + "" == "HTTPS://YOUTU.BE/dQw4w9WgXcQ"
  {
  }

  lemma ShortsExample()
    ensures ParseVideoId("youtube.com/shorts/dQw4w9WgXcQ") == ExampleId
  {
    ExampleIdIsId();
    ShortsExampleParts();
    PathLink("", "youtube.com/", "shorts/", "shorts/", ExampleId, "");
  }

  lemma ShortsExampleParts()
    ensures "" + "youtube.com/" + "shorts/" + ExampleId + "" == "youtube.com/shorts/dQw4w9WgXcQ"
  {
  }

  /** What follows the id does not matter. */
  lemma EmbedExample()
    ensures ParseVideoId("youtube.com/embed/dQw4w9WgXcQ?t=5") == ExampleId
  {
    ExampleIdIsId();
    EmbedExampleParts();
    PathLink("", "youtube.com/", "embed/", "embed/", ExampleId, "?t=5");
  }

  lemma EmbedExampleParts()
    ensures "" + "youtube.com/" + "embed/" + ExampleId + "?t=5" == "youtube.com/embed/dQw4w9WgXcQ?t=5"
  {
  }

  /** A parameter before "v=" is skipped by the `.*&` group. */
  lemma ParamsBeforeExample()
    ensures ParseVideoId("youtube.com/watch?list=PL1&v=dQw4w9WgXcQ") == ExampleId
  {
    ExampleIdIsId();
    ParamsBeforeParts();
    WatchParamsLink("", "youtube.com/watch?", "list=PL1", ExampleId, "");
  }

  lemma ParamsBeforeParts()
    ensures "" + "youtube.com/watch?" + "list=PL1" + "&v=" + ExampleId + ""
        == "youtube.com/watch?list=PL1&v=dQw4w9WgXcQ"
  {
  }

  lemma NotAUrlExample()
    ensures ParseVideoId("not a url") == ""
  {
    NotAUrlHasNoY();
    NoYNoId("not a url");
  }

  lemma NotAUrlHasNoY()
    ensures NoY("not a url")
  {
  }

  lemma TooShortExample()
    ensures ParseVideoId("https://youtu.be/abc") == ""
  {
    TooShortExampleParts();
    ShortLinkTooShort("https://", "youtu.be/", "abc");
  }

  lemma TooShortExampleParts()
    ensures "https://" + "youtu.be/" + "abc" == "https://youtu.be/abc"
  {
  }

  /** An id cut short by '?' gives nothing, even with more text after it. */
  lemma CutShortExample()
    ensures ParseVideoId("https://youtu.be/abc?t=1234567890") == ""
  {
    CutShortExampleParts();
    ShortLinkCutShort("https://", "youtu.be/", "abc", '?', "t=1234567890");
  }

  lemma CutShortExampleParts()
    ensures "https://" + "youtu.be/" + "abc" + ['?'] + "t=1234567890" == "https://youtu.be/abc?t=1234567890"
  {
  }
}
