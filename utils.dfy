/** youtube_analyzer/utils.py: extract_video_id, the regex search for "v=" or "/" followed
    by eleven characters of [0-9A-Za-z_-], written as a scan for the leftmost position
    where that pattern matches. */
module Utils {
  import opened Wrappers

  /** The length of a video ID. */
  const IdLength: nat := 11

  /** A character of the class [0-9A-Za-z_-]. */
  predicate IsIdChar(c: char) {
    ('0' <= c <= '9') || ('A' <= c <= 'Z') || ('a' <= c <= 'z') || c == '_' || c == '-'
  }

  /** The length of the marker at position p: 2 for "v=", 1 for "/", 0 for neither. The
      regex tries "v=" first; no position can start both. */
  function MarkerLength(url: string, p: nat): (m: nat)
    ensures m == 2 <==> p + 2 <= |url| && url[p..p + 2] == "v="
    ensures m == 1 <==> p + 1 <= |url| && url[p..p + 1] == "/"
    ensures m == 0 || m == 1 || m == 2
  {
    if p + 1 < |url| && url[p] == 'v' && url[p + 1] == '=' then 2
    else if p < |url| && url[p] == '/' then 1
    else 0
  }

  /** The pattern matches at p: a marker starts there and is followed by eleven ID
      characters. */
  predicate MatchesAt(url: string, p: nat) {
    var m := MarkerLength(url, p);
    m > 0 && p + m + IdLength <= |url| &&
    forall i :: p + m <= i < p + m + IdLength ==> IsIdChar(url[i])
  }

  /** Every character of s is in [0-9A-Za-z_-]. */
  predicate AllIdChars(s: string) {
    forall i :: 0 <= i < |s| ==> IsIdChar(s[i])
  }

  /** The pattern at one position is the regex's alternation: "v=" followed by eleven ID
      characters, or "/" followed by eleven ID characters. */
  lemma MatchesAtAlternation(url: string, p: nat)
    ensures MatchesAt(url, p) <==>
              || (p + 2 + IdLength <= |url| && url[p..p + 2] == "v=" && AllIdChars(url[p + 2..p + 2 + IdLength]))
              || (p + 1 + IdLength <= |url| && url[p..p + 1] == "/" && AllIdChars(url[p + 1..p + 1 + IdLength]))
  {
    var m := MarkerLength(url, p);
    if m > 0 && p + m + IdLength <= |url| {
      var id := url[p + m..p + m + IdLength];
      assert forall i :: 0 <= i < IdLength ==> id[i] == url[p + m + i];
    }
  }

  /** The eleven characters after the marker at p: the regex's group 1. */
  function IdAt(url: string, p: nat): (id: string)
    requires MatchesAt(url, p)
    ensures |id| == IdLength
    ensures forall i :: 0 <= i < |id| ==> IsIdChar(id[i])
  {
    var m := MarkerLength(url, p);
    url[p + m..p + m + IdLength]
  }

  /** The leftmost position at or after `from` where the pattern matches, if any. */
  function FindMatch(url: string, from: nat): (r: Option<nat>)
    ensures r.Some? ==> from <= r.value && MatchesAt(url, r.value)
    ensures r.Some? ==> forall q :: from <= q < r.value ==> !MatchesAt(url, q)
    ensures r.None? ==> forall q: nat :: from <= q ==> !MatchesAt(url, q)
    decreases |url| - from
  {
    if from >= |url| then None
    else if MatchesAt(url, from) then Some(from)
    else FindMatch(url, from + 1)
  }

  /** extract_video_id: the ID after the leftmost marker that is followed by eleven ID
      characters, or None when no position has one. */
  function ExtractVideoId(url: string): (r: Option<string>)
    ensures r.Some? ==> |r.value| == IdLength && forall i :: 0 <= i < |r.value| ==> IsIdChar(r.value[i])
    ensures r.Some? ==> exists p: nat :: MatchesAt(url, p) && r.value == IdAt(url, p) &&
                                    forall q :: 0 <= q < p ==> !MatchesAt(url, q)
    ensures r.None? <==> forall p: nat :: !MatchesAt(url, p)
  {
    match FindMatch(url, 0)
    case None => None
    case Some(p) => Some(IdAt(url, p))
  }

  /** Whether the pattern matches at a position that lies, with its ID, inside url depends
      only on url. */
  lemma MatchesAtPrefix(url: string, suffix: string, q: nat)
    requires q + 2 + IdLength <= |url|
    ensures MatchesAt(url + suffix, q) <==> MatchesAt(url, q)
  {
    var long := url + suffix;
    assert forall i :: 0 <= i < |url| ==> long[i] == url[i];
  }

  /** A match stays a match when text is appended to the URL. */
  lemma MatchesAtExtends(url: string, suffix: string, q: nat)
    requires MatchesAt(url, q)
    ensures MatchesAt(url + suffix, q)
  {
    var long := url + suffix;
    assert forall i :: 0 <= i < |url| ==> long[i] == url[i];
  }

  /** The scan finds the same leftmost match after text is appended to the URL. */
  lemma {:induction false} FindMatchIgnoresSuffix(url: string, suffix: string, from: nat)
    requires FindMatch(url, from).Some?
    ensures FindMatch(url + suffix, from) == FindMatch(url, from)
    decreases |url| - from
  {
    if MatchesAt(url, from) {
      MatchesAtExtends(url, suffix, from);
    } else {
      MatchesAtPrefix(url, suffix, from);
      FindMatchIgnoresSuffix(url, suffix, from + 1);
    }
  }

  /** What follows a URL never changes the ID found in it (the regex's trailing .* asks
      nothing of it). */
  lemma ExtractVideoIdIgnoresSuffix(url: string, suffix: string)
    requires ExtractVideoId(url).Some?
    ensures ExtractVideoId(url + suffix) == ExtractVideoId(url)
  {
    var long := url + suffix;
    FindMatchIgnoresSuffix(url, suffix, 0);
    var p := FindMatch(url, 0).value;
    var m := MarkerLength(url, p);
    assert MarkerLength(long, p) == m;
    assert long[p + m..p + m + IdLength] == url[p + m..p + m + IdLength];
  }
}
