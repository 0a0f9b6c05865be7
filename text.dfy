/** The string operations of Python that the text pipeline relies on: str.split() with no
    argument, sep.join(parts) and str.strip(), with "whitespace" and "word character"
    read over ASCII. */
module Text {

  /** Whitespace as str.split(), str.strip() and the regex class \s see it, restricted to
      ASCII: space, \t, \n, \v, \f, \r and the separators \x1c to \x1f. */
  predicate IsSpace(c: char) {
    c == ' ' || (9 <= c as int <= 13) || (28 <= c as int <= 31)
  }

  /** A regex word character (\w) restricted to ASCII: a letter, a digit or '_'. */
  predicate IsWordChar(c: char) {
    ('a' <= c <= 'z') || ('A' <= c <= 'Z') || ('0' <= c <= '9') || c == '_'
  }

  /** A string without whitespace. */
  predicate NoSpace(w: string) {
    forall i :: 0 <= i < |w| ==> !IsSpace(w[i])
  }

  /** An element of what str.split() returns: non-empty and without whitespace. */
  predicate IsWord(w: string) {
    |w| > 0 && NoSpace(w)
  }

  predicate AllWords(ws: seq<string>) {
    forall i :: 0 <= i < |ws| ==> IsWord(ws[i])
  }

  predicate IsBlank(s: string) {
    forall i :: 0 <= i < |s| ==> IsSpace(s[i])
  }

  /** Length of the run of non-whitespace characters at the start of s. */
  function RunLength(s: string): (n: nat)
    ensures n <= |s|
    ensures NoSpace(s[..n])
    ensures n == |s| || IsSpace(s[n])
  {
    if s == [] || IsSpace(s[0]) then 0
    else
      var n := 1 + RunLength(s[1..]);
      assert s[..n] == [s[0]] + s[1..][..n - 1];
      n
  }

  /** str.split(): the maximal runs of non-whitespace characters of s, in order. */
  function Split(s: string): (ws: seq<string>)
    ensures AllWords(ws)
    decreases |s|
  {
    if s == [] then []
    else if IsSpace(s[0]) then Split(s[1..])
    else
      var n := RunLength(s);
      [s[..n]] + Split(s[n..])
  }

  /** The total length of the parts. */
  function TotalLength(parts: seq<string>): nat {
    if parts == [] then 0 else |parts[0]| + TotalLength(parts[1..])
  }

  /** sep.join(parts). */
  function JoinWith(parts: seq<string>, sep: string): string
  {
    if |parts| == 0 then ""
    else if |parts| == 1 then parts[0]
    else parts[0] + sep + JoinWith(parts[1..], sep)
  }

  /** str.rstrip(): s without its trailing whitespace. */
  function StripEnd(s: string): (r: string)
    ensures r <= s
    ensures r == [] || !IsSpace(r[|r| - 1])
    ensures IsBlank(s[|r|..])
  {
    if s != [] && IsSpace(s[|s| - 1]) then
      var r := StripEnd(s[..|s| - 1]);
      assert s[|r|..] == s[..|s| - 1][|r|..] + [s[|s| - 1]];
      r
    else s
  }

  /** str.lstrip(): s without its leading whitespace. */
  function StripStart(s: string): (r: string)
    ensures |r| <= |s| && r == s[|s| - |r|..]
    ensures r == [] || !IsSpace(r[0])
    ensures IsBlank(s[..|s| - |r|])
  {
    if s != [] && IsSpace(s[0]) then
      var r := StripStart(s[1..]);
      assert s[..|s| - |r|] == [s[0]] + s[1..][..|s| - 1 - |r|];
      r
    else s
  }

  /** str.strip(). */
  function Strip(s: string): string {
    StripStart(StripEnd(s))
  }

  /** sep.join(parts) starts with the first part, and its length is that of the parts plus
      one separator fewer than there are parts. */
  lemma {:induction false} JoinWithLength(parts: seq<string>, sep: string)
    ensures parts == [] ==> JoinWith(parts, sep) == ""
    ensures parts != [] ==> parts[0] <= JoinWith(parts, sep)
    ensures parts != [] ==> |JoinWith(parts, sep)| == TotalLength(parts) + (|parts| - 1) * |sep|
    decreases |parts|
  {
    if |parts| > 1 {
      JoinWithLength(parts[1..], sep);
      assert (|parts| - 2) * |sep| + |sep| == (|parts| - 1) * |sep|;
    }
  }

  /** str.strip() returns the slice of s left once its leading and trailing whitespace is
      cut off; the slice neither starts nor ends with whitespace. */
  lemma StripIsTrimmedSlice(s: string)
    ensures var r := Strip(s);
      && (exists i :: 0 <= i <= |s| - |r| && r == s[i..i + |r|] && IsBlank(s[..i]) && IsBlank(s[i + |r|..]))
      && (r == [] || (!IsSpace(r[0]) && !IsSpace(r[|r| - 1])))
  {
    var e := StripEnd(s);
    var r := StripStart(e);
    var i := |e| - |r|;
    assert r == s[i..i + |r|];
    assert s[..i] == e[..i];
    assert s[i + |r|..] == s[|e|..];
    assert r != [] ==> r[|r| - 1] == e[|e| - 1];
  }

  /** A trailing whitespace character never survives str.strip(). */
  lemma StripDropsTrailingSpace(t: string, c: char)
    requires IsSpace(c)
    ensures |Strip(t + [c])| <= |t|
  {
    assert (t + [c])[..|t|] == t;
  }

  /** A word followed by nothing or by whitespace is split off as the first element. */
  lemma SplitWordThen(w: string, t: string)
    requires IsWord(w)
    requires t == [] || IsSpace(t[0])
    ensures Split(w + t) == [w] + Split(t)
  {
    var s := w + t;
    var n := RunLength(s);
    assert n == |w| by {
      assert forall i :: 0 <= i < |w| ==> s[i] == w[i];
      assert |w| < |s| ==> s[|w|] == t[0];
      assert NoSpace(s[..n]);
    }
    assert s[..n] == w && s[n..] == t;
  }

  /** Leading whitespace contributes nothing to str.split(). */
  lemma SplitSkipsSpace(c: char, t: string)
    requires IsSpace(c)
    ensures Split([c] + t) == Split(t)
  {
    assert ([c] + t)[1..] == t;
  }

  /** str.split() undoes " ".join() over words: no word is lost, split or reordered. */
  lemma {:induction false} SplitJoin(ws: seq<string>)
    requires AllWords(ws)
    ensures Split(JoinWith(ws, " ")) == ws
  {
    if |ws| == 1 {
      SplitWordThen(ws[0], "");
      assert ws[0] + "" == ws[0];
    } else if |ws| > 1 {
      var rest := JoinWith(ws[1..], " ");
      var joined := JoinWith(ws, " ");
      assert joined == ws[0] + (" " + rest);
      assert AllWords(ws[1..]) by {
        forall i | 0 <= i < |ws| - 1 ensures IsWord(ws[1..][i]) {
          assert ws[1..][i] == ws[i + 1];
        }
      }
      SplitJoin(ws[1..]);
      SplitWordThen(ws[0], " " + rest);
      SplitSkipsSpace(' ', rest);
      assert ws == [ws[0]] + ws[1..];
    }
  }

  /** str.split() returns nothing exactly for the empty or all-whitespace string. */
  lemma {:induction false} SplitEmptyIffBlank(s: string)
    ensures Split(s) == [] <==> IsBlank(s)
    decreases |s|
  {
    if s != [] && IsSpace(s[0]) {
      SplitEmptyIffBlank(s[1..]);
      if IsBlank(s[1..]) {
        forall i | 0 <= i < |s| ensures IsSpace(s[i]) {
          if i > 0 { assert s[i] == s[1..][i - 1]; }
        }
      } else {
        var i :| 0 <= i < |s[1..]| && !IsSpace(s[1..][i]);
        assert !IsSpace(s[i + 1]);
      }
    }
  }
}
