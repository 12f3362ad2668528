/** The regular expression `/EPSG:\d+/` as the capability pipeline uses it:
    `test` (is there a match anywhere?) and `match(...)[0]` (the text of the
    leftmost match). JavaScript's `\d` is the ASCII digits `0`-`9`; the quantifier `+` is greedy and nothing follows it, so
    a match runs over every digit after the prefix. */
module EpsgPattern {
  import opened Wrappers

  const Prefix: string := "EPSG:"

  predicate IsDigit(c: char)
  {
    '0' <= c <= '9'
  }

  /** A code as the pattern produces it: the prefix and one or more digits. */
  ghost predicate IsEpsgCode(c: string)
  {
    && |c| > |Prefix|
    && c[..|Prefix|] == Prefix
    && forall k :: |Prefix| <= k < |c| ==> IsDigit(c[k])
  }

  /** The pattern matches at position `i`: the prefix, then a digit. */
  predicate MatchesAt(s: string, i: nat)
  {
    i + |Prefix| < |s| && s[i..i + |Prefix|] == Prefix && IsDigit(s[i + |Prefix|])
  }

  /** A match found by `exec`: the text `s[start..end]`. */
  datatype Span = Span(start: nat, end: nat)

  /** The end of the run of digits that begins at `j`. */
  function DigitRunEnd(s: string, j: nat): (e: nat)
    requires j <= |s|
    ensures j <= e <= |s|
    ensures forall k :: j <= k < e ==> IsDigit(s[k])
    ensures e == |s| || !IsDigit(s[e])
    decreases |s| - j
  {
    if j < |s| && IsDigit(s[j]) then DigitRunEnd(s, j + 1) else j
  }

  /** The first position at or after `i` where the pattern matches. */
  function LeftmostFrom(s: string, i: nat): (r: Option<nat>)
    requires i <= |s|
    ensures r.Some? ==> i <= r.value && MatchesAt(s, r.value)
    ensures r.Some? ==> forall k :: i <= k < r.value ==> !MatchesAt(s, k)
    ensures r.None? <==> forall k :: i <= k < |s| ==> !MatchesAt(s, k)
    decreases |s| - i
  {
    if i == |s| then None
    else if MatchesAt(s, i) then Some(i)
    else LeftmostFrom(s, i + 1)
  }

  /** `/EPSG:\d+/.exec(s)`: the leftmost match, its digit run taken whole. */
  function Exec(s: string): (r: Option<Span>)
    ensures r.None? <==> forall k :: 0 <= k < |s| ==> !MatchesAt(s, k)
    ensures r.Some? ==> MatchesAt(s, r.value.start)
    ensures r.Some? ==> forall k :: 0 <= k < r.value.start ==> !MatchesAt(s, k)
    ensures r.Some? ==> r.value.start + |Prefix| < r.value.end <= |s|
    ensures r.Some? ==> forall k :: r.value.start + |Prefix| <= k < r.value.end ==> IsDigit(s[k])
    ensures r.Some? ==> r.value.end == |s| || !IsDigit(s[r.value.end])
  {
    match LeftmostFrom(s, 0)
    case None => None
    case Some(i) => Some(Span(i, DigitRunEnd(s, i + |Prefix|)))
  }

  /** `/EPSG:\d+/.test(s)` */
  predicate Test(s: string)
    ensures Test(s) <==> exists i :: MatchesAt(s, i)
  {
    Exec(s).Some?
  }

  /** `s` holds the code `c` at the leftmost matching position `i`, with
      the digit run of `c` running to the end of the digits there. */
  ghost predicate IsLeftmostLongestAt(s: string, c: string, i: nat)
  {
    && i + |c| <= |s| && s[i..i + |c|] == c
    && MatchesAt(s, i)
    && (forall k :: 0 <= k < i ==> !MatchesAt(s, k))
    && (i + |c| == |s| || !IsDigit(s[i + |c|]))
  }

  /** `c` is what `s.match(/EPSG:\d+/)![0]` yields: a well-formed code held
      by `s` at its leftmost match, with the digit run taken whole. */
  ghost predicate IsMatchOf(s: string, c: string)
  {
    IsEpsgCode(c) && exists i :: IsLeftmostLongestAt(s, c, i)
  }

  /** The digits of a code held by `s` at `i` are digits of `s`. */
  lemma HeldDigits(s: string, c: string, i: nat)
    requires IsEpsgCode(c) && i + |c| <= |s| && s[i..i + |c|] == c
    ensures forall k :: i + |Prefix| <= k < i + |c| ==> IsDigit(s[k])
  {
    assert forall k :: i + |Prefix| <= k < i + |c| ==> s[k] == c[k - i];
  }

  /** A string has at most one match text. */
  lemma {:induction false} MatchOfUnique(s: string, c: string, d: string)
    requires IsMatchOf(s, c) && IsMatchOf(s, d)
    ensures c == d
  {
    var i :| IsLeftmostLongestAt(s, c, i);
    var j :| IsLeftmostLongestAt(s, d, j);
    assert i == j;
    HeldDigits(s, c, i);
    HeldDigits(s, d, i);
    assert |c| == |d|;
  }

  /** `s.match(/EPSG:\d+/)![0]`: the text of the leftmost match, which is a
      well-formed code whose digit run is taken whole. */
  function MatchText(s: string): (c: string)
    requires Test(s)
    ensures IsMatchOf(s, c)
  {
    var m := Exec(s).value;
    var c := s[m.start..m.end];
    assert c[..|Prefix|] == s[m.start..m.start + |Prefix|];
    assert forall k :: |Prefix| <= k < |c| ==> c[k] == s[m.start + k];
    assert IsLeftmostLongestAt(s, c, m.start);
    c
  }

  /** A code is its own match: extracting from a well-formed code gives it back. */
  lemma CodeMatchesItself(c: string)
    requires IsEpsgCode(c)
    ensures Test(c) && MatchText(c) == c
  {
    assert MatchesAt(c, 0);
    assert Exec(c).value.start == 0;
  }

  /** A match starts at an `E`. */
  lemma MatchStartsWithE(s: string, k: nat)
    requires MatchesAt(s, k)
    ensures s[k] == 'E'
  {
    assert s[k..k + |Prefix|][0] == s[k];
  }

  /** A string with no `E` in positions `lo..hi` has no match starting there. */
  lemma NoMatchWithoutE(s: string, lo: nat, hi: nat)
    requires lo <= hi <= |s|
    requires forall k :: lo <= k < hi ==> s[k] != 'E'
    ensures forall k :: lo <= k < hi ==> !MatchesAt(s, k)
  {
    forall k | lo <= k < hi && MatchesAt(s, k) ensures false {
      MatchStartsWithE(s, k);
    }
  }

  /** The pattern is case-sensitive and needs a digit after the colon. */
  lemma LowerCaseNotMatched()
    ensures !Test("epsg:4326")
  {
    var s := "epsg:4326";
    NoMatchWithoutE(s, 0, 4);
  }

  /** OGC URNs (`...:EPSG::4326`, with an empty version field) do not match. */
  lemma UrnNotMatched()
    ensures !Test("urn:ogc:def:crs:EPSG::4326")
  {
    var s := "urn:ogc:def:crs:EPSG::4326";
    NoMatchWithoutE(s, 0, 16);
    assert !MatchesAt(s, 16) by { assert !IsDigit(s[21]); }
    NoMatchWithoutE(s, 17, 22);
  }

  /** The leftmost match wins. */
  lemma LeftmostWins(s: string)
    requires s == "EPSG:EPSG:4326"
    ensures Test(s) && MatchText(s) == "EPSG:4326"
  {
    var c := "EPSG:4326";
    assert !MatchesAt(s, 0) by { assert !IsDigit(s[5]); }
    NoMatchWithoutE(s, 1, 5);
    assert MatchesAt(s, 5) && s[5..14] == c;
    assert IsLeftmostLongestAt(s, c, 5);
    MatchOfUnique(s, MatchText(s), c);
  }

  /** The digit run stops at the first non-digit. */
  lemma DigitRunIsMaximal()
    ensures Test("EPSG:3857 EPSG:4326") && MatchText("EPSG:3857 EPSG:4326") == "EPSG:3857"
  {
    var t := "EPSG:3857 EPSG:4326";
    assert MatchesAt(t, 0);
    assert !IsDigit(t[9]);
    assert Exec(t).value == Span(0, 9);
  }
}
