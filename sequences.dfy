/** The JavaScript array operations the capability pipeline is built from:
    `find`, `indexOf`, `filter` and the `indexOf`-based de-duplication
    `filter((v, i, a) => a.indexOf(v) === i)`. */
module Sequences {
  import opened Wrappers

  /** No value occurs twice. */
  ghost predicate NoDuplicates<T>(s: seq<T>)
  {
    forall i, j :: 0 <= i < j < |s| ==> s[i] != s[j]
  }

  /** `idx` lists strictly increasing positions of `s` that spell out `r`. */
  ghost predicate Embeds<T>(r: seq<T>, s: seq<T>, idx: seq<nat>)
  {
    && |idx| == |r|
    && (forall k :: 0 <= k < |idx| ==> idx[k] < |s| && s[idx[k]] == r[k])
    && (forall k, l :: 0 <= k < l < |idx| ==> idx[k] < idx[l])
  }

  /** `r` is obtained from `s` by deleting elements, keeping the order. */
  ghost predicate IsSubsequence<T>(r: seq<T>, s: seq<T>)
  {
    exists idx :: Embeds(r, s, idx)
  }

  /** `s.find(p)`, as the position of the element found: the first
      element satisfying `p`, or nothing when no element does. */
  function FindIndex<T>(s: seq<T>, p: T -> bool): (r: Option<nat>)
    ensures r.Some? ==> r.value < |s| && p(s[r.value])
    ensures r.Some? ==> forall j :: 0 <= j < r.value ==> !p(s[j])
    ensures r.None? <==> forall j :: 0 <= j < |s| ==> !p(s[j])
  {
    if |s| == 0 then None
    else if p(s[0]) then Some(0)
    else match FindIndex(s[1..], p)
      case None => None
      case Some(k) => Some(k + 1)
  }

  /** `s.indexOf(v)`: the position of the first element equal to `v`,
      and -1 when there is none. */
  function IndexOf<T(==)>(s: seq<T>, v: T): (r: int)
    ensures -1 <= r < |s|
    ensures 0 <= r ==> s[r] == v && forall j :: 0 <= j < r ==> s[j] != v
    ensures r == -1 <==> v !in s
  {
    if |s| == 0 then -1
    else if s[0] == v then 0
    else
      var k := IndexOf(s[1..], v);
      if k == -1 then -1 else k + 1
  }

  /** `s.filter(p)`: the elements satisfying `p`, in their order. */
  function Filter<T>(s: seq<T>, p: T -> bool): (r: seq<T>)
    ensures |r| <= |s|
    ensures forall i :: 0 <= i < |r| ==> p(r[i]) && r[i] in s
    ensures forall i :: 0 <= i < |s| && p(s[i]) ==> s[i] in r
  {
    if |s| == 0 then []
    else
      var last := s[|s| - 1];
      assert s == s[..|s| - 1] + [last];
      Filter(s[..|s| - 1], p) + (if p(last) then [last] else [])
  }

  lemma {:induction false} FilterIsSubsequence<T>(s: seq<T>, p: T -> bool)
    ensures IsSubsequence(Filter(s, p), s)
  {
    if |s| == 0 {
      assert Embeds(Filter(s, p), s, []);
    } else {
      var init, last := s[..|s| - 1], s[|s| - 1];
      FilterIsSubsequence(init, p);
      var idx: seq<nat> :| Embeds(Filter(init, p), init, idx);
      if p(last) {
        var idx': seq<nat> := idx + [|s| - 1];
        assert Embeds(Filter(s, p), s, idx');
      } else {
        assert Embeds(Filter(s, p), s, idx);
      }
    }
  }

    /** `filter` keeps every occurrence of a passing value and drops every
      occurrence of a failing one. */
  lemma {:induction false} FilterCounts<T>(s: seq<T>, p: T -> bool)
    ensures forall v :: multiset(Filter(s, p))[v] == if p(v) then multiset(s)[v] else 0
  {
    if |s| > 0 {
      var init, last := s[..|s| - 1], s[|s| - 1];
      assert s == init + [last];
      FilterCounts(init, p);
    }
  }

/** A filter that every element passes keeps the whole sequence. */
  lemma {:induction false} FilterKeepsAll<T>(s: seq<T>, p: T -> bool)
    requires forall i :: 0 <= i < |s| ==> p(s[i])
    ensures Filter(s, p) == s
  {
    if |s| > 0 {
      FilterKeepsAll(s[..|s| - 1], p);
      assert s == s[..|s| - 1] + [s[|s| - 1]];
    }
  }

  /** `s.filter((v, i, a) => a.indexOf(v) === i)`, restricted to the first
      `n` positions: the elements of `s[..n]` standing at the first
      occurrence of their value in `s`. */
  function FirstOccurrencesUpTo<T(==)>(s: seq<T>, n: nat): seq<T>
    requires n <= |s|
  {
    if n == 0 then []
    else FirstOccurrencesUpTo(s, n - 1) + (if IndexOf(s, s[n - 1]) == n - 1 then [s[n - 1]] else [])
  }

  /** `s.filter((v, i, a) => a.indexOf(v) === i)`. */
  function FirstOccurrences<T(==)>(s: seq<T>): seq<T>
  {
    FirstOccurrencesUpTo(s, |s|)
  }

  /** The elements of `r` appear in the order of their first occurrence in `s`. */
  ghost predicate InFirstOccurrenceOrder<T>(r: seq<T>, s: seq<T>)
  {
    forall i, j :: 0 <= i < j < |r| ==> IndexOf(s, r[i]) < IndexOf(s, r[j])
  }

  /** Every value kept from `s[..n]` has its first occurrence before `n`. */
  lemma {:induction false} FirstOccurrencesUpToBelow<T>(s: seq<T>, n: nat)
    requires n <= |s|
    ensures forall i :: 0 <= i < |FirstOccurrencesUpTo(s, n)| ==>
              0 <= IndexOf(s, FirstOccurrencesUpTo(s, n)[i]) < n
  {
    if n > 0 {
      FirstOccurrencesUpToBelow(s, n - 1);
      assert s[n - 1] in s;
    }
  }

  /** The kept values stand in first-occurrence order. */
  lemma {:induction false} FirstOccurrencesUpToOrdered<T>(s: seq<T>, n: nat)
    requires n <= |s|
    ensures InFirstOccurrenceOrder(FirstOccurrencesUpTo(s, n), s)
  {
    if n > 0 {
      FirstOccurrencesUpToOrdered(s, n - 1);
      FirstOccurrencesUpToBelow(s, n - 1);
    }
  }

  /** Every value of `s[..n]` is kept. */
  lemma {:induction false} FirstOccurrencesUpToComplete<T>(s: seq<T>, n: nat)
    requires n <= |s|
    ensures forall j :: 0 <= j < n ==> s[j] in FirstOccurrencesUpTo(s, n)
  {
    if n > 0 {
      FirstOccurrencesUpToComplete(s, n - 1);
      var prev := FirstOccurrencesUpTo(s, n - 1);
      var k := IndexOf(s, s[n - 1]);
      if k != n - 1 {
        assert s[n - 1] in s;
        assert k < n - 1 && s[k] == s[n - 1];
        assert s[k] in prev;
        assert FirstOccurrencesUpTo(s, n) == prev;
      } else {
        assert FirstOccurrencesUpTo(s, n) == prev + [s[n - 1]];
      }
    }
  }

  /** What the de-duplication promises: no value twice, exactly the values
      of `s`, each at the position of its first occurrence, in order. */
  lemma FirstOccurrencesSpec<T>(s: seq<T>)
    ensures NoDuplicates(FirstOccurrences(s))
    ensures forall v :: v in FirstOccurrences(s) <==> v in s
    ensures InFirstOccurrenceOrder(FirstOccurrences(s), s)
    ensures IsSubsequence(FirstOccurrences(s), s)
  {
    var r := FirstOccurrences(s);
    FirstOccurrencesUpToBelow(s, |s|);
    FirstOccurrencesUpToOrdered(s, |s|);
    FirstOccurrencesUpToComplete(s, |s|);
    forall v | v in r ensures v in s {
      var i :| 0 <= i < |r| && r[i] == v;
      assert s[IndexOf(s, r[i])] == v;
    }
    var idx := seq(|r|, k requires 0 <= k < |r| => IndexOf(s, r[k]) as nat);
    assert Embeds(r, s, idx);
  }

  /** In a sequence ordered by first occurrence, the keys grow with the
      position, strictly. */
  lemma OrderedKeys<T>(s: seq<T>, x: seq<T>, i: nat, j: nat)
    requires InFirstOccurrenceOrder(x, s)
    requires i <= j < |x|
    ensures IndexOf(s, x[i]) <= IndexOf(s, x[j])
    ensures i < j ==> IndexOf(s, x[i]) < IndexOf(s, x[j])
  {
  }

  /** Two nonempty sequences holding the same values, both ordered by first
      occurrence in `s`, start with the same value. */
  lemma OrderedSameHead<T>(s: seq<T>, x: seq<T>, y: seq<T>)
    requires |x| > 0 && |y| > 0
    requires forall v :: v in x <==> v in y
    requires InFirstOccurrenceOrder(x, s) && InFirstOccurrenceOrder(y, s)
    ensures x[0] == y[0]
  {
    assert x[0] in y && y[0] in x;
    var m :| 0 <= m < |y| && y[m] == x[0];
    var l :| 0 <= l < |x| && x[l] == y[0];
    OrderedKeys(s, y, 0, m);
    OrderedKeys(s, x, 0, l);
  }

  /** The head of a nonempty sequence is one of its values. */
  lemma HeadIsMember<T>(y: seq<T>)
    ensures |y| > 0 ==> y[0] in y
  {
  }

  /** A sequence with the same values as the empty one is empty. */
  lemma NoValuesEmpty<T>(x: seq<T>, y: seq<T>)
    requires |x| == 0
    requires forall v :: v in x <==> v in y
    ensures y == []
  {
    HeadIsMember(y);
  }

  /** Dropping the common head of two ordered sequences with the same
      values leaves tails with the same values. */
  lemma OrderedSameTailValues<T>(s: seq<T>, x: seq<T>, y: seq<T>)
    requires |x| > 0 && |y| > 0 && x[0] == y[0]
    requires forall v :: v in x <==> v in y
    requires InFirstOccurrenceOrder(x, s) && InFirstOccurrenceOrder(y, s)
    ensures forall v :: v in x[1..] ==> v in y[1..]
  {
    forall v | v in x[1..] ensures v in y[1..] {
      var i :| 1 <= i < |x| && x[i] == v;
      OrderedKeys(s, x, 0, i);
      assert v in y && v != y[0];
      var j :| 0 <= j < |y| && y[j] == v;
      assert y[1..][j - 1] == v;
    }
  }

  /** Two sequences holding the same values, each ordered by first
      occurrence in `s`, are equal. */
  lemma {:induction false} OrderedBySameKeyEqual<T>(s: seq<T>, x: seq<T>, y: seq<T>)
    requires forall v :: v in x <==> v in y
    requires InFirstOccurrenceOrder(x, s) && InFirstOccurrenceOrder(y, s)
    ensures x == y
  {
    if |x| == 0 {
      NoValuesEmpty(x, y);
    } else {
      assert x[0] in y;
      OrderedSameHead(s, x, y);
      OrderedSameTailValues(s, x, y);
      OrderedSameTailValues(s, y, x);
      OrderedBySameKeyEqual(s, x[1..], y[1..]);
      assert x == [x[0]] + x[1..] && y == [y[0]] + y[1..];
    }
  }

  /** The de-duplication is the only sequence holding exactly the values of
      `s` in first-occurrence order. */
  lemma FirstOccurrencesUnique<T>(s: seq<T>, r: seq<T>)
    requires forall v :: v in r <==> v in s
    requires InFirstOccurrenceOrder(r, s)
    ensures r == FirstOccurrences(s)
  {
    FirstOccurrencesSpec(s);
    OrderedBySameKeyEqual(s, r, FirstOccurrences(s));
  }

  /** De-duplicating a sequence without repeated values changes nothing. */
  lemma FirstOccurrencesOfDistinct<T>(s: seq<T>)
    requires NoDuplicates(s)
    ensures FirstOccurrences(s) == s
  {
    forall i | 0 <= i < |s| ensures IndexOf(s, s[i]) == i {
      var k := IndexOf(s, s[i]);
      assert s[i] in s;
      assert !(k < i) && !(i < k);
    }
    FirstOccurrencesUnique(s, s);
  }
}
