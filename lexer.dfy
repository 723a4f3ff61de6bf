/** The lexical analyser of the Incident interpreter (`find_commands_and_incidences`
    and `lexical_parse` in incident.c).  A command is a substring that occurs
    exactly three times and is not part of a longer such substring; its three
    occurrences ("incidences") are found from a suffix array and its LCP array,
    overlapping provisional commands are deleted, and every byte of the program
    gets a tag: 0 noise, 1 part of a deleted command, 2 part of an overlap, and
    3 * id + role for a byte of the command `id` (ids from 1) in its first (0),
    middle (1) or last (2) incidence in the text. */
module Lexer {
  import opened Common
  import opened Tags

  // ---------------------------------------------------------------------------
  // The suffix-array / LCP contract.  The arrays come from an external suffix
  // sorter; these predicates say what they must satisfy.
  // ---------------------------------------------------------------------------

  /** `x` sorts before or equal to `y` in lexicographic byte order. */
  predicate LexLeq(x: seq<Byte>, y: seq<Byte>)
    decreases |x|
  {
    x == [] || (y != [] && (x[0] < y[0] || (x[0] == y[0] && LexLeq(x[1..], y[1..]))))
  }

  /** `h` is the length of the longest common prefix of the suffixes at `a` and `b`. */
  predicate IsLcp(s: seq<Byte>, a: int, b: int, h: int)
  {
    0 <= a < |s| && 0 <= b < |s| && 0 <= h && a + h <= |s| && b + h <= |s| &&
    s[a..a + h] == s[b..b + h] &&
    (a + h == |s| || b + h == |s| || s[a + h] != s[b + h])
  }

  /** The lengths and index ranges the lexer relies on for memory safety. */
  predicate Shaped(s: seq<Byte>, sa: seq<int>, lcp: seq<int>)
  {
    |s| >= 1 && |sa| == |s| && |lcp| == |s| - 1 &&
    forall i :: 0 <= i < |sa| ==> 0 <= sa[i] < |s|
  }

  /** Neighbouring entries of `sa` name suffixes in sorted order. */
  predicate SortedSuffixes(s: seq<Byte>, sa: seq<int>)
    requires forall i :: 0 <= i < |sa| ==> 0 <= sa[i] < |s|
  {
    forall i {:trigger LexLeq(s[sa[i]..], s[sa[i + 1]..])} :: 0 <= i && i + 1 < |sa| ==> LexLeq(s[sa[i]..], s[sa[i + 1]..])
  }

  /** `sa` is the suffix array of `s` (a permutation of its offsets in sorted
      suffix order) and `lcp[i]` the common-prefix length of neighbours i, i+1. */
  predicate SuffixLcpArrays(s: seq<Byte>, sa: seq<int>, lcp: seq<int>)
  {
    Shaped(s, sa, lcp) &&
    (forall i, j :: 0 <= i < j < |sa| ==> sa[i] != sa[j]) &&
    SortedSuffixes(s, sa) &&
    (forall i :: 0 <= i < |lcp| ==> IsLcp(s, sa[i], sa[i + 1], lcp[i]))
  }

  // ---------------------------------------------------------------------------
  // Step A: the window test of find_commands_and_incidences.
  // ---------------------------------------------------------------------------

  /** Number of windows the scan visits: i ranges over [0, n - 2). */
  function Windows(lcp: seq<int>): nat
  {
    if |lcp| >= 1 then |lcp| - 1 else 0
  }

  /** `shorterinner`: the common prefix length of all three suffixes of window i. */
  function Inner(lcp: seq<int>, i: int): int
    requires 0 <= i && i + 1 < |lcp|
  {
    if lcp[i] < lcp[i + 1] then lcp[i] else lcp[i + 1]
  }

  /** `longerboundary`: how far the window's suffixes agree with their outer
      neighbours; an LCP entry outside the array counts as 0. */
  function Outer(lcp: seq<int>, i: int): int
    requires 0 <= i && i + 1 < |lcp|
  {
    var before := if i == 0 then 0 else lcp[i - 1];
    if i + 2 < |lcp| && before < lcp[i + 2] then lcp[i + 2] else before
  }

  /** All three occurrences have a predecessor and it is the same byte, so the
      substring is the tail of a longer thrice-repeated one. */
  predicate SharedPredecessor(s: seq<Byte>, sa: seq<int>, lcp: seq<int>, i: int)
    requires Shaped(s, sa, lcp) && 0 <= i && i + 1 < |lcp|
  {
    sa[i] > 0 && sa[i + 1] > 0 && sa[i + 2] > 0 &&
    s[sa[i] - 1] == s[sa[i + 1] - 1] && s[sa[i] - 1] == s[sa[i + 2] - 1]
  }

  /** Window i yields a provisional command. */
  predicate Recorded(s: seq<Byte>, sa: seq<int>, lcp: seq<int>, i: int)
    requires Shaped(s, sa, lcp) && 0 <= i && i + 1 < |lcp|
  {
    Inner(lcp, i) > Outer(lcp, i) && !SharedPredecessor(s, sa, lcp, i)
  }

  /** The three incidences recorded for window w. */
  function Triple(sa: seq<int>, lcp: seq<int>, w: int): seq<Incidence>
    requires 0 <= w && w + 1 < |lcp| && |sa| == |lcp| + 1
  {
    [Incidence(sa[w], Inner(lcp, w)), Incidence(sa[w + 1], Inner(lcp, w)),
     Incidence(sa[w + 2], Inner(lcp, w))]
  }

  /** The recorded windows among the first k, in scan order. */
  function RecordedWindows(s: seq<Byte>, sa: seq<int>, lcp: seq<int>, k: nat): (r: seq<int>)
    requires Shaped(s, sa, lcp) && k <= Windows(lcp)
    ensures forall g :: 0 <= g < |r| ==> 0 <= r[g] < k && Recorded(s, sa, lcp, r[g])
    ensures forall g, h :: 0 <= g < h < |r| ==> r[g] < r[h]
  {
    if k == 0 then []
    else RecordedWindows(s, sa, lcp, k - 1) + (if Recorded(s, sa, lcp, k - 1) then [k - 1] else [])
  }

  /** The contents of the incidence array after scanning the first k windows. */
  function Found(s: seq<Byte>, sa: seq<int>, lcp: seq<int>, k: nat): (r: seq<Incidence>)
    requires Shaped(s, sa, lcp) && k <= Windows(lcp)
    ensures |r| % 3 == 0
  {
    if k == 0 then []
    else Found(s, sa, lcp, k - 1) + (if Recorded(s, sa, lcp, k - 1) then Triple(sa, lcp, k - 1) else [])
  }

  lemma {:induction false} FoundLength(s: seq<Byte>, sa: seq<int>, lcp: seq<int>, k: nat)
    requires Shaped(s, sa, lcp) && k <= Windows(lcp)
    ensures |Found(s, sa, lcp, k)| == 3 * |RecordedWindows(s, sa, lcp, k)|
  {
    if k > 0 {
      FoundLength(s, sa, lcp, k - 1);
    }
  }

  /** Appending the triple of window w keeps incidences 3g .. 3g + 2 the triple of window g. */
  lemma GroupsAppend(sa: seq<int>, lcp: seq<int>, F: seq<Incidence>, W: seq<int>, w: int)
    requires |sa| == |lcp| + 1 && 0 <= w && w + 1 < |lcp| && |F| == 3 * |W|
    requires forall g :: 0 <= g < |W| ==> 0 <= W[g] && W[g] + 1 < |lcp|
    requires forall g :: 0 <= g < |W| ==> F[3 * g..3 * g + 3] == Triple(sa, lcp, W[g])
    ensures forall g :: 0 <= g < |W| + 1 ==>
      (F + Triple(sa, lcp, w))[3 * g..3 * g + 3] == Triple(sa, lcp, (W + [w])[g])
  {
    var F', W' := F + Triple(sa, lcp, w), W + [w];
    forall g | 0 <= g < |W'|
      ensures F'[3 * g..3 * g + 3] == Triple(sa, lcp, W'[g])
    {
      if g < |W| {
        assert F'[3 * g..3 * g + 3] == F[3 * g..3 * g + 3];
      } else {
        assert F'[3 * g..3 * g + 3] == Triple(sa, lcp, w);
      }
    }
  }

  /** Incidences 3g, 3g + 1, 3g + 2 of the scan are the triple of the g-th
      recorded window. */
  lemma {:induction false} FoundGroups(s: seq<Byte>, sa: seq<int>, lcp: seq<int>, k: nat)
    requires Shaped(s, sa, lcp) && k <= Windows(lcp)
    ensures |Found(s, sa, lcp, k)| == 3 * |RecordedWindows(s, sa, lcp, k)|
    ensures forall g :: 0 <= g < |RecordedWindows(s, sa, lcp, k)| ==>
      Found(s, sa, lcp, k)[3 * g..3 * g + 3] == Triple(sa, lcp, RecordedWindows(s, sa, lcp, k)[g])
  {
    FoundLength(s, sa, lcp, k);
    if k > 0 {
      FoundGroups(s, sa, lcp, k - 1);
      var prevF, prevW := Found(s, sa, lcp, k - 1), RecordedWindows(s, sa, lcp, k - 1);
      var F, W := Found(s, sa, lcp, k), RecordedWindows(s, sa, lcp, k);
      if Recorded(s, sa, lcp, k - 1) {
        assert F == prevF + Triple(sa, lcp, k - 1);
        assert W == prevW + [k - 1];
        GroupsAppend(sa, lcp, prevF, prevW, k - 1);
      } else {
        assert F == prevF && W == prevW;
      }
    }
  }

  /** Two windows that pass the LCP test are at least three apart. */
  lemma WindowsApart(lcp: seq<int>, i: int, j: int)
    requires 0 <= i < j && j + 1 < |lcp|
    requires Inner(lcp, i) > Outer(lcp, i) && Inner(lcp, j) > Outer(lcp, j)
    ensures j - i >= 3
  {
  }

  /** The recorded windows are spaced by three, so at most |s| / 3 commands are
      found and the incidence array of |s| entries suffices. */
  lemma {:induction false} RecordedSparse(s: seq<Byte>, sa: seq<int>, lcp: seq<int>, k: nat)
    requires Shaped(s, sa, lcp) && k <= Windows(lcp)
    ensures forall g :: 0 <= g < |RecordedWindows(s, sa, lcp, k)| ==> RecordedWindows(s, sa, lcp, k)[g] >= 3 * g
    ensures 3 * |RecordedWindows(s, sa, lcp, k)| <= k + 2
  {
    if k > 0 {
      RecordedSparse(s, sa, lcp, k - 1);
      var prev := RecordedWindows(s, sa, lcp, k - 1);
      if Recorded(s, sa, lcp, k - 1) && |prev| > 0 {
        WindowsApart(lcp, prev[|prev| - 1], k - 1);
      }
    }
  }

  /** The incidence array of the source, |s| entries long, never overflows. */
  lemma FoundFits(s: seq<Byte>, sa: seq<int>, lcp: seq<int>, k: nat)
    requires Shaped(s, sa, lcp) && k <= Windows(lcp)
    ensures |Found(s, sa, lcp, k)| <= |s| && |Found(s, sa, lcp, k)| % 3 == 0
  {
    FoundLength(s, sa, lcp, k);
    RecordedSparse(s, sa, lcp, k);
  }

  /** The triple of a recorded window is made of valid incidences. */
  lemma TripleValid(s: seq<Byte>, sa: seq<int>, lcp: seq<int>, w: int)
    requires SuffixLcpArrays(s, sa, lcp) && 0 <= w && w + 1 < |lcp| && Recorded(s, sa, lcp, w)
    ensures ValidIncidences(Triple(sa, lcp, w), |s|)
  {
    assert IsLcp(s, sa[w], sa[w + 1], lcp[w]);
    assert IsLcp(s, sa[w + 1], sa[w + 2], lcp[w + 1]);
    if w > 0 {
      assert IsLcp(s, sa[w - 1], sa[w], lcp[w - 1]);
    }
  }

  lemma ValidIncidencesAppend(a: seq<Incidence>, b: seq<Incidence>, n: int)
    requires ValidIncidences(a, n) && ValidIncidences(b, n)
    ensures ValidIncidences(a + b, n)
  {
    forall i | 0 <= i < |a + b|
      ensures 0 <= (a + b)[i].start && 1 <= (a + b)[i].length && (a + b)[i].start + (a + b)[i].length <= n
    {
      if i < |a| {
        assert (a + b)[i] == a[i];
      } else {
        assert (a + b)[i] == b[i - |a|];
      }
    }
  }

  /** Every recorded window's triple is made of valid incidences. */
  predicate TriplesValid(s: seq<Byte>, sa: seq<int>, lcp: seq<int>)
    requires Shaped(s, sa, lcp)
  {
    forall w :: 0 <= w && w + 1 < |lcp| && Recorded(s, sa, lcp, w) ==> ValidIncidences(Triple(sa, lcp, w), |s|)
  }

  lemma {:induction false} FoundValidFrom(s: seq<Byte>, sa: seq<int>, lcp: seq<int>, k: nat)
    requires Shaped(s, sa, lcp) && TriplesValid(s, sa, lcp) && k <= Windows(lcp)
    ensures ValidIncidences(Found(s, sa, lcp, k), |s|)
  {
    if k > 0 {
      FoundValidFrom(s, sa, lcp, k - 1);
      if Recorded(s, sa, lcp, k - 1) {
        ValidIncidencesAppend(Found(s, sa, lcp, k - 1), Triple(sa, lcp, k - 1), |s|);
      } else {
        assert Found(s, sa, lcp, k) == Found(s, sa, lcp, k - 1);
      }
    }
  }

  /** The incidences of the scan are valid: inside the text and non-empty. */
  lemma FoundValid(s: seq<Byte>, sa: seq<int>, lcp: seq<int>, k: nat)
    requires SuffixLcpArrays(s, sa, lcp) && k <= Windows(lcp)
    ensures ValidIncidences(Found(s, sa, lcp, k), |s|)
  {
    forall w | 0 <= w && w + 1 < |lcp| && Recorded(s, sa, lcp, w)
      ensures ValidIncidences(Triple(sa, lcp, w), |s|)
    {
      TripleValid(s, sa, lcp, w);
    }
    FoundValidFrom(s, sa, lcp, k);
  }

  /** One pass of the scan over window i: when the window passes the test, its
      three incidences are appended at incidencecount. */
  method ScanWindow(s: seq<Byte>, sa: seq<int>, lcp: seq<int>, incidences: array<Incidence>,
                    i: nat, incidencecount: nat)
    returns (incidencecount': nat)
    requires Shaped(s, sa, lcp) && incidences.Length >= |s| && i + 1 < |lcp|
    requires incidencecount == |Found(s, sa, lcp, i)| <= |s|
    requires incidences[..incidencecount] == Found(s, sa, lcp, i)
    modifies incidences
    ensures incidencecount' == |Found(s, sa, lcp, i + 1)| <= |s|
    ensures incidences[..incidencecount'] == Found(s, sa, lcp, i + 1)
  {
    FoundFits(s, sa, lcp, i + 1);
    var longerboundary := if i == 0 then 0 else lcp[i - 1];
    if i + 2 < |lcp| && longerboundary < lcp[i + 2] {
      longerboundary := lcp[i + 2];
    }
    var shorterinner := lcp[i + 1];
    if lcp[i] < shorterinner {
      shorterinner := lcp[i];
    }
    if shorterinner > longerboundary &&
       !(sa[i] > 0 && sa[i + 1] > 0 && sa[i + 2] > 0 &&
         s[sa[i] - 1] == s[sa[i + 1] - 1] && s[sa[i] - 1] == s[sa[i + 2] - 1])
    {
      assert Recorded(s, sa, lcp, i);
      ghost var before := incidences[..incidencecount];
      incidences[incidencecount] := Incidence(sa[i], shorterinner);
      incidences[incidencecount + 1] := Incidence(sa[i + 1], shorterinner);
      incidences[incidencecount + 2] := Incidence(sa[i + 2], shorterinner);
      assert incidences[..incidencecount + 3] == before + Triple(sa, lcp, i);
      incidencecount' := incidencecount + 3;
    } else {
      assert !Recorded(s, sa, lcp, i);
      incidencecount' := incidencecount;
    }
  }

  /** find_commands_and_incidences: scans the windows, appending three incidences
      per provisional command, and returns the number of provisional commands. */
  method FindCommandsAndIncidences(s: seq<Byte>, sa: seq<int>, lcp: seq<int>, incidences: array<Incidence>)
    returns (commands: nat)
    requires Shaped(s, sa, lcp)
    requires incidences.Length >= |s|
    modifies incidences
    ensures 3 * commands <= |s|
    ensures incidences[..3 * commands] == Found(s, sa, lcp, Windows(lcp))
  {
    var incidencecount := 0;
    var i := 0;
    while i + 1 < |lcp|
      invariant 0 <= i <= Windows(lcp)
      invariant incidencecount == |Found(s, sa, lcp, i)| <= |s|
      invariant incidences[..incidencecount] == Found(s, sa, lcp, i)
    {
      incidencecount := ScanWindow(s, sa, lcp, incidences, i, incidencecount);
      i := i + 1;
    }
    FoundFits(s, sa, lcp, i);
    commands := incidencecount / 3;
  }

  /** A prefix of two equal slices is equal. */
  lemma PrefixOfEqual(s: seq<Byte>, a: int, b: int, h: int, k: int)
    requires 0 <= a && 0 <= b && 0 <= k <= h && a + h <= |s| && b + h <= |s|
    requires s[a..a + h] == s[b..b + h]
    ensures s[a..a + k] == s[b..b + k]
  {
    assert s[a..a + k] == s[a..a + h][..k];
    assert s[b..b + k] == s[b..b + h][..k];
  }

  /** The three incidences of a window spell the same substring: the window's
      suffixes agree on their first Inner bytes. */
  lemma TripleSameText(s: seq<Byte>, sa: seq<int>, lcp: seq<int>, w: int)
    requires SuffixLcpArrays(s, sa, lcp) && 0 <= w && w + 1 < |lcp|
    ensures var h := Inner(lcp, w);
      sa[w] + h <= |s| && sa[w + 1] + h <= |s| && sa[w + 2] + h <= |s| &&
      s[sa[w]..sa[w] + h] == s[sa[w + 1]..sa[w + 1] + h] &&
      s[sa[w + 1]..sa[w + 1] + h] == s[sa[w + 2]..sa[w + 2] + h]
  {
    assert IsLcp(s, sa[w], sa[w + 1], lcp[w]);
    assert IsLcp(s, sa[w + 1], sa[w + 2], lcp[w + 1]);
    SharedPrefix(s, sa[w], sa[w + 1], sa[w + 2], lcp[w], lcp[w + 1], Inner(lcp, w));
  }

  /** Three suffixes whose neighbouring pairs share h1 and h2 bytes share the
      shorter of the two. */
  lemma SharedPrefix(s: seq<Byte>, a: int, b: int, c: int, h1: int, h2: int, h: int)
    requires IsLcp(s, a, b, h1) && IsLcp(s, b, c, h2) && h == (if h1 < h2 then h1 else h2)
    ensures a + h <= |s| && b + h <= |s| && c + h <= |s| &&
      s[a..a + h] == s[b..b + h] && s[b..b + h] == s[c..c + h]
  {
    PrefixOfEqual(s, a, b, h1, h);
    PrefixOfEqual(s, b, c, h2, h);
  }

  // ---------------------------------------------------------------------------
  // Why a window that passes the LCP test is a thrice-repeated substring: in
  // sorted order every suffix starting with the window's substring sits next to
  // the window, and the boundary LCPs keep the neighbours out.
  // ---------------------------------------------------------------------------

  /** `x` starts with `p`. */
  predicate HasPrefix(x: seq<Byte>, p: seq<Byte>)
  {
    |p| <= |x| && x[..|p|] == p
  }

  /** `x` sorts after every sequence starting with `p`: where it first leaves
      `p` it has a larger byte. */
  predicate Beyond(x: seq<Byte>, p: seq<Byte>)
    decreases |p|
  {
    p != [] && x != [] && (x[0] > p[0] || (x[0] == p[0] && Beyond(x[1..], p[1..])))
  }

  lemma {:induction false} PrefixNotBeyond(x: seq<Byte>, p: seq<Byte>)
    requires HasPrefix(x, p)
    ensures !Beyond(x, p)
    decreases |p|
  {
    if p != [] {
      assert x[1..][..|p| - 1] == x[..|p|][1..];
      PrefixNotBeyond(x[1..], p[1..]);
    }
  }

  /** What sorts after a sequence starting with `p` starts with `p` or lies beyond it. */
  lemma {:induction false} PrefixOrBeyond(x: seq<Byte>, y: seq<Byte>, p: seq<Byte>)
    requires HasPrefix(x, p) && LexLeq(x, y)
    ensures HasPrefix(y, p) || Beyond(y, p)
    decreases |p|
  {
    if p != [] && x[0] == y[0] {
      assert x[1..][..|p| - 1] == x[..|p|][1..];
      PrefixOrBeyond(x[1..], y[1..], p[1..]);
      if HasPrefix(y[1..], p[1..]) {
        assert y[..|p|] == [y[0]] + y[1..][..|p| - 1];
      }
    }
  }

  /** What sorts after a sequence beyond `p` is beyond `p`. */
  lemma {:induction false} StaysBeyond(x: seq<Byte>, y: seq<Byte>, p: seq<Byte>)
    requires Beyond(x, p) && LexLeq(x, y)
    ensures Beyond(y, p)
    decreases |p|
  {
    if x[0] == y[0] && x[0] == p[0] {
      StaysBeyond(x[1..], y[1..], p[1..]);
    }
  }

  lemma NeighboursSorted(s: seq<Byte>, sa: seq<int>, lcp: seq<int>, i: int)
    requires Shaped(s, sa, lcp) && SortedSuffixes(s, sa) && 0 <= i && i + 1 < |sa|
    ensures LexLeq(s[sa[i]..], s[sa[i + 1]..])
  {
  }

  lemma {:induction false} BeyondChain(s: seq<Byte>, sa: seq<int>, lcp: seq<int>, p: seq<Byte>, j: int, k: int)
    requires Shaped(s, sa, lcp) && SortedSuffixes(s, sa) && 0 <= j <= k < |sa| && Beyond(s[sa[j]..], p)
    ensures Beyond(s[sa[k]..], p)
    decreases k - j
  {
    if j < k {
      NeighboursSorted(s, sa, lcp, j);
      StaysBeyond(s[sa[j]..], s[sa[j + 1]..], p);
      BeyondChain(s, sa, lcp, p, j + 1, k);
    }
  }

  lemma {:induction false} PrefixChain(s: seq<Byte>, sa: seq<int>, lcp: seq<int>, p: seq<Byte>, j: int, k: int)
    requires Shaped(s, sa, lcp) && SortedSuffixes(s, sa) && 0 <= j <= k < |sa| && HasPrefix(s[sa[j]..], p)
    ensures HasPrefix(s[sa[k]..], p) || Beyond(s[sa[k]..], p)
    decreases k - j
  {
    if j < k {
      PrefixChain(s, sa, lcp, p, j, k - 1);
      NeighboursSorted(s, sa, lcp, k - 1);
      if HasPrefix(s[sa[k - 1]..], p) {
        PrefixOrBeyond(s[sa[k - 1]..], s[sa[k]..], p);
      } else {
        StaysBeyond(s[sa[k - 1]..], s[sa[k]..], p);
      }
    }
  }

  /** Two suffixes that both start with `p` have a common prefix at least as long as `p`. */
  lemma LcpCovers(s: seq<Byte>, a: int, b: int, l: int, p: seq<Byte>)
    requires IsLcp(s, a, b, l) && HasPrefix(s[a..], p) && HasPrefix(s[b..], p)
    ensures |p| <= l
  {
  }

  /** Starting with `p` is having `p` as the next |p| bytes. */
  lemma SlicePrefix(s: seq<Byte>, a: int, p: seq<Byte>)
    requires 0 <= a && a + |p| <= |s|
    ensures HasPrefix(s[a..], p) <==> s[a..a + |p|] == p
  {
    assert s[a..][..|p|] == s[a..a + |p|];
  }

  lemma {:induction false} OffsetsCount(sa: seq<int>, n: nat)
    requires n <= |sa| && forall i, j :: 0 <= i < j < |sa| ==> sa[i] != sa[j]
    ensures |set i | 0 <= i < n :: sa[i]| == n
  {
    if n > 0 {
      OffsetsCount(sa, n - 1);
      assert (set i | 0 <= i < n :: sa[i]) == (set i | 0 <= i < n - 1 :: sa[i]) + {sa[n - 1]};
    }
  }

  /** The offsets 0 .. n - 1. */
  function Upto(n: nat): (r: set<int>)
    ensures |r| == n && forall x :: x in r <==> 0 <= x < n
  {
    if n == 0 then {} else Upto(n - 1) + {n - 1}
  }

  lemma SubsetCount(a: set<int>, b: set<int>)
    requires a <= b
    ensures |a| <= |b|
  {
    assert a + (b - a) == b;
    assert a * (b - a) == {};
  }

  lemma StrictSubsetCount(a: set<int>, b: set<int>, x: int)
    requires a <= b && x in b && x !in a
    ensures |a| < |b|
  {
    SubsetCount(a, b - {x});
    assert b == (b - {x}) + {x};
  }

  /** n distinct offsets below n are all of them. */
  lemma SuffixAt(s: seq<Byte>, sa: seq<int>, lcp: seq<int>, q: int) returns (k: int)
    requires Shaped(s, sa, lcp) && (forall i, j :: 0 <= i < j < |sa| ==> sa[i] != sa[j]) && 0 <= q < |s|
    ensures 0 <= k < |sa| && sa[k] == q
  {
    var offsets := set i | 0 <= i < |sa| :: sa[i];
    OffsetsCount(sa, |sa|);
    if q !in offsets {
      StrictSubsetCount(offsets, Upto(|s|), q);
    }
    k :| 0 <= k < |sa| && sa[k] == q;
  }

  /** In sorted order, nothing before the neighbour that shares fewer than |p|
      bytes with a suffix starting with `p` starts with `p`. */
  lemma NotBeforeBlock(s: seq<Byte>, sa: seq<int>, lcp: seq<int>, p: seq<Byte>, k: int, w: int)
    requires Shaped(s, sa, lcp) && SortedSuffixes(s, sa) && 0 <= k < w < |sa|
    requires HasPrefix(s[sa[w]..], p) && IsLcp(s, sa[w - 1], sa[w], lcp[w - 1]) && lcp[w - 1] < |p|
    ensures !HasPrefix(s[sa[k]..], p)
  {
    if HasPrefix(s[sa[k]..], p) {
      PrefixChain(s, sa, lcp, p, k, w - 1);
      if Beyond(s[sa[w - 1]..], p) {
        NeighboursSorted(s, sa, lcp, w - 1);
        StaysBeyond(s[sa[w - 1]..], s[sa[w]..], p);
        PrefixNotBeyond(s[sa[w]..], p);
      } else {
        LcpCovers(s, sa[w - 1], sa[w], lcp[w - 1], p);
      }
    }
  }

  /** Likewise after the neighbour j + 1 that shares fewer than |p| bytes with suffix j. */
  lemma NotAfterBlock(s: seq<Byte>, sa: seq<int>, lcp: seq<int>, p: seq<Byte>, j: int, k: int)
    requires Shaped(s, sa, lcp) && SortedSuffixes(s, sa) && 0 <= j < k < |sa|
    requires HasPrefix(s[sa[j]..], p) && IsLcp(s, sa[j], sa[j + 1], lcp[j]) && lcp[j] < |p|
    ensures !HasPrefix(s[sa[k]..], p)
  {
    if HasPrefix(s[sa[k]..], p) {
      NeighboursSorted(s, sa, lcp, j);
      PrefixOrBeyond(s[sa[j]..], s[sa[j + 1]..], p);
      if Beyond(s[sa[j + 1]..], p) {
        BeyondChain(s, sa, lcp, p, j + 1, k);
        PrefixNotBeyond(s[sa[k]..], p);
      } else {
        LcpCovers(s, sa[j], sa[j + 1], lcp[j], p);
      }
    }
  }

  /** Among sorted suffixes, those starting with `p` form one block: when the
      block's ends w and e are each met by a neighbour sharing fewer than |p|
      bytes, no suffix outside w .. e starts with `p`. */
  lemma OnlyInBlock(s: seq<Byte>, sa: seq<int>, lcp: seq<int>, p: seq<Byte>, w: int, e: int, k: int)
    requires Shaped(s, sa, lcp) && SortedSuffixes(s, sa) && 0 <= w <= e < |sa| && 0 <= k < |sa|
    requires sa[w] + |p| <= |s| && s[sa[w]..sa[w] + |p|] == p
    requires sa[e] + |p| <= |s| && s[sa[e]..sa[e] + |p|] == p
    requires w > 0 ==> IsLcp(s, sa[w - 1], sa[w], lcp[w - 1]) && lcp[w - 1] < |p|
    requires e + 1 < |sa| ==> IsLcp(s, sa[e], sa[e + 1], lcp[e]) && lcp[e] < |p|
    ensures sa[k] + |p| <= |s| && s[sa[k]..sa[k] + |p|] == p ==> w <= k <= e
  {
    if k < w {
      SlicePrefix(s, sa[w], p);
      NotBeforeBlock(s, sa, lcp, p, k, w);
      if sa[k] + |p| <= |s| {
        SlicePrefix(s, sa[k], p);
      }
    } else if k > e {
      SlicePrefix(s, sa[e], p);
      NotAfterBlock(s, sa, lcp, p, e, k);
      if sa[k] + |p| <= |s| {
        SlicePrefix(s, sa[k], p);
      }
    }
  }

  /** Sorted suffixes w and w + 2 that start with the same h bytes, fenced by
      neighbours sharing fewer than h, leave no other place in the text for
      those h bytes than the suffixes between them. */
  lemma BlockExcludes(s: seq<Byte>, sa: seq<int>, lcp: seq<int>, w: int, h: int, q: int)
    requires Shaped(s, sa, lcp) && SortedSuffixes(s, sa) && (forall i, j :: 0 <= i < j < |sa| ==> sa[i] != sa[j])
    requires 0 <= w && w + 2 < |sa| && 0 < h && 0 <= q && q + h <= |s|
    requires sa[w] + h <= |s| && sa[w + 2] + h <= |s| && s[sa[w]..sa[w] + h] == s[sa[w + 2]..sa[w + 2] + h]
    requires w > 0 ==> IsLcp(s, sa[w - 1], sa[w], lcp[w - 1]) && lcp[w - 1] < h
    requires w + 3 < |sa| ==> IsLcp(s, sa[w + 2], sa[w + 3], lcp[w + 2]) && lcp[w + 2] < h
    ensures s[q..q + h] == s[sa[w]..sa[w] + h] ==> q == sa[w] || q == sa[w + 1] || q == sa[w + 2]
  {
    var p := s[sa[w]..sa[w] + h];
    assert |p| == h && q < |s|;
    var k := SuffixAt(s, sa, lcp, q);
    OnlyInBlock(s, sa, lcp, p, w, w + 2, k);
  }

  /** A window that passes the LCP test is a block of three suffixes that
      start with the same h bytes, fenced by neighbours that share fewer. */
  lemma WindowBlock(s: seq<Byte>, sa: seq<int>, lcp: seq<int>, w: int, h: int)
    requires SuffixLcpArrays(s, sa, lcp) && 0 <= w && w + 1 < |lcp| && Inner(lcp, w) > Outer(lcp, w)
    requires h == Inner(lcp, w)
    ensures 0 < h && w + 2 < |sa|
    ensures sa[w] + h <= |s| && sa[w + 1] + h <= |s| && sa[w + 2] + h <= |s|
    ensures s[sa[w]..sa[w] + h] == s[sa[w + 1]..sa[w + 1] + h] == s[sa[w + 2]..sa[w + 2] + h]
    ensures w > 0 ==> IsLcp(s, sa[w - 1], sa[w], lcp[w - 1]) && lcp[w - 1] < h
    ensures w + 3 < |sa| ==> IsLcp(s, sa[w + 2], sa[w + 3], lcp[w + 2]) && lcp[w + 2] < h
  {
    TripleSameText(s, sa, lcp, w);
    if w > 0 {
      assert IsLcp(s, sa[w - 1], sa[w], lcp[w - 1]);
    }
    if w + 3 < |sa| {
      assert IsLcp(s, sa[w + 2], sa[w + 3], lcp[w + 2]);
    }
  }

  /** The fenced block of three suffixes that start with the same h bytes
      holds every occurrence of those bytes, and its offsets are distinct. */
  lemma BlockOccurrences(s: seq<Byte>, sa: seq<int>, lcp: seq<int>, w: int, h: int, q: int)
    requires Shaped(s, sa, lcp) && SortedSuffixes(s, sa) && (forall i, j :: 0 <= i < j < |sa| ==> sa[i] != sa[j])
    requires 0 <= w && w + 2 < |sa| && 0 < h && 0 <= q && q + h <= |s|
    requires sa[w] + h <= |s| && sa[w + 1] + h <= |s| && sa[w + 2] + h <= |s|
    requires s[sa[w]..sa[w] + h] == s[sa[w + 1]..sa[w + 1] + h] == s[sa[w + 2]..sa[w + 2] + h]
    requires w > 0 ==> IsLcp(s, sa[w - 1], sa[w], lcp[w - 1]) && lcp[w - 1] < h
    requires w + 3 < |sa| ==> IsLcp(s, sa[w + 2], sa[w + 3], lcp[w + 2]) && lcp[w + 2] < h
    ensures sa[w] != sa[w + 1] && sa[w] != sa[w + 2] && sa[w + 1] != sa[w + 2]
    ensures s[q..q + h] == s[sa[w]..sa[w] + h] <==> q == sa[w] || q == sa[w + 1] || q == sa[w + 2]
  {
    BlockExcludes(s, sa, lcp, w, h, q);
  }

  /** The substring of a window that passes the LCP test occurs in the text at
      exactly the window's three suffixes, which are distinct offsets. */
  lemma ExactlyThreeOccurrences(s: seq<Byte>, sa: seq<int>, lcp: seq<int>, w: int, q: int)
    requires SuffixLcpArrays(s, sa, lcp) && 0 <= w && w + 1 < |lcp| && Inner(lcp, w) > Outer(lcp, w)
    requires 0 <= q && q + Inner(lcp, w) <= |s|
    ensures var h := Inner(lcp, w);
      sa[w] + h <= |s| && sa[w] != sa[w + 1] && sa[w] != sa[w + 2] && sa[w + 1] != sa[w + 2] &&
      (s[q..q + h] == s[sa[w]..sa[w] + h] <==> q == sa[w] || q == sa[w + 1] || q == sa[w + 2])
  {
    var h := Inner(lcp, w);
    WindowBlock(s, sa, lcp, w, h);
    BlockOccurrences(s, sa, lcp, w, h, q);
  }

  // ---------------------------------------------------------------------------
  // The kept windows are exactly the provisional commands that are not part of
  // a longer one: each spells a substring found at exactly three offsets that
  // cannot be extended by a byte on either side, no longer substring holding
  // it occurs three times, and every such substring is some kept window.
  // ---------------------------------------------------------------------------

  /** The bytes x appear in s from offset q. */
  predicate Occurs(s: seq<Byte>, x: seq<Byte>, q: int)
  {
    0 <= q && q + |x| <= |s| && s[q..q + |x|] == x
  }

  /** x occurs in s at the three distinct offsets p1, p2, p3 and nowhere else. */
  ghost predicate ThriceAt(s: seq<Byte>, x: seq<Byte>, p1: int, p2: int, p3: int)
  {
    p1 != p2 && p1 != p3 && p2 != p3 &&
    forall q :: Occurs(s, x, q) <==> q == p1 || q == p2 || q == p3
  }

  /** The three occurrences are preceded by the same byte. */
  predicate ExtendsLeft(s: seq<Byte>, p1: int, p2: int, p3: int)
  {
    0 < p1 <= |s| && 0 < p2 <= |s| && 0 < p3 <= |s| &&
    s[p1 - 1] == s[p2 - 1] && s[p1 - 1] == s[p3 - 1]
  }

  /** The three occurrences of an m-byte substring are followed by the same byte. */
  predicate ExtendsRight(s: seq<Byte>, p1: int, p2: int, p3: int, m: int)
  {
    0 <= p1 + m < |s| && 0 <= p2 + m < |s| && 0 <= p3 + m < |s| &&
    s[p1 + m] == s[p2 + m] && s[p1 + m] == s[p3 + m]
  }

  lemma OccursPrefix(s: seq<Byte>, x: seq<Byte>, q: int)
    requires 0 <= q <= |s|
    ensures Occurs(s, x, q) <==> HasPrefix(s[q..], x)
  {
    if q + |x| <= |s| {
      SlicePrefix(s, q, x);
    }
  }

  /** A fenced block of three suffixes spells a substring found at exactly
      those three offsets. */
  lemma BlockThrice(s: seq<Byte>, sa: seq<int>, lcp: seq<int>, w: int, h: int)
    requires Shaped(s, sa, lcp) && SortedSuffixes(s, sa) && (forall i, j :: 0 <= i < j < |sa| ==> sa[i] != sa[j])
    requires 0 <= w && w + 2 < |sa| && 0 < h
    requires sa[w] + h <= |s| && sa[w + 1] + h <= |s| && sa[w + 2] + h <= |s|
    requires s[sa[w]..sa[w] + h] == s[sa[w + 1]..sa[w + 1] + h] == s[sa[w + 2]..sa[w + 2] + h]
    requires w > 0 ==> IsLcp(s, sa[w - 1], sa[w], lcp[w - 1]) && lcp[w - 1] < h
    requires w + 3 < |sa| ==> IsLcp(s, sa[w + 2], sa[w + 3], lcp[w + 2]) && lcp[w + 2] < h
    ensures ThriceAt(s, s[sa[w]..sa[w] + h], sa[w], sa[w + 1], sa[w + 2])
  {
    var x := s[sa[w]..sa[w] + h];
    assert |x| == h;
    forall q
      ensures Occurs(s, x, q) <==> q == sa[w] || q == sa[w + 1] || q == sa[w + 2]
    {
      if 0 <= q && q + h <= |s| {
        BlockOccurrences(s, sa, lcp, w, h, q);
      }
    }
    BlockOccurrences(s, sa, lcp, w, h, sa[w]);
  }

  /** The window's common prefix is as long as the shorter of its two LCPs, so
      at that length the three suffixes do not all go on with the same byte. */
  lemma InnerNotExtended(s: seq<Byte>, a: int, b: int, c: int, l1: int, l2: int, h: int)
    requires IsLcp(s, a, b, l1) && IsLcp(s, b, c, l2) && h == (if l1 < l2 then l1 else l2)
    ensures !ExtendsRight(s, a, b, c, h)
  {
  }

  /** A kept window spells a substring, its h = Inner common bytes, that occurs
      exactly three times and extends by a common byte on neither side. */
  lemma WindowMaximal(s: seq<Byte>, sa: seq<int>, lcp: seq<int>, w: int, h: int)
    requires SuffixLcpArrays(s, sa, lcp) && 0 <= w && w + 1 < |lcp| && Recorded(s, sa, lcp, w) && h == Inner(lcp, w)
    ensures sa[w] + h <= |s| && ThriceAt(s, s[sa[w]..sa[w] + h], sa[w], sa[w + 1], sa[w + 2])
    ensures !ExtendsLeft(s, sa[w], sa[w + 1], sa[w + 2]) && !ExtendsRight(s, sa[w], sa[w + 1], sa[w + 2], h)
  {
    WindowBlock(s, sa, lcp, w, h);
    assert IsLcp(s, sa[w], sa[w + 1], lcp[w]) && IsLcp(s, sa[w + 1], sa[w + 2], lcp[w + 1]);
    BlockMaximal(s, sa, lcp, w, h);
  }

  /** WindowMaximal for the fenced block of a kept window. */
  lemma BlockMaximal(s: seq<Byte>, sa: seq<int>, lcp: seq<int>, w: int, h: int)
    requires Shaped(s, sa, lcp) && SortedSuffixes(s, sa) && (forall i, j :: 0 <= i < j < |sa| ==> sa[i] != sa[j])
    requires 0 <= w && w + 1 < |lcp| && h == Inner(lcp, w) && 0 < h && !SharedPredecessor(s, sa, lcp, w)
    requires sa[w] + h <= |s| && sa[w + 1] + h <= |s| && sa[w + 2] + h <= |s|
    requires s[sa[w]..sa[w] + h] == s[sa[w + 1]..sa[w + 1] + h] == s[sa[w + 2]..sa[w + 2] + h]
    requires w > 0 ==> IsLcp(s, sa[w - 1], sa[w], lcp[w - 1]) && lcp[w - 1] < h
    requires w + 3 < |sa| ==> IsLcp(s, sa[w + 2], sa[w + 3], lcp[w + 2]) && lcp[w + 2] < h
    requires IsLcp(s, sa[w], sa[w + 1], lcp[w]) && IsLcp(s, sa[w + 1], sa[w + 2], lcp[w + 1])
    ensures ThriceAt(s, s[sa[w]..sa[w] + h], sa[w], sa[w + 1], sa[w + 2])
    ensures !ExtendsLeft(s, sa[w], sa[w + 1], sa[w + 2]) && !ExtendsRight(s, sa[w], sa[w + 1], sa[w + 2], h)
  {
    BlockThrice(s, sa, lcp, w, h);
    InnerNotExtended(s, sa[w], sa[w + 1], sa[w + 2], lcp[w], lcp[w + 1], h);
  }

  /** A substring no longer than y that y holds at offset d reappears wherever y occurs. */
  lemma OccursInside(s: seq<Byte>, y: seq<Byte>, d: int, h: int, p: int)
    requires 0 <= d && 0 <= h && d + h <= |y| && Occurs(s, y, p)
    ensures Occurs(s, y[d..d + h], p + d)
  {
    var t, u, v := s[p..p + |y|], s[p + d..p + d + h], y[d..d + h];
    forall i | 0 <= i < h
      ensures u[i] == v[i]
    {
      assert t[d + i] == s[p + d + i];
    }
    assert u == v;
  }

  /** Byte i of y is found at offset i of an occurrence of y. */
  lemma OccursByte(s: seq<Byte>, y: seq<Byte>, p: int, i: int)
    requires Occurs(s, y, p) && 0 <= i < |y|
    ensures s[p + i] == y[i]
  {
    assert s[p..p + |y|][i] == s[p + i];
  }

  predicate Among(a: int, q1: int, q2: int, q3: int) { a == q1 || a == q2 || a == q3 }

  /** Three distinct offsets among three others are all of them. */
  lemma SameThree(a1: int, a2: int, a3: int, q1: int, q2: int, q3: int)
    requires q1 != q2 && q1 != q3 && q2 != q3
    requires Among(q1, a1, a2, a3) && Among(q2, a1, a2, a3) && Among(q3, a1, a2, a3)
    ensures Among(a1, q1, q2, q3) && Among(a2, q1, q2, q3) && Among(a3, q1, q2, q3)
  {
  }

  /** Offsets a1, a2, a3 drawn from q1, q2, q3, where s holds byte c, hold c too. */
  lemma SameByteAt(s: seq<Byte>, a1: int, a2: int, a3: int, q1: int, q2: int, q3: int, c: Byte)
    requires Among(a1, q1, q2, q3) && Among(a2, q1, q2, q3) && Among(a3, q1, q2, q3)
    requires 0 <= q1 < |s| && 0 <= q2 < |s| && 0 <= q3 < |s| && s[q1] == c && s[q2] == c && s[q3] == c
    ensures 0 <= a1 < |s| && 0 <= a2 < |s| && 0 <= a3 < |s| && s[a1] == c && s[a2] == c && s[a3] == c
  {
  }

  /** Three distinct occurrences of a substring found at exactly a1, a2 and a3 are those three. */
  lemma ThriceMembers(s: seq<Byte>, x: seq<Byte>, a1: int, a2: int, a3: int, q1: int, q2: int, q3: int)
    requires ThriceAt(s, x, a1, a2, a3)
    requires q1 != q2 && q1 != q3 && q2 != q3 && Occurs(s, x, q1) && Occurs(s, x, q2) && Occurs(s, x, q3)
    ensures Among(a1, q1, q2, q3) && Among(a2, q1, q2, q3) && Among(a3, q1, q2, q3)
  {
    assert Among(q1, a1, a2, a3) && Among(q2, a1, a2, a3) && Among(q3, a1, a2, a3);
    SameThree(a1, a2, a3, q1, q2, q3);
  }

  /** A substring found at exactly three offsets and extendable on neither side
      lies inside no longer substring that occurs at three distinct offsets. */
  lemma LongerCore(s: seq<Byte>, y: seq<Byte>, d: int, h: int, a1: int, a2: int, a3: int,
                   p1: int, p2: int, p3: int)
    requires 0 <= d && 0 <= h && d + h <= |y| && h < |y|
    requires ThriceAt(s, y[d..d + h], a1, a2, a3) && !ExtendsLeft(s, a1, a2, a3) && !ExtendsRight(s, a1, a2, a3, h)
    ensures !(p1 != p2 && p1 != p3 && p2 != p3 && Occurs(s, y, p1) && Occurs(s, y, p2) && Occurs(s, y, p3))
  {
    if p1 != p2 && p1 != p3 && p2 != p3 && Occurs(s, y, p1) && Occurs(s, y, p2) && Occurs(s, y, p3) {
      OccursInside(s, y, d, h, p1);
      OccursInside(s, y, d, h, p2);
      OccursInside(s, y, d, h, p3);
      ThriceMembers(s, y[d..d + h], a1, a2, a3, p1 + d, p2 + d, p3 + d);
      LongerExtends(s, y, d, h, a1, a2, a3, p1, p2, p3);
    }
  }

  /** The offsets of a substring held by y at offset d, within three occurrences of y,
      extend to the left when d > 0 and to the right otherwise. */
  lemma LongerExtends(s: seq<Byte>, y: seq<Byte>, d: int, h: int, a1: int, a2: int, a3: int,
                      p1: int, p2: int, p3: int)
    requires 0 <= d && 0 <= h && d + h <= |y| && h < |y|
    requires Occurs(s, y, p1) && Occurs(s, y, p2) && Occurs(s, y, p3)
    requires Among(a1, p1 + d, p2 + d, p3 + d) && Among(a2, p1 + d, p2 + d, p3 + d) && Among(a3, p1 + d, p2 + d, p3 + d)
    ensures d > 0 ==> ExtendsLeft(s, a1, a2, a3)
    ensures d == 0 ==> ExtendsRight(s, a1, a2, a3, h)
  {
    if d > 0 {
      OccursBytes(s, y, d - 1, p1, p2, p3);
      ExtendedOnLeft(s, y[d - 1], a1, a2, a3, p1 + d - 1, p2 + d - 1, p3 + d - 1);
    } else {
      OccursBytes(s, y, h, p1, p2, p3);
      ExtendedOnRight(s, y[h], h, a1, a2, a3, p1 + h, p2 + h, p3 + h);
    }
  }

  /** Byte i of y is found at offset i of each of three occurrences of y. */
  lemma OccursBytes(s: seq<Byte>, y: seq<Byte>, i: int, p1: int, p2: int, p3: int)
    requires 0 <= i < |y| && Occurs(s, y, p1) && Occurs(s, y, p2) && Occurs(s, y, p3)
    ensures 0 <= p1 + i < |s| && 0 <= p2 + i < |s| && 0 <= p3 + i < |s|
    ensures s[p1 + i] == y[i] && s[p2 + i] == y[i] && s[p3 + i] == y[i]
  {
    OccursByte(s, y, p1, i);
    OccursByte(s, y, p2, i);
    OccursByte(s, y, p3, i);
  }

  lemma ExtendedOnLeft(s: seq<Byte>, c: Byte, a1: int, a2: int, a3: int, q1: int, q2: int, q3: int)
    requires 0 <= q1 < |s| && 0 <= q2 < |s| && 0 <= q3 < |s| && s[q1] == c && s[q2] == c && s[q3] == c
    requires Among(a1, q1 + 1, q2 + 1, q3 + 1) && Among(a2, q1 + 1, q2 + 1, q3 + 1) && Among(a3, q1 + 1, q2 + 1, q3 + 1)
    ensures ExtendsLeft(s, a1, a2, a3)
  {
    SameByteAt(s, a1 - 1, a2 - 1, a3 - 1, q1, q2, q3, c);
  }

  lemma ExtendedOnRight(s: seq<Byte>, c: Byte, h: int, a1: int, a2: int, a3: int, q1: int, q2: int, q3: int)
    requires 0 <= q1 < |s| && 0 <= q2 < |s| && 0 <= q3 < |s| && s[q1] == c && s[q2] == c && s[q3] == c
    requires Among(a1 + h, q1, q2, q3) && Among(a2 + h, q1, q2, q3) && Among(a3 + h, q1, q2, q3)
    ensures ExtendsRight(s, a1, a2, a3, h)
  {
    SameByteAt(s, a1 + h, a2 + h, a3 + h, q1, q2, q3, c);
  }

  /** No substring longer than a kept window's that holds it occurs at three
      distinct offsets, so none is a provisional command. */
  lemma LongerNotThrice(s: seq<Byte>, sa: seq<int>, lcp: seq<int>, w: int, y: seq<Byte>, d: int,
                        p1: int, p2: int, p3: int)
    requires SuffixLcpArrays(s, sa, lcp) && 0 <= w && w + 1 < |lcp| && Recorded(s, sa, lcp, w)
    requires 0 <= d && d + Inner(lcp, w) <= |y| && Inner(lcp, w) < |y|
    requires Occurs(s, y[d..d + Inner(lcp, w)], sa[w])
    ensures !(p1 != p2 && p1 != p3 && p2 != p3 && Occurs(s, y, p1) && Occurs(s, y, p2) && Occurs(s, y, p3))
  {
    var h := Inner(lcp, w);
    WindowMaximal(s, sa, lcp, w, h);
    assert y[d..d + h] == s[sa[w]..sa[w] + h];
    LongerCore(s, y, d, h, sa[w], sa[w + 1], sa[w + 2], p1, p2, p3);
  }

  /** A suffix sorted between two that start with `p` starts with `p` too. */
  lemma Sandwich(s: seq<Byte>, sa: seq<int>, lcp: seq<int>, p: seq<Byte>, i: int, k: int, j: int)
    requires Shaped(s, sa, lcp) && SortedSuffixes(s, sa) && 0 <= i <= k <= j < |sa|
    requires HasPrefix(s[sa[i]..], p) && HasPrefix(s[sa[j]..], p)
    ensures HasPrefix(s[sa[k]..], p)
  {
    PrefixChain(s, sa, lcp, p, i, k);
    if Beyond(s[sa[k]..], p) {
      BeyondChain(s, sa, lcp, p, k, j);
      PrefixNotBeyond(s[sa[j]..], p);
    }
  }

  /** A substring found at exactly three offsets found at three others, all
      distinct and among the first, is found at exactly those. */
  lemma PermutedThrice(s: seq<Byte>, x: seq<Byte>, a1: int, a2: int, a3: int, b1: int, b2: int, b3: int)
    requires ThriceAt(s, x, a1, a2, a3) && b1 != b2 && b1 != b3 && b2 != b3
    requires Among(b1, a1, a2, a3) && Among(b2, a1, a2, a3) && Among(b3, a1, a2, a3)
    ensures ThriceAt(s, x, b1, b2, b3)
  {
    SameThree(b1, b2, b3, a1, a2, a3);
  }

  /** Extendability does not depend on the order the offsets are listed in. */
  lemma ExtendsPermuted(s: seq<Byte>, a1: int, a2: int, a3: int, b1: int, b2: int, b3: int, m: int)
    requires Among(a1, b1, b2, b3) && Among(a2, b1, b2, b3) && Among(a3, b1, b2, b3)
    ensures ExtendsLeft(s, b1, b2, b3) ==> ExtendsLeft(s, a1, a2, a3)
    ensures ExtendsRight(s, b1, b2, b3, m) ==> ExtendsRight(s, a1, a2, a3, m)
  {
    if ExtendsLeft(s, b1, b2, b3) {
      SameByteAt(s, a1 - 1, a2 - 1, a3 - 1, b1 - 1, b2 - 1, b3 - 1, s[b1 - 1]);
    }
    if ExtendsRight(s, b1, b2, b3, m) {
      SameByteAt(s, a1 + m, a2 + m, a3 + m, b1 + m, b2 + m, b3 + m, s[b1 + m]);
    }
  }

  /** Sorted position k holds one of the three occurrences of x. */
  lemma OccurrenceRank(s: seq<Byte>, sa: seq<int>, lcp: seq<int>, x: seq<Byte>,
                       p1: int, p2: int, p3: int, k1: int, k2: int, k3: int, k: int)
    requires Shaped(s, sa, lcp) && (forall i, j :: 0 <= i < j < |sa| ==> sa[i] != sa[j])
    requires ThriceAt(s, x, p1, p2, p3) && 0 <= k < |sa| && Occurs(s, x, sa[k])
    requires 0 <= k1 < |sa| && 0 <= k2 < |sa| && 0 <= k3 < |sa| && sa[k1] == p1 && sa[k2] == p2 && sa[k3] == p3
    ensures Among(k, k1, k2, k3)
  {
    assert Among(sa[k], sa[k1], sa[k2], sa[k3]);
  }

  /** Three distinct integers such that every integer between the least and the
      greatest of them is one of them are consecutive. */
  lemma Consecutive(k1: int, k2: int, k3: int, lo: int, hi: int)
    requires k1 != k2 && k1 != k3 && k2 != k3 && Among(lo, k1, k2, k3) && Among(hi, k1, k2, k3)
    requires lo <= k1 <= hi && lo <= k2 <= hi && lo <= k3 <= hi
    requires lo + 1 <= hi ==> Among(lo + 1, k1, k2, k3)
    requires lo + 2 <= hi ==> Among(lo + 2, k1, k2, k3)
    ensures hi == lo + 2 && Among(lo + 1, k1, k2, k3)
  {
  }

  /** Between the sorted positions lo and hi of two occurrences of x lie only
      occurrences of x. */
  lemma BetweenOccurrences(s: seq<Byte>, sa: seq<int>, lcp: seq<int>, x: seq<Byte>, p1: int, p2: int, p3: int,
                           k1: int, k2: int, k3: int, lo: int, hi: int, k: int)
    requires Shaped(s, sa, lcp) && SortedSuffixes(s, sa) && (forall i, j :: 0 <= i < j < |sa| ==> sa[i] != sa[j])
    requires ThriceAt(s, x, p1, p2, p3)
    requires 0 <= k1 < |sa| && 0 <= k2 < |sa| && 0 <= k3 < |sa| && sa[k1] == p1 && sa[k2] == p2 && sa[k3] == p3
    requires 0 <= lo <= k <= hi < |sa| && Occurs(s, x, sa[lo]) && Occurs(s, x, sa[hi])
    ensures Among(k, k1, k2, k3)
  {
    OccursPrefix(s, x, sa[lo]);
    OccursPrefix(s, x, sa[hi]);
    Sandwich(s, sa, lcp, x, lo, k, hi);
    OccursPrefix(s, x, sa[k]);
    OccurrenceRank(s, sa, lcp, x, p1, p2, p3, k1, k2, k3, k);
  }

  /** Positions k1, k2, k3 of the three occurrences of x in sorted order are consecutive. */
  lemma RanksConsecutive(s: seq<Byte>, sa: seq<int>, lcp: seq<int>, x: seq<Byte>, p1: int, p2: int, p3: int,
                         k1: int, k2: int, k3: int) returns (w: int)
    requires Shaped(s, sa, lcp) && SortedSuffixes(s, sa) && (forall i, j :: 0 <= i < j < |sa| ==> sa[i] != sa[j])
    requires ThriceAt(s, x, p1, p2, p3)
    requires 0 <= k1 < |sa| && 0 <= k2 < |sa| && 0 <= k3 < |sa| && sa[k1] == p1 && sa[k2] == p2 && sa[k3] == p3
    ensures 0 <= w && w + 2 < |sa| && Among(w, k1, k2, k3) && Among(w + 1, k1, k2, k3) && Among(w + 2, k1, k2, k3)
  {
    var lo := if k1 <= k2 && k1 <= k3 then k1 else if k2 <= k3 then k2 else k3;
    var hi := if k1 >= k2 && k1 >= k3 then k1 else if k2 >= k3 then k2 else k3;
    assert Occurs(s, x, sa[lo]) && Occurs(s, x, sa[hi]);
    if lo + 1 <= hi {
      BetweenOccurrences(s, sa, lcp, x, p1, p2, p3, k1, k2, k3, lo, hi, lo + 1);
    }
    if lo + 2 <= hi {
      BetweenOccurrences(s, sa, lcp, x, p1, p2, p3, k1, k2, k3, lo, hi, lo + 2);
    }
    Consecutive(k1, k2, k3, lo, hi);
    w := lo;
  }

  /** The three occurrences of a substring found at exactly three offsets are
      neighbours in sorted order. */
  lemma OccurrencesBlock(s: seq<Byte>, sa: seq<int>, lcp: seq<int>, x: seq<Byte>, p1: int, p2: int, p3: int)
    returns (w: int)
    requires Shaped(s, sa, lcp) && SortedSuffixes(s, sa) && (forall i, j :: 0 <= i < j < |sa| ==> sa[i] != sa[j])
    requires |x| >= 1 && ThriceAt(s, x, p1, p2, p3)
    ensures 0 <= w && w + 2 < |sa|
    ensures Among(sa[w], p1, p2, p3) && Among(sa[w + 1], p1, p2, p3) && Among(sa[w + 2], p1, p2, p3)
    ensures sa[w] != sa[w + 1] && sa[w] != sa[w + 2] && sa[w + 1] != sa[w + 2]
  {
    assert Occurs(s, x, p1) && Occurs(s, x, p2) && Occurs(s, x, p3);
    var k1 := SuffixAt(s, sa, lcp, p1);
    var k2 := SuffixAt(s, sa, lcp, p2);
    var k3 := SuffixAt(s, sa, lcp, p3);
    w := RanksConsecutive(s, sa, lcp, x, p1, p2, p3, k1, k2, k3);
    assert sa[w] != sa[w + 1] && sa[w] != sa[w + 2] && sa[w + 1] != sa[w + 2];
  }

  /** Beyond its common prefix two suffixes go on with the same bytes. */
  lemma LcpByte(s: seq<Byte>, a: int, b: int, l: int, m: int)
    requires IsLcp(s, a, b, l) && 0 <= m < l
    ensures s[a + m] == s[b + m]
  {
    assert s[a..a + l][m] == s[a + m];
    assert s[b..b + l][m] == s[b + m];
  }

  /** A neighbour sharing at least |x| bytes with an occurrence of x is one. */
  lemma LcpOccurs(s: seq<Byte>, a: int, b: int, l: int, x: seq<Byte>)
    requires IsLcp(s, a, b, l) && |x| <= l
    ensures Occurs(s, x, a) <==> Occurs(s, x, b)
  {
    PrefixOfEqual(s, a, b, l, |x|);
  }

  /** Three suffixes that start with x, pairwise sharing l1 and l2 bytes, and
      that do not all go on with the same byte, share exactly |x| bytes. */
  lemma InnerIsLength(s: seq<Byte>, x: seq<Byte>, a: int, b: int, c: int, l1: int, l2: int)
    requires IsLcp(s, a, b, l1) && IsLcp(s, b, c, l2)
    requires Occurs(s, x, a) && Occurs(s, x, b) && Occurs(s, x, c) && !ExtendsRight(s, a, b, c, |x|)
    ensures (if l1 < l2 then l1 else l2) == |x|
  {
    OccursPrefix(s, x, a);
    OccursPrefix(s, x, b);
    OccursPrefix(s, x, c);
    LcpCovers(s, a, b, l1, x);
    LcpCovers(s, b, c, l2, x);
    if l1 > |x| && l2 > |x| {
      LcpByte(s, a, b, l1, |x|);
      LcpByte(s, b, c, l2, |x|);
    }
  }

  /** A neighbour of an occurrence of x that is none of x's three occurrences
      shares fewer than |x| bytes with it. */
  lemma FenceShorter(s: seq<Byte>, x: seq<Byte>, a: int, b: int, l: int, p1: int, p2: int, p3: int)
    requires IsLcp(s, a, b, l) && ThriceAt(s, x, p1, p2, p3)
    requires Among(b, p1, p2, p3) && !Among(a, p1, p2, p3)
    ensures l < |x|
  {
    if l >= |x| {
      LcpOccurs(s, a, b, l, x);
    }
  }

  /** The LCP facts of a block of three sorted suffixes that spells a maximal
      thrice-occurring substring: both inner LCPs cover it, the shorter is its
      length, and both fences are shorter. */
  lemma BlockLcps(s: seq<Byte>, sa: seq<int>, lcp: seq<int>, x: seq<Byte>, w: int)
    requires Shaped(s, sa, lcp) && (forall i, j :: 0 <= i < j < |sa| ==> sa[i] != sa[j])
    requires forall i :: 0 <= i < |lcp| ==> IsLcp(s, sa[i], sa[i + 1], lcp[i])
    requires 0 <= w && w + 2 < |sa| && ThriceAt(s, x, sa[w], sa[w + 1], sa[w + 2])
    requires !ExtendsRight(s, sa[w], sa[w + 1], sa[w + 2], |x|)
    ensures w + 1 < |lcp| && (if lcp[w] < lcp[w + 1] then lcp[w] else lcp[w + 1]) == |x|
    ensures w > 0 ==> lcp[w - 1] < |x|
    ensures w + 3 < |sa| ==> lcp[w + 2] < |x|
  {
    assert IsLcp(s, sa[w], sa[w + 1], lcp[w]) && IsLcp(s, sa[w + 1], sa[w + 2], lcp[w + 1]);
    assert Occurs(s, x, sa[w]) && Occurs(s, x, sa[w + 1]) && Occurs(s, x, sa[w + 2]);
    InnerIsLength(s, x, sa[w], sa[w + 1], sa[w + 2], lcp[w], lcp[w + 1]);
    if w > 0 {
      assert IsLcp(s, sa[w - 1], sa[w], lcp[w - 1]);
      assert sa[w - 1] != sa[w] && sa[w - 1] != sa[w + 1] && sa[w - 1] != sa[w + 2];
      FenceShorter(s, x, sa[w - 1], sa[w], lcp[w - 1], sa[w], sa[w + 1], sa[w + 2]);
    }
    if w + 3 < |sa| {
      assert IsLcp(s, sa[w + 2], sa[w + 3], lcp[w + 2]);
      assert sa[w] != sa[w + 3] && sa[w + 1] != sa[w + 3] && sa[w + 2] != sa[w + 3];
      FenceReversed(s, x, sa[w + 2], sa[w + 3], lcp[w + 2], sa[w], sa[w + 1], sa[w + 2]);
    }
  }

  /** FenceShorter with the neighbour on the other side. */
  lemma FenceReversed(s: seq<Byte>, x: seq<Byte>, b: int, a: int, l: int, p1: int, p2: int, p3: int)
    requires IsLcp(s, b, a, l) && ThriceAt(s, x, p1, p2, p3)
    requires Among(b, p1, p2, p3) && !Among(a, p1, p2, p3)
    ensures l < |x|
  {
    if l >= |x| {
      LcpOccurs(s, b, a, l, x);
    }
  }

  /** A block of three sorted suffixes that spells a maximal thrice-occurring
      substring passes the window test with that substring's length. */
  lemma BlockRecorded(s: seq<Byte>, sa: seq<int>, lcp: seq<int>, x: seq<Byte>, w: int)
    requires SuffixLcpArrays(s, sa, lcp) && 0 <= w && w + 2 < |sa| && |x| >= 1
    requires ThriceAt(s, x, sa[w], sa[w + 1], sa[w + 2])
    requires !ExtendsLeft(s, sa[w], sa[w + 1], sa[w + 2]) && !ExtendsRight(s, sa[w], sa[w + 1], sa[w + 2], |x|)
    ensures w + 1 < |lcp| && Inner(lcp, w) == |x| && Recorded(s, sa, lcp, w)
  {
    BlockLcps(s, sa, lcp, x, w);
    assert 0 <= sa[w] < |s| && 0 <= sa[w + 1] < |s| && 0 <= sa[w + 2] < |s|;
  }

  /** Listing the offsets of a maximal thrice-occurring substring in another
      order keeps it maximal and thrice-occurring. */
  lemma PermutedMaximal(s: seq<Byte>, x: seq<Byte>, p1: int, p2: int, p3: int, b1: int, b2: int, b3: int)
    requires ThriceAt(s, x, p1, p2, p3) && !ExtendsLeft(s, p1, p2, p3) && !ExtendsRight(s, p1, p2, p3, |x|)
    requires b1 != b2 && b1 != b3 && b2 != b3
    requires Among(b1, p1, p2, p3) && Among(b2, p1, p2, p3) && Among(b3, p1, p2, p3)
    ensures ThriceAt(s, x, b1, b2, b3) && !ExtendsLeft(s, b1, b2, b3) && !ExtendsRight(s, b1, b2, b3, |x|)
  {
    PermutedThrice(s, x, p1, p2, p3, b1, b2, b3);
    SameThree(p1, p2, p3, b1, b2, b3);
    ExtendsPermuted(s, p1, p2, p3, b1, b2, b3, |x|);
  }

  /** Every window before k that passes the test is listed among the first k. */
  lemma {:induction false} RecordedListed(s: seq<Byte>, sa: seq<int>, lcp: seq<int>, k: nat, w: int)
    requires Shaped(s, sa, lcp) && k <= Windows(lcp) && 0 <= w < k && Recorded(s, sa, lcp, w)
    ensures w in RecordedWindows(s, sa, lcp, k)
  {
    if w < k - 1 {
      RecordedListed(s, sa, lcp, k - 1, w);
    }
  }

  /** A maximal thrice-occurring substring is spelled by the block of its three
      occurrences in sorted order, which passes the window test. */
  lemma MaximalBlock(s: seq<Byte>, sa: seq<int>, lcp: seq<int>, x: seq<Byte>, p1: int, p2: int, p3: int)
    returns (w: int)
    requires SuffixLcpArrays(s, sa, lcp) && |x| >= 1 && ThriceAt(s, x, p1, p2, p3)
    requires !ExtendsLeft(s, p1, p2, p3) && !ExtendsRight(s, p1, p2, p3, |x|)
    ensures 0 <= w && w + 1 < |lcp| && Recorded(s, sa, lcp, w) && Inner(lcp, w) == |x|
    ensures Among(sa[w], p1, p2, p3) && Among(sa[w + 1], p1, p2, p3) && Among(sa[w + 2], p1, p2, p3)
    ensures sa[w] != sa[w + 1] && sa[w] != sa[w + 2] && sa[w + 1] != sa[w + 2]
  {
    w := OccurrencesBlock(s, sa, lcp, x, p1, p2, p3);
    PermutedMaximal(s, x, p1, p2, p3, sa[w], sa[w + 1], sa[w + 2]);
    BlockRecorded(s, sa, lcp, x, w);
  }

  /** Every substring found at exactly three offsets that cannot be extended by
      a common byte on either side is a provisional command: some kept window
      spells it, with the same three offsets. */
  lemma MaximalIsRecorded(s: seq<Byte>, sa: seq<int>, lcp: seq<int>, x: seq<Byte>, p1: int, p2: int, p3: int)
    requires SuffixLcpArrays(s, sa, lcp) && |x| >= 1 && ThriceAt(s, x, p1, p2, p3)
    requires !ExtendsLeft(s, p1, p2, p3) && !ExtendsRight(s, p1, p2, p3, |x|)
    ensures exists w :: (0 <= w && w + 1 < |lcp| && w in RecordedWindows(s, sa, lcp, Windows(lcp)) &&
                         Inner(lcp, w) == |x| && {sa[w], sa[w + 1], sa[w + 2]} == {p1, p2, p3})
  {
    var w := MaximalBlock(s, sa, lcp, x, p1, p2, p3);
    RecordedListed(s, sa, lcp, Windows(lcp), w);
    SameThree(p1, p2, p3, sa[w], sa[w + 1], sa[w + 2]);
    SameSet(sa[w], sa[w + 1], sa[w + 2], p1, p2, p3);
  }

  /** Two triples drawn from each other are the same set. */
  lemma SameSet(a1: int, a2: int, a3: int, b1: int, b2: int, b3: int)
    requires Among(a1, b1, b2, b3) && Among(a2, b1, b2, b3) && Among(a3, b1, b2, b3)
    requires Among(b1, a1, a2, a3) && Among(b2, a1, a2, a3) && Among(b3, a1, a2, a3)
    ensures {a1, a2, a3} == {b1, b2, b3}
  {
  }

  /** x followed by c occurs at q when x does and the next byte is c. */
  lemma OccursSnoc(s: seq<Byte>, x: seq<Byte>, c: Byte, q: int)
    ensures Occurs(s, x + [c], q) <==> Occurs(s, x, q) && q + |x| < |s| && s[q + |x|] == c
  {
    if 0 <= q && q + |x| < |s| {
      assert s[q..q + |x| + 1] == s[q..q + |x|] + [s[q + |x|]];
      if Occurs(s, x + [c], q) {
        assert (x + [c])[..|x|] == x;
        assert s[q..q + |x| + 1][..|x|] == s[q..q + |x|];
      }
    }
  }

  /** c followed by x occurs at q when x occurs at q + 1 and byte q is c. */
  lemma OccursCons(s: seq<Byte>, c: Byte, x: seq<Byte>, q: int)
    ensures Occurs(s, [c] + x, q) <==> 0 <= q && Occurs(s, x, q + 1) && s[q] == c
  {
    if 0 <= q && q + 1 + |x| <= |s| {
      assert s[q..q + 1 + |x|] == [s[q]] + s[q + 1..q + 1 + |x|];
      if Occurs(s, [c] + x, q) {
        assert ([c] + x)[1..] == x;
        assert s[q..q + 1 + |x|][1..] == s[q + 1..q + 1 + |x|];
      }
    }
  }

  /** A thrice-occurring substring whose occurrences go on with a common byte
      is part of a longer one occurring at the same three offsets. */
  lemma ExtendedRightThrice(s: seq<Byte>, x: seq<Byte>, p1: int, p2: int, p3: int)
    requires ThriceAt(s, x, p1, p2, p3) && ExtendsRight(s, p1, p2, p3, |x|)
    ensures ThriceAt(s, x + [s[p1 + |x|]], p1, p2, p3)
  {
    var c := s[p1 + |x|];
    forall q
      ensures Occurs(s, x + [c], q) <==> q == p1 || q == p2 || q == p3
    {
      OccursSnoc(s, x, c, q);
    }
  }

  /** Likewise for a common preceding byte. */
  lemma ExtendedLeftThrice(s: seq<Byte>, x: seq<Byte>, p1: int, p2: int, p3: int)
    requires ThriceAt(s, x, p1, p2, p3) && ExtendsLeft(s, p1, p2, p3)
    ensures ThriceAt(s, [s[p1 - 1]] + x, p1 - 1, p2 - 1, p3 - 1)
  {
    var c := s[p1 - 1];
    forall q
      ensures Occurs(s, [c] + x, q) <==> q == p1 - 1 || q == p2 - 1 || q == p3 - 1
    {
      OccursCons(s, c, x, q);
      assert Occurs(s, x, q + 1) <==> q + 1 == p1 || q + 1 == p2 || q + 1 == p3;
    }
  }

  // ---------------------------------------------------------------------------
  // Steps B and C: lexical_parse.
  // ---------------------------------------------------------------------------

  /** What the external suffix sorter hands back: the two arrays, or the
      negative error code of a failed sort. */
  datatype SuffixSort = Sorted(sa: seq<int>, lcp: seq<int>) | SortFailed(code: int)

  /** The body of the marking loop for byte `cur` of the incidence that starts
      at `start` and follows those of Q: an untagged byte takes the tag of
      provisional command |Q| / 3; a tagged one becomes 2 and that command and
      the byte's owner, if it had one, lose their numbers. */
  method MarkByte(parsed: array<int>, newnumbers: array<int>, ghost Q: seq<Incidence>,
                  oldCommandNumber: nat, start: int, cur: int)
    requires parsed != newnumbers && oldCommandNumber == |Q| / 3
    requires 0 <= start <= cur < parsed.Length && 3 * newnumbers.Length > |Q|
    requires forall x :: 0 <= x < parsed.Length ==>
      parsed[x] == MarkTag(Q + [Incidence(start, cur - start)], x, true)
    requires forall k :: 0 <= k && 3 * k <= |Q| ==>
      newnumbers[k] == (if Deleted(Q + [Incidence(start, cur - start)], k) then 0 else k + 1)
    modifies parsed, newnumbers
    ensures forall x :: 0 <= x < parsed.Length ==>
      parsed[x] == MarkTag(Q + [Incidence(start, cur + 1 - start)], x, true)
    ensures forall k :: 0 <= k && 3 * k <= |Q| ==>
      newnumbers[k] == (if Deleted(Q + [Incidence(start, cur + 1 - start)], k) then 0 else k + 1)
  {
    MarkStep(Q, Q + [Incidence(start, cur - start)], Q + [Incidence(start, cur + 1 - start)], start, cur);
    if parsed[cur] != 0 {
      if parsed[cur] != 2 {
        newnumbers[parsed[cur] / 3 - 1] := 0;
      }
      newnumbers[oldCommandNumber] := 0;
      parsed[cur] := 2;
    } else {
      parsed[cur] := (oldCommandNumber + 1) * 3;
    }
  }

  /** The inner marking loop: every byte incidence `inc` covers, in turn, as
      MarkByte does it; the first byte is not yet flagged. */
  method MarkCovered(parsed: array<int>, newnumbers: array<int>, ghost Q: seq<Incidence>,
                     oldCommandNumber: nat, inc: Incidence)
    requires parsed != newnumbers && oldCommandNumber == |Q| / 3
    requires 0 <= inc.start && 1 <= inc.length && inc.start + inc.length <= parsed.Length
    requires 3 * newnumbers.Length > |Q|
    requires forall x :: 0 <= x < parsed.Length ==> parsed[x] == MarkTag(Q, x, false)
    requires forall k :: 0 <= k && 3 * k <= |Q| ==>
      newnumbers[k] == (if Deleted(Q, k) then 0 else k + 1)
    modifies parsed, newnumbers
    ensures forall x :: 0 <= x < parsed.Length ==> parsed[x] == MarkTag(Q + [inc], x, true)
    ensures forall k :: 0 <= k && 3 * k <= |Q| ==>
      newnumbers[k] == (if Deleted(Q + [inc], k) then 0 else k + 1)
  {
    EmptyExtension(Q, inc.start);
    var j := inc.start;
    assert Q + [Incidence(inc.start, j - inc.start)] == Q + [Incidence(inc.start, 0)];
    forall k | 0 <= k && 3 * k <= |Q|
      ensures Deleted(Q + [Incidence(inc.start, 0)], k) == Deleted(Q, k)
    {
    }
    while j < inc.start + inc.length
      invariant inc.start <= j <= inc.start + inc.length
      invariant forall x :: 0 <= x < parsed.Length ==>
        parsed[x] == MarkTag(Q + [Incidence(inc.start, j - inc.start)], x, true)
      invariant forall k :: 0 <= k && 3 * k <= |Q| ==>
        newnumbers[k] == (if Deleted(Q + [Incidence(inc.start, j - inc.start)], k) then 0 else k + 1)
    {
      MarkByte(parsed, newnumbers, Q, oldCommandNumber, inc.start, j);
      j := j + 1;
    }
    assert Incidence(inc.start, j - inc.start) == inc;
  }

  /** One pass of the marking loop over incidence m of `lexical_parse`: every
      byte it covers is tagged with its provisional command, or 2 if it was
      already tagged, in which case both commands involved are marked deleted
      (newnumbers 0); then its first byte is flagged. */
  method MarkIncidence(parsed: array<int>, newnumbers: array<int>, ghost incs: seq<Incidence>,
                       m: nat, inc: Incidence)
    requires parsed != newnumbers
    requires ValidIncidences(incs, parsed.Length) && m < |incs| && inc == incs[m]
    requires 3 * newnumbers.Length >= |incs|
    requires forall j :: 0 <= j < parsed.Length ==> parsed[j] == MarkTag(incs[..m], j, false)
    requires forall k :: 0 <= k && 3 * k < m ==>
      newnumbers[k] == (if Deleted(incs[..m], k) then 0 else k + 1)
    modifies parsed, newnumbers
    ensures forall j :: 0 <= j < parsed.Length ==> parsed[j] == MarkTag(incs[..m + 1], j, false)
    ensures forall k :: 0 <= k && 3 * k < m + 1 ==>
      newnumbers[k] == (if Deleted(incs[..m + 1], k) then 0 else k + 1)
  {
    var oldCommandNumber := m / 3;
    if m % 3 == 0 {
      newnumbers[oldCommandNumber] := oldCommandNumber + 1;
    }
    ghost var Q := incs[..m];
    assert incs[..m + 1] == Q + [inc];
    MarkCovered(parsed, newnumbers, Q, oldCommandNumber, inc);
    MarkFlag(Q, incs[..m + 1], inc);
    if parsed[inc.start] > 2 {
      parsed[inc.start] := parsed[inc.start] + 1;
    }
  }

  /** The marking loop: every incidence in turn, as MarkIncidence does it. */
  method MarkIncidences(parsed: array<int>, newnumbers: array<int>, incidences: array<Incidence>,
                        ghost incs: seq<Incidence>, commands: nat)
    requires parsed != newnumbers
    requires ValidIncidences(incs, parsed.Length) && |incs| == 3 * commands <= 3 * newnumbers.Length
    requires 3 * commands <= incidences.Length && incidences[..3 * commands] == incs
    requires forall j :: 0 <= j < parsed.Length ==> parsed[j] == 0
    modifies parsed, newnumbers
    ensures forall j :: 0 <= j < parsed.Length ==> parsed[j] == MarkTag(incs, j, false)
    ensures forall q :: 0 <= q < commands ==>
      newnumbers[q] == (if Deleted(incs, q) then 0 else q + 1)
  {
    var m := 0;
    assert incs[..0] == [];
    while m < commands * 3
      invariant 0 <= m <= 3 * commands
      invariant forall j :: 0 <= j < parsed.Length ==> parsed[j] == MarkTag(incs[..m], j, false)
      invariant forall k :: 0 <= k && 3 * k < m ==>
        newnumbers[k] == (if Deleted(incs[..m], k) then 0 else k + 1)
    {
      assert incidences[m] == incs[m];
      MarkIncidence(parsed, newnumbers, incs, m, incidences[m]);
      m := m + 1;
    }
    assert incs[..m] == incs;
  }

  /** One pass of the renumbering loop: provisional command k, if it survives,
      takes the next number. */
  method NumberOne(newnumbers: array<int>, ghost incs: seq<Incidence>, commands: nat, k: nat, newnumber: int)
    returns (newnumber': int)
    requires |incs| == 3 * commands <= 3 * newnumbers.Length && k < commands
    requires newnumber == 2 + 3 * Rank(incs, k)
    requires newnumbers[k] == (if Deleted(incs, k) then 0 else k + 1)
    modifies newnumbers
    ensures newnumber' == 2 + 3 * Rank(incs, k + 1)
    ensures newnumbers[k] == (if Deleted(incs, k) then 0 else 2 + 3 * Rank(incs, k))
    ensures forall q :: 0 <= q < newnumbers.Length && q != k ==> newnumbers[q] == old(newnumbers[q])
  {
    newnumber' := newnumber;
    if newnumbers[k] != 0 {
      newnumbers[k] := newnumber;
      newnumber' := newnumber + 3;
    }
  }

  /** Renumbering: the surviving provisional commands, in order, get 2, 5, 8, ...;
      the result is 2 plus three times the number of survivors. */
  method NumberSurvivors(newnumbers: array<int>, ghost incs: seq<Incidence>, commands: nat)
    returns (newnumber: int)
    requires |incs| == 3 * commands <= 3 * newnumbers.Length
    requires forall q :: 0 <= q < commands ==>
      newnumbers[q] == (if Deleted(incs, q) then 0 else q + 1)
    modifies newnumbers
    ensures newnumber == 2 + 3 * Survivors(incs)
    ensures forall q :: 0 <= q < commands ==>
      newnumbers[q] == (if Deleted(incs, q) then 0 else 2 + 3 * Rank(incs, q))
  {
    newnumber := 2;
    var k := 0;
    assert Rank(incs, k) == 0;
    while k < commands
      invariant 0 <= k <= commands
      invariant newnumber == 2 + 3 * Rank(incs, k)
      invariant forall q :: 0 <= q < k ==>
        newnumbers[q] == (if Deleted(incs, q) then 0 else 2 + 3 * Rank(incs, q))
      invariant forall q :: k <= q < commands ==>
        newnumbers[q] == (if Deleted(incs, q) then 0 else q + 1)
    {
      newnumber := NumberOne(newnumbers, incs, commands, k, newnumber);
      k := k + 1;
    }
    assert k == commands && |incs| / 3 == commands;
  }

  /** One pass of the last loop, over byte x; `marked` and `numbers` are the tags
      and numbers the loop started from. */
  method AssignRole(parsed: array<int>, newnumbers: array<int>, ghost incs: seq<Incidence>, commands: nat,
                    ghost marked: seq<int>, ghost numbers: seq<int>, x: nat)
    requires parsed != newnumbers
    requires ValidIncidences(incs, parsed.Length) && |incs| == 3 * commands <= 3 * newnumbers.Length
    requires |marked| == parsed.Length && |numbers| == newnumbers.Length && x < parsed.Length
    requires parsed[x] == marked[x] == MarkTag(incs, x, false)
    requires forall q :: 0 <= q < commands ==>
      numbers[q] == (if Deleted(incs, q) then 0 else 2 + 3 * Rank(incs, q))
    requires forall q :: 0 <= q < commands ==>
      newnumbers[q] == (if numbers[q] == 0 then 0 else numbers[q] + StartsBelow(incs, q, x))
    modifies parsed, newnumbers
    ensures parsed[x] == FinalTag(incs, x)
    ensures forall y :: 0 <= y < parsed.Length && y != x ==> parsed[y] == old(parsed[y])
    ensures forall q :: 0 <= q < commands ==>
      newnumbers[q] == (if numbers[q] == 0 then 0 else numbers[q] + StartsBelow(incs, q, x + 1))
  {
    RoleStep(incs, parsed.Length, x);
    ghost var final := FinalTag(incs, x);
    ghost var owner := if parsed[x] >= 3 then parsed[x] / 3 - 1 else -1;
    if parsed[x] >= 3 {
      var oldCommandNumber := parsed[x] / 3 - 1;
      assert oldCommandNumber == LastCover(incs, x) / 3;
      assert numbers[oldCommandNumber] ==
        if Deleted(incs, oldCommandNumber) then 0 else 2 + 3 * Rank(incs, oldCommandNumber);
      if newnumbers[oldCommandNumber] == 0 {
        parsed[x] := 1;
      } else {
        if parsed[x] % 3 != 0 {
          newnumbers[oldCommandNumber] := newnumbers[oldCommandNumber] + 1;
        }
        parsed[x] := newnumbers[oldCommandNumber];
      }
    }
    assert parsed[x] == final;
    forall q | 0 <= q < commands && q != owner
      ensures newnumbers[q] == (if numbers[q] == 0 then 0 else numbers[q] + StartsBelow(incs, q, x + 1))
    {
      assert newnumbers[q] == old(newnumbers[q]);
      if numbers[q] != 0 {
        assert !Deleted(incs, q);
      }
    }
  }

  /** The last pass: bytes of deleted commands become 1, and the bytes of each
      surviving command's three incidences get its number plus their role, the
      role being counted up at each flagged first byte met from left to right. */
  method AssignRoles(parsed: array<int>, newnumbers: array<int>, ghost incs: seq<Incidence>, commands: nat)
    requires parsed != newnumbers
    requires ValidIncidences(incs, parsed.Length) && |incs| == 3 * commands <= 3 * newnumbers.Length
    requires forall y :: 0 <= y < parsed.Length ==> parsed[y] == MarkTag(incs, y, false)
    requires forall q :: 0 <= q < commands ==>
      newnumbers[q] == (if Deleted(incs, q) then 0 else 2 + 3 * Rank(incs, q))
    modifies parsed, newnumbers
    ensures forall y :: 0 <= y < parsed.Length ==> parsed[y] == FinalTag(incs, y)
  {
    ghost var marked, numbers := parsed[..], newnumbers[..];
    var x := 0;
    while x < parsed.Length
      invariant 0 <= x <= parsed.Length
      invariant forall y :: 0 <= y < x ==> parsed[y] == FinalTag(incs, y)
      invariant forall y :: x <= y < parsed.Length ==> parsed[y] == marked[y]
      invariant forall q :: 0 <= q < commands ==>
        newnumbers[q] == (if numbers[q] == 0 then 0 else numbers[q] + StartsBelow(incs, q, x))
    {
      AssignRole(parsed, newnumbers, incs, commands, marked, numbers, x);
      x := x + 1;
    }
  }

  /** lexical_parse: tags every byte of the program and returns the number of
      surviving commands, or the sorter's error code. */
  method LexicalParse(s: seq<Byte>, sorter: SuffixSort, parsed: array<int>) returns (rv: int)
    requires parsed.Length == |s|
    requires |s| >= 3 && sorter.Sorted? ==> SuffixLcpArrays(s, sorter.sa, sorter.lcp)
    requires sorter.SortFailed? ==> sorter.code < 0
    modifies parsed
    ensures |s| >= 3 && sorter.SortFailed? ==>
      rv == sorter.code && forall j :: 0 <= j < |s| ==> parsed[j] == 0
    ensures |s| < 3 ==> rv == 0 && forall j :: 0 <= j < |s| ==> parsed[j] == 0
    ensures |s| >= 3 && sorter.Sorted? ==>
      var incs := Found(s, sorter.sa, sorter.lcp, Windows(sorter.lcp));
      rv == Survivors(incs) && forall j :: 0 <= j < |s| ==> parsed[j] == FinalTag(incs, j)
  {
    var i := 0;
    while i < |s|
      invariant 0 <= i <= |s|
      invariant forall j :: 0 <= j < i ==> parsed[j] == 0
    {
      parsed[i] := 0;
      i := i + 1;
    }
    if |s| < 3 {
      return 0;
    }
    if sorter.SortFailed? {
      return sorter.code;
    }
    var sa, lcp := sorter.sa, sorter.lcp;
    ghost var incs := Found(s, sa, lcp, Windows(lcp));
    FoundValid(s, sa, lcp, Windows(lcp));

    var incidences := new Incidence[|s|];
    var commands := FindCommandsAndIncidences(s, sa, lcp, incidences);
    assert incidences[..3 * commands] == incs;
    var newnumbers := new int[if commands < 1 then 1 else commands];

    MarkIncidences(parsed, newnumbers, incidences, incs, commands);
    var newnumber := NumberSurvivors(newnumbers, incs, commands);
    AssignRoles(parsed, newnumbers, incs, commands);
    rv := newnumber / 3;
    assert rv == Survivors(incs);
  }
}
