/** Choosing the two tallest peaks. The scan's peaks become `(index, value)`
    pairs that `list.sort(key=value, reverse=True)` orders; Python's sort is
    stable also when reversed, so pairs of equal value keep their original,
    ascending-index order. The first two pairs of the sorted list are the
    chosen peaks. */
module Ranking {
  import opened Peaks

  datatype PeakVal = PeakVal(index: int, value: real)

  /** Puts `x`, which came before every element of `s` in the original list,
      in front of the first element that is not taller than it. */
  function Insert(x: PeakVal, s: seq<PeakVal>): (r: seq<PeakVal>)
    ensures multiset(r) == multiset(s) + multiset{x}
  {
    if s == [] || x.value >= s[0].value then [x] + s
    else
      assert s == [s[0]] + s[1..];
      [s[0]] + Insert(x, s[1..])
  }

  /** Stable sort by value, descending: insertion from the back of the list. */
  function SortByValueDesc(s: seq<PeakVal>): (r: seq<PeakVal>)
    ensures multiset(r) == multiset(s)
  {
    if s == [] then []
    else
      assert s == [s[0]] + s[1..];
      Insert(s[0], SortByValueDesc(s[1..]))
  }

  lemma ConsSplit(s: seq<PeakVal>, x: PeakVal, k: int)
    requires 1 <= k <= |s|
    ensures [s[0]] + (s[1..][..k - 1] + [x] + s[1..][k - 1..]) == s[..k] + [x] + s[k..]
  {
    assert s[..k] == [s[0]] + s[1..][..k - 1];
    assert s[k..] == s[1..][k - 1..];
  }

  /** The first `k` elements of `s` are all strictly taller than `x`. */
  predicate TallerRun(s: seq<PeakVal>, x: PeakVal, k: int)
  {
    0 <= k <= |s| && forall m :: 0 <= m < k ==> s[m].value > x.value
  }

  /** `Insert` places `x` after the leading run of elements strictly taller
      than it. */
  lemma {:induction false} InsertSplit(x: PeakVal, s: seq<PeakVal>, k: int)
    requires TallerRun(s, x, k)
    requires k < |s| ==> x.value >= s[k].value
    ensures Insert(x, s) == s[..k] + [x] + s[k..]
    decreases k
  {
    if k == 0 {
      assert s[..k] == [] && s[k..] == s;
    } else {
      InsertSplit(x, s[1..], k - 1);
      ConsSplit(s, x, k);
    }
  }

  /** `peak_vals.sort(key=lambda x: x[1], reverse=True)` on the list in place:
      an insertion sort that takes the elements from the back and lets each
      one pass only the strictly taller elements, so equal values keep their
      order. */
  method SortInPlace(a: array<PeakVal>)
    modifies a
    ensures a[..] == SortByValueDesc(old(a[..]))
  {
    ghost var orig := a[..];
    var i := a.Length;
    while i > 0
      invariant 0 <= i <= a.Length
      invariant forall k :: 0 <= k < i ==> a[k] == orig[k]
      invariant a[i..] == SortByValueDesc(orig[i..])
    {
      i := i - 1;
      SortStep(orig, i);
      InsertBack(a, i);
    }
    assert orig[0..] == orig;
  }

  lemma SortStep(s: seq<PeakVal>, i: int)
    requires 0 <= i < |s|
    ensures SortByValueDesc(s[i..]) == Insert(s[i], SortByValueDesc(s[i + 1..]))
  {
    assert s[i..][1..] == s[i + 1..];
  }

  /** One step of the sort: `a[i]` moves right past the strictly taller
      elements of the sorted tail `a[i + 1..]`. */
  method InsertBack(a: array<PeakVal>, i: int)
    requires 0 <= i < a.Length
    modifies a
    ensures forall k :: 0 <= k < i ==> a[k] == old(a[k])
    ensures a[i..] == Insert(old(a[i]), old(a[i + 1..]))
  {
    var x := a[i];
    ghost var s := a[i + 1..];
    var j := ShiftTaller(a, i);
    InsertSplit(x, s, j - i);
    ghost var before := a[..];
    a[j] := x;
    PlaceInGap(before, i, j, x, s);
  }

  /** Writing `x` into the gap at `j` completes the insertion. */
  lemma PlaceInGap(before: seq<PeakVal>, i: int, j: int, x: PeakVal, s: seq<PeakVal>)
    requires 0 <= i <= j < |before| && j - i <= |s|
    requires before[i..j] == s[..j - i] && before[j + 1..] == s[j - i..]
    ensures before[j := x][i..] == s[..j - i] + [x] + s[j - i..]
  {
    assert before[j := x][i..] == before[i..j] + [x] + before[j + 1..];
  }

  /** The inner loop of `InsertBack`: shifts the leading run of elements of
      `a[i + 1..]` strictly taller than `a[i]` one place to the left and
      returns the position just after the run. */
  method ShiftTaller(a: array<PeakVal>, i: int) returns (j: int)
    requires 0 <= i < a.Length
    modifies a
    ensures i <= j < a.Length
    ensures forall k :: 0 <= k < i ==> a[k] == old(a[k])
    ensures a[i..j] == old(a[i + 1..])[..j - i]
    ensures a[j + 1..] == old(a[i + 1..])[j - i..]
    ensures TallerRun(old(a[i + 1..]), old(a[i]), j - i)
    ensures j - i < |old(a[i + 1..])| ==> old(a[i]).value >= old(a[i + 1..])[j - i].value
  {
    var x := a[i];
    ghost var s := a[i + 1..];
    j := i;
    while j + 1 < a.Length && a[j + 1].value > x.value
      invariant i <= j < a.Length
      invariant forall k :: 0 <= k < i ==> a[k] == old(a[k])
      invariant a[i..j] == s[..j - i]
      invariant a[j + 1..] == s[j - i..]
      invariant TallerRun(s, x, j - i)
    {
      a[j] := a[j + 1];
      j := j + 1;
    }
  }

  /** `a` comes first in a stable descending sort of a list in ascending index
      order: it is taller, or as tall and earlier. */
  predicate Outranks(a: PeakVal, b: PeakVal)
  {
    a.value > b.value || (a.value == b.value && a.index < b.index)
  }

  predicate Ranked(t: seq<PeakVal>)
  {
    forall i, j :: 0 <= i < j < |t| ==> Outranks(t[i], t[j])
  }

  predicate IndicesAscending(s: seq<PeakVal>)
  {
    forall i, j :: 0 <= i < j < |s| ==> s[i].index < s[j].index
  }

  lemma {:induction false} InsertRanked(x: PeakVal, t: seq<PeakVal>)
    requires Ranked(t)
    requires forall e | e in t :: x.index < e.index
    ensures Ranked(Insert(x, t))
  {
    if t == [] || x.value >= t[0].value {
      assert forall j :: 0 <= j < |t| ==> t[0] == t[j] || Outranks(t[0], t[j]);
    } else {
      var rest := Insert(x, t[1..]);
      InsertRanked(x, t[1..]);
      forall j | 0 <= j < |rest| ensures Outranks(t[0], rest[j]) {
        assert rest[j] in multiset(rest);
        if rest[j] != x {
          assert rest[j] in t[1..];
        }
      }
      assert Insert(x, t) == [t[0]] + rest;
    }
  }

  /** The sort returns a permutation of its input in which, for an input in
      ascending index order, every pair is ordered by value descending and,
      among equal values, by ascending index: a stable descending sort. */
  lemma {:induction false} SortByValueDescRanked(s: seq<PeakVal>)
    requires IndicesAscending(s)
    ensures multiset(SortByValueDesc(s)) == multiset(s)
    ensures Ranked(SortByValueDesc(s))
  {
    if s != [] {
      SortByValueDescRanked(s[1..]);
      var t := SortByValueDesc(s[1..]);
      forall e | e in t ensures s[0].index < e.index {
        assert e in multiset(s[1..]);
      }
      InsertRanked(s[0], t);
    }
  }

  predicate InRange(sh: seq<real>, peaks: seq<int>)
  {
    forall k :: 0 <= k < |peaks| ==> 0 <= peaks[k] < |sh|
  }

  /** `[(int(p), float(sh[p])) for p in peaks]`. The ensures clauses unfold the
      comprehension for the solver. */
  function PeakValues(sh: seq<real>, peaks: seq<int>): (pv: seq<PeakVal>)
    requires InRange(sh, peaks)
    ensures |pv| == |peaks|
    ensures forall k :: 0 <= k < |pv| ==> pv[k] == PeakVal(peaks[k], sh[peaks[k]])
  {
    seq(|peaks|, k requires 0 <= k < |peaks| => PeakVal(peaks[k], sh[peaks[k]]))
  }

  /** Two peak indices. */
  datatype Pair = Pair(first: int, second: int)

  /** The indices of the first two pairs after the sort, before any swap. */
  function TallestTwo(sh: seq<real>, peaks: seq<int>): Pair
    requires |peaks| >= 2 && InRange(sh, peaks)
  {
    var t := SortByValueDesc(PeakValues(sh, peaks));
    assert |t| == |multiset(t)| == |peaks|;
    Pair(t[0].index, t[1].index)
  }

  /** Peak `p` outranks peak `q`: it is taller, or as tall and lower. */
  predicate OutranksAt(sh: seq<real>, p: int, q: int)
    requires 0 <= p < |sh| && 0 <= q < |sh|
  {
    sh[p] > sh[q] || (sh[p] == sh[q] && p < q)
  }

  /** The chosen pair is two different peaks of the list; the first outranks
      every other peak, the second every peak but the first. So they are the
      two tallest, and a tie is settled in favour of the lower index. */
  lemma TallestTwoOutrankTheRest(sh: seq<real>, peaks: seq<int>)
    requires |peaks| >= 2 && InRange(sh, peaks) && StrictlyAscending(peaks)
    ensures var a, b := TallestTwo(sh, peaks).first, TallestTwo(sh, peaks).second;
      && a in peaks && b in peaks && a != b
      && OutranksAt(sh, a, b)
      && (forall q | q in peaks && q != a :: OutranksAt(sh, a, q))
      && (forall q | q in peaks && q != a && q != b :: OutranksAt(sh, b, q))
  {
    var pv := PeakValues(sh, peaks);
    var t := SortByValueDesc(pv);
    SortByValueDescRanked(pv);
    assert |t| == |multiset(t)| == |peaks|;
    var a, b := t[0].index, t[1].index;
    assert t[0] in multiset(pv) && t[1] in multiset(pv);
    assert Outranks(t[0], t[1]);
    forall q | q in peaks && q != a
      ensures OutranksAt(sh, a, q)
      ensures q != b ==> OutranksAt(sh, b, q)
    {
      var k :| 0 <= k < |peaks| && peaks[k] == q;
      assert pv[k] in multiset(t);
      var i :| 0 <= i < |t| && t[i] == pv[k];
      if i >= 2 {
        assert Outranks(t[0], t[i]) && Outranks(t[1], t[i]);
      } else if i == 1 {
        assert Outranks(t[0], t[1]);
      }
    }
  }
}
