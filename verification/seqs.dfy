/** Generic sequence operations that mirror the JavaScript array methods the
    application relies on: `indexOf`, `filter(x => x !== v)`, distinct values
    (`[...new Set(xs)]`), and swapping an element with its neighbour. */
module Seqs {
  import opened Wrappers

  /** `r` can be obtained from `s` by deleting elements: the relative order of
      what is kept is the order in `s`. */
  predicate Subseq<T(==)>(r: seq<T>, s: seq<T>)
    decreases |s|
  {
    |r| == 0 ||
    (|s| > 0 &&
     (Subseq(r, s[..|s| - 1]) ||
      (r[|r| - 1] == s[|s| - 1] && Subseq(r[..|r| - 1], s[..|s| - 1]))))
  }

  lemma SubseqExtend<T>(r: seq<T>, s: seq<T>, x: T)
    requires Subseq(r, s)
    ensures Subseq(r, s + [x])
    ensures Subseq(r + [x], s + [x])
  {
    assert (s + [x])[..|s|] == s;
    assert (r + [x])[..|r|] == r;
  }

  lemma SubseqRefl<T>(s: seq<T>)
    ensures Subseq(s, s)
    decreases |s|
  {
    if |s| > 0 {
      SubseqRefl(s[..|s| - 1]);
    }
  }

  /** A non-empty sequence is its front followed by its last element. */
  lemma SplitLast<T>(s: seq<T>)
    requires |s| > 0
    ensures s == s[..|s| - 1] + [s[|s| - 1]]
  {
  }

  /** An element of a prefix is the element of the longer sequence. */
  lemma PrefixAt<T>(a: seq<T>, b: seq<T>, i: nat)
    requires |a| <= |b| && b[..|a|] == a && i < |a|
    ensures b[i] == a[i]
  {
    assert b[..|a|][i] == b[i];
  }

  /** No value occurs twice. */
  predicate NoDup<T(==)>(s: seq<T>) {
    forall i, j :: 0 <= i < j < |s| ==> s[i] != s[j]
  }

  /** JavaScript `Array.prototype.indexOf`: the first position holding `x`,
      or -1 when there is none. */
  function IndexOf<T(==)>(s: seq<T>, x: T): (i: int)
    ensures -1 <= i < |s|
    ensures i == -1 <==> x !in s
    ensures 0 <= i ==> s[i] == x && forall j :: 0 <= j < i ==> s[j] != x
    decreases |s|
  {
    if |s| == 0 then -1
    else if s[0] == x then 0
    else
      var k := IndexOf(s[1..], x);
      if k == -1 then -1 else k + 1
  }

  /** On a sequence extended at the end, `indexOf` only finds the new last
      element when no earlier element equals it. */
  lemma IndexOfSnoc<T>(s: seq<T>, x: T, y: T)
    ensures IndexOf(s + [x], y) ==
            (if y in s then IndexOf(s, y) else if y == x then |s| else -1)
  {
    var t := s + [x];
    assert forall j :: 0 <= j < |s| ==> t[j] == s[j];
    if y in s {
      assert t[IndexOf(s, y)] == y;
    } else if y == x {
      assert t[|s|] == y;
    }
  }

  /** `s.filter(y => y !== x)`: every occurrence of `x` removed. */
  function RemoveAll<T(==,!new)>(s: seq<T>, x: T): (r: seq<T>)
    ensures x !in r
    ensures forall y :: y != x ==> (y in r <==> y in s)
    ensures Subseq(r, s)
    ensures x !in s ==> r == s
    decreases |s|
  {
    if |s| == 0 then []
    else
      var p := s[..|s| - 1];
      var last := s[|s| - 1];
      var rp := RemoveAll(p, x);
      assert s == p + [last];
      SubseqExtend(rp, p, last);
      if last == x then rp else rp + [last]
  }

  /** The distinct values of `s` in order of first occurrence, as
      `[...new Set(s)]` yields them. */
  function Distinct<T(==,!new)>(s: seq<T>): (r: seq<T>)
    ensures NoDup(r)
    ensures forall y :: y in r <==> y in s
    ensures Subseq(r, s)
    decreases |s|
  {
    if |s| == 0 then []
    else
      var p := s[..|s| - 1];
      var last := s[|s| - 1];
      var d := Distinct(p);
      assert s == p + [last];
      SubseqExtend(d, p, last);
      if last in d then d else d + [last]
  }

  /** Distinct lists values by first occurrence: a value listed earlier first
      occurs earlier in `s`. */
  lemma {:induction false} DistinctFirstOccurrenceOrder<T(!new)>(s: seq<T>)
    ensures forall a, b :: 0 <= a < b < |Distinct(s)| ==>
              IndexOf(s, Distinct(s)[a]) < IndexOf(s, Distinct(s)[b])
    decreases |s|
  {
    if |s| > 0 {
      var p := s[..|s| - 1];
      var last := s[|s| - 1];
      assert s == p + [last];
      var d := Distinct(p);
      DistinctFirstOccurrenceOrder(p);
      var r := Distinct(s);
      assert r == if last in d then d else d + [last];
      forall a, b | 0 <= a < b < |r|
        ensures IndexOf(s, r[a]) < IndexOf(s, r[b])
      {
        assert r[a] == d[a];
        assert d[a] in p;
        IndexOfSnoc(p, last, d[a]);
        if b < |d| {
          assert r[b] == d[b];
          assert d[b] in p;
          IndexOfSnoc(p, last, d[b]);
          assert IndexOf(p, d[a]) < IndexOf(p, d[b]);
          assert IndexOf(s, d[a]) == IndexOf(p, d[a]);
          assert IndexOf(s, d[b]) == IndexOf(p, d[b]);
        } else {
          assert r[b] == last && last !in p;
          IndexOfSnoc(p, last, last);
          assert IndexOf(s, last) == |p|;
          assert IndexOf(s, d[a]) == IndexOf(p, d[a]);
        }
      }
    }
  }

  /** How many entries of `os` hold a value. */
  function Present<T>(os: seq<Option<T>>): nat
    decreases |os|
  {
    if |os| == 0 then 0
    else Present(os[..|os| - 1]) + (if os[|os| - 1].Some? then 1 else 0)
  }

  /** The values present in `os`, in order, the Nones skipped: the value at
      position i lands right after the values present before it. */
  function Values<T>(os: seq<Option<T>>): (r: seq<T>)
    ensures |r| == Present(os) && |r| <= |os|
    ensures forall i :: 0 <= i < |os| && os[i].Some? ==>
              Present(os[..i]) < |r| && r[Present(os[..i])] == os[i].value
    ensures forall x :: x in r ==> Some(x) in os
    ensures forall i :: 0 <= i < |os| && os[i].Some? ==> os[i].value in r
    ensures (forall i :: 0 <= i < |os| ==> os[i].None?) ==> r == []
    decreases |os|
  {
    if |os| == 0 then []
    else
      var p := os[..|os| - 1];
      var v := Values(p);
      var r := if os[|os| - 1].Some? then v + [os[|os| - 1].value] else v;
      forall i | 0 <= i < |os| && os[i].Some?
        ensures Present(os[..i]) < |r| && r[Present(os[..i])] == os[i].value
      {
        if i < |p| {
          assert os[..i] == p[..i];
          assert p[i] == os[i];
        } else {
          assert os[..i] == p;
        }
      }
      forall x | x in r
        ensures Some(x) in os
      {
        if x in v {
          var j :| 0 <= j < |p| && p[j] == Some(x);
          assert os[j] == Some(x);
        } else {
          assert os[|os| - 1] == Some(x);
        }
      }
      r
  }

  /** With no None to skip, the values line up with the options. */
  lemma ValuesAllSome<T>(os: seq<Option<T>>)
    requires forall i :: 0 <= i < |os| ==> os[i].Some?
    ensures |Values(os)| == |os|
    ensures forall i :: 0 <= i < |os| ==> Some(Values(os)[i]) == os[i]
  {
    var w := Values(os);
    PresentAll(os);
    forall i | 0 <= i < |os|
      ensures Some(w[i]) == os[i]
    {
      PresentAll(os[..i]);
    }
  }

  /** Every entry holds a value exactly when all of them count. */
  lemma {:induction false} PresentAll<T>(os: seq<Option<T>>)
    requires forall i :: 0 <= i < |os| ==> os[i].Some?
    ensures Present(os) == |os|
    decreases |os|
  {
    if |os| > 0 {
      PresentAll(os[..|os| - 1]);
    }
  }

  /** Which way a reorder button moves an element. */
  datatype Direction = Up | Down

  /** The position an element at `i` of a list of length `n` is swapped
      with, or None at the boundary the buttons guard against
      (`up` at the first position, `down` at the last). */
  function Neighbour(i: nat, dir: Direction, n: nat): (r: Option<nat>)
    ensures r.Some? ==> r.value < n && i < n && (r.value == i - 1 || r.value == i + 1)
  {
    match dir
    case Up => if 0 < i < n then Some(i - 1) else None
    case Down => if i + 1 < n then Some(i + 1) else None
  }

  /** Swap the element at `i` with its neighbour in direction `dir`; a move
      past either end leaves the sequence as it is. */
  function Move<T>(s: seq<T>, i: nat, dir: Direction): (r: seq<T>)
    requires i < |s|
    ensures |r| == |s|
    ensures multiset(r) == multiset(s)
    ensures dir == Up && i == 0 ==> r == s
    ensures dir == Down && i == |s| - 1 ==> r == s
    ensures Neighbour(i, dir, |s|).Some? ==>
              var j := Neighbour(i, dir, |s|).value;
              r[i] == s[j] && r[j] == s[i] &&
              forall k :: 0 <= k < |s| && k != i && k != j ==> r[k] == s[k]
  {
    match Neighbour(i, dir, |s|)
    case None => s
    case Some(j) =>
      var r := s[i := s[j]][j := s[i]];
      assert r == s[i := s[j]][j := s[i]];
      r
  }

  /** `r` is `s` with the elements at `i` and `j` exchanged. */
  ghost predicate Swapped<T>(r: seq<T>, s: seq<T>, i: nat, j: nat) {
    |r| == |s| && i < |s| && j < |s| && r[i] == s[j] && r[j] == s[i] &&
    forall k :: 0 <= k < |s| && k != i && k != j ==> r[k] == s[k]
  }

  /** A move keeps distinct values distinct. */
  lemma MoveKeepsNoDup<T>(s: seq<T>, i: nat, dir: Direction)
    requires i < |s| && NoDup(s)
    ensures NoDup(Move(s, i, dir))
  {
    var r := Move(s, i, dir);
    match Neighbour(i, dir, |s|)
    case None =>
    case Some(j) =>
      forall a, b | 0 <= a < b < |r|
        ensures r[a] != r[b]
      {
        var sa := if a == i then j else if a == j then i else a;
        var sb := if b == i then j else if b == j then i else b;
        assert r[a] == s[sa] && r[b] == s[sb];
        assert sa != sb;
      }
  }
}
