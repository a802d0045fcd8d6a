/** Sequence operations the message queries are built from: reversal and
    the fixed-size pages that Spring Data's PageRequest cuts out of a list. */
module Seqs {
  import opened Common

  /** No element occurs twice. */
  predicate Distinct<T(==)>(s: seq<T>) {
    forall i, j :: 0 <= i < j < |s| ==> s[i] != s[j]
  }

  /** The elements of s in the opposite order (java.util.Collections.reverse). */
  function Reverse<T>(s: seq<T>): (r: seq<T>)
    ensures |r| == |s|
    ensures forall i :: 0 <= i < |s| ==> r[i] == s[|s| - 1 - i]
  {
    seq(|s|, i requires 0 <= i < |s| => s[|s| - 1 - i])
  }

  lemma ReverseInvolutive<T>(s: seq<T>)
    ensures Reverse(Reverse(s)) == s
  {
    assert forall i :: 0 <= i < |s| ==> Reverse(Reverse(s))[i] == s[i];
  }

  /** Reversing fewer than two elements changes nothing. */
  lemma ShortReverse<T>(s: seq<T>)
    requires |s| < 2
    ensures Reverse(s) == s
  {
  }

  /** A window read from `off` onwards in `s`, reversed, reads the same
      window from its far end. */
  lemma ReversedWindow<T>(w: seq<T>, s: seq<T>, off: nat)
    requires forall i :: 0 <= i < |w| ==> off + i < |s| && w[i] == s[off + i]
    ensures |w| > 0 ==> off + |w| <= |s|
    ensures forall i :: 0 <= i < |w| ==> Reverse(w)[i] == s[off + |w| - 1 - i]
  {
    if |w| > 0 {
      var last := w[|w| - 1];
      assert off + |w| - 1 < |s|;
    }
    forall i | 0 <= i < |w|
      ensures Reverse(w)[i] == s[off + |w| - 1 - i]
    {
      assert Reverse(w)[i] == w[|w| - 1 - i];
    }
  }

  /** `p` is the window of `s` that starts at `off` and holds up to
      `size` elements, in reverse order: as long as the window, empty past
      the end of `s`, and its i-th element is the window's i-th from last. */
  ghost predicate IsReversedPage<T>(p: seq<T>, s: seq<T>, off: nat, size: nat) {
    && |p| <= size
    && (off >= |s| ==> |p| == 0)
    && (off < |s| ==> |p| == Min(size, |s| - off))
    && (|p| > 0 ==> off + |p| <= |s|)
    && forall i :: 0 <= i < |p| ==> p[i] == s[off + |p| - 1 - i]
  }

  lemma ReverseKeepsElements<T>(s: seq<T>)
    ensures forall x :: x in Reverse(s) <==> x in s
  {
    forall x
      ensures x in Reverse(s) <==> x in s
    {
      if x in s {
        var i :| 0 <= i < |s| && s[i] == x;
        assert Reverse(s)[|s| - 1 - i] == x;
      }
    }
  }

  lemma ReverseKeepsDistinct<T>(s: seq<T>)
    requires Distinct(s)
    ensures Distinct(Reverse(s))
  {
  }

  /** Offset of page number `page` when pages hold `size` elements
      (Spring's PageRequest.getOffset). The product of two ints always fits
      the 64-bit long it is computed in; the query layer, which needs it as
      an int, is where a large offset is refused. */
  function Offset(page: nat, size: nat): nat {
    page * size
  }

  /** Elements [page*size, page*size + size) of s, clipped to s. */
  function Page<T>(s: seq<T>, page: nat, size: nat): (r: seq<T>)
    ensures |r| <= size
    ensures Offset(page, size) >= |s| ==> r == []
    ensures Offset(page, size) < |s| ==> |r| == Min(size, |s| - Offset(page, size))
    ensures forall i :: 0 <= i < |r| ==> Offset(page, size) + i < |s| && r[i] == s[Offset(page, size) + i]
  {
    var lo := Min(Offset(page, size), |s|);
    var hi := Min(Offset(page, size) + size, |s|);
    s[lo..hi]
  }

  /** Position of an element of page `page` inside s. */
  lemma PageIndex<T>(s: seq<T>, page: nat, size: nat, i: nat)
    requires i < |Page(s, page, size)|
    ensures Offset(page, size) + i < Offset(page, size) + size
    ensures Offset(page, size) + i < |s|
  {
  }

  /** Pages 0, 1, ..., k-1 of s, concatenated in page order. */
  function PagesBefore<T>(s: seq<T>, size: nat, k: nat): seq<T>
  {
    if k == 0 then [] else PagesBefore(s, size, k - 1) + Page(s, k - 1, size)
  }

  /** Reading pages 0..k-1 in order yields exactly the first k*size elements. */
  lemma {:induction false} PagesBeforeIsPrefix<T>(s: seq<T>, size: nat, k: nat)
    ensures PagesBefore(s, size, k) == s[..Min(k * size, |s|)]
  {
    if k > 0 {
      PagesBeforeIsPrefix(s, size, k - 1);
      NextOffset(k - 1, size);
      var lo := Min(Offset(k - 1, size), |s|);
      var hi := Min(k * size, |s|);
      assert Page(s, k - 1, size) == s[lo..hi];
      assert s[..lo] + s[lo..hi] == s[..hi];
    }
  }

  /** The next page starts where this one ends. */
  lemma NextOffset(page: nat, size: nat)
    ensures Offset(page, size) + size == (page + 1) * size
  {
  }

  /** Once the pages read cover the whole list, they rebuild it. */
  lemma PagesRebuildSequence<T>(s: seq<T>, size: nat, k: nat)
    requires k * size >= |s|
    ensures PagesBefore(s, size, k) == s
  {
    PagesBeforeIsPrefix(s, size, k);
  }

  /** Different page numbers select disjoint index ranges, so over a list
      without repetitions no element appears on two pages. */
  lemma PagesDisjoint<T>(s: seq<T>, size: nat, p: nat, q: nat)
    requires Distinct(s)
    requires p != q
    ensures forall x :: x in Page(s, p, size) ==> x !in Page(s, q, size)
  {
    forall x | x in Page(s, p, size)
      ensures x !in Page(s, q, size)
    {
      var i :| 0 <= i < |Page(s, p, size)| && Page(s, p, size)[i] == x;
      PageIndex(s, p, size, i);
      forall j | 0 <= j < |Page(s, q, size)|
        ensures Page(s, q, size)[j] != x
      {
        PageIndex(s, q, size, j);
        DistinctRanges(p, q, size, i, j);
      }
    }
  }

  /** Two positions on pages with different numbers are different positions. */
  lemma DistinctRanges(p: nat, q: nat, size: nat, i: nat, j: nat)
    requires p != q && i < size && j < size
    ensures Offset(p, size) + i != Offset(q, size) + j
  {
    if p < q {
      assert (p + 1) * size <= q * size by {
        MulMonotone(p + 1, q, size);
      }
    } else {
      assert (q + 1) * size <= p * size by {
        MulMonotone(q + 1, p, size);
      }
    }
  }

  lemma MulMonotone(a: nat, b: nat, c: nat)
    requires a <= b
    ensures a * c <= b * c
  {
  }

  /** The first page of the reversed list, reversed back, is the last
      `size` elements of the list. */
  lemma ReversedFirstPageIsTail<T>(s: seq<T>, size: nat)
    ensures Reverse(Page(Reverse(s), 0, size)) == s[|s| - Min(size, |s|)..]
  {
    var r := Reverse(s);
    var k := Min(size, |s|);
    FirstPageIsPrefix(r, size);
    ReversedPrefixIsTail(s, k);
  }

  lemma ReversedPrefixIsTail<T>(s: seq<T>, k: nat)
    requires k <= |s|
    ensures Reverse(Reverse(s)[..k]) == s[|s| - k..]
  {
    var r := Reverse(s);
    var q := Reverse(r[..k]);
    var t := s[|s| - k..];
    forall i | 0 <= i < k
      ensures q[i] == t[i]
    {
      assert q[i] == r[..k][k - 1 - i];
    }
  }

  /** The first page of size n is the n first elements. */
  lemma FirstPageIsPrefix<T>(s: seq<T>, size: nat)
    ensures Page(s, 0, size) == s[..Min(size, |s|)]
  {
  }
}
