/** Generic sequence helpers shared by both versions of the extension:
    an optional value, insertion-ordered sets kept as duplicate-free
    sequences, order-preserving filters and the "selected first" partition. */
module Seqs {

  /** An optional value: JavaScript's `undefined` is `None`. */
  datatype Option<+T> = None | Some(value: T)

  /** No element occurs twice. */
  ghost predicate Distinct<T>(s: seq<T>)
  {
    forall i, j :: 0 <= i < j < |s| ==> s[i] != s[j]
  }

  /** The elements of s, forgetting order. */
  ghost function Elems<T>(s: seq<T>): set<T>
  {
    set x | x in s
  }

  lemma ElemsAppend<T>(s: seq<T>, x: T)
    ensures Elems(s + [x]) == Elems(s) + {x}
  {
  }

  /** a can be obtained from b by deleting elements (relative order kept). */
  predicate IsSubseq<T(==)>(a: seq<T>, b: seq<T>)
    decreases |b|
  {
    if |a| == 0 then true
    else if |b| == 0 then false
    else if a[0] == b[0] then IsSubseq(a[1..], b[1..])
    else IsSubseq(a, b[1..])
  }

  /** s with x removed and the other elements in their order: `delete` on a
      JavaScript Set or Map, whose iteration order is insertion order. */
  function Without<T(==,!new)>(s: seq<T>, x: T): (r: seq<T>)
    ensures forall y :: y in r <==> y in s && y != x
    ensures x !in s ==> r == s
    ensures Distinct(s) ==> Distinct(r)
    ensures IsSubseq(r, s)
  {
    if |s| == 0 then []
    else if s[0] == x then Without(s[1..], x)
    else
      var rest := Without(s[1..], x);
      assert Distinct(s) ==> s[0] !in s[1..];
      [s[0]] + rest
  }

  /** Toggles x in an insertion-ordered set: deleted when present, otherwise
      added at the end. */
  function Toggled<T(==,!new)>(s: seq<T>, x: T): (r: seq<T>)
    ensures x in r <==> x !in s
    ensures forall y :: y != x ==> (y in r <==> y in s)
    ensures Distinct(s) ==> Distinct(r)
    ensures x in s ==> IsSubseq(r, s)
    ensures x !in s ==> r == s + [x]
  {
    if x in s then Without(s, x) else s + [x]
  }

  lemma {:induction false} WithoutAppended<T(!new)>(s: seq<T>, x: T)
    requires x !in s
    ensures Without(s + [x], x) == s
  {
    if |s| == 0 {
      assert s + [x] == [x];
    } else {
      assert (s + [x])[1..] == s[1..] + [x];
      WithoutAppended(s[1..], x);
    }
  }

  /** Toggling the same element twice restores the membership set; when the
      element was absent it even restores the sequence. When it was present it
      comes back at the end, so the order may differ. */
  lemma ToggledTwice<T(!new)>(s: seq<T>, x: T)
    ensures Elems(Toggled(Toggled(s, x), x)) == Elems(s)
    ensures x !in s ==> Toggled(Toggled(s, x), x) == s
  {
    if x !in s {
      WithoutAppended(s, x);
    }
  }

  /** The elements y of s with p(y) == keep, in their order in s. */
  function Filter<T(==,!new)>(s: seq<T>, p: T -> bool, keep: bool): (r: seq<T>)
    ensures forall y :: y in r <==> y in s && p(y) == keep
    ensures IsSubseq(r, s)
  {
    if |s| == 0 then []
    else
      var rest := Filter(s[1..], p, keep);
      if p(s[0]) == keep then [s[0]] + rest
      else
        SubseqOfTail(rest, s);
        rest
  }

  lemma {:induction false} SubseqOfTail<T>(a: seq<T>, b: seq<T>)
    requires |b| > 0 && IsSubseq(a, b[1..])
    ensures IsSubseq(a, b)
    decreases |b|, 0
  {
    if |a| > 0 && a[0] == b[0] {
      SubseqDropHead(a, b[1..]);
    }
  }

  lemma {:induction false} SubseqDropHead<T>(a: seq<T>, b: seq<T>)
    requires |a| > 0 && IsSubseq(a, b)
    ensures IsSubseq(a[1..], b)
    decreases |b|, 1
  {
    assert |b| > 0;
    if a[0] != b[0] {
      SubseqDropHead(a, b[1..]);
      SubseqOfTail(a[1..], b);
    } else if |a| > 1 {
      SubseqDropHead(a[1..], b[1..]);
      SubseqOfTail(a[1..], b);
    }
  }

  /** Both filters together keep every element exactly once. */
  lemma {:induction false} FilterSplits<T(!new)>(s: seq<T>, p: T -> bool)
    ensures multiset(Filter(s, p, true)) + multiset(Filter(s, p, false)) == multiset(s)
  {
    if |s| > 0 {
      FilterSplits(s[1..], p);
      assert s == [s[0]] + s[1..];
    }
  }

  /** Stable partition: the elements satisfying p, then the others. The result
      is a permutation of s in which no element satisfying p follows one that
      does not. */
  function SelectedFirst<T(==,!new)>(s: seq<T>, p: T -> bool): (r: seq<T>)
    ensures multiset(r) == multiset(s)
    ensures forall i, j :: 0 <= i < j < |r| && p(r[j]) ==> p(r[i])
  {
    var chosen, others := Filter(s, p, true), Filter(s, p, false);
    FilterSplits(s, p);
    assert forall k :: 0 <= k < |chosen| ==> (chosen + others)[k] in chosen;
    assert forall k :: |chosen| <= k < |chosen| + |others| ==> (chosen + others)[k] in others;
    chosen + others
  }
}
