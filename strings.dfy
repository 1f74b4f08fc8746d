/** The JavaScript string operations the extension relies on, on strings as
    sequences of characters: `split` and `join` on a one-character separator,
    `indexOf` of a substring, and `replace` of a literal substring by "". */
module Strings {
  import opened Seqs

  /** `s.split(sep)` for a one-character separator: the pieces between
      separators, so there is always at least one piece and none contains sep. */
  function Split(s: string, sep: char): (r: seq<string>)
    ensures |r| >= 1
    ensures forall k :: 0 <= k < |r| ==> sep !in r[k]
  {
    if |s| == 0 then [""]
    else
      var rest := Split(s[1..], sep);
      if s[0] == sep then [""] + rest
      else
        assert sep !in [s[0]] + rest[0];
        [[s[0]] + rest[0]] + rest[1..]
  }

  /** `xs.join(sep)`: the pieces with one separator between neighbours. */
  function Join(xs: seq<string>, sep: char): string
  {
    if |xs| == 0 then ""
    else if |xs| == 1 then xs[0]
    else xs[0] + [sep] + Join(xs[1..], sep)
  }

  lemma {:induction false} SplitNoSeparator(a: string, sep: char)
    requires sep !in a
    ensures Split(a, sep) == [a]
  {
    if |a| > 0 {
      SplitNoSeparator(a[1..], sep);
      assert [a[0]] + a[1..] == a;
    }
  }

  lemma {:induction false} SplitAfterPiece(a: string, b: string, sep: char)
    requires sep !in a
    ensures Split(a + [sep] + b, sep) == [a] + Split(b, sep)
  {
    var s := a + [sep] + b;
    if |a| == 0 {
      assert s[1..] == b;
    } else {
      assert s[1..] == a[1..] + [sep] + b;
      SplitAfterPiece(a[1..], b, sep);
      assert [a[0]] + a[1..] == a;
    }
  }

  /** Joining pieces that do not contain the separator and splitting again
      gives the pieces back. */
  lemma {:induction false} SplitJoin(xs: seq<string>, sep: char)
    requires |xs| >= 1
    requires forall k :: 0 <= k < |xs| ==> sep !in xs[k]
    ensures Split(Join(xs, sep), sep) == xs
  {
    if |xs| == 1 {
      SplitNoSeparator(xs[0], sep);
    } else {
      SplitJoin(xs[1..], sep);
      SplitAfterPiece(xs[0], Join(xs[1..], sep), sep);
      assert [xs[0]] + xs[1..] == xs;
    }
  }

  /** Splitting a string and joining the pieces with the same separator gives
      the string back. */
  lemma {:induction false} JoinSplit(s: string, sep: char)
    ensures Join(Split(s, sep), sep) == s
  {
    if |s| > 0 {
      var rest := Split(s[1..], sep);
      JoinSplit(s[1..], sep);
      if s[0] == sep {
        assert ([""] + rest)[1..] == rest;
        assert [sep] + s[1..] == s;
      } else {
        var first := [s[0]] + rest[0];
        var pieces := [first] + rest[1..];
        assert pieces[1..] == rest[1..];
        if |rest| > 1 {
          assert Join(rest, sep) == rest[0] + [sep] + Join(rest[1..], sep);
          assert Join(pieces, sep) == first + [sep] + Join(rest[1..], sep);
        }
        assert [s[0]] + s[1..] == s;
      }
    }
  }

  /** The first piece is a prefix of the joined string. */
  lemma JoinStartsWithFirst(xs: seq<string>, sep: char)
    ensures |xs| >= 1 ==> |Join(xs, sep)| >= |xs[0]| && Join(xs, sep)[..|xs[0]|] == xs[0]
  {
  }

  /** p occurs in t starting at index j. */
  predicate OccursAt(t: string, p: string, j: nat)
  {
    j + |p| <= |t| && t[j..j + |p|] == p
  }

  /** `t.indexOf(p, from)`: the first index at or after `from` where p occurs. */
  function FindFrom(t: string, p: string, from: nat): (r: Option<nat>)
    requires from <= |t|
    ensures r.Some? ==> from <= r.value && OccursAt(t, p, r.value)
    ensures r.Some? ==> forall j :: from <= j < r.value ==> !OccursAt(t, p, j)
    ensures r.None? ==> forall j :: from <= j <= |t| ==> !OccursAt(t, p, j)
    decreases |t| - from
  {
    if OccursAt(t, p, from) then Some(from)
    else if from == |t| then None
    else FindFrom(t, p, from + 1)
  }

  /** `t.indexOf(p)`; an empty p is found at index 0, as in JavaScript. */
  function IndexOf(t: string, p: string): Option<nat>
  {
    FindFrom(t, p, 0)
  }

  /** `t.replace(p, '')` with a string pattern: only the first occurrence of
      p is removed; without an occurrence t is returned unchanged. */
  function RemoveFirst(t: string, p: string): string
  {
    match IndexOf(t, p)
    case None => t
    case Some(i) => t[..i] + t[i + |p|..]
  }

  /** Putting p back where `replace` removed it gives the text again. */
  lemma RemoveFirstRestores(t: string, p: string)
    ensures IndexOf(t, p).None? ==> RemoveFirst(t, p) == t
    ensures IndexOf(t, p).Some? ==>
      var i, r := IndexOf(t, p).value, RemoveFirst(t, p);
      i <= |r| && |r| + |p| == |t| && t == r[..i] + p + r[i..]
  {
    if IndexOf(t, p).Some? {
      var i, r := IndexOf(t, p).value, RemoveFirst(t, p);
      assert r[..i] == t[..i] && r[i..] == t[i + |p|..];
      assert t == t[..i] + t[i..i + |p|] + t[i + |p|..];
    }
  }
}
