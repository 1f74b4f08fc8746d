/** The candidate co-authors offered by `_getBuddies` and `_pickBuddy`:
    the lines of `git log --pretty="%an <%ae>"`, filtered for duplicates, then
    shown selected-first with the selected ones marked, and unmarked again
    when one is picked. */
module Candidates {
  import opened Seqs
  import opened Strings

  /** The mark put in front of the label of an already selected candidate. */
  const SelectedChar: char := '\U{2713}'

  /** `lines.indexOf(x)` on an array of lines: the first index holding x, or
      -1 when x does not occur. */
  function LineIndex(lines: seq<string>, x: string): (r: int)
    ensures -1 <= r
    ensures r == -1 <==> x !in lines
    ensures 0 <= r ==> r < |lines| && lines[r] == x && x !in lines[..r]
  {
    if |lines| == 0 then -1
    else if lines[0] == x then 0
    else
      var k := LineIndex(lines[1..], x);
      if k == -1 then -1
      else
        assert lines[..k + 1] == [lines[0]] + lines[1..][..k];
        k + 1
  }

  /** The filter callback of `_getBuddies`: a line is kept when it is empty or
      when it is the first occurrence of that line. */
  predicate KeepLine(lines: seq<string>, i: nat)
    requires i < |lines|
  {
    |lines[i]| == 0 || LineIndex(lines, lines[i]) == i
  }

  /** `indexOf(line) === index` holds exactly at a line's first occurrence. */
  lemma KeepLineFirstOccurrence(lines: seq<string>, i: nat)
    requires i < |lines|
    ensures KeepLine(lines, i) <==> |lines[i]| == 0 || lines[i] !in lines[..i]
  {
    var x, k := lines[i], LineIndex(lines, lines[i]);
    if x !in lines[..i] {
      assert k >= 0;
    }
  }

  /** `lines.filter(KeepLine)` restricted to the indices from i on. */
  function FilterFrom(lines: seq<string>, i: nat): seq<string>
    requires i <= |lines|
    decreases |lines| - i
  {
    if i == |lines| then []
    else (if KeepLine(lines, i) then [lines[i]] else []) + FilterFrom(lines, i + 1)
  }

  /** The candidate list `_getBuddies` hands to `_pickBuddy` for git log's
      standard output. */
  function CandidateList(stdout: string): seq<string>
  {
    FilterFrom(Split(stdout, '\n'), 0)
  }

  /** Reference definition of the filter: walk the lines once, remembering the
      lines already seen; keep empty lines always and other lines when unseen. */
  function Dedup(lines: seq<string>, seen: set<string>): seq<string>
  {
    if |lines| == 0 then []
    else
      var rest := Dedup(lines[1..], seen + {lines[0]});
      if |lines[0]| == 0 || lines[0] !in seen then [lines[0]] + rest else rest
  }

  /** The reference filter keeps exactly the lines not seen before (and every
      empty line), and no non-empty line twice. */
  lemma {:induction false} DedupMembers(lines: seq<string>, seen: set<string>)
    ensures var r := Dedup(lines, seen);
      (forall x :: x in r <==> x in lines && (|x| == 0 || x !in seen)) &&
      (forall i, j :: 0 <= i < j < |r| && r[i] == r[j] ==> |r[i]| == 0)
  {
    if |lines| > 0 {
      var x := lines[0];
      DedupMembers(lines[1..], seen + {x});
      assert lines == [x] + lines[1..];
      var rest := Dedup(lines[1..], seen + {x});
      if |x| == 0 || x !in seen {
        var r := [x] + rest;
        assert r[1..] == rest;
        forall i, j | 0 <= i < j < |r| && r[i] == r[j]
          ensures |r[i]| == 0
        {
          if i == 0 { assert r[j] in rest; }
          else { assert r[i] == rest[i - 1] && r[j] == rest[j - 1]; }
        }
      }
    }
  }

  /** The reference filter keeps the order of the lines and the number of
      empty lines. */
  lemma {:induction false} DedupOrder(lines: seq<string>, seen: set<string>)
    ensures multiset(Dedup(lines, seen))[""] == multiset(lines)[""]
    ensures IsSubseq(Dedup(lines, seen), lines)
  {
    if |lines| > 0 {
      var x := lines[0];
      DedupOrder(lines[1..], seen + {x});
      assert lines == [x] + lines[1..];
      var rest := Dedup(lines[1..], seen + {x});
      if |x| == 0 || x !in seen {
        assert ([x] + rest)[1..] == rest;
      } else {
        SubseqOfTail(rest, lines);
      }
    }
  }

  /** The filter as written (`line.length === 0 || self.indexOf(line) === index`)
      computes the reference definition, with the lines before the current
      index as the lines already seen. */
  lemma {:induction false} FilterFromIsDedup(lines: seq<string>, i: nat)
    requires i <= |lines|
    ensures FilterFrom(lines, i) == Dedup(lines[i..], Elems(lines[..i]))
    decreases |lines| - i
  {
    if i < |lines| {
      var x, seen := lines[i], Elems(lines[..i]);
      FilterFromIsDedup(lines, i + 1);
      ElemsAppend(lines[..i], x);
      assert lines[..i] + [x] == lines[..i + 1];
      assert lines[i..][1..] == lines[i + 1..];
      KeepLineFirstOccurrence(lines, i);
      assert KeepLine(lines, i) <==> |x| == 0 || x !in seen;
    }
  }

  /** What `_getBuddies` hands on: every empty line of the output is kept
      (the comment at the filter says they are dropped, the code keeps them),
      every other line exactly once, in the order of its first occurrence,
      and no line contains a newline. */
  lemma CandidateListFacts(stdout: string)
    ensures var lines, c := Split(stdout, '\n'), CandidateList(stdout);
      IsSubseq(c, lines) &&
      (forall x :: x in c <==> x in lines) &&
      (forall i, j :: 0 <= i < j < |c| && c[i] == c[j] ==> |c[i]| == 0) &&
      multiset(c)[""] == multiset(lines)[""] &&
      (forall x :: x in c ==> '\n' !in x)
  {
    var lines := Split(stdout, '\n');
    FilterFromIsDedup(lines, 0);
    assert lines[0..] == lines;
    assert Elems(lines[..0]) == {};
    DedupMembers(lines, {});
    DedupOrder(lines, {});
  }

  /** The label of a candidate: marked when it is selected. */
  function Label(c: string, selected: seq<string>): string
  {
    if c in selected then [SelectedChar] + c else c
  }

  /** The order in which `_pickBuddy` offers the candidates: selected ones
      first. The comparator in the code is not a consistent ordering, so the
      model takes the intended stable partition. */
  function Offered(cands: seq<string>, selected: seq<string>): seq<string>
  {
    SelectedFirst(cands, c => c in selected)
  }

  /** The quick-pick labels of `_pickBuddy`: a permutation of the candidates
      in which every selected candidate comes before every unselected one, and
      exactly the selected ones carry the mark. */
  function Labels(cands: seq<string>, selected: seq<string>): (r: seq<string>)
    ensures |r| == |cands|
    ensures forall k :: 0 <= k < |r| ==>
      (Offered(cands, selected)[k] in selected <==> r[k] == [SelectedChar] + Offered(cands, selected)[k])
    ensures forall k :: 0 <= k < |r| && Offered(cands, selected)[k] !in selected ==>
      r[k] == Offered(cands, selected)[k]
    ensures forall i, j :: 0 <= i < j < |r| && Offered(cands, selected)[j] in selected ==>
      Offered(cands, selected)[i] in selected
    ensures multiset(Offered(cands, selected)) == multiset(cands)
  {
    var offered := Offered(cands, selected);
    assert |offered| == |multiset(offered)| == |cands|;
    seq(|offered|, k requires 0 <= k < |offered| => Label(offered[k], selected))
  }

  /** The picked label with one leading mark removed, if it starts with one. */
  function Unmark(shown: string): string
  {
    if |shown| > 0 && shown[0] == SelectedChar then shown[1..] else shown
  }

  /** Removing the mark gives the candidate back, provided an unselected
      candidate does not itself start with the mark. */
  lemma UnmarkLabel(c: string, selected: seq<string>)
    requires c in selected || |c| == 0 || c[0] != SelectedChar
    ensures Unmark(Label(c, selected)) == c
  {
  }

  /** Under the same proviso every label unmarks to a candidate, and the
      unmarked labels are a permutation of the candidates. */
  lemma UnmarkLabels(cands: seq<string>, selected: seq<string>)
    requires forall c :: c in cands ==> c in selected || |c| == 0 || c[0] != SelectedChar
    ensures var r := Labels(cands, selected);
      (forall k :: 0 <= k < |r| ==> Unmark(r[k]) == Offered(cands, selected)[k]) &&
      (forall shown :: shown in r ==> Unmark(shown) in cands)
  {
    var r, offered := Labels(cands, selected), Offered(cands, selected);
    forall k | 0 <= k < |r|
      ensures Unmark(r[k]) == offered[k] && offered[k] in cands
    {
      assert offered[k] in multiset(offered);
      UnmarkLabel(offered[k], selected);
    }
  }

  /** Without the proviso the unmarking goes wrong: an unselected candidate
      that starts with the mark loses it when picked. */
  lemma UnmarkNeedsProviso()
    ensures Unmark(Label([SelectedChar, 'x'], [])) == ['x']
  {
  }
}
