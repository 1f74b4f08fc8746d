/** The text the extension writes into a commit message: the block of
    "Co-authored-by" trailer lines built from the selected identities
    (`getPairingString`), and the splice that `Repo.addCoauthorString`
    performs on the message text. */
module Trailers {
  import opened Seqs
  import opened Strings

  /** Every trailer line starts with this; there is no colon after "by". */
  const TrailerPrefix: string := "Co-authored-by "

  /** One trailer line per identity, in the order given. */
  function TrailerLines(ids: seq<string>): (r: seq<string>)
    ensures |r| == |ids|
    ensures forall k :: 0 <= k < |r| ==> r[k] == TrailerPrefix + ids[k]
  {
    seq(|ids|, k requires 0 <= k < |ids| => TrailerPrefix + ids[k])
  }

  /** `getPairingString`: the trailer lines of the selected identities, in
      insertion order, joined by newlines. It is empty exactly when nothing
      is selected. */
  function PairingString(ids: seq<string>): (r: string)
    ensures r == "" <==> ids == []
  {
    var lines := TrailerLines(ids);
    JoinStartsWithFirst(lines, '\n');
    Join(lines, '\n')
  }

  /** As long as no identity contains a newline, the trailer block has exactly
      one line per selected identity, each the prefix followed by the
      identity. */
  lemma PairingStringLines(ids: seq<string>)
    requires |ids| >= 1
    requires forall k :: 0 <= k < |ids| ==> '\n' !in ids[k]
    ensures |Split(PairingString(ids), '\n')| == |ids|
    ensures forall k :: 0 <= k < |ids| ==>
      Split(PairingString(ids), '\n')[k] == TrailerPrefix + ids[k]
  {
    var lines := TrailerLines(ids);
    forall k | 0 <= k < |lines|
      ensures '\n' !in lines[k]
    {
      assert lines[k] == TrailerPrefix + ids[k];
    }
    SplitJoin(lines, '\n');
  }

  /** What `addCoauthorString(v)` remembers and appends: v after a blank line. */
  function Block(v: string): string
  {
    "\n\n" + v
  }

  /** The message text after `addCoauthorString(v)`, given the text before
      and the block written by the previous call ("" before the first call). */
  function Splice(text: string, previous: string, v: string): string
  {
    RemoveFirst(text, previous) + Block(v)
  }

  /** The splice always ends with the new block, and everything in front of
      the first occurrence of the previous block is kept. When the previous
      block does not occur the new block is just appended. */
  lemma SpliceKeepsPrefix(text: string, previous: string, v: string)
    ensures |Splice(text, previous, v)| >= |Block(v)|
    ensures Splice(text, previous, v)[|Splice(text, previous, v)| - |Block(v)|..] == Block(v)
    ensures IndexOf(text, previous).None? ==> Splice(text, previous, v) == text + Block(v)
    ensures IndexOf(text, previous).Some? ==>
      var i := IndexOf(text, previous).value;
      Splice(text, previous, v)[..i] == text[..i] &&
      |Splice(text, previous, v)| == |text| - |previous| + |Block(v)|
  {
  }

  /** Before the first call the remembered block is empty, and removing the
      empty string removes nothing. */
  lemma SpliceFirstCall(text: string, v: string)
    ensures Splice(text, "", v) == text + Block(v)
  {
    assert OccursAt(text, "", 0);
    assert text[..0] + text[0..] == text;
  }

  /** When the remembered block occurs only at the end of the text, the
      splice replaces exactly that trailing block by the new one. */
  lemma SpliceReplacesTrailing(body: string, v: string, w: string)
    requires forall j :: OccursAt(body + Block(v), Block(v), j) ==> j == |body|
    ensures Splice(body + Block(v), Block(v), w) == body + Block(w)
  {
    var t := body + Block(v);
    assert t[|body|..|body| + |Block(v)|] == Block(v);
    assert OccursAt(t, Block(v), |body|);
    assert IndexOf(t, Block(v)) == Some(|body|);
    assert t[..|body|] == body;
    assert t[|body| + |Block(v)|..] == "";
  }

  /** Repeating `addCoauthorString` with the same block changes nothing when
      that block occurs only at the end: no duplicate block accumulates. */
  lemma SpliceRepeat(text: string, previous: string, v: string)
    requires forall j :: OccursAt(Splice(text, previous, v), Block(v), j) ==>
      j == |Splice(text, previous, v)| - |Block(v)|
    ensures Splice(Splice(text, previous, v), Block(v), v) == Splice(text, previous, v)
  {
    var body := RemoveFirst(text, previous);
    assert Splice(text, previous, v) == body + Block(v);
    SpliceReplacesTrailing(body, v, v);
  }

  /** The splice removes the FIRST occurrence of the previous block, not the
      trailing one: a message that already contained the block text further
      up loses that earlier copy and ends with two blocks. */
  lemma SpliceRemovesEarlierCopy()
    ensures Splice("\n\nX", "", "X") == "\n\nX\n\nX"
    ensures Splice("\n\nXY\n\nX", Block("X"), "X") == "Y\n\nX\n\nX"
  {
    SpliceFirstCall("\n\nX", "X");
    var t := "\n\nXY\n\nX";
    assert t[0..3] == Block("X");
    assert OccursAt(t, Block("X"), 0);
    assert t[..0] + t[3..] == "Y\n\nX";
  }
}
