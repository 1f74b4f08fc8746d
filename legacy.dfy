/** The earlier version of the extension (src/extension.1.ts): co-authors are
    `Buddy` records keyed by their email in a JavaScript Map, the candidates
    are the parsed lines of `git log --pretty="%an <%ae>"` of the first
    repository, and a picked quick-pick label is parsed again into a buddy
    and toggled by its email. */
module Legacy {
  import opened Seqs
  import opened Strings
  import opened Trailers
  import opened Candidates
  import opened BuddyParse

  /** The map after `toggleBuddy(b)`: the entry under b's email is deleted
      when there is one, whatever its name; otherwise b is added under its
      email. No other entry changes. */
  function ToggledMap(m: map<Option<string>, Buddy>, b: Buddy): (r: map<Option<string>, Buddy>)
    ensures b.email in r <==> b.email !in m
    ensures forall e :: e != b.email ==> (e in r <==> e in m)
    ensures forall e :: e in r && e != b.email ==> r[e] == m[e]
    ensures b.email in r ==> r[b.email] == b
  {
    if b.email in m then m - {b.email} else m[b.email := b]
  }

  /** Toggling the same buddy twice restores the set of emails, and restores
      the whole map when the email was absent to begin with. */
  lemma ToggledMapTwice(m: map<Option<string>, Buddy>, b: Buddy)
    ensures ToggledMap(ToggledMap(m, b), b).Keys == m.Keys
    ensures b.email !in m ==> ToggledMap(ToggledMap(m, b), b) == m
  {
  }

  /** `stdout.split('\n').map(parseBuddy).filter(defined)`: the buddies
      that are there. */
  function Defined(xs: seq<Option<Buddy>>): (r: seq<Buddy>)
    ensures |r| <= |xs|
    ensures forall b :: b in r ==> Some(b) in xs
    ensures (forall k :: 0 <= k < |xs| ==> xs[k].Some?) ==>
      |r| == |xs| && forall k :: 0 <= k < |r| ==> r[k] == xs[k].value
  {
    if |xs| == 0 then []
    else
      var rest := Defined(xs[1..]);
      assert forall b :: b in rest ==> Some(b) in xs by {
        forall b | b in rest ensures Some(b) in xs {
          assert Some(b) in xs[1..];
        }
      }
      if xs[0].Some? then [xs[0].value] + rest else rest
  }

  /** The candidates `_getRepos` hands to `_pickBuddy`: every line of the
      output, the empty last one included, since `parseBuddy` never fails;
      so there is always at least one candidate. */
  function CandidateBuddies(stdout: string): (r: seq<Buddy>)
    ensures |r| == |Split(stdout, '\n')| && |r| >= 1
    ensures forall k :: 0 <= k < |r| ==> r[k] == ParseBuddy(Split(stdout, '\n')[k]).value
  {
    var lines := Split(stdout, '\n');
    Defined(seq(|lines|, k requires 0 <= k < |lines| => ParseBuddy(lines[k])))
  }

  /** An empty line of the output becomes the candidate " undefined", which
      parses back into a buddy without an email. */
  lemma EmptyLineCandidate()
    ensures ParseBuddy("") == Some(Buddy("", None))
    ensures ProperString(Buddy("", None)) == " undefined"
    ensures ParseBuddy(" undefined") == Some(Buddy(" undefined", None))
  {
    ParseWithoutAngle("");
    assert forall k :: 0 <= k < 10 ==> " undefined"[k] != '<';
    ParseWithoutAngle(" undefined");
  }

  /** Is b's email among the paired ones? */
  predicate Paired(keys: set<Option<string>>, b: Buddy)
  {
    b.email in keys
  }

  /** The order in which `_pickBuddy` offers the candidates: paired ones
      first. The comparator in the code is not a consistent ordering, so the
      model takes the intended stable partition. */
  function OfferedBuddies(cands: seq<Buddy>, keys: set<Option<string>>): (r: seq<Buddy>)
    ensures |r| == |cands|
  {
    var r := SelectedFirst(cands, b => Paired(keys, b));
    assert |r| == |multiset(r)| == |cands|;
    r
  }

  /** The label of a candidate: its proper string, marked when paired. */
  function BuddyLabel(b: Buddy, keys: set<Option<string>>): string
  {
    if Paired(keys, b) then [SelectedChar] + ProperString(b) else ProperString(b)
  }

  /** The quick-pick labels of `_pickBuddy`: one per candidate, paired ones
      first, and exactly the paired ones carry the mark. */
  function BuddyLabels(cands: seq<Buddy>, keys: set<Option<string>>): (r: seq<string>)
    ensures |r| == |cands|
    ensures multiset(OfferedBuddies(cands, keys)) == multiset(cands)
    ensures forall k :: 0 <= k < |r| ==>
      (Paired(keys, OfferedBuddies(cands, keys)[k]) <==>
       r[k] == [SelectedChar] + ProperString(OfferedBuddies(cands, keys)[k]))
    ensures forall k :: 0 <= k < |r| && !Paired(keys, OfferedBuddies(cands, keys)[k]) ==>
      r[k] == ProperString(OfferedBuddies(cands, keys)[k])
    ensures forall i, j :: 0 <= i < j < |r| && Paired(keys, OfferedBuddies(cands, keys)[j]) ==>
      Paired(keys, OfferedBuddies(cands, keys)[i])
  {
    var offered := OfferedBuddies(cands, keys);
    seq(|offered|, k requires 0 <= k < |offered| => BuddyLabel(offered[k], keys))
  }

  /** A candidate as git prints it: a name without '<', and either a
      well-formed email or, for a line without one, no email. */
  ghost predicate GitShaped(b: Buddy)
  {
    '<' !in b.name &&
    (b.email.None? ||
     exists local, domain :: PlainPart(local) && PlainPart(domain) && b.email == Some(Email(local, domain)))
  }

  /** Parsing a candidate's label again gives back its email. The name comes
      back with the mark, if any, in front and, behind it, the separating
      space or, for a candidate without an email, " undefined". */
  lemma LabelParsesBack(b: Buddy, keys: set<Option<string>>)
    requires GitShaped(b)
    ensures ParseBuddy(BuddyLabel(b, keys)).value.email == b.email
    ensures b.email.Some? ==>
      ParseBuddy(BuddyLabel(b, keys)).value.name == (if Paired(keys, b) then [SelectedChar] else []) + b.name + " "
    ensures b.email.None? ==>
      ParseBuddy(BuddyLabel(b, keys)).value.name == (if Paired(keys, b) then [SelectedChar] else []) + b.name + " undefined"
  {
    var mark: string := if Paired(keys, b) then [SelectedChar] else [];
    var shown := BuddyLabel(b, keys);
    match b.email
    case None =>
      assert shown == mark + b.name + " " + "undefined";
      forall k | 0 <= k < |shown|
        ensures shown[k] != '<'
      {
        if |mark| <= k < |mark| + |b.name| {
          assert shown[k] == b.name[k - |mark|];
        }
      }
      ParseWithoutAngle(shown);
      assert shown == mark + b.name + " undefined";
    case Some(m) =>
      var local, domain :| PlainPart(local) && PlainPart(domain) && m == Email(local, domain);
      var n := mark + b.name + " ";
      forall k | 0 <= k < |n|
        ensures n[k] != '<'
      {
        if |mark| <= k < |mark| + |b.name| {
          assert n[k] == b.name[k - |mark|];
        }
      }
      assert shown == n + Email(local, domain);
      ParseWellFormed(n, local, domain);
  }

  /** Picking the label of a git-shaped candidate toggles exactly that
      candidate's email: a marked one is unpaired, an unmarked one paired. */
  lemma PickTogglesCandidate(m: map<Option<string>, Buddy>, cands: seq<Buddy>, k: nat)
    requires k < |cands| && GitShaped(OfferedBuddies(cands, m.Keys)[k])
    ensures var c := OfferedBuddies(cands, m.Keys)[k];
      ToggledMap(m, ParseBuddy(BuddyLabels(cands, m.Keys)[k]).value).Keys ==
        if c.email in m then m.Keys - {c.email} else m.Keys + {c.email}
  {
    var c := OfferedBuddies(cands, m.Keys)[k];
    LabelParsesBack(c, m.Keys);
    assert BuddyLabels(cands, m.Keys)[k] == BuddyLabel(c, m.Keys);
  }

  /** The proper strings of the paired buddies, in insertion order. */
  function ProperStrings(bs: seq<Buddy>): (r: seq<string>)
    ensures |r| == |bs|
    ensures forall k :: 0 <= k < |r| ==> r[k] == ProperString(bs[k])
  {
    seq(|bs|, k requires 0 <= k < |bs| => ProperString(bs[k]))
  }

  /** The spaces `toProperString` puts around a name, as string identities. */
  lemma NameWithSpaces(n: string, e: string)
    ensures n + " " + " " + e == n + "  " + e
    ensures n + "  " + " " + e == n + "   " + e
    ensures '<' !in n ==> '<' !in n + "  "
  {
    assert n + " " + " " == n + "  ";
    assert n + "  " + " " == n + "   ";
    assert forall k :: 0 <= k < |n| + 2 ==> (n + "  ")[k] == (if k < |n| then n[k] else ' ');
  }

  /** A buddy picked from the unmarked label of a git line keeps that
      line's email, but its name carries the space of the git line and the
      one `toProperString` added, so its own proper string, which the
      trailer line shows, has three spaces before the email. */
  lemma PickedProperString(n: string, local: string, domain: string)
    requires '<' !in n && PlainPart(local) && PlainPart(domain)
    ensures var picked := ParseBuddy(BuddyLabel(Buddy(n + " ", Some(Email(local, domain))), {})).value;
      picked.email == Some(Email(local, domain)) &&
      ProperString(picked) == n + "   " + Email(local, domain)
  {
    NameWithSpaces(n, Email(local, domain));
    ParseWellFormed(n + "  ", local, domain);
  }

  /** A line without a newline parses into a buddy whose proper string has
      none either: the name and the email are pieces of the line, and an
      absent email is rendered as "undefined". */
  lemma ParseLineFree(raw: string)
    requires '\n' !in raw
    ensures '\n' !in ProperString(ParseBuddy(raw).value)
  {
    var b := ParseBuddy(raw).value;
    assert '\n' !in b.name by {
      forall k | 0 <= k < |b.name| ensures b.name[k] != '\n' {
        assert b.name[k] == raw[k];
      }
    }
    match b.email
    case None =>
      assert ProperString(b) == b.name + " " + "undefined";
    case Some(m) =>
      assert '\n' !in m by {
        forall k | 0 <= k < |m| ensures m[k] != '\n' {
          assert m[k] == raw[|b.name| + k];
        }
      }
      assert ProperString(b) == b.name + " " + m;
  }

  /** Every candidate built from git's output has a newline-free proper
      string, since each is parsed from one piece of `split('\n')`. */
  lemma CandidatesLineFree(stdout: string)
    ensures forall b :: b in CandidateBuddies(stdout) ==> '\n' !in ProperString(b)
  {
    var cands, lines := CandidateBuddies(stdout), Split(stdout, '\n');
    forall b | b in cands ensures '\n' !in ProperString(b) {
      var k :| 0 <= k < |cands| && cands[k] == b;
      ParseLineFree(lines[k]);
    }
  }

  /** The buddy parsed again from a picked label is newline-free when every
      candidate is. */
  lemma PickedLineFree(cands: seq<Buddy>, keys: set<Option<string>>, who: string)
    requires forall c :: c in cands ==> '\n' !in ProperString(c)
    requires who in BuddyLabels(cands, keys)
    ensures '\n' !in ProperString(ParseBuddy(who).value)
  {
    var labels, offered := BuddyLabels(cands, keys), OfferedBuddies(cands, keys);
    var k :| 0 <= k < |labels| && labels[k] == who;
    var c := offered[k];
    assert c in multiset(offered);
    assert c in cands;
    assert who == BuddyLabel(c, keys);
    assert '\n' !in who;
    ParseLineFree(who);
  }

  class CoAuthoring {
    var pairing: bool
    /** The emails of the paired buddies, in insertion order (the key order
        of the Map). */
    var emails: seq<Option<string>>
    var pairingWith: map<Option<string>, Buddy>

    /** The order lists each key once, and every buddy sits under its own
        email. */
    ghost predicate Valid()
      reads this
    {
      Distinct(emails)
      && (forall e :: e in emails <==> e in pairingWith)
      && (forall e :: e in pairingWith ==> pairingWith[e].email == e)
    }

    /** The paired buddies in insertion order. */
    function Buddies(): (r: seq<Buddy>)
      reads this
      requires Valid()
      ensures |r| == |emails|
      ensures forall k :: 0 <= k < |r| ==> r[k].email == emails[k]
      ensures forall k :: 0 <= k < |r| ==> r[k] == pairingWith[emails[k]]
    {
      seq(|emails|, k requires 0 <= k < |emails| && emails[k] in pairingWith reads this =>
        pairingWith[emails[k]])
    }

    /** `getPairingString`: a trailer line per paired buddy, in insertion
        order; empty exactly when nobody is paired. */
    function PairingString(): (r: string)
      reads this
      requires Valid()
      ensures r == "" <==> pairingWith == map[]
    {
      var bs := Buddies();
      assert pairingWith == map[] <==> emails == [] by {
        if emails != [] { assert emails[0] in pairingWith; }
      }
      Trailers.PairingString(ProperStrings(bs))
    }

    /** No paired buddy's proper string holds a newline. */
    ghost predicate LineFree()
      reads this
    {
      forall e :: e in pairingWith ==> '\n' !in ProperString(pairingWith[e])
    }

    /** When somebody is paired and no proper string holds a newline, the
        block has one line per paired buddy, in insertion order, each
        `Co-authored-by ` followed by the buddy's name, a space and its
        email. */
    lemma PairingStringLines()
      requires Valid() && LineFree() && |emails| >= 1
      ensures |Split(PairingString(), '\n')| == |emails|
      ensures forall k :: 0 <= k < |emails| ==>
        Split(PairingString(), '\n')[k] == TrailerPrefix + ProperString(pairingWith[emails[k]])
    {
      Trailers.PairingStringLines(ProperStrings(Buddies()));
    }

    constructor ()
      ensures Valid()
      ensures !pairing && emails == [] && pairingWith == map[]
    {
      pairing, emails, pairingWith := false, [], map[];
    }

    /** `isPairing`. */
    method IsPairing() returns (r: bool)
      ensures r == pairing
    {
      r := pairing;
    }

    /** `stopPairing` clears the flag only; the paired buddies stay. */
    method StopPairing()
      modifies this
      ensures !pairing
      ensures emails == old(emails) && pairingWith == old(pairingWith)
    {
      pairing := false;
    }

    /** `toggleBuddy`: deletes the entry under the partner's email, or adds
        the partner under it; an added entry goes last in the order. */
    method ToggleBuddy(partner: Buddy)
      requires Valid()
      modifies this
      ensures Valid()
      ensures pairing == old(pairing)
      ensures emails == Toggled(old(emails), partner.email)
      ensures pairingWith == ToggledMap(old(pairingWith), partner)
    {
      if partner.email in pairingWith {
        pairingWith := pairingWith - {partner.email};
        emails := Without(emails, partner.email);
      } else {
        pairingWith := pairingWith[partner.email := partner];
        emails := emails + [partner.email];
      }
    }

    /** `_pickBuddy` with the user's pick as a parameter: nothing for no
        candidates or a cancelled pick; otherwise the picked label is parsed
        again and that buddy toggled. */
    method PickBuddy(cands: seq<Buddy>, who: Option<string>)
      requires Valid()
      requires who.Some? ==> who.value in BuddyLabels(cands, pairingWith.Keys)
      modifies this
      ensures Valid()
      ensures pairing == old(pairing)
      ensures |cands| == 0 || who.None? ==>
        emails == old(emails) && pairingWith == old(pairingWith)
      ensures |cands| > 0 && who.Some? ==>
        var b := ParseBuddy(who.value).value;
        emails == Toggled(old(emails), b.email) && pairingWith == ToggledMap(old(pairingWith), b)
    ensures (forall c :: c in cands ==> '\n' !in ProperString(c)) && old(LineFree()) ==> LineFree()
    {
      if |cands| == 0 {
        return;
      }
      if who.Some? {
        var buddy := ParseBuddy(who.value);
        if buddy.Some? {
          if forall c :: c in cands ==> '\n' !in ProperString(c) {
            PickedLineFree(cands, pairingWith.Keys, who.value);
          }
          ToggleBuddy(buddy.value);
        }
      }
    }

    /** `_getRepos` with the repository roots and git log's standard output
        as parameters: nothing without a repository, otherwise the parsed
        lines go to the picker. */
    method GetRepos(repos: seq<string>, stdout: string, who: Option<string>)
      requires Valid()
      requires who.Some? ==> who.value in BuddyLabels(CandidateBuddies(stdout), pairingWith.Keys)
      modifies this
      ensures Valid()
      ensures pairing == old(pairing)
      ensures |repos| == 0 || who.None? ==>
        emails == old(emails) && pairingWith == old(pairingWith)
      ensures |repos| > 0 && who.Some? ==>
        var b := ParseBuddy(who.value).value;
        emails == Toggled(old(emails), b.email) && pairingWith == ToggledMap(old(pairingWith), b)
    ensures old(LineFree()) ==> LineFree()
    {
      if |repos| > 0 {
        CandidatesLineFree(stdout);
        PickBuddy(CandidateBuddies(stdout), who);
      }
    }

    /** `startPairing`: sets the flag, then offers the candidates of the
        first repository. */
    method StartPairing(repos: seq<string>, stdout: string, who: Option<string>)
      requires Valid()
      requires who.Some? ==> who.value in BuddyLabels(CandidateBuddies(stdout), pairingWith.Keys)
      modifies this
      ensures Valid()
      ensures pairing
      ensures |repos| == 0 || who.None? ==>
        emails == old(emails) && pairingWith == old(pairingWith)
      ensures |repos| > 0 && who.Some? ==>
        var b := ParseBuddy(who.value).value;
        emails == Toggled(old(emails), b.email) && pairingWith == ToggledMap(old(pairingWith), b)
    ensures old(LineFree()) ==> LineFree()
    {
      pairing := true;
      GetRepos(repos, stdout, who);
    }
  }
}
