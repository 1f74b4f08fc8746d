/** The buddy record of the earlier version of the extension and its parser:
    `parseBuddy` splits a line on the regular expression /(<.+@.+>)/ and
    takes the text before the first match as the name and the match as the
    email. The matcher below follows JavaScript's semantics for that one
    expression: the leftmost start, then greedy backtracking, where `.`
    matches any character but a line terminator. */
module BuddyParse {
  import opened Seqs

  /** A co-author of the earlier version; an email that the regular
      expression did not find is absent (`undefined`). */
  datatype Buddy = Buddy(name: string, email: Option<string>)

  /** `toProperString`: the name, a space, the email; an absent email is
      rendered by the template literal as "undefined". */
  function ProperString(b: Buddy): string
  {
    b.name + " " + (match b.email case None => "undefined" case Some(e) => e)
  }

  /** The characters `.` does not match in a JavaScript regular expression. */
  predicate IsLineTerminator(c: char)
  {
    c == '\n' || c == '\r' || c == '\U{2028}' || c == '\U{2029}'
  }

  /** s[i..e] is a match of <.+@.+> : a '<', at least one character, an '@',
      at least one character and a '>', with no line terminator inside. */
  ghost predicate MatchesAt(s: string, i: nat, e: nat)
  {
    i + 5 <= e <= |s| && s[i] == '<' && s[e - 1] == '>'
    && (exists a :: i + 2 <= a <= e - 3 && s[a] == '@')
    && (forall k :: i < k < e - 1 ==> !IsLineTerminator(s[k]))
  }

  /** The end of the run of non-terminator characters that starts at i. */
  function LineEnd(s: string, i: nat): (r: nat)
    requires i <= |s|
    ensures i <= r <= |s|
    ensures forall k :: i <= k < r ==> !IsLineTerminator(s[k])
    ensures r < |s| ==> IsLineTerminator(s[r])
    decreases |s| - i
  {
    if i == |s| || IsLineTerminator(s[i]) then i else LineEnd(s, i + 1)
  }

  /** The last index in [lo, hi) that holds c. */
  function LastIndexIn(s: string, c: char, lo: nat, hi: nat): (r: Option<nat>)
    requires lo <= hi <= |s|
    ensures r.Some? ==> lo <= r.value < hi && s[r.value] == c
    ensures r.Some? ==> forall k :: r.value < k < hi ==> s[k] != c
    ensures r.None? ==> forall k :: lo <= k < hi ==> s[k] != c
    decreases hi - lo
  {
    if lo == hi then None
    else if s[hi - 1] == c then Some(hi - 1)
    else LastIndexIn(s, c, lo, hi - 1)
  }

  /** The end of the match of <.+@.+> that the backtracking matcher finds
      starting exactly at i. The first `.+` grabs the rest of the line and
      gives characters back until an '@' is followed by some '>' further on,
      and the second `.+` then reaches the last '>' of the line; so the match
      found is the longest one at i, and there is none when no match at i
      exists. */
  function MatchAt(s: string, i: nat): (r: Option<nat>)
    requires i < |s|
    ensures r.Some? ==> MatchesAt(s, i, r.value)
    ensures r.Some? ==> forall e: nat :: MatchesAt(s, i, e) ==> e <= r.value
    ensures r.None? ==> forall e: nat :: !MatchesAt(s, i, e)
  {
    if s[i] != '<' then None
    else
      var end := LineEnd(s, i + 1);
      assert forall e: nat :: MatchesAt(s, i, e) ==> e <= end;
      if end < i + 4 then None
      else
        match LastIndexIn(s, '>', i + 4, end)
        case None => None
        case Some(g) =>
          match LastIndexIn(s, '@', i + 2, g - 1)
          case None => None
          case Some(a) =>
            assert MatchesAt(s, i, g + 1);
            Some(g + 1)
  }

  /** The first (leftmost) start at or after `from` where a match exists, with
      the end of that match. */
  function FirstMatch(s: string, from: nat): (r: Option<(nat, nat)>)
    requires from <= |s|
    ensures r.Some? ==> from <= r.value.0 < |s| && MatchAt(s, r.value.0) == Some(r.value.1)
    ensures r.Some? ==> forall j :: from <= j < r.value.0 ==> MatchAt(s, j).None?
    ensures r.None? ==> forall j :: from <= j < |s| ==> MatchAt(s, j).None?
    decreases |s| - from
  {
    if from == |s| then None
    else match MatchAt(s, from)
      case Some(e) => Some((from, e))
      case None => FirstMatch(s, from + 1)
  }

  /** `parseBuddy`: `split` never yields null, so a buddy is always returned.
      With a match the name is everything before it and the email is the
      matched text; without one the name is the whole line and the email is
      absent. */
  function ParseBuddy(raw: string): (r: Option<Buddy>)
    ensures r.Some?
    ensures r.value.email.None? ==> r.value.name == raw
    ensures r.value.email.None? ==> forall j: nat, e: nat :: j < |raw| ==> !MatchesAt(raw, j, e)
    ensures r.value.email.Some? ==>
      var n, m := r.value.name, r.value.email.value;
      |n| + |m| <= |raw| && raw[..|n|] == n && raw[|n|..|n| + |m|] == m &&
      MatchesAt(raw, |n|, |n| + |m|)
    ensures r.value.email.Some? ==>
      forall j: nat, e: nat :: j < |r.value.name| ==> !MatchesAt(raw, j, e)
    ensures r.value.email.Some? ==>
      forall e: nat :: MatchesAt(raw, |r.value.name|, e) ==> e <= |r.value.name| + |r.value.email.value|
  {
    match FirstMatch(raw, 0)
    case None =>
      assert forall j: nat, e: nat :: j < |raw| ==> !MatchesAt(raw, j, e) by {
        forall j: nat, e: nat | j < |raw| ensures !MatchesAt(raw, j, e) {
          assert MatchAt(raw, j).None?;
        }
      }
      Some(Buddy(raw, None))
    case Some((i, e)) =>
      assert forall j: nat, e': nat :: j < i ==> !MatchesAt(raw, j, e') by {
        forall j: nat, e': nat | j < i ensures !MatchesAt(raw, j, e') {
          assert MatchAt(raw, j).None?;
        }
      }
      Some(Buddy(raw[..i], Some(raw[i..e])))
  }

  /** A character allowed in the local part or the domain of a well-formed
      email: no angle bracket, no '@', no line terminator. */
  predicate PlainChar(c: char)
  {
    c != '<' && c != '>' && c != '@' && !IsLineTerminator(c)
  }

  ghost predicate PlainPart(x: string)
  {
    |x| > 0 && forall k :: 0 <= k < |x| ==> PlainChar(x[k])
  }

  /** The email text git prints for `%ae` inside angle brackets. */
  function Email(local: string, domain: string): string
  {
    "<" + local + "@" + domain + ">"
  }

  /** A well-formed email is itself a match of the expression, from its first
      character to its last. */
  lemma EmailMatches(local: string, domain: string)
    requires PlainPart(local) && PlainPart(domain)
    ensures MatchesAt(Email(local, domain), 0, |Email(local, domain)|)
  {
    var m := Email(local, domain);
    var at := 1 + |local|;
    assert m[at] == '@';
    forall k | 0 < k < |m| - 1
      ensures !IsLineTerminator(m[k])
    {
      if k < at { assert m[k] == local[k - 1]; }
      else if k > at { assert m[k] == domain[k - at - 1]; }
    }
  }

  /** A match does not depend on the text in front of it. */
  lemma MatchesAfterPrefix(n: string, m: string)
    requires MatchesAt(m, 0, |m|)
    ensures MatchesAt(n + m, |n|, |n + m|)
  {
    var s := n + m;
    var a :| 2 <= a <= |m| - 3 && m[a] == '@';
    assert s[|n| + a] == '@';
    forall k | |n| < k < |s| - 1
      ensures !IsLineTerminator(s[k])
    {
      assert s[k] == m[k - |n|];
    }
  }

  /** A line whose name has no '<' followed by a well-formed email parses into
      exactly that name and email. */
  lemma ParseWellFormed(n: string, local: string, domain: string)
    requires '<' !in n && PlainPart(local) && PlainPart(domain)
    ensures ParseBuddy(n + Email(local, domain)) == Some(Buddy(n, Some(Email(local, domain))))
  {
    var m := Email(local, domain);
    var raw := n + m;
    EmailMatches(local, domain);
    MatchesAfterPrefix(n, m);
    forall j | 0 <= j < |n|
      ensures MatchAt(raw, j).None?
    {
      assert raw[j] == n[j];
    }
    assert MatchAt(raw, |n|) == Some(|raw|);
    assert raw[..|n|] == n && raw[|n|..|raw|] == m;
  }

  /** A line without '<' has no match: the whole line is the name and the
      email is absent. */
  lemma ParseWithoutAngle(raw: string)
    requires '<' !in raw
    ensures ParseBuddy(raw) == Some(Buddy(raw, None))
  {
    forall j | 0 <= j < |raw|
      ensures MatchAt(raw, j).None?
    {
      assert raw[j] in raw;
    }
  }

  /** git prints "%an <%ae>" with a space before the '<', so the parsed name
      keeps that space and `toProperString` doubles it. */
  lemma ProperStringDoublesSpace(n: string, local: string, domain: string)
    requires '<' !in n && PlainPart(local) && PlainPart(domain)
    ensures ProperString(ParseBuddy(n + " " + Email(local, domain)).value)
      == n + "  " + Email(local, domain)
  {
    var m := Email(local, domain);
    assert '<' !in n + " ";
    ParseWellFormed(n + " ", local, domain);
    assert n + " " + " " + m == n + "  " + m;
  }
}
