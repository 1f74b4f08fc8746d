/** The state of the extension and its commands: the repositories it has
    registered, the current repository, the set of selected co-authors, and
    the commit message text of each repository. The host's git API, the quick
    pick and `git log` are parameters: the repositories the API reports, the
    picker's answer (`None` when cancelled) and git's standard output. */
module CoAuthor {
  import opened Seqs
  import opened Strings
  import opened Trailers
  import opened Candidates

  /** One entry of the git API's `getRepositories()`: the repository's root
      path and the text in its commit message box at that moment. */
  datatype RepoInfo = RepoInfo(path: string, text: string)

  /** The source reports a repository with path p among its first n entries. */
  ghost predicate InSource(source: seq<RepoInfo>, n: nat, p: string)
  {
    exists k :: 0 <= k < n && k < |source| && source[k].path == p
  }

  /** The message text of the first source entry for p: the entry `_addRepo`
      registers, later entries for the same path being ignored. */
  ghost function FirstText(source: seq<RepoInfo>, p: string): string
    requires InSource(source, |source|, p)
    decreases |source|
  {
    if source[0].path == p then source[0].text
    else
      var k :| 0 <= k < |source| && source[k].path == p;
      assert source[1..][k - 1].path == p;
      FirstText(source[1..], p)
  }

  lemma {:induction false} FirstTextAt(source: seq<RepoInfo>, i: nat)
    requires i < |source|
    requires forall k :: 0 <= k < i ==> source[k].path != source[i].path
    ensures InSource(source, |source|, source[i].path)
    ensures FirstText(source, source[i].path) == source[i].text
  {
    if i > 0 {
      assert source[1..][i - 1] == source[i];
      FirstTextAt(source[1..], i - 1);
    }
  }

  /** The registration order after `_addRepo` of every source entry in turn:
      a path is appended at its first entry unless it is known already. */
  function Registered(order: seq<string>, source: seq<RepoInfo>): seq<string>
    decreases |source|
  {
    if |source| == 0 then order
    else
      var p := source[0].path;
      Registered(if p in order then order else order + [p], source[1..])
  }

  /** The paths reported by a non-empty source are its first path and the
      paths reported by the rest. */
  lemma InSourceTail(source: seq<RepoInfo>, q: string)
    requires |source| > 0
    ensures InSource(source, |source|, q) <==> q == source[0].path || InSource(source[1..], |source| - 1, q)
  {
    if InSource(source, |source|, q) && q != source[0].path {
      var k :| 0 <= k < |source| && source[k].path == q;
      assert source[1..][k - 1].path == q;
    }
    if InSource(source[1..], |source| - 1, q) {
      var k :| 0 <= k < |source| - 1 && source[1..][k].path == q;
      assert source[k + 1].path == q;
    }
  }

  /** Registration keeps the old order as a prefix, registers exactly the
      old and the reported paths, and never registers a path twice. */
  lemma {:induction false} RegisteredFacts(order: seq<string>, source: seq<RepoInfo>)
    ensures var r := Registered(order, source);
      |order| <= |r| && r[..|order|] == order &&
      (forall p :: p in r <==> p in order || InSource(source, |source|, p)) &&
      (Distinct(order) ==> Distinct(r))
    decreases |source|
  {
    if |source| > 0 {
      var p := source[0].path;
      var next := if p in order then order else order + [p];
      RegisteredFacts(next, source[1..]);
      var r := Registered(next, source[1..]);
      assert next[..|order|] == order;
      assert r[..|order|] == next[..|order|];
      forall q
        ensures InSource(source, |source|, q) <==> q == p || InSource(source[1..], |source| - 1, q)
      {
        InSourceTail(source, q);
      }
    }
  }

  /** Registering paths that are all known already changes nothing. */
  lemma {:induction false} RegisteredKnown(order: seq<string>, source: seq<RepoInfo>)
    requires forall p :: InSource(source, |source|, p) ==> p in order
    ensures Registered(order, source) == order
    decreases |source|
  {
    if |source| > 0 {
      assert InSource(source, |source|, source[0].path);
      forall p | InSource(source[1..], |source| - 1, p)
        ensures p in order
      {
        var k :| 0 <= k < |source| - 1 && source[1..][k].path == p;
        assert source[k + 1].path == p;
      }
      RegisteredKnown(order, source[1..]);
    }
  }

  /** `_getRepos` is idempotent: a second refresh from the same source changes
      the registration order no further. */
  lemma RegisteredTwice(order: seq<string>, source: seq<RepoInfo>)
    ensures Registered(Registered(order, source), source) == Registered(order, source)
  {
    RegisteredFacts(order, source);
    RegisteredKnown(Registered(order, source), source);
  }

  /** The current repository `pickRepo` leaves once the registry is refreshed
      to `order`: unchanged with no repository, the only one with exactly one,
      the picker's answer with several, including `None` when cancelled. The
      result is always absent or a registered path. */
  function ChosenRepo(order: seq<string>, current: Option<string>, choice: Option<string>): (r: Option<string>)
    ensures (current.Some? ==> current.value in order) && (choice.Some? ==> choice.value in order) ==>
      (r.Some? ==> r.value in order)
    ensures |order| == 1 ==> r == Some(order[0])
    ensures |order| > 1 ==> r == choice
    ensures |order| == 0 ==> r == current
  {
    if |order| == 0 then current
    else if |order| > 1 then choice
    else Some(order[0])
  }

  /** No identity contains a newline, so each is one trailer line. */
  ghost predicate NewlineFree(ids: seq<string>)
  {
    forall x :: x in ids ==> '\n' !in x
  }

  /** Picking a label for newline-free candidates yields a newline-free
      identity, marked or not. */
  lemma UnmarkedPickNewlineFree(cands: seq<string>, selected: seq<string>, picked: string)
    requires NewlineFree(cands)
    requires picked in Labels(cands, selected)
    ensures '\n' !in Unmark(picked)
  {
    var r, offered := Labels(cands, selected), Offered(cands, selected);
    var k :| 0 <= k < |r| && r[k] == picked;
    assert offered[k] in multiset(offered);
    assert offered[k] in cands;
    if offered[k] in selected {
      assert Unmark(picked) == offered[k];
    } else {
      assert forall j :: 0 <= j < |Unmark(picked)| ==> Unmark(picked)[j] in offered[k];
    }
  }

  /** Toggling a picked candidate of git's output keeps the selection
      newline-free. */
  lemma PickKeepsNewlineFree(selected: seq<string>, stdout: string, picked: string)
    requires NewlineFree(selected)
    requires picked in Labels(CandidateList(stdout), selected)
    ensures NewlineFree(Toggled(selected, Unmark(picked)))
  {
    CandidateListFacts(stdout);
    UnmarkedPickNewlineFree(CandidateList(stdout), selected, picked);
  }

  /** A repository as the extension wraps it: its commit message box and the
      trailer block last written into it. */
  class Repo {
    /** Never assigned: the constructor drops its path argument. */
    const path: string := ""
    /** The path the repository was created for, kept for the proof only. */
    ghost const key: string
    /** The commit message box's text (`inputBox.value`). */
    var value: string
    /** The block the last `AddCoauthorString` appended, "" before the first. */
    var previousCoAuthor: string

    constructor (path: string, input: string)
      ensures key == path && value == input && previousCoAuthor == ""
    {
      key := path;
      value := input;
      previousCoAuthor := "";
    }

    /** `getPath` returns the empty string whatever path the repository was
        created with. */
    function GetPath(): (r: string)
      ensures r == ""
    {
      path
    }

    /** Removes the first occurrence of the previous block from the message,
        then appends the new block and remembers it. */
    method AddCoauthorString(v: string)
      modifies this
      ensures value == Splice(old(value), old(previousCoAuthor), v)
      ensures previousCoAuthor == Block(v)
    {
      value := RemoveFirst(value, previousCoAuthor);
      previousCoAuthor := Block(v);
      value := value + previousCoAuthor;
    }
  }

  /** The extension's state and commands. */
  class CoAuthoring {
    /** The selected identities, in insertion order (a JavaScript Set). */
    var pairingSet: seq<string>
    /** The registered paths in registration order (the key order of `repos`). */
    var repoOrder: seq<string>
    var repos: map<string, Repo>
    var currentRepo: Option<string>

    /** The selection has no duplicates, the order lists exactly the
        registered paths, the current repository is registered, and each
        Repo object was created for its own path, so no two paths share
        one. */
    ghost predicate Valid()
      reads this
    {
      Distinct(pairingSet) && Distinct(repoOrder)
      && (forall p :: p in repoOrder <==> p in repos)
      && (currentRepo.Some? ==> currentRepo.value in repos)
      && (forall p :: p in repos ==> repos[p].key == p)
    }

    /** What a refresh from `source` did to the registry: the order is the
        registration order, paths are only added, known paths keep their Repo,
        and each new path has a new Repo. */
    twostate predicate Refreshed(source: seq<RepoInfo>)
      reads this
    {
      repoOrder == Registered(old(repoOrder), source)
      && (forall p :: p in repos <==> p in old(repos) || InSource(source, |source|, p))
      && (forall p :: p in old(repos) ==> repos[p] == old(repos[p]))
      && (forall p :: p in repos && p !in old(repos) ==> fresh(repos[p]))
    }

    /** Each new Repo, except the one `except` names, holds the text of its
        path's first source entry and no previous block. */
    twostate predicate NewFromSource(source: seq<RepoInfo>, new except: Option<string>)
      reads this, repos.Values
    {
      forall p :: p in repos && p !in old(repos) && except != Some(p) ==>
        InSource(source, |source|, p) &&
        repos[p].value == FirstText(source, p) && repos[p].previousCoAuthor == ""
    }

    constructor ()
      ensures Valid()
      ensures pairingSet == [] && repoOrder == [] && repos == map[] && currentRepo == None
    {
      pairingSet, repoOrder, repos, currentRepo := [], [], map[], None;
    }

    /** Adds the partner when absent, deletes it when present. */
    method ToggleBuddy(partner: string)
      requires Valid()
      modifies this
      ensures Valid()
      ensures pairingSet == Toggled(old(pairingSet), partner)
      ensures repoOrder == old(repoOrder) && repos == old(repos) && currentRepo == old(currentRepo)
    {
      if partner in pairingSet {
        pairingSet := Without(pairingSet, partner);
      } else {
        pairingSet := pairingSet + [partner];
      }
    }

    /** Clears the selection and forgets the current repository; the
        registry stays. */
    method StopPairing()
      requires Valid()
      modifies this
      ensures Valid()
      ensures pairingSet == [] && currentRepo == None
      ensures repoOrder == old(repoOrder) && repos == old(repos)
    {
      pairingSet := [];
      currentRepo := None;
    }

    /** Registers a repository unless its path is known: the first
        registration wins. */
    method AddRepo(path: string, text: string)
      requires Valid()
      modifies this
      ensures Valid()
      ensures path in old(repos) ==> repoOrder == old(repoOrder) && repos == old(repos)
      ensures path !in old(repos) ==>
        repoOrder == old(repoOrder) + [path] && path in repos && fresh(repos[path]) &&
        repos[path].value == text && repos[path].previousCoAuthor == ""
      ensures forall q :: q in repos <==> q in old(repos) || q == path
      ensures forall q :: q in old(repos) ==> repos[q] == old(repos[q])
      ensures pairingSet == old(pairingSet) && currentRepo == old(currentRepo)
    {
      if path in repos {
        return;
      }
      var repo := new Repo(path, text);
      repos := repos[path := repo];
      repoOrder := repoOrder + [path];
    }

    /** Registers every repository the source reports; an empty source only
        shows "No repositories found." and changes nothing. */
    method GetRepos(source: seq<RepoInfo>)
      requires Valid()
      modifies this
      ensures Valid() && Refreshed(source) && NewFromSource(source, None)
      ensures pairingSet == old(pairingSet) && currentRepo == old(currentRepo)
    {
      if |source| == 0 {
        return;
      }
      var i := 0;
      while i < |source|
        invariant 0 <= i <= |source|
        invariant Valid()
        invariant Registered(repoOrder, source[i..]) == Registered(old(repoOrder), source)
        invariant forall k :: 0 <= k < i ==> source[k].path in repos
        invariant forall p :: p in old(repos) ==> p in repos && repos[p] == old(repos[p])
        invariant forall p :: p in repos && p !in old(repos) ==>
          InSource(source, |source|, p) && fresh(repos[p]) &&
          repos[p].value == FirstText(source, p) && repos[p].previousCoAuthor == ""
        invariant pairingSet == old(pairingSet) && currentRepo == old(currentRepo)
      {
        var p := source[i].path;
        assert source[i..][1..] == source[i + 1..];
        if p !in repos {
          FirstTextAt(source, i);
        }
        AddRepo(p, source[i].text);
        i := i + 1;
      }
      assert source[|source|..] == [];
    }

    /** `pickRepo`, the command `extension.selectRepo` is bound to: refresh
        the registry, then with no repository keep the current one, with
        exactly one select it without asking, and with several take the
        picker's answer, `None` when cancelled. */
    method PickRepo(source: seq<RepoInfo>, choice: Option<string>)
      requires Valid()
      requires choice.Some? ==> choice.value in Registered(repoOrder, source)
      modifies this
      ensures Valid() && Refreshed(source) && NewFromSource(source, None)
      ensures currentRepo == ChosenRepo(repoOrder, old(currentRepo), choice)
      ensures pairingSet == old(pairingSet)
    {
      GetRepos(source);
      var paths := repoOrder;
      if |paths| == 0 {
        return;
      }
      if |paths| > 1 {
        currentRepo := choice;
      } else {
        currentRepo := Some(paths[0]);
      }
    }

    /** Picks a repository only when none is current. */
    method PickRepoIfRequired(source: seq<RepoInfo>, choice: Option<string>)
      requires Valid()
      requires choice.Some? ==> choice.value in Registered(repoOrder, source)
      modifies this
      ensures Valid()
      ensures old(currentRepo).Some? ==>
        repoOrder == old(repoOrder) && repos == old(repos) && currentRepo == old(currentRepo)
      ensures old(currentRepo).None? ==>
        Refreshed(source) && NewFromSource(source, None) && currentRepo == ChosenRepo(repoOrder, None, choice)
      ensures pairingSet == old(pairingSet)
    {
      if currentRepo.None? {
        PickRepo(source, choice);
      }
    }

    /** `selectRepo`: picks a repository, but only when one is registered. */
    method SelectRepo(source: seq<RepoInfo>, choice: Option<string>)
      requires Valid()
      requires choice.Some? ==> choice.value in Registered(repoOrder, source)
      modifies this
      ensures Valid()
      ensures |old(repoOrder)| == 0 ==>
        repoOrder == old(repoOrder) && repos == old(repos) && currentRepo == old(currentRepo)
      ensures |old(repoOrder)| > 0 ==>
        Refreshed(source) && NewFromSource(source, None) && currentRepo == ChosenRepo(repoOrder, old(currentRepo), choice)
      ensures pairingSet == old(pairingSet)
    {
      if |repoOrder| > 0 {
        PickRepo(source, choice);
      }
    }

    /** `_pickBuddy`: offers the labels of the candidates; a picked label is
        unmarked and toggled, a cancelled pick changes nothing. */
    method PickBuddy(cands: seq<string>, who: Option<string>)
      requires Valid()
      requires who.Some? ==> who.value in Labels(cands, pairingSet)
      modifies this
      ensures Valid()
      ensures repoOrder == old(repoOrder) && repos == old(repos) && currentRepo == old(currentRepo)
      ensures pairingSet ==
        if |cands| == 0 || who.None? then old(pairingSet) else Toggled(old(pairingSet), Unmark(who.value))
    {
      if |cands| == 0 {
        return;
      }
      if who.Some? {
        ToggleBuddy(Unmark(who.value));
      }
    }

    /** `_getBuddies` with git log's standard output as a parameter: nothing
        without a current repository, otherwise the filtered lines go to the
        picker. */
    method GetBuddies(stdout: string, who: Option<string>)
      requires Valid()
      requires who.Some? ==> who.value in Labels(CandidateList(stdout), pairingSet)
      modifies this
      ensures Valid()
      ensures repoOrder == old(repoOrder) && repos == old(repos) && currentRepo == old(currentRepo)
      ensures pairingSet ==
        if currentRepo.None? || who.None? then old(pairingSet) else Toggled(old(pairingSet), Unmark(who.value))
    {
      if currentRepo.None? {
        return;
      }
      var lines := Split(stdout, '\n');
      assert |FilterFrom(lines, 0)| > 0;
      PickBuddy(CandidateList(stdout), who);
    }

    /** The `extension.addBuddy` command: register repositories if there are
        none, pick a repository if none is current, then let the user toggle
        one candidate. Identities stay newline-free, since candidates are
        lines. */
    method AddBuddy(source: seq<RepoInfo>, repoChoice: Option<string>, stdout: string, who: Option<string>)
      requires Valid()
      requires repoChoice.Some? ==> repoChoice.value in Registered(repoOrder, source)
      requires who.Some? ==> who.value in Labels(CandidateList(stdout), pairingSet)
      modifies this
      ensures Valid()
      ensures old(currentRepo).Some? ==>
        repoOrder == old(repoOrder) && repos == old(repos) && currentRepo == old(currentRepo)
      ensures old(currentRepo).None? ==>
        Refreshed(source) && NewFromSource(source, None) && currentRepo == ChosenRepo(repoOrder, None, repoChoice)
      ensures pairingSet ==
        if currentRepo.None? || who.None? then old(pairingSet) else Toggled(old(pairingSet), Unmark(who.value))
      ensures NewlineFree(old(pairingSet)) ==> NewlineFree(pairingSet)
    {
      if |repoOrder| == 0 {
        GetRepos(source);
        RegisteredTwice(old(repoOrder), source);
      }
      PickRepoIfRequired(source, repoChoice);
      if who.Some? && NewlineFree(pairingSet) {
        PickKeepsNewlineFree(pairingSet, stdout, who.value);
      }
      GetBuddies(stdout, who);
    }

    /** The `extension.appendPairing` command: with nothing selected only an
        error is shown; otherwise a repository is picked if none is current and
        the trailer block is spliced into its message. Every other message is
        left alone. */
    method AppendPairing(source: seq<RepoInfo>, choice: Option<string>)
      requires Valid()
      requires choice.Some? ==> choice.value in Registered(repoOrder, source)
      modifies this, repos.Values
      ensures Valid()
      ensures pairingSet == old(pairingSet)
      ensures old(pairingSet) == [] || old(currentRepo).Some? ==>
        repoOrder == old(repoOrder) && repos == old(repos) && currentRepo == old(currentRepo)
      ensures old(pairingSet) != [] && old(currentRepo).None? ==>
        Refreshed(source) && NewFromSource(source, currentRepo) &&
        currentRepo == ChosenRepo(repoOrder, None, choice)
      ensures forall p :: p in old(repos) && (old(pairingSet) == [] || currentRepo != Some(p)) ==>
        repos[p].value == old(repos[p].value) && repos[p].previousCoAuthor == old(repos[p].previousCoAuthor)
      ensures old(pairingSet) != [] && currentRepo.Some? ==>
        var p := currentRepo.value;
        repos[p].previousCoAuthor == Block(PairingString(pairingSet)) &&
        (p in old(repos) ==>
          repos[p].value == Splice(old(repos[p].value), old(repos[p].previousCoAuthor), PairingString(pairingSet))) &&
        (p !in old(repos) ==>
          InSource(source, |source|, p) &&
          repos[p].value == Splice(FirstText(source, p), "", PairingString(pairingSet)))
    {
      if |pairingSet| == 0 {
        return;
      }
      PickRepoIfRequired(source, choice);
      if currentRepo.Some? {
        var repo := repos[currentRepo.value];
        repo.AddCoauthorString(PairingString(pairingSet));
      }
    }
  }
}
