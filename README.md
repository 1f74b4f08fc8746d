# Co-author trailers for the VS Code source-control box, modelled in Dafny

The extension lets a user pick collaborators from a repository's commit
history and appends `Co-authored-by` trailer lines to the pending commit
message. Its state is:
- the repositories it has registered, each wrapping a commit-message box;
- the current repository;
- the set of selected co-authors, in insertion order;
- for each repository, the trailer block it last wrote, so that the next
  write can remove that block first.

This project models both versions of the extension in `src/`:

- `src/extension.ts`:
  - the `Repo` class and its splice of the trailer block into the message;
  - the `CoAuthoring` class with its commands `addBuddy`, `appendPairing`,
    `stopPairing` and `selectRepo`;
  - the candidate list read from `git log` and its de-duplicating filter;
  - the selected-first quick-pick labels and their marks.
- `src/extension.1.ts`, the earlier version:
  - co-authors are `Buddy` records keyed by email;
  - they are parsed from `git log` lines with the regular expression
    `/(<.+@.+>)/`;
  - the `CoAuthoring` class has `startPairing`, `stopPairing` and
    `toggleBuddy`.

The host is not modelled; its answers become parameters of the methods:
- the git API's repository list is a `seq<RepoInfo>`, giving each
  repository's root path and the text in its message box;
- the quick pick's answer is an `Option<string>`, with `None` for a
  cancelled pick, and it is required to be one of the offered labels;
- `git log`'s standard output is a string.

Modules:
- `Seqs` (seqs.dfy): sequences as JavaScript Sets with insertion order, and
  the toggle, filter and stable partition operations.
- `Strings` (strings.dfy): JavaScript's `split`, `join`, `indexOf` and
  `replace(str, '')` on strings.
- `Trailers` (trailers.dfy): the trailer block and the splice of the
  message text.
- `Candidates` (candidates.dfy): the candidate lines, their filter, labels
  and unmarking.
- `CoAuthor` (coauthor.dfy): the two classes of `extension.ts`.
- `BuddyParse` (buddy_parse.dfy): `Buddy` and `parseBuddy` of
  `extension.1.ts`, with the regular expression's match stated exactly.
- `Legacy` (legacy.dfy): the `CoAuthoring` class of `extension.1.ts`.

## Model

| member | source | states |
|---|---|---|
| Seqs.Toggled | src/extension.ts:116-122 | after a toggle x is selected exactly when it was not before, every other identity keeps its membership, no duplicate appears, a removal keeps the others in their order, and an added identity goes last |
| Seqs.Without | src/extension.ts:117-118 | `Set.delete` removes exactly x, leaves a sequence without x unchanged, keeps the others in their order and keeps it duplicate-free |
| Seqs.WithoutAppended | src/extension.ts:116-122 | deleting the identity just added restores the previous insertion order |
| Seqs.ToggledTwice | src/extension.ts:116-122 | toggling the same identity twice restores the selection, and restores its exact order when the identity was absent at first |
| Seqs.SelectedFirst | src/extension.ts:155-167 | the selected-first ordering is a permutation of the candidates in which no unselected candidate precedes a selected one |
| Strings.Split | src/extension.ts:142-143 | `split('\n')` yields at least one piece and no piece contains the separator |
| Strings.Join | src/extension.ts:127 | `join` as a definition: the separator between consecutive pieces; `Strings.SplitJoin` and `Strings.JoinSplit` state that it inverts `split` |
| Strings.SplitJoin | src/extension.ts:125-127 | splitting at least one trailer line joined by newlines gives the same lines back when none contains a newline |
| Strings.JoinSplit | src/extension.ts:142-143 | joining the pieces of a split with the same separator gives the text back |
| Strings.FindFrom | src/extension.ts:48 | `indexOf` finds the first occurrence at or after the start, and reports none exactly when the pattern does not occur |
| Strings.RemoveFirst | src/extension.ts:48 | `replace(p, '')` as a definition; `RemoveFirstRestores` states its properties |
| Strings.RemoveFirstRestores | src/extension.ts:48 | `replace(p, '')` leaves the text alone when p does not occur, and otherwise drops p at its first occurrence, so that putting p back there gives the text again |
| Trailers.TrailerLines | src/extension.ts:125-126 | one line per selected identity, in selection order, each `Co-authored-by ` followed by the identity |
| Trailers.PairingString | src/extension.ts:124-128 | the trailer block is empty exactly when nobody is selected |
| Trailers.PairingStringLines | src/extension.ts:124-128 | for newline-free identities the block has exactly one line per identity, each prefixed `Co-authored-by ` |
| Trailers.Block | src/extension.ts:49 | the remembered block as a definition: the value after a blank line; the splice lemmas below state its use |
| Trailers.Splice | src/extension.ts:47-50 | `addCoauthorString` on the text as a definition: the previous block removed at its first occurrence, then the new block appended; `SpliceKeepsPrefix`, `SpliceFirstCall`, `SpliceReplacesTrailing`, `SpliceRepeat` and `SpliceRemovesEarlierCopy` state its properties |
| Trailers.SpliceKeepsPrefix | src/extension.ts:47-51 | after `addCoauthorString` the text ends with the new block, the text before the removed previous block is kept, and when the previous block does not occur the block is just appended |
| Trailers.SpliceFirstCall | src/extension.ts:47-51 | the first call, with the remembered block still empty, only appends the new block |
| Trailers.SpliceReplacesTrailing | src/extension.ts:47-51 | when the previous block occurs only at the end, the splice replaces exactly that block with the new one |
| Trailers.SpliceRepeat | src/extension.ts:47-51 | when the new block occurs in the text only at its end, repeating the splice with the same block changes nothing, so no duplicate block accumulates |
| Trailers.SpliceRemovesEarlierCopy | src/extension.ts:48 | `replace` removes the first occurrence of the previous block, so an earlier copy of it in the message is removed instead of the trailing one |
| Candidates.LineIndex | src/extension.ts:145 | `self.indexOf(line)` is the first index holding the line, and -1 exactly when it is absent |
| Candidates.KeepLine | src/extension.ts:145 | the filter's callback as a definition; `KeepLineFirstOccurrence` states what it keeps |
| Candidates.FilterFrom | src/extension.ts:145 | the filter as written, as a definition; `FilterFromIsDedup` proves it equal to the reference de-duplication |
| Candidates.CandidateList | src/extension.ts:140-146 | the candidates handed to `_pickBuddy` as a definition; `CandidateListFacts` states their properties |
| Candidates.KeepLineFirstOccurrence | src/extension.ts:145 | the filter keeps a line exactly when it is empty or is that line's first occurrence |
| Candidates.DedupMembers | src/extension.ts:144-145 | the reference de-duplication keeps exactly the lines not seen before plus every empty line, and no non-empty line twice |
| Candidates.DedupOrder | src/extension.ts:144-145 | the reference de-duplication keeps the lines' order and every empty line |
| Candidates.FilterFromIsDedup | src/extension.ts:145 | the filter as written computes the reference de-duplication |
| Candidates.CandidateListFacts | src/extension.ts:140-146 | the candidates are a subsequence of git's lines with the same set of lines, with no repeated non-empty line, with every empty line kept, and with no newline in any line |
| Candidates.Label | src/extension.ts:168-174 | a candidate's label as a definition: the mark in front of a selected candidate; `Labels` and `UnmarkLabel` state its properties |
| Candidates.Offered | src/extension.ts:155-167 | the selected-first order as a definition; `Seqs.SelectedFirst` and `Labels` state that it is a permutation with the selected candidates first |
| Candidates.Labels | src/extension.ts:155-174 | one label per candidate, selected candidates first, and the mark on exactly the selected ones |
| Candidates.UnmarkLabel | src/extension.ts:178-182 | stripping a leading mark from a label gives its candidate back, provided an unselected candidate does not itself start with the mark |
| Candidates.UnmarkLabels | src/extension.ts:168-182 | under that proviso every label unmarks to its own candidate |
| Candidates.Unmark | src/extension.ts:179-181 | stripping a leading mark as a definition; `UnmarkLabel`, `UnmarkLabels` and `UnmarkNeedsProviso` state when it recovers the candidate |
| Candidates.UnmarkNeedsProviso | src/extension.ts:179-180 | an unselected candidate starting with the mark loses it when picked |
| CoAuthor.FirstTextAt | src/extension.ts:186-193 | the text registered for a path is that of the path's first entry in the repository list |
| CoAuthor.Registered | src/extension.ts:213-225 | the registry's order after `_getRepos` as a definition; `RegisteredFacts`, `RegisteredKnown` and `RegisteredTwice` state its properties |
| CoAuthor.RegisteredFacts | src/extension.ts:213-225 | registering the repository list keeps the old order as a prefix, registers exactly the old and the reported paths, and never registers a path twice |
| CoAuthor.RegisteredKnown | src/extension.ts:186-189 | registering paths that are all known changes nothing |
| CoAuthor.RegisteredTwice | src/extension.ts:213-225 | refreshing twice from the same list is the same as refreshing once |
| CoAuthor.ChosenRepo | src/extension.ts:195-211 | with no repository the current one stays; with one it is selected without asking; with several the picker's answer is taken, a cancel clearing it; a registered or absent current repository stays so |
| CoAuthor.UnmarkedPickNewlineFree | src/extension.ts:176-182 | a picked label of newline-free candidates unmarks to a newline-free identity |
| CoAuthor.PickKeepsNewlineFree | src/extension.ts:140-183 | toggling a picked candidate of git's output keeps the selection newline-free |
| CoAuthor.Repo.constructor | src/extension.ts:34-41 | a new repository holds the box's text and has written no block yet |
| CoAuthor.Repo.GetPath | src/extension.ts:43-45 | `getPath` returns "" whatever path the repository was created with |
| CoAuthor.Repo.AddCoauthorString | src/extension.ts:47-51 | the text becomes the splice of the old text, and the remembered block becomes the new block after a blank line |
| CoAuthor.CoAuthoring.constructor | src/extension.ts:55-62 | nothing is selected, registered or current |
| CoAuthor.CoAuthoring.ToggleBuddy | src/extension.ts:116-122 | the selection becomes its toggle by the partner and nothing else changes |
| CoAuthor.CoAuthoring.StopPairing | src/extension.ts:105-108 | the selection and the current repository are cleared while the registry stays |
| CoAuthor.CoAuthoring.AddRepo | src/extension.ts:186-193 | a known path changes nothing; a new path gets a fresh repository holding the box's text, appended to the order |
| CoAuthor.CoAuthoring.GetRepos | src/extension.ts:213-225 | the registry is refreshed from the list, where known paths keep their repository object and new paths get fresh ones with their first entry's text; an empty list changes nothing |
| CoAuthor.CoAuthoring.PickRepo | src/extension.ts:195-211 | refreshes the registry, then sets the current repository as `ChosenRepo` decides |
| CoAuthor.CoAuthoring.PickRepoIfRequired | src/extension.ts:89-93 | an already current repository is never re-picked, and otherwise `pickRepo` runs |
| CoAuthor.CoAuthoring.SelectRepo | src/extension.ts:110-114 | nothing happens without a registered repository, and otherwise `pickRepo` runs |
| CoAuthor.CoAuthoring.PickBuddy | src/extension.ts:150-184 | a cancelled pick or no candidates changes nothing, and otherwise the unmarked picked label is toggled |
| CoAuthor.CoAuthoring.GetBuddies | src/extension.ts:134-148 | nothing happens without a current repository, and otherwise the pick is made from git's filtered lines |
| CoAuthor.CoAuthoring.AddBuddy | src/extension.ts:95-103 | registers repositories when none are known, picks a repository when none is current, toggles the picked candidate, and keeps the selection newline-free |
| CoAuthor.CoAuthoring.AppendPairing | src/extension.ts:75-87 | with nothing selected nothing changes; otherwise, after a pick if required, the current repository's text becomes the splice of the trailer block and every other message is untouched |
| BuddyParse.MatchAt | src/extension.1.ts:42 | the match of `<.+@.+>` found at a start is the longest one there, and none is found exactly when no match starts there |
| BuddyParse.FirstMatch | src/extension.1.ts:42 | the match `split` uses starts at the leftmost position where any match starts |
| BuddyParse.ProperString | src/extension.1.ts:36-38 | `toProperString` as a definition: the name, a space, the email or "undefined"; `ProperStringDoublesSpace` and `Legacy.PickedProperString` state what it yields for parsed lines |
| BuddyParse.ParseBuddy | src/extension.1.ts:41-47 | a buddy is always returned; with a match the email is the match that starts leftmost and is the longest there, and the name is all the text before it; without a match the name is the whole line and the email is absent |
| BuddyParse.EmailMatches | src/extension.1.ts:42 | `<local@domain>` with plain parts is a match from its first character to its last |
| BuddyParse.MatchesAfterPrefix | src/extension.1.ts:42 | a match is unaffected by the text in front of it |
| BuddyParse.ParseWellFormed | src/extension.1.ts:41-47 | a git line `name<local@domain>` with no `<` in the name parses to exactly that name and email |
| BuddyParse.ParseWithoutAngle | src/extension.1.ts:41-47 | a line without `<` parses to a buddy named by the whole line, without an email |
| BuddyParse.ProperStringDoublesSpace | src/extension.1.ts:36-38 | `toProperString` of a parsed `name <email>` line has two spaces before the email |
| Legacy.ToggledMap | src/extension.1.ts:83-89 | the entry under the partner's email is deleted if present and otherwise added, with no other entry changed |
| Legacy.ToggledMapTwice | src/extension.1.ts:83-89 | toggling the same buddy twice restores the emails, and restores the whole map when the email was absent |
| Legacy.Defined | src/extension.1.ts:143-146 | the filter keeps only parsed buddies, and drops nothing when every line parsed |
| Legacy.CandidateBuddies | src/extension.1.ts:139-147 | there is one candidate per output line, at least one in all, each the parse of its line |
| Legacy.EmptyLineCandidate | src/extension.1.ts:139-146 | the empty last line becomes the candidate " undefined", which parses back without an email |
| Legacy.OfferedBuddies | src/extension.1.ts:107-116 | the selected-first ordering keeps the number of candidates |
| Legacy.BuddyLabel | src/extension.1.ts:117-123 | a candidate's label as a definition: the mark in front of a paired candidate's proper string; `BuddyLabels` and `LabelParsesBack` state its properties |
| Legacy.BuddyLabels | src/extension.1.ts:107-123 | one label per candidate, a permutation of them with paired ones first, and the mark on exactly the paired ones |
| Legacy.LabelParsesBack | src/extension.1.ts:117-130 | parsing a git-shaped candidate's label gives back its email; the name gains the mark, if paired, in front and, behind it, a space for a candidate with an email or " undefined" for one without |
| Legacy.PickTogglesCandidate | src/extension.1.ts:125-131 | picking a git-shaped candidate's label unpairs a marked one and pairs an unmarked one |
| Legacy.ProperStrings | src/extension.1.ts:91-94 | the proper strings of the paired buddies as a definition; `Legacy.CoAuthoring.PairingStringLines` carries them to the trailer block |
| Legacy.PickedProperString | src/extension.1.ts:117-131 | a buddy picked from an unmarked git line keeps its email, but its proper string has three spaces before the email |
| Legacy.ParseLineFree | src/extension.1.ts:36-47 | a line without a newline parses into a buddy whose proper string has no newline |
| Legacy.CandidatesLineFree | src/extension.1.ts:139-147 | every candidate parsed from git's output has a newline-free proper string |
| Legacy.PickedLineFree | src/extension.1.ts:117-131 | the buddy parsed again from a picked label is newline-free when every candidate is |
| Legacy.CoAuthoring.Buddies | src/extension.1.ts:92 | the Map's values in insertion order: entry k is the buddy stored under the k-th paired email |
| Legacy.CoAuthoring.PairingString | src/extension.1.ts:91-95 | the trailer block is empty exactly when nobody is paired |
| Legacy.CoAuthoring.PairingStringLines | src/extension.1.ts:91-95 | with somebody paired and no newline in any proper string, the block has one line per paired buddy in insertion order, each `Co-authored-by ` followed by that buddy's name, a space and its email |
| Legacy.CoAuthoring.constructor | src/extension.1.ts:56-61 | not pairing, and nobody paired |
| Legacy.CoAuthoring.IsPairing | src/extension.1.ts:79-81 | reports the pairing flag |
| Legacy.CoAuthoring.StopPairing | src/extension.1.ts:75-77 | clears the flag and keeps the paired buddies |
| Legacy.CoAuthoring.ToggleBuddy | src/extension.1.ts:83-89 | the map and its insertion order become their toggles by the partner's email |
| Legacy.CoAuthoring.PickBuddy | src/extension.1.ts:101-133 | no candidates or a cancelled pick changes nothing, and otherwise the re-parsed picked label is toggled; with newline-free candidates, a map whose proper strings are newline-free stays so |
| Legacy.CoAuthoring.GetRepos | src/extension.1.ts:135-150 | nothing happens without a repository, and otherwise the pick is made from the parsed output lines; a map whose proper strings are newline-free stays so |
| Legacy.CoAuthoring.StartPairing | src/extension.1.ts:70-73 | sets the flag, then offers the candidates as `_getRepos` does; a map whose proper strings are newline-free stays so, so `PairingStringLines` applies to every state the commands reach from the empty map |

## Left out

- `activate`, `deactivate`, command registration, `dispose` and the
  disposables list: these are host wiring with no state of the model.
- The error messages are not modelled. These are 'Git extension not
  found!', 'Git extension API incompatible', 'No pairing buddies selected'
  and 'No repositories found.'. The branches that show them are modelled
  as changing nothing.
- The `cp.exec` shell command that runs `cd <path> && git log` is not
  modelled; its standard output is a parameter. `error` and `stderr` are
  ignored, as the code ignores them.
- Asynchrony: each command runs to completion with the picker's answers
  given up front. The `git log` callback that `_getBuddies` starts without
  awaiting is modelled as running at the end of its command. Another
  command that the host might run while a picker is open is not modelled.
- The message box belongs to the host, and the model holds its text in
  `Repo.value`. Edits the user makes between commands are not an
  operation of the model. The splice lemmas take any text, so they apply
  to edited text too.
- Candidates.Offered: the quick pick is ordered by the stable
  selected-first partition. `Array.prototype.sort` with the code's
  comparator is not modelled: that comparator is not a consistent
  ordering, and the result depends on the engine's sort.
- Legacy.OfferedBuddies: the same stable partition stands in for `sort`
  in `extension.1.ts`.
- Strings are sequences of characters, not UTF-16 code units. The mark
  `✓` is a single unit either way, so `substr(1)` and `indexOf` behave the
  same.
- BuddyParse.MatchAt: only the expression `<.+@.+>` is modelled, not a
  general regular-expression engine. `parseBuddy` reads only the pieces
  before and at the first match, so the later pieces of `split` are not
  computed.
- `| sort | uniq` in the command of `extension.1.ts`: the output is an
  arbitrary string, so nothing is assumed about its order or duplicates.
- The `started` field of `extension.1.ts` is set and never read, and is
  not modelled.
- `_getRepos` of `extension.1.ts` uses the first repository only for its
  path in the shell command. The model takes the repository list and uses
  only whether it is empty.

## Where the code and its evident intent differ

The model follows the code in each of these places.

- Cancelled repository pick. When several repositories are registered
  and the picker is cancelled, `pickRepo` assigns `undefined` to the
  current repository. A cancelled pick would be expected to keep the
  current repository. `CoAuthor.ChosenRepo` states what the code does.
- `extension.selectRepo` is bound to `pickRepo`, which selects the only
  repository without asking. It is not bound to `selectRepo`, whose name
  the command carries. Both are modelled: `PickRepo` and `SelectRepo`.
- Empty lines. The filter in `_getBuddies` keeps every empty line,
  although the comment at src/extension.ts:144 says it removes them. The
  trailing newline of git's output therefore yields an empty candidate
  (`CandidateListFacts`).
- First occurrence, not the trailing block. The splice removes the FIRST
  occurrence of the previous block, not the trailing one. A message that
  contains the block's text further up loses that text, so the text
  outside the trailer block is not always untouched
  (`SpliceRemovesEarlierCopy`). When the block occurs only at the end,
  the splice replaces it (`SpliceReplacesTrailing`, `SpliceRepeat`).
- `Repo` never stores its path, so `getPath` always returns "".
- Extra spaces in `extension.1.ts`. Picking a candidate parses its label
  again, which appends `toProperString`'s space to the name. A picked
  buddy's trailer therefore has three spaces before the email
  (`PickedProperString`).
