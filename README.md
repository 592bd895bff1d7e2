# highfive: the pull-request handler, modelled in Dafny

highfive is a GitHub webhook service. When a pull request is opened, it
assigns a reviewer and greets the author. The handler in
`highfive/newpr.py` works as follows:

- It reads the diff of the pull request.
- Unless someone is already assigned, it takes the reviewer the body
  requests with `r? @name`. Otherwise it draws one at random from the
  reviewer groups configured for the directory with the most added lines.
- It assigns that reviewer and posts a cc comment for the configured
  `mentions` that the changed paths match.
- It welcomes a first-time contributor, or else posts a note that a
  reviewer was picked.
- It warns when the pull request targets an unexpected branch or changes
  a submodule.
- Finally it adds the configured labels.

This project models that handler on values: strings, sequences, maps and
datatypes. It proves what each step computes and how the steps combine.

- `text.dfy` (`Text`): the Python string operations the handler relies on, and their laws:
  - `str.find` and `str.split` / `str.join`, with the split-join round trips;
  - first-occurrence de-duplication, which keeps the order of first occurrence.
- `config.dfy` (`Config`): the data the handler works on:
  - the repository configuration, with `mentions` kept in key order;
  - the payload fields it reads;
  - the ways it can stop, written as a `Failure` value. In the source these are an `assert`, a `KeyError` or an `IndexError`.
- `diffscan.dfy` (`DiffScan`): the directory attribution at the top of `choose_reviewer`:
  - the `counts` loop (`Tally`) and the winner loop (`MostChanged`), each proved against a reference definition (`SeenDirs`, `Added`, `Best`);
  - lemmas about which directory wins.
- `reviewers.dfy` (`Reviewers`): the rest of `choose_reviewer`:
  - merging the global groups;
  - the candidate pool, with the fallback to `core`;
  - the group expansion work list (`Expand`, proved against `Expansion`);
  - removing the author;
  - the draw.
- `mentions.dfy` (`Mentions`): `get_to_mention`, with its two nested loops proved against `MentionKeys`.
- `explicit.dfy` (`ExplicitReviewer`): `find_reviewer`:
  - a greedy matcher for `reviewer_re`, proved equal to a declarative reading of the pattern;
  - the first-match search.
- `messages.dfy` (`Messages`): the texts the handler posts:
  - the cc comment of `run_commands`;
  - the warnings of `post_warnings`, with `unexpected_branch` and `modifies_submodule`;
  - `welcome_msg` and `review_msg`.
- `workflow.dfy` (`Workflow`): `new_pr` and `run`. They are written as methods that return the ordered list of requests the handler makes to GitHub (`Action`). The list stops where the source would raise.
  - A comment request carries a `Note`: the data its text is made from, such as the warnings, the reviewer or the cc rules.
  - `Workflow.Body` gives the exact text posted for each note.

Three things the source obtains from outside are parameters instead:

- the diff text;
- the answer of the commit search (`firstTimer`);
- the random draw (`draw`, an index taken modulo the number of candidates).

## Model

| member | source | states |
|---|---|---|
| Text.JoinSplit | highfive/newpr.py:255-258 | `"/".join(s.split("/"))` gives back `s`, so the full path `get_to_mention` rebuilds is the header path |
| Text.SplitJoin | highfive/newpr.py:199 | splitting a join of separator-free parts gives the parts back (used to read the branch out of `owner:branch`) |
| Text.SplitSeveral | highfive/newpr.py:199 | `split(':')` has a second element exactly when the label holds a `:` |
| Text.JoinPrefix | highfive/newpr.py:258 | the join of the first `k` segments is a prefix of the join of all of them |
| Text.DedupOrder | highfive/newpr.py:339-343 | appending only what is not yet in the list keeps the order of first occurrence |
| DiffScan.TwoSegmentsPrefix | highfive/newpr.py:255-258 | the directory taken from the first two segments is a prefix of the changed path |
| DiffScan.HeaderDir | highfive/newpr.py:255-264 | a header line never makes `src/test` or the empty directory current (its other facts are `HeaderDirFacts`) |
| DiffScan.HeaderDirFacts | highfive/newpr.py:252-266 | a header never makes `src/test`, the empty string or a `src/librustc*` subdirectory current; `src/librustc*` folds to `src/librustc`; other directories are prefixes of the path |
| DiffScan.SeenDirsSound | highfive/newpr.py:265-266 | every key of `counts` was named by some header line |
| DiffScan.SeenDirsComplete | highfive/newpr.py:265-266 | every directory a header names becomes a key of `counts` |
| DiffScan.DirBeforeSeen | highfive/newpr.py:265-270 | the current directory is always a key of `counts`, so `counts[cur_dir] += 1` never fails |
| DiffScan.Tally | highfive/newpr.py:249-270 | the loop builds `counts` with the directories in first-seen order, each holding the number of added lines read while it was current |
| DiffScan.AddedOnlySeen | highfive/newpr.py:265-270 | only directories named by a header receive additions |
| DiffScan.NeverCounted | highfive/newpr.py:261-264 | `src/test`, the empty directory and `src/librustc*` subdirectories never receive an added line |
| DiffScan.LeadingLinesIgnored | highfive/newpr.py:250-270 | lines ahead of the first header are attributed to no directory |
| DiffScan.SwapKeepsCounts | highfive/newpr.py:269-270 | swapping two neighbouring non-header lines changes no count |
| DiffScan.Best | highfive/newpr.py:273-277 | the winner has the largest count; it is the first key in dictionary order with that count; no winner exactly when every count is 0 |
| DiffScan.MostChanged | highfive/newpr.py:273-277 | the winner loop computes `Best` |
| DiffScan.WinnerIsMostChanged | highfive/newpr.py:245-277 | the winning directory was named by a header and has the most added lines of any directory |
| DiffScan.WinnerFirstOfEqual | highfive/newpr.py:275 | every directory seen before the winner has strictly fewer additions (ties go to the earlier key) |
| DiffScan.WinnerNeverFolded | highfive/newpr.py:261-264 | the winner is never `src/test` nor a `src/librustc*` subdirectory |
| DiffScan.NoAdditionsNoWinner | highfive/newpr.py:273-277 | a diff without added lines has no winner |
| DiffScan.MostChangedDir | highfive/newpr.py:245-277 | without configured `dirs` there is no winner; a winner is a directory some header named (`WinnerIsMostChanged`, `WinnerFirstOfEqual` state which one) |
| Reviewers.MergeGroups | highfive/newpr.py:236-243 | merging fails exactly when a global group name is also a repository group; otherwise the result holds both sets of groups unchanged |
| Reviewers.CandidatePool | highfive/newpr.py:280-284 | the pool is `groups['all']` plus the winner's configured entries; if that is empty, it is `groups['core']`; a missing `all` is an error, and so is a missing `core` when the pool falls back to it |
| Reviewers.Expansion | highfive/newpr.py:287-299 | the expansion only appends to what it has collected; it fails only by revisiting a group |
| Reviewers.Expand | highfive/newpr.py:287-299 | the pop/extend work-list loop computes `Expansion` |
| Reviewers.ExpansionSound | highfive/newpr.py:290-299 | every collected name comes from an `@name` token of the work list or of a group reachable from it along group references that avoid seen groups |
| Reviewers.ExpansionKeepsLiterals | highfive/newpr.py:291-293 | every `@name` token of the pool ends up collected, with its multiplicity |
| Reviewers.OpenedFresh | highfive/newpr.py:294-297 | the expansion opens each group at most once, and only configured groups not seen before |
| Reviewers.OpenedReached | highfive/newpr.py:290-299 | every group the expansion opens is reachable from the work list |
| Reviewers.ReachedOpened | highfive/newpr.py:290-299 | when the expansion succeeds and `core` is not aliased, every reachable group gets opened |
| Reviewers.ExpansionCollects | highfive/newpr.py:290-299 | when the expansion succeeds and `core` is not aliased, it collects exactly the `@`-stripped literals of the work list and of the groups it opens, with their multiplicities |
| Reviewers.ExpansionExact | highfive/newpr.py:286-299 | for a pool that is not `core`'s own list: the opened groups are exactly the groups reachable from the pool without passing `all`, each once, and the reviewers are exactly the `@`-stripped literals of the pool and of those groups, with multiplicity |
| Reviewers.ReachedMembersCollected | highfive/newpr.py:290-299 | every `@name` that a reachable group lists is among the reviewers |
| Reviewers.RevisitFails | highfive/newpr.py:294-297 | a group token met after its group was expanded is an error |
| Reviewers.SelfReferenceFails | highfive/newpr.py:294-299 | a group that lists itself is an error once the expansion reaches it, except for `core` when the pool is `core`'s own list |
| Reviewers.RepeatedGroupFails | highfive/newpr.py:294-297 | a group token that occurs twice in the work list is an error |
| Reviewers.ExpansionFailsExactly | highfive/newpr.py:287-299 | from any state of the loop (with `core` not aliased), the expansion fails exactly when some configured group token is already seen and still to be met, or is met twice, counting the work list and the lists of every group reachable from it |
| Reviewers.ExpansionFails | highfive/newpr.py:286-299 | for a pool that is not `core`'s own list: the expansion fails exactly when a configured `all` group occurs in the pool or in a reachable group's list, or when some configured group name occurs twice in the pool and the reachable groups' lists together |
| Reviewers.CycleFails | highfive/newpr.py:294-299 | a reachable group that can be reached again from its own list, through a cycle of any length, makes the expansion fail |
| Reviewers.DiamondFails | highfive/newpr.py:294-299 | a group listed by two different reachable groups makes the expansion fail, with no cycle involved |
| Reviewers.TwoCycleExample | highfive/newpr.py:294-299 | `{A: [B], B: [A]}` with pool `[A]` fails |
| Reviewers.DiamondExample | highfive/newpr.py:294-299 | `{A: [C], B: [C], C: [@x]}` with pool `[A, B]` fails |
| Reviewers.CoreFallbackSelfReference | highfive/newpr.py:283-299 | when the pool is `core`'s own list, a self-referencing `core` doubles the list instead of failing |
| Reviewers.RemoveFirstSlices | highfive/newpr.py:301-302 | `remove` takes out the first occurrence of the author and keeps the rest in order |
| Reviewers.RemoveFirstCount | highfive/newpr.py:301-302 | removing takes exactly one occurrence of the author out of the candidates, if there is one |
| Reviewers.AuthorListedTwiceStays | highfive/newpr.py:301-302 | an author listed twice is still a candidate |
| Reviewers.Pick | highfive/newpr.py:304-308 | no reviewer exactly when there is no candidate; otherwise the reviewer is one of the candidates |
| Reviewers.PickReachesAll | highfive/newpr.py:306 | every candidate can be drawn |
| Reviewers.Candidates | highfive/newpr.py:232-302 | the candidates are the expansion less one occurrence of the author; they fail exactly when the expansion does |
| Reviewers.ChooseReviewer | highfive/newpr.py:232-308 | `choose_reviewer` returns the candidates' draw; it fails exactly when building the candidates fails |
| Reviewers.AuthorExcludedExample | highfive/newpr.py:280-302 | with `all = [@a, @b]` and author `a`, the only candidate is `b` |
| Mentions.MatchingKeys | highfive/newpr.py:338-343 | a key matches a path by prefix, or by suffix when the key ends in `.rs` |
| Mentions.MentionKeys | highfive/newpr.py:314-343 | without configured `dirs` no key is mentioned; every mentioned key is a `mentions` key (`MentionKeysSound`, `MentionKeysComplete` state which) |
| Mentions.MentionKeysSound | highfive/newpr.py:320-343 | every mentioned key is a `mentions` key that matched the full path of some header, and `dirs` is not empty |
| Mentions.MentionKeysComplete | highfive/newpr.py:320-343 | with `dirs` set, every `mentions` key that matches some header's full path is mentioned |
| Mentions.MentionKeysDistinct | highfive/newpr.py:339-343 | no key is mentioned twice |
| Mentions.MentionKeysOrder | highfive/newpr.py:322-343 | keys are ordered by first match: header order, then `mentions` key order |
| Mentions.RulesOf | highfive/newpr.py:345-347 | one rule per key, the rule configured for that key, in key order |
| Mentions.CollectMatches | highfive/newpr.py:338-343 | the inner loop over the `mentions` keys appends every new matching key |
| Mentions.ScanLine | highfive/newpr.py:323-343 | one line of the outer loop: a header with a non-empty path adds its matches, any other line adds nothing |
| Mentions.CollectKeys | highfive/newpr.py:314-343 | the outer loop collects `MentionKeys` |
| Mentions.MentionList | highfive/newpr.py:345-348 | the `mention_list` loop computes `RulesOf` |
| Mentions.GetToMention | highfive/newpr.py:310-348 | `get_to_mention` returns the rules of the mentioned keys in order, and nothing without `dirs` |
| ExplicitReviewer.MatchAt | highfive/newpr.py:37 | a match begins with `r?` or `R?` and captures a non-empty name of `[a-zA-Z0-9-]` characters |
| ExplicitReviewer.MatchAtSound | highfive/newpr.py:37 | what the greedy matcher captures satisfies the pattern read as a definition |
| ExplicitReviewer.MatchAtComplete | highfive/newpr.py:37 | whatever the pattern describes at a position, the matcher captures |
| ExplicitReviewer.SearchFromFirst | highfive/newpr.py:229 | the search returns the capture at the first matching position; it returns nothing only when no position matches |
| ExplicitReviewer.FindReviewer | highfive/newpr.py:223-230 | no body, no reviewer |
| ExplicitReviewer.FindReviewerFirst | highfive/newpr.py:223-230 | the reviewer found is the capture of the first match in the body; nothing is found only when nothing matches |
| ExplicitReviewer.RequestedNameShape | highfive/newpr.py:223-230 | a requested name is non-empty and holds no `@` or space |
| ExplicitReviewer.SearchSkipsPlainText | highfive/newpr.py:229 | text without `r`/`R` ahead of a request does not change what is found |
| ExplicitReviewer.PlainRequest | highfive/newpr.py:37 | `r? @carol` requests `carol` |
| ExplicitReviewer.SeparatorsAndStop | highfive/newpr.py:37 | mixed separators are skipped and the name stops at the first other character: `R?:- @bob-2!` requests `bob-2` |
| ExplicitReviewer.NoBoundaryNoRequest | highfive/newpr.py:37 | `\b` is needed: `rr? @x` requests nobody |
| ExplicitReviewer.EmptyNameNoRequest | highfive/newpr.py:37 | `r? @` requests nobody |
| Messages.Without | highfive/newpr.py:129 | the cc list is the rule's reviewers minus the integration user, and nothing else: every other reviewer keeps its multiplicity and the user has none |
| Messages.Paragraph | highfive/newpr.py:124-129 | a paragraph has at least three characters; its shape is stated by `ParagraphShape` |
| Messages.ParagraphShape | highfive/newpr.py:124-129 | a paragraph opens with the rule's message and a blank line when it has one, else with `cc `, and closes with `cc ` and the comma-joined reviewers other than the user |
| Messages.Paragraphs | highfive/newpr.py:121-129 | one paragraph per rule, in order |
| Messages.CommandsOf | highfive/newpr.py:130-132 | the commands are exactly those some rule configures |
| Messages.Trailers | highfive/newpr.py:133-136 | one trailer `<command> <head sha>` per command |
| Messages.MentionComment | highfive/newpr.py:119-138 | a comment is posted exactly when some rule is mentioned |
| Messages.CcParagraphs | highfive/newpr.py:120-132 | the first loop of `run_commands` builds the paragraphs joined by blank lines, and the commands in first-seen order |
| Messages.AppendTrailers | highfive/newpr.py:133-136 | the second loop appends the trailers, each after a blank line |
| Messages.RunCommands | highfive/newpr.py:117-138 | `run_commands` posts `MentionComment` |
| Messages.CommentOpensWithFirstMention | highfive/newpr.py:121-129 | the comment opens with the first rule's paragraph |
| Messages.CommentClosesWithLastCommand | highfive/newpr.py:133-136 | with some command configured, the comment ends with the last command and the head sha |
| Messages.CommandsOncePerName | highfive/newpr.py:118-133 | each configured command appears once, as the keys of a dict do |
| Messages.UserNeverCced | highfive/newpr.py:129 | the integration user is never cc'd; every other reviewer of the rule is |
| Messages.ExpectedBranch | highfive/newpr.py:195-196 | the configured `expected_branch`, and `master` when there is none |
| Messages.UnexpectedBranch | highfive/newpr.py:192-202 | a label without `:` is an error; otherwise the warning pair is the expected branch and a different actual branch |
| Messages.LabelBranch | highfive/newpr.py:196-202 | for `owner:branch`, the warning is raised exactly when `branch` differs from the expected branch (`master` by default) |
| Messages.ModifiesSubmodule | highfive/newpr.py:82-83 | the DOTALL `.*\+Subproject\scommit\s.*` pattern of line 38 matches exactly when the text appears anywhere in the diff |
| Messages.SubmoduleInContext | highfive/newpr.py:82-83 | text around a submodule change does not hide it |
| Messages.GitlinkLine | highfive/newpr.py:38 | a gitlink line `+Subproject commit …` is a submodule change |
| Messages.Bullets | highfive/newpr.py:164 | each warning becomes one `* ` bullet, in order |
| Messages.Warnings | highfive/newpr.py:153-161 | the warnings fail exactly for a label without `:`; there are at most two |
| Messages.WarningsComment | highfive/newpr.py:163-164 | a comment is posted exactly when there is a warning, and it opens with the warning header |
| Messages.PostWarnings | highfive/newpr.py:153-164 | the method builds `Warnings` |
| Messages.WarningsCases | highfive/newpr.py:153-161 | no warning exactly when the branch is the expected one and no submodule changes; the branch warning comes first and the submodule warning last |
| Messages.WelcomeMsg | highfive/newpr.py:177-186 | the welcome opens with the fixed thanks and closes with the fixed pointer to the contribution guide |
| Messages.WelcomeNamesReviewer | highfive/newpr.py:177-186 | the welcome names the reviewer as `@name (or someone else)` |
| Messages.WelcomeDefaultLink | highfive/newpr.py:182-186 | without a `contributing` link, or with an empty one, the welcome points to the Rust contribution guide |
| Messages.WelcomeConfiguredLink | highfive/newpr.py:183-186 | a configured link is the one the welcome points to |
| Messages.ReviewMsg | highfive/newpr.py:188-190 | with a reviewer, the note opens with `r? @reviewer` and ends with the "picked a reviewer" line; without one, it opens by addressing the submitter |
| Messages.ReviewMsgRoundTrip | highfive/newpr.py:188-190 | the review note of a picked reviewer requests that reviewer again under `reviewer_re` |
| Workflow.IsNewContributor | highfive/newpr.py:204-219 | a fork never has a new contributor; otherwise the commit search's answer decides |
| Workflow.GreetingTags | highfive/newpr.py:385-392 | the greeting holds the commit search exactly for non-forks, the welcome exactly for a newcomer, the review note exactly for a picked reviewer and an author who is not new, and no other request |
| Workflow.Greet | highfive/newpr.py:385-392 | the method makes the greeting requests in order: the commit search (not for forks), then `WelcomeNote(reviewer)` for a newcomer, or else `ReviewNote(reviewer, author)` when the reviewer was picked |
| Workflow.CcTags | highfive/newpr.py:378-383 | the cc step holds a cc comment exactly when some key is mentioned, and no other request |
| Workflow.CcStep | highfive/newpr.py:378-383 | the method posts `CcNote(rules of the mentioned keys, integration user, head sha)` exactly when some key is mentioned, and nothing otherwise |
| Workflow.AssignAndGreet | highfive/newpr.py:367-392 | the requests are, in order, the assignment of the requested reviewer (else the draw), the cc comment, then the greeting naming that same reviewer; a failed choice makes no request; the review note appears exactly when the reviewer was picked and the author is not new |
| Workflow.WarnLabelTags | highfive/newpr.py:394-397 | the warnings comment comes first and only with a warning, the labels last and only when configured, and nothing else |
| Workflow.WarnAndLabel | highfive/newpr.py:394-397 | the warnings comment is posted exactly when there is a warning, and first; the labels are added exactly when some are configured, and last; a malformed label stops both |
| Workflow.AssigningTags | highfive/newpr.py:363-392 | with assignees the assigning steps make no request; otherwise the first is the assignment; never a welcome and a review note together, a welcome only for a newcomer, a review note only without a requested reviewer |
| Workflow.PlanAssigns | highfive/newpr.py:356-383 | `new_pr` starts with the diff request; with assignees it assigns, ccs, greets and searches nothing; else its second request assigns the requested reviewer, or the draw, or choosing fails and nothing follows |
| Workflow.PlanGreets | highfive/newpr.py:385-392 | `new_pr` never posts both a welcome and a review note; a welcome only for a newcomer; a review note only when nobody was requested |
| Workflow.PlanWarns | highfive/newpr.py:394-397 | when `new_pr` does not fail, the warnings comment comes exactly when there are warnings and the labels exactly when some are configured |
| Workflow.PlanLabelsLast | highfive/newpr.py:396-397 | the labels, when added, are the last request |
| Workflow.PlanFailure | highfive/newpr.py:356-397 | `new_pr` fails only for a base label without `:` or when choosing a reviewer fails |
| Workflow.NewPr | highfive/newpr.py:356-397 | its requests are exactly `Plan`: the diff request; then, without assignees, the assignment of the requested reviewer or the draw, the cc comment, the commit search and the welcome or review note; then the warnings comment and the labels; it stops at the first failure, which is only the malformed base label or the failed choice (`PlanAssigns`, `PlanGreets`, `PlanWarns`, `PlanLabelsLast` and `PlanFailure` state what `Plan` holds) |
| Workflow.Run | highfive/newpr.py:65-72 | a ping gets the ping answer and does nothing; an opened pull request runs `new_pr`, makes exactly the requests of `Plan`, and answers `OK` unless it failed; any other event gets the unsupported answer and does nothing |

## Left out

- The HTTP layer is not modelled: `api_req`, its headers, gzip bodies, the `201` status tolerated by `set_assignee` and `post_comment`, and the `422` answer of the commit search. Requests are the `Action` values; the search's answer is the `firstTimer` parameter.
- Loading `<owner>/<repo>.json` and `_global.json`, and `UnsupportedRepoError`, are left out; both files come in as values.
- `random.seed()` and `random.choice` are left out; the draw is the `draw` parameter.
- `is_collaborator` and `add_labels`' request body are left out; the handler never calls the first, and the second is the `AddLabels` action.
- ExplicitReviewer.IsWordChar: `\b` is modelled over ASCII word characters. Python's `\w` also counts non-ASCII letters and digits, so a request right after such a character is found here and not by the source.
- Reviewers.MergeGroups: the overlap error carries every overlapping name. The source reports the first one in dictionary order.
- A missing payload key is not modelled. The payload is a typed value, so the `KeyError` the source would raise cannot happen here. The only errors modelled are the ones a well-formed payload can cause: the base label and the configuration.
- Messages.UnexpectedBranch: an `expected_branch` that is present but `null` is read as `master` here. The source would compare against `None` and always warn.
- A `mentions` entry without `reviewers` is not modelled: `MentionRule.reviewers` is a required field, so the `KeyError` the source raises at highfive/newpr.py:129 cannot happen here.
- A `_global.json` without `groups` is not modelled: the global groups come in as a value, so the `KeyError` at highfive/newpr.py:241 cannot happen here.
- Config.Lookup: duplicate keys in `mentions` are not modelled. `Lookup` takes the first entry with a key, while a loaded JSON object keeps the last one; the two agree whenever the keys are distinct, which is what a loaded object gives.
- Reviewers.ExpansionExact: the exact description of the collected reviewers holds only when the pool is not `core`'s own list. When it is, `groups['core']` is the work list itself, so opening `core` pushes the rest of the work list instead of `core`'s configured list; `CoreFallbackSelfReference` shows that case.
- Reviewers.ExpansionFails: the exact failure condition, and `CycleFails` and `DiamondFails` built on it, are stated for a pool that is not `core`'s own list, for the same reason; with the aliased `core`, a self-listing `core` does not fail, as `CoreFallbackSelfReference` shows.
- The values of `run_commands`' `commands` dict are not kept: every one of them is the head sha, which each trailer carries directly.
- A failure is recorded in `Outcome.failure`, the action list stops there, and `Run` gives no response. The exception's traceback and the web server's error page are not modelled.
- Workflow.Body: a comment action carries the data of its text (`Note`); the exact text is `Body` of it, built by the `Messages` functions. The workflow's contracts speak of the notes, not of the rendered strings.
