/**
 * The webhook entry point (`run`) and the "pull request opened" handler
 * (`new_pr`) as the ordered list of requests they make to GitHub. The
 * answers the handler waits for (the diff, whether the author is new, the
 * random draw) are parameters; a failure stops the list where the source
 * raises.
 */
module Workflow {
  import opened Config
  import ExplicitReviewer
  import Reviewers
  import Mentions
  import Messages

  datatype CommentKind = CcMentions | Welcome | Review | WarningList

  /**
   * What a comment says, as the data its text is made from; `Body` gives
   * the text posted.
   */
  datatype Note =
    | CcNote(rules: seq<MentionRule>, user: string, sha: string) // the comment of `run_commands`
    | WelcomeNote(reviewer: Option<string>)                    // `welcome_msg`
    | ReviewNote(reviewer: Option<string>, submitter: string)  // `review_msg`
    | WarningsNote(warnings: seq<Messages.Warning>)            // `post_warnings`

  function Kind(n: Note): CommentKind {
    match n
    case CcNote(_, _, _) => CcMentions
    case WelcomeNote(_) => Welcome
    case ReviewNote(_, _) => Review
    case WarningsNote(_) => WarningList
  }

  /** The text of the comment posted for a note. */
  function Body(config: RepoConfig, n: Note): string {
    match n
    case CcNote(rules, user, sha) => Messages.MentionComment(rules, user, sha).GetOr("")
    case WelcomeNote(reviewer) => Messages.WelcomeMsg(config, reviewer)
    case ReviewNote(reviewer, submitter) => Messages.ReviewMsg(reviewer, submitter)
    case WarningsNote(warnings) => Messages.WarningsComment(warnings).GetOr("")
  }

  /** A request to GitHub, in the order the handler makes it. */
  datatype Action =
    | FetchDiff(url: string)                  // GET the pull request as a diff
    | Assign(reviewer: Option<string>)        // PATCH the issue's assignee
    | Comment(note: Note)                     // POST an issue comment with `Body(config, note)`
    | SearchCommits(author: string)           // the commit search of `is_new_contributor`
    | AddLabels(labels: seq<string>)

  /** What the handler did, and why it stopped early if it did. */
  datatype Outcome = Outcome(actions: seq<Action>, failure: Option<Failure>)

  /** The sort of a request, and for a comment its kind. */
  datatype Tag = Fetched | Assigned | Commented(kind: CommentKind) | Searched | Labelled

  function TagOf(a: Action): Tag {
    match a
    case FetchDiff(_) => Fetched
    case Assign(_) => Assigned
    case Comment(note) => Commented(Kind(note))
    case SearchCommits(_) => Searched
    case AddLabels(_) => Labelled
  }

  /** The sorts of request a list holds. */
  function Tags(actions: seq<Action>): set<Tag> {
    if actions == [] then {} else {TagOf(actions[0])} + Tags(actions[1..])
  }

  /** The sorts of request in a concatenation are those of its parts. */
  lemma {:induction false} TagsConcat(xs: seq<Action>, ys: seq<Action>)
    ensures Tags(xs + ys) == Tags(xs) + Tags(ys)
  {
    if xs == [] {
      assert xs + ys == ys;
    } else {
      assert (xs + ys)[1..] == xs[1..] + ys;
      TagsConcat(xs[1..], ys);
    }
  }

  lemma TagsOne(a: Action)
    ensures Tags([a]) == {TagOf(a)}
  {
    assert [a][1..] == [];
  }

  predicate HasComment(actions: seq<Action>, kind: CommentKind) {
    Commented(kind) in Tags(actions)
  }

  predicate Assigns(actions: seq<Action>) {
    Assigned in Tags(actions)
  }

  predicate Searches(actions: seq<Action>) {
    Searched in Tags(actions)
  }

  predicate Labels(actions: seq<Action>) {
    Labelled in Tags(actions)
  }

  /** Whether `is_new_contributor` answers yes: never for a fork, else the commit search's answer. */
  function IsNewContributor(pr: PullRequest, firstTimer: bool): (r: bool)
    ensures pr.fork ==> !r
    ensures !pr.fork ==> (r <==> firstTimer)
  {
    !pr.fork && firstTimer
  }

  /**
   * The requests that end the assigning branch: the commit search unless
   * the pull request comes from a fork, then the welcome for a newcomer, or
   * else the review note when the reviewer was chosen.
   */
  function Greeting(pr: PullRequest, reviewer: Option<string>, chosen: bool, firstTimer: bool): seq<Action> {
    (if !pr.fork then [SearchCommits(pr.author)] else []) +
    (if IsNewContributor(pr, firstTimer) then [Comment(WelcomeNote(reviewer))]
     else if chosen then [Comment(ReviewNote(reviewer, pr.author))]
     else [])
  }

  /** The sorts of request the greeting holds. */
  lemma GreetingTags(pr: PullRequest, reviewer: Option<string>, chosen: bool, firstTimer: bool)
    ensures var g := Greeting(pr, reviewer, chosen, firstTimer);
            (Searches(g) <==> !pr.fork) &&
            (HasComment(g, Welcome) <==> IsNewContributor(pr, firstTimer)) &&
            (HasComment(g, Review) <==> chosen && !IsNewContributor(pr, firstTimer)) &&
            !Assigns(g) && !HasComment(g, CcMentions) && !HasComment(g, WarningList) && !Labels(g)
  {
    var search: seq<Action> := if !pr.fork then [SearchCommits(pr.author)] else [];
    var greeting: seq<Action> :=
      if IsNewContributor(pr, firstTimer) then [Comment(WelcomeNote(reviewer))]
      else if chosen then [Comment(ReviewNote(reviewer, pr.author))]
      else [];
    if search != [] {
      TagsOne(search[0]);
    }
    if greeting != [] {
      TagsOne(greeting[0]);
    }
    TagsConcat(search, greeting);
  }

  /**
   * The end of the assigning branch of `new_pr`: ask whether the author is
   * new (not for forks), then welcome a newcomer, or else post the review
   * note when the reviewer was chosen rather than requested.
   */
  method Greet(config: RepoConfig, pr: PullRequest, reviewer: Option<string>, chosen: bool, firstTimer: bool)
    returns (actions: seq<Action>)
    ensures actions == Greeting(pr, reviewer, chosen, firstTimer)
    ensures Searches(actions) <==> !pr.fork
    ensures HasComment(actions, Welcome) <==> IsNewContributor(pr, firstTimer)
    ensures HasComment(actions, Review) <==> chosen && !IsNewContributor(pr, firstTimer)
    ensures IsNewContributor(pr, firstTimer) ==> Comment(WelcomeNote(reviewer)) in actions
    ensures chosen && !IsNewContributor(pr, firstTimer) ==> Comment(ReviewNote(reviewer, pr.author)) in actions
    ensures !Assigns(actions) && !HasComment(actions, CcMentions) && !HasComment(actions, WarningList) && !Labels(actions)
  {
    var search: seq<Action> := [];
    var newContributor := false;
    if !pr.fork {
      search := [SearchCommits(pr.author)];
      newContributor := firstTimer;
    }
    var greeting: seq<Action> := [];
    if newContributor {
      greeting := [Comment(WelcomeNote(reviewer))];
    } else if chosen {
      greeting := [Comment(ReviewNote(reviewer, pr.author))];
    }
    actions := search + greeting;
    GreetingTags(pr, reviewer, chosen, firstTimer);
    if greeting != [] {
      assert actions[|search|] == greeting[0];
    }
  }

  /** The cc comment for the rules of the mentioned keys, when some key is mentioned. */
  function CcActions(config: RepoConfig, integrationUser: string, pr: PullRequest, diff: string): seq<Action> {
    var rules := Mentions.RulesOf(config.mentions, Mentions.MentionKeys(config, diff));
    if rules != [] then [Comment(CcNote(rules, integrationUser, pr.headSha))] else []
  }

  /** The cc step holds a cc comment exactly when some key is mentioned, and nothing else. */
  lemma CcTags(config: RepoConfig, integrationUser: string, pr: PullRequest, diff: string)
    ensures var cc := CcActions(config, integrationUser, pr, diff);
            (HasComment(cc, CcMentions) <==> Mentions.MentionKeys(config, diff) != []) &&
            !Assigns(cc) && !Searches(cc) && !Labels(cc) &&
            !HasComment(cc, Welcome) && !HasComment(cc, Review) && !HasComment(cc, WarningList)
  {
    var cc := CcActions(config, integrationUser, pr, diff);
    if cc != [] {
      TagsOne(cc[0]);
    }
  }

  /** The cc step: the comment of `run_commands`, when there is one. */
  method CcStep(config: RepoConfig, integrationUser: string, pr: PullRequest, diff: string)
    returns (actions: seq<Action>)
    ensures actions == CcActions(config, integrationUser, pr, diff)
    ensures HasComment(actions, CcMentions) <==> Mentions.MentionKeys(config, diff) != []
    ensures var rules := Mentions.RulesOf(config.mentions, Mentions.MentionKeys(config, diff));
            rules != [] ==> actions == [Comment(CcNote(rules, integrationUser, pr.headSha))]
    ensures !Assigns(actions) && !Searches(actions) && !Labels(actions)
    ensures !HasComment(actions, Welcome) && !HasComment(actions, Review) && !HasComment(actions, WarningList)
  {
    var toMention := Mentions.GetToMention(config, diff);
    var cc := Messages.RunCommands(toMention, integrationUser, pr.headSha);
    actions := [];
    if cc.Some? {
      actions := [Comment(CcNote(toMention, integrationUser, pr.headSha))];
    }
    CcTags(config, integrationUser, pr, diff);
  }

  /** The reviewer to assign: the one the body requests, else the draw among the candidates. */
  function Assignee(config: RepoConfig, global: Groups, pr: PullRequest, diff: string, draw: nat)
    : Result<Option<string>, Failure>
  {
    var requested := ExplicitReviewer.FindReviewer(pr.body);
    if requested.Some? then Ok(requested)
    else
      match Reviewers.Candidates(config, global, diff, pr.author)
      case Err(e) => Err(e)
      case Ok(candidates) => Ok(Reviewers.Pick(candidates, draw))
  }

  /**
   * The requests `new_pr` makes between the diff and the warnings: none
   * when someone is assigned already; else the assignment, the cc comment
   * and the greeting, in that order, or the failure of choosing.
   */
  function Assigning(config: RepoConfig, integrationUser: string, global: Groups, pr: PullRequest,
                     diff: string, firstTimer: bool, draw: nat): Result<seq<Action>, Failure>
  {
    if pr.assignees != [] then Ok([])
    else
      match Assignee(config, global, pr, diff, draw)
      case Err(e) => Err(e)
      case Ok(reviewer) =>
        Ok([Assign(reviewer)] + CcActions(config, integrationUser, pr, diff) +
           Greeting(pr, reviewer, ExplicitReviewer.FindReviewer(pr.body).None?, firstTimer))
  }

  /**
   * The steps of `new_pr` while the pull request has no assignee: take the
   * reviewer the body requests, or choose one; assign, cc the matched
   * mentions, then greet.
   */
  method AssignAndGreet(config: RepoConfig, integrationUser: string, global: Groups, pr: PullRequest,
                        diff: string, firstTimer: bool, draw: nat)
    returns (actions: seq<Action>, failure: Option<Failure>)
    ensures var assignee := Assignee(config, global, pr, diff, draw);
            if assignee.Err? then actions == [] && failure == Some(assignee.error)
            else
              failure.None? &&
              actions == [Assign(assignee.value)] + CcActions(config, integrationUser, pr, diff) +
                         Greeting(pr, assignee.value, ExplicitReviewer.FindReviewer(pr.body).None?, firstTimer)
    ensures var requested := ExplicitReviewer.FindReviewer(pr.body);
            var candidates := Reviewers.Candidates(config, global, diff, pr.author);
            if requested.None? && candidates.Err? then
              actions == [] && failure == Some(candidates.error)
            else
              failure.None? && |actions| >= 1 &&
              actions[0] == Assign(if requested.Some? then requested else Reviewers.Pick(candidates.value, draw)) &&
              (HasComment(actions, CcMentions) <==> Mentions.MentionKeys(config, diff) != []) &&
              (Searches(actions) <==> !pr.fork) &&
              (HasComment(actions, Welcome) <==> IsNewContributor(pr, firstTimer)) &&
              (HasComment(actions, Review) <==> requested.None? && !IsNewContributor(pr, firstTimer)) &&
              !HasComment(actions, WarningList) && !Labels(actions)
  {
    var reviewer := ExplicitReviewer.FindReviewer(pr.body);
    ghost var requested := reviewer;
    var postMsg := false;
    if reviewer.None? {
      postMsg := true;
      var chosen := Reviewers.ChooseReviewer(config, global, diff, pr.author, draw);
      if chosen.Err? {
        return [], Some(chosen.error);
      }
      reviewer := chosen.value;
    }
    assert postMsg <==> requested.None?;
    var cc := CcStep(config, integrationUser, pr, diff);
    var greeting := Greet(config, pr, reviewer, postMsg, firstTimer);
    TagsOne(Assign(reviewer));
    TagsConcat([Assign(reviewer)], cc);
    TagsConcat([Assign(reviewer)] + cc, greeting);
    actions := [Assign(reviewer)] + cc + greeting;
    failure := None;
  }

  /** The warnings comment, when there is a warning, then the labels, when some are configured. */
  function WarnLabelActions(warnings: seq<Messages.Warning>, labels: seq<string>): seq<Action> {
    (if warnings != [] then [Comment(WarningsNote(warnings))] else []) +
    (if labels != [] then [AddLabels(labels)] else [])
  }

  /** The warnings comment comes first and only with a warning; the labels come last and only when configured. */
  lemma WarnLabelTags(warnings: seq<Messages.Warning>, labels: seq<string>)
    ensures var a := WarnLabelActions(warnings, labels);
            (HasComment(a, WarningList) <==> warnings != []) &&
            (warnings != [] ==> a[0] == Comment(WarningsNote(warnings))) &&
            (Labels(a) <==> labels != []) &&
            (labels != [] ==> a[|a| - 1] == AddLabels(labels)) &&
            !Assigns(a) && !Searches(a) &&
            !HasComment(a, CcMentions) && !HasComment(a, Welcome) && !HasComment(a, Review)
  {
    var comment: seq<Action> := if warnings != [] then [Comment(WarningsNote(warnings))] else [];
    var added: seq<Action> := if labels != [] then [AddLabels(labels)] else [];
    if comment != [] {
      TagsOne(comment[0]);
    }
    if added != [] {
      TagsOne(added[0]);
      assert (comment + added)[|comment + added| - 1] == added[0];
    }
    TagsConcat(comment, added);
  }

  /**
   * The steps of `new_pr` taken whoever is assigned: the warnings comment,
   * when there is a warning, then the configured labels, when there are
   * some. A base label without `:` stops before either.
   */
  method WarnAndLabel(config: RepoConfig, pr: PullRequest, diff: string)
    returns (actions: seq<Action>, failure: Option<Failure>)
    ensures var warnings := Messages.Warnings(config, pr.baseLabel, diff);
            if warnings.Err? then actions == [] && failure == Some(MalformedBaseLabel(pr.baseLabel))
            else
              failure.None? && actions == WarnLabelActions(warnings.value, config.newPrLabels) &&
              (HasComment(actions, WarningList) <==> warnings.value != []) &&
              (warnings.value != [] ==> actions[0] == Comment(WarningsNote(warnings.value))) &&
              (Labels(actions) <==> config.newPrLabels != []) &&
              (config.newPrLabels != [] ==> actions[|actions| - 1] == AddLabels(config.newPrLabels))
    ensures !Assigns(actions) && !Searches(actions)
    ensures !HasComment(actions, CcMentions) && !HasComment(actions, Welcome) && !HasComment(actions, Review)
  {
    actions := [];
    var warnings := Messages.PostWarnings(config, pr.baseLabel, diff);
    if warnings.Err? {
      return [], Some(warnings.error);
    }
    var comment: seq<Action> := [];
    if warnings.value != [] {
      comment := [Comment(WarningsNote(warnings.value))];
    }
    var labels: seq<Action> := [];
    if config.newPrLabels != [] {
      labels := [AddLabels(config.newPrLabels)];
    }
    actions := comment + labels;
    failure := None;
    WarnLabelTags(warnings.value, config.newPrLabels);
  }

  /**
   * What `new_pr` does, as a whole: the diff request, then the assigning
   * steps, then the warnings comment and the labels; a failure of either
   * stage ends the list there.
   */
  function Plan(config: RepoConfig, integrationUser: string, global: Groups, pr: PullRequest,
                diff: string, firstTimer: bool, draw: nat): Outcome
  {
    var assigning := Assigning(config, integrationUser, global, pr, diff, firstTimer, draw);
    var warnings := Messages.Warnings(config, pr.baseLabel, diff);
    if assigning.Err? then Outcome([FetchDiff(pr.url)], Some(assigning.error))
    else if warnings.Err? then Outcome([FetchDiff(pr.url)] + assigning.value, Some(warnings.error))
    else Outcome([FetchDiff(pr.url)] + assigning.value + WarnLabelActions(warnings.value, config.newPrLabels), None)
  }

  /** The sorts of request of the assigning steps. */
  lemma AssigningTags(config: RepoConfig, integrationUser: string, global: Groups, pr: PullRequest,
                      diff: string, firstTimer: bool, draw: nat)
    requires Assigning(config, integrationUser, global, pr, diff, firstTimer, draw).Ok?
    ensures var a := Assigning(config, integrationUser, global, pr, diff, firstTimer, draw).value;
            !HasComment(a, WarningList) && !Labels(a) &&
            !(HasComment(a, Welcome) && HasComment(a, Review)) &&
            (HasComment(a, Welcome) ==> IsNewContributor(pr, firstTimer)) &&
            (HasComment(a, Review) ==> ExplicitReviewer.FindReviewer(pr.body).None?) &&
            (pr.assignees != [] ==> a == []) &&
            (pr.assignees == [] ==> |a| >= 1 && a[0] == Assign(Assignee(config, global, pr, diff, draw).value))
  {
    if pr.assignees == [] {
      var reviewer := Assignee(config, global, pr, diff, draw).value;
      var chosen := ExplicitReviewer.FindReviewer(pr.body).None?;
      var cc := CcActions(config, integrationUser, pr, diff);
      var greeting := Greeting(pr, reviewer, chosen, firstTimer);
      TagsOne(Assign(reviewer));
      CcTags(config, integrationUser, pr, diff);
      GreetingTags(pr, reviewer, chosen, firstTimer);
      TagsConcat([Assign(reviewer)], cc);
      TagsConcat([Assign(reviewer)] + cc, greeting);
    }
  }

  /** `Plan` starts with the diff request, then assigns the requested or the drawn reviewer, or stops. */
  lemma PlanAssigns(config: RepoConfig, integrationUser: string, global: Groups, pr: PullRequest,
                  diff: string, firstTimer: bool, draw: nat)
    ensures var out := Plan(config, integrationUser, global, pr, diff, firstTimer, draw);
            |out.actions| >= 1 && out.actions[0] == FetchDiff(pr.url)
    // someone is already assigned: no assignment, cc, greeting or contributor check
    ensures var out := Plan(config, integrationUser, global, pr, diff, firstTimer, draw);
            pr.assignees != [] ==>
              !Assigns(out.actions) && !Searches(out.actions) && !HasComment(out.actions, CcMentions) &&
              !HasComment(out.actions, Welcome) && !HasComment(out.actions, Review)
    // a reviewer requested in the body is assigned as is, and no review note is posted
    ensures var out := Plan(config, integrationUser, global, pr, diff, firstTimer, draw);
            pr.assignees == [] && ExplicitReviewer.FindReviewer(pr.body).Some? ==>
              |out.actions| >= 2 && out.actions[1] == Assign(ExplicitReviewer.FindReviewer(pr.body)) &&
              !HasComment(out.actions, Review)
    // otherwise the reviewer is drawn from the candidates, or choosing fails and nothing else happens
    ensures var out := Plan(config, integrationUser, global, pr, diff, firstTimer, draw);
            pr.assignees == [] && ExplicitReviewer.FindReviewer(pr.body).None? ==>
              var candidates := Reviewers.Candidates(config, global, diff, pr.author);
              (candidates.Err? ==> out == Outcome([FetchDiff(pr.url)], Some(candidates.error))) &&
              (candidates.Ok? ==> |out.actions| >= 2 && out.actions[1] == Assign(Reviewers.Pick(candidates.value, draw)))
  {
    var assigning := Assigning(config, integrationUser, global, pr, diff, firstTimer, draw);
    var warnings := Messages.Warnings(config, pr.baseLabel, diff);
    var head := [FetchDiff(pr.url)];
    TagsOne(FetchDiff(pr.url));
    if assigning.Ok? {
      var a := assigning.value;
      AssigningTags(config, integrationUser, global, pr, diff, firstTimer, draw);
      TagsConcat(head, a);
      if |a| >= 1 {
        assert (head + a)[1] == a[0];
      }
      if warnings.Ok? {
        var tail := WarnLabelActions(warnings.value, config.newPrLabels);
        WarnLabelTags(warnings.value, config.newPrLabels);
        TagsConcat(head + a, tail);
        if |a| >= 1 {
          assert (head + a + tail)[1] == a[0];
        }
      }
    }
  }

  /** In `Plan`, only a newcomer is welcomed, only a drawn reviewer is announced, and never both. */
  lemma PlanGreets(config: RepoConfig, integrationUser: string, global: Groups, pr: PullRequest,
                  diff: string, firstTimer: bool, draw: nat)
    // the welcome and the review note never both
    ensures var out := Plan(config, integrationUser, global, pr, diff, firstTimer, draw);
            !(HasComment(out.actions, Welcome) && HasComment(out.actions, Review))
    ensures var out := Plan(config, integrationUser, global, pr, diff, firstTimer, draw);
            HasComment(out.actions, Welcome) ==> IsNewContributor(pr, firstTimer)
    ensures var out := Plan(config, integrationUser, global, pr, diff, firstTimer, draw);
            HasComment(out.actions, Review) ==> ExplicitReviewer.FindReviewer(pr.body).None?
  {
    var assigning := Assigning(config, integrationUser, global, pr, diff, firstTimer, draw);
    var warnings := Messages.Warnings(config, pr.baseLabel, diff);
    var head := [FetchDiff(pr.url)];
    TagsOne(FetchDiff(pr.url));
    if assigning.Ok? {
      var a := assigning.value;
      AssigningTags(config, integrationUser, global, pr, diff, firstTimer, draw);
      TagsConcat(head, a);
      if warnings.Ok? {
        var tail := WarnLabelActions(warnings.value, config.newPrLabels);
        WarnLabelTags(warnings.value, config.newPrLabels);
        TagsConcat(head + a, tail);
      }
    }
  }

  /** In `Plan`, the warnings comment and the labels come exactly when there are warnings and labels. */
  lemma PlanWarns(config: RepoConfig, integrationUser: string, global: Groups, pr: PullRequest,
                  diff: string, firstTimer: bool, draw: nat)
    // warnings and labels do not depend on the assignees
    ensures var out := Plan(config, integrationUser, global, pr, diff, firstTimer, draw);
            out.failure.None? ==>
              Messages.Warnings(config, pr.baseLabel, diff).Ok? &&
              (HasComment(out.actions, WarningList) <==> Messages.Warnings(config, pr.baseLabel, diff).value != []) &&
              (Labels(out.actions) <==> config.newPrLabels != [])
  {
    var assigning := Assigning(config, integrationUser, global, pr, diff, firstTimer, draw);
    var warnings := Messages.Warnings(config, pr.baseLabel, diff);
    var head := [FetchDiff(pr.url)];
    TagsOne(FetchDiff(pr.url));
    if assigning.Ok? {
      var a := assigning.value;
      AssigningTags(config, integrationUser, global, pr, diff, firstTimer, draw);
      TagsConcat(head, a);
      if warnings.Ok? {
        WarnLabelTags(warnings.value, config.newPrLabels);
        TagsConcat(head + a, WarnLabelActions(warnings.value, config.newPrLabels));
      }
    }
  }

  /** The labels, when `Plan` adds them, are its last request. */
  lemma PlanLabelsLast(config: RepoConfig, integrationUser: string, global: Groups, pr: PullRequest,
                       diff: string, firstTimer: bool, draw: nat)
    ensures var out := Plan(config, integrationUser, global, pr, diff, firstTimer, draw);
            Labels(out.actions) ==> out.actions[|out.actions| - 1] == AddLabels(config.newPrLabels)
  {
    var assigning := Assigning(config, integrationUser, global, pr, diff, firstTimer, draw);
    var warnings := Messages.Warnings(config, pr.baseLabel, diff);
    var head := [FetchDiff(pr.url)];
    TagsOne(FetchDiff(pr.url));
    if assigning.Ok? {
      var a := assigning.value;
      AssigningTags(config, integrationUser, global, pr, diff, firstTimer, draw);
      TagsConcat(head, a);
      if warnings.Ok? {
        var tail := WarnLabelActions(warnings.value, config.newPrLabels);
        WarnLabelTags(warnings.value, config.newPrLabels);
        TagsConcat(head + a, tail);
        if config.newPrLabels != [] {
          assert (head + a + tail)[|head + a + tail| - 1] == tail[|tail| - 1];
        }
      }
    }
  }

  /** `Plan` fails only for a base label without `:` or when choosing a reviewer fails. */
  lemma PlanFailure(config: RepoConfig, integrationUser: string, global: Groups, pr: PullRequest,
                   diff: string, firstTimer: bool, draw: nat)
    // a failure is the malformed base label or the failure of choosing
    ensures var out := Plan(config, integrationUser, global, pr, diff, firstTimer, draw);
            out.failure.Some? ==>
              out.failure.value == MalformedBaseLabel(pr.baseLabel) ||
              var candidates := Reviewers.Candidates(config, global, diff, pr.author);
              candidates.Err? && out.failure.value == candidates.error
  {
  }

  /**
   * `new_pr`: fetch the diff; when nobody is assigned yet, assign and
   * greet; then post the warnings and add the configured labels.
   */
  method NewPr(config: RepoConfig, integrationUser: string, global: Groups, pr: PullRequest,
               diff: string, firstTimer: bool, draw: nat)
    returns (out: Outcome)
    // the whole list: the diff, the assigning steps, then the warnings and labels
    ensures out == Plan(config, integrationUser, global, pr, diff, firstTimer, draw)
    ensures |out.actions| >= 1 && out.actions[0] == FetchDiff(pr.url)
    // someone is already assigned: no assignment, cc, greeting or contributor check
    ensures pr.assignees != [] ==>
              !Assigns(out.actions) && !Searches(out.actions) && !HasComment(out.actions, CcMentions) &&
              !HasComment(out.actions, Welcome) && !HasComment(out.actions, Review)
    // a reviewer requested in the body is assigned as is, and no review note is posted
    ensures pr.assignees == [] && ExplicitReviewer.FindReviewer(pr.body).Some? ==>
              |out.actions| >= 2 && out.actions[1] == Assign(ExplicitReviewer.FindReviewer(pr.body)) &&
              !HasComment(out.actions, Review)
    // otherwise the reviewer is drawn from the candidates, or choosing fails and nothing else happens
    ensures pr.assignees == [] && ExplicitReviewer.FindReviewer(pr.body).None? ==>
              var candidates := Reviewers.Candidates(config, global, diff, pr.author);
              (candidates.Err? ==> out == Outcome([FetchDiff(pr.url)], Some(candidates.error))) &&
              (candidates.Ok? ==> |out.actions| >= 2 && out.actions[1] == Assign(Reviewers.Pick(candidates.value, draw)))
    // the welcome and the review note never both
    ensures !(HasComment(out.actions, Welcome) && HasComment(out.actions, Review))
    ensures HasComment(out.actions, Welcome) ==> IsNewContributor(pr, firstTimer)
    ensures HasComment(out.actions, Review) ==> ExplicitReviewer.FindReviewer(pr.body).None?
    // warnings and labels do not depend on the assignees
    ensures out.failure.None? ==>
              Messages.Warnings(config, pr.baseLabel, diff).Ok? &&
              (HasComment(out.actions, WarningList) <==> Messages.Warnings(config, pr.baseLabel, diff).value != []) &&
              (Labels(out.actions) <==> config.newPrLabels != [])
    ensures Labels(out.actions) ==> out.actions[|out.actions| - 1] == AddLabels(config.newPrLabels)
    // a failure is the malformed base label or the failure of choosing
    ensures out.failure.Some? ==>
              out.failure.value == MalformedBaseLabel(pr.baseLabel) ||
              var candidates := Reviewers.Candidates(config, global, diff, pr.author);
              candidates.Err? && out.failure.value == candidates.error
  {
    PlanAssigns(config, integrationUser, global, pr, diff, firstTimer, draw);
    PlanGreets(config, integrationUser, global, pr, diff, firstTimer, draw);
    PlanWarns(config, integrationUser, global, pr, diff, firstTimer, draw);
    PlanLabelsLast(config, integrationUser, global, pr, diff, firstTimer, draw);
    PlanFailure(config, integrationUser, global, pr, diff, firstTimer, draw);
    var actions := [FetchDiff(pr.url)];
    if pr.assignees == [] {
      var greeting, failure := AssignAndGreet(config, integrationUser, global, pr, diff, firstTimer, draw);
      if failure.Some? {
        return Outcome(actions, failure);
      }
      actions := actions + greeting;
    }
    var tail, failure := WarnAndLabel(config, pr, diff);
    if failure.Some? {
      return Outcome(actions, failure);
    }
    out := Outcome(actions + tail, None);
  }

  const PING_RESPONSE := "Ping received! The webhook is configured correctly!\n"
  const OK_RESPONSE := "OK\n"
  const UNSUPPORTED_RESPONSE := "Unsupported webhook event.\n"

  /**
   * `run`: answer a ping, handle an opened pull request, refuse anything
   * else. A failure in the handler leaves no response.
   */
  method Run(event: string, action: string, config: RepoConfig, integrationUser: string, global: Groups,
             pr: PullRequest, diff: string, firstTimer: bool, draw: nat)
    returns (response: Option<string>, out: Outcome)
    ensures event == "ping" ==> response == Some(PING_RESPONSE) && out.actions == []
    ensures event == "pull_request" && action == "opened" ==>
              out == Plan(config, integrationUser, global, pr, diff, firstTimer, draw) &&
              |out.actions| >= 1 && out.actions[0] == FetchDiff(pr.url) &&
              (response.Some? <==> out.failure.None?) &&
              (response.Some? ==> response.value == OK_RESPONSE)
    ensures event != "ping" && !(event == "pull_request" && action == "opened") ==>
              response == Some(UNSUPPORTED_RESPONSE) && out.actions == []
  {
    if event == "ping" {
      return Some(PING_RESPONSE), Outcome([], None);
    } else if event == "pull_request" && action == "opened" {
      out := NewPr(config, integrationUser, global, pr, diff, firstTimer, draw);
      if out.failure.Some? {
        return None, out;
      }
      return Some(OK_RESPONSE), out;
    } else {
      return Some(UNSUPPORTED_RESPONSE), Outcome([], None);
    }
  }
}
