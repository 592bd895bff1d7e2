/**
 * The comments the handler posts: the cc comment for matched mentions
 * (`run_commands`), the warnings comment (`post_warnings`, with
 * `unexpected_branch` and `modifies_submodule`), and the welcome and review
 * comments (`welcome_msg`, `review_msg`).
 */
module Messages {
  import opened Text
  import opened Config
  import ExplicitReviewer

  const PARAGRAPH_SEP := "\n\n"

  // ---------------------------------------------------------------------
  // The cc comment
  // ---------------------------------------------------------------------

  /** The reviewers of a mention other than `user`, in order. */
  function Without(reviewers: seq<string>, user: string): (r: seq<string>)
    ensures |r| <= |reviewers|
    ensures forall x :: x in r <==> x in reviewers && x != user
    ensures forall x :: multiset(r)[x] == if x == user then 0 else multiset(reviewers)[x]
  {
    if reviewers == [] then []
    else
      assert reviewers == [reviewers[0]] + reviewers[1..];
      (if reviewers[0] == user then [] else [reviewers[0]]) + Without(reviewers[1..], user)
  }

  /** One mention's paragraph: its message and a blank line if it has one, then the cc line. */
  function Paragraph(rule: MentionRule, user: string): (p: string)
    ensures |p| >= 3
  {
    (if rule.message.Some? then rule.message.value + PARAGRAPH_SEP else "") +
    "cc " + Join(",", Without(rule.reviewers, user))
  }

  /**
   * A paragraph opens with the rule's message and a blank line, when it
   * has one, and closes with the cc line of its reviewers.
   */
  lemma ParagraphShape(rule: MentionRule, user: string)
    ensures var p := Paragraph(rule, user);
            (rule.message.Some? ==> StartsWith(p, rule.message.value + PARAGRAPH_SEP)) &&
            (rule.message.None? ==> StartsWith(p, "cc ")) &&
            EndsWith(p, "cc " + Join(",", Without(rule.reviewers, user)))
  {
    var lead := if rule.message.Some? then rule.message.value + PARAGRAPH_SEP else "";
    var cc := "cc " + Join(",", Without(rule.reviewers, user));
    StartsWithConcat(lead, cc);
    EndsWithConcat(lead, cc);
    StartsWithConcat("cc ", Join(",", Without(rule.reviewers, user)));
    assert rule.message.None? ==> lead + cc == cc;
  }

  /** The paragraphs of the mentions, in order. */
  function Paragraphs(rules: seq<MentionRule>, user: string): (ps: seq<string>)
    ensures |ps| == |rules|
    ensures forall i :: 0 <= i < |rules| ==> ps[i] == Paragraph(rules[i], user)
  {
    if rules == [] then []
    else Paragraphs(rules[..|rules| - 1], user) + [Paragraph(rules[|rules| - 1], user)]
  }

  /** The commands of the mentions that carry one, in order, repetitions kept. */
  function CommandsOf(rules: seq<MentionRule>): (cs: seq<string>)
    ensures forall c :: c in cs <==> exists i :: 0 <= i < |rules| && rules[i].command == Some(c)
  {
    if rules == [] then []
    else
      var init := rules[..|rules| - 1];
      var last := rules[|rules| - 1];
      assert forall i :: 0 <= i < |init| ==> init[i] == rules[i];
      CommandsOf(init) + (if last.command.Some? then [last.command.value] else [])
  }

  /** The keys of the `commands` dict: each command once, in order of first appearance. */
  function Commands(rules: seq<MentionRule>): seq<string> {
    Dedup(CommandsOf(rules))
  }

  /** One trailer line per command: the command and the head commit. */
  function Trailers(commands: seq<string>, sha: string): (ts: seq<string>)
    ensures |ts| == |commands|
    ensures forall i :: 0 <= i < |commands| ==> ts[i] == commands[i] + " " + sha
  {
    if commands == [] then []
    else Trailers(commands[..|commands| - 1], sha) + [commands[|commands| - 1] + " " + sha]
  }

  /**
   * The cc comment `run_commands` posts: nothing for no mentions, else the
   * paragraphs and then the trailers, separated by blank lines.
   */
  function MentionComment(rules: seq<MentionRule>, user: string, sha: string): (c: Option<string>)
    ensures c.None? <==> rules == []
  {
    if rules == [] then None
    else Some(Join(PARAGRAPH_SEP, Paragraphs(rules, user) + Trailers(Commands(rules), sha)))
  }

  lemma NonEmptyParts(parts: seq<string>, user: string, rules: seq<MentionRule>, commands: seq<string>, sha: string)
    requires parts == Paragraphs(rules, user) + Trailers(commands, sha)
    ensures forall i :: 0 <= i < |parts| ==> parts[i] != ""
  {
    forall i | 0 <= i < |parts|
      ensures parts[i] != ""
    {
      if i >= |rules| {
        assert parts[i] == commands[i - |rules|] + " " + sha;
        assert |parts[i]| >= 1;
      }
    }
  }

  /** The joined paragraphs grow by a blank line, unless empty, and the next paragraph. */
  lemma ParagraphStep(rules: seq<MentionRule>, user: string, i: nat)
    requires i < |rules|
    ensures var before := Join(PARAGRAPH_SEP, Paragraphs(rules[..i], user));
            (|before| > 0 <==> i > 0) &&
            Join(PARAGRAPH_SEP, Paragraphs(rules[..i + 1], user)) ==
              (if |before| > 0 then before + PARAGRAPH_SEP else before) + Paragraph(rules[i], user)
  {
    var done := Paragraphs(rules[..i], user);
    var paragraph := Paragraph(rules[i], user);
    assert rules[..i + 1][..i] == rules[..i] && rules[..i + 1][i] == rules[i];
    assert Paragraphs(rules[..i + 1], user) == done + [paragraph];
    NonEmptyParts(done, user, rules[..i], [], "");
    JoinEmpty(PARAGRAPH_SEP, done);
    if i > 0 {
      JoinSnoc(PARAGRAPH_SEP, done, paragraph);
    } else {
      assert done + [paragraph] == [paragraph];
    }
  }

  /** The recorded commands grow by the next mention's command when it is new. */
  lemma CommandStep(rules: seq<MentionRule>, i: nat)
    requires i < |rules|
    ensures var before := Dedup(CommandsOf(rules[..i]));
            var cmd := rules[i].command;
            Dedup(CommandsOf(rules[..i + 1])) ==
              if cmd.Some? && cmd.value !in before then before + [cmd.value] else before
  {
    var cmds := CommandsOf(rules[..i + 1]);
    assert rules[..i + 1][..i] == rules[..i] && rules[..i + 1][i] == rules[i];
    assert cmds == CommandsOf(rules[..i]) + (if rules[i].command.Some? then [rules[i].command.value] else []);
    if rules[i].command.Some? {
      assert cmds[..|cmds| - 1] == CommandsOf(rules[..i]);
    } else {
      assert cmds == CommandsOf(rules[..i]);
    }
  }

  /**
   * The loop of `run_commands` over the mentions: one paragraph each, with
   * a blank line before all but the first, and each command recorded once.
   */
  method CcParagraphs(rules: seq<MentionRule>, user: string) returns (message: string, commands: seq<string>)
    ensures message == Join(PARAGRAPH_SEP, Paragraphs(rules, user))
    ensures commands == Commands(rules)
  {
    message := "";
    commands := [];
    for i := 0 to |rules|
      invariant message == Join(PARAGRAPH_SEP, Paragraphs(rules[..i], user))
      invariant commands == Dedup(CommandsOf(rules[..i]))
    {
      ParagraphStep(rules, user, i);
      CommandStep(rules, i);
      if |message| > 0 {
        message := message + PARAGRAPH_SEP;
      }
      var msg := "";
      if rules[i].message.Some? {
        msg := rules[i].message.value + PARAGRAPH_SEP;
      }
      var paragraph := msg + "cc " + Join(",", Without(rules[i].reviewers, user));
      assert paragraph == Paragraph(rules[i], user);
      message := message + paragraph;
      var cmd := rules[i].command;
      if cmd.Some? {
        if cmd.value !in commands {
          commands := commands + [cmd.value];
        }
      }
    }
    assert rules[..|rules|] == rules;
  }

  /**
   * The loop of `run_commands` over the recorded commands: one trailer line
   * each, after a blank line when the message is not empty.
   */
  method AppendTrailers(message: string, paragraphs: seq<string>, commands: seq<string>, sha: string)
    returns (full: string)
    requires paragraphs != [] && forall i :: 0 <= i < |paragraphs| ==> paragraphs[i] != ""
    requires message == Join(PARAGRAPH_SEP, paragraphs)
    ensures full == Join(PARAGRAPH_SEP, paragraphs + Trailers(commands, sha))
  {
    full := message;
    assert paragraphs + Trailers(commands[..0], sha) == paragraphs;
    for k := 0 to |commands|
      invariant full == Join(PARAGRAPH_SEP, paragraphs + Trailers(commands[..k], sha))
    {
      var done := paragraphs + Trailers(commands[..k], sha);
      var line := commands[k] + " " + sha;
      assert commands[..k + 1][..k] == commands[..k] && commands[..k + 1][k] == commands[k];
      assert Trailers(commands[..k + 1], sha) == Trailers(commands[..k], sha) + [line];
      assert paragraphs + Trailers(commands[..k + 1], sha) == done + [line];
      assert done[0] == paragraphs[0] != "";
      JoinSnoc(PARAGRAPH_SEP, done, line);
      assert |Join(PARAGRAPH_SEP, done)| > 0 by {
        assert |Join(PARAGRAPH_SEP, done)| >= |done[0]|;
      }
      if |full| > 0 {
        full := full + PARAGRAPH_SEP;
      }
      full := full + commands[k] + " " + sha;
    }
    assert commands[..|commands|] == commands;
  }

  /**
   * `run_commands`, the message part: nothing for no mentions, else the
   * paragraphs and then the trailers; the comment is posted when not empty.
   */
  method RunCommands(rules: seq<MentionRule>, user: string, sha: string) returns (comment: Option<string>)
    ensures comment == MentionComment(rules, user, sha)
  {
    comment := None;
    if |rules| > 0 {
      var message, commands := CcParagraphs(rules, user);
      var paragraphs := Paragraphs(rules, user);
      NonEmptyParts(paragraphs, user, rules, [], "");
      assert paragraphs + [] == paragraphs;
      message := AppendTrailers(message, paragraphs, commands, sha);
      assert |message| > 0 by {
        var parts := paragraphs + Trailers(commands, sha);
        assert parts[0] == paragraphs[0];
        assert |Join(PARAGRAPH_SEP, parts)| >= |parts[0]| >= 3;
      }
      if |message| > 0 {
        comment := Some(message);
      }
    }
  }

  /** The cc comment opens with the first mention's paragraph. */
  lemma CommentOpensWithFirstMention(rules: seq<MentionRule>, user: string, sha: string)
    requires rules != []
    ensures StartsWith(MentionComment(rules, user, sha).value, Paragraph(rules[0], user))
  {
    var parts := Paragraphs(rules, user) + Trailers(Commands(rules), sha);
    JoinPrefix(PARAGRAPH_SEP, parts, 1);
    assert parts[..1] == [Paragraph(rules[0], user)];
  }

  /** With some command among the mentions, the cc comment closes with the last command's trailer. */
  lemma CommentClosesWithLastCommand(rules: seq<MentionRule>, user: string, sha: string)
    requires Commands(rules) != []
    ensures var cs := Commands(rules);
            EndsWith(MentionComment(rules, user, sha).value, cs[|cs| - 1] + " " + sha)
  {
    var cs := Commands(rules);
    var last := cs[|cs| - 1];
    assert exists i :: 0 <= i < |rules| && rules[i].command == Some(last);
    var front := Paragraphs(rules, user) + Trailers(cs[..|cs| - 1], sha);
    TrailersSnoc(cs, sha);
    assert Paragraphs(rules, user) + Trailers(cs, sha) == front + [last + " " + sha];
    JoinSnoc(PARAGRAPH_SEP, front, last + " " + sha);
  }

  lemma TrailersSnoc(cs: seq<string>, sha: string)
    requires cs != []
    ensures Trailers(cs, sha) == Trailers(cs[..|cs| - 1], sha) + [cs[|cs| - 1] + " " + sha]
  {
  }

  /** Every command appears in exactly one trailer, and every trailer names a command of some mention. */
  lemma CommandsOncePerName(rules: seq<MentionRule>, c: string)
    ensures c in Commands(rules) <==> exists i :: 0 <= i < |rules| && rules[i].command == Some(c)
    ensures Distinct(Commands(rules))
  {
  }

  /** The user the handler acts as is never cc'd. */
  lemma UserNeverCced(rule: MentionRule, user: string)
    ensures user !in Without(rule.reviewers, user)
    ensures forall x :: x in rule.reviewers && x != user ==> x in Without(rule.reviewers, user)
  {
  }

  // ---------------------------------------------------------------------
  // The warnings comment
  // ---------------------------------------------------------------------

  const WARNING_HEADER := ":warning: **Warning** :warning:\n\n"
  const SUBMODULE_WARNING := "These commits modify **submodules**."
  const DEFAULT_BRANCH := "master"

  function SurpriseBranchWarning(expected: string, actual: string): string {
    "Pull requests are usually filed against the " + expected +
    " branch for this repo, but this one is against " + actual +
    ". Please double check that you specified the right target!"
  }

  /** `expected_branch`, `master` when the configuration has none. */
  function ExpectedBranch(config: RepoConfig): (b: string)
    ensures config.expectedBranch.None? ==> b == DEFAULT_BRANCH
    ensures config.expectedBranch.Some? ==> b == config.expectedBranch.value
  {
    config.expectedBranch.GetOr(DEFAULT_BRANCH)
  }

  /**
   * `unexpected_branch`: the pair (expected, actual) when the branch after
   * the first `:` of the base label is not the expected one; a base label
   * without `:` is an IndexError.
   */
  function UnexpectedBranch(config: RepoConfig, baseLabel: string): (r: Result<Option<(string, string)>, Failure>)
    ensures r.Err? <==> ':' !in baseLabel
    ensures r.Err? ==> r.error == MalformedBaseLabel(baseLabel)
    ensures r.Ok? && r.value.Some? ==> r.value.value.0 == ExpectedBranch(config) && r.value.value.0 != r.value.value.1
  {
    var parts := Split(baseLabel, ':');
    SplitSeveral(baseLabel, ':');
    if |parts| < 2 then Err(MalformedBaseLabel(baseLabel))
    else if ExpectedBranch(config) != parts[1] then Ok(Some((ExpectedBranch(config), parts[1])))
    else Ok(None)
  }

  /** For a label `owner:branch`, the branch compared is `branch`. */
  lemma LabelBranch(config: RepoConfig, owner: string, branch: string)
    requires ':' !in owner && ':' !in branch
    ensures UnexpectedBranch(config, owner + ":" + branch) ==
            if ExpectedBranch(config) == branch then Ok(None) else Ok(Some((ExpectedBranch(config), branch)))
  {
    var baseLabel := owner + ":" + branch;
    assert Join([':'], [owner, branch]) == baseLabel;
    SplitJoin([owner, branch], ':');
  }

  /** A character Python's `\s` matches in a text pattern. */
  predicate IsSpace(c: char) {
    ('\t' <= c <= '\r') || ('\U{1c}' <= c <= ' ') || c == '\U{85}' || c == '\U{a0}' ||
    c == '\U{1680}' || ('\U{2000}' <= c <= '\U{200a}') || c == '\U{2028}' || c == '\U{2029}' ||
    c == '\U{202f}' || c == '\U{205f}' || c == '\U{3000}'
  }

  /** `+Subproject`, a space, `commit` and a space, starting at `p`. */
  predicate SubprojectAt(s: string, p: nat) {
    p + 19 <= |s| && s[p..p + 11] == "+Subproject" && IsSpace(s[p + 11]) &&
    s[p + 12..p + 18] == "commit" && IsSpace(s[p + 18])
  }

  /** A `SubprojectAt` position at or after `from`. */
  function SubprojectFrom(s: string, from: nat): (b: bool)
    requires from <= |s|
    ensures b <==> exists p :: from <= p <= |s| && SubprojectAt(s, p)
    decreases |s| - from
  {
    if SubprojectAt(s, from) then true
    else if from == |s| then false
    else SubprojectFrom(s, from + 1)
  }

  /**
   * `modifies_submodule`: the pattern `.*\+Subproject\scommit\s.*` with
   * DOTALL, matched at the start, holds exactly when the text appears anywhere.
   */
  function ModifiesSubmodule(diff: string): (b: bool)
    ensures b <==> exists p :: 0 <= p <= |diff| && SubprojectAt(diff, p)
  {
    SubprojectFrom(diff, 0)
  }

  /** Text around a submodule change still modifies a submodule. */
  lemma SubmoduleInContext(before: string, diff: string, after: string)
    requires ModifiesSubmodule(diff)
    ensures ModifiesSubmodule(before + diff + after)
  {
    var p :| 0 <= p <= |diff| && SubprojectAt(diff, p);
    var whole := before + diff + after;
    assert whole[|before| + p..|before| + p + 19] == diff[p..p + 19];
    assert SubprojectAt(whole, |before| + p);
  }

  /** A gitlink line of a diff modifies a submodule. */
  lemma GitlinkLine()
    ensures ModifiesSubmodule("+Subproject commit 1f2e3d\n")
  {
    var s := "+Subproject commit 1f2e3d\n";
    assert s[0..11] == "+Subproject" && s[12..18] == "commit";
    assert SubprojectAt(s, 0);
  }

  /** A warning of `post_warnings`. */
  datatype Warning = WrongBranch(expected: string, actual: string) | SubmoduleChange

  function WarningText(w: Warning): string {
    match w
    case WrongBranch(expected, actual) => SurpriseBranchWarning(expected, actual)
    case SubmoduleChange => SUBMODULE_WARNING
  }

  /** The bullet list items of the warnings. */
  function Bullets(warnings: seq<Warning>): (bs: seq<string>)
    ensures |bs| == |warnings|
    ensures forall i :: 0 <= i < |warnings| ==> bs[i] == "* " + WarningText(warnings[i])
  {
    if warnings == [] then [] else ["* " + WarningText(warnings[0])] + Bullets(warnings[1..])
  }

  /** The warnings, branch mismatch first, then submodules; a malformed base label fails first. */
  function Warnings(config: RepoConfig, baseLabel: string, diff: string): (r: Result<seq<Warning>, Failure>)
    ensures r.Err? <==> ':' !in baseLabel
    ensures r.Err? ==> r.error == MalformedBaseLabel(baseLabel)
    ensures r.Ok? ==> |r.value| <= 2
  {
    match UnexpectedBranch(config, baseLabel)
    case Err(e) => Err(e)
    case Ok(surprise) =>
      Ok((if surprise.Some? then [WrongBranch(surprise.value.0, surprise.value.1)] else []) +
         (if ModifiesSubmodule(diff) then [SubmoduleChange] else []))
  }

  /** The warnings comment: nothing when there is no warning, else the header and the bullet list. */
  function WarningsComment(warnings: seq<Warning>): (c: Option<string>)
    ensures c.None? <==> warnings == []
    ensures c.Some? ==> StartsWith(c.value, WARNING_HEADER)
  {
    if warnings == [] then None
    else
      StartsWithConcat(WARNING_HEADER, Join("\n", Bullets(warnings)));
      Some(WARNING_HEADER + Join("\n", Bullets(warnings)))
  }

  /**
   * The list `post_warnings` builds: the branch warning, then the
   * submodule warning, appended in turn. The comment it posts is the
   * `WarningsComment` of the list.
   */
  method PostWarnings(config: RepoConfig, baseLabel: string, diff: string) returns (r: Result<seq<Warning>, Failure>)
    ensures r == Warnings(config, baseLabel, diff)
  {
    var warnings: seq<Warning> := [];
    var surprise := UnexpectedBranch(config, baseLabel);
    if surprise.Err? {
      return Err(surprise.error);
    }
    if surprise.value.Some? {
      warnings := warnings + [WrongBranch(surprise.value.value.0, surprise.value.value.1)];
    }
    var branchPart := warnings;
    if ModifiesSubmodule(diff) {
      warnings := warnings + [SubmoduleChange];
    }
    assert warnings == branchPart + (if ModifiesSubmodule(diff) then [SubmoduleChange] else []);
    assert branchPart == (if surprise.value.Some? then [WrongBranch(surprise.value.value.0, surprise.value.value.1)] else []);
    assert surprise == UnexpectedBranch(config, baseLabel);
    assert Warnings(config, baseLabel, diff) == Ok(warnings);
    return Ok(warnings);
  }

  /**
   * For a label `owner:branch` there is no warning exactly when the branch
   * is the expected one and no submodule changes; the branch warning comes
   * first and the submodule warning last.
   */
  lemma WarningsCases(config: RepoConfig, owner: string, branch: string, diff: string)
    requires ':' !in owner && ':' !in branch
    ensures var w := Warnings(config, owner + ":" + branch, diff);
            w.Ok? &&
            (w.value == [] <==> ExpectedBranch(config) == branch && !ModifiesSubmodule(diff)) &&
            (ExpectedBranch(config) != branch ==> w.value[0] == WrongBranch(ExpectedBranch(config), branch)) &&
            (ModifiesSubmodule(diff) ==> w.value[|w.value| - 1] == SubmoduleChange)
  {
    LabelBranch(config, owner, branch);
    var w := Warnings(config, owner + ":" + branch, diff);
    var branchPart := if ExpectedBranch(config) != branch then [WrongBranch(ExpectedBranch(config), branch)] else [];
    var submodulePart := if ModifiesSubmodule(diff) then [SubmoduleChange] else [];
    assert w == Ok(branchPart + submodulePart);
  }

  // ---------------------------------------------------------------------
  // The welcome and review comments
  // ---------------------------------------------------------------------

  const DEFAULT_CONTRIBUTING := "https://github.com/rust-lang/rust/blob/master/CONTRIBUTING.md"
  const WITHOUT_REVIEWER := "@nrc (NB. this repo may be misconfigured)"

  const WELCOME_HEAD := "Thanks for the pull request, and welcome! The Rust team is excited to review your changes, and you should hear from "
  const WELCOME_MIDDLE := " soon.\n\nIf any changes to this PR are deemed necessary, please add them as extra commits. This ensures that the reviewer can see what has changed since they last reviewed the code. Due to the way GitHub handles out-of-date commits, this should also make it reasonably obvious what issues have or haven't been addressed. Large or tricky changes may require several passes of review and changes.\n\nPlease see [the contribution instructions]("
  const WELCOME_TAIL := ") for more information.\n"

  /** Who the newcomer will hear from. */
  function WelcomeWho(reviewer: Option<string>): string {
    match reviewer
    case None => WITHOUT_REVIEWER
    case Some(r) => "@" + r + " (or someone else)"
  }

  /** The contribution guide: the configured `contributing` link unless absent or empty. */
  function ContributingLink(config: RepoConfig): string {
    if config.contributing.None? || config.contributing.value == "" then DEFAULT_CONTRIBUTING
    else config.contributing.value
  }

  /** `welcome_msg` */
  function WelcomeMsg(config: RepoConfig, reviewer: Option<string>): (m: string)
    ensures StartsWith(m, WELCOME_HEAD)
    ensures EndsWith(m, WELCOME_TAIL)
  {
    FivePieces(WELCOME_HEAD, WelcomeWho(reviewer), WELCOME_MIDDLE, ContributingLink(config), WELCOME_TAIL);
    WELCOME_HEAD + WelcomeWho(reviewer) + WELCOME_MIDDLE + ContributingLink(config) + WELCOME_TAIL
  }

  /** The welcome comment names the reviewer right after its fixed opening. */
  lemma WelcomeNamesReviewer(config: RepoConfig, reviewer: string)
    ensures StartsWith(WelcomeMsg(config, Some(reviewer))[|WELCOME_HEAD|..], "@" + reviewer + " (or someone else)")
  {
    FivePieces(WELCOME_HEAD, WelcomeWho(Some(reviewer)), WELCOME_MIDDLE, ContributingLink(config), WELCOME_TAIL);
  }

  /** Without a configured guide, the welcome comment links the Rust contribution guide. */
  lemma WelcomeDefaultLink(config: RepoConfig, reviewer: Option<string>)
    requires config.contributing.None? || config.contributing == Some("")
    ensures EndsWith(WelcomeMsg(config, reviewer), DEFAULT_CONTRIBUTING + WELCOME_TAIL)
  {
    FivePieces(WELCOME_HEAD, WelcomeWho(reviewer), WELCOME_MIDDLE, DEFAULT_CONTRIBUTING, WELCOME_TAIL);
  }

  /** A configured, non-empty guide is the one linked. */
  lemma WelcomeConfiguredLink(config: RepoConfig, reviewer: Option<string>)
    requires config.contributing.Some? && config.contributing.value != ""
    ensures EndsWith(WelcomeMsg(config, reviewer), config.contributing.value + WELCOME_TAIL)
  {
    FivePieces(WELCOME_HEAD, WelcomeWho(reviewer), WELCOME_MIDDLE, config.contributing.value, WELCOME_TAIL);
  }

  lemma FivePieces(a: string, b: string, c: string, d: string, e: string)
    ensures StartsWith(a + b + c + d + e, a)
    ensures StartsWith((a + b + c + d + e)[|a|..], b)
    ensures EndsWith(a + b + c + d + e, d + e)
    ensures EndsWith(a + b + c + d + e, e)
  {
    assert (a + b + c + d + e)[..|a|] == a;
    assert (a + b + c + d + e)[|a + b + c + d|..] == e;
    assert (a + b + c + d + e)[|a|..] == b + (c + d + e);
    StartsWithConcat(b, c + d + e);
    assert a + b + c + d + e == (a + b + c) + (d + e);
    EndsWithConcat(a + b + c, d + e);
  }

  const REVIEW_NOTE := "(rust_highfive has picked a reviewer for you, use r? to override)"

  /** `review_msg`: hand the pull request to the chosen reviewer, or tell the author none was found. */
  function ReviewMsg(reviewer: Option<string>, submitter: string): (m: string)
    ensures reviewer.Some? ==> StartsWith(m, "r? @" + reviewer.value) && EndsWith(m, REVIEW_NOTE)
    ensures reviewer.None? ==> StartsWith(m, "@" + submitter + ": ")
  {
    match reviewer
    case None =>
      StartsWithConcat("@" + submitter + ": ", "no appropriate reviewer found, use r? to override");
      "@" + submitter + ": " + "no appropriate reviewer found, use r? to override"
    case Some(r) =>
      StartsWithConcat("r? @" + r, PARAGRAPH_SEP + REVIEW_NOTE);
      assert "r? @" + r + PARAGRAPH_SEP + REVIEW_NOTE == ("r? @" + r) + (PARAGRAPH_SEP + REVIEW_NOTE);
      EndsWithConcat("r? @" + r + PARAGRAPH_SEP, REVIEW_NOTE);
      "r? @" + r + PARAGRAPH_SEP + REVIEW_NOTE
  }

  /**
   * The review comment is itself a reviewer request: read back with the
   * same pattern, it names the chosen reviewer.
   */
  lemma ReviewMsgRoundTrip(reviewer: string, submitter: string)
    requires reviewer != [] && forall k :: 0 <= k < |reviewer| ==> ExplicitReviewer.IsNameChar(reviewer[k])
    ensures ExplicitReviewer.FindReviewer(Some(ReviewMsg(Some(reviewer), submitter))) == Some(reviewer)
  {
    var s := ReviewMsg(Some(reviewer), submitter);
    var head := "r? @" + reviewer;
    assert s == head + (PARAGRAPH_SEP + REVIEW_NOTE);
    assert s[4..4 + |reviewer|] == reviewer;
    assert s[|head|] == PARAGRAPH_SEP[0] == '\n';
    assert ExplicitReviewer.PatternWith(s, 0, 1, reviewer);
    ExplicitReviewer.MatchAtComplete(s, 0, reviewer);
  }
}
