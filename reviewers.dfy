/**
 * Reviewer selection (`choose_reviewer`): merge the global groups into the
 * repository's, build the candidate pool from the `all` group and the
 * winning directory's entries (or the `core` group when that is empty),
 * expand group references with a last-in-first-out work list and a `seen`
 * set, drop one occurrence of the author and draw one of the rest.
 */
module Reviewers {
  import opened Text
  import opened Config
  import DiffScan

  /**
   * `groups` after the global groups are filled in. A global group whose
   * name the repository also defines fails the `assert`; the model reports
   * all such names at once, where the source names the first it meets.
   */
  function MergeGroups(repo: Groups, global: Groups): (r: Result<Groups, Failure>)
    ensures r.Err? <==> repo.Keys * global.Keys != {}
    ensures r.Err? ==> r.error == GroupOverlap(repo.Keys * global.Keys)
    ensures r.Ok? ==> r.value.Keys == repo.Keys + global.Keys
    ensures r.Ok? ==> (forall g :: g in repo ==> r.value[g] == repo[g]) &&
                      (forall g :: g in global ==> r.value[g] == global[g])
  {
    if repo.Keys * global.Keys != {} then Err(GroupOverlap(repo.Keys * global.Keys))
    else
      assert forall g :: g in repo ==> g !in global by {
        forall g | g in repo
          ensures g !in global
        {
          assert g !in repo.Keys * global.Keys;
        }
      }
      Ok(repo + global)
  }

  /**
   * The pool the expansion starts from. `isCore` records that the pool IS
   * the `core` group's list: the source assigns `potential = groups['core']`
   * without copying, so while it runs, `groups['core']` is the work list.
   */
  datatype Pool = Pool(tokens: seq<string>, isCore: bool)

  /** `dirs[most_changed]` when the winner has a configured entry, else nothing. */
  function DirEntries(dirs: map<string, seq<string>>, mostChanged: Option<string>): seq<string> {
    if mostChanged.Some? && mostChanged.value in dirs then dirs[mostChanged.value] else []
  }

  /**
   * `groups['all']` extended by the winning directory's entries; the `core`
   * group only when that is empty. A missing `all` group, or a missing
   * `core` group when it is needed, is a KeyError.
   */
  function CandidatePool(groups: Groups, dirs: map<string, seq<string>>, mostChanged: Option<string>): (r: Result<Pool, Failure>)
    ensures "all" !in groups ==> r == Err(MissingKey("all"))
    ensures "all" in groups && groups["all"] + DirEntries(dirs, mostChanged) != [] ==>
              r == Ok(Pool(groups["all"] + DirEntries(dirs, mostChanged), false))
    ensures "all" in groups && groups["all"] + DirEntries(dirs, mostChanged) == [] ==>
              r == if "core" in groups then Ok(Pool(groups["core"], true)) else Err(MissingKey("core"))
  {
    if "all" !in groups then Err(MissingKey("all"))
    else
      var potential := groups["all"] + DirEntries(dirs, mostChanged);
      if potential != [] then Ok(Pool(potential, false))
      else if "core" in groups then Ok(Pool(groups["core"], true))
      else Err(MissingKey("core"))
  }

  /** An `@user` token names a person; any other token may name a group. */
  predicate IsLiteral(token: string) {
    StartsWith(token, "@")
  }

  lemma LiteralFirstChar(token: string)
    ensures IsLiteral(token) <==> |token| > 0 && token[0] == '@'
  {
    if |token| > 0 && token[0] == '@' {
      assert token[..1] == "@";
    }
  }

  lemma UnseenShrinks(keys: set<string>, seen: set<string>, p: string)
    requires p in keys && p !in seen
    ensures |keys - (seen + {p})| < |keys - seen|
  {
    assert keys - seen == (keys - (seen + {p})) + {p};
  }

  /**
   * The expansion loop from a given state: `work` is the work list (popped
   * at its end), `seen` the expanded groups, `acc` the reviewers so far.
   * A literal is appended without its `@`; a group not seen yet is marked
   * seen and its tokens pushed; a group seen before fails the `assert`;
   * any other token is dropped. With `coreAliased`, the `core` group's list
   * is the work list itself, so expanding `core` pushes the remaining work
   * list a second time.
   */
  function Expansion(groups: Groups, work: seq<string>, seen: set<string>, coreAliased: bool, acc: seq<string>)
    : (r: Result<seq<string>, Failure>)
    ensures r.Err? ==> r.error.GroupRevisited? && r.error.name in groups
    ensures r.Ok? ==> |acc| <= |r.value| && r.value[..|acc|] == acc
    decreases |groups.Keys - seen|, |work|
  {
    if work == [] then Ok(acc)
    else
      var p := work[|work| - 1];
      var rest := work[..|work| - 1];
      if IsLiteral(p) then
        var r := Expansion(groups, rest, seen, coreAliased, acc + [p[1..]]);
        assert r.Ok? ==> r.value[..|acc|] == (acc + [p[1..]])[..|acc|];
        r
      else if p in groups then
        if p in seen then Err(GroupRevisited(p))
        else
          UnseenShrinks(groups.Keys, seen, p);
          if coreAliased && p == "core" then Expansion(groups, rest + rest, seen + {p}, coreAliased, acc)
          else Expansion(groups, rest + groups[p], seen + {p}, coreAliased, acc)
      else Expansion(groups, rest, seen, coreAliased, acc)
  }

  /** The loop of `choose_reviewer` that expands the pool into reviewer names. */
  method Expand(groups: Groups, pool: Pool) returns (r: Result<seq<string>, Failure>)
    ensures r == Expansion(groups, pool.tokens, {"all"}, pool.isCore, [])
  {
    var potential := pool.tokens;
    var reviewers: seq<string> := [];
    var seen := {"all"};
    while potential != []
      invariant Expansion(groups, potential, seen, pool.isCore, reviewers) == Expansion(groups, pool.tokens, {"all"}, pool.isCore, [])
      decreases |groups.Keys - seen|, |potential|
    {
      var p := potential[|potential| - 1];
      potential := potential[..|potential| - 1];
      if IsLiteral(p) {
        reviewers := reviewers + [p[1..]];
      } else if p in groups {
        if p in seen {
          return Err(GroupRevisited(p));
        }
        UnseenShrinks(groups.Keys, seen, p);
        seen := seen + {p};
        if pool.isCore && p == "core" {
          potential := potential + potential;
        } else {
          potential := potential + groups[p];
        }
      }
    }
    return Ok(reviewers);
  }

  /** The token a reviewer name came from. */
  function AsLiteral(name: string): string {
    "@" + name
  }

  /**
   * A chain of group references the expansion can follow from `work`: it
   * starts at a token of `work`, each later group is listed by the one
   * before it, and every group on it is configured, not yet seen and not
   * an `@name` token.
   */
  ghost predicate IsChain(groups: Groups, work: seq<string>, seen: set<string>, path: seq<string>) {
    |path| > 0 && path[0] in work &&
    (forall i :: 0 <= i < |path| ==> path[i] in groups && path[i] !in seen && !IsLiteral(path[i])) &&
    (forall i :: 0 <= i < |path| - 1 ==> Lists(groups, path[i], path[i + 1]))
  }

  /** The group `g` lists `token`. */
  predicate Lists(groups: Groups, g: string, token: string) {
    g in groups && token in groups[g]
  }

  /** The group `g` can be reached from `work` without passing a seen group. */
  ghost predicate Reaches(groups: Groups, work: seq<string>, seen: set<string>, g: string) {
    exists path :: IsChain(groups, work, seen, path) && path[|path| - 1] == g
  }

  /** Some group reachable from `work` lists `token`. */
  ghost predicate InReachedGroup(groups: Groups, work: seq<string>, seen: set<string>, token: string) {
    exists g :: g in groups && Reaches(groups, work, seen, g) && token in groups[g]
  }

  lemma InInit(work: seq<string>, x: string)
    requires work != [] && x in work[..|work| - 1]
    ensures x in work
  {
    var i :| 0 <= i < |work| - 1 && work[..|work| - 1][i] == x;
    assert work[i] == x;
  }

  /**
   * A chain that starts after a step of the expansion is a chain from
   * before it: a token of the remaining work list was in the work list
   * already, and a token pushed by opening `p` extends the chain by `p`.
   */
  lemma ChainLift(groups: Groups, work: seq<string>, seen: set<string>, p: string, pushed: seq<string>, path: seq<string>)
    returns (lifted: seq<string>)
    requires work != [] && p == work[|work| - 1]
    requires p in groups && p !in seen && !IsLiteral(p)
    requires pushed == groups[p] || pushed == work[..|work| - 1]
    requires IsChain(groups, work[..|work| - 1] + pushed, seen + {p}, path)
    ensures IsChain(groups, work, seen, lifted) && lifted[|lifted| - 1] == path[|path| - 1]
  {
    var rest := work[..|work| - 1];
    if path[0] in rest {
      InInit(work, path[0]);
      lifted := path;
    } else {
      assert path[0] in groups[p];
      lifted := [p] + path;
      assert Lists(groups, lifted[0], lifted[1]);
      forall i | 1 <= i < |lifted| - 1
        ensures Lists(groups, lifted[i], lifted[i + 1])
      {
        assert lifted[i] == path[i - 1] && lifted[i + 1] == path[i];
      }
    }
  }

  /** A chain from the remaining work list, with the same groups seen, is a chain from before the step. */
  lemma ChainFromInit(groups: Groups, work: seq<string>, seen: set<string>, path: seq<string>)
    requires work != [] && IsChain(groups, work[..|work| - 1], seen, path)
    ensures IsChain(groups, work, seen, path)
  {
    InInit(work, path[0]);
  }

  /**
   * Every reviewer the expansion adds is a literal `@name` token, written
   * without its `@`, that stood in the work list or in a group the
   * expansion reaches from it: group names, unknown tokens and the members
   * of groups never reached never become reviewers.
   */
  lemma {:induction false} ExpansionSound(groups: Groups, work: seq<string>, seen: set<string>, coreAliased: bool, acc: seq<string>, k: nat)
    requires Expansion(groups, work, seen, coreAliased, acc).Ok?
    requires |acc| <= k < |Expansion(groups, work, seen, coreAliased, acc).value|
    ensures var name := Expansion(groups, work, seen, coreAliased, acc).value[k];
            AsLiteral(name) in work || InReachedGroup(groups, work, seen, AsLiteral(name))
    decreases |groups.Keys - seen|, |work|
  {
    var p := work[|work| - 1];
    var rest := work[..|work| - 1];
    var whole := Expansion(groups, work, seen, coreAliased, acc);
    var name := whole.value[k];
    var token := AsLiteral(name);
    if IsLiteral(p) {
      var r := Expansion(groups, rest, seen, coreAliased, acc + [p[1..]]);
      assert whole == r;
      if k == |acc| {
        assert r.value[..|acc| + 1] == acc + [p[1..]];
        assert name == p[1..] && token == p;
      } else {
        ExpansionSound(groups, rest, seen, coreAliased, acc + [p[1..]], k);
        StepSound(groups, work, seen, rest, token);
      }
    } else if p in groups {
      UnseenShrinks(groups.Keys, seen, p);
      var pushed := if coreAliased && p == "core" then rest else groups[p];
      assert whole == Expansion(groups, rest + pushed, seen + {p}, coreAliased, acc);
      ExpansionSound(groups, rest + pushed, seen + {p}, coreAliased, acc, k);
      if token in rest {
        InInit(work, token);
      } else if token in pushed {
        assert pushed == groups[p];
        assert IsChain(groups, work, seen, [p]);
      } else {
        var g :| g in groups && Reaches(groups, rest + pushed, seen + {p}, g) && token in groups[g];
        var path :| IsChain(groups, rest + pushed, seen + {p}, path) && path[|path| - 1] == g;
        var lifted := ChainLift(groups, work, seen, p, pushed, path);
        assert Reaches(groups, work, seen, g);
      }
    } else {
      assert whole == Expansion(groups, rest, seen, coreAliased, acc);
      ExpansionSound(groups, rest, seen, coreAliased, acc, k);
      StepSound(groups, work, seen, rest, token);
    }
  }

  /** The conclusion of `ExpansionSound` for the remaining work list carries over to the whole one. */
  lemma StepSound(groups: Groups, work: seq<string>, seen: set<string>, rest: seq<string>, token: string)
    requires work != [] && rest == work[..|work| - 1]
    requires token in rest || InReachedGroup(groups, rest, seen, token)
    ensures token in work || InReachedGroup(groups, work, seen, token)
  {
    if token in rest {
      InInit(work, token);
    } else {
      var g :| g in groups && Reaches(groups, rest, seen, g) && token in groups[g];
      var path :| IsChain(groups, rest, seen, path) && path[|path| - 1] == g;
      ChainFromInit(groups, work, seen, path);
      assert Reaches(groups, work, seen, g);
    }
  }

  /** The names of the literal tokens of `work`, in order. */
  function Literals(work: seq<string>): (names: seq<string>)
    ensures |names| <= |work|
  {
    if work == [] then []
    else Literals(work[..|work| - 1]) + (if IsLiteral(work[|work| - 1]) then [work[|work| - 1][1..]] else [])
  }

  lemma {:induction false} LiteralsAppend(xs: seq<string>, ys: seq<string>)
    ensures Literals(xs + ys) == Literals(xs) + Literals(ys)
    decreases |ys|
  {
    if ys == [] {
      assert xs + ys == xs;
    } else {
      assert (xs + ys)[..|xs + ys| - 1] == xs + ys[..|ys| - 1];
      LiteralsAppend(xs, ys[..|ys| - 1]);
    }
  }

  /**
   * No literal of the work list is lost: every `@name` token in it ends up
   * among the reviewers, as often as it occurs, when the expansion succeeds.
   */
  lemma {:induction false} ExpansionKeepsLiterals(groups: Groups, work: seq<string>, seen: set<string>, coreAliased: bool, acc: seq<string>)
    requires Expansion(groups, work, seen, coreAliased, acc).Ok?
    ensures multiset(acc) + multiset(Literals(work)) <= multiset(Expansion(groups, work, seen, coreAliased, acc).value)
    decreases |groups.Keys - seen|, |work|
  {
    if work != [] {
      var p := work[|work| - 1];
      var rest := work[..|work| - 1];
      if IsLiteral(p) {
        ExpansionKeepsLiterals(groups, rest, seen, coreAliased, acc + [p[1..]]);
      } else if p in groups {
        UnseenShrinks(groups.Keys, seen, p);
        var pushed := if coreAliased && p == "core" then rest else groups[p];
        ExpansionKeepsLiterals(groups, rest + pushed, seen + {p}, coreAliased, acc);
        LiteralsAppend(rest, pushed);
      } else {
        ExpansionKeepsLiterals(groups, rest, seen, coreAliased, acc);
      }
    }
  }

  /**
   * The groups the expansion opens, in the order it opens them; it stops
   * where the expansion fails.
   */
  function Opened(groups: Groups, work: seq<string>, seen: set<string>, coreAliased: bool): seq<string>
    decreases |groups.Keys - seen|, |work|
  {
    if work == [] then []
    else
      var p := work[|work| - 1];
      var rest := work[..|work| - 1];
      if IsLiteral(p) then Opened(groups, rest, seen, coreAliased)
      else if p !in groups then Opened(groups, rest, seen, coreAliased)
      else if p in seen then []
      else
        UnseenShrinks(groups.Keys, seen, p);
        [p] + Opened(groups, rest + (if coreAliased && p == "core" then rest else groups[p]), seen + {p}, coreAliased)
  }

  /** The names of the literal tokens the groups `gs` list, group after group. */
  function GroupLiterals(groups: Groups, gs: seq<string>): seq<string> {
    if gs == [] then []
    else (if gs[0] in groups then Literals(groups[gs[0]]) else []) + GroupLiterals(groups, gs[1..])
  }

  /** The expansion opens each group once, and only configured groups not seen before. */
  lemma {:induction false} OpenedFresh(groups: Groups, work: seq<string>, seen: set<string>, coreAliased: bool)
    ensures forall g :: g in Opened(groups, work, seen, coreAliased) ==> g in groups && g !in seen && !IsLiteral(g)
    ensures Distinct(Opened(groups, work, seen, coreAliased))
    decreases |groups.Keys - seen|, |work|
  {
    if work != [] {
      var p := work[|work| - 1];
      var rest := work[..|work| - 1];
      if IsLiteral(p) || p !in groups {
        OpenedFresh(groups, rest, seen, coreAliased);
      } else if p !in seen {
        UnseenShrinks(groups.Keys, seen, p);
        var pushed := if coreAliased && p == "core" then rest else groups[p];
        var later := Opened(groups, rest + pushed, seen + {p}, coreAliased);
        OpenedFresh(groups, rest + pushed, seen + {p}, coreAliased);
        assert Opened(groups, work, seen, coreAliased) == [p] + later;
      }
    }
  }

  /** Every group the expansion opens is reachable from the work list. */
  lemma {:induction false} OpenedReached(groups: Groups, work: seq<string>, seen: set<string>, coreAliased: bool, g: string)
    requires g in Opened(groups, work, seen, coreAliased)
    ensures Reaches(groups, work, seen, g)
    decreases |groups.Keys - seen|, |work|
  {
    var p := work[|work| - 1];
    var rest := work[..|work| - 1];
    if IsLiteral(p) || p !in groups {
      OpenedReached(groups, rest, seen, coreAliased, g);
      var path :| IsChain(groups, rest, seen, path) && path[|path| - 1] == g;
      ChainFromInit(groups, work, seen, path);
    } else if p !in seen {
      UnseenShrinks(groups.Keys, seen, p);
      var pushed := if coreAliased && p == "core" then rest else groups[p];
      if g == p {
        assert IsChain(groups, work, seen, [p]);
      } else {
        OpenedReached(groups, rest + pushed, seen + {p}, coreAliased, g);
        var path :| IsChain(groups, rest + pushed, seen + {p}, path) && path[|path| - 1] == g;
        var lifted := ChainLift(groups, work, seen, p, pushed, path);
      }
    }
  }

  /** When the expansion succeeds, every group token of the work list is opened. */
  lemma {:induction false} WorkGroupsOpened(groups: Groups, work: seq<string>, seen: set<string>, coreAliased: bool, acc: seq<string>, t: string)
    requires Expansion(groups, work, seen, coreAliased, acc).Ok?
    requires t in work && t in groups && !IsLiteral(t)
    ensures t in Opened(groups, work, seen, coreAliased)
    decreases |groups.Keys - seen|, |work|
  {
    var p := work[|work| - 1];
    var rest := work[..|work| - 1];
    assert work == rest + [p];
    if p != t {
      assert t in rest;
      if IsLiteral(p) {
        WorkGroupsOpened(groups, rest, seen, coreAliased, acc + [p[1..]], t);
      } else if p !in groups {
        WorkGroupsOpened(groups, rest, seen, coreAliased, acc, t);
      } else if p !in seen {
        UnseenShrinks(groups.Keys, seen, p);
        var pushed := if coreAliased && p == "core" then rest else groups[p];
        WorkGroupsOpened(groups, rest + pushed, seen + {p}, coreAliased, acc, t);
      }
    }
  }

  /**
   * When the expansion succeeds and `core` is not aliased, the groups
   * listed by an opened group are opened too.
   */
  lemma {:induction false} OpenedClosed(groups: Groups, work: seq<string>, seen: set<string>, acc: seq<string>, g: string, t: string)
    requires Expansion(groups, work, seen, false, acc).Ok?
    requires g in Opened(groups, work, seen, false)
    requires Lists(groups, g, t) && t in groups && !IsLiteral(t)
    ensures t in Opened(groups, work, seen, false)
    decreases |groups.Keys - seen|, |work|
  {
    var p := work[|work| - 1];
    var rest := work[..|work| - 1];
    if IsLiteral(p) {
      OpenedClosed(groups, rest, seen, acc + [p[1..]], g, t);
    } else if p !in groups {
      OpenedClosed(groups, rest, seen, acc, g, t);
    } else if p !in seen {
      UnseenShrinks(groups.Keys, seen, p);
      if g == p {
        WorkGroupsOpened(groups, rest + groups[p], seen + {p}, false, acc, t);
      } else {
        OpenedClosed(groups, rest + groups[p], seen + {p}, acc, g, t);
      }
    }
  }

  /** The `i`-th group of a chain is opened. */
  lemma {:induction false} ChainOpened(groups: Groups, work: seq<string>, seen: set<string>, acc: seq<string>, path: seq<string>, i: nat)
    requires Expansion(groups, work, seen, false, acc).Ok?
    requires IsChain(groups, work, seen, path) && i < |path|
    ensures path[i] in Opened(groups, work, seen, false)
  {
    if i == 0 {
      WorkGroupsOpened(groups, work, seen, false, acc, path[0]);
    } else {
      ChainOpened(groups, work, seen, acc, path, i - 1);
      assert Lists(groups, path[i - 1], path[i]);
      OpenedClosed(groups, work, seen, acc, path[i - 1], path[i]);
    }
  }

  /** When the expansion succeeds and `core` is not aliased, every reachable group is opened. */
  lemma ReachedOpened(groups: Groups, work: seq<string>, seen: set<string>, acc: seq<string>, g: string)
    requires Expansion(groups, work, seen, false, acc).Ok?
    requires Reaches(groups, work, seen, g)
    ensures g in Opened(groups, work, seen, false)
  {
    var path :| IsChain(groups, work, seen, path) && path[|path| - 1] == g;
    ChainOpened(groups, work, seen, acc, path, |path| - 1);
  }

  /**
   * What the expansion collects, counted: the names already collected,
   * those of the `@name` tokens of the work list, and those of the
   * `@name` tokens of every group it opens. (With `core` aliased, opening
   * `core` repeats the work list instead; see `CoreFallbackSelfReference`.)
   */
  lemma {:induction false} ExpansionCollects(groups: Groups, work: seq<string>, seen: set<string>, acc: seq<string>)
    requires Expansion(groups, work, seen, false, acc).Ok?
    ensures multiset(Expansion(groups, work, seen, false, acc).value) ==
            multiset(acc) + multiset(Literals(work)) + multiset(GroupLiterals(groups, Opened(groups, work, seen, false)))
    decreases |groups.Keys - seen|, |work|
  {
    if work != [] {
      var p := work[|work| - 1];
      var rest := work[..|work| - 1];
      if IsLiteral(p) {
        ExpansionCollects(groups, rest, seen, acc + [p[1..]]);
      } else if p !in groups {
        ExpansionCollects(groups, rest, seen, acc);
      } else if p !in seen {
        UnseenShrinks(groups.Keys, seen, p);
        var later := Opened(groups, rest + groups[p], seen + {p}, false);
        ExpansionCollects(groups, rest + groups[p], seen + {p}, acc);
        LiteralsAppend(rest, groups[p]);
        assert ([p] + later)[1..] == later;
        assert GroupLiterals(groups, [p] + later) == Literals(groups[p]) + GroupLiterals(groups, later);
      }
    }
  }

  /**
   * The expansion of a pool that is not `core`'s own list, when it
   * succeeds: the groups it opens are exactly those reachable from the
   * pool without passing `all`, each opened once, and the reviewers are
   * exactly the `@`-stripped literals of the pool and of those groups,
   * with their multiplicities.
   */
  lemma ExpansionExact(groups: Groups, tokens: seq<string>)
    requires Expansion(groups, tokens, {"all"}, false, []).Ok?
    ensures var openedGroups := Opened(groups, tokens, {"all"}, false);
            Distinct(openedGroups) &&
            (forall g :: g in openedGroups <==> Reaches(groups, tokens, {"all"}, g)) &&
            multiset(Expansion(groups, tokens, {"all"}, false, []).value) ==
              multiset(Literals(tokens)) + multiset(GroupLiterals(groups, openedGroups))
  {
    var openedGroups := Opened(groups, tokens, {"all"}, false);
    OpenedFresh(groups, tokens, {"all"}, false);
    forall g
      ensures g in openedGroups <==> Reaches(groups, tokens, {"all"}, g)
    {
      if g in openedGroups {
        OpenedReached(groups, tokens, {"all"}, false, g);
      }
      if Reaches(groups, tokens, {"all"}, g) {
        ReachedOpened(groups, tokens, {"all"}, [], g);
      }
    }
    ExpansionCollects(groups, tokens, {"all"}, []);
  }

  /** The members a reached group lists are collected, when the expansion succeeds. */
  lemma ReachedMembersCollected(groups: Groups, tokens: seq<string>, g: string, name: string)
    requires Expansion(groups, tokens, {"all"}, false, []).Ok?
    requires Reaches(groups, tokens, {"all"}, g) && Lists(groups, g, AsLiteral(name))
    ensures name in Expansion(groups, tokens, {"all"}, false, []).value
  {
    var openedGroups := Opened(groups, tokens, {"all"}, false);
    var result := Expansion(groups, tokens, {"all"}, false, []).value;
    ExpansionExact(groups, tokens);
    assert g in openedGroups;
    assert AsLiteral(name)[1..] == name;
    LiteralsHas(groups[g], AsLiteral(name));
    GroupLiteralsHas(groups, openedGroups, g);
    var fromGroups := multiset(GroupLiterals(groups, openedGroups));
    assert multiset(Literals(groups[g]))[name] >= 1;
    assert fromGroups[name] >= 1;
    assert multiset(result) == multiset(Literals(tokens)) + fromGroups;
    assert multiset(result)[name] >= 1;
  }

  /** An `@name` token of a list gives `name` among its literals. */
  lemma {:induction false} LiteralsHas(work: seq<string>, token: string)
    requires token in work && IsLiteral(token)
    ensures token[1..] in Literals(work)
  {
    var last := work[|work| - 1];
    if last != token {
      assert work == work[..|work| - 1] + [last];
      assert token in work[..|work| - 1];
      LiteralsHas(work[..|work| - 1], token);
    }
  }

  /** The literals of a group in `gs` are among `GroupLiterals(groups, gs)`. */
  lemma {:induction false} GroupLiteralsHas(groups: Groups, gs: seq<string>, g: string)
    requires g in gs && g in groups
    ensures multiset(Literals(groups[g])) <= multiset(GroupLiterals(groups, gs))
  {
    if gs[0] != g {
      assert g in gs[1..];
      GroupLiteralsHas(groups, gs[1..], g);
    }
  }

  /** Reaching a group a second time, `all` included (it starts out seen), fails. */
  lemma {:induction false} RevisitFails(groups: Groups, work: seq<string>, seen: set<string>, coreAliased: bool, acc: seq<string>, g: string)
    requires !IsLiteral(g)
    requires g in groups && g in seen && g in work
    ensures Expansion(groups, work, seen, coreAliased, acc).Err?
    decreases |groups.Keys - seen|, |work|
  {
    var p := work[|work| - 1];
    var rest := work[..|work| - 1];
    if p != g {
      assert g in rest;
      if IsLiteral(p) {
        RevisitFails(groups, rest, seen, coreAliased, acc + [p[1..]], g);
      } else if p in groups {
        if p !in seen {
          UnseenShrinks(groups.Keys, seen, p);
          var pushed := if coreAliased && p == "core" then rest else groups[p];
          RevisitFails(groups, rest + pushed, seen + {p}, coreAliased, acc, g);
        }
      } else {
        RevisitFails(groups, rest, seen, coreAliased, acc, g);
      }
    }
  }

  /**
   * A group that lists itself fails once it is reached, except for the
   * `core` group when it is the pool itself (see `CoreFallbackSelfReference`).
   */
  lemma {:induction false} SelfReferenceFails(groups: Groups, work: seq<string>, seen: set<string>, coreAliased: bool, acc: seq<string>, g: string)
    requires !IsLiteral(g)
    requires g in groups && g in groups[g] && g in work
    requires !(coreAliased && g == "core")
    ensures Expansion(groups, work, seen, coreAliased, acc).Err?
    decreases |groups.Keys - seen|, |work|
  {
    if g in seen {
      RevisitFails(groups, work, seen, coreAliased, acc, g);
    } else {
      var p := work[|work| - 1];
      var rest := work[..|work| - 1];
      if p == g {
        UnseenShrinks(groups.Keys, seen, p);
        RevisitFails(groups, rest + groups[g], seen + {g}, coreAliased, acc, g);
      } else {
        assert g in rest;
        if IsLiteral(p) {
          SelfReferenceFails(groups, rest, seen, coreAliased, acc + [p[1..]], g);
        } else if p in groups {
          if p !in seen {
            UnseenShrinks(groups.Keys, seen, p);
            var pushed := if coreAliased && p == "core" then rest else groups[p];
            SelfReferenceFails(groups, rest + pushed, seen + {p}, coreAliased, acc, g);
          }
        } else {
          SelfReferenceFails(groups, rest, seen, coreAliased, acc, g);
        }
      }
    }
  }

  /**
   * A group token that occurs twice in the work list at once fails as
   * well. A group listed by two different reachable groups, where the two
   * occurrences need not be in the work list together, is `DiamondFails`.
   */
  lemma {:induction false} RepeatedGroupFails(groups: Groups, work: seq<string>, seen: set<string>, coreAliased: bool, acc: seq<string>, g: string)
    requires !IsLiteral(g)
    requires g in groups && multiset(work)[g] >= 2
    ensures Expansion(groups, work, seen, coreAliased, acc).Err?
    decreases |groups.Keys - seen|, |work|
  {
    assert g in work;
    if g in seen {
      RevisitFails(groups, work, seen, coreAliased, acc, g);
    } else {
      var p := work[|work| - 1];
      var rest := work[..|work| - 1];
      assert work == rest + [p];
      if p == g {
        assert multiset(rest)[g] >= 1;
        UnseenShrinks(groups.Keys, seen, p);
        var pushed := if coreAliased && p == "core" then rest else groups[p];
        RevisitFails(groups, rest + pushed, seen + {g}, coreAliased, acc, g);
      } else {
        assert multiset(rest)[g] >= 2;
        if IsLiteral(p) {
          RepeatedGroupFails(groups, rest, seen, coreAliased, acc + [p[1..]], g);
        } else if p in groups {
          if p !in seen {
            UnseenShrinks(groups.Keys, seen, p);
            var pushed := if coreAliased && p == "core" then rest else groups[p];
            assert multiset(rest + pushed)[g] >= 2;
            RepeatedGroupFails(groups, rest + pushed, seen + {p}, coreAliased, acc, g);
          }
        } else {
          RepeatedGroupFails(groups, rest, seen, coreAliased, acc, g);
        }
      }
    }
  }

  /** The groups reachable from `work` without passing a seen group. */
  ghost function Reached(groups: Groups, work: seq<string>, seen: set<string>): set<string> {
    set g | g in groups && Reaches(groups, work, seen, g)
  }

  /** Some group of `gs` lists `token`. */
  ghost predicate ListedBy(groups: Groups, gs: set<string>, token: string) {
    exists g :: g in gs && Lists(groups, g, token)
  }

  /**
   * `token` occurs at least twice in the work list and the lists of the
   * groups `gs`, all counted together.
   */
  ghost predicate Twice(groups: Groups, work: seq<string>, gs: set<string>, token: string) {
    multiset(work)[token] >= 2 ||
    (token in work && ListedBy(groups, gs, token)) ||
    (exists g :: g in gs && g in groups && multiset(groups[g])[token] >= 2) ||
    (exists g, h :: g in gs && h in gs && g != h && Lists(groups, g, token) && Lists(groups, h, token))
  }

  /**
   * The expansion fails on the group `token` when a seen group is met
   * again, or when a group is met twice: from the work list and the lists
   * of the groups `gs` it will open, that is.
   */
  ghost predicate ClashOn(groups: Groups, work: seq<string>, seen: set<string>, gs: set<string>, token: string) {
    token in groups && !IsLiteral(token) &&
    ((token in seen && (token in work || ListedBy(groups, gs, token))) || Twice(groups, work, gs, token))
  }

  /** Popping an `@name` or an unknown token leaves the reachable groups as they are. */
  lemma ReachedPass(groups: Groups, work: seq<string>, seen: set<string>)
    requires work != [] && (IsLiteral(work[|work| - 1]) || work[|work| - 1] !in groups)
    ensures Reached(groups, work[..|work| - 1], seen) == Reached(groups, work, seen)
  {
    var rest := work[..|work| - 1];
    forall g | g in groups && Reaches(groups, work, seen, g)
      ensures Reaches(groups, rest, seen, g)
    {
      var path :| IsChain(groups, work, seen, path) && path[|path| - 1] == g;
      assert work == rest + [work[|work| - 1]];
      assert path[0] in rest;
      assert IsChain(groups, rest, seen, path);
    }
    forall g | g in groups && Reaches(groups, rest, seen, g)
      ensures Reaches(groups, work, seen, g)
    {
      var path :| IsChain(groups, rest, seen, path) && path[|path| - 1] == g;
      ChainFromInit(groups, work, seen, path);
    }
  }

  /**
   * A chain from before opening `p` that does not end at `p` has a tail
   * that is a chain afterwards: the part after its last `p`.
   */
  lemma ChainTrim(groups: Groups, work: seq<string>, seen: set<string>, path: seq<string>) returns (trimmed: seq<string>)
    requires work != [] && var p := work[|work| - 1]; p in groups && p !in seen && !IsLiteral(p)
    requires IsChain(groups, work, seen, path) && path[|path| - 1] != work[|work| - 1]
    ensures var p := work[|work| - 1];
            IsChain(groups, work[..|work| - 1] + groups[p], seen + {p}, trimmed) &&
            trimmed[|trimmed| - 1] == path[|path| - 1]
  {
    var p := work[|work| - 1];
    var rest := work[..|work| - 1];
    var k := |path| - 1;
    while k > 0 && path[k - 1] != p
      invariant 0 <= k < |path|
      invariant forall i :: k <= i < |path| ==> path[i] != p
    {
      k := k - 1;
    }
    trimmed := path[k..];
    if k == 0 {
      assert work == rest + [p];
      assert path[0] in rest;
    } else {
      assert Lists(groups, path[k - 1], path[k]);
    }
    forall i | 0 <= i < |trimmed| - 1
      ensures Lists(groups, trimmed[i], trimmed[i + 1])
    {
      assert Lists(groups, path[k + i], path[k + i + 1]);
    }
  }

  /**
   * Opening the group `p` at the end of the work list: the groups reachable
   * afterwards are the ones reachable before, `p` itself excepted.
   */
  lemma ReachedOpen(groups: Groups, work: seq<string>, seen: set<string>)
    requires work != [] && var p := work[|work| - 1]; p in groups && p !in seen && !IsLiteral(p)
    ensures var p := work[|work| - 1];
            p in Reached(groups, work, seen) &&
            Reached(groups, work[..|work| - 1] + groups[p], seen + {p}) == Reached(groups, work, seen) - {p}
  {
    var p := work[|work| - 1];
    var rest := work[..|work| - 1];
    assert IsChain(groups, work, seen, [p]);
    forall g | g in groups && Reaches(groups, rest + groups[p], seen + {p}, g)
      ensures Reaches(groups, work, seen, g) && g != p
    {
      var path :| IsChain(groups, rest + groups[p], seen + {p}, path) && path[|path| - 1] == g;
      var lifted := ChainLift(groups, work, seen, p, groups[p], path);
    }
    forall g | g in groups && Reaches(groups, work, seen, g) && g != p
      ensures Reaches(groups, rest + groups[p], seen + {p}, g)
    {
      var path :| IsChain(groups, work, seen, path) && path[|path| - 1] == g;
      var trimmed := ChainTrim(groups, work, seen, path);
    }
  }

  /** Popping an `@name` or an unknown token changes no clash. */
  lemma ClashOnPass(groups: Groups, work: seq<string>, seen: set<string>, gs: set<string>, t: string)
    requires work != [] && (IsLiteral(work[|work| - 1]) || work[|work| - 1] !in groups)
    ensures ClashOn(groups, work, seen, gs, t) <==> ClashOn(groups, work[..|work| - 1], seen, gs, t)
  {
    var rest := work[..|work| - 1];
    assert work == rest + [work[|work| - 1]];
    if t in groups && !IsLiteral(t) {
      assert multiset(work)[t] == multiset(rest)[t];
    }
  }

  /** Twice means twice in the work list, or listed by some group of `gs`. */
  lemma TwiceCases(groups: Groups, work: seq<string>, gs: set<string>, t: string)
    requires Twice(groups, work, gs, t)
    ensures multiset(work)[t] >= 2 || ListedBy(groups, gs, t)
  {
    if exists g :: g in gs && g in groups && multiset(groups[g])[t] >= 2 {
      var g :| g in gs && g in groups && multiset(groups[g])[t] >= 2;
      assert Lists(groups, g, t);
    }
  }

  /** A token listed by a group of `gs` is in `p`'s list or listed by another group of `gs`. */
  lemma ListedSplit(groups: Groups, gs: set<string>, p: string, t: string)
    requires ListedBy(groups, gs, t)
    ensures Lists(groups, p, t) || ListedBy(groups, gs - {p}, t)
  {
    var g :| g in gs && Lists(groups, g, t);
    if g != p {
      assert g in gs - {p};
    }
  }

  /**
   * Opening `p` moves its list into the work list and `p` into the seen
   * groups: a second occurrence of `p` becomes a meeting of a seen group,
   * and every other count stays.
   */
  lemma ClashOnOpen(groups: Groups, rest: seq<string>, p: string, seen: set<string>, gs: set<string>, t: string)
    requires p in groups && p !in seen && !IsLiteral(p) && p in gs
    ensures ClashOn(groups, rest + [p], seen, gs, t) <==> ClashOn(groups, rest + groups[p], seen + {p}, gs - {p}, t)
  {
    var work := rest + [p];
    var next := rest + groups[p];
    assert multiset(work)[t] == multiset(rest)[t] + (if t == p then 1 else 0);
    assert multiset(next)[t] == multiset(rest)[t] + multiset(groups[p])[t];
    if ClashOn(groups, work, seen, gs, t) {
      ClashOnOpenForward(groups, rest, p, seen, gs, t);
    }
    if ClashOn(groups, next, seen + {p}, gs - {p}, t) {
      ClashOnOpenBackward(groups, rest, p, seen, gs, t);
    }
  }

  lemma ClashOnOpenForward(groups: Groups, rest: seq<string>, p: string, seen: set<string>, gs: set<string>, t: string)
    requires p in groups && p !in seen && !IsLiteral(p) && p in gs
    requires ClashOn(groups, rest + [p], seen, gs, t)
    ensures ClashOn(groups, rest + groups[p], seen + {p}, gs - {p}, t)
  {
    var work := rest + [p];
    var next := rest + groups[p];
    var gs' := gs - {p};
    assert multiset(work)[t] == multiset(rest)[t] + (if t == p then 1 else 0);
    assert multiset(next)[t] == multiset(rest)[t] + multiset(groups[p])[t];
    if t in seen && (t in work || ListedBy(groups, gs, t)) {
      if t !in work {
        ListedSplit(groups, gs, p, t);
      }
    } else if t == p {
      TwiceCases(groups, work, gs, t);
      if multiset(work)[t] < 2 {
        ListedSplit(groups, gs, p, t);
      }
    } else if multiset(work)[t] >= 2 {
      assert multiset(next)[t] >= 2;
    } else if t in work && ListedBy(groups, gs, t) {
      ListedSplit(groups, gs, p, t);
      assert t in rest;
    } else if exists g :: g in gs && g in groups && multiset(groups[g])[t] >= 2 {
      var g :| g in gs && g in groups && multiset(groups[g])[t] >= 2;
      if g != p {
        assert g in gs';
      }
    } else {
      var g, h :| g in gs && h in gs && g != h && Lists(groups, g, t) && Lists(groups, h, t);
      if g == p {
        assert h in gs';
      } else if h == p {
        assert g in gs';
      } else {
        assert g in gs' && h in gs';
      }
    }
  }

  lemma ClashOnOpenBackward(groups: Groups, rest: seq<string>, p: string, seen: set<string>, gs: set<string>, t: string)
    requires p in groups && p !in seen && !IsLiteral(p) && p in gs
    requires ClashOn(groups, rest + groups[p], seen + {p}, gs - {p}, t)
    ensures ClashOn(groups, rest + [p], seen, gs, t)
  {
    var work := rest + [p];
    var next := rest + groups[p];
    var gs' := gs - {p};
    assert multiset(work)[t] == multiset(rest)[t] + (if t == p then 1 else 0);
    assert multiset(next)[t] == multiset(rest)[t] + multiset(groups[p])[t];
    if t == p {
      if !(t in next || ListedBy(groups, gs', t)) {
        TwiceCases(groups, next, gs', t);
      }
      if t in rest {
        assert multiset(work)[t] >= 2;
      } else if t in groups[p] {
        assert t in work && Lists(groups, p, t);
      } else {
        var g :| g in gs' && Lists(groups, g, t);
        assert t in work && g in gs;
      }
    } else if t in seen && (t in next || ListedBy(groups, gs', t)) {
      if t in rest {
        assert t in work;
      } else if t in groups[p] {
        assert Lists(groups, p, t);
      } else {
        var g :| g in gs' && Lists(groups, g, t);
        assert g in gs;
      }
    } else if multiset(next)[t] >= 2 {
      if multiset(rest)[t] >= 2 {
        assert multiset(work)[t] >= 2;
      } else if multiset(groups[p])[t] < 2 {
        assert t in work && Lists(groups, p, t);
      }
    } else if t in next && ListedBy(groups, gs', t) {
      var g :| g in gs' && Lists(groups, g, t);
      if t in rest {
        assert t in work && g in gs;
      } else {
        assert Lists(groups, p, t) && g in gs && g != p;
      }
    } else if exists g :: g in gs' && g in groups && multiset(groups[g])[t] >= 2 {
      var g :| g in gs' && g in groups && multiset(groups[g])[t] >= 2;
      assert g in gs;
    } else {
      var g, h :| g in gs' && h in gs' && g != h && Lists(groups, g, t) && Lists(groups, h, t);
      assert g in gs && h in gs;
    }
  }

  /** Some token clashes in the state `(work, seen)`. */
  ghost predicate Clash(groups: Groups, work: seq<string>, seen: set<string>) {
    exists t :: ClashOn(groups, work, seen, Reached(groups, work, seen), t)
  }

  /** Popping an `@name` or an unknown token keeps a clash, or its absence. */
  lemma ClashPass(groups: Groups, work: seq<string>, seen: set<string>)
    requires work != [] && (IsLiteral(work[|work| - 1]) || work[|work| - 1] !in groups)
    ensures Clash(groups, work, seen) <==> Clash(groups, work[..|work| - 1], seen)
  {
    var reached := Reached(groups, work, seen);
    ReachedPass(groups, work, seen);
    forall t
      ensures ClashOn(groups, work, seen, reached, t) <==> ClashOn(groups, work[..|work| - 1], seen, reached, t)
    {
      ClashOnPass(groups, work, seen, reached, t);
    }
    if Clash(groups, work, seen) {
      var t :| ClashOn(groups, work, seen, reached, t);
      assert ClashOn(groups, work[..|work| - 1], seen, Reached(groups, work[..|work| - 1], seen), t);
    }
    if Clash(groups, work[..|work| - 1], seen) {
      var t :| ClashOn(groups, work[..|work| - 1], seen, reached, t);
      assert ClashOn(groups, work, seen, reached, t);
    }
  }

  /** Opening the group at the end of the work list keeps a clash, or its absence. */
  lemma ClashOpen(groups: Groups, work: seq<string>, seen: set<string>)
    requires work != [] && var p := work[|work| - 1]; p in groups && p !in seen && !IsLiteral(p)
    ensures var p := work[|work| - 1];
            Clash(groups, work, seen) <==> Clash(groups, work[..|work| - 1] + groups[p], seen + {p})
  {
    var p := work[|work| - 1];
    var rest := work[..|work| - 1];
    var reached := Reached(groups, work, seen);
    ReachedOpen(groups, work, seen);
    assert work == rest + [p];
    forall t
      ensures ClashOn(groups, work, seen, reached, t) <==>
              ClashOn(groups, rest + groups[p], seen + {p}, reached - {p}, t)
    {
      ClashOnOpen(groups, rest, p, seen, reached, t);
    }
  }

  /**
   * The expansion fails exactly on a clash: a configured group token that
   * is seen already and still to be met, or that is met twice, counting
   * the work list and the lists of every group reachable from it.
   */
  lemma {:induction false} ExpansionFailsExactly(groups: Groups, work: seq<string>, seen: set<string>, acc: seq<string>)
    ensures Expansion(groups, work, seen, false, acc).Err? <==> Clash(groups, work, seen)
    decreases |groups.Keys - seen|, |work|
  {
    if work == [] {
      assert Reached(groups, work, seen) == {};
    } else {
      var p := work[|work| - 1];
      var rest := work[..|work| - 1];
      if IsLiteral(p) || p !in groups {
        var acc' := if IsLiteral(p) then acc + [p[1..]] else acc;
        assert Expansion(groups, work, seen, false, acc) == Expansion(groups, rest, seen, false, acc');
        ExpansionFailsExactly(groups, rest, seen, acc');
        ClashPass(groups, work, seen);
      } else if p in seen {
        assert ClashOn(groups, work, seen, Reached(groups, work, seen), p);
      } else {
        UnseenShrinks(groups.Keys, seen, p);
        ExpansionFailsExactly(groups, rest + groups[p], seen + {p}, acc);
        ClashOpen(groups, work, seen);
      }
    }
  }

  /**
   * The expansion of a pool that is not `core`'s own list fails exactly
   * when a configured `all` group is met (in the pool or in a reachable
   * group's list), or when some configured group name occurs twice in the
   * pool and the lists of the reachable groups taken together: a cycle
   * and a diamond alike, as the `seen` check at newpr.py:296 does.
   */
  lemma ExpansionFails(groups: Groups, tokens: seq<string>)
    ensures var reached := Reached(groups, tokens, {"all"});
            Expansion(groups, tokens, {"all"}, false, []).Err? <==>
              ("all" in groups && ("all" in tokens || ListedBy(groups, reached, "all"))) ||
              (exists t :: t in groups && !IsLiteral(t) && Twice(groups, tokens, reached, t))
  {
    var reached := Reached(groups, tokens, {"all"});
    ExpansionFailsExactly(groups, tokens, {"all"}, []);
    assert Clash(groups, tokens, {"all"}) <==> exists t :: ClashOn(groups, tokens, {"all"}, reached, t);
    LiteralFirstChar("all");
    if "all" in groups && ("all" in tokens || ListedBy(groups, reached, "all")) {
      assert ClashOn(groups, tokens, {"all"}, reached, "all");
    }
    if exists t :: t in groups && !IsLiteral(t) && Twice(groups, tokens, reached, t) {
      var t :| t in groups && !IsLiteral(t) && Twice(groups, tokens, reached, t);
      assert ClashOn(groups, tokens, {"all"}, reached, t);
    }
  }

  /** Every group on a chain is reachable. */
  lemma ChainReaches(groups: Groups, work: seq<string>, seen: set<string>, path: seq<string>, i: nat)
    requires IsChain(groups, work, seen, path) && i < |path|
    ensures Reaches(groups, work, seen, path[i])
  {
    assert IsChain(groups, work, seen, path[..i + 1]);
  }

  /** A chain continued by a chain from its last group's list is a chain. */
  lemma ChainExtend(groups: Groups, work: seq<string>, seen: set<string>, path: seq<string>, more: seq<string>)
    requires IsChain(groups, work, seen, path)
    requires IsChain(groups, groups[path[|path| - 1]], seen, more)
    ensures IsChain(groups, work, seen, path + more)
  {
    var whole := path + more;
    forall i | 0 <= i < |whole| - 1
      ensures Lists(groups, whole[i], whole[i + 1])
    {
      if i < |path| - 1 {
        assert Lists(groups, path[i], path[i + 1]);
      } else if i == |path| - 1 {
        assert whole[i + 1] == more[0];
      } else {
        assert Lists(groups, more[i - |path|], more[i - |path| + 1]);
      }
    }
  }

  /**
   * On a ring made of a reachable group `g` and a chain from its list back
   * to `g`, every group is reachable and listed by a reachable group of
   * the ring.
   */
  lemma RingListed(groups: Groups, tokens: seq<string>, path: seq<string>, cycle: seq<string>, x: string) returns (y: string)
    requires IsChain(groups, tokens, {"all"}, path)
    requires IsChain(groups, groups[path[|path| - 1]], {"all"}, cycle) && cycle[|cycle| - 1] == path[|path| - 1]
    requires x in [path[|path| - 1]] + cycle
    ensures x in Reached(groups, tokens, {"all"})
    ensures y in [path[|path| - 1]] + cycle && y in Reached(groups, tokens, {"all"}) && Lists(groups, y, x)
  {
    var ring := [path[|path| - 1]] + cycle;
    var whole := path + cycle;
    ChainExtend(groups, tokens, {"all"}, path, cycle);
    var i :| 0 <= i < |ring| && ring[i] == x;
    var j := if i == 0 then |ring| - 2 else i - 1;
    assert whole[|path| - 1 + j] == ring[j] && whole[|path| + j] == ring[j + 1];
    assert Lists(groups, whole[|path| - 1 + j], whole[|path| + j]);
    y := ring[j];
    ChainReaches(groups, tokens, {"all"}, whole, |path| - 1 + i);
    ChainReaches(groups, tokens, {"all"}, whole, |path| - 1 + j);
    assert whole[|path| - 1 + i] == x;
  }

  /**
   * A reachable group that can be reached again from its own list (a
   * cycle of any length) makes the expansion fail.
   */
  lemma CycleFails(groups: Groups, tokens: seq<string>, g: string, cycle: seq<string>)
    requires g in groups && Reaches(groups, tokens, {"all"}, g)
    requires IsChain(groups, groups[g], {"all"}, cycle) && cycle[|cycle| - 1] == g
    ensures Expansion(groups, tokens, {"all"}, false, []).Err?
  {
    var reached := Reached(groups, tokens, {"all"});
    var path :| IsChain(groups, tokens, {"all"}, path) && path[|path| - 1] == g;
    var ring := [g] + cycle;
    // walk back along the path to where it enters the ring
    var k := |path| - 1;
    while k > 0 && path[k - 1] in ring
      invariant 0 <= k < |path| && path[k] in ring
    {
      k := k - 1;
    }
    var x := path[k];
    var y := RingListed(groups, tokens, path, cycle, x);
    if k == 0 {
      assert x in tokens && ListedBy(groups, reached, x);
    } else {
      ChainReaches(groups, tokens, {"all"}, path, k - 1);
      assert Lists(groups, path[k - 1], x);
      assert path[k - 1] in reached && path[k - 1] != y;
    }
    assert Twice(groups, tokens, reached, x);
    ExpansionFails(groups, tokens);
  }

  /**
   * A group listed by two different reachable groups makes the expansion
   * fail, even though no cycle is involved: the `seen` check fires for
   * any group met twice.
   */
  lemma DiamondFails(groups: Groups, tokens: seq<string>, t: string, g: string, h: string)
    requires t in groups && !IsLiteral(t)
    requires g != h && Reaches(groups, tokens, {"all"}, g) && Reaches(groups, tokens, {"all"}, h)
    requires Lists(groups, g, t) && Lists(groups, h, t)
    ensures Expansion(groups, tokens, {"all"}, false, []).Err?
  {
    var reached := Reached(groups, tokens, {"all"});
    assert g in reached && h in reached;
    assert Twice(groups, tokens, reached, t);
    ExpansionFails(groups, tokens);
  }

  /** Two groups that list each other fail. */
  lemma TwoCycleExample()
    ensures Expansion(map["A" := ["B"], "B" := ["A"]], ["A"], {"all"}, false, []).Err?
  {
    var groups := map["A" := ["B"], "B" := ["A"]];
    LiteralFirstChar("A");
    LiteralFirstChar("B");
    assert IsChain(groups, ["A"], {"all"}, ["A"]);
    assert IsChain(groups, groups["A"], {"all"}, ["B", "A"]);
    CycleFails(groups, ["A"], "A", ["B", "A"]);
  }

  /** Two groups that list one third group fail, with no cycle anywhere. */
  lemma DiamondExample()
    ensures Expansion(map["A" := ["C"], "B" := ["C"], "C" := ["@x"]], ["A", "B"], {"all"}, false, []).Err?
  {
    var groups := map["A" := ["C"], "B" := ["C"], "C" := ["@x"]];
    LiteralFirstChar("A");
    LiteralFirstChar("B");
    LiteralFirstChar("C");
    assert IsChain(groups, ["A", "B"], {"all"}, ["A"]);
    assert IsChain(groups, ["A", "B"], {"all"}, ["B"]);
    DiamondFails(groups, ["A", "B"], "C", "A", "B");
  }

  /**
   * The aliasing at work: a `core` group that lists itself, used as the
   * fallback pool, does not fail; expanding `core` repeats the rest of the
   * work list. The same group reached through another group does fail.
   */
  lemma CoreFallbackSelfReference()
    ensures Expansion(map["core" := ["@a", "core"]], ["@a", "core"], {"all"}, true, []) == Ok(["a", "a"])
    ensures Expansion(map["core" := ["@a", "core"]], ["@a", "core"], {"all"}, false, []).Err?
  {
    var groups := map["core" := ["@a", "core"]];
    LiteralFirstChar("@a");
    LiteralFirstChar("core");
    assert ["@a", "core"][..1] == ["@a"];
    assert ["@a"][..0] == [];
    assert "@a"[1..] == "a";
    assert ["@a", "@a"][..1] == ["@a"];
    assert ["a"] + ["a"] == ["a", "a"] && [] + ["a"] == ["a"];
    assert ["@a"] + ["@a"] == ["@a", "@a"] && {"all"} + {"core"} == {"all", "core"};
    assert Expansion(groups, [], {"all", "core"}, true, ["a", "a"]) == Ok(["a", "a"]);
    assert Expansion(groups, ["@a"], {"all", "core"}, true, ["a"]) == Ok(["a", "a"]);
    assert Expansion(groups, ["@a", "@a"], {"all", "core"}, true, []) == Ok(["a", "a"]);
    SelfReferenceFails(groups, ["@a", "core"], {"all"}, false, [], "core");
  }

  /**
   * `list.remove(x)` guarded by `x in list`: only the first occurrence
   * goes, everything else stays in order.
   */
  function RemoveFirst(s: seq<string>, x: string): (r: seq<string>)
    ensures x !in s ==> r == s
  {
    if s == [] then []
    else if s[0] == x then s[1..]
    else
      assert s == [s[0]] + s[1..];
      [s[0]] + RemoveFirst(s[1..], x)
  }

  /** What goes is the element at the first index of `x`. */
  lemma {:induction false} RemoveFirstSlices(s: seq<string>, x: string)
    requires x in s
    ensures RemoveFirst(s, x) == s[..FirstIndex(s, x)] + s[FirstIndex(s, x) + 1..]
  {
    if s[0] != x {
      var rest := s[1..];
      assert x in rest by { assert s == [s[0]] + rest; }
      RemoveFirstSlices(rest, x);
      var k := FirstIndex(rest, x);
      assert FirstIndex(s, x) == k + 1;
      assert [s[0]] + rest[..k] == s[..k + 1];
      assert rest[k + 1..] == s[k + 2..];
    }
  }

  /** Removing the first occurrence takes exactly one `x` out of the multiset, when there is one. */
  lemma {:induction false} RemoveFirstCount(s: seq<string>, x: string)
    ensures multiset(RemoveFirst(s, x)) == multiset(s) - multiset{x}
  {
    if s != [] {
      assert s == [s[0]] + s[1..];
      if s[0] != x {
        RemoveFirstCount(s[1..], x);
        assert RemoveFirst(s, x) == [s[0]] + RemoveFirst(s[1..], x);
      }
    }
  }

  /** An author listed more than once stays a candidate after the removal. */
  lemma AuthorListedTwiceStays(reviewers: seq<string>, author: string)
    requires multiset(reviewers)[author] >= 2
    ensures author in RemoveFirst(reviewers, author)
  {
    RemoveFirstCount(reviewers, author);
    assert multiset(RemoveFirst(reviewers, author))[author] >= 1;
  }

  /**
   * `random.choice`, with the draw passed in: `None` exactly when there is
   * no candidate, else one of the candidates.
   */
  function Pick(candidates: seq<string>, draw: nat): (r: Option<string>)
    ensures r.None? <==> candidates == []
    ensures r.Some? ==> r.value in candidates
  {
    if candidates == [] then None else Some(candidates[draw % |candidates|])
  }

  lemma ModBelow(i: nat, n: nat)
    requires i < n
    ensures i % n == i
  {
  }

  /** Every candidate can be drawn. */
  lemma PickReachesAll(candidates: seq<string>, x: string)
    requires x in candidates
    ensures exists draw: nat :: Pick(candidates, draw) == Some(x)
  {
    var i := FirstIndex(candidates, x);
    ModBelow(i, |candidates|);
    assert Pick(candidates, i) == Some(x);
  }

  /** The expanded reviewer list for a pull request, before the author is removed. */
  function Expanded(config: RepoConfig, global: Groups, diff: string): Result<seq<string>, Failure> {
    if config.groups.None? then Err(MissingKey("groups"))
    else
      match MergeGroups(config.groups.value, global)
      case Err(e) => Err(e)
      case Ok(groups) =>
        match CandidatePool(groups, config.dirs, DiffScan.MostChangedDir(config.dirs, diff))
        case Err(e) => Err(e)
        case Ok(pool) => Expansion(groups, pool.tokens, {"all"}, pool.isCore, [])
  }

  /** The candidates a reviewer is drawn from: the expansion without one occurrence of the author. */
  function Candidates(config: RepoConfig, global: Groups, diff: string, author: string): (r: Result<seq<string>, Failure>)
    ensures r.Err? <==> Expanded(config, global, diff).Err?
    ensures r.Ok? ==> multiset(r.value) == multiset(Expanded(config, global, diff).value) - multiset{author}
  {
    match Expanded(config, global, diff)
    case Err(e) => Err(e)
    case Ok(rs) =>
      RemoveFirstCount(rs, author);
      Ok(RemoveFirst(rs, author))
  }

  /**
   * `choose_reviewer`: fails as the source does (overlapping global group,
   * missing key, group reached twice); otherwise `None` exactly when no
   * candidate is left, else one of the candidates.
   */
  method ChooseReviewer(config: RepoConfig, global: Groups, diff: string, author: string, draw: nat)
    returns (r: Result<Option<string>, Failure>)
    ensures r.Err? <==> Candidates(config, global, diff, author).Err?
    ensures r.Err? ==> r.error == Candidates(config, global, diff, author).error
    ensures r.Ok? ==> (r.value.None? <==> Candidates(config, global, diff, author).value == [])
    ensures r.Ok? && r.value.Some? ==> r.value.value in Candidates(config, global, diff, author).value
    ensures r.Ok? ==> r.value == Pick(Candidates(config, global, diff, author).value, draw)
  {
    if config.groups.None? {
      return Err(MissingKey("groups"));
    }
    var merged := MergeGroups(config.groups.value, global);
    if merged.Err? {
      return Err(merged.error);
    }
    var groups := merged.value;
    var mostChanged: Option<string> := None;
    if |config.dirs| > 0 {
      var lines := Split(diff, '\n');
      var dirs, counts := DiffScan.Tally(lines);
      assert counts == DiffScan.AddedCounts(lines);
      mostChanged := DiffScan.MostChanged(dirs, counts);
    }
    var pool := CandidatePool(groups, config.dirs, mostChanged);
    if pool.Err? {
      return Err(pool.error);
    }
    var expanded := Expand(groups, pool.value);
    if expanded.Err? {
      return Err(expanded.error);
    }
    var reviewers := expanded.value;
    if author in reviewers {
      reviewers := RemoveFirst(reviewers, author);
    }
    return Ok(Pick(reviewers, draw));
  }

  /** With `all = ["@a", "@b"]`, no directories and author `a`, the only candidate is `b`. */
  lemma AuthorExcludedExample(diff: string)
    ensures var config := RepoConfig(None, None, map[], Some(map["all" := ["@a", "@b"]]), [], []);
            Candidates(config, map[], diff, "a") == Ok(["b"])
  {
    var groups := map["all" := ["@a", "@b"]];
    assert groups + map[] == groups;
    LiteralFirstChar("@a");
    LiteralFirstChar("@b");
    assert ["@a", "@b"][..1] == ["@a"];
    assert ["@a"][..0] == [];
    assert Expansion(groups, [], {"all"}, false, ["b", "a"]) == Ok(["b", "a"]);
    assert "@a"[1..] == "a" && "@b"[1..] == "b";
    assert [] + ["b"] == ["b"] && ["b"] + ["a"] == ["b", "a"];
    assert Expansion(groups, ["@a"], {"all"}, false, ["b"]) == Ok(["b", "a"]);
    assert Expansion(groups, ["@a", "@b"], {"all"}, false, []) == Ok(["b", "a"]);
    assert RemoveFirst(["b", "a"], "a") == ["b"];
    var config := RepoConfig(None, None, map[], Some(groups), [], []);
    assert DiffScan.MostChangedDir(config.dirs, diff) == None;
    assert MergeGroups(groups, map[]) == Ok(groups);
    assert groups["all"] + [] == ["@a", "@b"];
    assert CandidatePool(groups, config.dirs, None) == Ok(Pool(["@a", "@b"], false));
    assert Expanded(config, map[], diff) == Ok(["b", "a"]);
  }
}
