/**
 * Mention extraction (`get_to_mention`): the same header scan as the
 * directory attribution, collecting the `mentions` keys that match a
 * changed file's full path, each key once, in the order of first match.
 */
module Mentions {
  import opened Text
  import opened Config
  import DiffScan

  /** A key matches a full path by prefix, or by suffix when the key ends in `.rs`. */
  predicate Matches(path: string, key: string) {
    StartsWith(path, key) || (EndsWith(key, ".rs") && EndsWith(path, key))
  }

  /** The keys that match `path`, in the order of `keys`. */
  function MatchingKeys(path: string, keys: seq<string>): (r: seq<string>)
    ensures forall k :: k in r <==> k in keys && Matches(path, k)
  {
    if keys == [] then []
    else
      var init := keys[..|keys| - 1];
      var last := keys[|keys| - 1];
      assert keys == init + [last];
      MatchingKeys(path, init) + (if Matches(path, last) then [last] else [])
  }

  /** A header line whose path after ` b/` is not empty: the only headers matched against keys. */
  predicate IsPathHeader(line: string) {
    DiffScan.IsHeader(line) && |DiffScan.HeaderPath(line)| > 0
  }

  /**
   * Every match among the first `n` lines, with repetitions: header by
   * header, and for one header in the order of the `mentions` keys.
   */
  function MatchesUpTo(lines: seq<string>, keys: seq<string>, n: nat): seq<string>
    requires n <= |lines|
  {
    if n == 0 then []
    else
      MatchesUpTo(lines, keys, n - 1) +
      (if IsPathHeader(lines[n - 1]) then MatchingKeys(DiffScan.HeaderPath(lines[n - 1]), keys) else [])
  }

  /**
   * The keys `get_to_mention` collects: none unless the repository
   * configures some directory, else every matched key once, in order of
   * first match.
   */
  function MentionKeys(config: RepoConfig, diff: string): (keys: seq<string>)
    ensures |config.dirs| == 0 ==> keys == []
    ensures forall k :: k in keys ==> k in Keys(config.mentions)
  {
    if |config.dirs| == 0 then []
    else
      var lines := Split(diff, '\n');
      MatchesUpToKeys(lines, Keys(config.mentions), |lines|);
      Dedup(MatchesUpTo(lines, Keys(config.mentions), |lines|))
  }

  lemma {:induction false} MatchesUpToKeys(lines: seq<string>, keys: seq<string>, n: nat)
    requires n <= |lines|
    ensures forall k :: k in MatchesUpTo(lines, keys, n) ==> k in keys
  {
    if n > 0 {
      MatchesUpToKeys(lines, keys, n - 1);
    }
  }

  /** Every key collected matched the full path of some header, and no key is collected twice. */
  lemma {:induction false} MatchesUpToSound(lines: seq<string>, keys: seq<string>, n: nat, key: string)
    requires n <= |lines|
    requires key in MatchesUpTo(lines, keys, n)
    ensures key in keys
    ensures exists j :: 0 <= j < n && IsPathHeader(lines[j]) && Matches(DiffScan.HeaderPath(lines[j]), key)
  {
    var prev := MatchesUpTo(lines, keys, n - 1);
    if key in prev {
      MatchesUpToSound(lines, keys, n - 1, key);
    } else {
      assert IsPathHeader(lines[n - 1]) && Matches(DiffScan.HeaderPath(lines[n - 1]), key);
    }
  }

  /** Every key that matches the full path of some header is collected. */
  lemma {:induction false} MatchesUpToComplete(lines: seq<string>, keys: seq<string>, n: nat, j: nat, key: string)
    requires j < n <= |lines|
    requires key in keys && IsPathHeader(lines[j]) && Matches(DiffScan.HeaderPath(lines[j]), key)
    ensures key in MatchesUpTo(lines, keys, n)
  {
    if j < n - 1 {
      MatchesUpToComplete(lines, keys, n - 1, j, key);
    }
  }

  /** Every mentioned key is a `mentions` key that matched the full path of some header. */
  lemma MentionKeysSound(config: RepoConfig, diff: string, key: string)
    requires key in MentionKeys(config, diff)
    ensures |config.dirs| > 0 && key in Keys(config.mentions)
    ensures var lines := Split(diff, '\n');
            exists j :: 0 <= j < |lines| && IsPathHeader(lines[j]) && Matches(DiffScan.HeaderPath(lines[j]), key)
  {
    var lines := Split(diff, '\n');
    MatchesUpToSound(lines, Keys(config.mentions), |lines|, key);
    var j :| 0 <= j < |lines| && IsPathHeader(lines[j]) && Matches(DiffScan.HeaderPath(lines[j]), key);
    assert 0 <= j < |Split(diff, '\n')| && IsPathHeader(Split(diff, '\n')[j]);
    assert Matches(DiffScan.HeaderPath(Split(diff, '\n')[j]), key);
  }

  /**
   * When the repository configures some directory, every `mentions` key
   * that matches the full path of some header is mentioned.
   */
  lemma MentionKeysComplete(config: RepoConfig, diff: string, j: nat, key: string)
    requires |config.dirs| > 0 && key in Keys(config.mentions)
    requires var lines := Split(diff, '\n');
             j < |lines| && IsPathHeader(lines[j]) && Matches(DiffScan.HeaderPath(lines[j]), key)
    ensures key in MentionKeys(config, diff)
  {
    var lines := Split(diff, '\n');
    MatchesUpToComplete(lines, Keys(config.mentions), |lines|, j, key);
  }

  /** No key is mentioned twice. */
  lemma MentionKeysDistinct(config: RepoConfig, diff: string)
    ensures Distinct(MentionKeys(config, diff))
  {
  }

  /** Keys are ordered by first match: header order first, then the order of the `mentions` keys. */
  lemma MentionKeysOrder(config: RepoConfig, diff: string, i: nat, j: nat)
    requires i < j < |MentionKeys(config, diff)|
    ensures var lines := Split(diff, '\n');
            var all := MatchesUpTo(lines, Keys(config.mentions), |lines|);
            FirstIndex(all, MentionKeys(config, diff)[i]) < FirstIndex(all, MentionKeys(config, diff)[j])
  {
    var lines := Split(diff, '\n');
    DedupOrder(MatchesUpTo(lines, Keys(config.mentions), |lines|), i, j);
  }

  /** The rules of the given keys, in order (`mention_list`). */
  function RulesOf(mentions: seq<(string, MentionRule)>, keys: seq<string>): (rules: seq<MentionRule>)
    requires forall k :: k in keys ==> k in Keys(mentions)
    ensures |rules| == |keys|
    ensures forall i :: 0 <= i < |keys| ==> rules[i] == Lookup(mentions, keys[i])
  {
    if keys == [] then [] else [Lookup(mentions, keys[0])] + RulesOf(mentions, keys[1..])
  }

  /**
   * The inner loop over the `mentions` keys for one header's full path:
   * a key is appended when it matches and is not collected yet.
   */
  method CollectMatches(toMention: seq<string>, fullDir: string, keys: seq<string>, ghost before: seq<string>)
    returns (collected: seq<string>)
    requires toMention == Dedup(before)
    ensures collected == Dedup(before + MatchingKeys(fullDir, keys))
  {
    collected := toMention;
    assert before + MatchingKeys(fullDir, keys[..0]) == before;
    for k := 0 to |keys|
      invariant collected == Dedup(before + MatchingKeys(fullDir, keys[..k]))
    {
      var entry := keys[k];
      var grown := before + MatchingKeys(fullDir, keys[..k]);
      assert keys[..k + 1][..k] == keys[..k] && keys[..k + 1][k] == entry;
      assert MatchingKeys(fullDir, keys[..k + 1]) ==
             MatchingKeys(fullDir, keys[..k]) + (if Matches(fullDir, entry) then [entry] else []);
      assert (grown + [entry])[..|grown|] == grown;
      assert before + MatchingKeys(fullDir, keys[..k + 1]) ==
             grown + (if Matches(fullDir, entry) then [entry] else []);
      assert grown + [] == grown;
      if StartsWith(fullDir, entry) && entry !in collected {
        collected := collected + [entry];
      } else if EndsWith(entry, ".rs") && EndsWith(fullDir, entry) && entry !in collected {
        collected := collected + [entry];
      }
    }
    assert keys[..|keys|] == keys;
  }

  /**
   * One step of the outer loop of `get_to_mention`: a header line's full
   * path is matched against the keys; any other line is skipped.
   */
  method ScanLine(toMention: seq<string>, lines: seq<string>, keys: seq<string>, i: nat)
    returns (next: seq<string>)
    requires i < |lines|
    requires toMention == Dedup(MatchesUpTo(lines, keys, i))
    ensures next == Dedup(MatchesUpTo(lines, keys, i + 1))
  {
    var line := lines[i];
    var before := MatchesUpTo(lines, keys, i);
    next := toMention;
    if DiffScan.IsHeader(line) {
      // `cur_dir` is computed here as in the attribution scan, and never used.
      var path := DiffScan.HeaderPath(line);
      var fullDir := Join("/", Split(path, '/'));
      JoinSplit(path, '/');
      assert "/" == ['/'];
      assert fullDir == path;
      if |fullDir| > 0 {
        assert MatchesUpTo(lines, keys, i + 1) == before + MatchingKeys(fullDir, keys);
        next := CollectMatches(toMention, fullDir, keys, before);
      } else {
        assert !IsPathHeader(lines[i]);
        assert MatchesUpTo(lines, keys, i + 1) == before + [];
        assert before + [] == before;
      }
    } else {
      assert !IsPathHeader(lines[i]);
      assert MatchesUpTo(lines, keys, i + 1) == before + [];
      assert before + [] == before;
    }
  }

  /** The outer loop of `get_to_mention`: the keys collected over the whole diff. */
  method CollectKeys(config: RepoConfig, diff: string) returns (toMention: seq<string>)
    ensures toMention == MentionKeys(config, diff)
  {
    toMention := [];
    var keys := Keys(config.mentions);
    if |config.dirs| > 0 {
      var lines := Split(diff, '\n');
      for i := 0 to |lines|
        invariant toMention == Dedup(MatchesUpTo(lines, keys, i))
      {
        toMention := ScanLine(toMention, lines, keys, i);
      }
    }
  }

  /** `mention_list`: the rule of each collected key, in order. */
  method MentionList(mentions: seq<(string, MentionRule)>, toMention: seq<string>) returns (rules: seq<MentionRule>)
    requires forall k :: k in toMention ==> k in Keys(mentions)
    ensures rules == RulesOf(mentions, toMention)
  {
    rules := [];
    for j := 0 to |toMention|
      invariant |rules| == j
      invariant forall i :: 0 <= i < j ==> rules[i] == Lookup(mentions, toMention[i])
    {
      rules := rules + [Lookup(mentions, toMention[j])];
    }
  }

  /**
   * `get_to_mention`: the rules of the collected keys, in collection order;
   * nothing when the repository configures no directory.
   */
  method GetToMention(config: RepoConfig, diff: string) returns (rules: seq<MentionRule>)
    ensures |config.dirs| == 0 ==> rules == []
    ensures rules == RulesOf(config.mentions, MentionKeys(config, diff))
  {
    var toMention := CollectKeys(config, diff);
    rules := MentionList(config.mentions, toMention);
  }
}
