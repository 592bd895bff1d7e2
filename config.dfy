/**
 * The values the pull-request handler works on: the repository
 * configuration (loaded from `<owner>/<repo>.json`), the global group
 * definitions (loaded from `_global.json`), the opened pull request as the
 * webhook payload describes it, and the ways the handler can fail.
 */
module Config {

  datatype Option<+T> = None | Some(value: T) {
    function GetOr(default: T): T {
      match this
      case Some(v) => v
      case None => default
    }
  }

  datatype Result<+R, +E> = Ok(value: R) | Err(error: E)

  /** Group name -> alias tokens: `@user` for a person, anything else names a group. */
  type Groups = map<string, seq<string>>

  /** One entry of the `mentions` object: who to cc when a matching path changes. */
  datatype MentionRule = MentionRule(
    message: Option<string>,   // mention.get('message')
    command: Option<string>,   // mention.get('command')
    reviewers: seq<string>)    // mention['reviewers']

  /**
   * A repository configuration. `dirs` and `newPrLabels` are read with
   * `.get`, so an absent key is the empty value; `groups` is read with
   * `[...]`, so an absent key is `None` here and a KeyError in the source.
   * `mentions` keeps the JSON object's key order, which decides the order
   * of the cc paragraphs.
   */
  datatype RepoConfig = RepoConfig(
    expectedBranch: Option<string>,
    contributing: Option<string>,
    dirs: map<string, seq<string>>,
    groups: Option<Groups>,
    mentions: seq<(string, MentionRule)>,
    newPrLabels: seq<string>)

  /** The fields of the "pull_request opened" payload that the handler reads. */
  datatype PullRequest = PullRequest(
    number: nat,
    url: string,
    owner: string,
    repo: string,
    author: string,
    body: Option<string>,
    baseLabel: string,        // "owner:branch"
    headSha: string,
    assignees: seq<string>,
    fork: bool)

  /** Why the handler stops: an `assert`, a KeyError or an IndexError in the source. */
  datatype Failure =
    | GroupOverlap(names: set<string>)   // a global group name is also a repository group
    | MissingKey(key: string)            // repo_config['groups'], groups['all'], groups['core']
    | GroupRevisited(name: string)       // "group %s refers to itself"
    | MalformedBaseLabel(given: string)  // base label without ':'

  /** The keys of an ordered mapping, in order. */
  function Keys<V>(entries: seq<(string, V)>): (ks: seq<string>)
    ensures |ks| == |entries|
    ensures forall i :: 0 <= i < |entries| ==> ks[i] == entries[i].0
  {
    if entries == [] then [] else [entries[0].0] + Keys(entries[1..])
  }

  /** `d[key]` for an ordered mapping: the value of the first entry with that key. */
  function Lookup<V>(entries: seq<(string, V)>, key: string): (v: V)
    requires key in Keys(entries)
    ensures exists i :: 0 <= i < |entries| && entries[i] == (key, v)
  {
    if entries[0].0 == key then entries[0].1
    else
      assert Keys(entries) == [entries[0].0] + Keys(entries[1..]);
      var v := Lookup(entries[1..], key);
      assert exists i :: 0 <= i < |entries[1..]| && entries[1..][i] == (key, v);
      v
  }
}
