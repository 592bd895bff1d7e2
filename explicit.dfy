/**
 * Explicit reviewer requests (`find_reviewer`): the first place in the
 * pull request's body where the pattern `\b[rR]\?[:\- ]*@([a-zA-Z0-9\-]+)`
 * matches, and the user name it captures.
 */
module ExplicitReviewer {
  import opened Config

  /** A character of `\w`, over ASCII: letters, digits and `_`. */
  predicate IsWordChar(c: char) {
    ('a' <= c <= 'z') || ('A' <= c <= 'Z') || ('0' <= c <= '9') || c == '_'
  }

  /** A character of the user-name class `[a-zA-Z0-9\-]`. */
  predicate IsNameChar(c: char) {
    ('a' <= c <= 'z') || ('A' <= c <= 'Z') || ('0' <= c <= '9') || c == '-'
  }

  /** A character of the separator class `[:\- ]`. */
  predicate IsSep(c: char) {
    c == ':' || c == '-' || c == ' '
  }

  /** Where the longest run of characters satisfying `p` that starts at `j` ends. */
  function RunEnd(s: string, j: nat, p: char -> bool): (e: nat)
    requires j <= |s|
    ensures j <= e <= |s|
    ensures forall k :: j <= k < e ==> p(s[k])
    ensures e < |s| ==> !p(s[e])
    decreases |s| - j
  {
    if j == |s| || !p(s[j]) then j else RunEnd(s, j + 1, p)
  }

  /** `\b` before a word character at `i`: the text starts there or the character before is not a word character. */
  predicate BoundaryBefore(s: string, i: nat)
    requires i <= |s|
  {
    i == 0 || !IsWordChar(s[i - 1])
  }

  /**
   * The match of the pattern that starts at `i`, if any, as the greedy
   * matcher finds it: the separators run as far as they go, the name too.
   */
  function MatchAt(s: string, i: nat): (r: Option<string>)
    requires i <= |s|
    ensures r.Some? ==> i + 1 < |s| && (s[i] == 'r' || s[i] == 'R') && s[i + 1] == '?'
    ensures r.Some? ==> |r.value| > 0 && forall k :: 0 <= k < |r.value| ==> IsNameChar(r.value[k])
  {
    if i + 1 < |s| && BoundaryBefore(s, i) && (s[i] == 'r' || s[i] == 'R') && s[i + 1] == '?' then
      var at := RunEnd(s, i + 2, IsSep);
      if at < |s| && s[at] == '@' then
        var e := RunEnd(s, at + 1, IsNameChar);
        if e > at + 1 then Some(s[at + 1..e]) else None
      else None
    else None
  }

  /**
   * The pattern read as a definition: at `i` come a word boundary, `r` or
   * `R`, `?`, some `k` separators, `@`, then `name`, which is not empty,
   * holds only name characters and cannot be extended (the `+` is greedy).
   */
  ghost predicate PatternAt(s: string, i: nat, name: string)
    requires i <= |s|
  {
    exists k: nat :: PatternWith(s, i, k, name)
  }

  /** `PatternAt` with `k` separators. */
  predicate PatternWith(s: string, i: nat, k: nat, name: string)
    requires i <= |s|
  {
    var at := i + 2 + k;
    at + 1 + |name| <= |s| &&
    BoundaryBefore(s, i) && (s[i] == 'r' || s[i] == 'R') && s[i + 1] == '?' &&
    (forall m :: i + 2 <= m < at ==> IsSep(s[m])) &&
    s[at] == '@' &&
    s[at + 1..at + 1 + |name|] == name &&
    |name| > 0 && (forall m :: 0 <= m < |name| ==> IsNameChar(name[m])) &&
    (at + 1 + |name| == |s| || !IsNameChar(s[at + 1 + |name|]))
  }

  /** What the greedy matcher finds is what the pattern describes. */
  lemma MatchAtSound(s: string, i: nat)
    requires i <= |s| && MatchAt(s, i).Some?
    ensures PatternAt(s, i, MatchAt(s, i).value)
  {
    var name := MatchAt(s, i).value;
    var at := RunEnd(s, i + 2, IsSep);
    var k: nat := at - (i + 2);
    assert PatternWith(s, i, k, name);
  }

  /** Whatever the pattern describes, the greedy matcher finds. */
  lemma MatchAtComplete(s: string, i: nat, name: string)
    requires i <= |s| && PatternAt(s, i, name)
    ensures MatchAt(s, i) == Some(name)
  {
    var k: nat :| PatternWith(s, i, k, name);
    var at := i + 2 + k;
    var e := at + 1 + |name|;
    // '@' is no separator, so the separator run stops exactly at `at`
    RunEndStops(s, i + 2, at, IsSep);
    forall m | at + 1 <= m < e
      ensures IsNameChar(s[m])
    {
      assert s[m] == name[m - (at + 1)];
    }
    RunEndStops(s, at + 1, e, IsNameChar);
    assert s[at + 1..e] == name;
  }

  /** A run that holds up to `e` and stops there ends at `e`. */
  lemma {:induction false} RunEndStops(s: string, j: nat, e: nat, p: char -> bool)
    requires j <= e <= |s|
    requires forall k :: j <= k < e ==> p(s[k])
    requires e == |s| || !p(s[e])
    ensures RunEnd(s, j, p) == e
    decreases e - j
  {
    if j < e {
      RunEndStops(s, j + 1, e, p);
    }
  }

  /** `reviewer_re.search` from position `from` on: the match at the first position that has one. */
  function SearchFrom(s: string, from: nat): (r: Option<string>)
    requires from <= |s|
    decreases |s| - from
  {
    if MatchAt(s, from).Some? then MatchAt(s, from)
    else if from == |s| then None
    else SearchFrom(s, from + 1)
  }

  /** What the search finds is the match at some position, and no earlier position matches. */
  lemma {:induction false} SearchFromFirst(s: string, from: nat)
    requires from <= |s|
    ensures var r := SearchFrom(s, from);
            r.Some? ==> exists i :: from <= i <= |s| && MatchAt(s, i) == r &&
                          forall j :: from <= j < i ==> MatchAt(s, j).None?
    ensures SearchFrom(s, from).None? ==> forall i :: from <= i <= |s| ==> MatchAt(s, i).None?
    decreases |s| - from
  {
    if MatchAt(s, from).None? && from < |s| {
      SearchFromFirst(s, from + 1);
      var r := SearchFrom(s, from);
      if r.Some? {
        var i :| from + 1 <= i <= |s| && MatchAt(s, i) == r && forall j :: from + 1 <= j < i ==> MatchAt(s, j).None?;
        assert from <= i <= |s| && MatchAt(s, i) == r && forall j :: from <= j < i ==> MatchAt(s, j).None?;
      }
    }
  }

  /**
   * `find_reviewer`: the name captured by the first match in the body;
   * nothing when there is no body.
   */
  function FindReviewer(msg: Option<string>): (r: Option<string>)
    ensures msg.None? ==> r.None?
  {
    match msg
    case None => None
    case Some(s) => SearchFrom(s, 0)
  }

  /**
   * A name found is the capture of the first match in the body; nothing is
   * found in a body only when no position of it matches.
   */
  lemma FindReviewerFirst(msg: Option<string>)
    ensures var r := FindReviewer(msg);
            r.Some? ==> exists i :: 0 <= i <= |msg.value| && MatchAt(msg.value, i) == r &&
                          forall j :: 0 <= j < i ==> MatchAt(msg.value, j).None?
    ensures msg.Some? && FindReviewer(msg).None? ==> forall i :: 0 <= i <= |msg.value| ==> MatchAt(msg.value, i).None?
  {
    if msg.Some? {
      SearchFromFirst(msg.value, 0);
    }
  }

  /** A requested reviewer is a non-empty name of name characters, so never contains `@`. */
  lemma RequestedNameShape(msg: Option<string>)
    requires FindReviewer(msg).Some?
    ensures var name := FindReviewer(msg).value;
            |name| > 0 && '@' !in name && ' ' !in name
  {
    FindReviewerFirst(msg);
    var name := FindReviewer(msg).value;
    assert forall k :: 0 <= k < |name| ==> IsNameChar(name[k]);
  }

  /** Text that comes before a match and holds no `r` or `R` does not change what is found. */
  lemma {:induction false} SearchSkipsPlainText(s: string, from: nat, to: nat)
    requires from <= to <= |s|
    requires forall m :: from <= m < to ==> s[m] != 'r' && s[m] != 'R'
    ensures SearchFrom(s, from) == SearchFrom(s, to)
    decreases |s| - from
  {
    if from < to {
      assert MatchAt(s, from).None?;
      SearchSkipsPlainText(s, from + 1, to);
    }
  }

  /** `r? @carol` requests `carol`. */
  lemma PlainRequest()
    ensures FindReviewer(Some("r? @carol")) == Some("carol")
  {
    var s := "r? @carol";
    RunEndStops(s, 2, 3, IsSep);
    RunEndStops(s, 4, 9, IsNameChar);
    assert s[4..9] == "carol";
    assert MatchAt(s, 0) == Some("carol");
  }

  /** Separators may repeat and mix, and the name stops at the first other character. */
  lemma SeparatorsAndStop()
    ensures FindReviewer(Some("R?:- @bob-2!")) == Some("bob-2")
  {
    var s := "R?:- @bob-2!";
    RunEndStops(s, 2, 5, IsSep);
    RunEndStops(s, 6, 11, IsNameChar);
    assert s[6..11] == "bob-2";
    assert MatchAt(s, 0) == Some("bob-2");
  }

  /** Inside a word there is no boundary: `rr? @x` requests nobody. */
  lemma NoBoundaryNoRequest()
    ensures FindReviewer(Some("rr? @x")).None?
  {
    var s := "rr? @x";
    assert MatchAt(s, 0).None?;
    assert MatchAt(s, 1).None?;
    assert MatchAt(s, 2).None? && MatchAt(s, 3).None? && MatchAt(s, 4).None?;
    assert MatchAt(s, 5).None? && MatchAt(s, 6).None?;
  }

  /** An `@` with no name after it is no request. */
  lemma EmptyNameNoRequest()
    ensures FindReviewer(Some("r? @")).None?
  {
    var s := "r? @";
    assert RunEnd(s, 3, IsSep) == 3;
    assert RunEnd(s, 4, IsNameChar) == 4;
    assert MatchAt(s, 0).None?;
    assert MatchAt(s, 1).None? && MatchAt(s, 2).None? && MatchAt(s, 3).None? && MatchAt(s, 4).None?;
  }
}
