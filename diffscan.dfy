/**
 * Directory attribution of a unified diff (the scan at the top of
 * `choose_reviewer`): every `diff --git ` header names the current
 * directory, the first two segments of the path after ` b/`, with the
 * `src/librustc*` directories folded into one and `src/test` dropped;
 * every later `+` line that is not a `+++` line is an added line of the
 * current directory. The directory with the most added lines wins.
 */
module DiffScan {
  import opened Text
  import opened Config

  const HEADER := "diff --git "
  const LIBRUSTC := "src/librustc"
  const TEST_DIR := "src/test"

  predicate IsHeader(line: string) {
    StartsWith(line, HEADER)
  }

  /** A `+` line that is not the `+++` file marker. */
  predicate IsAddition(line: string) {
    StartsWith(line, "+") && !StartsWith(line, "+++")
  }

  /**
   * The path of a header line: what follows the first ` b/`. Without a
   * ` b/`, `find` gives -1 and the slice starts at index 2.
   */
  function HeaderPath(line: string): string
    requires IsHeader(line)
  {
    var k := Find(line, " b/");
    line[k + 3..]
  }

  /** `"/".join(path.split("/")[:2])` */
  function TwoSegments(path: string): string {
    var parts := Split(path, '/');
    Join("/", parts[..if |parts| < 2 then |parts| else 2])
  }

  /** The first two segments of a path are a prefix of it. */
  lemma TwoSegmentsPrefix(path: string)
    ensures StartsWith(path, TwoSegments(path))
  {
    var parts := Split(path, '/');
    JoinSplit(path, '/');
    JoinPrefix("/", parts, if |parts| < 2 then |parts| else 2);
  }

  /**
   * The directory a header line makes current, or `None` (`cur_dir` is
   * `None` or the empty string, which the scan treats alike).
   */
  function HeaderDir(line: string): (r: Option<string>)
    requires IsHeader(line)
    ensures r != Some(TEST_DIR) && r != Some("")
  {
    // `if not parts` in the source never holds: a split is never empty.
    var dir := TwoSegments(HeaderPath(line));
    var folded := if StartsWith(dir, LIBRUSTC) then LIBRUSTC else dir;
    if folded == TEST_DIR || folded == "" then None else Some(folded)
  }

  /**
   * A header never makes `src/test`, a `src/librustc*` subdirectory or the
   * empty string current; any other directory it names is a prefix of the
   * changed file's path, and a two-segment prefix that starts with
   * `src/librustc` is counted as `src/librustc`.
   */
  lemma HeaderDirFacts(line: string)
    requires IsHeader(line)
    ensures HeaderDir(line) != Some(TEST_DIR) && HeaderDir(line) != Some("")
    ensures forall d :: StartsWith(d, LIBRUSTC) && d != LIBRUSTC ==> HeaderDir(line) != Some(d)
    ensures HeaderDir(line).Some? && HeaderDir(line).value != LIBRUSTC ==>
              StartsWith(HeaderPath(line), HeaderDir(line).value)
    ensures StartsWith(TwoSegments(HeaderPath(line)), LIBRUSTC) <==> HeaderDir(line) == Some(LIBRUSTC)
  {
    TwoSegmentsPrefix(HeaderPath(line));
  }

  /** The current directory once the first `n` lines have been read. */
  function DirBefore(lines: seq<string>, n: nat): (r: Option<string>)
    requires n <= |lines|
  {
    if n == 0 then None
    else if IsHeader(lines[n - 1]) then HeaderDir(lines[n - 1])
    else DirBefore(lines, n - 1)
  }

  /** Reference count: the added lines among the first `n` read while `d` was current. */
  function Added(lines: seq<string>, d: string, n: nat): nat
    requires n <= |lines|
  {
    if n == 0 then 0
    else
      Added(lines, d, n - 1) +
      (if IsAddition(lines[n - 1]) && DirBefore(lines, n - 1) == Some(d) then 1 else 0)
  }

  /** The directories named by the first `n` lines' headers, in first-seen order. */
  function SeenDirs(lines: seq<string>, n: nat): (r: seq<string>)
    requires n <= |lines|
    ensures Distinct(r)
  {
    if n == 0 then []
    else
      var prev := SeenDirs(lines, n - 1);
      var line := lines[n - 1];
      if IsHeader(line) && HeaderDir(line).Some? && HeaderDir(line).value !in prev
      then prev + [HeaderDir(line).value]
      else prev
  }

  /** Every directory among the seen ones was named by some header among the first `n` lines. */
  lemma {:induction false} SeenDirsSound(lines: seq<string>, n: nat, d: string)
    requires n <= |lines|
    requires d in SeenDirs(lines, n)
    ensures exists k :: 0 <= k < n && IsHeader(lines[k]) && HeaderDir(lines[k]) == Some(d)
  {
    if d in SeenDirs(lines, n - 1) {
      SeenDirsSound(lines, n - 1, d);
    } else {
      assert IsHeader(lines[n - 1]) && HeaderDir(lines[n - 1]) == Some(d);
    }
  }

  /** Every directory a header among the first `n` lines names is among the seen ones. */
  lemma {:induction false} SeenDirsComplete(lines: seq<string>, n: nat, k: nat)
    requires k < n <= |lines|
    requires IsHeader(lines[k]) && HeaderDir(lines[k]).Some?
    ensures HeaderDir(lines[k]).value in SeenDirs(lines, n)
  {
    if k < n - 1 {
      SeenDirsComplete(lines, n - 1, k);
    }
  }

  /** The current directory, when there is one, was named by an earlier header. */
  lemma {:induction false} DirBeforeSeen(lines: seq<string>, n: nat)
    requires n <= |lines|
    ensures DirBefore(lines, n).Some? ==> DirBefore(lines, n).value in SeenDirs(lines, n)
  {
    if n > 0 {
      var line := lines[n - 1];
      if IsHeader(line) {
        if HeaderDir(line).Some? {
          SeenDirsComplete(lines, n, n - 1);
        }
      } else {
        DirBeforeSeen(lines, n - 1);
        var prev := SeenDirs(lines, n - 1);
        assert DirBefore(lines, n) == DirBefore(lines, n - 1);
        assert SeenDirs(lines, n) == prev;
      }
    }
  }

  /**
   * The `counts` dictionary after the scan, as its key order `dirs` and the
   * map `counts`: one key per directory a header named, in first-seen
   * order, whether or not a reviewer group is configured for it, each
   * holding its number of added lines.
   */
  method Tally(lines: seq<string>) returns (dirs: seq<string>, counts: map<string, nat>)
    ensures dirs == SeenDirs(lines, |lines|)
    ensures forall d :: d in counts <==> d in dirs
    ensures forall d :: d in counts ==> counts[d] == Added(lines, d, |lines|)
  {
    dirs, counts := [], map[];
    var cur: Option<string> := None;
    for i := 0 to |lines|
      invariant dirs == SeenDirs(lines, i)
      invariant forall d :: d in counts <==> d in dirs
      invariant forall d :: d in counts ==> counts[d] == Added(lines, d, i)
      invariant cur == DirBefore(lines, i)
      invariant cur.Some? ==> cur.value in dirs
    {
      var line := lines[i];
      if IsHeader(line) {
        assert !IsAddition(line) by {
          assert line[..|HEADER|] == HEADER;
          assert line[0] == 'd';
        }
        cur := HeaderDir(line);
        if cur.Some? && cur.value !in counts {
          if Added(lines, cur.value, i) > 0 {
            AddedOnlySeen(lines, cur.value, i);
          }
          counts := counts[cur.value := 0];
          dirs := dirs + [cur.value];
        }
      } else if cur.Some? && !StartsWith(line, "+++") && StartsWith(line, "+") {
        counts := counts[cur.value := counts[cur.value] + 1];
      }
    }
  }

  /** Only a directory some header named can have added lines. */
  lemma {:induction false} AddedOnlySeen(lines: seq<string>, d: string, n: nat)
    requires n <= |lines|
    requires Added(lines, d, n) > 0
    ensures d in SeenDirs(lines, n)
  {
    if Added(lines, d, n - 1) > 0 {
      AddedOnlySeen(lines, d, n - 1);
    } else {
      DirBeforeSeen(lines, n - 1);
    }
  }

  /** Lines under a `src/test` header never count, and neither does a `src/librustc*` subdirectory. */
  lemma {:induction false} NeverCounted(lines: seq<string>, d: string, n: nat)
    requires n <= |lines|
    requires d == TEST_DIR || d == "" || (StartsWith(d, LIBRUSTC) && d != LIBRUSTC)
    ensures Added(lines, d, n) == 0
  {
    if n > 0 {
      NeverCounted(lines, d, n - 1);
      NeverCurrent(lines, d, n - 1);
    }
  }

  lemma {:induction false} NeverCurrent(lines: seq<string>, d: string, n: nat)
    requires n <= |lines|
    requires d == TEST_DIR || d == "" || (StartsWith(d, LIBRUSTC) && d != LIBRUSTC)
    ensures DirBefore(lines, n) != Some(d)
  {
    if n > 0 {
      if IsHeader(lines[n - 1]) {
        HeaderDirFacts(lines[n - 1]);
      } else {
        NeverCurrent(lines, d, n - 1);
      }
    }
  }

  /** Lines ahead of the first header are attributed to no directory. */
  lemma {:induction false} LeadingLinesIgnored(pre: seq<string>, lines: seq<string>, d: string, n: nat)
    requires forall k :: 0 <= k < |pre| ==> !IsHeader(pre[k])
    requires n <= |lines|
    ensures Added(pre + lines, d, |pre| + n) == Added(lines, d, n)
  {
    var whole := pre + lines;
    if n == 0 {
      assert forall k :: 0 <= k < |pre| ==> whole[k] == pre[k];
      NoHeaderNoCount(whole, d, |pre|);
    } else {
      LeadingLinesIgnored(pre, lines, d, n - 1);
      DirBeforeShift(pre, lines, n - 1);
      var line := lines[n - 1];
      assert whole[|pre| + n - 1] == line;
      assert Added(whole, d, |pre| + n) == Added(whole, d, |pre| + n - 1) +
        (if IsAddition(line) && DirBefore(whole, |pre| + n - 1) == Some(d) then 1 else 0);
    }
  }

  lemma {:induction false} NoHeaderNoCount(lines: seq<string>, d: string, n: nat)
    requires n <= |lines|
    requires forall k :: 0 <= k < n ==> !IsHeader(lines[k])
    ensures DirBefore(lines, n) == None && Added(lines, d, n) == 0
  {
    if n > 0 {
      NoHeaderNoCount(lines, d, n - 1);
    }
  }

  lemma {:induction false} DirBeforeShift(pre: seq<string>, lines: seq<string>, n: nat)
    requires forall k :: 0 <= k < |pre| ==> !IsHeader(pre[k])
    requires n <= |lines|
    ensures DirBefore(pre + lines, |pre| + n) == DirBefore(lines, n)
  {
    if n == 0 {
      NoHeaderNoCount(pre + lines, "", |pre|);
    } else {
      DirBeforeShift(pre, lines, n - 1);
      assert (pre + lines)[|pre| + n - 1] == lines[n - 1];
    }
  }

  /** `lines` with the entries at `i` and `i + 1` exchanged. */
  function SwapAdjacent(lines: seq<string>, i: nat): (r: seq<string>)
    requires i + 1 < |lines|
    ensures |r| == |lines| && r[i] == lines[i + 1] && r[i + 1] == lines[i]
    ensures forall k :: 0 <= k < |lines| && k != i && k != i + 1 ==> r[k] == lines[k]
  {
    lines[..i] + [lines[i + 1], lines[i]] + lines[i + 2..]
  }

  /**
   * Attribution does not depend on the order of lines inside one file's
   * section: exchanging two neighbouring non-header lines keeps every count.
   */
  lemma {:induction false} SwapKeepsCounts(lines: seq<string>, i: nat, d: string)
    requires i + 1 < |lines|
    requires !IsHeader(lines[i]) && !IsHeader(lines[i + 1])
    ensures Added(SwapAdjacent(lines, i), d, |lines|) == Added(lines, d, |lines|)
  {
    var swapped := SwapAdjacent(lines, i);
    SwapPrefix(lines, i, d, |lines|);
  }

  /** Exchanging two neighbouring non-header lines changes the current directory only between them. */
  lemma {:induction false} SwapDirBefore(lines: seq<string>, i: nat, n: nat)
    requires i + 1 < |lines| && n <= |lines|
    requires !IsHeader(lines[i]) && !IsHeader(lines[i + 1])
    ensures n != i + 1 ==> DirBefore(SwapAdjacent(lines, i), n) == DirBefore(lines, n)
    ensures n == i + 1 ==> DirBefore(SwapAdjacent(lines, i), n) == DirBefore(lines, i)
  {
    var swapped := SwapAdjacent(lines, i);
    if n == 0 {
    } else if n == i + 1 {
      SwapDirBefore(lines, i, i);
      assert !IsHeader(swapped[i]);
    } else if n == i + 2 {
      SwapDirBefore(lines, i, i + 1);
      assert !IsHeader(swapped[i + 1]);
      assert DirBefore(lines, i + 2) == DirBefore(lines, i + 1) == DirBefore(lines, i);
    } else {
      SwapDirBefore(lines, i, n - 1);
      assert swapped[n - 1] == lines[n - 1];
    }
  }

  lemma {:induction false} SwapPrefix(lines: seq<string>, i: nat, d: string, n: nat)
    requires i + 1 < |lines| && n <= |lines|
    requires !IsHeader(lines[i]) && !IsHeader(lines[i + 1])
    ensures n != i + 1 ==> Added(SwapAdjacent(lines, i), d, n) == Added(lines, d, n)
  {
    var swapped := SwapAdjacent(lines, i);
    if n == 0 {
    } else if n == i + 1 {
    } else if n == i + 2 {
      SwapPrefix(lines, i, d, i);
      SwapDirBefore(lines, i, i);
      SwapDirBefore(lines, i, i + 1);
      var before := DirBefore(lines, i);
      assert DirBefore(lines, i + 1) == before;
      assert Added(swapped, d, i + 2) == Added(swapped, d, i) +
        (if IsAddition(lines[i + 1]) && before == Some(d) then 1 else 0) +
        (if IsAddition(lines[i]) && before == Some(d) then 1 else 0);
      assert Added(lines, d, i + 2) == Added(lines, d, i) +
        (if IsAddition(lines[i]) && before == Some(d) then 1 else 0) +
        (if IsAddition(lines[i + 1]) && before == Some(d) then 1 else 0);
    } else {
      SwapPrefix(lines, i, d, n - 1);
      SwapDirBefore(lines, i, n - 1);
      assert swapped[n - 1] == lines[n - 1];
    }
  }

  /**
   * The winner scan over `counts.items()`, after its first `|dirs|` items:
   * the winning directory (if any) and the largest count. A later
   * directory replaces the winner only with a strictly larger count.
   */
  function Best(dirs: seq<string>, counts: map<string, nat>): (r: (Option<string>, nat))
    requires forall d :: d in dirs ==> d in counts
    ensures r.0.None? <==> r.1 == 0
    ensures forall i :: 0 <= i < |dirs| ==> counts[dirs[i]] <= r.1
    ensures r.0.Some? ==> exists i :: 0 <= i < |dirs| && dirs[i] == r.0.value && counts[dirs[i]] == r.1 &&
                                      forall j :: 0 <= j < i ==> counts[dirs[j]] < r.1
  {
    if dirs == [] then (None, 0)
    else
      var prev := Best(dirs[..|dirs| - 1], counts);
      var d := dirs[|dirs| - 1];
      if counts[d] > prev.1 then (Some(d), counts[d])
      else
        assert forall i :: 0 <= i < |dirs| - 1 ==> dirs[..|dirs| - 1][i] == dirs[i];
        prev
  }

  /** The loop that picks `most_changed` out of the tallied counts. */
  method MostChanged(dirs: seq<string>, counts: map<string, nat>) returns (winner: Option<string>)
    requires forall d :: d in dirs ==> d in counts
    ensures winner == Best(dirs, counts).0
  {
    var mostChanges := 0;
    winner := None;
    for i := 0 to |dirs|
      invariant (winner, mostChanges) == Best(dirs[..i], counts)
    {
      assert dirs[..i + 1][..i] == dirs[..i];
      if counts[dirs[i]] > mostChanges {
        mostChanges := counts[dirs[i]];
        winner := Some(dirs[i]);
      }
    }
    assert dirs[..|dirs|] == dirs;
  }

  /** The tallied `counts` as a map: every directory a header named, with its added lines. */
  function AddedCounts(lines: seq<string>): map<string, nat> {
    map d | d in SeenDirs(lines, |lines|) :: Added(lines, d, |lines|)
  }

  /**
   * `most_changed` for a diff: `None` unless the repository configures some
   * directory, else the winner over the tallied counts.
   */
  function MostChangedDir(configDirs: map<string, seq<string>>, diff: string): (r: Option<string>)
    ensures |configDirs| == 0 ==> r == None
    ensures r.Some? ==> var lines := Split(diff, '\n'); r.value in SeenDirs(lines, |lines|)
  {
    if |configDirs| == 0 then None
    else
      var lines := Split(diff, '\n');
      Best(SeenDirs(lines, |lines|), AddedCounts(lines)).0
  }

  /**
   * The winner is a directory a header named with the largest count of
   * added lines of all directories, and that count is positive.
   */
  lemma WinnerIsMostChanged(configDirs: map<string, seq<string>>, diff: string)
    requires MostChangedDir(configDirs, diff).Some?
    ensures var lines := Split(diff, '\n');
            var w := MostChangedDir(configDirs, diff).value;
            && w in SeenDirs(lines, |lines|)
            && Added(lines, w, |lines|) > 0
            && forall d :: Added(lines, d, |lines|) <= Added(lines, w, |lines|)
  {
    var lines := Split(diff, '\n');
    var dirs := SeenDirs(lines, |lines|);
    var counts := AddedCounts(lines);
    var best := Best(dirs, counts);
    var w := best.0.value;
    var i :| 0 <= i < |dirs| && dirs[i] == w && counts[dirs[i]] == best.1;
    forall d | Added(lines, d, |lines|) > 0
      ensures Added(lines, d, |lines|) <= Added(lines, w, |lines|)
    {
      AddedOnlySeen(lines, d, |lines|);
      var k := FirstIndex(dirs, d);
      assert counts[dirs[k]] <= best.1;
    }
  }

  /**
   * Ties go to the directory seen first: every directory named before the
   * winner has strictly fewer added lines.
   */
  lemma WinnerFirstOfEqual(configDirs: map<string, seq<string>>, diff: string, j: nat)
    requires MostChangedDir(configDirs, diff).Some?
    requires var lines := Split(diff, '\n');
             var w := MostChangedDir(configDirs, diff).value;
             w in SeenDirs(lines, |lines|) && j < FirstIndex(SeenDirs(lines, |lines|), w)
    ensures var lines := Split(diff, '\n');
            Added(lines, SeenDirs(lines, |lines|)[j], |lines|) < Added(lines, MostChangedDir(configDirs, diff).value, |lines|)
  {
    var lines := Split(diff, '\n');
    var dirs := SeenDirs(lines, |lines|);
    var counts := AddedCounts(lines);
    var best := Best(dirs, counts);
    var w := best.0.value;
    var i :| 0 <= i < |dirs| && dirs[i] == w && counts[dirs[i]] == best.1 &&
             forall j :: 0 <= j < i ==> counts[dirs[j]] < best.1;
    assert FirstIndex(dirs, w) == i;
  }

  /** The winner is never `src/test` nor a folded `src/librustc*` subdirectory. */
  lemma WinnerNeverFolded(configDirs: map<string, seq<string>>, diff: string)
    requires MostChangedDir(configDirs, diff).Some?
    ensures var w := MostChangedDir(configDirs, diff).value;
            w != TEST_DIR && !(StartsWith(w, LIBRUSTC) && w != LIBRUSTC)
  {
    var lines := Split(diff, '\n');
    var w := MostChangedDir(configDirs, diff).value;
    WinnerIsMostChanged(configDirs, diff);
    if w == TEST_DIR || (StartsWith(w, LIBRUSTC) && w != LIBRUSTC) {
      NeverCounted(lines, w, |lines|);
    }
  }

  /** When no directory has an added line there is no winner. */
  lemma NoAdditionsNoWinner(configDirs: map<string, seq<string>>, diff: string)
    requires forall d :: Added(Split(diff, '\n'), d, |Split(diff, '\n')|) == 0
    ensures MostChangedDir(configDirs, diff) == None
  {
    if MostChangedDir(configDirs, diff).Some? {
      WinnerIsMostChanged(configDirs, diff);
    }
  }
}
