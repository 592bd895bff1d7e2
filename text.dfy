/**
 * The few Python `str` and `list` operations the handler relies on,
 * over `string` (= seq<char>): `startswith`, `endswith`, `find`,
 * `split` on a one-character separator, `join`, and the order-keeping
 * de-duplication that "append unless already present" produces.
 */
module Text {

  /** `s.startswith(prefix)` */
  predicate StartsWith(s: string, prefix: string) {
    |prefix| <= |s| && s[..|prefix|] == prefix
  }

  /** `s.endswith(suffix)` */
  predicate EndsWith(s: string, suffix: string) {
    |suffix| <= |s| && s[|s| - |suffix|..] == suffix
  }

  /** `s.find(pat)`: the index of the first occurrence of `pat` in `s`, or -1. */
  function Find(s: string, pat: string): (r: int)
    ensures r == -1 || 0 <= r <= |s| - |pat|
    ensures r >= 0 ==> StartsWith(s[r..], pat)
    ensures r >= 0 ==> forall i :: 0 <= i < r ==> !StartsWith(s[i..], pat)
    ensures r == -1 ==> forall i :: 0 <= i <= |s| ==> !StartsWith(s[i..], pat)
  {
    FindFrom(s, pat, 0)
  }

  function FindFrom(s: string, pat: string, from: nat): (r: int)
    requires from <= |s|
    requires forall i :: 0 <= i < from ==> !StartsWith(s[i..], pat)
    ensures r == -1 || from <= r <= |s| - |pat|
    ensures r >= 0 ==> StartsWith(s[r..], pat)
    ensures r >= 0 ==> forall i :: 0 <= i < r ==> !StartsWith(s[i..], pat)
    ensures r == -1 ==> forall i :: 0 <= i <= |s| ==> !StartsWith(s[i..], pat)
    decreases |s| - from
  {
    if StartsWith(s[from..], pat) then from
    else if from == |s| then -1
    else FindFrom(s, pat, from + 1)
  }

  /** The index of the first `c` in `s`, or |s| when there is none. */
  function IndexOf(s: string, c: char): (k: nat)
    ensures k <= |s|
    ensures k < |s| ==> s[k] == c
    ensures c !in s[..k]
  {
    if s == [] then 0
    else if s[0] == c then 0
    else 1 + IndexOf(s[1..], c)
  }

  /** `s.split(sep)` for a one-character separator: never empty, and no part holds `sep`. */
  function Split(s: string, sep: char): (parts: seq<string>)
    ensures |parts| >= 1
    ensures forall i :: 0 <= i < |parts| ==> sep !in parts[i]
    decreases |s|
  {
    var k := IndexOf(s, sep);
    if k == |s| then [s]
    else [s[..k]] + Split(s[k + 1..], sep)
  }

  lemma StartsWithConcat(a: string, b: string)
    ensures StartsWith(a + b, a)
  {
    assert (a + b)[..|a|] == a;
  }

  lemma EndsWithConcat(a: string, b: string)
    ensures EndsWith(a + b, b)
  {
    assert (a + b)[|a|..] == b;
  }

  /** A split has a second part exactly when the separator occurs. */
  lemma SplitSeveral(s: string, sep: char)
    ensures |Split(s, sep)| >= 2 <==> sep in s
  {
    var k := IndexOf(s, sep);
    if k == |s| {
      assert s[..k] == s;
    }
  }

  /** `sep.join(parts)` */
  function Join(sep: string, parts: seq<string>): string {
    if parts == [] then ""
    else if |parts| == 1 then parts[0]
    else parts[0] + sep + Join(sep, parts[1..])
  }

  /** Joining the parts of a split with the separator gives back the original text. */
  lemma {:induction false} JoinSplit(s: string, sep: char)
    ensures Join([sep], Split(s, sep)) == s
    decreases |s|
  {
    var k := IndexOf(s, sep);
    if k < |s| {
      var tail := Split(s[k + 1..], sep);
      JoinSplit(s[k + 1..], sep);
      assert Split(s, sep) == [s[..k]] + tail;
      assert s == s[..k] + [sep] + s[k + 1..];
    }
  }

  /** Splitting a join of parts that do not hold the separator gives back the parts. */
  lemma {:induction false} SplitJoin(parts: seq<string>, sep: char)
    requires parts != []
    requires forall i :: 0 <= i < |parts| ==> sep !in parts[i]
    ensures Split(Join([sep], parts), sep) == parts
  {
    if |parts| == 1 {
      IndexOfAbsent(parts[0], sep);
    } else {
      var rest := Join([sep], parts[1..]);
      var s := parts[0] + [sep] + rest;
      IndexOfAbsent(parts[0], sep);
      IndexOfAppend(parts[0], [sep] + rest, sep);
      assert s == parts[0] + ([sep] + rest);
      assert s[|parts[0]| + 1..] == rest;
      assert s[..|parts[0]|] == parts[0];
      assert Split(s, sep) == [parts[0]] + Split(rest, sep);
      SplitJoin(parts[1..], sep);
      assert parts == [parts[0]] + parts[1..];
    }
  }

  lemma {:induction false} IndexOfAbsent(s: string, c: char)
    requires c !in s
    ensures IndexOf(s, c) == |s|
  {
    if s != [] {
      IndexOfAbsent(s[1..], c);
    }
  }

  lemma {:induction false} IndexOfAppend(s: string, t: string, c: char)
    requires c !in s
    ensures IndexOf(s + t, c) == |s| + IndexOf(t, c)
  {
    if s != [] {
      assert (s + t)[1..] == s[1..] + t;
      IndexOfAppend(s[1..], t, c);
    } else {
      assert s + t == t;
    }
  }

  /** Joining one more part extends the joined text by the separator and that part. */
  lemma {:induction false} JoinSnoc(sep: string, parts: seq<string>, last: string)
    requires parts != []
    ensures Join(sep, parts + [last]) == Join(sep, parts) + sep + last
  {
    if |parts| == 1 {
      assert (parts + [last])[1..] == [last];
    } else {
      assert (parts + [last])[1..] == parts[1..] + [last];
      JoinSnoc(sep, parts[1..], last);
    }
  }

  /** The join of the first `k` parts is a prefix of the join of all of them. */
  lemma {:induction false} JoinPrefix(sep: string, parts: seq<string>, k: nat)
    requires 1 <= k <= |parts|
    ensures StartsWith(Join(sep, parts), Join(sep, parts[..k]))
  {
    if k == |parts| {
      assert parts[..k] == parts;
    } else if k == 1 {
      assert parts[..1] == [parts[0]];
      var whole := parts[0] + sep + Join(sep, parts[1..]);
      assert whole[..|parts[0]|] == parts[0];
    } else {
      JoinPrefix(sep, parts[1..], k - 1);
      assert parts[..k][1..] == parts[1..][..k - 1];
      var whole := Join(sep, parts[1..]);
      var front := Join(sep, parts[1..][..k - 1]);
      assert Join(sep, parts[..k]) == parts[0] + sep + front;
      assert whole[..|front|] == front;
      assert (parts[0] + sep + whole)[..|parts[0] + sep + front|] == parts[0] + sep + front;
    }
  }

  /** A join of non-empty parts is empty exactly when there are no parts. */
  lemma {:induction false} JoinEmpty(sep: string, parts: seq<string>)
    requires forall i :: 0 <= i < |parts| ==> parts[i] != ""
    ensures (Join(sep, parts) == "") <==> (parts == [])
  {
    if |parts| > 1 {
      assert |Join(sep, parts)| >= |parts[0]| > 0;
    }
  }

  /**
   * The elements of `xs` in order of first occurrence, each once: what a
   * loop that appends an element unless it is already present builds.
   */
  function Dedup(xs: seq<string>): (r: seq<string>)
    ensures forall x :: x in r <==> x in xs
    ensures Distinct(r)
  {
    if xs == [] then []
    else
      var prev := Dedup(xs[..|xs| - 1]);
      var x := xs[|xs| - 1];
      assert forall y :: y in xs <==> y in xs[..|xs| - 1] || y == x;
      if x in prev then prev else prev + [x]
  }

  predicate Distinct<T(==)>(xs: seq<T>) {
    forall i, j :: 0 <= i < j < |xs| ==> xs[i] != xs[j]
  }

  /** The index of the first occurrence of `x` in `xs`. */
  function FirstIndex<T(==)>(xs: seq<T>, x: T): (k: nat)
    requires x in xs
    ensures k < |xs| && xs[k] == x && x !in xs[..k]
  {
    if xs[0] == x then 0 else 1 + FirstIndex(xs[1..], x)
  }

  lemma FirstIndexPrefix<T>(xs: seq<T>, ys: seq<T>, x: T)
    requires x in xs
    ensures FirstIndex(xs + ys, x) == FirstIndex(xs, x)
  {
    var k := FirstIndex(xs, x);
    assert (xs + ys)[..k] == xs[..k];
    assert (xs + ys)[k] == x;
  }

  /**
   * `Dedup` keeps first-occurrence order: of two kept elements, the one whose
   * first occurrence in the input is earlier comes first.
   */
  lemma {:induction false} DedupOrder(xs: seq<string>, i: nat, j: nat)
    requires i < j < |Dedup(xs)|
    ensures FirstIndex(xs, Dedup(xs)[i]) < FirstIndex(xs, Dedup(xs)[j])
  {
    var d := Dedup(xs);
    var init := xs[..|xs| - 1];
    var prev := Dedup(init);
    var x := xs[|xs| - 1];
    assert xs == init + [x];
    if j < |prev| {
      DedupOrder(init, i, j);
      FirstIndexPrefix(init, [x], prev[i]);
      FirstIndexPrefix(init, [x], prev[j]);
    } else {
      // d[j] is the last element, which occurs in xs only at its end
      assert d == prev + [x] && d[j] == x && x !in init;
      assert d[i] in init;
      FirstIndexPrefix(init, [x], d[i]);
      assert forall k :: 0 <= k < |init| ==> xs[k] == init[k] != x;
    }
  }
}
