// Path globs in which ** stands for any number of components: the table that decides them
// and what it means.
module Globs {
  import opened Options

  // Matching one component against one pattern part; None is a malformed part.
  type Matcher = (string, string) -> Option<bool>

  const ANY := "**"

  // Whether the parts match the components, from the last part on.
  predicate Matches(m: Matcher, parts: seq<string>, values: seq<string>)
    decreases |parts|, |values|
  {
    if parts == [] then values == []
    else
      var init, last := parts[..|parts| - 1], parts[|parts| - 1];
      if last == ANY then
        Matches(m, init, values) || (values != [] && Matches(m, parts, values[..|values| - 1]))
      else
        && values != [] && Matches(m, init, values[..|values| - 1])
        && m(last, values[|values| - 1]) == Some(true)
  }

  // A way to cut the components into one consecutive group for each part: any number of
  // components for **, and exactly one that it matches for any other part.
  ghost predicate Cuts(m: Matcher, parts: seq<string>, values: seq<string>, cuts: seq<nat>) {
    && |cuts| == |parts| + 1 && cuts[0] == 0 && cuts[|parts|] == |values|
    && (forall k | 0 <= k < |parts| :: GroupFits(m, parts, values, cuts, k))
  }

  ghost predicate GroupFits(m: Matcher, parts: seq<string>, values: seq<string>, cuts: seq<nat>, k: nat)
    requires k < |parts| < |cuts|
  {
    && cuts[k] <= cuts[k + 1] <= |values|
    && (parts[k] == ANY || (cuts[k + 1] == cuts[k] + 1 && m(parts[k], values[cuts[k]]) == Some(true)))
  }

  // The recursive meaning is exactly that: the parts match if such cuts exist.
  lemma {:induction false} MatchesHasCuts(m: Matcher, parts: seq<string>, values: seq<string>) returns (cuts: seq<nat>)
    requires Matches(m, parts, values)
    ensures Cuts(m, parts, values, cuts) && |cuts| == |parts| + 1
    decreases |parts|, |values|
  {
    hide Cuts;
    if parts == [] {
      NoParts(m);
      return [0];
    }
    var init, last := parts[..|parts| - 1], parts[|parts| - 1];
    if last == ANY && Matches(m, init, values) {
      var before := MatchesHasCuts(m, init, values);
      assert values[..|values|] == values;
      CutsExtend(m, parts, values, before, |values|);
      cuts := before + [|values|];
    } else if last == ANY {
      var fewer := MatchesHasCuts(m, parts, values[..|values| - 1]);
      CutsGrow(m, parts, values, fewer);
      cuts := fewer[..|parts|] + [|values|];
    } else {
      var before := MatchesHasCuts(m, init, values[..|values| - 1]);
      CutsExtend(m, parts, values, before, |values| - 1);
      cuts := before + [|values|];
    }
  }

  lemma NoParts(m: Matcher)
    ensures Cuts(m, [], [], [0])
  {
  }

  // One more part, for the components from `at` on.
  lemma CutsExtend(m: Matcher, parts: seq<string>, values: seq<string>, before: seq<nat>, at: nat)
    requires parts != [] && at <= |values| && Cuts(m, parts[..|parts| - 1], values[..at], before)
    requires parts[|parts| - 1] == ANY || (at == |values| - 1 && m(parts[|parts| - 1], values[at]) == Some(true))
    ensures Cuts(m, parts, values, before + [|values|])
  {
    var n, cuts := |parts| - 1, before + [|values|];
    forall k | 0 <= k < |parts|
      ensures GroupFits(m, parts, values, cuts, k)
    {
      if k < n {
        assert GroupFits(m, parts[..n], values[..at], before, k);
      }
    }
  }

  // One more component, for a last part of **.
  lemma CutsGrow(m: Matcher, parts: seq<string>, values: seq<string>, fewer: seq<nat>)
    requires parts != [] && parts[|parts| - 1] == ANY && values != [] && Cuts(m, parts, values[..|values| - 1], fewer)
    ensures Cuts(m, parts, values, fewer[..|parts|] + [|values|])
  {
    var cuts := fewer[..|parts|] + [|values|];
    forall k | 0 <= k < |parts|
      ensures GroupFits(m, parts, values, cuts, k)
    {
      assert GroupFits(m, parts, values[..|values| - 1], fewer, k);
    }
  }

  lemma {:induction false} CutsMatch(m: Matcher, parts: seq<string>, values: seq<string>, cuts: seq<nat>)
    requires Cuts(m, parts, values, cuts)
    ensures Matches(m, parts, values)
    decreases |parts|, |values|
  {
    if parts != [] {
      hide Cuts;
      var n := |parts| - 1;
      LastGroup(m, parts, values, cuts);
      if parts[n] == ANY && cuts[n] < |values| {
        CutsShrink(m, parts, values, cuts);
        CutsMatch(m, parts, values[..|values| - 1], cuts[..n + 1] + [|values| - 1]);
      } else {
        CutsBefore(m, parts, values, cuts);
        assert parts[n] == ANY ==> values[..cuts[n]] == values;
        CutsMatch(m, parts[..n], values[..cuts[n]], cuts[..n + 1]);
      }
    }
  }

  lemma LastGroup(m: Matcher, parts: seq<string>, values: seq<string>, cuts: seq<nat>)
    requires Cuts(m, parts, values, cuts) && parts != []
    ensures |cuts| == |parts| + 1 && cuts[|parts|] == |values| && GroupFits(m, parts, values, cuts, |parts| - 1)
  {
  }

  lemma {:induction false} CutsAscend(m: Matcher, parts: seq<string>, values: seq<string>, cuts: seq<nat>,
        k: nat, n: nat)
    requires Cuts(m, parts, values, cuts) && k <= n <= |parts|
    ensures cuts[k] <= cuts[n]
    decreases n - k
  {
    if k < n {
      CutsAscend(m, parts, values, cuts, k, n - 1);
      assert GroupFits(m, parts, values, cuts, n - 1);
    }
  }

  lemma CutsBefore(m: Matcher, parts: seq<string>, values: seq<string>, cuts: seq<nat>)
    requires Cuts(m, parts, values, cuts) && parts != []
    ensures var n := |parts| - 1; cuts[n] <= |values| && Cuts(m, parts[..n], values[..cuts[n]], cuts[..n + 1])
  {
    var n := |parts| - 1;
    assert GroupFits(m, parts, values, cuts, n);
    var init, before, fewer := parts[..n], values[..cuts[n]], cuts[..n + 1];
    forall k | 0 <= k < n
      ensures GroupFits(m, init, before, fewer, k)
    {
      CutsAscend(m, parts, values, cuts, k + 1, n);
      assert GroupFits(m, parts, values, cuts, k);
    }
  }

  lemma CutsShrink(m: Matcher, parts: seq<string>, values: seq<string>, cuts: seq<nat>)
    requires Cuts(m, parts, values, cuts) && parts != [] && parts[|parts| - 1] == ANY && cuts[|parts| - 1] < |values|
    ensures Cuts(m, parts, values[..|values| - 1], cuts[..|parts|] + [|values| - 1])
  {
    var n, shorter, after := |parts| - 1, values[..|values| - 1], cuts[..|parts|] + [|values| - 1];
    forall k | 0 <= k < |parts|
      ensures GroupFits(m, parts, shorter, after, k)
    {
      assert GroupFits(m, parts, values, cuts, k);
      if k < n {
        CutsAscend(m, parts, values, cuts, k + 1, n);
      }
    }
  }

  // Whether the first k parts match the first i components.
  ghost predicate At(m: Matcher, parts: seq<string>, values: seq<string>, k: nat, i: nat)
    requires k <= |parts| && i <= |values|
  {
    Matches(m, parts[..k], values[..i])
  }

  lemma AtStep(m: Matcher, parts: seq<string>, values: seq<string>, k: nat, i: nat)
    requires k < |parts| && i < |values|
    ensures At(m, parts, values, k + 1, i + 1) ==
      if parts[k] == ANY then At(m, parts, values, k, i + 1) || At(m, parts, values, k + 1, i)
      else At(m, parts, values, k, i) && m(parts[k], values[i]) == Some(true)
  {
    assert parts[..k + 1][..k] == parts[..k] && values[..i + 1][..i] == values[..i];
  }

  lemma AtStart(m: Matcher, parts: seq<string>, values: seq<string>, k: nat)
    requires k < |parts|
    ensures At(m, parts, values, k + 1, 0) == (parts[k] == ANY && At(m, parts, values, k, 0))
  {
    assert parts[..k + 1][..k] == parts[..k] && values[..0] == [];
  }

  // A part that turns out malformed when it is compared with a component.
  ghost predicate Malformed(m: Matcher, parts: seq<string>, values: seq<string>, k: nat, i: nat)
    requires k < |parts| && i < |values|
  {
    parts[k] != ANY && At(m, parts, values, k, i) && m(parts[k], values[i]).None?
  }

  ghost predicate IsRow(m: Matcher, parts: seq<string>, values: seq<string>, k: nat, row: seq<bool>)
    requires k <= |parts|
  {
    |row| == |values| + 1 && forall i | 0 <= i <= |values| :: row[i] == At(m, parts, values, k, i)
  }

  // Fills the row of one more part from the row before it.
  method NextRow(m: Matcher, parts: seq<string>, values: seq<string>, k: nat, previous: array<bool>)
    returns (current: array<bool>, failed: bool)
    requires k < |parts| && IsRow(m, parts, values, k, previous[..])
    ensures fresh(current)
    ensures failed <==> exists i | 0 <= i < |values| :: Malformed(m, parts, values, k, i)
    ensures !failed ==> IsRow(m, parts, values, k + 1, current[..])
  {
    hide At;
    current := new bool[|values| + 1](_ => false);
    failed := false;
    ghost var row := previous[..];
    var part := parts[k];
    AtStart(m, parts, values, k);
    if part == ANY {
      current[0] := previous[0];
      for index := 1 to |values| + 1
        invariant previous[..] == row && forall i | 0 <= i < index :: current[i] == At(m, parts, values, k + 1, i)
      {
        AtStep(m, parts, values, k, index - 1);
        current[index] := previous[index] || current[index - 1];
      }
    } else {
      for index := 1 to |values| + 1
        invariant previous[..] == row && forall i | 0 <= i < index :: current[i] == At(m, parts, values, k + 1, i)
        invariant forall i | index <= i <= |values| :: !current[i]
        invariant forall i | 0 <= i < index - 1 :: !Malformed(m, parts, values, k, i)
      {
        AtStep(m, parts, values, k, index - 1);
        if previous[index - 1] {
          var matched := m(part, values[index - 1]);
          if matched.None? {
            assert Malformed(m, parts, values, k, index - 1);
            return current, true;
          }
          current[index] := matched.value;
        }
      }
    }
  }

  // Decides a glob row by row: row k tells which beginnings of the components its first k
  // parts match. It fails exactly when a comparison it needs has a malformed part.
  method MatchDoublestar(m: Matcher, parts: seq<string>, values: seq<string>) returns (r: Option<bool>)
    ensures r.None? <==> exists k, i | 0 <= k < |parts| && 0 <= i < |values| :: Malformed(m, parts, values, k, i)
    ensures r.Some? ==> r.value == Matches(m, parts, values)
  {
    hide Matches, Malformed;
    var previous := new bool[|values| + 1](_ => false);
    previous[0] := true;
    FirstRow(m, parts, values, previous[..]);
    for k := 0 to |parts|
      invariant fresh(previous) && IsRow(m, parts, values, k, previous[..])
      invariant forall a, b | 0 <= a < k && 0 <= b < |values| :: !Malformed(m, parts, values, a, b)
    {
      var current, failed := NextRow(m, parts, values, k, previous);
      if failed {
        return None;
      }
      previous := current;
    }
    assert parts[..|parts|] == parts && values[..|values|] == values;
    assert At(m, parts, values, |parts|, |values|) == previous[..][|values|];
    r := Some(previous[|values|]);
  }

  lemma FirstRow(m: Matcher, parts: seq<string>, values: seq<string>, row: seq<bool>)
    requires |row| == |values| + 1 && row[0] && forall i | 0 < i <= |values| :: !row[i]
    ensures IsRow(m, parts, values, 0, row)
  {
    assert parts[..0] == [];
  }
}
