/**
 * The shape both line-oriented readers share: each line is turned into at
 * most one (key, value) entry, and the entries are inserted one after
 * another into a map, as `HashMap::insert` does in a loop, so that a later
 * entry for a key replaces an earlier one.
 */
module Maps {
  import opened Sys

  /** The entries `f` finds in `lines`, in line order; a line for which `f` gives None contributes nothing. */
  function FilterMap<S, T>(lines: seq<S>, f: S -> Option<T>): (r: seq<T>)
    ensures |r| <= |lines|
    decreases |lines|
  {
    if |lines| == 0 then []
    else
      var init := FilterMap(lines[..|lines| - 1], f);
      match f(lines[|lines| - 1])
      case None => init
      case Some(e) => init + [e]
  }

  /** The entries of two runs of lines are the entries of each, in order. */
  lemma {:induction false} FilterMapConcat<S, T>(a: seq<S>, b: seq<S>, f: S -> Option<T>)
    ensures FilterMap(a + b, f) == FilterMap(a, f) + FilterMap(b, f)
    decreases |b|
  {
    if |b| == 0 {
      assert a + b == a;
    } else {
      var b' := b[..|b| - 1];
      assert (a + b)[..|a + b| - 1] == a + b' && (a + b)[|a + b| - 1] == b[|b| - 1];
      FilterMapConcat(a, b', f);
    }
  }

  /** The entries of one more line. */
  lemma FilterMapStep<S, T>(lines: seq<S>, i: nat, f: S -> Option<T>)
    requires i < |lines|
    ensures FilterMap(lines[..i + 1], f) == FilterMap(lines[..i], f) + (if f(lines[i]).Some? then [f(lines[i]).value] else [])
  {
    assert lines[..i + 1][..i] == lines[..i];
  }

  /** Every entry comes from some line. */
  lemma {:induction false} FilterMapFrom<S, T>(lines: seq<S>, f: S -> Option<T>, k: nat)
    requires k < |FilterMap(lines, f)|
    ensures exists j :: 0 <= j < |lines| && f(lines[j]) == Some(FilterMap(lines, f)[k])
    decreases |lines|
  {
    var init := FilterMap(lines[..|lines| - 1], f);
    if k < |init| {
      FilterMapFrom(lines[..|lines| - 1], f, k);
      var j :| 0 <= j < |lines| - 1 && f(lines[..|lines| - 1][j]) == Some(init[k]);
      assert lines[..|lines| - 1][j] == lines[j];
    } else {
      assert f(lines[|lines| - 1]) == Some(FilterMap(lines, f)[k]);
    }
  }

  /** The entry a line yields is among the entries. */
  lemma {:induction false} FilterMapHas<S, T>(lines: seq<S>, f: S -> Option<T>, j: nat)
    requires j < |lines| && f(lines[j]).Some?
    ensures f(lines[j]).value in FilterMap(lines, f)
    decreases |lines|
  {
    var init := FilterMap(lines[..|lines| - 1], f);
    if j < |lines| - 1 {
      assert lines[..|lines| - 1][j] == lines[j];
      FilterMapHas(lines[..|lines| - 1], f, j);
    }
  }

  /** Some element of `s` satisfies `p`. */
  predicate AnyOf<T>(s: seq<T>, p: T -> bool) {
    exists i :: 0 <= i < |s| && p(s[i])
  }

  /** Some element of a prefix one longer satisfies `p` when one of the shorter prefix does or the new element does. */
  lemma AnyOfStep<T>(s: seq<T>, i: nat, p: T -> bool)
    requires i < |s|
    ensures AnyOf(s[..i + 1], p) <==> AnyOf(s[..i], p) || p(s[i])
  {
    var pre := s[..i + 1];
    assert pre[..i] == s[..i] && pre[i] == s[i];
    if AnyOf(pre, p) && !p(s[i]) {
      var j :| 0 <= j < |pre| && p(pre[j]);
      assert s[..i][j] == pre[j];
    }
    if AnyOf(s[..i], p) {
      var j :| 0 <= j < i && p(s[..i][j]);
      assert pre[j] == s[..i][j];
    }
  }

  /** The filter that drops the elements satisfying `p` and keeps the others as they are. */
  function Drop<T>(p: T -> bool): T -> Option<T> {
    x => if p(x) then None else Some(x)
  }

  /**
   * Dropping the elements that satisfy `p` shortens the sequence exactly
   * when one of them does; otherwise the sequence is unchanged.
   */
  lemma {:induction false} DropShrinks<T>(xs: seq<T>, p: T -> bool)
    ensures AnyOf(xs, p) <==> |FilterMap(xs, Drop(p))| < |xs|
    ensures !AnyOf(xs, p) ==> FilterMap(xs, Drop(p)) == xs
    decreases |xs|
  {
    if |xs| == 0 {
      assert !AnyOf(xs, p);
    } else {
      var i := |xs| - 1;
      var pre, x := xs[..i], xs[i];
      DropShrinks(pre, p);
      FilterMapStep(xs, i, Drop(p));
      AnyOfStep(xs, i, p);
      assert xs[..i + 1] == xs;
      if !p(x) {
        assert xs == pre + [x];
      }
    }
  }

  /** How many elements of `xs` satisfy `p`. */
  function Count<T>(xs: seq<T>, p: T -> bool): nat {
    if |xs| == 0 then 0
    else Count(xs[..|xs| - 1], p) + (if p(xs[|xs| - 1]) then 1 else 0)
  }

  /** Dropping shortens the sequence by exactly the number of elements dropped. */
  lemma {:induction false} DropCount<T>(xs: seq<T>, p: T -> bool)
    ensures |FilterMap(xs, Drop(p))| + Count(xs, p) == |xs|
    decreases |xs|
  {
    if |xs| > 0 {
      DropCount(xs[..|xs| - 1], p);
    }
  }

  /** An element that does not satisfy `p` is kept. */
  lemma DropKeeps<T>(xs: seq<T>, p: T -> bool, k: nat)
    requires k < |xs| && !p(xs[k])
    ensures xs[k] in FilterMap(xs, Drop(p))
  {
    FilterMapHas(xs, Drop(p), k);
  }

  /** What is left satisfies no `p` and comes from `xs`. */
  lemma DropLeaves<T>(xs: seq<T>, p: T -> bool)
    ensures forall k :: 0 <= k < |FilterMap(xs, Drop(p))| ==> !p(FilterMap(xs, Drop(p))[k]) && FilterMap(xs, Drop(p))[k] in xs
  {
    var r := FilterMap(xs, Drop(p));
    forall k | 0 <= k < |r| ensures !p(r[k]) && r[k] in xs {
      FilterMapFrom(xs, Drop(p), k);
    }
  }

  /** `m` after `insert`ing each entry of `es` in turn. */
  function InsertAll<V>(m: map<string, V>, es: seq<(string, V)>): (r: map<string, V>)
    ensures forall k :: k in r <==> k in m || exists i :: 0 <= i < |es| && es[i].0 == k
    decreases |es|
  {
    if |es| == 0 then m
    else
      var init := InsertAll(m, es[..|es| - 1]);
      assert forall i :: 0 <= i < |es| - 1 ==> es[..|es| - 1][i] == es[i];
      init[es[|es| - 1].0 := es[|es| - 1].1]
  }

  lemma InsertAllStep<V>(m: map<string, V>, es: seq<(string, V)>, e: (string, V))
    ensures InsertAll(m, es + [e]) == InsertAll(m, es)[e.0 := e.1]
  {
    assert (es + [e])[..|es|] == es;
  }

  /** The map after the entry of one more line, if it has one. */
  lemma InsertLineStep<V>(m: map<string, V>, lines: seq<string>, i: nat, f: string -> Option<(string, V)>)
    requires i < |lines|
    ensures var before := InsertAll(m, FilterMap(lines[..i], f));
      InsertAll(m, FilterMap(lines[..i + 1], f)) ==
        if f(lines[i]).Some? then before[f(lines[i]).value.0 := f(lines[i]).value.1] else before
  {
    FilterMapStep(lines, i, f);
    if f(lines[i]).Some? {
      InsertAllStep(m, FilterMap(lines[..i], f), f(lines[i]).value);
    } else {
      assert FilterMap(lines[..i + 1], f) == FilterMap(lines[..i], f);
    }
  }

  /** Some line yields an entry for key `k`. */
  predicate LineNames<V>(lines: seq<string>, f: string -> Option<(string, V)>, k: string) {
    exists j :: 0 <= j < |lines| && f(lines[j]).Some? && f(lines[j]).value.0 == k
  }

  /** Starting from an empty map, the keys are exactly those of the lines that yield an entry. */
  lemma KeysFromLines<V>(lines: seq<string>, f: string -> Option<(string, V)>)
    ensures forall k :: k in InsertAll(map[], FilterMap(lines, f)) <==> LineNames(lines, f, k)
  {
    var es := FilterMap(lines, f);
    forall k | k in InsertAll(map[], es)
      ensures exists j :: 0 <= j < |lines| && f(lines[j]).Some? && f(lines[j]).value.0 == k
    {
      var i :| 0 <= i < |es| && es[i].0 == k;
      FilterMapFrom(lines, f, i);
    }
    forall k, j | 0 <= j < |lines| && f(lines[j]).Some? && f(lines[j]).value.0 == k
      ensures k in InsertAll(map[], es)
    {
      FilterMapHas(lines, f, j);
    }
  }

  /** The value a key ends up with is that of the last entry for it. */
  lemma {:induction false} LastWins<V>(m: map<string, V>, es: seq<(string, V)>, i: nat)
    requires i < |es|
    requires forall j :: i < j < |es| ==> es[j].0 != es[i].0
    ensures es[i].0 in InsertAll(m, es) && InsertAll(m, es)[es[i].0] == es[i].1
    decreases |es|
  {
    if i < |es| - 1 {
      var es' := es[..|es| - 1];
      assert es'[i] == es[i];
      assert forall j :: i < j < |es'| ==> es'[j] == es[j];
      LastWins(m, es', i);
    }
  }

  /** The last line that yields an entry for a key decides the value of that key. */
  lemma LastLineWins<V>(m: map<string, V>, pre: seq<string>, line: string, post: seq<string>, f: string -> Option<(string, V)>)
    requires f(line).Some?
    requires forall j :: 0 <= j < |post| ==> f(post[j]).None? || f(post[j]).value.0 != f(line).value.0
    ensures var (key, v) := f(line).value;
      key in InsertAll(m, FilterMap(pre + [line] + post, f)) && InsertAll(m, FilterMap(pre + [line] + post, f))[key] == v
  {
    var key := f(line).value.0;
    FilterMapConcat(pre, [line], f);
    FilterMapConcat(pre + [line], post, f);
    var a := FilterMap(pre, f);
    var b := FilterMap(post, f);
    assert FilterMap([line], f) == [f(line).value] by {
      assert [line][..0] == [];
    }
    var es := a + [f(line).value] + b;
    assert FilterMap(pre + [line] + post, f) == es;
    forall j | |a| < j < |es| ensures es[j].0 != key {
      assert es[j] == b[j - |a| - 1];
      FilterMapFrom(post, f, j - |a| - 1);
    }
    LastWins(m, es, |a|);
  }
}
