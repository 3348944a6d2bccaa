/**
 * The string operations the modelled parsers are built from, with the
 * meaning Rust's `str` gives them: `trim`, `split_once`, `split`, `lines`
 * and `starts_with`. Strings are sequences of characters; whitespace is
 * ASCII whitespace.
 */
module Text {
  import opened Sys

  /** `char::is_whitespace` on ASCII: tab, line feed, vertical tab, form feed, carriage return, space. */
  predicate IsSpace(c: char) {
    c == ' ' || c == '\t' || c == '\n' || c == '\U{B}' || c == '\U{C}' || c == '\r'
  }

  predicate AllSpace(s: string) {
    forall i :: 0 <= i < |s| ==> IsSpace(s[i])
  }

  /** Neither end of `s` is whitespace. */
  predicate Trimmed(s: string) {
    |s| == 0 || (!IsSpace(s[0]) && !IsSpace(s[|s| - 1]))
  }

  /** `str::trim_start`: `s` without its leading whitespace. */
  function TrimStart(s: string): (r: string)
    ensures |r| <= |s| && r == s[|s| - |r|..]
    ensures AllSpace(s[..|s| - |r|])
    ensures |r| == 0 || !IsSpace(r[0])
    decreases |s|
  {
    if |s| > 0 && IsSpace(s[0]) then
      var r := TrimStart(s[1..]);
      assert s[1..][|s| - 1 - |r|..] == s[|s| - |r|..];
      assert s[..|s| - |r|] == [s[0]] + s[1..][..|s| - 1 - |r|];
      r
    else s
  }

  /** `str::trim_end`: `s` without its trailing whitespace. */
  function TrimEnd(s: string): (r: string)
    ensures |r| <= |s| && r == s[..|r|]
    ensures AllSpace(s[|r|..])
    ensures |r| == 0 || !IsSpace(r[|r| - 1])
    decreases |s|
  {
    if |s| > 0 && IsSpace(s[|s| - 1]) then
      var r := TrimEnd(s[..|s| - 1]);
      assert s[..|s| - 1][..|r|] == s[..|r|];
      assert s[|r|..] == s[..|s| - 1][|r|..] + [s[|s| - 1]];
      r
    else s
  }

  /**
   * `str::trim`: `s` without the whitespace at both ends; neither end of
   * the result is whitespace.
   */
  function Trim(s: string): (r: string)
    ensures Trimmed(r)
  {
    var t := TrimStart(s);
    var r := TrimEnd(t);
    assert |r| > 0 ==> r[0] == t[0];
    r
  }

  /** `r` sits at index `i` of `s` with only whitespace before and after it. */
  predicate PaddedAt(s: string, r: string, i: int) {
    0 <= i <= i + |r| <= |s| && s[i..i + |r|] == r && AllSpace(s[..i]) && AllSpace(s[i + |r|..])
  }

  /** What `trim` removes is whitespace: the result is the infix of `s` between a whitespace prefix and a whitespace suffix. */
  lemma TrimInfix(s: string)
    ensures exists i :: PaddedAt(s, Trim(s), i)
  {
    var t := TrimStart(s);
    var r := TrimEnd(t);
    assert r == Trim(s);
    var i := |s| - |t|;
    assert s[i..] == t;
    assert s[i..i + |r|] == s[i..][..|r|];
    assert s[i + |r|..] == t[|r|..];
    assert PaddedAt(s, r, i);
  }

  lemma {:induction false} TrimStartPadded(a: string, x: string)
    requires AllSpace(a) && (|x| == 0 || !IsSpace(x[0]))
    ensures TrimStart(a + x) == x
    decreases |a|
  {
    if |a| > 0 {
      assert (a + x)[1..] == a[1..] + x;
      TrimStartPadded(a[1..], x);
    } else {
      assert a + x == x;
    }
  }

  lemma {:induction false} TrimEndPadded(x: string, b: string)
    requires AllSpace(b) && (|x| == 0 || !IsSpace(x[|x| - 1]))
    ensures TrimEnd(x + b) == x
    decreases |b|
  {
    if |b| > 0 {
      assert (x + b)[..|x + b| - 1] == x + b[..|b| - 1];
      TrimEndPadded(x, b[..|b| - 1]);
    } else {
      assert x + b == x;
    }
  }

  /**
   * Whitespace around a trimmed text is exactly what `Trim` removes: the
   * decomposition in `Trim`'s contract is unique.
   */
  lemma TrimPadded(a: string, x: string, b: string)
    requires AllSpace(a) && AllSpace(b) && Trimmed(x)
    ensures Trim(a + x + b) == x
  {
    assert a + x + b == a + (x + b);
    if |x| > 0 {
      TrimStartPadded(a, x + b);
      TrimEndPadded(x, b);
    } else {
      assert AllSpace(a + x + b);
      AllSpaceTrimsEmpty(a + x + b);
    }
  }

  lemma {:induction false} AllSpaceTrimsEmpty(s: string)
    requires AllSpace(s)
    ensures TrimStart(s) == [] && Trim(s) == []
    decreases |s|
  {
    if |s| > 0 {
      AllSpaceTrimsEmpty(s[1..]);
    }
  }

  /** `trim` leaves an already trimmed text alone, so it is idempotent. */
  lemma TrimTrimmed(x: string)
    requires Trimmed(x)
    ensures Trim(x) == x
  {
    TrimPadded([], x, []);
    assert [] + x + [] == x;
  }

  /** Index of the first `c` in `s`. */
  function IndexOf(s: string, c: char): (r: nat)
    requires c in s
    ensures r < |s| && s[r] == c && c !in s[..r]
  {
    if s[0] == c then 0
    else
      assert c in s[1..] by { assert s == [s[0]] + s[1..]; }
      var k := IndexOf(s[1..], c);
      assert s[..k + 1] == [s[0]] + s[1..][..k];
      k + 1
  }

  /**
   * `str::split_once` with a one-character pattern: the text before the
   * first `c` and the text after it, or None when `c` does not occur.
   */
  function SplitOnce(s: string, c: char): (r: Option<(string, string)>)
    ensures r.None? <==> c !in s
    ensures r.Some? ==> s == r.value.0 + [c] + r.value.1 && c !in r.value.0
  {
    if c !in s then None
    else
      var i := IndexOf(s, c);
      assert s == s[..i] + [c] + s[i + 1..];
      Some((s[..i], s[i + 1..]))
  }

  /** `sep` occurs in `s` starting at index `k`. */
  predicate OccursAt(s: string, sep: string, k: int) {
    0 <= k && k + |sep| <= |s| && s[k..k + |sep|] == sep
  }

  predicate Contains(s: string, sep: string) {
    exists k :: 0 <= k <= |s| && OccursAt(s, sep, k)
  }

  /** The leftmost occurrence of `sep` in `s` at or after `from`. */
  function FindFrom(s: string, sep: string, from: nat): (r: Option<nat>)
    requires |sep| > 0 && from <= |s|
    ensures r.Some? ==> from <= r.value && OccursAt(s, sep, r.value)
    ensures r.Some? ==> forall k :: from <= k < r.value ==> !OccursAt(s, sep, k)
    ensures r.None? ==> forall k :: from <= k ==> !OccursAt(s, sep, k)
    decreases |s| - from
  {
    if from + |sep| > |s| then None
    else if s[from..from + |sep|] == sep then Some(from)
    else FindFrom(s, sep, from + 1)
  }

  /** The strings of `ps` with `sep` between each two neighbours. */
  function JoinOn(ps: seq<string>, sep: string): string
  {
    if |ps| == 0 then ""
    else if |ps| == 1 then ps[0]
    else ps[0] + sep + JoinOn(ps[1..], sep)
  }

  /** Joined non-empty pieces start with the first piece's first character and end with the last piece's last. */
  lemma {:induction false} JoinOnEnds(ps: seq<string>, sep: string)
    requires |ps| > 0 && forall k :: 0 <= k < |ps| ==> |ps[k]| > 0
    ensures var j := JoinOn(ps, sep); |j| > 0 && j[0] == ps[0][0] && j[|j| - 1] == ps[|ps| - 1][|ps[|ps| - 1]| - 1]
    decreases |ps|
  {
    if |ps| > 1 {
      JoinOnEnds(ps[1..], sep);
      var rest := JoinOn(ps[1..], sep);
      assert JoinOn(ps, sep) == ps[0] + sep + rest;
      assert ps[1..][|ps[1..]| - 1] == ps[|ps| - 1];
    }
  }

  lemma OccursInPrefix(s: string, sep: string, i: nat, k: int)
    requires i <= |s| && OccursAt(s[..i], sep, k)
    ensures OccursAt(s, sep, k) && k + |sep| <= i
  {
    assert s[..i][k..k + |sep|] == s[k..k + |sep|];
  }

  /**
   * `str::split` with a non-empty pattern: the pieces between the leftmost
   * non-overlapping occurrences of `sep`; there is always at least one.
   */
  function SplitOn(s: string, sep: string): (r: seq<string>)
    requires |sep| > 0
    ensures |r| > 0
    decreases |s|
  {
    match FindFrom(s, sep, 0)
    case None => [s]
    case Some(i) => [s[..i]] + SplitOn(s[i + |sep|..], sep)
  }

  /** Joining the pieces with `sep` gives `s` back. */
  lemma {:induction false} SplitOnJoin(s: string, sep: string)
    requires |sep| > 0
    ensures JoinOn(SplitOn(s, sep), sep) == s
    decreases |s|
  {
    match FindFrom(s, sep, 0)
    case None =>
    case Some(i) =>
      var tail := SplitOn(s[i + |sep|..], sep);
      SplitOnJoin(s[i + |sep|..], sep);
      assert s == s[..i] + sep + s[i + |sep|..] by {
        assert s[i..i + |sep|] == sep;
      }
      var r := [s[..i]] + tail;
      assert r[1..] == tail;
  }

  /** No piece contains `sep`. */
  lemma {:induction false} SplitOnPieces(s: string, sep: string)
    requires |sep| > 0
    ensures forall k :: 0 <= k < |SplitOn(s, sep)| ==> !Contains(SplitOn(s, sep)[k], sep)
    decreases |s|
  {
    var r := SplitOn(s, sep);
    match FindFrom(s, sep, 0)
    case None =>
      assert r == [s];
      assert !Contains(s, sep);
    case Some(i) =>
      var head := s[..i];
      var tail := SplitOn(s[i + |sep|..], sep);
      SplitOnPieces(s[i + |sep|..], sep);
      assert !Contains(head, sep) by {
        forall k | OccursAt(head, sep, k) ensures false {
          OccursInPrefix(s, sep, i, k);
        }
      }
      assert r == [head] + tail;
      forall k | 0 <= k < |r| ensures !Contains(r[k], sep) {
        if k > 0 {
          assert r[k] == tail[k - 1];
        }
      }
  }

  lemma OccursAtChar(s: string, c: char, k: int)
    ensures OccursAt(s, [c], k) <==> 0 <= k < |s| && s[k] == c
  {
    if 0 <= k < |s| {
      assert s[k..k + 1] == [s[k]];
    }
  }

  lemma ContainsChar(s: string, c: char)
    ensures Contains(s, [c]) <==> c in s
  {
    if c in s {
      var k :| 0 <= k < |s| && s[k] == c;
      OccursAtChar(s, c, k);
    }
    if Contains(s, [c]) {
      var k :| OccursAt(s, [c], k);
      OccursAtChar(s, c, k);
    }
  }

  lemma FindChar(s: string, c: char)
    ensures FindFrom(s, [c], 0) == if c in s then Some(IndexOf(s, c)) else None
  {
    forall k ensures OccursAt(s, [c], k) <==> 0 <= k < |s| && s[k] == c {
      OccursAtChar(s, c, k);
    }
    if c in s {
      var i := IndexOf(s, c);
      forall j | 0 <= j < i ensures s[j] != c {
        assert s[..i][j] == s[j];
      }
    }
  }

  /** The first `c` of `a + [c] + b` is the one after `a` when `a` holds none. */
  lemma {:induction false} IndexOfConcat(a: string, c: char, b: string)
    requires c !in a
    ensures c in a + [c] + b && IndexOf(a + [c] + b, c) == |a|
    decreases |a|
  {
    var s := a + [c] + b;
    assert s[|a|] == c;
    if |a| > 0 {
      assert s[0] == a[0];
      assert s[1..] == a[1..] + [c] + b;
      IndexOfConcat(a[1..], c, b);
    }
  }

  /**
   * `str::split` with a character: one more piece than there are `c`s in
   * `s`, and no piece contains `c`.
   */
  lemma {:induction false} SplitCharCount(s: string, c: char)
    ensures |SplitOn(s, [c])| == multiset(s)[c] + 1
    ensures forall k :: 0 <= k < |SplitOn(s, [c])| ==> c !in SplitOn(s, [c])[k]
    decreases |s|
  {
    var r := SplitOn(s, [c]);
    SplitOnPieces(s, [c]);
    forall k | 0 <= k < |r| ensures c !in r[k] {
      ContainsChar(r[k], c);
    }
    FindChar(s, c);
    if c in s {
      var i := IndexOf(s, c);
      SplitCharCount(s[i + 1..], c);
      assert s == s[..i] + [c] + s[i + 1..];
      assert multiset(s)[c] == multiset(s[..i])[c] + 1 + multiset(s[i + 1..])[c];
    } else {
      assert multiset(s)[c] == 0;
    }
  }

  lemma SplitOnChar(s: string, c: char)
    ensures c !in s ==> SplitOn(s, [c]) == [s]
    ensures c in s ==> var i := IndexOf(s, c); SplitOn(s, [c]) == [s[..i]] + SplitOn(s[i + 1..], [c])
  {
    FindChar(s, c);
  }

  /** Splitting on `c` undoes joining with `c` pieces that do not contain `c`. */
  lemma {:induction false} SplitJoinChar(ps: seq<string>, c: char)
    requires |ps| > 0
    requires forall k :: 0 <= k < |ps| ==> c !in ps[k]
    ensures SplitOn(JoinOn(ps, [c]), [c]) == ps
    decreases |ps|
  {
    var s := JoinOn(ps, [c]);
    if |ps| == 1 {
      SplitOnChar(s, c);
    } else {
      var rest := JoinOn(ps[1..], [c]);
      assert s == ps[0] + [c] + rest;
      IndexOfConcat(ps[0], c, rest);
      assert s[..|ps[0]|] == ps[0] && s[|ps[0]| + 1..] == rest;
      SplitOnChar(s, c);
      SplitJoinChar(ps[1..], c);
      assert ps == [ps[0]] + ps[1..];
    }
  }

  /** `str::starts_with` with a character. */
  predicate StartsWith(s: string, c: char) {
    |s| > 0 && s[0] == c
  }

  /** The line ending of `str::lines` is "\n" or "\r\n": a '\r' is dropped only before a '\n'. */
  function StripCr(line: string): string {
    if |line| > 0 && line[|line| - 1] == '\r' then line[..|line| - 1] else line
  }

  /**
   * `str::lines` (and `BufRead::lines`): the text split at each "\n" or
   * "\r\n"; a final line ending is optional and yields no empty last line.
   */
  function Lines(s: string): (r: seq<string>)
    ensures forall k :: 0 <= k < |r| ==> '\n' !in r[k]
    decreases |s|
  {
    if |s| == 0 then []
    else if '\n' !in s then [s]
    else
      var i := IndexOf(s, '\n');
      [StripCr(s[..i])] + Lines(s[i + 1..])
  }

  /** The text a sequence of lines makes when each is ended by "\n". */
  function Unlines(ls: seq<string>): string {
    if |ls| == 0 then "" else ls[0] + ['\n'] + Unlines(ls[1..])
  }

  /** The first line of `a` + "\n" + `rest` is `a`, less a final '\r'. */
  lemma LinesConcat(a: string, rest: string)
    requires '\n' !in a
    ensures Lines(a + ['\n'] + rest) == [StripCr(a)] + Lines(rest)
  {
    var s := a + ['\n'] + rest;
    IndexOfConcat(a, '\n', rest);
    assert s[..|a|] == a && s[|a| + 1..] == rest;
  }

  /** A line `Lines` can yield as it is: no '\n' in it and no '\r' at its end. */
  predicate PlainLine(l: string) {
    '\n' !in l && (|l| == 0 || l[|l| - 1] != '\r')
  }

  /** Plain lines come back from `Lines` unchanged once each is ended by "\n". */
  lemma {:induction false} LinesUnlines(ls: seq<string>)
    requires forall k :: 0 <= k < |ls| ==> PlainLine(ls[k])
    ensures Lines(Unlines(ls)) == ls
    decreases |ls|
  {
    if |ls| > 0 {
      assert PlainLine(ls[0]);
      LinesConcat(ls[0], Unlines(ls[1..]));
      assert forall k :: 0 <= k < |ls[1..]| ==> ls[1..][k] == ls[k + 1];
      LinesUnlines(ls[1..]);
      assert ls == [ls[0]] + ls[1..];
    }
  }
}
