/**
 * Scanning a text for its newline characters: the search primitive the
 * document's constructor calls, the sequence of newline offsets it builds,
 * and what that sequence is.
 */
module NewlineScan {

  /**
   * JavaScript's `s.indexOf(c, from)` for a one-character needle: the first
   * offset at or after `from` (a negative `from` counts as 0) that holds `c`,
   * or -1 when there is none.
   */
  function IndexOf(s: string, c: char, from: int): (r: int)
    ensures r == -1 || (0 <= r < |s| && from <= r && s[r] == c)
    ensures forall i :: 0 <= i < |s| && from <= i && (r == -1 || i < r) ==> s[i] != c
    decreases |s| - from
  {
    if from < 0 then IndexOf(s, c, 0)
    else if from >= |s| then -1
    else if s[from] == c then from
    else IndexOf(s, c, from + 1)
  }

  predicate StrictlyIncreasing(xs: seq<int>)
  {
    forall i, j :: 0 <= i < j < |xs| ==> xs[i] < xs[j]
  }

  /** `xs` lists offsets of newlines in `s`, and every newline of `s` is listed. */
  ghost predicate ExactNewlines(s: string, xs: seq<int>)
  {
    (forall j :: 0 <= j < |xs| ==> 0 <= xs[j] < |s| && s[xs[j]] == '\n') &&
    (forall i :: 0 <= i < |s| && s[i] == '\n' ==> i in xs)
  }

  /** The offsets of the newlines among the first `k` characters of `s`, in order. */
  function Newlines(s: string, k: nat): (r: seq<int>)
    requires k <= |s|
  {
    if k == 0 then [] else Newlines(s, k - 1) + (if s[k - 1] == '\n' then [k - 1] else [])
  }

  /** The offsets of all newlines of `s`, in order. */
  function NewlineIndexes(s: string): (r: seq<int>)
  {
    Newlines(s, |s|)
  }

  /** The number of characters after the last newline of `s` (all of `s` when it has none). */
  function LastLineLength(s: string): (r: nat)
    ensures r <= |s|
    ensures forall i :: |s| - r <= i < |s| ==> s[i] != '\n'
    ensures r < |s| ==> s[|s| - r - 1] == '\n'
  {
    if |s| == 0 then 0
    else if s[|s| - 1] == '\n' then 0
    else LastLineLength(s[..|s| - 1]) + 1
  }

  lemma {:induction false} NewlinesCorrect(s: string, k: nat)
    requires k <= |s|
    ensures StrictlyIncreasing(Newlines(s, k))
    ensures forall j :: 0 <= j < |Newlines(s, k)| ==>
      0 <= Newlines(s, k)[j] < k && s[Newlines(s, k)[j]] == '\n'
    ensures forall i :: 0 <= i < k && s[i] == '\n' ==> i in Newlines(s, k)
  {
    if k > 0 {
      NewlinesCorrect(s, k - 1);
    }
  }

  /** The newline offsets are strictly increasing and are exactly the newlines of `s`. */
  lemma NewlineIndexesExact(s: string)
    ensures StrictlyIncreasing(NewlineIndexes(s))
    ensures ExactNewlines(s, NewlineIndexes(s))
  {
    NewlinesCorrect(s, |s|);
  }

  /** A strictly increasing list of non-negative offsets that ends in 0 is `[0]`. */
  lemma EndsAtZero(n: seq<int>)
    requires StrictlyIncreasing(n) && |n| > 0 && n[|n| - 1] == 0
    requires forall j :: 0 <= j < |n| ==> 0 <= n[j]
    ensures n == [0]
  {
    IncreasingGrows(n, |n| - 1);
  }

  lemma {:induction false} IncreasingGrows(n: seq<int>, j: nat)
    requires StrictlyIncreasing(n) && j < |n|
    ensures n[0] + j <= n[j]
  {
    if j > 0 {
      IncreasingGrows(n, j - 1);
      assert n[j - 1] < n[j];
    }
  }

  lemma IncreasingHeadIsLeast(a: seq<int>, x: int)
    requires StrictlyIncreasing(a) && x in a
    ensures a[0] <= x
  {
    var j :| 0 <= j < |a| && a[j] == x;
    if j > 0 {
      assert a[0] < a[j];
    }
  }

  lemma SameMembersBothEmpty(a: seq<int>, b: seq<int>)
    requires forall x :: x in a ==> x in b
    requires forall x :: x in b ==> x in a
    ensures |a| == 0 <==> |b| == 0
  {
    if |a| > 0 {
      var x := a[0];
      assert x in a;
    }
    if |b| > 0 {
      var y := b[0];
      assert y in b;
    }
  }

  lemma {:induction false} IncreasingUnique(a: seq<int>, b: seq<int>)
    requires StrictlyIncreasing(a) && StrictlyIncreasing(b)
    requires forall x :: x in a ==> x in b
    requires forall x :: x in b ==> x in a
    ensures a == b
  {
    SameMembersBothEmpty(a, b);
    if |a| > 0 {
      var x0, y0 := a[0], b[0];
      assert x0 in a && y0 in b;
      IncreasingHeadIsLeast(a, b[0]);
      IncreasingHeadIsLeast(b, a[0]);
      forall x
        ensures x in a[1..] <==> x in b[1..]
      {
        if x in a[1..] {
          var j :| 1 <= j < |a| && a[j] == x;
          assert a[0] < a[j];
          assert x in b;
          var k :| 0 <= k < |b| && b[k] == x;
          assert k != 0;
          assert x == b[1..][k - 1];
        }
        if x in b[1..] {
          var j :| 1 <= j < |b| && b[j] == x;
          assert b[0] < b[j];
          assert x in a;
          var k :| 0 <= k < |a| && a[k] == x;
          assert k != 0;
          assert x == a[1..][k - 1];
        }
      }
      IncreasingUnique(a[1..], b[1..]);
      assert a == [a[0]] + a[1..];
      assert b == [b[0]] + b[1..];
    }
  }

  /** Any strictly increasing list of exactly the newlines of `s` is `NewlineIndexes(s)`. */
  lemma NewlineIndexesUnique(s: string, xs: seq<int>)
    requires StrictlyIncreasing(xs) && ExactNewlines(s, xs)
    ensures xs == NewlineIndexes(s)
  {
    NewlineIndexesExact(s);
    var ys := NewlineIndexes(s);
    forall x
      ensures x in xs <==> x in ys
    {
      if x in xs {
        var j :| 0 <= j < |xs| && xs[j] == x;
      }
      if x in ys {
        var j :| 0 <= j < |ys| && ys[j] == x;
      }
    }
    IncreasingUnique(xs, ys);
  }

  lemma {:induction false} NewlinesCount(s: string, k: nat)
    requires k <= |s|
    ensures |Newlines(s, k)| == multiset(s[..k])['\n']
  {
    if k > 0 {
      NewlinesCount(s, k - 1);
      assert s[..k] == s[..k - 1] + [s[k - 1]];
    }
  }

  /** There are as many newline offsets as there are newline characters in `s`. */
  lemma NewlineIndexesCount(s: string)
    ensures |NewlineIndexes(s)| == multiset(s)['\n']
  {
    NewlinesCount(s, |s|);
    assert s[..|s|] == s;
  }

  /** Skipping a stretch free of newlines adds no offsets. */
  lemma {:induction false} NewlinesSkip(s: string, a: nat, b: nat)
    requires a <= b <= |s|
    requires forall i :: a <= i < b ==> s[i] != '\n'
    ensures Newlines(s, b) == Newlines(s, a)
  {
    if a < b {
      NewlinesSkip(s, a, b - 1);
    }
  }

  /** The last line's length, measured from the last newline offset found in a prefix. */
  lemma {:induction false} LastLineFromNewlines(s: string, k: nat)
    requires k <= |s|
    ensures var n := Newlines(s, k);
      LastLineLength(s[..k]) == k - (if n == [] then 0 else n[|n| - 1] + 1)
  {
    if k > 0 {
      LastLineFromNewlines(s, k - 1);
      assert s[..k][..k - 1] == s[..k - 1];
    }
  }
}
