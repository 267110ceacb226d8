/**
 * `fisherYatesShuffle` of js/script.js. Step i (from the last index down
 * to 1) swaps positions i and j, where j is the random choice made at
 * that step; the choices are a parameter `js`, `js[i]` being the j of
 * step i. As written, every j is drawn from [0, len - 2]; the Fisher-Yates
 * algorithm the function is named after draws it from [0, i].
 */
module Shuffle {
  import opened Basics

  /** Exchange positions i and j. */
  function Swap<T>(a: seq<T>, i: int, j: int): (r: seq<T>)
    requires 0 <= i < |a| && 0 <= j < |a|
    ensures |r| == |a|
    ensures r[i] == a[j] && r[j] == a[i]
    ensures forall k | 0 <= k < |a| && k != i && k != j :: r[k] == a[k]
  {
    a[i := a[j]][j := a[i]]
  }

  /** A swap rearranges the elements: it neither adds nor drops any. */
  lemma SwapPermutes<T>(a: seq<T>, i: int, j: int)
    requires 0 <= i < |a| && 0 <= j < |a|
    ensures multiset(Swap(a, i, j)) == multiset(a)
  {
  }

  /** Every choice is an index of the array. */
  predicate InRange(js: seq<int>, n: int)
  {
    |js| == n && forall i | 0 <= i < n :: 0 <= js[i] < n
  }

  /** The steps i, i - 1, ..., 1 of the loop. */
  function SwapDown<T>(a: seq<T>, js: seq<int>, i: int): (r: seq<T>)
    requires InRange(js, |a|) && i < |a|
    ensures |r| == |a|
    decreases i
  {
    if i <= 0 then a else SwapDown(Swap(a, i, js[i]), js, i - 1)
  }

  /** The loop only swaps, so its result is a rearrangement of its input. */
  lemma {:induction false} SwapDownPermutes<T>(a: seq<T>, js: seq<int>, i: int)
    requires InRange(js, |a|) && i < |a|
    ensures multiset(SwapDown(a, js, i)) == multiset(a)
    decreases i
  {
    if i > 0 {
      SwapPermutes(a, i, js[i]);
      SwapDownPermutes(Swap(a, i, js[i]), js, i - 1);
    }
  }

  /**
   * The choices `Math.floor(Math.random() * (arr.length - 1))` can produce:
   * [0, len - 2] at every step i > 0. The loop makes no draw at i = 0, so
   * `js[0]` is only an unused index of the array.
   */
  predicate AsWrittenChoices(js: seq<int>, n: int)
  {
    && |js| == n
    && (n > 0 ==> 0 <= js[0] < n)
    && forall i | 0 < i < n :: 0 <= js[i] <= n - 2
  }

  /** The choices of the Fisher-Yates shuffle: [0, i] at step i. */
  predicate FisherYatesChoices(js: seq<int>, n: int)
  {
    |js| == n && forall i | 0 <= i < n :: 0 <= js[i] <= i
  }

  /** `fisherYatesShuffle` as written. */
  function ShuffleAsWritten<T>(a: seq<T>, js: seq<int>): (r: seq<T>)
    requires AsWrittenChoices(js, |a|)
    ensures |r| == |a| && multiset(r) == multiset(a)
  {
    SwapDownPermutes(a, js, |a| - 1);
    SwapDown(a, js, |a| - 1)
  }

  /** `fisherYatesShuffle` with the Fisher-Yates range for j. */
  function FisherYates<T>(a: seq<T>, js: seq<int>): (r: seq<T>)
    requires FisherYatesChoices(js, |a|)
    ensures |r| == |a| && multiset(r) == multiset(a)
  {
    SwapDownPermutes(a, js, |a| - 1);
    SwapDown(a, js, |a| - 1)
  }

  // ----- The as-written range never leaves the last element in place -----

  /** Steps that only pick j below the last index leave the last position alone. */
  lemma {:induction false} LastUntouched<T>(a: seq<T>, js: seq<int>, i: int)
    requires InRange(js, |a|) && |a| >= 1 && i < |a| - 1
    requires forall k | 0 < k < |a| :: js[k] <= |a| - 2
    ensures SwapDown(a, js, i)[|a| - 1] == a[|a| - 1]
    decreases i
  {
    if i > 0 {
      LastUntouched(Swap(a, i, js[i]), js, i - 1);
    }
  }

  /**
   * As written, the last element of an array of distinct elements always
   * leaves the last position: the first step moves it away and no later
   * step reaches that position again.
   */
  lemma AsWrittenMovesLast<T>(a: seq<T>, js: seq<int>)
    requires AsWrittenChoices(js, |a|) && |a| >= 2 && NoDup(a)
    ensures ShuffleAsWritten(a, js)[|a| - 1] == a[js[|a| - 1]]
    ensures ShuffleAsWritten(a, js)[|a| - 1] != a[|a| - 1]
    ensures ShuffleAsWritten(a, js) != a
  {
    var n := |a|;
    var b := Swap(a, n - 1, js[n - 1]);
    assert ShuffleAsWritten(a, js) == SwapDown(b, js, n - 2);
    LastUntouched(b, js, n - 2);
  }

  /** The smallest case: the as-written shuffle turns [0, 1] into [1, 0], whatever the random draws. */
  lemma AsWrittenTwo(js: seq<int>)
    requires AsWrittenChoices(js, 2)
    ensures ShuffleAsWritten([0, 1], js) == [1, 0]
  {
    assert js[1] == 0;
  }

  /** A one-element array comes back as it is: the loop makes no step. */
  lemma AsWrittenSingle<T>(x: T, js: seq<int>)
    requires AsWrittenChoices(js, 1)
    ensures ShuffleAsWritten([x], js) == [x]
  {
  }

  // ----- The Fisher-Yates range reaches every permutation -----

  /** The steps up to i read only the choices up to i. */
  lemma {:induction false} ChoicesAbove<T>(a: seq<T>, js: seq<int>, ks: seq<int>, i: int)
    requires InRange(js, |a|) && InRange(ks, |a|) && i < |a|
    requires forall k | 0 <= k <= i :: js[k] == ks[k]
    ensures SwapDown(a, js, i) == SwapDown(a, ks, i)
    decreases i
  {
    if i > 0 {
      ChoicesAbove(Swap(a, i, js[i]), js, ks, i - 1);
    }
  }

  /** Exchanging two positions at or below i keeps the multiset of the prefix up to i. */
  lemma SwapPrefix<T>(c: seq<T>, i: int, j: int)
    requires 0 <= j <= i < |c|
    ensures multiset(Swap(c, i, j)[..i + 1]) == multiset(c[..i + 1])
  {
    assert Swap(c, i, j)[..i + 1] == Swap(c[..i + 1], i, j);
  }

  /** Prefixes of one element with the same elements, followed by equal suffixes, make equal sequences. */
  lemma ReachBase<T>(c: seq<T>, b: seq<T>)
    requires |c| == |b| && 1 <= |c|
    requires multiset(c[..1]) == multiset(b[..1]) && c[1..] == b[1..]
    ensures c == b
  {
    assert c[..1] == [c[0]] && b[..1] == [b[0]];
    assert c[0] in multiset(b[..1]);
    assert c == c[..1] + c[1..] && b == b[..1] + b[1..];
  }

  lemma MultisetCancel<T>(x: seq<T>, y: seq<T>, e: T)
    requires multiset(x + [e]) == multiset(y + [e])
    ensures multiset(x) == multiset(y)
  {
    assert multiset(x) == multiset(x + [e]) - multiset{e};
    assert multiset(y) == multiset(y + [e]) - multiset{e};
  }

  /** Some position j in [0, i] of c holds b[i]. */
  lemma FindSource<T>(c: seq<T>, b: seq<T>, i: int) returns (j: int)
    requires |c| == |b| && 0 <= i < |c|
    requires multiset(c[..i + 1]) == multiset(b[..i + 1])
    ensures 0 <= j <= i && c[j] == b[i]
  {
    assert b[..i + 1] == b[..i] + [b[i]];
    assert b[i] in multiset(c[..i + 1]);
    assert b[i] in c[..i + 1];
    j :| 0 <= j <= i && c[j] == b[i];
  }

  /**
   * Step i can bring b[i] into position i with a choice j in [0, i],
   * leaving prefixes up to i - 1 with the same elements.
   */
  lemma ReachStep<T>(c: seq<T>, b: seq<T>, i: int) returns (j: int)
    requires |c| == |b| && 0 < i < |c|
    requires multiset(c[..i + 1]) == multiset(b[..i + 1])
    requires c[i + 1..] == b[i + 1..]
    ensures 0 <= j <= i
    ensures multiset(Swap(c, i, j)[..i]) == multiset(b[..i])
    ensures Swap(c, i, j)[i..] == b[i..]
  {
    j := FindSource(c, b, i);
    var c1 := Swap(c, i, j);
    SwapPrefix(c, i, j);
    assert c1[..i + 1] == c1[..i] + [b[i]];
    assert b[..i + 1] == b[..i] + [b[i]];
    MultisetCancel(c1[..i], b[..i], b[i]);
    assert c1[i..] == [c1[i]] + c1[i + 1..];
    assert b[i..] == [b[i]] + b[i + 1..];
    assert c1[i + 1..] == c[i + 1..];
  }

  /**
   * Choices in the Fisher-Yates range that turn c into b through the steps
   * i, ..., 1, when the prefixes up to i hold the same elements and the
   * suffixes after i already agree.
   */
  lemma {:induction false} ReachFrom<T>(c: seq<T>, b: seq<T>, i: int) returns (js: seq<int>)
    requires |c| == |b| && 0 <= i < |c|
    requires multiset(c[..i + 1]) == multiset(b[..i + 1])
    requires c[i + 1..] == b[i + 1..]
    ensures FisherYatesChoices(js, |c|) && SwapDown(c, js, i) == b
    decreases i
  {
    if i == 0 {
      ReachBase(c, b);
      js := seq(|c|, k => 0);
    } else {
      var j := ReachStep(c, b, i);
      var ks := ReachFrom(Swap(c, i, j), b, i - 1);
      js := ChooseAt(c, ks, i, j);
    }
  }

  /** Setting choice i to j makes step i swap with j and leaves the later steps as they were. */
  lemma ChooseAt<T>(c: seq<T>, ks: seq<int>, i: int, j: int) returns (js: seq<int>)
    requires 0 <= j <= i < |c| && 0 < i
    requires FisherYatesChoices(ks, |c|)
    ensures js == ks[i := j]
    ensures FisherYatesChoices(js, |c|)
    ensures SwapDown(c, js, i) == SwapDown(Swap(c, i, j), ks, i - 1)
  {
    js := ks[i := j];
    var c1 := Swap(c, i, j);
    ChoicesAbove(c1, ks, js, i - 1);
    assert SwapDown(c, js, i) == SwapDown(c1, js, i - 1);
  }

  /**
   * With the Fisher-Yates range, every rearrangement of the input is a
   * possible output.
   */
  lemma FisherYatesReachesAll<T>(a: seq<T>, b: seq<T>)
    requires |a| == |b| && multiset(a) == multiset(b)
    ensures exists js :: FisherYatesChoices(js, |a|) && FisherYates(a, js) == b
  {
    if |a| == 0 {
      var js: seq<int> := [];
      assert FisherYates(a, js) == b;
    } else {
      assert a[..|a|] == a && b[..|b|] == b;
      var js := ReachFrom(a, b, |a| - 1);
      assert FisherYates(a, js) == b;
    }
  }

  /**
   * Whatever the as-written shuffle returns, the corrected shuffle can
   * return too, so what holds of every corrected outcome holds of it.
   */
  lemma AsWrittenIsFisherYatesOutcome<T>(a: seq<T>, js: seq<int>)
    requires AsWrittenChoices(js, |a|)
    ensures exists ks :: FisherYatesChoices(ks, |a|) && FisherYates(a, ks) == ShuffleAsWritten(a, js)
  {
    FisherYatesReachesAll(a, ShuffleAsWritten(a, js));
  }
}
