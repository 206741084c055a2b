/**
 Sets of page indices: the abstract view of a heap node's free-page bitmap, and the
 first-fit and largest-run questions that the allocator asks about it.
 */
module Pages {
  import opened Util

  const PAGE_SIZE: nat := 4096

  /** The pages start, start + 1, ..., start + num - 1. */
  function Range(start: nat, num: nat): (r: set<nat>)
    ensures forall k :: k in r <==> start <= k < start + num
    ensures |r| == num
  {
    if num == 0 then {} else Range(start, num - 1) + {start + num - 1}
  }

  lemma SubsetSize(a: set<nat>, b: set<nat>)
    requires a <= b
    ensures |a| <= |b| && |b - a| == |b| - |a|
  {
    assert b == a + (b - a);
  }

  /** A run of num free pages begins at start, inside a node of the given number of pages. */
  predicate Fits(free: set<nat>, pages: nat, num: nat, start: nat) {
    start + num <= pages && Range(start, num) <= free
  }

  /** The lowest fitting start at or above `from`. */
  function FirstFitFrom(free: set<nat>, pages: nat, num: nat, from: nat): Option<nat>
    decreases pages - from
  {
    if from + num > pages || from > pages then None
    else if Range(from, num) <= free then Some(from)
    else if from == pages then None
    else FirstFitFrom(free, pages, num, from + 1)
  }

  function FirstFit(free: set<nat>, pages: nat, num: nat): Option<nat> {
    FirstFitFrom(free, pages, num, 0)
  }

  /** FirstFit is exact: the lowest fit if there is one, and nothing only if there is none. */
  lemma {:induction false} FirstFitFromIsExact(free: set<nat>, pages: nat, num: nat, from: nat)
    ensures match FirstFitFrom(free, pages, num, from)
            case Some(s) =>
              from <= s && Fits(free, pages, num, s) &&
              forall t :: from <= t < s ==> !Fits(free, pages, num, t)
            case None => forall t :: from <= t ==> !Fits(free, pages, num, t)
    decreases pages - from
  {
    if from + num <= pages && from < pages && !(Range(from, num) <= free) {
      FirstFitFromIsExact(free, pages, num, from + 1);
      assert !Fits(free, pages, num, from);
    }
  }

  lemma FirstFitIsExact(free: set<nat>, pages: nat, num: nat)
    ensures match FirstFit(free, pages, num)
            case Some(s) => Fits(free, pages, num, s) && forall t :: 0 <= t < s ==> !Fits(free, pages, num, t)
            case None => forall t :: 0 <= t ==> !Fits(free, pages, num, t)
  {
    FirstFitFromIsExact(free, pages, num, 0);
  }

  /** Any start with the first-fit property is the one that FirstFit computes. */
  lemma FirstFitIsUnique(free: set<nat>, pages: nat, num: nat, s: nat)
    requires Fits(free, pages, num, s) && forall t :: 0 <= t < s ==> !Fits(free, pages, num, t)
    ensures FirstFit(free, pages, num) == Some(s)
  {
    FirstFitFromIsExact(free, pages, num, 0);
  }

  lemma NoFit(free: set<nat>, pages: nat, num: nat)
    requires forall t :: 0 <= t ==> !Fits(free, pages, num, t)
    ensures FirstFit(free, pages, num) == None
  {
    FirstFitFromIsExact(free, pages, num, 0);
  }

  // ----- Longest runs -----

  /** The largest n, up to the given bound, such that some n consecutive pages are free. */
  function LongestRunUpTo(free: set<nat>, pages: nat, n: nat): nat {
    if n == 0 || FirstFit(free, pages, n).Some? then n else LongestRunUpTo(free, pages, n - 1)
  }

  function LongestRun(free: set<nat>, pages: nat): nat {
    LongestRunUpTo(free, pages, pages)
  }

  lemma {:induction false} LongestRunUpToIsExact(free: set<nat>, pages: nat, n: nat, m: nat)
    requires 0 < m <= n
    ensures FirstFit(free, pages, m).Some? <==> m <= LongestRunUpTo(free, pages, n)
  {
    hide FirstFit;
    if n > 0 && FirstFit(free, pages, n).Some? {
      ShorterRunFits(free, pages, n, m);
    } else if m < n {
      LongestRunUpToIsExact(free, pages, n - 1, m);
    } else {
      LongestRunBound(free, pages, n - 1);
    }
  }

  lemma ShorterRunFits(free: set<nat>, pages: nat, n: nat, m: nat)
    requires m <= n && FirstFit(free, pages, n).Some?
    ensures FirstFit(free, pages, m).Some?
  {
    FirstFitFromIsExact(free, pages, n, 0);
    var s := FirstFit(free, pages, n).value;
    assert Fits(free, pages, m, s);
    FirstFitFromIsExact(free, pages, m, 0);
  }

  /** A run of m > 0 pages can be found exactly when m is at most the longest run. */
  lemma LongestRunIsExact(free: set<nat>, pages: nat, m: nat)
    requires 0 < m
    ensures FirstFit(free, pages, m).Some? <==> m <= LongestRun(free, pages)
    ensures LongestRun(free, pages) <= pages
  {
    LongestRunBound(free, pages, pages);
    if m <= pages {
      LongestRunUpToIsExact(free, pages, pages, m);
    }
  }

  lemma LongestRunBound(free: set<nat>, pages: nat, n: nat)
    ensures LongestRunUpTo(free, pages, n) <= n
  {
  }

  /** The longest run is the one length that is attained and not exceeded. */
  lemma LongestRunIsUnique(free: set<nat>, pages: nat, n: nat)
    requires n == 0 || exists s :: Fits(free, pages, n, s)
    requires forall m: nat, s: nat :: Fits(free, pages, m, s) ==> m <= n
    ensures LongestRun(free, pages) == n
  {
    if n > 0 {
      FirstFitFromIsExact(free, pages, n, 0);
      LongestRunIsExact(free, pages, n);
    }
    var r := LongestRun(free, pages);
    if r > n {
      LongestRunIsExact(free, pages, r);
      FirstFitFromIsExact(free, pages, r, 0);
    }
  }
}
