/**
 * The longest error-free check (src/pages/LongestErrorFreeCheck.tsx): all
 * checks are read, the error-free ones kept, and a `reduce` picks the one
 * with the longest original text, a later check winning a tie.
 */
module LongestErrorFree {
  import opened Wrappers
  import opened Records

  /** JavaScript's `length`: UTF-16 code units, two for a character outside the Basic Multilingual Plane. */
  function Utf16Length(s: string): (n: nat)
    ensures |s| <= n <= 2 * |s|
    ensures (forall i :: 0 <= i < |s| ==> s[i] <= '\U{FFFF}') ==> n == |s|
  {
    if s == [] then 0 else (if s[0] <= '\U{FFFF}' then 1 else 2) + Utf16Length(s[1..])
  }

  function Len(c: SpellCheck): nat
  {
    Utf16Length(c.originalString)
  }

  /** `checks.filter(check => check.without_errors)` */
  function ErrorFree(checks: seq<SpellCheck>): seq<SpellCheck>
  {
    if checks == [] then []
    else ErrorFree(checks[..|checks| - 1]) + (if checks[|checks| - 1].withoutErrors then [checks[|checks| - 1]] else [])
  }

  /** `reduce((prev, current) => prev.len > current.len ? prev : current)` without a start value. */
  function Reduce(xs: seq<SpellCheck>): SpellCheck
    requires xs != []
  {
    if |xs| == 1 then xs[0]
    else
      var prev := Reduce(xs[..|xs| - 1]);
      var current := xs[|xs| - 1];
      if Len(prev) > Len(current) then prev else current
  }

  /** The page's result: the reduce over the error-free checks, or nothing when there is none. */
  function Longest(checks: seq<SpellCheck>): Option<SpellCheck>
  {
    var errorFree := ErrorFree(checks);
    if |errorFree| > 0 then Some(Reduce(errorFree)) else None
  }

  /** The longest length among the checks, the reference the reduce is measured against. */
  function MaxLen(xs: seq<SpellCheck>): nat
  {
    if xs == [] then 0
    else
      var m := MaxLen(xs[..|xs| - 1]);
      if Len(xs[|xs| - 1]) > m then Len(xs[|xs| - 1]) else m
  }

  lemma {:induction false} ErrorFreeMembers(checks: seq<SpellCheck>, c: SpellCheck)
    ensures c in ErrorFree(checks) <==> c in checks && c.withoutErrors
  {
    if checks != [] {
      ErrorFreeMembers(checks[..|checks| - 1], c);
      assert checks == checks[..|checks| - 1] + [checks[|checks| - 1]];
    }
  }

  lemma {:induction false} ErrorFreeAppend(a: seq<SpellCheck>, b: seq<SpellCheck>)
    ensures ErrorFree(a + b) == ErrorFree(a) + ErrorFree(b)
    decreases |b|
  {
    if b == [] {
      assert a + b == a;
    } else {
      var init := b[..|b| - 1];
      assert (a + b)[..|a + b| - 1] == a + init;
      ErrorFreeAppend(a, init);
    }
  }

  /** `xs[k]` is as long as every check of `xs` and strictly longer than every later one. */
  predicate LastLongestAt(xs: seq<SpellCheck>, k: int)
  {
    && 0 <= k < |xs|
    && (forall j :: 0 <= j < |xs| ==> Len(xs[j]) <= Len(xs[k]))
    && (forall j :: k < j < |xs| ==> Len(xs[j]) < Len(xs[k]))
  }

  /**
   * The reduce keeps the last check of longest length: the result is one of
   * the checks, none is longer, and every later one is strictly shorter.
   */
  lemma {:induction false} ReduceIsLastLongest(xs: seq<SpellCheck>)
    requires xs != []
    ensures exists k :: LastLongestAt(xs, k) && Reduce(xs) == xs[k]
  {
    if |xs| == 1 {
      assert LastLongestAt(xs, 0);
    } else {
      var init, current := xs[..|xs| - 1], xs[|xs| - 1];
      ReduceIsLastLongest(init);
      var k :| LastLongestAt(init, k) && Reduce(init) == init[k];
      if Len(Reduce(init)) > Len(current) {
        StepKeepsPrev(xs, k);
      } else {
        StepTakesCurrent(xs, k);
      }
    }
  }

  lemma StepKeepsPrev(xs: seq<SpellCheck>, k: int)
    requires |xs| > 1 && LastLongestAt(xs[..|xs| - 1], k) && Len(xs[k]) > Len(xs[|xs| - 1])
    ensures LastLongestAt(xs, k)
  {
  }

  lemma StepTakesCurrent(xs: seq<SpellCheck>, k: int)
    requires |xs| > 1 && LastLongestAt(xs[..|xs| - 1], k) && Len(xs[k]) <= Len(xs[|xs| - 1])
    ensures LastLongestAt(xs, |xs| - 1)
  {
  }

  /** The length of the reduce is the longest length. */
  lemma {:induction false} ReduceHasMaxLen(xs: seq<SpellCheck>)
    requires xs != []
    ensures Len(Reduce(xs)) == MaxLen(xs)
  {
    if |xs| == 1 {
      assert xs[..0] == [];
    } else {
      ReduceHasMaxLen(xs[..|xs| - 1]);
      assert xs[..|xs| - 1] != [];
    }
  }

  /** There is no result exactly when no check is error-free. */
  lemma LongestAbsentIff(checks: seq<SpellCheck>)
    ensures Longest(checks).None? <==> forall i :: 0 <= i < |checks| ==> !checks[i].withoutErrors
  {
    var ef := ErrorFree(checks);
    if ef != [] {
      ErrorFreeMembers(checks, ef[0]);
      assert ef[0] in ef;
    } else {
      forall i | 0 <= i < |checks| ensures !checks[i].withoutErrors {
        ErrorFreeMembers(checks, checks[i]);
      }
    }
  }

  /**
   * A result is an error-free check of the input, at least as long as every
   * error-free check, of the longest length, and strictly longer than every
   * error-free check after it: on a tie the later check wins.
   */
  lemma LongestIsLongestErrorFree(checks: seq<SpellCheck>)
    requires Longest(checks).Some?
    ensures var c := Longest(checks).value;
      && c in checks && c.withoutErrors
      && (forall d :: d in checks && d.withoutErrors ==> Len(d) <= Len(c))
      && Len(c) == MaxLen(ErrorFree(checks))
      && exists k :: LastLongestAt(ErrorFree(checks), k) && c == ErrorFree(checks)[k]
  {
    var ef := ErrorFree(checks);
    ReduceIsLastLongest(ef);
    ReduceHasMaxLen(ef);
    var c := Reduce(ef);
    ErrorFreeMembers(checks, c);
    forall d | d in checks && d.withoutErrors ensures Len(d) <= Len(c) {
      ErrorFreeMembers(checks, d);
      var j :| 0 <= j < |ef| && ef[j] == d;
    }
  }

  /** A check with errors, wherever it sits, does not change the result. */
  lemma ErroneousCheckIgnored(a: seq<SpellCheck>, c: SpellCheck, b: seq<SpellCheck>)
    requires !c.withoutErrors
    ensures Longest(a + [c] + b) == Longest(a + b)
  {
    ErrorFreeAppend(a + [c], b);
    ErrorFreeAppend(a, [c]);
    ErrorFreeAppend(a, b);
    assert [c][..0] == [];
    assert ErrorFree([c]) == [];
    assert ErrorFree(a + [c]) == ErrorFree(a);
  }

  /** What `getAllChecks` gave: the checks, or an error whose `message` may be missing or empty. */
  datatype Fetch = Fetched(checks: seq<SpellCheck>) | FetchFailed(message: Option<string>)

  datatype PageState = PageState(longest: Option<SpellCheck>, error: Option<string>)

  const ErrorPrefix: string := "Failed to load longest error-free check: "

  /** `fetchLongestErrorFreeCheck`: the longest check on success, the prefixed message on failure. */
  function FetchLongest(f: Fetch): (s: PageState)
    ensures s.error.Some? <==> f.FetchFailed?
    ensures f.Fetched? ==> s.longest == Longest(f.checks)
    ensures f.FetchFailed? ==> s.longest.None?
    ensures f.FetchFailed? ==> |s.error.value| > |ErrorPrefix| && s.error.value[..|ErrorPrefix|] == ErrorPrefix
    ensures f.FetchFailed? ==> s.error.value[|ErrorPrefix|..] == OrElse(f.message, "Unknown error")
  {
    match f
    case Fetched(checks) => PageState(Longest(checks), None)
    case FetchFailed(message) => PageState(None, Some(ErrorPrefix + OrElse(message, "Unknown error")))
  }
}
