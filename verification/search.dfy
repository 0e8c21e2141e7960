/**
 Substring search with the meaning of `std::string::find` and of the delimiter
 search inside `async_read_until`: the index of the FIRST occurrence of a pattern.
 */
module Search {

  import opened Wrappers

  /** `pat` occurs in `s` starting at index `i`. */
  predicate OccursAt(s: seq<char>, pat: seq<char>, i: nat) {
    i + |pat| <= |s| && s[i..i + |pat|] == pat
  }

  /** `pat` occurs somewhere in `s`. */
  ghost predicate Contains(s: seq<char>, pat: seq<char>) {
    exists i: nat :: OccursAt(s, pat, i)
  }

  /** `i` is the first index of `s` at which `pat` occurs. */
  ghost predicate IsFirst(s: seq<char>, pat: seq<char>, i: nat) {
    OccursAt(s, pat, i) && forall j: nat :: j < i ==> !OccursAt(s, pat, j)
  }

  /** The first occurrence of `pat` in `s` at or after index `from`, scanning forward. */
  function FindFrom(s: seq<char>, pat: seq<char>, from: nat): (r: Option<nat>)
    ensures r.Some? ==> from <= r.value && r.value + |pat| <= |s|
    decreases |s| - from
  {
    if from + |pat| > |s| then None
    else if s[from..from + |pat|] == pat then Some(from)
    else FindFrom(s, pat, from + 1)
  }

  /** The forward scan reports the first occurrence at or after `from`, or that there is none. */
  lemma {:induction false} FindFromSpec(s: seq<char>, pat: seq<char>, from: nat)
    ensures var r := FindFrom(s, pat, from);
      && (r.Some? ==> from <= r.value && OccursAt(s, pat, r.value))
      && (r.Some? ==> forall j: nat :: from <= j < r.value ==> !OccursAt(s, pat, j))
      && (r.None? ==> forall j: nat :: from <= j ==> !OccursAt(s, pat, j))
    decreases |s| - from
  {
    if from + |pat| <= |s| && s[from..from + |pat|] != pat {
      FindFromSpec(s, pat, from + 1);
    }
  }

  /** The first occurrence of `pat` in `s`, as `std::string::find` returns it. */
  function Find(s: seq<char>, pat: seq<char>): (r: Option<nat>)
    ensures r.Some? ==> r.value + |pat| <= |s|
  {
    FindFrom(s, pat, 0)
  }

  /** `Find` succeeds exactly when the pattern occurs, and then at its first occurrence. */
  lemma FindSpec(s: seq<char>, pat: seq<char>)
    ensures Find(s, pat).Some? <==> Contains(s, pat)
    ensures Find(s, pat).Some? ==> IsFirst(s, pat, Find(s, pat).value)
  {
    FindFromSpec(s, pat, 0);
  }

  /** There is at most one first occurrence, and `Find` reports it. */
  lemma FirstIsFound(s: seq<char>, pat: seq<char>, i: nat)
    requires IsFirst(s, pat, i)
    ensures Find(s, pat) == Some(i)
  {
    FindSpec(s, pat);
  }

  /** An occurrence that ends inside the prefix `a` of `a + b` is an occurrence in `a`. */
  lemma OccursInPrefix(a: seq<char>, b: seq<char>, pat: seq<char>, i: nat)
    requires i + |pat| <= |a|
    ensures OccursAt(a + b, pat, i) <==> OccursAt(a, pat, i)
  {
    assert (a + b)[i..i + |pat|] == a[i..i + |pat|];
  }

  /**
   The index where the delimiter search may resume after the buffer `prev`
   was found not to contain `pat`: a match that is split across the old and
   the new bytes can start no earlier than `|prev| - |pat| + 1`.
   */
  function ResumeIndex(prev: seq<char>, pat: seq<char>): nat {
    if |prev| + 1 <= |pat| then 0 else |prev| + 1 - |pat|
  }

  /**
   Appending bytes to a buffer without the delimiter and searching again only
   from `ResumeIndex` finds the same first occurrence as searching the whole
   accumulated buffer, so a delimiter split across two reads is found.
   */
  lemma {:induction false} ResumedSearchFindsFirst(prev: seq<char>, more: seq<char>, pat: seq<char>)
    requires !Contains(prev, pat)
    ensures FindFrom(prev + more, pat, ResumeIndex(prev, pat)) == Find(prev + more, pat)
  {
    var s := prev + more;
    var k := ResumeIndex(prev, pat);
    forall j: nat | j < k
      ensures !OccursAt(s, pat, j)
    {
      OccursInPrefix(prev, more, pat, j);
      assert !OccursAt(prev, pat, j);
    }
    var r := FindFrom(s, pat, k);
    FindFromSpec(s, pat, k);
    FindSpec(s, pat);
    if r.Some? {
      assert IsFirst(s, pat, r.value);
      FirstIsFound(s, pat, r.value);
    } else {
      assert forall j: nat :: !OccursAt(s, pat, j);
    }
  }
}
