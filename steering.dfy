/** The blocked-by queries of the steering commands: from the tracker's list of
    blocked issues, the ones that wait on a given issue. */
module Steering {
  import opened Wrappers

  /** An issue record as the tracker reports it; `blockedBy` is `None` when
      the record has no `blocked_by` field. */
  datatype Issue = Issue(id: string, title: string, status: string, blockedBy: Option<seq<string>>)

  /** The ids an issue waits on; a missing field reads as no blockers. */
  function Blockers(issue: Issue): seq<string> {
    if issue.blockedBy.Some? then issue.blockedBy.value else []
  }

  predicate BlockedBy(issue: Issue, blockingId: string) {
    blockingId in Blockers(issue)
  }

  /** The issues of `issues` whose blockers include `blockingId`, in order. */
  function IssuesBlockedBy(issues: seq<Issue>, blockingId: string): (r: seq<Issue>)
    ensures |r| <= |issues|
    ensures forall k | 0 <= k < |r| :: BlockedBy(r[k], blockingId)
  {
    if issues == [] then []
    else
      (if BlockedBy(issues[0], blockingId) then [issues[0]] else [])
      + IssuesBlockedBy(issues[1..], blockingId)
  }

  /** `sub` keeps some of the elements of `s`, in their order. */
  predicate IsSubsequence<T(==)>(sub: seq<T>, s: seq<T>)
    decreases |s|
  {
    if sub == [] then true
    else if s == [] then false
    else if sub[0] == s[0] then IsSubsequence(sub[1..], s[1..])
    else IsSubsequence(sub, s[1..])
  }

  /** Putting an element in front keeps a subsequence one. */
  lemma {:induction false} IsSubsequenceCons<T>(x: T, sub: seq<T>, s: seq<T>)
    requires IsSubsequence(sub, s)
    ensures IsSubsequence(sub, [x] + s)
    decreases |s|, 1
  {
    assert ([x] + s)[1..] == s;
    if sub != [] && sub[0] == x {
      IsSubsequenceTail(sub, s);
    }
  }

  /** Dropping the first element keeps a subsequence one. */
  lemma {:induction false} IsSubsequenceTail<T>(sub: seq<T>, s: seq<T>)
    requires sub != [] && IsSubsequence(sub, s)
    ensures IsSubsequence(sub[1..], s)
    decreases |s|, 0
  {
    assert [s[0]] + s[1..] == s;
    if sub[0] == s[0] {
      IsSubsequenceCons(s[0], sub[1..], s[1..]);
    } else {
      IsSubsequenceTail(sub, s[1..]);
      IsSubsequenceCons(s[0], sub[1..], s[1..]);
    }
  }

  /** The answer keeps the tracker's order: it is a subsequence of the list. */
  lemma {:induction false} IssuesBlockedByOrdered(issues: seq<Issue>, blockingId: string)
    ensures IsSubsequence(IssuesBlockedBy(issues, blockingId), issues)
    decreases |issues|
  {
    if issues != [] {
      var i0, tl := issues[0], issues[1..];
      var rest := IssuesBlockedBy(tl, blockingId);
      IssuesBlockedByOrdered(tl, blockingId);
      assert issues == [i0] + tl;
      if BlockedBy(i0, blockingId) {
        assert IssuesBlockedBy(issues, blockingId) == [i0] + rest;
        IsSubsequenceConsBoth(i0, rest, tl);
      } else {
        assert IssuesBlockedBy(issues, blockingId) == [] + rest == rest;
        IsSubsequenceCons(i0, rest, tl);
      }
    }
  }

  /** Putting the same element in front of both keeps a subsequence one. */
  lemma IsSubsequenceConsBoth<T>(x: T, sub: seq<T>, s: seq<T>)
    requires IsSubsequence(sub, s)
    ensures IsSubsequence([x] + sub, [x] + s)
  {
    assert ([x] + sub)[1..] == sub && ([x] + s)[1..] == s;
  }

  /** No blocked issue is lost and none is made up: each issue occurs in the
      answer as often as in the list when it waits on `blockingId`, and not at
      all otherwise. */
  lemma {:induction false} IssuesBlockedByCounts(issues: seq<Issue>, blockingId: string, x: Issue)
    ensures multiset(IssuesBlockedBy(issues, blockingId))[x]
      == if BlockedBy(x, blockingId) then multiset(issues)[x] else 0
    decreases |issues|
  {
    if issues != [] {
      var i0, tl := issues[0], issues[1..];
      var rest := IssuesBlockedBy(tl, blockingId);
      IssuesBlockedByCounts(tl, blockingId, x);
      assert issues == [i0] + tl;
      MultisetCons(i0, tl, x);
      if BlockedBy(i0, blockingId) {
        assert IssuesBlockedBy(issues, blockingId) == [i0] + rest;
        MultisetCons(i0, rest, x);
      } else {
        assert IssuesBlockedBy(issues, blockingId) == [] + rest == rest;
      }
    }
  }

  lemma MultisetCons<T>(y: T, s: seq<T>, x: T)
    ensures multiset([y] + s)[x] == (if y == x then 1 else 0) + multiset(s)[x]
  {
  }

  /** Membership in both directions. */
  lemma IssuesBlockedByMembership(issues: seq<Issue>, blockingId: string, x: Issue)
    ensures x in IssuesBlockedBy(issues, blockingId) <==> x in issues && BlockedBy(x, blockingId)
  {
    IssuesBlockedByCounts(issues, blockingId, x);
  }

  /** The query splits over a concatenated list. */
  lemma {:induction false} IssuesBlockedByAppend(a: seq<Issue>, b: seq<Issue>, blockingId: string)
    ensures IssuesBlockedBy(a + b, blockingId) == IssuesBlockedBy(a, blockingId) + IssuesBlockedBy(b, blockingId)
    decreases |a|
  {
    if a == [] {
      assert a + b == b;
    } else {
      assert (a + b)[0] == a[0] && (a + b)[1..] == a[1..] + b;
      IssuesBlockedByAppend(a[1..], b, blockingId);
      var h := if BlockedBy(a[0], blockingId) then [a[0]] else [];
      assert h + (IssuesBlockedBy(a[1..], blockingId) + IssuesBlockedBy(b, blockingId))
          == h + IssuesBlockedBy(a[1..], blockingId) + IssuesBlockedBy(b, blockingId);
    }
  }

  /** Issues without a `blocked_by` field are never in the answer. */
  lemma IssuesWithoutFieldExcluded(issues: seq<Issue>, blockingId: string, x: Issue)
    requires x.blockedBy.None?
    ensures x !in IssuesBlockedBy(issues, blockingId)
  {
    IssuesBlockedByMembership(issues, blockingId, x);
  }
}
