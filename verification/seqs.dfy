/** Sequence operations shared by the repositories and the use cases. */
module Seqs {
  import opened Wrappers

  /** Every element of `s` maps without error under `f`. */
  ghost predicate AllOk<A, B, E>(s: seq<A>, f: A -> Result<B, E>) {
    forall i :: 0 <= i < |s| ==> f(s[i]).Ok?
  }

  /** `t` holds the results of `f` on `s`, position by position. */
  ghost predicate Mapped<A, B, E>(s: seq<A>, t: seq<B>, f: A -> Result<B, E>) {
    |t| == |s| && forall i :: 0 <= i < |s| ==> f(s[i]) == Ok(t[i])
  }

  /** Element `i` is the first whose mapping fails, and it fails with `e`. */
  ghost predicate FirstFailure<A, B, E>(s: seq<A>, i: int, e: E, f: A -> Result<B, E>) {
    0 <= i < |s| && f(s[i]) == Err(e) && forall k :: 0 <= k < i ==> f(s[k]).Ok?
  }

  /** `s.map(f)` where `f` may throw: all results in order, or the first
      error, which abandons the rest. */
  function {:induction false} MapAll<A, B, E>(s: seq<A>, f: A -> Result<B, E>): (r: Result<seq<B>, E>)
    ensures r.Ok? <==> AllOk(s, f)
    ensures r.Ok? ==> Mapped(s, r.value, f)
    ensures r.Err? ==> exists i :: FirstFailure(s, i, r.error, f)
    decreases |s|
  {
    if s == [] then Ok([])
    else if f(s[0]).Err? then
      assert FirstFailure(s, 0, f(s[0]).error, f);
      Err(f(s[0]).error)
    else
      var tail := MapAll(s[1..], f);
      if tail.Err? then
        MapAllTailError(s, f, tail.error);
        Err(tail.error)
      else
        MapAllCons(s, f(s[0]).value, tail.value, f);
        Ok([f(s[0]).value] + tail.value)
  }

  lemma MapAllCons<A, B, E>(s: seq<A>, head: B, tail: seq<B>, f: A -> Result<B, E>)
    requires |s| > 0 && f(s[0]) == Ok(head) && Mapped(s[1..], tail, f)
    ensures AllOk(s, f) && Mapped(s, [head] + tail, f)
  {
    forall i | 1 <= i < |s|
      ensures f(s[i]) == Ok(([head] + tail)[i])
    {
      assert s[i] == s[1..][i - 1];
    }
  }

  lemma MapAllTailError<A, B, E>(s: seq<A>, f: A -> Result<B, E>, e: E)
    requires |s| > 0 && f(s[0]).Ok?
    requires exists i :: FirstFailure(s[1..], i, e, f)
    ensures !AllOk(s, f)
    ensures exists i :: FirstFailure(s, i, e, f)
  {
    var i :| FirstFailure(s[1..], i, e, f);
    assert s[i + 1] == s[1..][i];
    forall k | 0 <= k < i + 1
      ensures f(s[k]).Ok?
    {
      if k > 0 { assert s[k] == s[1..][k - 1]; }
    }
    assert FirstFailure(s, i + 1, e, f);
  }

  /** Every mapping succeeds exactly when it succeeds on every member. */
  lemma AllOkMembers<A, B, E>(s: seq<A>, f: A -> Result<B, E>)
    ensures AllOk(s, f) <==> forall x :: x in s ==> f(x).Ok?
  {
    if forall x :: x in s ==> f(x).Ok? {
      forall i | 0 <= i < |s|
        ensures f(s[i]).Ok?
      {
        assert s[i] in s;
      }
    }
  }

  /** Every element of a mapped sequence has its result somewhere in the
      output. */
  lemma MappedMember<A, B, E>(s: seq<A>, t: seq<B>, f: A -> Result<B, E>, x: A)
    requires Mapped(s, t, f) && x in s
    ensures exists i :: 0 <= i < |t| && f(x) == Ok(t[i])
  {
    var i :| 0 <= i < |s| && s[i] == x;
    assert f(s[i]) == Ok(t[i]);
  }

  /** `s.map(f)` for a total `f`. */
  function {:induction false} Map<A, B>(s: seq<A>, f: A -> B): (r: seq<B>)
    ensures |r| == |s|
    ensures forall i :: 0 <= i < |s| ==> r[i] == f(s[i])
    decreases |s|
  {
    if s == [] then [] else [f(s[0])] + Map(s[1..], f)
  }
}
