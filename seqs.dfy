/** Linear search over sequences, shared by the date parser, the phone list and the book's key order. */
module Seqs {
  import opened Outcomes

  /** The index of the first occurrence of `x` in `s`, or `None` when `x` does not occur. */
  function IndexOf<T(==)>(s: seq<T>, x: T): (r: Option<nat>)
    ensures r.Some? ==> r.value < |s| && s[r.value] == x
    ensures r.Some? ==> forall j :: 0 <= j < r.value ==> s[j] != x
    ensures r.None? <==> x !in s
  {
    if |s| == 0 then None
    else if s[0] == x then Some(0)
    else match IndexOf(s[1..], x)
      case None => None
      case Some(i) => Some(i + 1)
  }

  /** The first occurrence is the only index that satisfies IndexOf's contract. */
  lemma IndexOfAt<T>(s: seq<T>, x: T, k: nat)
    requires k < |s| && s[k] == x
    requires forall j :: 0 <= j < k ==> s[j] != x
    ensures IndexOf(s, x) == Some(k)
  {
  }

  /**
   * Runs `step` over `s` in order, keeping the values it produces; the first
   * failure ends the run and is the result.
   */
  function Collect<T, U, E>(s: seq<T>, step: T -> Result<Option<U>, E>): Result<seq<U>, E> {
    if s == [] then Ok([])
    else match step(s[0])
      case Err(e) => Err(e)
      case Ok(u) =>
        match Collect(s[1..], step)
        case Err(e) => Err(e)
        case Ok(rest) => Ok((if u.Some? then [u.value] else []) + rest)
  }

  /** Over a single element the run is that element's step. */
  lemma CollectSingle<T, U, E>(x: T, step: T -> Result<Option<U>, E>)
    ensures Collect([x], step) ==
      match step(x)
      case Err(e) => Err(e)
      case Ok(u) => Ok(if u.Some? then [u.value] else [])
  {
    assert [x][0] == x && [x][1..] == [];
    if step(x).Ok? {
      var u := step(x).value;
      assert (if u.Some? then [u.value] else []) + [] == (if u.Some? then [u.value] else []);
    }
  }

  /** Element `i` of `s` produces `u`. */
  ghost predicate Produces<T, U, E>(s: seq<T>, step: T -> Result<Option<U>, E>, i: int, u: U) {
    0 <= i < |s| && step(s[i]) == Ok(Some(u))
  }

  /** Element `i` of `s` fails. */
  ghost predicate FailsAt<T, U, E>(s: seq<T>, step: T -> Result<Option<U>, E>, i: int) {
    0 <= i < |s| && step(s[i]).Err?
  }

  /** A run fails exactly when one of the elements fails. */
  lemma {:induction false} CollectFails<T, U, E>(s: seq<T>, step: T -> Result<Option<U>, E>)
    ensures Collect(s, step).Err? <==> exists i :: FailsAt(s, step, i)
  {
    if s != [] {
      var tail := s[1..];
      CollectFails(tail, step);
      assert Collect(s, step).Err? <==> step(s[0]).Err? || Collect(tail, step).Err?;
      if step(s[0]).Err? {
        assert FailsAt(s, step, 0);
      }
      if exists i :: FailsAt(tail, step, i) {
        var i :| FailsAt(tail, step, i);
        assert s[i + 1] == tail[i];
        assert FailsAt(s, step, i + 1);
      }
      if exists i :: FailsAt(s, step, i) {
        var i :| FailsAt(s, step, i);
        if i > 0 {
          assert tail[i - 1] == s[i];
          assert FailsAt(tail, step, i - 1);
        }
      }
    }
  }

  /** A successful run keeps exactly the values its elements produce. */
  lemma {:induction false} CollectExact<T, U, E>(s: seq<T>, step: T -> Result<Option<U>, E>)
    requires Collect(s, step).Ok?
    ensures forall u :: u in Collect(s, step).value <==> exists i :: Produces(s, step, i, u)
  {
    if s != [] {
      var tail := s[1..];
      CollectExact(tail, step);
      var r := Collect(s, step).value;
      var rest := Collect(tail, step).value;
      var head := step(s[0]).value;
      assert r == (if head.Some? then [head.value] else []) + rest;
      forall u
        ensures u in r <==> exists i :: Produces(s, step, i, u)
      {
        if head == Some(u) {
          assert Produces(s, step, 0, u);
        }
        if u in rest {
          var i :| Produces(tail, step, i, u);
          assert s[i + 1] == tail[i];
          assert Produces(s, step, i + 1, u);
        }
        if exists i :: Produces(s, step, i, u) {
          var i :| Produces(s, step, i, u);
          if i > 0 {
            assert tail[i - 1] == s[i];
            assert Produces(tail, step, i - 1, u);
          }
        }
      }
    }
  }

  /** Each value of `r` comes from an element of `s`, and earlier values from earlier elements. */
  ghost predicate InOrder<T, U, E>(s: seq<T>, step: T -> Result<Option<U>, E>, r: seq<U>) {
    forall a, b :: 0 <= a < b < |r| ==> ComeInOrder(s, step, r[a], r[b])
  }

  /** Some element of `s` produces `u` and a later one produces `v`. */
  ghost predicate ComeInOrder<T, U, E>(s: seq<T>, step: T -> Result<Option<U>, E>, u: U, v: U) {
    exists i, j :: 0 <= i < j && Produces(s, step, i, u) && Produces(s, step, j, v)
  }

  /** A successful run keeps the order of the elements: an earlier value comes from an earlier element. */
  lemma {:induction false} CollectOrdered<T, U, E>(s: seq<T>, step: T -> Result<Option<U>, E>)
    requires Collect(s, step).Ok?
    ensures InOrder(s, step, Collect(s, step).value)
  {
    if s != [] {
      var tail := s[1..];
      CollectOrdered(tail, step);
      CollectExact(tail, step);
      var r := Collect(s, step).value;
      var rest := Collect(tail, step).value;
      var head := step(s[0]).value;
      var pre := if head.Some? then 1 else 0;
      assert r == (if head.Some? then [head.value] else []) + rest;
      forall a, b | 0 <= a < b < |r|
        ensures ComeInOrder(s, step, r[a], r[b])
      {
        assert r[b] == rest[b - pre];
        if a < pre {
          assert rest[b - pre] in rest;
          var j :| Produces(tail, step, j, rest[b - pre]);
          assert s[j + 1] == tail[j];
          assert Produces(s, step, 0, r[a]) && Produces(s, step, j + 1, r[b]);
        } else {
          assert r[a] == rest[a - pre];
          assert ComeInOrder(tail, step, rest[a - pre], rest[b - pre]);
          var i, j :| 0 <= i < j && Produces(tail, step, i, rest[a - pre]) && Produces(tail, step, j, rest[b - pre]);
          assert s[i + 1] == tail[i] && s[j + 1] == tail[j];
          assert Produces(s, step, i + 1, r[a]) && Produces(s, step, j + 1, r[b]);
        }
      }
    }
  }
}
