/** The best-so-far rule shared by the per-worker filter in `start` and the
    global filter in `main`: a result replaces the current best when
    scoreFunc(next, best) >= 0, so ties count as improvements. Channels are
    finite sequences here: a stream is the prefix received so far. */
module Filters {
  import opened Types
  import Scorers

  /** The replacement rule. */
  predicate Improves(score: Scorer, next: Result, best: Result)
  {
    score(next.address, best.address) >= 0
  }

  /** The best after consuming rest, starting from best. */
  function BestAfter(score: Scorer, best: Result, rest: seq<Result>): Result
    decreases |rest|
  {
    if rest == [] then best
    else if Improves(score, rest[0], best) then BestAfter(score, rest[0], rest[1..])
    else BestAfter(score, best, rest[1..])
  }

  /** The results of rest that replaced the best, in order, starting from
      best. */
  function Kept(score: Scorer, best: Result, rest: seq<Result>): seq<Result>
    decreases |rest|
  {
    if rest == [] then []
    else if Improves(score, rest[0], best) then [rest[0]] + Kept(score, rest[0], rest[1..])
    else Kept(score, best, rest[1..])
  }

  /** The best of a stream: its first result, then replaced by the rule;
      None until something arrives. */
  function Best(score: Scorer, s: seq<Result>): Option<Result>
  {
    if s == [] then None else Some(BestAfter(score, s[0], s[1..]))
  }

  /** What a worker sends on: its first result, then every replacement. */
  function Forwarded(score: Scorer, s: seq<Result>): seq<Result>
  {
    if s == [] then [] else [s[0]] + Kept(score, s[0], s[1..])
  }

  /** What the global filter prints: every replacement, but not the first
      result, which becomes the best silently. */
  function Printed(score: Scorer, s: seq<Result>): seq<Result>
  {
    if s == [] then [] else Kept(score, s[0], s[1..])
  }


  // ---------------------------------------------------------------------
  // The two loops
  // ---------------------------------------------------------------------

  /** The filter loop of `start`: forwards the first result and every
      later one that ties or beats the local best. */
  method WorkerFilter(score: Scorer, addresses: seq<Result>) returns (forwarded: seq<Result>, best: Option<Result>)
    ensures forwarded == Forwarded(score, addresses)
    ensures best == Best(score, addresses)
  {
    if addresses == [] {
      return [], None;
    }
    var b := addresses[0];
    forwarded := [b];
    var i := 1;
    while i < |addresses|
      invariant 1 <= i <= |addresses|
      invariant b == BestAfter(score, addresses[0], addresses[1..i])
      invariant forwarded == [addresses[0]] + Kept(score, addresses[0], addresses[1..i])
    {
      var next := addresses[i];
      KeptSnoc(score, addresses[0], addresses[1..i], next);
      assert addresses[1..i + 1] == addresses[1..i] + [next];
      if score(next.address, b.address) >= 0 {
        b := next;
        forwarded := forwarded + [next];
      }
      i := i + 1;
    }
    assert addresses[1..i] == addresses[1..];
    best := Some(b);
  }

  /** The filter loop of `main`: the first result received becomes the
      best without being printed; every later one that ties or beats the
      best is printed and becomes the best. */
  method GlobalFilter(score: Scorer, results: seq<Result>) returns (printed: seq<Result>, best: Option<Result>)
    ensures printed == Printed(score, results)
    ensures best == Best(score, results)
  {
    if results == [] {
      return [], None;
    }
    var b := results[0];
    printed := [];
    var i := 1;
    while i < |results|
      invariant 1 <= i <= |results|
      invariant b == BestAfter(score, results[0], results[1..i])
      invariant printed == Kept(score, results[0], results[1..i])
    {
      var next := results[i];
      KeptSnoc(score, results[0], results[1..i], next);
      assert results[1..i + 1] == results[1..i] + [next];
      if score(next.address, b.address) >= 0 {
        b := next;
        printed := printed + [next];
      }
      i := i + 1;
    }
    assert results[1..i] == results[1..];
    best := Some(b);
  }

  // ---------------------------------------------------------------------
  // Properties of the rule
  // ---------------------------------------------------------------------

  /** Consuming one more result: it is kept, and becomes the best, exactly
      when it ties or beats the best so far. */
  lemma {:induction false} KeptSnoc(score: Scorer, best: Result, rest: seq<Result>, x: Result)
    ensures Kept(score, best, rest + [x]) ==
      Kept(score, best, rest) + (if Improves(score, x, BestAfter(score, best, rest)) then [x] else [])
    ensures BestAfter(score, best, rest + [x]) ==
      if Improves(score, x, BestAfter(score, best, rest)) then x else BestAfter(score, best, rest)
    decreases |rest|
  {
    if rest == [] {
      assert [x][1..] == [];
    } else {
      assert (rest + [x])[0] == rest[0];
      assert (rest + [x])[1..] == rest[1..] + [x];
      if Improves(score, rest[0], best) {
        KeptSnoc(score, rest[0], rest[1..], x);
      } else {
        KeptSnoc(score, best, rest[1..], x);
      }
    }
  }

  /** The worker forwards its first result, and each later result exactly
      when it ties or beats the local best of the results before it. */
  lemma WorkerForwardsImprovements(score: Scorer, s: seq<Result>, x: Result)
    ensures Forwarded(score, [x]) == [x]
    ensures s != [] ==> (Forwarded(score, s + [x]) ==
      Forwarded(score, s) + (if Improves(score, x, Best(score, s).value) then [x] else []))
    ensures s != [] ==> (Best(score, s + [x]) ==
      if Improves(score, x, Best(score, s).value) then Some(x) else Best(score, s))
  {
    if s != [] {
      assert (s + [x])[0] == s[0];
      assert (s + [x])[1..] == s[1..] + [x];
      KeptSnoc(score, s[0], s[1..], x);
    }
  }

  /** The global filter prints nothing for its first result, and each
      later result exactly when it ties or beats the global best. */
  lemma GlobalPrintsImprovements(score: Scorer, s: seq<Result>, x: Result)
    ensures Printed(score, [x]) == []
    ensures s != [] ==> (Printed(score, s + [x]) ==
      Printed(score, s) + (if Improves(score, x, Best(score, s).value) then [x] else []))
  {
    if s != [] {
      assert (s + [x])[0] == s[0];
      assert (s + [x])[1..] == s[1..] + [x];
      KeptSnoc(score, s[0], s[1..], x);
    }
  }

  /** Kept results never get worse: each ties or beats the starting best
      and every one kept before it. */
  lemma {:induction false} KeptIsNonDecreasing(score: Scorer, best: Result, rest: seq<Result>)
    requires Scorers.IsComparer(score)
    ensures forall i :: 0 <= i < |Kept(score, best, rest)| ==>
      Improves(score, Kept(score, best, rest)[i], best)
    ensures forall i, j :: 0 <= i < j < |Kept(score, best, rest)| ==>
      Improves(score, Kept(score, best, rest)[j], Kept(score, best, rest)[i])
    decreases |rest|
  {
    if rest != [] {
      if Improves(score, rest[0], best) {
        KeptIsNonDecreasing(score, rest[0], rest[1..]);
        var k := Kept(score, best, rest);
        assert k == [rest[0]] + Kept(score, rest[0], rest[1..]);
        forall i | 0 <= i < |k| ensures Improves(score, k[i], best) {
          if i > 0 {
            assert Improves(score, k[i], rest[0]);
          }
        }
      } else {
        KeptIsNonDecreasing(score, best, rest[1..]);
      }
    }
  }

  /** The forwarded sequence of a worker is non-decreasing under the
      scorer. */
  lemma ForwardedIsNonDecreasing(score: Scorer, s: seq<Result>)
    requires Scorers.IsComparer(score)
    ensures forall i, j :: 0 <= i < j < |Forwarded(score, s)| ==>
      Improves(score, Forwarded(score, s)[j], Forwarded(score, s)[i])
  {
    if s != [] {
      var k := Kept(score, s[0], s[1..]);
      KeptIsNonDecreasing(score, s[0], s[1..]);
      var f := Forwarded(score, s);
      assert f == [s[0]] + k;
      forall i, j | 0 <= i < j < |f| ensures Improves(score, f[j], f[i]) {
        assert f[j] == k[j - 1];
        if i > 0 {
          assert f[i] == k[i - 1];
        }
      }
    }
  }

  /** The lines the global filter prints are non-decreasing under the
      scorer. */
  lemma PrintedIsNonDecreasing(score: Scorer, s: seq<Result>)
    requires Scorers.IsComparer(score)
    ensures forall i, j :: 0 <= i < j < |Printed(score, s)| ==>
      Improves(score, Printed(score, s)[j], Printed(score, s)[i])
  {
    if s != [] {
      KeptIsNonDecreasing(score, s[0], s[1..]);
    }
  }

  /** The best is one of the results seen, the last one kept if any, and
      it ties or beats every result seen. */
  lemma {:induction false} BestAfterIsMaximum(score: Scorer, best: Result, rest: seq<Result>)
    requires Scorers.IsComparer(score)
    ensures BestAfter(score, best, rest) == best || BestAfter(score, best, rest) in rest
    ensures var k := Kept(score, best, rest);
      BestAfter(score, best, rest) == if k == [] then best else k[|k| - 1]
    ensures Improves(score, BestAfter(score, best, rest), best)
    ensures forall r :: r in rest ==> Improves(score, BestAfter(score, best, rest), r)
    decreases |rest|
  {
    if rest != [] {
      var b := BestAfter(score, best, rest);
      if Improves(score, rest[0], best) {
        BestAfterIsMaximum(score, rest[0], rest[1..]);
      } else {
        BestAfterIsMaximum(score, best, rest[1..]);
        assert score(best.address, rest[0].address) == -score(rest[0].address, best.address);
      }
      assert rest == [rest[0]] + rest[1..];
    }
  }

  /** After any prefix of a stream, its best is one of its results, it
      ties or beats every one of them, and it is the last one forwarded. */
  lemma BestIsMaximum(score: Scorer, s: seq<Result>)
    requires Scorers.IsComparer(score)
    ensures s != [] <==> Best(score, s).Some?
    ensures s != [] ==> Best(score, s).value in s
    ensures s != [] ==> Best(score, s).value == Forwarded(score, s)[|Forwarded(score, s)| - 1]
    ensures s != [] ==> forall r :: r in s ==> Improves(score, Best(score, s).value, r)
  {
    if s != [] {
      BestAfterIsMaximum(score, s[0], s[1..]);
      assert s == [s[0]] + s[1..];
    }
  }

  /** A worker forwards only results it was given. */
  lemma {:induction false} KeptComeFromInput(score: Scorer, best: Result, rest: seq<Result>)
    ensures forall r :: r in Kept(score, best, rest) ==> r in rest
    decreases |rest|
  {
    if rest != [] {
      if Improves(score, rest[0], best) {
        KeptComeFromInput(score, rest[0], rest[1..]);
      } else {
        KeptComeFromInput(score, best, rest[1..]);
      }
    }
  }

  lemma ForwardedComeFromInput(score: Scorer, s: seq<Result>)
    ensures forall r :: r in Forwarded(score, s) ==> r in s
    ensures forall r :: r in Printed(score, s) ==> r in s
  {
    if s != [] {
      KeptComeFromInput(score, s[0], s[1..]);
      assert s == [s[0]] + s[1..];
    }
  }
}
