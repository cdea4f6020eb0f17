/** The fan-in of the worker streams into the single `results` channel.
    Goroutine scheduling is replaced by an arbitrary interleaving of the
    forwarded streams: each stream's order is kept, nothing is lost or
    duplicated. Merge produces one from a schedule of worker indices, and
    every interleaving comes from some schedule. */
module FanIn {
  import opened Types
  import Scorers
  import Filters

  /** m interleaves the streams ws: it can be split back into them, in
      order, by repeatedly taking the head of one of them. */
  ghost predicate IsInterleaving(ws: seq<seq<Result>>, m: seq<Result>)
    decreases |m|
  {
    if m == [] then forall i :: 0 <= i < |ws| ==> ws[i] == []
    else exists i :: 0 <= i < |ws| && ws[i] != [] && ws[i][0] == m[0] &&
                     IsInterleaving(ws[i := ws[i][1..]], m[1..])
  }

  /** The number of results still to be delivered. */
  function Remaining(ws: seq<seq<Result>>): nat
  {
    if ws == [] then 0 else |ws[0]| + Remaining(ws[1..])
  }

  lemma {:induction false} RemainingZero(ws: seq<seq<Result>>)
    ensures Remaining(ws) == 0 <==> forall i :: 0 <= i < |ws| ==> ws[i] == []
  {
    if ws != [] {
      RemainingZero(ws[1..]);
      assert forall i :: 1 <= i < |ws| ==> ws[i] == ws[1..][i - 1];
    }
  }

  lemma {:induction false} RemainingTake(ws: seq<seq<Result>>, i: nat)
    requires i < |ws| && ws[i] != []
    ensures Remaining(ws[i := ws[i][1..]]) == Remaining(ws) - 1
  {
    if i == 0 {
      assert ws[i := ws[i][1..]][1..] == ws[1..];
    } else {
      assert ws[i := ws[i][1..]][1..] == ws[1..][i - 1 := ws[i][1..]];
      RemainingTake(ws[1..], i - 1);
    }
  }

  /** The lowest-numbered stream that still has a result. */
  function FirstNonEmpty(ws: seq<seq<Result>>): (i: nat)
    requires Remaining(ws) > 0
    ensures i < |ws| && ws[i] != []
  {
    if ws[0] != [] then 0 else 1 + FirstNonEmpty(ws[1..])
  }

  /** The schedule without its first entry. */
  function Tail(schedule: seq<nat>): seq<nat>
  {
    if schedule == [] then [] else schedule[1..]
  }

  /** The stream a schedule delivers from next: the one it names, when
      that one still has a result, otherwise the first that does. */
  function Pick(ws: seq<seq<Result>>, schedule: seq<nat>): (i: nat)
    requires Remaining(ws) > 0
    ensures i < |ws| && ws[i] != []
  {
    if schedule != [] && schedule[0] < |ws| && ws[schedule[0]] != [] then schedule[0]
    else FirstNonEmpty(ws)
  }

  /** Delivering every result of ws in the order the schedule picks. */
  function Merge(ws: seq<seq<Result>>, schedule: seq<nat>): seq<Result>
    decreases Remaining(ws)
  {
    if Remaining(ws) == 0 then []
    else
      var i := Pick(ws, schedule);
      RemainingTake(ws, i);
      [ws[i][0]] + Merge(ws[i := ws[i][1..]], Tail(schedule))
  }

  lemma {:induction false} MergeIsInterleaving(ws: seq<seq<Result>>, schedule: seq<nat>)
    ensures IsInterleaving(ws, Merge(ws, schedule))
    decreases Remaining(ws)
  {
    RemainingZero(ws);
    if Remaining(ws) > 0 {
      var i := Pick(ws, schedule);
      RemainingTake(ws, i);
      MergeIsInterleaving(ws[i := ws[i][1..]], Tail(schedule));
      var m := Merge(ws, schedule);
      assert m[1..] == Merge(ws[i := ws[i][1..]], Tail(schedule));
    }
  }

  /** Every interleaving is the merge of some schedule, so quantifying over
      schedules is quantifying over all interleavings. */
  lemma {:induction false} EveryInterleavingIsAMerge(ws: seq<seq<Result>>, m: seq<Result>)
    requires IsInterleaving(ws, m)
    ensures exists schedule :: Merge(ws, schedule) == m
    decreases |m|
  {
    RemainingZero(ws);
    if m == [] {
      assert Merge(ws, []) == m;
    } else {
      var i :| 0 <= i < |ws| && ws[i] != [] && ws[i][0] == m[0] &&
               IsInterleaving(ws[i := ws[i][1..]], m[1..]);
      EveryInterleavingIsAMerge(ws[i := ws[i][1..]], m[1..]);
      var rest :| Merge(ws[i := ws[i][1..]], rest) == m[1..];
      RemainingTake(ws, i);
      assert Pick(ws, [i] + rest) == i;
      assert Tail([i] + rest) == rest;
      assert Merge(ws, [i] + rest) == m;
    }
  }

  /** An interleaving holds exactly the results of its streams. */
  lemma {:induction false} InterleavingMembers(ws: seq<seq<Result>>, m: seq<Result>, x: Result)
    requires IsInterleaving(ws, m)
    ensures x in m <==> exists i :: 0 <= i < |ws| && x in ws[i]
    decreases |m|
  {
    if m != [] {
      var i :| 0 <= i < |ws| && ws[i] != [] && ws[i][0] == m[0] &&
               IsInterleaving(ws[i := ws[i][1..]], m[1..]);
      var ws' := ws[i := ws[i][1..]];
      InterleavingMembers(ws', m[1..], x);
      assert ws[i] == [ws[i][0]] + ws'[i];
      assert m == [m[0]] + m[1..];
      if x in m && x != m[0] {
        var j :| 0 <= j < |ws'| && x in ws'[j];
        assert x in ws[j];
      }
      if x !in m {
        forall j | 0 <= j < |ws| ensures x !in ws[j] {
          assert x !in ws'[j];
        }
      }
    }
  }

  /** The streams the workers forward, one per worker input. */
  function ForwardedAll(score: Scorer, gs: seq<seq<Result>>): (ws: seq<seq<Result>>)
    ensures |ws| == |gs|
    ensures forall i :: 0 <= i < |gs| ==> ws[i] == Filters.Forwarded(score, gs[i])
  {
    seq(|gs|, i requires 0 <= i < |gs| => Filters.Forwarded(score, gs[i]))
  }

  /** A worker's local best reaches the global filter, and it ties or
      beats everything that worker generated. */
  lemma LocalBestIsDelivered(score: Scorer, gs: seq<seq<Result>>, m: seq<Result>, i: nat)
    requires Scorers.IsComparer(score)
    requires IsInterleaving(ForwardedAll(score, gs), m)
    requires i < |gs| && gs[i] != []
    ensures Filters.Best(score, gs[i]).value in m
    ensures forall r :: r in gs[i] ==> Filters.Improves(score, Filters.Best(score, gs[i]).value, r)
  {
    var ws := ForwardedAll(score, gs);
    var local := Filters.Best(score, gs[i]).value;
    Filters.BestIsMaximum(score, gs[i]);
    assert local in ws[i];
    InterleavingMembers(ws, m, local);
  }

  /** Every result the global filter receives was generated by a worker. */
  lemma ReceivedWasGenerated(score: Scorer, gs: seq<seq<Result>>, m: seq<Result>, x: Result)
    requires IsInterleaving(ForwardedAll(score, gs), m)
    requires x in m
    ensures exists i :: 0 <= i < |gs| && x in gs[i]
  {
    var ws := ForwardedAll(score, gs);
    InterleavingMembers(ws, m, x);
    var j :| 0 <= j < |ws| && x in ws[j];
    Filters.ForwardedComeFromInput(score, gs[j]);
  }

  /** No missed improvement: for whatever order the forwarded results
      arrive in, the global best exists as soon as some worker generated a
      result, is one of the generated results, and ties or beats every
      result that any worker generated. */
  lemma GlobalBestIsMaximum(score: Scorer, gs: seq<seq<Result>>, m: seq<Result>)
    requires Scorers.IsComparer(score)
    requires IsInterleaving(ForwardedAll(score, gs), m)
    ensures Filters.Best(score, m).Some? <==> exists i :: 0 <= i < |gs| && gs[i] != []
    ensures Filters.Best(score, m).Some? ==>
      exists i :: 0 <= i < |gs| && Filters.Best(score, m).value in gs[i]
    ensures Filters.Best(score, m).Some? ==>
      forall i, r :: 0 <= i < |gs| && r in gs[i] ==> Filters.Improves(score, Filters.Best(score, m).value, r)
  {
    Filters.BestIsMaximum(score, m);
    if exists i :: 0 <= i < |gs| && gs[i] != [] {
      var i :| 0 <= i < |gs| && gs[i] != [];
      LocalBestIsDelivered(score, gs, m, i);
    }
    if m != [] {
      var best := Filters.Best(score, m).value;
      ReceivedWasGenerated(score, gs, m, best);
      forall i, r | 0 <= i < |gs| && r in gs[i]
        ensures Filters.Improves(score, best, r)
      {
        LocalBestIsDelivered(score, gs, m, i);
        var local := Filters.Best(score, gs[i]).value;
        assert score(best.address, local.address) >= 0 && score(local.address, r.address) >= 0;
      }
    }
  }
}
