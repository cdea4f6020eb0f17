/** `main` with its workers: look the scorer up, run every worker's
    generator and filter, merge their forwarded streams in the order given
    by a schedule, and run the global filter over the merged stream. */
module Search {
  import opened Types
  import Scorers
  import Filters
  import Generate
  import FanIn

  /** How a run ends: rejected for an unknown scorer name before any
      worker starts, or with the lines printed and the global best. */
  datatype Outcome =
    | InvalidScoreFunction(name: string)
    | Reports(printed: seq<Result>, best: Option<Result>)

  /** The stream each worker's generator produces from its keys. */
  function WorkerInputs(derive: PrivateKey -> Address, create: (Address, nat) -> Address,
                        contracts: bool, maxNonce: int, keys: seq<seq<PrivateKey>>): (gs: seq<seq<Result>>)
    ensures |gs| == |keys|
    ensures forall i :: 0 <= i < |keys| ==> gs[i] == Generate.Candidates(derive, create, contracts, maxNonce, keys[i])
  {
    seq(|keys|, i requires 0 <= i < |keys| => Generate.Candidates(derive, create, contracts, maxNonce, keys[i]))
  }

  /** A run with |keys| workers, worker i generating from keys[i]. */
  method RunSearch(name: string, derive: PrivateKey -> Address, create: (Address, nat) -> Address,
                   contracts: bool, maxNonce: int, keys: seq<seq<PrivateKey>>, schedule: seq<nat>)
    returns (o: Outcome)
    ensures o.InvalidScoreFunction? <==> Scorers.LookupScorer(name).None?
    ensures o.InvalidScoreFunction? ==> o.name == name
    ensures o.Reports? ==>
      var score := Scorers.LookupScorer(name).value;
      var m := FanIn.Merge(FanIn.ForwardedAll(score, WorkerInputs(derive, create, contracts, maxNonce, keys)), schedule);
      o.printed == Filters.Printed(score, m) && o.best == Filters.Best(score, m)
    ensures o.Reports? ==>
      var gs := WorkerInputs(derive, create, contracts, maxNonce, keys);
      (o.best.Some? <==> exists i :: 0 <= i < |gs| && gs[i] != []) &&
      (o.best.Some? ==> exists i :: 0 <= i < |gs| && o.best.value in gs[i]) &&
      (o.best.Some? ==> forall i, r :: 0 <= i < |gs| && r in gs[i] ==>
         Filters.Improves(Scorers.LookupScorer(name).value, o.best.value, r))
  {
    var found := Scorers.LookupScorer(name);
    if found.None? {
      return InvalidScoreFunction(name);
    }
    var score := found.value;
    ghost var gs := WorkerInputs(derive, create, contracts, maxNonce, keys);
    var forwarded: seq<seq<Result>> := [];
    var w := 0;
    while w < |keys|
      invariant 0 <= w <= |keys|
      invariant |forwarded| == w
      invariant forall i :: 0 <= i < w ==> forwarded[i] == Filters.Forwarded(score, gs[i])
    {
      var addresses := Generate.GenerateAddresses(derive, create, contracts, maxNonce, keys[w]);
      var sent, _ := Filters.WorkerFilter(score, addresses);
      forwarded := forwarded + [sent];
      w := w + 1;
    }
    assert forwarded == FanIn.ForwardedAll(score, gs);
    var received := FanIn.Merge(forwarded, schedule);
    var printed, best := Filters.GlobalFilter(score, received);
    o := Reports(printed, best);
    Scorers.LookupAcceptsExactlyFour(name);
    FanIn.MergeIsInterleaving(forwarded, schedule);
    FanIn.GlobalBestIsMaximum(score, gs, received);
  }
}
