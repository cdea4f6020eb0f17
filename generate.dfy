/** The candidate stream of `generateAddresses`, for a finite prefix of the
    keys it generates. Key generation is replaced by the sequence of keys it
    produced; PubkeyToAddress and CreateAddress are parameters, since only
    their types matter here. */
module Generate {
  import opened Types

  /** The results for nonces from, from + 1, ..., maxNonce - 1 of base. */
  function NonceResults(create: (Address, nat) -> Address, base: Address, key: PrivateKey, from: nat, maxNonce: int): seq<Result>
    decreases maxNonce - from
  {
    if from >= maxNonce then []
    else [Result(create(base, from), key, from)] + NonceResults(create, base, key, from + 1, maxNonce)
  }

  /** What one generated key expands into. */
  function KeyResults(derive: PrivateKey -> Address, create: (Address, nat) -> Address,
                      contracts: bool, maxNonce: int, key: PrivateKey): seq<Result>
  {
    if contracts then NonceResults(create, derive(key), key, 0, maxNonce)
    else [Result(derive(key), key, 0)]
  }

  /** The stream for a sequence of generated keys, key by key. */
  function Candidates(derive: PrivateKey -> Address, create: (Address, nat) -> Address,
                      contracts: bool, maxNonce: int, keys: seq<PrivateKey>): seq<Result>
  {
    if keys == [] then []
    else KeyResults(derive, create, contracts, maxNonce, keys[0]) +
         Candidates(derive, create, contracts, maxNonce, keys[1..])
  }

  /** How many results one key yields: maxNonce of them (none when maxNonce
      is not positive) for contracts, one for accounts. */
  function PerKey(contracts: bool, maxNonce: int): nat
  {
    if !contracts then 1 else if maxNonce < 0 then 0 else maxNonce
  }

  /** generateAddresses over the given keys: for each key, either one
      account result or one contract result per nonce. */
  method GenerateAddresses(derive: PrivateKey -> Address, create: (Address, nat) -> Address,
                           contracts: bool, maxNonce: int, keys: seq<PrivateKey>) returns (out: seq<Result>)
    ensures out == Candidates(derive, create, contracts, maxNonce, keys)
  {
    out := [];
    var k := 0;
    while k < |keys|
      invariant 0 <= k <= |keys|
      invariant out == Candidates(derive, create, contracts, maxNonce, keys[..k])
    {
      var privateKey := keys[k];
      var contractAddress := derive(privateKey);
      ghost var before := out;
      if contracts {
        var i := 0;
        while i < maxNonce
          invariant 0 <= i
          invariant maxNonce >= 0 ==> i <= maxNonce
          invariant maxNonce < 0 ==> i == 0
          invariant out == before + NonceResults(create, contractAddress, privateKey, 0, i)
        {
          var address := create(contractAddress, i);
          NonceResultsSnoc(create, contractAddress, privateKey, 0, i);
          out := out + [Result(address, privateKey, i)];
          i := i + 1;
        }
        assert NonceResults(create, contractAddress, privateKey, 0, i) ==
               NonceResults(create, contractAddress, privateKey, 0, maxNonce) by {
          if maxNonce < 0 { NonceResultsShape(create, contractAddress, privateKey, 0, maxNonce); }
        }
      } else {
        out := out + [Result(contractAddress, privateKey, 0)];
      }
      CandidatesSnoc(derive, create, contracts, maxNonce, keys[..k], privateKey);
      assert keys[..k + 1] == keys[..k] + [privateKey];
      k := k + 1;
    }
    assert keys[..k] == keys;
  }

  /** Raising the bound by one appends the result for the old bound. */
  lemma {:induction false} NonceResultsSnoc(create: (Address, nat) -> Address, base: Address, key: PrivateKey, from: nat, n: nat)
    requires from <= n
    ensures NonceResults(create, base, key, from, n + 1) ==
      NonceResults(create, base, key, from, n) + [Result(create(base, n), key, n)]
    decreases n - from
  {
    if from < n {
      NonceResultsSnoc(create, base, key, from + 1, n);
    }
  }

  /** The nonce results are exactly nonces from .. maxNonce - 1, in
      increasing order, with one key. */
  lemma {:induction false} NonceResultsShape(create: (Address, nat) -> Address, base: Address, key: PrivateKey, from: nat, maxNonce: int)
    ensures |NonceResults(create, base, key, from, maxNonce)| == if from >= maxNonce then 0 else maxNonce - from
    ensures forall t :: 0 <= t < |NonceResults(create, base, key, from, maxNonce)| ==>
      NonceResults(create, base, key, from, maxNonce)[t] == Result(create(base, from + t), key, from + t)
    decreases maxNonce - from
  {
    if from < maxNonce {
      NonceResultsShape(create, base, key, from + 1, maxNonce);
    }
  }

  /** One key in contract mode gives exactly maxNonce results with nonces
      0, 1, ..., maxNonce - 1 in order, all with that key; in account mode
      it gives one result, with nonce 0. */
  lemma KeyExpansion(derive: PrivateKey -> Address, create: (Address, nat) -> Address,
                     contracts: bool, maxNonce: int, key: PrivateKey)
    ensures |KeyResults(derive, create, contracts, maxNonce, key)| == PerKey(contracts, maxNonce)
    ensures contracts ==> forall t :: 0 <= t < |KeyResults(derive, create, contracts, maxNonce, key)| ==>
      KeyResults(derive, create, contracts, maxNonce, key)[t] == Result(create(derive(key), t), key, t)
    ensures !contracts ==> KeyResults(derive, create, contracts, maxNonce, key) == [Result(derive(key), key, 0)]
  {
    NonceResultsShape(create, derive(key), key, 0, maxNonce);
  }

  lemma {:induction false} CandidatesSnoc(derive: PrivateKey -> Address, create: (Address, nat) -> Address,
                                          contracts: bool, maxNonce: int, keys: seq<PrivateKey>, key: PrivateKey)
    ensures Candidates(derive, create, contracts, maxNonce, keys + [key]) ==
      Candidates(derive, create, contracts, maxNonce, keys) + KeyResults(derive, create, contracts, maxNonce, key)
  {
    if keys != [] {
      assert (keys + [key])[1..] == keys[1..] + [key];
      CandidatesSnoc(derive, create, contracts, maxNonce, keys[1..], key);
    } else {
      assert [key][1..] == [];
    }
  }

  /** The stream of a concatenation of key sequences is the concatenation
      of their streams. */
  lemma {:induction false} CandidatesAppend(derive: PrivateKey -> Address, create: (Address, nat) -> Address,
                                            contracts: bool, maxNonce: int, xs: seq<PrivateKey>, ys: seq<PrivateKey>)
    ensures Candidates(derive, create, contracts, maxNonce, xs + ys) ==
      Candidates(derive, create, contracts, maxNonce, xs) + Candidates(derive, create, contracts, maxNonce, ys)
  {
    if xs == [] {
      assert xs + ys == ys;
    } else {
      assert (xs + ys)[0] == xs[0];
      assert (xs + ys)[1..] == xs[1..] + ys;
      CandidatesAppend(derive, create, contracts, maxNonce, xs[1..], ys);
    }
  }

  /** The stream is key after key, each key's results in one block: result
      t of key k sits at position k * PerKey + t. */
  lemma CandidatesLayout(derive: PrivateKey -> Address, create: (Address, nat) -> Address,
                         contracts: bool, maxNonce: int, keys: seq<PrivateKey>, k: nat, t: nat)
    requires k < |keys| && t < PerKey(contracts, maxNonce)
    ensures |KeyResults(derive, create, contracts, maxNonce, keys[k])| == PerKey(contracts, maxNonce)
    ensures |Candidates(derive, create, contracts, maxNonce, keys)| == |keys| * PerKey(contracts, maxNonce)
    ensures k * PerKey(contracts, maxNonce) + t < |Candidates(derive, create, contracts, maxNonce, keys)|
    ensures Candidates(derive, create, contracts, maxNonce, keys)[k * PerKey(contracts, maxNonce) + t] ==
      KeyResults(derive, create, contracts, maxNonce, keys[k])[t]
  {
    var before, after := keys[..k], keys[k + 1..];
    var pre := Candidates(derive, create, contracts, maxNonce, before);
    var block := KeyResults(derive, create, contracts, maxNonce, keys[k]);
    var post := Candidates(derive, create, contracts, maxNonce, after);
    assert keys == before + ([keys[k]] + after);
    CandidatesAppend(derive, create, contracts, maxNonce, before, [keys[k]] + after);
    CandidatesAppend(derive, create, contracts, maxNonce, [keys[k]], after);
    assert [keys[k]][1..] == [];
    assert Candidates(derive, create, contracts, maxNonce, [keys[k]]) == block;
    assert Candidates(derive, create, contracts, maxNonce, keys) == pre + (block + post);
    KeyExpansion(derive, create, contracts, maxNonce, keys[k]);
    CandidatesLength(derive, create, contracts, maxNonce, before);
    CandidatesLength(derive, create, contracts, maxNonce, keys);
    assert (pre + (block + post))[|pre| + t] == block[t];
  }

  lemma {:induction false} CandidatesLength(derive: PrivateKey -> Address, create: (Address, nat) -> Address,
                                            contracts: bool, maxNonce: int, keys: seq<PrivateKey>)
    ensures |Candidates(derive, create, contracts, maxNonce, keys)| == |keys| * PerKey(contracts, maxNonce)
  {
    if keys != [] {
      KeyExpansion(derive, create, contracts, maxNonce, keys[0]);
      CandidatesLength(derive, create, contracts, maxNonce, keys[1..]);
      assert |keys| * PerKey(contracts, maxNonce) ==
             PerKey(contracts, maxNonce) + (|keys| - 1) * PerKey(contracts, maxNonce);
    }
  }
}
