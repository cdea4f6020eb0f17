/** Byte-string comparison with the semantics of Go's bytes.Compare, which
    the lexicographic scorers are built on. */
module Bytes {

  /** -1, 0 or +1 as a is lexicographically less than, equal to or greater
      than b; a proper prefix is less than the longer string. */
  function Compare(a: seq<bv8>, b: seq<bv8>): (r: int)
    ensures -1 <= r <= 1
  {
    if |a| == 0 && |b| == 0 then 0
    else if |a| == 0 then -1
    else if |b| == 0 then 1
    else if a[0] < b[0] then -1
    else if a[0] > b[0] then 1
    else Compare(a[1..], b[1..])
  }

  /** Position k witnesses that a precedes b: the first k bytes agree, and
      either a ends there while b goes on, or a's byte at k is smaller. */
  ghost predicate DiffersFirstAt(a: seq<bv8>, b: seq<bv8>, k: nat)
  {
    k <= |a| && k <= |b| && a[..k] == b[..k] &&
    ((k == |a| && k < |b|) || (k < |a| && k < |b| && a[k] < b[k]))
  }

  /** Lexicographic order, stated independently of Compare. */
  ghost predicate LexLess(a: seq<bv8>, b: seq<bv8>)
  {
    exists k: nat :: DiffersFirstAt(a, b, k)
  }

  lemma {:induction false} CompareZeroIffEqual(a: seq<bv8>, b: seq<bv8>)
    ensures Compare(a, b) == 0 <==> a == b
  {
    if |a| > 0 && |b| > 0 && a[0] == b[0] {
      CompareZeroIffEqual(a[1..], b[1..]);
      assert a == [a[0]] + a[1..] && b == [b[0]] + b[1..];
    }
  }

  lemma {:induction false} CompareAntisymmetric(a: seq<bv8>, b: seq<bv8>)
    ensures Compare(a, b) == -Compare(b, a)
  {
    if |a| > 0 && |b| > 0 && a[0] == b[0] {
      CompareAntisymmetric(a[1..], b[1..]);
    }
  }

  lemma {:induction false} CompareTransitive(a: seq<bv8>, b: seq<bv8>, c: seq<bv8>)
    requires Compare(a, b) >= 0 && Compare(b, c) >= 0
    ensures Compare(a, c) >= 0
    ensures Compare(a, c) == 0 ==> Compare(a, b) == 0 && Compare(b, c) == 0
  {
    if |a| > 0 && |b| > 0 && |c| > 0 && a[0] == b[0] && b[0] == c[0] {
      CompareTransitive(a[1..], b[1..], c[1..]);
    }
  }

  lemma CompareIsLexOrder(a: seq<bv8>, b: seq<bv8>)
    ensures Compare(a, b) < 0 <==> LexLess(a, b)
  {
    if Compare(a, b) < 0 {
      var k := NegativeCompareWitness(a, b);
    }
    if LexLess(a, b) {
      var k: nat :| DiffersFirstAt(a, b, k);
      WitnessMakesCompareNegative(a, b, k);
    }
  }

  /** A negative comparison has a first differing position. */
  lemma {:induction false} NegativeCompareWitness(a: seq<bv8>, b: seq<bv8>) returns (k: nat)
    requires Compare(a, b) < 0
    ensures DiffersFirstAt(a, b, k)
  {
    if |a| == 0 || a[0] < b[0] {
      k := 0;
    } else {
      var k' := NegativeCompareWitness(a[1..], b[1..]);
      k := k' + 1;
      assert a[..k] == [a[0]] + a[1..][..k'];
      assert b[..k] == [b[0]] + b[1..][..k'];
    }
  }

  /** A first differing position makes the comparison negative. */
  lemma {:induction false} WitnessMakesCompareNegative(a: seq<bv8>, b: seq<bv8>, k: nat)
    requires DiffersFirstAt(a, b, k)
    ensures Compare(a, b) < 0
  {
    if k > 0 {
      assert a[0] == a[..k][0] && b[0] == b[..k][0];
      assert a[1..][..k - 1] == a[..k][1..];
      assert b[1..][..k - 1] == b[..k][1..];
      WitnessMakesCompareNegative(a[1..], b[1..], k - 1);
    }
  }

  /** A string of zero bytes is at most any string at least as long. */
  lemma {:induction false} ZerosAreLeast(z: seq<bv8>, b: seq<bv8>)
    requires |z| <= |b|
    requires forall i :: 0 <= i < |z| ==> z[i] == 0
    ensures Compare(z, b) <= 0
  {
    if |z| > 0 {
      ZerosAreLeast(z[1..], b[1..]);
    }
  }

  /** A string of 0xff bytes is at least any string of at most its length. */
  lemma {:induction false} OnesAreGreatest(f: seq<bv8>, b: seq<bv8>)
    requires |b| <= |f|
    requires forall i :: 0 <= i < |f| ==> f[i] == 0xff
    ensures Compare(f, b) >= 0
  {
    if |b| > 0 {
      OnesAreGreatest(f[1..], b[1..]);
    }
  }
}
