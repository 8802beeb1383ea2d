/** One bucket of the abstract cache: a list of at most four keys with their
    values, the most recently set key first. */
module RecentList {
  import opened Bytes

  const CHAINLEN := 4

  datatype Pair = Pair(key: bytes, val: bytes)
  type Bucket = seq<Pair>

  function Find(l: Bucket, k: bytes): Option<bytes> {
    if l == [] then None else if l[0].key == k then Some(l[0].val) else Find(l[1..], k)
  }

  predicate Has(l: Bucket, k: bytes) {
    Find(l, k).Some?
  }

  /** The list without key k. */
  function Drop(l: Bucket, k: bytes): (r: Bucket)
    ensures |r| <= |l|
  {
    if l == [] then [] else (if l[0].key == k then [] else [l[0]]) + Drop(l[1..], k)
  }

  /** Put (k, v) in front, drop the old k, keep four. */
  function Put(l: Bucket, k: bytes, v: bytes): Bucket {
    var r := [Pair(k, v)] + Drop(l, k);
    if |r| > CHAINLEN then r[..CHAINLEN] else r
  }

  /** Give key k another value where it stands. */
  function Replace(l: Bucket, k: bytes, v: bytes): (r: Bucket)
    ensures |r| == |l|
  {
    if l == [] then [] else [if l[0].key == k then Pair(k, v) else l[0]] + Replace(l[1..], k, v)
  }

  predicate DistinctKeys(l: Bucket) {
    forall i, j :: 0 <= i < j < |l| ==> l[i].key != l[j].key
  }

  predicate Proper(l: Bucket) {
    |l| <= CHAINLEN && DistinctKeys(l)
  }

  // ---------- the same functions, by position ----------

  lemma {:induction false} FindAt(l: Bucket, k: bytes, p: nat)
    requires DistinctKeys(l) && p < |l| && l[p].key == k
    ensures Find(l, k) == Some(l[p].val)
  {
    if p > 0 {
      FindAt(l[1..], k, p - 1);
    }
  }

  lemma {:induction false} AbsentKey(l: Bucket, k: bytes)
    requires forall i :: 0 <= i < |l| ==> l[i].key != k
    ensures Find(l, k) == None && Drop(l, k) == l && Replace(l, k, []) == l
  {
    if l != [] {
      AbsentKey(l[1..], k);
    }
  }

  lemma {:induction false} PresentKey(l: Bucket, k: bytes)
    requires Has(l, k)
    ensures exists p :: 0 <= p < |l| && l[p].key == k && l[p].val == Find(l, k).value
  {
    if l[0].key == k {
      assert l[0].val == Find(l, k).value;
    } else {
      PresentKey(l[1..], k);
      var p :| 0 <= p < |l[1..]| && l[1..][p].key == k && l[1..][p].val == Find(l[1..], k).value;
      assert l[p + 1].key == k;
    }
  }

  lemma {:induction false} DropAt(l: Bucket, k: bytes, p: nat)
    requires DistinctKeys(l) && p < |l| && l[p].key == k
    ensures Drop(l, k) == l[..p] + l[p + 1..]
  {
    if p == 0 {
      AbsentKey(l[1..], k);
    } else {
      DropAt(l[1..], k, p - 1);
      assert l[..p] == [l[0]] + l[1..][..p - 1];
    }
  }

  lemma {:induction false} ReplaceAt(l: Bucket, k: bytes, v: bytes, p: nat)
    requires DistinctKeys(l) && p < |l| && l[p].key == k
    ensures Replace(l, k, v) == l[p := Pair(k, v)]
  {
    if p == 0 {
      ReplaceAbsent(l[1..], k, v);
    } else {
      ReplaceAt(l[1..], k, v, p - 1);
      assert l[p := Pair(k, v)] == [l[0]] + l[1..][p - 1 := Pair(k, v)];
    }
  }

  lemma {:induction false} ReplaceAbsent(l: Bucket, k: bytes, v: bytes)
    requires forall i :: 0 <= i < |l| ==> l[i].key != k
    ensures Replace(l, k, v) == l
  {
    if l != [] {
      ReplaceAbsent(l[1..], k, v);
    }
  }

  // ---------- what a change of one key does to each key ----------

  /** The keys listed before k; the whole list when k is not listed. */
  function Ahead(l: Bucket, k: bytes): set<bytes> {
    if l == [] || l[0].key == k then {} else {l[0].key} + Ahead(l[1..], k)
  }

  /** Position of k in the list, or the length of the list. */
  function Pos(l: Bucket, k: bytes): (p: nat)
    ensures p <= |l| && (p < |l| <==> Has(l, k))
  {
    if l == [] || l[0].key == k then 0 else 1 + Pos(l[1..], k)
  }

  lemma {:induction false} AheadAreListed(l: Bucket, k: bytes, x: bytes)
    requires x in Ahead(l, k)
    ensures x != k && exists i :: 0 <= i < |l| && l[i].key == x
  {
    if x == l[0].key {
      assert l[0].key == x;
    } else {
      AheadAreListed(l[1..], k, x);
      var i :| 0 <= i < |l[1..]| && l[1..][i].key == x;
      assert l[i + 1].key == x;
    }
  }

  lemma {:induction false} AheadCounts(l: Bucket, k: bytes)
    requires DistinctKeys(l)
    ensures |Ahead(l, k)| == Pos(l, k)
  {
    if l != [] && l[0].key != k {
      AheadCounts(l[1..], k);
      if l[0].key in Ahead(l[1..], k) {
        AheadAreListed(l[1..], k, l[0].key);
      }
    }
  }

  lemma DropUnfolds(l: Bucket, k: bytes)
    requires l != []
    ensures l[0].key == k ==> Drop(l, k) == Drop(l[1..], k)
    ensures l[0].key != k ==> Drop(l, k) != [] && Drop(l, k)[0] == l[0] && Drop(l, k)[1..] == Drop(l[1..], k)
  {
  }

  lemma {:induction false} DropForgets(l: Bucket, k: bytes)
    ensures Find(Drop(l, k), k) == None
  {
    if l != [] {
      DropForgets(l[1..], k);
      DropUnfolds(l, k);
    }
  }

  lemma {:induction false} DropKeepsOthers(l: Bucket, k: bytes, other: bytes)
    requires k != other
    ensures Find(Drop(l, other), k) == Find(l, k)
    ensures Ahead(Drop(l, other), k) == Ahead(l, k) - {other}
  {
    if l != [] {
      DropKeepsOthers(l[1..], k, other);
      DropUnfolds(l, other);
    }
  }

  lemma {:induction false} ReplaceKeepsOrder(l: Bucket, other: bytes, v: bytes, k: bytes)
    ensures Has(Replace(l, other, v), k) == Has(l, k) && Ahead(Replace(l, other, v), k) == Ahead(l, k)
    ensures Find(Replace(l, other, v), k) ==
            if k == other && Has(l, k) then Some(v) else Find(l, k)
  {
    if l != [] {
      ReplaceKeepsOrder(l[1..], other, v, k);
      assert Replace(l, other, v)[1..] == Replace(l[1..], other, v);
    }
  }

  lemma {:induction false} PrefixFinds(l: Bucket, n: nat, k: bytes)
    requires n <= |l|
    ensures Has(l[..n], k) <==> Pos(l, k) < n && Has(l, k)
    ensures Has(l[..n], k) ==> Find(l[..n], k) == Find(l, k) && Ahead(l[..n], k) == Ahead(l, k)
  {
    if n > 0 && l[0].key != k {
      PrefixFinds(l[1..], n - 1, k);
      assert l[..n][1..] == l[1..][..n - 1];
    }
  }

  lemma {:induction false} DropIsSubsequence(l: Bucket, k: bytes, i: nat)
    requires i < |Drop(l, k)|
    ensures Drop(l, k)[i].key != k && exists j :: i <= j < |l| && l[j] == Drop(l, k)[i]
  {
    if l[0].key == k {
      DropIsSubsequence(l[1..], k, i);
      var j :| i <= j < |l[1..]| && l[1..][j] == Drop(l, k)[i];
      assert l[j + 1] == Drop(l, k)[i];
    } else if i > 0 {
      DropIsSubsequence(l[1..], k, i - 1);
      var j :| i - 1 <= j < |l[1..]| && l[1..][j] == Drop(l, k)[i];
      assert l[j + 1] == Drop(l, k)[i];
    } else {
      assert l[0] == Drop(l, k)[i];
    }
  }

  lemma {:induction false} DropIsProper(l: Bucket, k: bytes)
    requires DistinctKeys(l)
    ensures DistinctKeys(Drop(l, k))
    ensures forall i :: 0 <= i < |Drop(l, k)| ==> Drop(l, k)[i].key != k
  {
    if l != [] {
      DropIsProper(l[1..], k);
      var d := Drop(l[1..], k);
      forall i | 0 <= i < |d| ensures d[i].key != l[0].key {
        DropIsSubsequence(l[1..], k, i);
      }
    }
  }

  lemma PutIsProper(l: Bucket, k: bytes, v: bytes)
    requires Proper(l)
    ensures Proper(Put(l, k, v)) && Find(Put(l, k, v), k) == Some(v) && Ahead(Put(l, k, v), k) == {}
  {
    DropIsProper(l, k);
  }

  lemma {:induction false} ReplaceIsProper(l: Bucket, k: bytes, v: bytes)
    ensures forall i :: 0 <= i < |l| ==> Replace(l, k, v)[i].key == l[i].key
    ensures Proper(l) ==> Proper(Replace(l, k, v))
  {
    if l != [] {
      ReplaceIsProper(l[1..], k, v);
    }
  }

  /** Setting another key moves k back behind it, and out of the list just
      when four keys would then stand before k. */
  lemma PutPushesBack(l: Bucket, k: bytes, other: bytes, v: bytes)
    requires Proper(l) && Has(l, k) && k != other
    ensures var r := Put(l, other, v);
      var ahead := Ahead(l, k) + {other};
      && (Has(r, k) <==> |ahead| < CHAINLEN)
      && (Has(r, k) ==> Ahead(r, k) == ahead && Find(r, k) == Find(l, k))
  {
    var r := [Pair(other, v)] + Drop(l, other);
    DropIsProper(l, other);
    DropKeepsOthers(l, k, other);
    assert r[1..] == Drop(l, other);
    assert Ahead(r, k) == Ahead(l, k) + {other};
    AheadCounts(r, k);
    if |r| > CHAINLEN {
      PrefixFinds(r, CHAINLEN, k);
    }
  }

  /** Setting a key never invents another: a key found afterwards had that
      value before. */
  lemma PutFindsNoMore(l: Bucket, k: bytes, other: bytes, v: bytes)
    requires k != other
    ensures Find(Put(l, other, v), k) == Find(l, k) || Find(Put(l, other, v), k) == None
  {
    var r := [Pair(other, v)] + Drop(l, other);
    assert r[1..] == Drop(l, other);
    DropKeepsOthers(l, k, other);
    if |r| > CHAINLEN {
      PrefixFinds(r, CHAINLEN, k);
    }
  }
}
