/**
 * Frequency counting: the reference meaning of a dictionary built by
 * "increment the key's count, or insert it with count 1" over a sequence of
 * keys, and the sum of such a dictionary's counts.
 */
module Counting {

  /** How many times `k` occurs in `ks`. */
  function Occurrences<K(==)>(ks: seq<K>, k: K): nat
  {
    if ks == [] then 0
    else Occurrences(ks[..|ks| - 1], k) + (if ks[|ks| - 1] == k then 1 else 0)
  }

  /** Counting over two sequences one after the other adds up the two counts. */
  lemma {:induction false} OccurrencesAppend<K>(a: seq<K>, b: seq<K>, k: K)
    ensures Occurrences(a + b, k) == Occurrences(a, k) + Occurrences(b, k)
  {
    if b == [] {
      assert a + b == a;
    } else {
      var front := b[..|b| - 1];
      assert (a + b)[..|a + b| - 1] == a + front;
      OccurrencesAppend(a, front, k);
    }
  }

  /** A one-element sequence counts its element once and nothing else. */
  lemma OccurrencesSingle<K>(x: K, k: K)
    ensures Occurrences([x], k) == if x == k then 1 else 0
  {
    assert [x][..0] == [];
  }

  /** Each key of `ks` mapped to the number of times it occurs. */
  function Tally<K(==)>(ks: seq<K>): map<K, nat>
  {
    map k | k in ks :: Occurrences(ks, k)
  }

  /** The sum of the counts of `m`. */
  ghost function Total<K>(m: map<K, nat>): nat
    decreases |m|
  {
    if m == map[] then 0
    else
      var k :| k in m;
      assert |m - {k}| < |m| by { assert (m - {k}).Keys == m.Keys - {k}; }
      m[k] + Total(m - {k})
  }

  /** A key is counted at least once exactly when it occurs in `ks`. */
  lemma {:induction false} OccurrencesPositive<K>(ks: seq<K>, k: K)
    ensures Occurrences(ks, k) >= 1 <==> k in ks
  {
    if ks != [] {
      var front := ks[..|ks| - 1];
      assert ks == front + [ks[|ks| - 1]];
      OccurrencesPositive(front, k);
    }
  }

  /** The keys of a tally are exactly the keys that occur, each with a count of at least 1. */
  lemma TallyKeys<K>(ks: seq<K>)
    ensures forall k :: k in Tally(ks) <==> k in ks
    ensures forall k :: k in Tally(ks) ==> Tally(ks)[k] == Occurrences(ks, k) >= 1
  {
    forall k | k in ks
      ensures Occurrences(ks, k) >= 1
    {
      OccurrencesPositive(ks, k);
    }
  }

  /** Counting one more key increments its count, or inserts it with count 1. */
  lemma TallySnoc<K>(ks: seq<K>, k: K)
    ensures Tally(ks + [k]) ==
      if k in Tally(ks) then Tally(ks)[k := Tally(ks)[k] + 1] else Tally(ks)[k := 1]
  {
    var ks' := ks + [k];
    assert ks'[..|ks'| - 1] == ks;
    var m := Tally(ks);
    var m' := if k in m then m[k := m[k] + 1] else m[k := 1];
    assert Tally(ks').Keys == m'.Keys;
    forall j | j in m'
      ensures Tally(ks')[j] == m'[j]
    {
      assert Occurrences(ks', j) == Occurrences(ks, j) + (if k == j then 1 else 0);
      OccurrencesPositive(ks, j);
    }
  }

  /** Removing one key from a map takes exactly its count off the sum, whichever key it is. */
  lemma {:induction false} TotalRemove<K>(m: map<K, nat>, k: K)
    requires k in m
    ensures Total(m) == m[k] + Total(m - {k})
    decreases |m|
  {
    var j :| j in m && Total(m) == m[j] + Total(m - {j});
    if j != k {
      var mj := m - {j};
      var mk := m - {k};
      assert |mj| < |m| by { assert mj.Keys == m.Keys - {j}; }
      assert |mk| < |m| by { assert mk.Keys == m.Keys - {k}; }
      TotalRemove(mj, k);
      TotalRemove(mk, j);
      assert mj - {k} == mk - {j};
    }
  }

  /** Changing or adding one count changes the sum by the same amount. */
  lemma TotalUpdate<K>(m: map<K, nat>, k: K, v: nat)
    ensures Total(m[k := v]) == Total(m) + v - (if k in m then m[k] else 0)
  {
    var m' := m[k := v];
    TotalRemove(m', k);
    if k in m {
      TotalRemove(m, k);
      assert m' - {k} == m - {k};
    } else {
      assert m' - {k} == m;
    }
  }

  /** The counts of a tally add up to the number of keys counted. */
  lemma {:induction false} TotalTally<K>(ks: seq<K>)
    ensures Total(Tally(ks)) == |ks|
  {
    if ks != [] {
      var front := ks[..|ks| - 1];
      var k := ks[|ks| - 1];
      assert ks == front + [k];
      TotalTally(front);
      TallySnoc(front, k);
      var m := Tally(front);
      if k in m {
        TotalUpdate(m, k, m[k] + 1);
      } else {
        TotalUpdate(m, k, 1);
      }
    }
  }
}
