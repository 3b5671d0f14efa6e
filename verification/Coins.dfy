/** Lists of coins: what a snapshot of the coin set lists, filters and adds up to. */
module Coins {
  import opened Types
  import opened Utxo
  import opened Supply

  type Coin = (OutPoint, Entry)

  /** A listing of a coin set without repetition; the program lists it in outpoint order. */
  ghost predicate Lists(snap: seq<Coin>, m: UtxoMap) {
    && (forall i :: 0 <= i < |snap| ==> snap[i].0 in m && m[snap[i].0] == snap[i].1)
    && (forall i, j :: 0 <= i < j < |snap| ==> snap[i].0 != snap[j].0)
    && (forall op :: op in m ==> exists i :: 0 <= i < |snap| && snap[i].0 == op)
  }

  /** The coins that pass a test on their script. */
  function Filter(mine: Script -> bool, snap: seq<Coin>): seq<Coin> {
    if snap == [] then []
    else (if mine(snap[0].1.scriptPubkey) then [snap[0]] else []) + Filter(mine, snap[1..])
  }

  function Restrict(mine: Script -> bool, m: UtxoMap): UtxoMap {
    map op | op in m && mine(m[op].scriptPubkey) :: m[op]
  }

  lemma ListsTail(snap: seq<Coin>, m: UtxoMap)
    requires Lists(snap, m) && snap != []
    ensures Lists(snap[1..], m - {snap[0].0})
  {
    var tail, less := snap[1..], m - {snap[0].0};
    forall i | 0 <= i < |tail|
      ensures tail[i].0 in less && less[tail[i].0] == tail[i].1
    {
      assert tail[i] == snap[i + 1];
    }
    forall op | op in less
      ensures exists i :: 0 <= i < |tail| && tail[i].0 == op
    {
      var i :| 0 <= i < |snap| && snap[i].0 == op;
      assert tail[i - 1] == snap[i];
    }
  }

  /** The amounts of a listing add up to the total of the set, in whatever order it lists the coins. */
  lemma {:induction false} ListedTotal(snap: seq<Coin>, m: UtxoMap)
    requires Lists(snap, m)
    ensures SumCreated(snap) == Total(m)
    decreases |snap|
  {
    if snap == [] {
      assert m == map[];
    } else {
      ListsTail(snap, m);
      ListedTotal(snap[1..], m - {snap[0].0});
      TotalWithout(m, snap[0].0);
    }
  }

  lemma RestrictWithout(mine: Script -> bool, m: UtxoMap, op: OutPoint)
    requires op in m
    ensures Total(Restrict(mine, m))
         == (if mine(m[op].scriptPubkey) then m[op].amount else 0) + Total(Restrict(mine, m - {op}))
  {
    var part := Restrict(mine, m);
    if mine(m[op].scriptPubkey) {
      TotalWithout(part, op);
      assert part - {op} == Restrict(mine, m - {op});
    } else {
      assert part == Restrict(mine, m - {op});
    }
  }

  lemma SumOneMore(c: Coin, tail: seq<Coin>)
    ensures SumCreated([c] + tail) == c.1.amount + SumCreated(tail)
  {
    assert ([c] + tail)[1..] == tail;
  }

  lemma Regroup(a: seq<Coin>, b: seq<Coin>, c: seq<Coin>)
    ensures (a + b) + c == a + (b + c)
  {
  }

  lemma FilterOne(mine: Script -> bool, c: Coin)
    ensures Filter(mine, [c]) == if mine(c.1.scriptPubkey) then [c] else []
  {
    assert [c][1..] == [];
    assert Filter(mine, []) == [];
  }

  /** Filtering keeps the order of a listing: what it keeps of two parts follows each other. */
  lemma {:induction false} FilterAppend(mine: Script -> bool, a: seq<Coin>, b: seq<Coin>)
    ensures Filter(mine, a + b) == Filter(mine, a) + Filter(mine, b)
  {
    if a == [] {
      assert a + b == b;
      assert [] + Filter(mine, b) == Filter(mine, b);
    } else {
      assert (a + b)[1..] == a[1..] + b;
      FilterAppend(mine, a[1..], b);
      Regroup(if mine(a[0].1.scriptPubkey) then [a[0]] else [], Filter(mine, a[1..]), Filter(mine, b));
    }
  }

  /** What the filter keeps of a listing adds up to the total of the coins that pass. */
  lemma {:induction false} FilterTotal(mine: Script -> bool, snap: seq<Coin>, m: UtxoMap)
    requires Lists(snap, m)
    ensures SumCreated(Filter(mine, snap)) == Total(Restrict(mine, m))
    decreases |snap|
  {
    if snap == [] {
      assert Restrict(mine, m) == map[];
    } else {
      var tail := Filter(mine, snap[1..]);
      ListsTail(snap, m);
      FilterTotal(mine, snap[1..], m - {snap[0].0});
      RestrictWithout(mine, m, snap[0].0);
      SumOneMore(snap[0], tail);
      assert [] + tail == tail;
    }
  }

  /** Filtering keeps coins of the set, each once, and all of them pass. */
  ghost predicate Picked(mine: Script -> bool, coins: seq<Coin>, m: UtxoMap) {
    && (forall i :: 0 <= i < |coins| ==>
          coins[i].0 in m && m[coins[i].0] == coins[i].1 && mine(coins[i].1.scriptPubkey))
    && (forall i, j :: 0 <= i < j < |coins| ==> coins[i].0 != coins[j].0)
  }

  lemma {:induction false} FilterPicks(mine: Script -> bool, snap: seq<Coin>, m: UtxoMap)
    requires Lists(snap, m)
    ensures Picked(mine, Filter(mine, snap), m)
    decreases |snap|
  {
    if snap != [] {
      var less := m - {snap[0].0};
      var tail := Filter(mine, snap[1..]);
      ListsTail(snap, m);
      FilterPicks(mine, snap[1..], less);
      PickOneMore(mine, snap[0], tail, less, m);
    }
  }

  lemma PickOneMore(mine: Script -> bool, c: Coin, tail: seq<Coin>, less: UtxoMap, m: UtxoMap)
    requires c.0 in m && m[c.0] == c.1 && less == m - {c.0}
    requires Picked(mine, tail, less)
    ensures Picked(mine, (if mine(c.1.scriptPubkey) then [c] else []) + tail, m)
  {
    var all := (if mine(c.1.scriptPubkey) then [c] else []) + tail;
    if mine(c.1.scriptPubkey) {
      forall i | 0 <= i < |all|
        ensures all[i].0 in m && m[all[i].0] == all[i].1 && mine(all[i].1.scriptPubkey)
      {
        if i > 0 {
          assert all[i] == tail[i - 1];
        }
      }
      forall i, j | 0 <= i < j < |all|
        ensures all[i].0 != all[j].0
      {
        assert all[j] == tail[j - 1] && tail[j - 1].0 in less;
        if i > 0 {
          assert all[i] == tail[i - 1];
        }
      }
    } else {
      assert all == tail;
    }
  }

  // ---------- selection ----------

  /** How many coins the greedy selection takes: up to the first prefix that is enough, at least one. */
  function Taken(coins: seq<Coin>, need: nat): (k: nat)
    ensures k <= |coins|
  {
    if coins == [] then 0
    else if coins[0].1.amount >= need then 1
    else 1 + Taken(coins[1..], need - coins[0].1.amount)
  }

  lemma {:induction false} SumPrefix(coins: seq<Coin>, k: nat)
    requires k <= |coins|
    ensures SumCreated(coins[..k]) <= SumCreated(coins)
    ensures k < |coins| ==> SumCreated(coins[..k + 1]) == SumCreated(coins[..k]) + coins[k].1.amount
  {
    assert coins == coins[..k] + coins[k..];
    SumCreatedAppend(coins[..k], coins[k..]);
    if k < |coins| {
      assert coins[..k + 1] == coins[..k] + [coins[k]];
      SumCreatedAppend(coins[..k], [coins[k]]);
      assert [coins[k]][1..] == [];
    }
  }

  /** The selection is enough exactly when all coins are, and then no shorter prefix is. */
  lemma {:induction false} TakenExact(coins: seq<Coin>, need: nat)
    requires need > 0
    ensures SumCreated(coins[..Taken(coins, need)]) >= need <==> SumCreated(coins) >= need
    ensures forall j :: 0 <= j < Taken(coins, need) ==> SumCreated(coins[..j]) < need
  {
    if coins != [] {
      var k := Taken(coins, need);
      if coins[0].1.amount >= need {
        assert coins[..1][1..] == [];
        assert coins[..0] == [];
      } else {
        TakenExact(coins[1..], need - coins[0].1.amount);
        assert coins[..k][1..] == coins[1..][..k - 1];
        forall j | 0 <= j < k
          ensures SumCreated(coins[..j]) < need
        {
          if j > 0 {
            assert coins[..j][1..] == coins[1..][..j - 1];
          }
        }
      }
    }
  }
}
