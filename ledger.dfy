/**
 * Whole-table aggregates used to state what a disbursement does to the
 * ledger: the sum of all account balances and the number of transaction
 * rows of one type.
 */
module Ledger {
  import opened Domain

  /** Sum of the balances of the accounts in `ks`. */
  ghost function SumOver(m: map<string, int>, ks: set<string>): int
    requires ks <= m.Keys
    decreases ks
  {
    if ks == {} then 0
    else
      var k :| k in ks;
      m[k] + SumOver(m, ks - {k})
  }

  /** Sum of all balances of the account table. */
  ghost function Total(m: map<string, int>): int
  {
    SumOver(m, m.Keys)
  }

  /** Any one account can be split off the sum, whichever one the definition picks. */
  lemma {:induction false} SumOverRemove(m: map<string, int>, ks: set<string>, k: string)
    requires ks <= m.Keys && k in ks
    ensures SumOver(m, ks) == m[k] + SumOver(m, ks - {k})
    decreases ks
  {
    var j :| j in ks && SumOver(m, ks) == m[j] + SumOver(m, ks - {j});
    if j != k {
      SumOverRemove(m, ks - {j}, k);
      SumOverRemove(m, ks - {k}, j);
      assert ks - {j} - {k} == ks - {k} - {j};
    }
  }

  /** The sum over `ks` depends only on the balances of the accounts in `ks`. */
  lemma {:induction false} SumOverAgree(m: map<string, int>, m': map<string, int>, ks: set<string>)
    requires ks <= m.Keys && ks <= m'.Keys
    requires forall k :: k in ks ==> m[k] == m'[k]
    ensures SumOver(m, ks) == SumOver(m', ks)
    decreases ks
  {
    if ks != {} {
      var j :| j in ks && SumOver(m, ks) == m[j] + SumOver(m, ks - {j});
      SumOverRemove(m', ks, j);
      SumOverAgree(m, m', ks - {j});
    }
  }

  /** Overwriting one existing balance changes the total by the difference. */
  lemma TotalUpdate(m: map<string, int>, k: string, v: int)
    requires k in m
    ensures m[k := v].Keys == m.Keys
    ensures Total(m[k := v]) == Total(m) - m[k] + v
  {
    var m' := m[k := v];
    assert m'.Keys == m.Keys;
    SumOverRemove(m, m.Keys, k);
    SumOverRemove(m', m.Keys, k);
    SumOverAgree(m, m', m.Keys - {k});
  }

  /** Number of transaction rows of type `t`. */
  function CountKind(ts: seq<Txn>, t: TxnType): nat
  {
    if ts == [] then 0
    else (if ts[0].kind == t then 1 else 0) + CountKind(ts[1..], t)
  }

  /** Counting rows of one type distributes over concatenating two row lists. */
  lemma {:induction false} CountKindConcat(a: seq<Txn>, b: seq<Txn>, t: TxnType)
    ensures CountKind(a + b, t) == CountKind(a, t) + CountKind(b, t)
  {
    if a != [] {
      assert (a + b)[1..] == a[1..] + b;
      CountKindConcat(a[1..], b, t);
    } else {
      assert a + b == b;
    }
  }
}
