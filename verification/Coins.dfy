/** CCoins: the unspent outputs of one transaction. */
module Coins {
  import opened Basics

  datatype Out = Out(value: nat, script: seq<int>)

  /** A spent output is None. */
  datatype Coins = Coins(coinBase: bool, coinStake: bool, vout: seq<Option<Out>>, height: int, version: int, time: nat)

  const EMPTY := Coins(false, false, [], 0, 0, 0)

  /** No output is left unspent. */
  predicate IsPruned(c: Coins) { forall k :: 0 <= k < |c.vout| ==> c.vout[k].None? }

  /** Drop the spent outputs at the end. */
  function Trim(v: seq<Option<Out>>): (r: seq<Option<Out>>)
    ensures r <= v && (r != [] ==> r[|r| - 1].Some?)
    ensures forall k :: |r| <= k < |v| ==> v[k].None?
  {
    if v != [] && v[|v| - 1].None? then Trim(v[..|v| - 1]) else v
  }

  /** Every unspent output stays where it was, only spent ones go, and no other field changes. */
  function Cleanup(c: Coins): (r: Coins)
    ensures Clean(r) && (IsPruned(r) <==> IsPruned(c))
    ensures r == c.(vout := r.vout) && r.vout <= c.vout && forall k: nat :: Unspent(r, k) == Unspent(c, k)
  {
    var r := c.(vout := Trim(c.vout));
    assert forall k :: 0 <= k < |r.vout| ==> r.vout[k] == c.vout[k];
    r
  }

  predicate Clean(c: Coins) { c.vout != [] ==> c.vout[|c.vout| - 1].Some? }

  /** A clean record with no unspent output has no outputs at all. */
  lemma CleanPruned(c: Coins)
    requires Clean(c)
    ensures IsPruned(c) <==> c.vout == []
  {
    if c.vout != [] { assert c.vout[|c.vout| - 1].Some?; }
  }

  /** The loop of CCoins::Cleanup. */
  method TrimLoop(c: Coins) returns (r: Coins)
    ensures r == Cleanup(c)
  {
    r := c;
    while |r.vout| > 0 && r.vout[|r.vout| - 1].None?
      invariant r == c.(vout := r.vout) && Trim(r.vout) == Trim(c.vout)
      decreases |r.vout|
    {
      r := r.(vout := r.vout[..|r.vout| - 1]);
    }
  }

  /** Spend: mark one output spent. */
  method Spend(c: Coins, pos: nat) returns (ok: bool, r: Coins)
    ensures ok <==> pos < |c.vout| && c.vout[pos].Some?
    ensures !ok ==> r == c
    ensures ok ==> Clean(r) && r == c.(vout := r.vout) && |r.vout| <= |c.vout|
    ensures ok ==> forall k :: 0 <= k < |c.vout| ==>
              Unspent(r, k) == if k == pos then None else c.vout[k]
  {
    if pos >= |c.vout| || c.vout[pos].None? { return false, c; }
    var v := c.vout[pos := None];
    r := TrimLoop(c.(vout := v));
    assert r.vout == Trim(v);
    forall k | 0 <= k < |c.vout| ensures Unspent(r, k) == if k == pos then None else c.vout[k] {
      assert if k < |r.vout| then r.vout[k] == v[k] else v[k].None?;
    }
    ok := true;
  }

  /** The output at a position, if it is unspent. */
  function Unspent(c: Coins, k: nat): Option<Out> {
    if k < |c.vout| then c.vout[k] else None
  }
}
