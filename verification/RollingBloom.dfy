/** The rolling Bloom filter (src/bloom.cpp): two bits a cell, spread over pairs of 64-bit words,
    hold the generation that last touched the cell. */
module RollingBloom {
  import opened Powers

  type Key = seq<int>

  predicate Bit(x: bv64, b: bv6) { (x >> b) & 1 == 1 }

  /** Clear bit b, then set it to v. */
  function Put(x: bv64, b: bv6, v: bool): bv64 {
    (x & !(1 << b)) | ((if v then 1 else 0) << b)
  }

  lemma PutBit(x: bv64, b: bv6, v: bool, c: bv6)
    ensures Bit(Put(x, b, v), c) == if c == b then v else Bit(x, c)
  {
  }

  /** All ones or all zeros. */
  function Ones(v: bool): bv64 { if v then 0xffff_ffff_ffff_ffff else 0 }

  /** Set where the pair of words differs from the pattern of a generation. */
  function Mask(p1: bv64, p2: bv64, v1: bool, v2: bool): bv64 {
    Either(Flip(p1, v1), Flip(p2, v2))
  }

  function Flip(x: bv64, v: bool): bv64 { x ^ Ones(v) }

  function Either(x: bv64, y: bv64): bv64 { x | y }

  function Keep(x: bv64, mask: bv64): bv64 { x & mask }

  lemma BitXor(x: bv64, v: bool, c: bv6)
    ensures Bit(Flip(x, v), c) == (Bit(x, c) != v)
  {
  }

  lemma BitOr(x: bv64, y: bv64, c: bv6)
    ensures Bit(Either(x, y), c) == (Bit(x, c) || Bit(y, c))
  {
  }

  lemma BitKeep(x: bv64, mask: bv64, c: bv6)
    ensures Bit(Keep(x, mask), c) == (Bit(x, c) && Bit(mask, c))
  {
  }

  lemma BitMask(p1: bv64, p2: bv64, v1: bool, v2: bool, c: bv6)
    ensures Bit(Mask(p1, p2, v1, v2), c) == !(Bit(p1, c) == v1 && Bit(p2, c) == v2)
  {
    hide Bit, Flip, Either;
    BitXor(p1, v1, c);
    BitXor(p2, v2, c);
    BitOr(Flip(p1, v1), Flip(p2, v2), c);
  }

  lemma Wiped(p1: bv64, p2: bv64, v1: bool, v2: bool, c: bv6)
    ensures var mask := Mask(p1, p2, v1, v2);
      && Bit(Keep(p1, mask), c) == (Bit(p1, c) && !(Bit(p1, c) == v1 && Bit(p2, c) == v2))
      && Bit(Keep(p2, mask), c) == (Bit(p2, c) && !(Bit(p1, c) == v1 && Bit(p2, c) == v2))
  {
    hide Bit, Mask, Keep;
    BitMask(p1, p2, v1, v2, c);
    BitKeep(p1, Mask(p1, p2, v1, v2), c);
    BitKeep(p2, Mask(p1, p2, v1, v2), c);
  }

  /** The two bits of a cell read as a number: 0 for unset, else the generation. */
  function Tag2(x: bv64, y: bv64, b: bv6): nat {
    (if Bit(x, b) then 1 else 0) + (if Bit(y, b) then 2 else 0)
  }

  function Tag(d: seq<bv64>, q: nat, b: bv6): nat
    requires 2 * q + 1 < |d|
  {
    Tag2(d[2 * q], d[2 * q + 1], b)
  }

  /** A cell: a pair of words and a bit. */
  datatype Cell = Cell(q: nat, b: bv6)

  /** Where a 32-bit hash points in a filter of n words. */
  function CellOf(h: nat, n: nat): (c: Cell)
    requires n > 0 && n % 2 == 0
    ensures 2 * c.q + 1 < n
  {
    var pos := h / 64 % n;
    Cell(pos / 2, (h % 64) as bv6)
  }

  /** Two hashes point to the same bit of the same pair of words. */
  predicate SamePlace(h: nat, g: nat, n: nat)
    requires n > 0
  {
    h % 64 == g % 64 && h / 64 % n / 2 == g / 64 % n / 2
  }

  lemma BitBack(a: nat)
    requires a < 64
    ensures (a as bv6) as nat == a
  {
  }

  lemma BitOut(b: bv6) returns (a: nat)
    ensures a < 64 && a as bv6 == b
  {
    a := b as nat;
  }

  /** Different places are different cells. */
  lemma SameCell(h: nat, g: nat, n: nat)
    requires n > 0 && n % 2 == 0
    ensures CellOf(h, n) == CellOf(g, n) <==> SamePlace(h, g, n)
  {
    if CellOf(h, n) == CellOf(g, n) {
      BitBack(h % 64);
      BitBack(g % 64);
    }
  }

  /** Every cell is the place of some hash. */
  lemma EveryCellReached(q: nat, b: bv6, n: nat) returns (h: nat)
    requires n % 2 == 0 && 2 * q + 1 < n
    ensures h < 64 * n && CellOf(h, n) == Cell(q, b)
  {
    var k := BitOut(b);
    h := 64 * (2 * q) + k;
    DivModUnique(h, 64, 2 * q, k);
    DivModUnique(2 * q, n, 0, 2 * q);
  }

  /** One of the cells of a key is c. */
  predicate Touches(hash: (nat, Key) -> nat, funcs: nat, n: nat, key: Key, c: Cell)
    requires n > 0 && n % 2 == 0
  {
    exists k :: 0 <= k < funcs && CellOf(hash(k, key), n) == c
  }

  /** What the filter is for: the keys inserted so far, and the shape of the filter. */
  datatype Log = Log(keys: seq<Key>, hash: (nat, Key) -> nat, funcs: nat, words: nat, perGen: nat)
  {
    ghost predicate Ok() { words > 0 && words % 2 == 0 && perGen > 0 }

    ghost predicate Hits(i: nat, c: Cell)
      requires Ok() && i < |keys|
    {
      Touches(hash, funcs, words, keys[i], c)
    }

    /** The last of the first n inserts that touched a cell, or -1. */
    ghost function LastHit(c: Cell, n: nat): (i: int)
      requires Ok() && n <= |keys|
      ensures -1 <= i < n && (i >= 0 ==> Hits(i, c))
      ensures forall j :: i < j < n ==> !Hits(j, c)
      decreases n
    {
      if n == 0 then -1 else if Hits(n - 1, c) then n - 1 else LastHit(c, n - 1)
    }

    /** The generation of insert i, counted from zero. */
    ghost function Gen(i: nat): nat
      requires Ok()
    {
      i / perGen
    }

    /** What the cell must hold when generations before g have been wiped. */
    ghost function Expected(c: Cell, g: int): nat
      requires Ok()
    {
      var i := LastHit(c, |keys|);
      if i < 0 || Gen(i) < g then 0 else Gen(i) % 3 + 1
    }

    /** Some insert of generation g or later touched the cell. */
    ghost predicate Recent(c: Cell, g: int)
      requires Ok()
    {
      exists i :: 0 <= i < |keys| && Gen(i) >= g && Hits(i, c)
    }

    lemma GenMono(i: nat, j: nat)
      requires Ok() && i <= j
      ensures Gen(i) <= Gen(j)
    {
      DivModFacts(i, perGen);
      DivModFacts(j, perGen);
      assert (Gen(j) + 1) * perGen == Gen(j) * perGen + perGen;
      if Gen(i) > Gen(j) { MulMono(Gen(j) + 1, Gen(i), perGen); }
    }

    lemma ExpectedIff(c: Cell, g: int)
      requires Ok()
      ensures Expected(c, g) != 0 <==> Recent(c, g)
    {
      var i := LastHit(c, |keys|);
      if Recent(c, g) {
        var j :| 0 <= j < |keys| && Gen(j) >= g && Hits(j, c);
        assert j <= i;
        GenMono(j, i);
      }
    }

    /** Wiping the tag of the generation three back drops exactly that generation's cells. */
    lemma ExpectedWiped(c: Cell, g: nat)
      requires Ok() && forall i :: 0 <= i < |keys| ==> Gen(i) <= g
      ensures Expected(c, g - 1) == if Expected(c, g - 2) == (g + 1) % 3 + 1 then 0 else Expected(c, g - 2)
    {
      var i := LastHit(c, |keys|);
      if i >= 0 && Gen(i) >= g - 2 {
        assert Gen(i) == g - 2 || Gen(i) == g - 1 || Gen(i) == g;
      }
    }

    lemma ExpectedInsert(key: Key, c: Cell, g: int)
      requires Ok() && Gen(|keys|) >= g
      ensures var next := this.(keys := keys + [key]);
        next.Expected(c, g) == if Touches(hash, funcs, words, key, c) then Gen(|keys|) % 3 + 1 else Expected(c, g)
    {
      var next := this.(keys := keys + [key]);
      if !Touches(hash, funcs, words, key, c) {
        LastHitPrefix(next, c, |keys|);
      }
    }

    lemma {:induction false} LastHitPrefix(next: Log, c: Cell, n: nat)
      requires Ok() && keys <= next.keys && next == this.(keys := next.keys) && n <= |keys|
      ensures next.LastHit(c, n) == LastHit(c, n)
      decreases n
    {
      if n > 0 { LastHitPrefix(next, c, n - 1); }
    }
  }

  function WithTweak(hash: (nat, nat, Key) -> nat, tweak: nat): (nat, Key) -> nat {
    (n: nat, key: Key) => hash(tweak, n, key)
  }

  /** The words hold exactly what the log says when generations before g have been wiped. */
  ghost predicate Holds(d: seq<bv64>, log: Log, g: int) {
    log.Ok() && |d| == log.words &&
    forall q: nat, b: bv6 :: 2 * q + 1 < |d| ==> Tag(d, q, b) == log.Expected(Cell(q, b), g)
  }

  lemma HoldsTag(d: seq<bv64>, log: Log, g: int)
    requires Holds(d, log, g)
    ensures log.Ok() && |d| == log.words
    ensures forall q: nat, b: bv6 :: 2 * q + 1 < |d| ==> Tag(d, q, b) == log.Expected(Cell(q, b), g)
  {
  }

  lemma TagHolds(d: seq<bv64>, log: Log, g: int)
    requires log.Ok() && |d| == log.words
    requires forall q: nat, b: bv6 :: 2 * q + 1 < |d| ==> Tag(d, q, b) == log.Expected(Cell(q, b), g)
    ensures Holds(d, log, g)
  {
  }

  lemma ZeroTag(b: bv6)
    ensures Tag2(0, 0, b) == 0
  {
  }

  lemma TagAt(d: seq<bv64>, q: nat, b: bv6)
    requires 2 * q + 1 < |d|
    ensures Tag(d, q, b) == Tag2(d[2 * q], d[2 * q + 1], b)
  {
  }

  /** The test for a set cell. */
  predicate EitherSet(x: bv64, y: bv64, b: bv6) { (Either(x, y) >> b) & 1 == 1 }

  lemma EitherBit(x: bv64, y: bv64, b: bv6)
    ensures EitherSet(x, y, b) <==> Tag2(x, y, b) != 0
  {
    BitOr(x, y, b);
  }

  lemma WipedTag(p1: bv64, p2: bv64, g: nat, b: bv6)
    requires 1 <= g <= 3
    ensures var mask := Mask(p1, p2, g % 2 == 1, g / 2 == 1);
      Tag2(Keep(p1, mask), Keep(p2, mask), b) == if Tag2(p1, p2, b) == g then 0 else Tag2(p1, p2, b)
  {
    hide Bit, Mask, Keep;
    Wiped(p1, p2, g % 2 == 1, g / 2 == 1, b);
  }

  lemma PutTag(x: bv64, y: bv64, g: nat, b: bv6, c: bv6)
    requires 1 <= g <= 3
    ensures Tag2(Put(x, b, g % 2 == 1), Put(y, b, g / 2 == 1), c) == if c == b then g else Tag2(x, y, c)
  {
    hide Bit, Put;
    PutBit(x, b, g % 2 == 1, c);
    PutBit(y, b, g / 2 == 1, c);
  }

  lemma TouchesNone(f: (nat, Key) -> nat, words: nat, key: Key, c: Cell)
    requires words > 0 && words % 2 == 0
    ensures !Touches(f, 0, words, key, c)
  {
  }

  lemma TouchesNext(f: (nat, Key) -> nat, n: nat, words: nat, key: Key, c: Cell)
    requires words > 0 && words % 2 == 0
    ensures Touches(f, n + 1, words, key, c) <==> Touches(f, n, words, key, c) || CellOf(f(n, key), words) == c
  {
    hide CellOf;
    if CellOf(f(n, key), words) == c { assert 0 <= n < n + 1; }
  }

  lemma GenOf(log: Log, turn: nat, n: nat, i: nat)
    requires log.Ok() && i <= turn * log.perGen + n && n < log.perGen
    ensures log.Gen(i) <= turn
    ensures i == turn * log.perGen + n ==> log.Gen(i) == turn
  {
    DivModUnique(turn * log.perGen + n, log.perGen, turn, n);
    log.GenMono(i, turn * log.perGen + n);
  }

  /** Every one of the last 2 * perGen + n inserts, n being those of the current generation, has all
      its cells touched by a surviving insert, its own. */
  lemma LastInsertsKept(log: Log, turn: nat, n: nat, i: nat)
    requires log.Ok() && n <= log.perGen && |log.keys| == turn * log.perGen + n
    requires |log.keys| - 2 * log.perGen - n <= i < |log.keys|
    ensures forall k :: 0 <= k < log.funcs ==> log.Recent(CellOf(log.hash(k, log.keys[i]), log.words), turn - 2)
  {
    hide CellOf;
    assert log.Gen(i) >= turn - 2 by {
      if turn >= 2 {
        assert (turn - 2) * log.perGen == turn * log.perGen - 2 * log.perGen;
        GenOf(log, turn - 2, 0, (turn - 2) * log.perGen);
        log.GenMono((turn - 2) * log.perGen, i);
      }
    }
    forall k | 0 <= k < log.funcs
      ensures log.Recent(CellOf(log.hash(k, log.keys[i]), log.words), turn - 2)
    {
      assert log.Hits(i, CellOf(log.hash(k, log.keys[i]), log.words));
    }
  }

  /** Some insert from number start on has a hash with the same place as h. */
  ghost predicate Covered(log: Log, start: int, h: nat)
    requires log.Ok()
  {
    exists i, k :: 0 <= i < |log.keys| && i >= start && 0 <= k < log.funcs
                   && SamePlace(h, log.hash(k, log.keys[i]), log.words)
  }

  /** The inserts that survive are the last 2 * perGen + n. */
  lemma Survives(log: Log, turn: nat, n: nat, i: nat)
    requires log.Ok() && n <= log.perGen && |log.keys| == turn * log.perGen + n && i < |log.keys|
    ensures log.Gen(i) >= turn - 2 <==> i >= |log.keys| - 2 * log.perGen - n
  {
    assert (turn - 2) * log.perGen == turn * log.perGen - 2 * log.perGen;
    if turn >= 2 {
      var first := (turn - 2) * log.perGen;
      GenOf(log, turn - 2, 0, first);
      if i >= first { log.GenMono(first, i); } else { GenOf(log, turn - 3, log.perGen - 1, i); }
    }
  }

  lemma RecentIsCovered(log: Log, turn: nat, n: nat, h: nat)
    requires log.Ok() && n <= log.perGen && |log.keys| == turn * log.perGen + n
    ensures log.Recent(CellOf(h, log.words), turn - 2) <==> Covered(log, |log.keys| - 2 * log.perGen - n, h)
  {
    hide CellOf, SamePlace, Log.Gen;
    var c, start := CellOf(h, log.words), |log.keys| - 2 * log.perGen - n;
    if log.Recent(c, turn - 2) {
      var i :| 0 <= i < |log.keys| && log.Gen(i) >= turn - 2 && log.Hits(i, c);
      var k :| 0 <= k < log.funcs && CellOf(log.hash(k, log.keys[i]), log.words) == c;
      Survives(log, turn, n, i);
      SameCell(h, log.hash(k, log.keys[i]), log.words);
    }
    if Covered(log, start, h) {
      var i, k :| 0 <= i < |log.keys| && i >= start && 0 <= k < log.funcs
                  && SamePlace(h, log.hash(k, log.keys[i]), log.words);
      Survives(log, turn, n, i);
      SameCell(h, log.hash(k, log.keys[i]), log.words);
      assert log.Hits(i, c);
    }
  }

  class Filter {
    const hash: (nat, nat, Key) -> nat
    const funcs: nat
    const elements: nat
    const perGen: nat
    const data: array<bv64>
    var thisGen: nat
    var generation: nat
    var tweak: nat
    ghost var keys: seq<Key>
    ghost var turn: nat

    ghost function TheLog(): Log
      reads this
    {
      Log(keys, WithTweak(hash, tweak), funcs, data.Length, perGen)
    }

    ghost predicate Shape()
      reads this
    {
      TheLog().Ok() && perGen == (elements + 1) / 2 && thisGen <= perGen && generation == turn % 3 + 1
        && |keys| == turn * perGen + thisGen
    }

    ghost predicate Valid()
      reads this, data
    {
      Shape() && Holds(data[..], TheLog(), turn - 2)
    }

    /** Filter words and hash functions are sized by the caller from the false positive rate. */
    constructor (elements: nat, pairs: nat, funcs: nat, hash: (nat, nat, Key) -> nat, tweak: nat)
      requires elements > 0 && pairs > 0
      ensures Valid() && keys == [] && fresh(data)
      ensures this.elements == elements && perGen == (elements + 1) / 2 && this.funcs == funcs && this.hash == hash
        && data.Length == 2 * pairs
    {
      this.hash := hash;
      this.funcs := funcs;
      this.elements := elements;
      perGen := (elements + 1) / 2;
      data := new bv64[2 * pairs](_ => 0);
      thisGen, generation, this.tweak := 0, 1, tweak;
      keys, turn := [], 0;
      new;
      forall q: nat, b: bv6 | 2 * q + 1 < data.Length ensures Tag(data[..], q, b) == 0 { ZeroTag(b); }
    }

    method Reset(tweak: nat)
      requires Valid()
      modifies this, data
      ensures Valid() && keys == [] && this.tweak == tweak
    {
      this.tweak := tweak;
      thisGen, generation := 0, 1;
      keys, turn := [], 0;
      var i := 0;
      while i < data.Length
        invariant 0 <= i <= data.Length
        invariant forall k :: 0 <= k < i ==> data[k] == 0
        modifies data
      {
        data[i] := 0;
        i := i + 1;
      }
      forall q: nat, b: bv6 | 2 * q + 1 < data.Length ensures Tag(data[..], q, b) == 0 { ZeroTag(b); }
    }

    /** Clears exactly the cells of the current generation number. */
    method Wipe()
      requires data.Length % 2 == 0 && 1 <= generation <= 3
      modifies data
      ensures forall q: nat, b: bv6 :: 2 * q + 1 < data.Length ==>
        Tag(data[..], q, b) == if old(Tag(data[..], q, b)) == generation then 0 else old(Tag(data[..], q, b))
    {
      hide Tag2, Bit, Mask, Keep;
      var low, high := generation % 2 == 1, generation / 2 == 1;
      ghost var was := data[..];
      var p := 0;
      while p < data.Length
        invariant 0 <= p <= data.Length && p % 2 == 0
        invariant forall k :: p <= k < data.Length ==> data[k] == was[k]
        invariant forall q: nat, b: bv6 :: 2 * q + 1 < p ==>
          Tag(data[..], q, b) == if Tag(was, q, b) == generation then 0 else Tag(was, q, b)
      {
        var p1, p2 := data[p], data[p + 1];
        var mask := Mask(p1, p2, low, high);
        forall b
          ensures Tag2(Keep(p1, mask), Keep(p2, mask), b) ==
            if Tag2(p1, p2, b) == generation then 0 else Tag2(p1, p2, b)
        {
          WipedTag(p1, p2, generation, b);
        }
        data[p] := Keep(p1, mask);
        data[p + 1] := Keep(p2, mask);
        p := p + 2;
      }
    }

    /** Sets one cell to the current generation. */
    method MarkCell(c: Cell)
      requires 2 * c.q + 1 < data.Length && 1 <= generation <= 3
      modifies data
      ensures forall q: nat, b: bv6 :: 2 * q + 1 < data.Length ==>
        Tag(data[..], q, b) == if Cell(q, b) == c then generation else old(Tag(data[..], q, b))
    {
      hide Tag2, Bit, Put;
      var lo, hi := 2 * c.q, 2 * c.q + 1;
      ghost var d := data[..];
      data[lo] := Put(data[lo], c.b, generation % 2 == 1);
      data[hi] := Put(data[hi], c.b, generation / 2 == 1);
      forall q: nat, b: bv6 | 2 * q + 1 < data.Length
        ensures Tag(data[..], q, b) == if Cell(q, b) == c then generation else Tag(d, q, b)
      {
        PutTag(d[lo], d[hi], generation, c.b, b);
      }
    }

    /** Sets every cell of the key to the current generation. */
    method Mark(key: Key)
      requires data.Length > 0 && data.Length % 2 == 0 && 1 <= generation <= 3
      modifies data
      ensures forall q: nat, b: bv6 :: 2 * q + 1 < data.Length ==>
        Tag(data[..], q, b) ==
        if Touches(WithTweak(hash, tweak), funcs, data.Length, key, Cell(q, b)) then generation
        else old(Tag(data[..], q, b))
    {
      hide Tag, CellOf, Touches;
      ghost var was, f := data[..], WithTweak(hash, tweak);
      forall q: nat, b: bv6 ensures !Touches(f, 0, data.Length, key, Cell(q, b)) {
        TouchesNone(f, data.Length, key, Cell(q, b));
      }
      var n := 0;
      while n < funcs
        invariant 0 <= n <= funcs
        invariant forall q: nat, b: bv6 :: 2 * q + 1 < data.Length ==>
          Tag(data[..], q, b) == if Touches(f, n, data.Length, key, Cell(q, b)) then generation else Tag(was, q, b)
      {
        MarkCell(CellOf(hash(tweak, n, key), data.Length));
        assert hash(tweak, n, key) == f(n, key);
        forall q: nat, b: bv6 | 2 * q + 1 < data.Length
          ensures Tag(data[..], q, b) ==
            if Touches(f, n + 1, data.Length, key, Cell(q, b)) then generation else Tag(was, q, b)
        {
          TouchesNext(f, n, data.Length, key, Cell(q, b));
        }
        n := n + 1;
      }
    }

    /** A new generation starts when the current one is full. */
    method Turn()
      requires Valid() && thisGen == perGen
      modifies this`thisGen, this`generation, this`turn, data
      ensures Valid() && thisGen == 0
    {
      hide Tag, Holds, Log.Expected, Log.Gen;
      ghost var log, g := TheLog(), turn;
      HoldsTag(data[..], log, g - 2);
      thisGen := 0;
      generation := generation + 1;
      if generation == 4 {
        generation := 1;
      }
      Wipe();
      turn := turn + 1;
      assert TheLog() == log;
      assert turn * perGen == g * perGen + perGen;
      forall i | 0 <= i < |keys| ensures log.Gen(i) <= g { GenOf(log, g, perGen - 1, i); }
      forall q: nat, b: bv6 | 2 * q + 1 < data.Length
        ensures Tag(data[..], q, b) == log.Expected(Cell(q, b), g - 1)
      {
        log.ExpectedWiped(Cell(q, b), g);
      }
      TagHolds(data[..], log, g - 1);
    }

    method Insert(key: Key)
      requires Valid()
      modifies this`thisGen, this`generation, this`turn, this`keys, data
      ensures Valid() && keys == old(keys) + [key]
    {
      hide Tag, Holds, Log.Expected, Log.Gen;
      if thisGen == perGen {
        Turn();
      }
      ghost var log := TheLog();
      HoldsTag(data[..], log, turn - 2);
      GenOf(log, turn, thisGen, |keys|);
      thisGen := thisGen + 1;
      Mark(key);
      keys := keys + [key];
      assert TheLog() == log.(keys := log.keys + [key]);
      forall q: nat, b: bv6 | 2 * q + 1 < data.Length
        ensures Tag(data[..], q, b) == TheLog().Expected(Cell(q, b), turn - 2)
      {
        log.ExpectedInsert(key, Cell(q, b), turn - 2);
      }
      TagHolds(data[..], TheLog(), turn - 2);
    }

    /** True exactly when every hash of the key has the place of some hash of some surviving insert;
        the last 2 * perGen inserts and those of the current generation survive. */
    method Contains(key: Key) returns (r: bool)
      requires Valid()
      ensures r <==> forall n :: 0 <= n < funcs ==>
        Covered(TheLog(), |keys| - 2 * perGen - thisGen, hash(tweak, n, key))
      ensures r <==> forall n :: 0 <= n < funcs ==>
        TheLog().Recent(CellOf(hash(tweak, n, key), data.Length), turn - 2)
      ensures forall i :: 0 <= i < |keys| && |keys| - 2 * perGen - thisGen <= i && keys[i] == key ==> r
      ensures forall i :: 0 <= i < |keys| && |keys| - elements <= i && keys[i] == key ==> r
    {
      hide Tag, Tag2, EitherSet, CellOf, Holds, Log.Expected, Log.Gen, Log.Recent;
      hide Covered;
      HoldsTag(data[..], TheLog(), turn - 2);
      forall n | 0 <= n < funcs
        ensures TheLog().Recent(CellOf(hash(tweak, n, key), data.Length), turn - 2) <==>
          Covered(TheLog(), |keys| - 2 * perGen - thisGen, hash(tweak, n, key))
      {
        RecentIsCovered(TheLog(), turn, thisGen, hash(tweak, n, key));
      }
      forall i | 0 <= i < |keys| && |keys| - 2 * perGen - thisGen <= i && keys[i] == key
        ensures forall k :: 0 <= k < funcs ==> TheLog().Recent(CellOf(hash(tweak, k, key), data.Length), turn - 2)
      {
        LastInsertsKept(TheLog(), turn, thisGen, i);
        assert forall k :: 0 <= k < funcs ==> WithTweak(hash, tweak)(k, key) == hash(tweak, k, key);
      }
      var n := 0;
      while n < funcs
        invariant 0 <= n <= funcs
        invariant forall k :: 0 <= k < n ==> TheLog().Recent(CellOf(hash(tweak, k, key), data.Length), turn - 2)
      {
        var c := CellOf(hash(tweak, n, key), data.Length);
        TheLog().ExpectedIff(c, turn - 2);
        EitherBit(data[2 * c.q], data[2 * c.q + 1], c.b);
        TagAt(data[..], c.q, c.b);
        if !EitherSet(data[2 * c.q], data[2 * c.q + 1], c.b) {
          return false;
        }
        n := n + 1;
      }
      return true;
    }
  }
}
