/** How long the skip-list walk of src/chain.cpp can be: at most b * b turns between heights of b
    bits. */
module SkipWalk {
  import opened Powers
  import opened ChainIndex

  // --- The lowest one bit, half by half ---

  /** The number of one bits. */
  function Ones(n: nat): nat {
    if n == 0 then 0 else n % 2 + Ones(n / 2)
  }

  lemma InvertStep(n: nat)
    ensures InvertLowestOne(2 * n + 1) == 2 * n
    ensures InvertLowestOne(2 * n) == 2 * InvertLowestOne(n)
  {
    AndSelf(n);
    if n > 0 { assert (2 * n - 1) / 2 == n - 1; }
  }

  lemma OnesStep(n: nat)
    ensures Ones(2 * n) == Ones(n) && Ones(2 * n + 1) == Ones(n) + 1
  {
  }

  lemma {:induction false} OnesInvert(n: nat)
    requires n > 0
    ensures Ones(InvertLowestOne(n)) == Ones(n) - 1
  {
    hide InvertLowestOne, Ones;
    InvertStep(n / 2);
    OnesStep(n / 2);
    OnesStep(InvertLowestOne(n / 2));
    if n % 2 == 0 { OnesInvert(n / 2); }
  }

  lemma {:induction false} OnesAtMost(x: nat, k: nat)
    requires x < Pow(2, k)
    ensures Ones(x) <= k
  {
    if x > 0 { OnesAtMost(x / 2, k - 1); }
  }

  /** Adding a part below 2^k to a multiple of 2^k puts the lowest one bit in that part, if it has one. */
  lemma {:induction false} InvertAbove(q: nat, k: nat, x: nat)
    requires 0 < x < Pow(2, k) && q * Pow(2, k) >= 0
    ensures InvertLowestOne(q * Pow(2, k) + x) == q * Pow(2, k) + InvertLowestOne(x)
  {
    hide InvertLowestOne;
    var p := Pow(2, k - 1);
    assert q * Pow(2, k) == 2 * (q * p);
    InvertStep(q * p + x / 2);
    InvertStep(x / 2);
    if x % 2 == 0 { InvertAbove(q, k - 1, x / 2); }
  }

  /** The multiples of 2^k, two and two. */
  function Bottom(a: nat, k: nat): nat {
    PowPositive(2, k);
    MulNonneg(2 * a, Pow(2, k));
    2 * a * Pow(2, k)
  }

  function Top(a: nat, k: nat): nat {
    PowPositive(2, k);
    Bottom(a, k) + Pow(2, k)
  }

  lemma TopStep(a: nat, k: nat)
    requires k > 0
    ensures Top(a, k) == 2 * Top(a, k - 1) && Bottom(a, k) == 2 * Bottom(a, k - 1)
    ensures Top(a, k) >= Bottom(a, k) + 2
  {
    DoubledPower(a, Pow(2, k - 1));
    PowPositive(2, k - 1);
  }

  lemma {:induction false} InvertTop(a: nat, k: nat)
    ensures InvertLowestOne(Top(a, k)) == Bottom(a, k)
  {
    hide InvertLowestOne, Top, Bottom;
    if k == 0 {
      TopZero(a);
      InvertStep(a);
    } else {
      TopStep(a, k);
      InvertTop(a, k - 1);
      InvertStep(Top(a, k - 1));
    }
  }

  lemma TopZero(a: nat)
    ensures Top(a, 0) == 2 * a + 1 && Bottom(a, 0) == 2 * a
  {
  }

  lemma InvertInside(a: nat, k: nat, x: nat)
    requires 0 < x < Pow(2, k)
    ensures InvertLowestOne(Top(a, k) + x) == Top(a, k) + InvertLowestOne(x)
  {
    hide InvertLowestOne;
    assert Top(a, k) == (2 * a + 1) * Pow(2, k);
    InvertAbove(2 * a + 1, k, x);
  }

  /** Going two down from an even number adds a one bit only if clearing two from there clears no
      more than clearing one from here. */
  lemma OnesTwoDown(x: nat)
    requires x >= 2 && x % 2 == 0
    requires InvertLowestOne(InvertLowestOne(x - 2)) + 3 < InvertLowestOne(x)
    ensures Ones(x - 2) <= Ones(x)
  {
    hide InvertLowestOne, Ones;
    var z := x / 2;
    InvertStep(z); InvertStep(z - 1); InvertStep(InvertLowestOne(z - 1));
    OnesStep(z); OnesStep(z - 1);
    var w := z / 2;
    if z % 2 == 1 {
      OnesStep(w);
    } else {
      InvertStep(w - 1); InvertStep(w); OnesStep(w - 1); OnesStep(w);
      assert z - 1 == 2 * (w - 1) + 1;
      var v := w / 2;
      if w % 2 == 1 {
        OnesStep(v);
        assert w - 1 == 2 * v;
      } else {
        assert w - 1 == 2 * (v - 1) + 1;
        InvertStep(v - 1); InvertStep(v);
      }
    }
  }

  // --- One turn ---

  /** From an odd height the walk follows the skip pointer whenever that does not pass the goal. */
  lemma TurnOdd(h: nat, t: nat)
    requires h % 2 == 1 && h > t
    ensures Turn(h, t) == if GetSkipHeight(h) >= t then GetSkipHeight(h) else h - 1
  {
    hide InvertLowestOne;
  }

  /** From an even height it steps back only if the skip pointer passes the goal or that of the
      block before is better. */
  lemma TurnEven(h: nat, t: nat)
    requires h % 2 == 0 && h > t && InvertLowestOne(h) > t
    ensures Turn(h, t) == InvertLowestOne(h) ||
      (Turn(h, t) == h - 1 && t <= GetSkipHeight(h - 1) < InvertLowestOne(h) - 2)
  {
    hide InvertLowestOne;
  }

  /** Where the skip pointer of an odd height leads: below top, or two one bits down. */
  lemma SkipOdd(a: nat, k: nat, x: nat)
    requires k > 0 && x % 2 == 1 && x < Pow(2, k)
    ensures var s := GetSkipHeight(Top(a, k) + x) - Top(a, k);
      s < 0 || (s < x && Ones(s) == Ones(x) - 2 && s == InvertLowestOne(InvertLowestOne(x - 1)) + 1)
  {
    hide InvertLowestOne, Ones, Top, Bottom, Pow;
    TopStep(a, k);
    InvertTop(a, k);
    if x > 1 {
      InvertInside(a, k, x - 1);
      var y := InvertLowestOne(x - 1);
      if y > 0 {
        InvertInside(a, k, y);
        OnesTwoCleared(x);
      }
    }
  }

  lemma OnesTwoCleared(x: nat)
    requires x % 2 == 1 && x > 1 && InvertLowestOne(x - 1) > 0
    ensures Ones(InvertLowestOne(InvertLowestOne(x - 1)) + 1) == Ones(x) - 2
  {
    hide InvertLowestOne, Ones;
    var y := InvertLowestOne(x - 1);
    OnesInvert(x - 1);
    OnesInvert(y);
    EvenInvert(x - 1);
    EvenInvert(y);
    OnesStep(InvertLowestOne(y) / 2);
    OnesStep(x / 2);
  }

  lemma EvenInvert(n: nat)
    requires n % 2 == 0
    ensures InvertLowestOne(n) % 2 == 0
  {
    hide InvertLowestOne;
    InvertStep(n / 2);
  }

  /** The walk has come below top, or has lost a one bit above it. */
  predicate Nearer(a: nat, k: nat, x: nat, h: nat) {
    h < Top(a, k) || (h - Top(a, k) < x && Ones(h - Top(a, k)) < Ones(x))
  }

  lemma StepOdd(a: nat, k: nat, x: nat, t: nat)
    requires k > 0 && x % 2 == 1 && x < Pow(2, k) && t < Top(a, k)
    ensures Nearer(a, k, x, Turn(Top(a, k) + x, t))
  {
    hide InvertLowestOne, Ones, Top, Bottom, Pow, GetSkipHeight, Turn;
    TopStep(a, k);
    TurnOdd(Top(a, k) + x, t);
    SkipOdd(a, k, x);
    OnesStep(x / 2);
    assert x - 1 == 2 * (x / 2);
  }

  /** After one turn from an even height above top, or after two. */
  lemma StepEven(a: nat, k: nat, x: nat, t: nat)
    requires k > 0 && x % 2 == 0 && 0 < x < Pow(2, k) && t < Top(a, k)
    ensures var h := Turn(Top(a, k) + x, t);
      Nearer(a, k, x, h) || (h > t && Nearer(a, k, x, Turn(h, t)))
  {
    hide InvertLowestOne, Ones, Top, Bottom, Pow, GetSkipHeight, Turn;
    var top := Top(a, k);
    TopStep(a, k);
    InvertInside(a, k, x);
    OnesInvert(x);
    EvenInvert(x);
    TurnEven(top + x, t);
    if Turn(top + x, t) == top + x - 1 {
      TurnOdd(top + x - 1, t);
      SkipOdd(a, k, x - 1);
      assert x - 1 == 2 * (x / 2 - 1) + 1;
      OnesStep(x / 2 - 1);
      assert x - 2 == 2 * (x / 2 - 1);
      if GetSkipHeight(top + x - 1) >= top { OnesTwoDown(x); }
    }
  }

  // --- The whole walk ---

  /** From above top to below it, and on. */
  lemma {:induction false} Above(a: nat, k: nat, x: nat, t: nat)
    requires x < Pow(2, k) && Bottom(a, k) <= t < Top(a, k)
    ensures Turns(Top(a, k) + x, t) <= 2 * Ones(x) + 1 + k * k
    decreases k, 1, x
  {
    hide InvertLowestOne, Ones, Top, Bottom, Pow, GetSkipHeight, Turn, Turns;
    var h := Top(a, k) + x;
    var g := Turn(h, t);
    TurnsStep(h, t);
    if x == 0 {
      Within(2 * a, k, g, t) by { BottomIs(a, k); }
    } else {
      OddOrSmall(k, x);
      if x % 2 == 1 {
        StepOdd(a, k, x, t);
        On(a, k, x, t, g);
      } else {
        StepEven(a, k, x, t);
        if Nearer(a, k, x, g) {
          On(a, k, x, t, g);
        } else {
          TurnsStep(g, t);
          On(a, k, x, t, Turn(g, t));
        }
      }
    }
  }

  lemma BottomIs(a: nat, k: nat)
    ensures Bottom(a, k) == 2 * a * Pow(2, k) && Top(a, k) == (2 * a + 1) * Pow(2, k)
  {
  }

  lemma OddOrSmall(k: nat, x: nat)
    requires 0 < x < Pow(2, k)
    ensures k > 0 && Ones(x) > 0
  {
    if Ones(x) == 0 { OnesZero(x); }
  }

  lemma {:induction false} OnesZero(x: nat)
    requires Ones(x) == 0
    ensures x == 0
  {
    if x > 0 { OnesZero(x / 2); }
  }

  /** The walk from a height nearer the goal. */
  lemma {:induction false} On(a: nat, k: nat, x: nat, t: nat, g: nat)
    requires x < Pow(2, k) && Bottom(a, k) <= t < Top(a, k) && t <= g && Nearer(a, k, x, g) && Ones(x) > 0
    ensures Turns(g, t) <= 2 * (Ones(x) - 1) + 1 + k * k
    decreases k, 1, x, 0
  {
    hide InvertLowestOne, Ones, Top, Bottom, Pow, GetSkipHeight, Turn, Turns;
    if g < Top(a, k) {
      Within(2 * a, k, g, t) by { BottomIs(a, k); }
    } else {
      Above(a, k, g - Top(a, k), t);
    }
  }

  /** Between two heights that differ in their last k bits only. */
  lemma {:induction false} Within(c: nat, k: nat, h: nat, t: nat)
    requires c * Pow(2, k) <= t <= h < (c + 1) * Pow(2, k)
    ensures Turns(h, t) <= k * k
    decreases k, 0, 0
  {
    hide InvertLowestOne, Ones, Top, Bottom, Pow, GetSkipHeight, Turn, Turns;
    if h == t {
      TurnsStep(h, t);
    } else {
      Halves(c, k, h, t);
      if h < Top(c, k - 1) {
        Within(2 * c, k - 1, h, t);
      } else if t >= Top(c, k - 1) {
        Within(2 * c + 1, k - 1, h, t);
      } else {
        var x := h - Top(c, k - 1);
        Above(c, k - 1, x, t);
        OnesAtMost(x, k - 1);
        assert 2 * (k - 1) + 1 + (k - 1) * (k - 1) == k * k;
      }
      assert (k - 1) * (k - 1) <= k * k;
    }
  }

  lemma Halves(c: nat, k: nat, h: nat, t: nat)
    requires c * Pow(2, k) <= t < h < (c + 1) * Pow(2, k)
    ensures k > 0
    ensures Bottom(c, k - 1) == 2 * c * Pow(2, k - 1) == c * Pow(2, k)
    ensures Top(c, k - 1) == (2 * c + 1) * Pow(2, k - 1)
    ensures (2 * c + 2) * Pow(2, k - 1) == (c + 1) * Pow(2, k) == Top(c, k - 1) + Pow(2, k - 1)
  {
    if k > 0 {
      BottomIs(c, k - 1);
      var p := Pow(2, k - 1);
      assert c * (2 * p) == 2 * c * p;
      assert (c + 1) * (2 * p) == (2 * c + 2) * p == (2 * c + 1) * p + p;
    }
  }

  /** A walk between heights of b bits takes at most b * b turns. */
  lemma WalkIsShort(h: nat, t: nat, b: nat)
    requires t <= h < Pow(2, b)
    ensures Turns(h, t) <= b * b
  {
    Within(0, b, h, t);
  }
}
