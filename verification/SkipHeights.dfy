/**
 The heights skip pointers lead to, and how many steps the walk to an ancestor takes with them: at most
 b(b + 1) / 2 from a height below 2^b.
 */
module SkipHeights {
  import opened Powers

  // ----- skip heights

  function And(x: nat, y: nat): nat {
    if x == 0 || y == 0 then 0
    else (if x % 2 == 1 && y % 2 == 1 then 1 else 0) + 2 * And(x / 2, y / 2)
  }

  lemma {:induction false} AndAtMost(x: nat, y: nat)
    ensures And(x, y) <= y
  {
    if x != 0 && y != 0 {
      AndAtMost(x / 2, y / 2);
    }
  }

  /** Clears the lowest set bit. */
  function InvertLowestOne(n: nat): nat {
    if n == 0 then 0 else And(n, n - 1)
  }

  function GetSkipHeight(height: nat): (h: nat)
    ensures height > 0 ==> h < height
  {
    if height < 2 then 0
    else if height % 2 == 1 then
      AndAtMost(height - 1, height - 2);
      SkipTwice(height - 1);
      InvertLowestOne(InvertLowestOne(height - 1)) + 1
    else
      AndAtMost(height, height - 1);
      InvertLowestOne(height)
  }

  lemma SkipTwice(n: nat)
    requires n > 0
    ensures InvertLowestOne(InvertLowestOne(n)) < n
  {
    AndAtMost(n, n - 1);
    var m := InvertLowestOne(n);
    if m > 0 {
      AndAtMost(m, m - 1);
    }
  }

  // ----- the way to an ancestor

  /** Where the loop of GetAncestor goes from a height, if the skip pointer is set. */
  function Next(walk: nat, target: nat): (n: nat)
    requires target < walk
    ensures target <= n < walk
  {
    var skip, skipPrev := GetSkipHeight(walk), GetSkipHeight(walk - 1);
    if skip == target || (skip > target && !(skipPrev < skip - 2 && skipPrev >= target)) then skip else walk - 1
  }

  function Steps(walk: nat, target: nat): nat
    requires target <= walk
  {
    if walk == target then 0 else 1 + Steps(Next(walk, target), target)
  }

  // ----- the lowest set bit

  lemma {:induction false} AndSelf(n: nat)
    ensures And(n, n) == n
  {
    if n != 0 {
      AndSelf(n / 2);
    }
  }

  lemma LowestOdd(n: nat)
    ensures InvertLowestOne(2 * n + 1) == 2 * n
  {
    AndSelf(n);
  }

  lemma LowestEven(n: nat)
    ensures InvertLowestOne(2 * n) == 2 * InvertLowestOne(n)
  {}

  lemma LowestZero()
    ensures InvertLowestOne(0) == 0
  {}

  /** The number of set bits. */
  function Ones(n: nat): nat {
    if n == 0 then 0 else n % 2 + Ones(n / 2)
  }

  lemma {:induction false} OnesLowest(n: nat)
    requires n > 0
    ensures Ones(n) > 0 && InvertLowestOne(n) < n && Ones(InvertLowestOne(n)) == Ones(n) - 1
  {
    hide InvertLowestOne;
    if n % 2 == 1 {
      LowestOdd(n / 2);
    } else {
      LowestEven(n / 2);
      OnesLowest(n / 2);
    }
  }

  lemma {:induction false} OnesBelow(n: nat, c: nat)
    requires n < Pow2(c)
    ensures Ones(n) <= c
  {
    if n > 0 {
      OnesBelow(n / 2, c - 1);
    }
  }

  /** Low bits below 2^c, or the lowest bit of what stands above them. */
  lemma {:induction false} LowestShifted(q: nat, c: nat, x: nat)
    requires x < Pow2(c)
    ensures InvertLowestOne(q * Pow2(c) + x) ==
            if x > 0 then q * Pow2(c) + InvertLowestOne(x) else InvertLowestOne(q) * Pow2(c)
  {
    hide InvertLowestOne;
    if c > 0 {
      var p := Pow2(c - 1);
      Doubles(q, p);
      Doubles(InvertLowestOne(q), p);
      LowestShifted(q, c - 1, x / 2);
      LowestHalf(q * p, x);
    } else {
      PowerZero(q);
      PowerZero(InvertLowestOne(q));
    }
  }

  lemma Doubles(a: nat, p: nat)
    ensures a * (2 * p) == 2 * (a * p) && a * p >= 0
  {
    MulMono(0, a, p);
  }

  lemma LowestHalf(a: nat, x: nat)
    ensures InvertLowestOne(2 * a + x) ==
            if x % 2 == 1 then 2 * a + x - 1 else 2 * InvertLowestOne(a + x / 2)
    ensures InvertLowestOne(x) == if x % 2 == 1 then x - 1 else 2 * InvertLowestOne(x / 2)
  {
    hide InvertLowestOne;
    if x % 2 == 1 {
      LowestOdd(a + x / 2);
      LowestOdd(x / 2);
      assert 2 * (a + x / 2) + 1 == 2 * a + x;
    } else {
      LowestEven(a + x / 2);
      LowestEven(x / 2);
      assert 2 * (a + x / 2) == 2 * a + x;
    }
  }

  // ----- the walk

  lemma SkipParity(w: nat)
    requires w >= 2
    ensures GetSkipHeight(w) ==
            if w % 2 == 1 then InvertLowestOne(InvertLowestOne(w - 1)) + 1 else InvertLowestOne(w)
  {}

  lemma OneStep(walk: nat, target: nat)
    requires target < walk
    ensures Steps(walk, target) == 1 + Steps(Next(walk, target), target)
    ensures Steps(target, target) == 0
  {
    hide Next;
  }

  /** From an odd height the skip is taken whenever it does not pass the target. */
  lemma FromOdd(w: nat, target: nat)
    requires w >= 3 && w % 2 == 1 && target < w
    ensures var skip := InvertLowestOne(InvertLowestOne(w - 1)) + 1;
      Next(w, target) == if skip >= target then skip else w - 1
  {
    hide InvertLowestOne;
    hide GetSkipHeight;
    SkipParity(w);
    SkipParity(w - 1);
    var low := InvertLowestOne(w - 1);
    if low > 0 {
      OnesLowest(low);
    } else {
      LowestZero();
    }
  }

  /** From an even height it is, unless the parent's skip is better; then that one is taken next. */
  lemma FromEven(w: nat, target: nat)
    requires w >= 4 && w % 2 == 0 && target < InvertLowestOne(w) && target < w
    ensures var skip, other := InvertLowestOne(w), InvertLowestOne(InvertLowestOne(w - 2)) + 1;
      Next(w, target) == if other < skip - 2 && other >= target then w - 1 else skip
  {
    hide InvertLowestOne;
    hide GetSkipHeight;
    SkipParity(w);
    SkipParity(w - 1);
  }

  // ----- leaving the upper half of a block of heights

  /** The middle `m` of a block of 2^(c + 1) heights that starts at `p`. */
  ghost predicate Mid(p: nat, m: nat, c: nat) {
    && c >= 1 && m == p + Pow2(c) && m >= 2 && m % 2 == 0 && InvertLowestOne(m) == p
    && forall x :: 0 < x < Pow2(c) ==> InvertLowestOne(m + x) == m + InvertLowestOne(x)
  }

  lemma MidArith(r: nat, low: nat, p: nat, half: nat)
    requires half >= 1 && p == 2 * half && low == 2 * r
    ensures (2 * r + 1) * p == 2 * ((2 * r + 1) * half) && (2 * r + 1) * half >= 1
    ensures (2 * r + 1) * p == 2 * r * p + p && low * p == 2 * r * p >= 0
  {
    MulMono(1, 2 * r + 1, half);
    Distribute(2 * r, 1, p);
    MulMono(0, 2 * r, p);
  }

  lemma PowerHalf(c: nat)
    requires c >= 1
    ensures Pow2(c) == 2 * Pow2(c - 1)
  {}

  lemma MidIf(p: nat, m: nat, c: nat)
    requires c >= 1 && m == p + Pow2(c) && m >= 2 && m % 2 == 0 && InvertLowestOne(m) == p
    requires forall x :: 0 < x < Pow2(c) ==> InvertLowestOne(m + x) == m + InvertLowestOne(x)
    ensures Mid(p, m, c)
  {}

  lemma OddMultiple(r: nat, c: nat)
    requires c >= 1
    ensures 2 * r * Pow2(c) >= 0 && Mid(2 * r * Pow2(c), (2 * r + 1) * Pow2(c), c)
  {
    hide *;
    var q := 2 * r + 1;
    LowestOdd(r);
    PowerHalf(c);
    MidArith(r, InvertLowestOne(q), Pow2(c), Pow2(c - 1));
    LowestShifted(q, c, 0);
    forall x | 0 < x < Pow2(c)
      ensures InvertLowestOne(q * Pow2(c) + x) == q * Pow2(c) + InvertLowestOne(x)
    {
      LowestShifted(q, c, x);
    }
    MidIf(2 * r * Pow2(c), q * Pow2(c), c);
  }

  /** No height from the target up to the middle is more than `bound` steps away. */
  ghost predicate Near(m: nat, target: nat, bound: nat) {
    target < m && forall v :: target <= v < m ==> Steps(v, target) <= bound
  }

  /** Steps that lead from x above the middle to below it. */
  function Exit(x: nat): nat {
    if x % 2 == 1 then Ones(x - 1) + 2 else if Ones(x) <= 1 then Ones(x) + 1 else Ones(x) + 2
  }

  ghost predicate Exits(m: nat, x: nat, target: nat, bound: nat) {
    target < m ==> Steps(m + x, target) <= bound + Exit(x)
  }

  lemma MidFacts(p: nat, m: nat, c: nat)
    requires Mid(p, m, c)
    ensures m % 2 == 0 && p + 2 <= m && InvertLowestOne(m) == p
  {
    SmallPower(c);
  }

  lemma MidAbove(p: nat, m: nat, c: nat, x: nat)
    requires Mid(p, m, c) && 0 < x < Pow2(c)
    ensures InvertLowestOne(m + x) == m + InvertLowestOne(x)
  {}

  lemma NearAt(m: nat, target: nat, bound: nat, v: nat)
    requires Near(m, target, bound) && target <= v < m
    ensures Steps(v, target) <= bound
  {
    hide Steps;
  }

  lemma SmallPower(c: nat)
    requires c >= 1
    ensures Pow2(c) >= 2
  {}

  lemma ExitsAt(m: nat, y: nat, x: nat, target: nat, bound: nat)
    requires y < x && target < m && forall y: nat :: y < x ==> Exits(m, y, target, bound)
    ensures Steps(m + y, target) <= bound + Exit(y)
  {
    hide Steps;
    assert Exits(m, y, target, bound);
  }

  lemma NearBelow(m: nat, target: nat, bound: nat)
    requires Near(m, target, bound)
    ensures target < m
  {}

  lemma ExitMiddle(p: nat, m: nat, c: nat, target: nat, bound: nat)
    requires Mid(p, m, c) && p <= target && Near(m, target, bound)
    ensures Exits(m, 0, target, bound)
  {
    hide InvertLowestOne;
    hide GetSkipHeight;
    hide Steps;
    SkipParity(m);
    OneStep(m, target);
  }

  lemma ExitNext(p: nat, m: nat, c: nat, target: nat, bound: nat)
    requires Mid(p, m, c) && p <= target && Near(m, target, bound)
    ensures Exits(m, 1, target, bound)
  {
    hide InvertLowestOne;
    hide GetSkipHeight;
    hide Steps;
    ExitMiddle(p, m, c, target, bound);
    FromOdd(m + 1, target);
    OneStep(m + 1, target);
    if p > 0 {
      OnesLowest(p);
    } else {
      LowestZero();
    }
  }

  lemma NoOnes()
    ensures Ones(0) == 0
  {}

  lemma EvenLowest(n: nat)
    requires n % 2 == 0
    ensures InvertLowestOne(n) % 2 == 0
  {
    LowestEven(n / 2);
  }

  /** What clearing two bits of x above the middle leaves: something smaller above it, or the start of
      the block. */
  lemma ClearTwo(p: nat, m: nat, c: nat, x: nat)
    requires Mid(p, m, c) && 0 < x < Pow2(c) && x % 2 == 0
    ensures var r, y := InvertLowestOne(InvertLowestOne(m + x)), InvertLowestOne(InvertLowestOne(x));
      && Ones(x) >= 1
      && r == (if Ones(x) == 1 then p else m + y)
      && (Ones(x) > 1 ==> y < x && y % 2 == 0 && Ones(y) == Ones(x) - 2)
  {
    hide InvertLowestOne;
    hide Ones;
    var l := InvertLowestOne(x);
    OnesLowest(x);
    EvenLowest(x);
    NoOnes();
    if l > 0 {
      OnesLowest(l);
      EvenLowest(l);
    }
  }

  /** From an odd x above the middle, once smaller ones are known. */
  lemma ExitOdd(p: nat, m: nat, c: nat, x: nat, target: nat, bound: nat)
    requires Mid(p, m, c) && p <= target && Near(m, target, bound) && 3 <= x < Pow2(c) && x % 2 == 1
    requires forall y: nat :: y < x ==> Exits(m, y, target, bound)
    ensures Exits(m, x, target, bound)
  {
    hide *;
    MidFacts(p, m, c);
    NearBelow(m, target, bound);
    FromOdd(m + x, target);
    OneStep(m + x, target);
    ClearTwo(p, m, c, x - 1);
    ExitOf(x);
    ExitOf(x - 1);
    var y := InvertLowestOne(InvertLowestOne(x - 1));
    if Next(m + x, target) == m + x - 1 {
      ExitsAt(m, x - 1, x, target, bound);
    } else if Ones(x - 1) == 1 {
      NearAt(m, target, bound, p + 1);
    } else {
      ExitOf(y + 1);
      ExitsAt(m, y + 1, x, target, bound);
    }
    ExitsIf(m, x, target, bound);
  }

  lemma ExitOf(x: nat)
    ensures Exit(x) == if x % 2 == 1 then Ones(x - 1) + 2 else if Ones(x) <= 1 then Ones(x) + 1 else Ones(x) + 2
  {
    hide Ones;
  }

  lemma ExitsIf(m: nat, x: nat, target: nat, bound: nat)
    ensures target < m && Steps(m + x, target) <= bound + Exit(x) ==> Exits(m, x, target, bound)
  {
    hide Steps;
  }

  lemma OnesDouble(n: nat)
    ensures Ones(2 * n) == Ones(n) && Ones(2 * n + 1) == Ones(n) + 1
  {}

  lemma BelowEight(k: nat)
    requires k > 0
    ensures InvertLowestOne(8 * k) <= InvertLowestOne(InvertLowestOne(8 * k - 2))
  {
    hide InvertLowestOne;
    LowestEven(4 * k);
    LowestEven(2 * k);
    LowestEven(k);
    OnesLowest(k);
    assert InvertLowestOne(8 * k - 2) == 8 * k - 4 by {
      LowestEven(4 * k - 1);
      LowestOdd(2 * k - 1);
    }
    assert InvertLowestOne(8 * k - 4) == 8 * k - 8 by {
      LowestEven(4 * k - 2);
      LowestEven(2 * k - 1);
      LowestOdd(k - 1);
    }
  }

  lemma BelowFour(k: nat)
    ensures Ones(8 * k + 2) == Ones(8 * k + 4)
  {
    hide Ones;
    OnesDouble(4 * k + 1);
    OnesDouble(4 * k + 2);
    OnesDouble(2 * k);
    OnesDouble(2 * k + 1);
    OnesDouble(k);
  }

  lemma BelowTwo(k: nat)
    requires k > 0
    ensures Ones(4 * k) == Ones(4 * k + 2) - 1 && Ones(4 * k) >= 1
  {
    hide Ones;
    OnesDouble(2 * k);
    OnesDouble(2 * k + 1);
    OnesDouble(k);
    OnesLowest(k);
  }

  /** Two below an even number there are no more set bits, unless it is a multiple of eight; then
      clearing two of them does not pass its own lowest one. */
  lemma TwoBelow(x: nat)
    requires x > 2 && x % 2 == 0
    ensures if x % 8 == 0 then InvertLowestOne(x) <= InvertLowestOne(InvertLowestOne(x - 2))
            else Ones(x - 2) <= Ones(x) && (Ones(x) == 1 ==> Ones(x - 2) == 1)
  {
    hide *;
    var k := Eights(x);
    if x == 8 * k {
      BelowEight(k);
    } else if x == 8 * k + 4 {
      BelowFour(k);
    } else if x == 8 * k + 2 {
      BelowTwo(2 * k);
    } else {
      BelowTwo(2 * k + 1);
    }
  }

  lemma Eights(x: nat) returns (k: nat)
    requires x % 2 == 0
    ensures x == 8 * k || x == 8 * k + 2 || x == 8 * k + 4 || x == 8 * k + 6
    ensures x % 8 == 0 <==> x == 8 * k
  {
    k := x / 8;
  }

  /** From an even x, likewise. */
  lemma ExitEven(p: nat, m: nat, c: nat, x: nat, target: nat, bound: nat)
    requires Mid(p, m, c) && p <= target && Near(m, target, bound) && 2 <= x < Pow2(c) && x % 2 == 0
    requires forall y: nat :: y < x ==> Exits(m, y, target, bound)
    ensures Exits(m, x, target, bound)
  {
    hide *;
    var w, l := m + x, InvertLowestOne(x);
    MidFacts(p, m, c);
    MidAbove(p, m, c, x);
    NearBelow(m, target, bound);
    OnesLowest(x);
    EvenLowest(x);
    NoOnes();
    FromEven(w, target);
    OneStep(w, target);
    ExitOf(x);
    ExitOf(l);
    if Next(w, target) == m + l {
      ExitsAt(m, l, x, target, bound);
    } else {
      FromOdd(w - 1, target);
      OneStep(w - 1, target);
      ExitByParent(p, m, c, x, target, bound);
    }
    ExitsIf(m, x, target, bound);
  }

  /** The parent's skip, where it is better, leads out or to fewer set bits. */
  lemma ExitByParent(p: nat, m: nat, c: nat, x: nat, target: nat, bound: nat)
    requires Mid(p, m, c) && p <= target && Near(m, target, bound) && 2 <= x < Pow2(c) && x % 2 == 0
    requires forall y: nat :: y < x ==> Exits(m, y, target, bound)
    requires var other := InvertLowestOne(InvertLowestOne(m + x - 2)) + 1;
      target <= other < m + InvertLowestOne(x) - 2
    ensures 2 + Steps(InvertLowestOne(InvertLowestOne(m + x - 2)) + 1, target) <= bound + Exit(x)
  {
    hide *;
    MidFacts(p, m, c);
    NearBelow(m, target, bound);
    OnesLowest(x);
    ExitOf(x);
    if x == 2 {
      if p > 0 {
        OnesLowest(p);
      } else {
        LowestZero();
      }
      NearAt(m, target, bound, InvertLowestOne(p) + 1);
    } else {
      ClearTwo(p, m, c, x - 2);
      TwoBelow(x);
      var y := InvertLowestOne(InvertLowestOne(x - 2));
      if Ones(x - 2) > 1 {
        ExitOf(y + 1);
        ExitsAt(m, y + 1, x, target, bound);
      } else {
        NearAt(m, target, bound, p + 1);
      }
    }
  }

  lemma {:induction false} ExitAny(p: nat, m: nat, c: nat, x: nat, target: nat, bound: nat)
    requires Mid(p, m, c) && p <= target && Near(m, target, bound) && x < Pow2(c)
    ensures Exits(m, x, target, bound)
    decreases x
  {
    hide *;
    forall y: nat | y < x ensures Exits(m, y, target, bound) {
      ExitAny(p, m, c, y, target, bound);
    }
    if x == 0 {
      ExitMiddle(p, m, c, target, bound);
    } else if x == 1 {
      ExitNext(p, m, c, target, bound);
    } else if x % 2 == 1 {
      ExitOdd(p, m, c, x, target, bound);
    } else {
      ExitEven(p, m, c, x, target, bound);
    }
  }

  lemma ExitAtMost(x: nat, c: nat)
    requires c >= 1 && x < Pow2(c)
    ensures Exit(x) <= c + 1
  {
    hide Ones;
    OnesBelow(x / 2, c - 1);
    OnesDouble(x / 2);
  }

  // ----- the bound

  function Budget(b: nat): nat {
    if b == 0 then 0 else Budget(b - 1) + b
  }

  lemma {:induction false} BudgetIs(b: nat)
    ensures 2 * Budget(b) == b * (b + 1)
  {
    if b > 0 {
      BudgetIs(b - 1);
    }
  }

  lemma HalfBlocks(r: nat, b: nat)
    requires b >= 1
    ensures r * Pow2(b) == 2 * r * Pow2(b - 1) && (2 * r + 1) * Pow2(b - 1) == r * Pow2(b) + Pow2(b - 1)
    ensures Pow2(b) == Pow2(b - 1) + Pow2(b - 1)
  {
    MulAssoc(r, 2, Pow2(b - 1));
    Distribute(2 * r, 1, Pow2(b - 1));
  }

  /** Within a block of 2^b heights that starts at a multiple of 2^b. */
  lemma {:induction false} BlockSteps(b: nat, r: nat, walk: nat, target: nat)
    requires r * Pow2(b) <= target <= walk < r * Pow2(b) + Pow2(b)
    ensures Steps(walk, target) <= Budget(b)
    decreases b
  {
    hide *;
    if b == 0 {
      PowerZero(r);
      NoSteps(target);
    } else {
      HalfBlocks(r, b);
      BudgetNext(b);
      var c, m := b - 1, (2 * r + 1) * Pow2(b - 1);
      if walk < m {
        BlockSteps(c, 2 * r, walk, target);
      } else if target >= m {
        BlockSteps(c, 2 * r + 1, walk, target);
      } else {
        forall v | target <= v < m ensures Steps(v, target) <= Budget(c) {
          BlockSteps(c, 2 * r, v, target);
        }
        NearIf(m, target, Budget(c));
        Across(r * Pow2(b), m, c, walk, target, Budget(c), r);
      }
    }
  }

  lemma PowerZero(r: nat)
    ensures Pow2(0) == 1 && r * Pow2(0) == r
  {}

  lemma NoSteps(target: nat)
    ensures Steps(target, target) == 0
  {}

  lemma BudgetNext(b: nat)
    requires b >= 1
    ensures Budget(b) == Budget(b - 1) + b
  {}

  lemma NearIf(m: nat, target: nat, bound: nat)
    requires target < m && forall v :: target <= v < m ==> Steps(v, target) <= bound
    ensures Near(m, target, bound)
  {
    hide Steps;
  }

  /** From the upper half to the lower one. */
  lemma Across(p: nat, m: nat, c: nat, walk: nat, target: nat, bound: nat, r: nat)
    requires p == 2 * r * Pow2(c) && m == (2 * r + 1) * Pow2(c) && Near(m, target, bound)
    requires p <= target < m <= walk < m + Pow2(c) && m == p + Pow2(c)
    ensures Steps(walk, target) <= bound + c + 1
  {
    hide *;
    if c == 0 {
      PowerZero(0);
      OneStep(walk, target);
      NoSteps(target);
    } else {
      OddMultiple(r, c);
      ExitAny(p, m, c, walk - m, target, bound);
      ExitAtMost(walk - m, c);
      ExitsGives(m, walk - m, target, bound);
    }
  }

  lemma ExitsGives(m: nat, x: nat, target: nat, bound: nat)
    requires Exits(m, x, target, bound) && target < m
    ensures Steps(m + x, target) <= bound + Exit(x)
  {
    hide Steps;
  }

  /** From a height below 2^b any lower height is at most b(b + 1) / 2 steps away. */
  lemma StepsAtMost(walk: nat, target: nat, b: nat)
    requires target <= walk < Pow2(b)
    ensures 2 * Steps(walk, target) <= b * (b + 1)
  {
    BlockSteps(b, 0, walk, target);
    BudgetIs(b);
  }

  /** At most b(b + 1) / 2 steps from a height below 2^b. */
  ghost predicate FewSteps(height: nat, steps: nat) {
    forall b :: 0 <= b && height < Pow2(b) ==> 2 * steps <= b * (b + 1)
  }

  lemma StepsAreFew(walk: nat, target: nat)
    requires target <= walk
    ensures FewSteps(walk, Steps(walk, target))
  {
    hide Steps;
    forall b | 0 <= b && walk < Pow2(b) ensures 2 * Steps(walk, target) <= b * (b + 1) {
      StepsAtMost(walk, target, b);
    }
  }

  lemma NoStepsAreFew(height: nat)
    ensures FewSteps(height, 0)
  {
    forall b | 0 <= b && height < Pow2(b) ensures 0 <= b * (b + 1) {
      MulMono(0, b, b + 1);
    }
  }
}
