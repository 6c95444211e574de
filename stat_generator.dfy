/**
 * The deterministic stat generator: for every level gained, a four-value template chosen by
 * `(seed + lv) % 4` is reordered by one of the 24 permutations of [0,1,2,3], chosen by
 * `(seed ^ (lv * 31)) % 24`, and added to knowledge, judgment, skill and empathy.
 *
 * The permutation index is computed with JavaScript's signed 32-bit `^` and its truncating `%`;
 * both are written out here, and `LevelRoll` returns `None` where the source reads an
 * undefined table row and throws.
 */
module StatGenerator {
  import opened Wrappers

  datatype Stats = Stats(knowledge: int, judgment: int, skill: int, empathy: int)

  const Zero: Stats := Stats(0, 0, 0, 0)

  function Plus(a: Stats, b: Stats): Stats {
    Stats(a.knowledge + b.knowledge, a.judgment + b.judgment, a.skill + b.skill, a.empathy + b.empathy)
  }

  function Total(s: Stats): int {
    s.knowledge + s.judgment + s.skill + s.empathy
  }

  lemma PlusTotal(a: Stats, b: Stats)
    ensures Total(Plus(a, b)) == Total(a) + Total(b)
  {
  }

  lemma PlusZero(a: Stats)
    ensures Plus(a, Zero) == a
  {
  }

  lemma PlusAssociative(a: Stats, b: Stats, c: Stats)
    ensures Plus(Plus(a, b), c) == Plus(a, Plus(b, c))
  {
  }

  // ---------------------------------------------------------------------------------------
  // The tables
  // ---------------------------------------------------------------------------------------

  /** The four allocation templates; each sums to 10 points per level. */
  const Sets: seq<seq<int>> := [[4, 3, 2, 1], [4, 4, 1, 1], [5, 3, 1, 1], [3, 3, 3, 1]]

  function Swap(s: seq<int>, i: nat, j: nat): (r: seq<int>)
    requires i < |s| && j < |s|
    ensures |r| == |s| && r[i] == s[j] && r[j] == s[i]
    ensures forall k :: 0 <= k < |s| && k != i && k != j ==> r[k] == s[k]
  {
    s[i := s[j]][j := s[i]]
  }

  /**
   * The rows the recursive swap procedure appends when called at position `l` on an array
   * holding `s`: one row when `l` is the last position, otherwise, for each `i` from `l` on,
   * the rows of position `l + 1` with elements `l` and `i` swapped.
   */
  function Permutations(s: seq<int>, l: nat): seq<seq<int>>
    requires l < |s|
    decreases |s| - l, 1, 0
  {
    if l == |s| - 1 then [s] else PermutationsUpTo(s, l, |s|)
  }

  /** The rows appended by the first `hi - l` rounds of the loop at position `l`. */
  function PermutationsUpTo(s: seq<int>, l: nat, hi: nat): seq<seq<int>>
    requires l < |s| - 1 && l <= hi <= |s|
    decreases |s| - l, 0, hi
  {
    if hi == l then [] else PermutationsUpTo(s, l, hi - 1) + Permutations(Swap(s, l, hi - 1), l + 1)
  }

  function Factorial(n: nat): nat {
    if n == 0 then 1 else n * Factorial(n - 1)
  }

  /** The swap procedure at position `l` lists (|s| - l)! rows. */
  lemma {:induction false} PermutationsCount(s: seq<int>, l: nat)
    requires l < |s|
    ensures |Permutations(s, l)| == Factorial(|s| - l)
    decreases |s| - l, 1
  {
    if l < |s| - 1 {
      PermutationsUpToCount(s, l, |s|);
      assert Factorial(|s| - l) == (|s| - l) * Factorial(|s| - l - 1);
    }
  }

  lemma {:induction false} PermutationsUpToCount(s: seq<int>, l: nat, hi: nat)
    requires l < |s| - 1 && l <= hi <= |s|
    ensures |PermutationsUpTo(s, l, hi)| == (hi - l) * Factorial(|s| - l - 1)
    decreases |s| - l, 0, hi
  {
    if hi > l {
      var t := Swap(s, l, hi - 1);
      PermutationsUpToCount(s, l, hi - 1);
      PermutationsCount(t, l + 1);
      var f := Factorial(|s| - l - 1);
      assert (hi - l) * f == (hi - 1 - l) * f + f;
    }
  }

  /** `r` rearranges `s` and agrees with it on the first `l` entries. */
  predicate Rearranges(r: seq<int>, s: seq<int>, l: nat) {
    |r| == |s| && l <= |s| && multiset(r) == multiset(s) && r[..l] == s[..l]
  }

  /** Each row the swap procedure lists at position `l` rearranges `s` and keeps its first `l` elements. */
  lemma {:induction false} PermutationsRows(s: seq<int>, l: nat)
    requires l < |s|
    ensures forall r :: r in Permutations(s, l) ==> Rearranges(r, s, l)
    decreases |s| - l, 1
  {
    if l < |s| - 1 {
      PermutationsUpToRows(s, l, |s|);
    }
  }

  lemma {:induction false} PermutationsUpToRows(s: seq<int>, l: nat, hi: nat)
    requires l < |s| - 1 && l <= hi <= |s|
    ensures forall r :: r in PermutationsUpTo(s, l, hi) ==> Rearranges(r, s, l)
    decreases |s| - l, 0, hi
  {
    if hi > l {
      var front, back := PermutationsUpTo(s, l, hi - 1), Permutations(Swap(s, l, hi - 1), l + 1);
      assert PermutationsUpTo(s, l, hi) == front + back;
      PermutationsUpToRows(s, l, hi - 1);
      SwappedRows(s, l, hi - 1);
      RearrangesAppend(front, back, s, l);
    }
  }

  /** The rows listed after swapping entries `l` and `i` still rearrange `s` and keep its first `l` entries. */
  lemma {:induction false} SwappedRows(s: seq<int>, l: nat, i: nat)
    requires l < |s| - 1 && l <= i < |s|
    ensures forall r :: r in Permutations(Swap(s, l, i), l + 1) ==> Rearranges(r, s, l)
    decreases |s| - l, 0, i
  {
    var t := Swap(s, l, i);
    PermutationsRows(t, l + 1);
    SwapMultiset(s, l, i);
    assert Rearranges(t, s, l);
    forall r | r in Permutations(t, l + 1)
      ensures Rearranges(r, s, l)
    {
      RearrangesNarrow(r, t, s, l);
    }
  }

  lemma RearrangesAppend(front: seq<seq<int>>, back: seq<seq<int>>, s: seq<int>, l: nat)
    requires forall r :: r in front ==> Rearranges(r, s, l)
    requires forall r :: r in back ==> Rearranges(r, s, l)
    ensures forall r :: r in front + back ==> Rearranges(r, s, l)
  {
  }

  /** A rearrangement of `t` fixing `l + 1` entries, where `t` rearranges `s` fixing `l`, rearranges `s` fixing `l`. */
  lemma RearrangesNarrow(r: seq<int>, t: seq<int>, s: seq<int>, l: nat)
    requires Rearranges(r, t, l + 1) && Rearranges(t, s, l)
    ensures Rearranges(r, s, l)
  {
    assert r[..l] == r[..l + 1][..l];
    assert t[..l] == t[..l + 1][..l];
  }

  lemma SwapMultiset(s: seq<int>, i: nat, j: nat)
    requires i < |s| && j < |s|
    ensures multiset(Swap(s, i, j)) == multiset(s)
  {
    var r := s[i := s[j]];
    assert multiset(r) == multiset(s) - multiset{s[i]} + multiset{s[j]};
    assert multiset(r[j := s[i]]) == multiset(r) - multiset{r[j]} + multiset{s[i]};
  }

  /**
   * `permute(arr, l)` appends to `res` the rows of `Permutations(arr, l)`, swapping entries of
   * `arr` in place and restoring them before it returns.
   */
  method Permute(arr: array<int>, l: nat, res: seq<seq<int>>) returns (res': seq<seq<int>>)
    requires l < arr.Length
    modifies arr
    ensures arr[..] == old(arr[..])
    ensures res' == res + Permutations(old(arr[..]), l)
    decreases arr.Length - l
  {
    if l == arr.Length - 1 {
      res' := res + [arr[..]];
      return;
    }
    ghost var s := arr[..];
    res' := res;
    var i := l;
    while i < arr.Length
      invariant l <= i <= arr.Length
      invariant arr[..] == s
      invariant res' == res + PermutationsUpTo(s, l, i)
    {
      arr[l], arr[i] := arr[i], arr[l];
      assert arr[..] == Swap(s, l, i);
      res' := Permute(arr, l + 1, res');
      arr[l], arr[i] := arr[i], arr[l];
      assert arr[..] == s;
      i := i + 1;
    }
  }

  /** The table the source builds once at start-up, six rows per leading entry. */
  const PermTable: seq<seq<int>> :=
    [[0, 1, 2, 3], [0, 1, 3, 2], [0, 2, 1, 3], [0, 2, 3, 1], [0, 3, 2, 1], [0, 3, 1, 2]] +
    [[1, 0, 2, 3], [1, 0, 3, 2], [1, 2, 0, 3], [1, 2, 3, 0], [1, 3, 2, 0], [1, 3, 0, 2]] +
    [[2, 1, 0, 3], [2, 1, 3, 0], [2, 0, 1, 3], [2, 0, 3, 1], [2, 3, 0, 1], [2, 3, 1, 0]] +
    [[3, 1, 2, 0], [3, 1, 0, 2], [3, 2, 1, 0], [3, 2, 0, 1], [3, 0, 2, 1], [3, 0, 1, 2]]

  /** On a four-element array, position 2 lists the array and then its last two entries swapped. */
  lemma PermutationsAt2(a: int, b: int, c: int, d: int)
    ensures Permutations([a, b, c, d], 2) == [[a, b, c, d], [a, b, d, c]]
  {
    var s, t := [a, b, c, d], [a, b, d, c];
    assert Swap(s, 2, 2) == s;
    assert Swap(s, 2, 3) == t;
    assert Permutations(s, 3) == [s];
    assert Permutations(t, 3) == [t];
    assert PermutationsUpTo(s, 2, 3) == [s];
    assert PermutationsUpTo(s, 2, 4) == [s] + [t];
  }

  /** Position 1 lists the three choices for the second entry, each with both orders of the rest. */
  lemma PermutationsAt1(a: int, b: int, c: int, d: int)
    ensures Permutations([a, b, c, d], 1) ==
      [[a, b, c, d], [a, b, d, c], [a, c, b, d], [a, c, d, b], [a, d, c, b], [a, d, b, c]]
  {
    var s := [a, b, c, d];
    assert Swap(s, 1, 1) == s;
    assert Swap(s, 1, 2) == [a, c, b, d];
    assert Swap(s, 1, 3) == [a, d, c, b];
    PermutationsAt2(a, b, c, d);
    PermutationsAt2(a, c, b, d);
    PermutationsAt2(a, d, c, b);
    assert PermutationsUpTo(s, 1, 2) == [[a, b, c, d], [a, b, d, c]];
    assert PermutationsUpTo(s, 1, 3) == [[a, b, c, d], [a, b, d, c]] + [[a, c, b, d], [a, c, d, b]];
  }

  /** The swap procedure run on [0, 1, 2, 3] yields exactly `PermTable`, in this order. */
  lemma PermutationsOfBase()
    ensures Permutations([0, 1, 2, 3], 0) == PermTable
  {
    var s := [0, 1, 2, 3];
    assert Swap(s, 0, 0) == s;
    assert Swap(s, 0, 1) == [1, 0, 2, 3];
    assert Swap(s, 0, 2) == [2, 1, 0, 3];
    assert Swap(s, 0, 3) == [3, 1, 2, 0];
    PermutationsAt1(0, 1, 2, 3);
    PermutationsAt1(1, 0, 2, 3);
    PermutationsAt1(2, 1, 0, 3);
    PermutationsAt1(3, 1, 2, 0);
    var p0, p1, p2, p3 := Permutations(s, 1), Permutations([1, 0, 2, 3], 1),
      Permutations([2, 1, 0, 3], 1), Permutations([3, 1, 2, 0], 1);
    assert PermutationsUpTo(s, 0, 1) == p0;
    assert PermutationsUpTo(s, 0, 2) == p0 + p1;
    assert PermutationsUpTo(s, 0, 3) == p0 + p1 + p2;
    assert PermutationsUpTo(s, 0, 4) == p0 + p1 + p2 + p3;
  }

  /** `PERMS`: 24 rows, each a rearrangement of [0, 1, 2, 3]. */
  lemma PermTableRows()
    ensures |PermTable| == 24
    ensures forall r :: r in PermTable ==> |r| == 4 && multiset(r) == multiset{0, 1, 2, 3}
  {
    var base := [0, 1, 2, 3];
    assert multiset(base) == multiset{0, 1, 2, 3};
    BaseRows(base);
    PermutationsOfBase();
    forall r | r in PermTable
      ensures |r| == 4 && multiset(r) == multiset{0, 1, 2, 3}
    {
      assert r in Permutations(base, 0);
    }
  }

  /** On four elements the swap procedure lists 4! rows, each a rearrangement of them. */
  lemma BaseRows(s: seq<int>)
    requires |s| == 4
    ensures |Permutations(s, 0)| == 24
    ensures forall r :: r in Permutations(s, 0) ==> |r| == 4 && multiset(r) == multiset(s)
  {
    PermutationsCount(s, 0);
    PermutationsRows(s, 0);
    assert Factorial(4) == 24;
  }

  /** Builds `PERMS` as the source does: `permute` on a fresh array [0, 1, 2, 3]. */
  method BuildPerms() returns (res: seq<seq<int>>)
    ensures res == PermTable
  {
    var base := new int[4];
    base[0], base[1], base[2], base[3] := 0, 1, 2, 3;
    ghost var start := base[..];
    assert start == [0, 1, 2, 3];
    ghost var rows := Permutations(start, 0);
    res := Permute(base, 0, []);
    assert res == rows;
    PermutationsOfBase();
  }

  // ---------------------------------------------------------------------------------------
  // JavaScript integer operators
  // ---------------------------------------------------------------------------------------

  const TwoTo31: int := 0x8000_0000
  const TwoTo32: int := 0x1_0000_0000

  function Pow2(k: nat): (p: nat)
    ensures p >= 1
  {
    if k == 0 then 1 else 2 * Pow2(k - 1)
  }

  /** Bitwise exclusive or of two naturals, one bit at a time from the lowest. */
  function BitXor(a: nat, b: nat): nat
    decreases a + b
  {
    if a == 0 && b == 0 then 0 else 2 * BitXor(a / 2, b / 2) + (if a % 2 == b % 2 then 0 else 1)
  }

  lemma {:induction false} BitXorBelow(a: nat, b: nat, k: nat)
    requires a < Pow2(k) && b < Pow2(k)
    ensures BitXor(a, b) < Pow2(k)
  {
    if k > 0 && !(a == 0 && b == 0) {
      BitXorBelow(a / 2, b / 2, k - 1);
    }
  }

  lemma {:induction false} Pow2Add(m: nat, n: nat)
    ensures Pow2(m + n) == Pow2(m) * Pow2(n)
  {
    if n > 0 {
      Pow2Add(m, n - 1);
      assert Pow2(m + n) == 2 * Pow2(m + n - 1);
    }
  }

  lemma Pow2Of16()
    ensures Pow2(16) == 0x1_0000
  {
    assert Pow2(4) == 16;
    Pow2Add(4, 4);
    Pow2Add(8, 8);
  }

  lemma Pow2Values()
    ensures Pow2(31) == TwoTo31 && Pow2(32) == TwoTo32
  {
    Pow2Of16();
    Pow2Add(16, 16);
    assert Pow2(32) == 2 * Pow2(31);
  }

  /** XOR with zero is the identity. */
  lemma {:induction false} BitXorZero(b: nat)
    ensures BitXor(0, b) == b
    decreases b
  {
    if b > 0 {
      BitXorZero(b / 2);
    }
  }

  /** A bit above both operands passes through XOR unchanged. */
  lemma {:induction false} BitXorHigh(a: nat, b: nat, k: nat)
    requires a < Pow2(k) && b < Pow2(k)
    ensures BitXor(Pow2(k) + a, b) == Pow2(k) + BitXor(a, b)
  {
    if k > 0 {
      var p := Pow2(k - 1);
      assert (2 * p + a) / 2 == p + a / 2 && (2 * p + a) % 2 == a % 2;
      BitXorHigh(a / 2, b / 2, k - 1);
    }
  }

  /** `ToInt32`: the signed 32-bit integer JavaScript's bitwise operators work on. */
  function ToInt32(x: int): (r: int)
    ensures -TwoTo31 <= r < TwoTo31
    ensures (r - x) % TwoTo32 == 0
  {
    var u := x % TwoTo32;
    if u >= TwoTo31 then u - TwoTo32 else u
  }

  /** A pattern with the top bit clear reads back as itself. */
  lemma ToInt32Low(x: int)
    requires 0 <= x < TwoTo31
    ensures ToInt32(x) == x
  {
    WordAsIs(x);
  }

  /** A pattern with the top bit set reads back as a negative number. */
  lemma ToInt32High(x: int)
    requires TwoTo31 <= x < TwoTo32
    ensures ToInt32(x) == x - TwoTo32
  {
    WordAsIs(x);
  }

  /** `a ^ b` on JavaScript numbers: XOR of the two unsigned 32-bit patterns, read back as signed. */
  function JsXor(a: int, b: int): int {
    ToInt32(BitXor(a % TwoTo32, b % TwoTo32))
  }

  /** `a % n` on JavaScript numbers: the remainder takes the sign of `a`. */
  function JsRem(a: int, n: int): (r: int)
    requires n > 0
    ensures -n < r < n && (a >= 0 ==> r >= 0) && (a <= 0 ==> r <= 0)
  {
    if a >= 0 then a % n else -((-a) % n)
  }

  // ---------------------------------------------------------------------------------------
  // One level's roll and the increments over a range of levels
  // ---------------------------------------------------------------------------------------

  function SetIndex(seed: int, lv: int): int {
    JsRem(seed + lv, 4)
  }

  function PermIndex(seed: int, lv: int): int {
    JsRem(JsXor(seed, lv * 31), 24)
  }

  /** Row `i` of `table`, reached one row at a time. */
  function Row(table: seq<seq<int>>, i: nat): seq<int>
    requires i < |table|
  {
    if i == 0 then table[0] else Row(table[1..], i - 1)
  }

  lemma {:induction false} RowIsIndex(table: seq<seq<int>>, i: nat)
    requires i < |table|
    ensures Row(table, i) == table[i]
  {
    if i > 0 {
      RowIsIndex(table[1..], i - 1);
    }
  }

  /** Every template has four values and every table row indexes four positions. */
  lemma TableShape(t: nat, p: nat)
    requires t < 4 && p < 24
    ensures |Sets[t]| == 4 && |PermTable[p]| == 4
    ensures forall k :: 0 <= k < 4 ==> 0 <= PermTable[p][k] < 4
  {
  }

  /** `SETS[t]` reordered by `PERMS[p]`: the four points one level adds. */
  function Arrange(t: nat, p: nat): Stats
    requires t < 4 && p < 24
  {
    TableShape(t, p);
    RowIsIndex(Sets, t);
    RowIsIndex(PermTable, p);
    var values, perm := Row(Sets, t), Row(PermTable, p);
    Stats(values[perm[0]], values[perm[1]], values[perm[2]], values[perm[3]])
  }

  /**
   * The four points level `lv` adds, or `None` when `SETS[setIdx]` or `PERMS[permIdx]` is
   * undefined and reading from it throws. A negative-zero index (a negative multiple of 24)
   * reads row 0, which the integer 0 models.
   */
  function LevelRoll(seed: int, lv: int): Option<Stats> {
    var setIdx := SetIndex(seed, lv);
    var permIdx := PermIndex(seed, lv);
    if 0 <= setIdx && 0 <= permIdx then
      Some(Arrange(setIdx, permIdx))
    else
      None
  }

  /** A roll is defined exactly when both table indices are non-negative. */
  lemma RollDefinedIff(seed: int, lv: int)
    ensures LevelRoll(seed, lv).Some? <==> 0 <= SetIndex(seed, lv) && 0 <= PermIndex(seed, lv)
  {
  }

  /** The JavaScript remainder by 24 of a negative number is non-negative only when it is zero. */
  lemma JsRem24OfNegative(a: int)
    requires a < 0
    ensures JsRem(a, 24) >= 0 <==> a % 24 == 0
  {
    NegatedMultipleOf24(a);
  }

  /** `a` is a multiple of 24 exactly when `-a` is. */
  lemma NegatedMultipleOf24(a: int)
    ensures (-a) % 24 == 0 <==> a % 24 == 0
  {
    if a % 24 == 0 {
      var q := a / 24;
      assert -a == 24 * -q;
    }
    if (-a) % 24 == 0 {
      var q := (-a) / 24;
      assert a == 24 * -q;
    }
  }

  /** The sum of two partial results; `None` (a throw) as soon as either is `None`. */
  function Combine(a: Option<Stats>, b: Option<Stats>): Option<Stats> {
    if a.Some? && b.Some? then Some(Plus(a.value, b.value)) else None
  }

  /**
   * The rolls of the levels (from, to] summed lowest level first, starting from all zeros;
   * `None` as soon as one level's roll is `None`.
   */
  function Accumulate(roll: int -> Option<Stats>, fromLevel: int, toLevel: int): Option<Stats>
    decreases toLevel - fromLevel
  {
    if toLevel <= fromLevel then Some(Zero) else Combine(Accumulate(roll, fromLevel, toLevel - 1), roll(toLevel))
  }

  function Rolls(seed: int): int -> Option<Stats> {
    lv => LevelRoll(seed, lv)
  }

  /** `computeLevelUpIncrements(seed, from, to)`, or `None` when it throws. */
  function Increments(seed: int, fromLevel: int, toLevel: int): Option<Stats> {
    Accumulate(Rolls(seed), fromLevel, toLevel)
  }

  /** Once a level's roll is `None`, every longer range is `None` as well. */
  lemma {:induction false} AccumulateStaysNone(roll: int -> Option<Stats>, fromLevel: int, k: int, toLevel: int)
    requires k <= toLevel && Accumulate(roll, fromLevel, k).None?
    ensures Accumulate(roll, fromLevel, toLevel).None?
    decreases toLevel - k
  {
    if k < toLevel {
      AccumulateStaysNone(roll, fromLevel, k, toLevel - 1);
    }
  }

  /** When every level's roll is defined, so is the sum over the range. */
  lemma {:induction false} AccumulateDefined(roll: int -> Option<Stats>, fromLevel: int, toLevel: int)
    requires forall lv :: fromLevel < lv <= toLevel ==> roll(lv).Some?
    ensures Accumulate(roll, fromLevel, toLevel).Some?
    decreases toLevel - fromLevel
  {
    if toLevel > fromLevel {
      AccumulateDefined(roll, fromLevel, toLevel - 1);
    }
  }

  /** When every defined roll totals 10 points, the range totals 10 points per level. */
  lemma {:induction false} AccumulateTotal(roll: int -> Option<Stats>, fromLevel: int, toLevel: int)
    requires forall lv :: fromLevel < lv <= toLevel && roll(lv).Some? ==> Total(roll(lv).value) == 10
    requires Accumulate(roll, fromLevel, toLevel).Some?
    ensures Total(Accumulate(roll, fromLevel, toLevel).value) == (if toLevel <= fromLevel then 0 else 10 * (toLevel - fromLevel))
    decreases toLevel - fromLevel
  {
    if toLevel > fromLevel {
      var prev := Accumulate(roll, fromLevel, toLevel - 1);
      assert prev.Some? && roll(toLevel).Some?;
      assert Accumulate(roll, fromLevel, toLevel) == Some(Plus(prev.value, roll(toLevel).value));
      AccumulateTotal(roll, fromLevel, toLevel - 1);
      PlusTotal(prev.value, roll(toLevel).value);
    }
  }

  /** Sums over (a, b] and over (b, c] combine into the sum over (a, c]. */
  lemma {:induction false} AccumulateAdditive(roll: int -> Option<Stats>, a: int, b: int, c: int)
    requires a <= b <= c
    ensures Accumulate(roll, a, c) == Combine(Accumulate(roll, a, b), Accumulate(roll, b, c))
    decreases c - b
  {
    if c == b {
      if Accumulate(roll, a, b).Some? {
        var x := Accumulate(roll, a, b).value;
        assert Plus(x, Zero) == x;
      }
    } else {
      AccumulateAdditive(roll, a, b, c - 1);
      var x, y, z := Accumulate(roll, a, b), Accumulate(roll, b, c - 1), roll(c);
      if x.Some? && y.Some? && z.Some? {
        assert Plus(Plus(x.value, y.value), z.value) == Plus(x.value, Plus(y.value, z.value));
      }
    }
  }

  /** Two roll functions that agree on every level of the range give the same sum. */
  lemma {:induction false} AccumulateAgree(r1: int -> Option<Stats>, r2: int -> Option<Stats>, fromLevel: int, toLevel: int)
    requires forall lv :: fromLevel < lv <= toLevel ==> r1(lv) == r2(lv)
    ensures Accumulate(r1, fromLevel, toLevel) == Accumulate(r2, fromLevel, toLevel)
    decreases toLevel - fromLevel
  {
    if toLevel > fromLevel {
      AccumulateAgree(r1, r2, fromLevel, toLevel - 1);
    }
  }

  /** The source's loop: `inc` accumulates one roll per level in (from, to]. */
  method ComputeLevelUpIncrements(seed: int, fromLevel: int, toLevel: int) returns (inc: Option<Stats>)
    ensures inc == Increments(seed, fromLevel, toLevel)
  {
    var acc := Zero;
    var lv := fromLevel + 1;
    while lv <= toLevel
      invariant lv == fromLevel + 1 || fromLevel + 1 < lv <= toLevel + 1
      invariant Increments(seed, fromLevel, lv - 1) == Some(acc)
    {
      var roll := LevelRoll(seed, lv);
      if roll.None? {
        AccumulateStaysNone(Rolls(seed), fromLevel, lv, toLevel);
        return None;
      }
      acc := Plus(acc, roll.value);
      lv := lv + 1;
    }
    inc := Some(acc);
  }

  /** A template reordered by a row of the table still totals 10, with every entry at least 1. */
  lemma TemplateTotal(v: seq<int>, q: seq<int>)
    requires v in Sets && q in PermTable
    ensures |v| == 4 && |q| == 4 && forall k :: 0 <= k < 4 ==> 0 <= q[k] < 4
    ensures v[q[0]] + v[q[1]] + v[q[2]] + v[q[3]] == 10
    ensures v[q[0]] >= 1 && v[q[1]] >= 1 && v[q[2]] >= 1 && v[q[3]] >= 1
  {
    TableRowSum(v, q);
  }

  /** Every table row reads each of four positions once. */
  lemma TableRowSum(v: seq<int>, q: seq<int>)
    requires |v| == 4 && q in PermTable
    ensures |q| == 4 && forall k :: 0 <= k < 4 ==> 0 <= q[k] < 4
    ensures v[q[0]] + v[q[1]] + v[q[2]] + v[q[3]] == v[0] + v[1] + v[2] + v[3]
  {
  }

  lemma RollTotal(t: nat, p: nat)
    requires t < 4 && p < 24
    ensures var s := Arrange(t, p);
      Total(s) == 10 && s.knowledge >= 1 && s.judgment >= 1 && s.skill >= 1 && s.empathy >= 1
  {
    RowIsIndex(Sets, t);
    RowIsIndex(PermTable, p);
    TemplateTotal(Sets[t], PermTable[p]);
  }

  lemma RollIsTen(seed: int, lv: int)
    requires LevelRoll(seed, lv).Some?
    ensures Total(LevelRoll(seed, lv).value) == 10
  {
    RollTotal(SetIndex(seed, lv), PermIndex(seed, lv));
  }

  /** Every level in (from, to] adds exactly 10 points across the four stats. */
  lemma IncrementsTotal(seed: int, fromLevel: int, toLevel: int)
    requires Increments(seed, fromLevel, toLevel).Some?
    ensures Total(Increments(seed, fromLevel, toLevel).value) == (if toLevel <= fromLevel then 0 else 10 * (toLevel - fromLevel))
  {
    forall lv | fromLevel < lv <= toLevel && Rolls(seed)(lv).Some?
      ensures Total(Rolls(seed)(lv).value) == 10
    {
      RollIsTen(seed, lv);
    }
    AccumulateTotal(Rolls(seed), fromLevel, toLevel);
  }

  /** Increments over (a, b] and over (b, c] add up to the increments over (a, c]. */
  lemma IncrementsAdditive(seed: int, a: int, b: int, c: int)
    requires a <= b <= c
    ensures Increments(seed, a, c) == Combine(Increments(seed, a, b), Increments(seed, b, c))
  {
    AccumulateAdditive(Rolls(seed), a, b, c);
  }

  /** Below 2^31 the XOR of a seed with a small level product stays non-negative. */
  lemma XorBelow2To31(a: int, b: int)
    requires 0 <= a < TwoTo31 && 0 <= b < TwoTo31
    ensures 0 <= JsXor(a, b) < TwoTo31 && JsXor(a, b) == BitXor(a, b)
  {
    Pow2Values();
    BitXorBelow(a, b, 31);
    XorOfWords(a, b);
    ToInt32Low(BitXor(a, b));
  }

  /** The permutation index lies in 0..23 and the roll is defined when seed < 2^31. */
  lemma RollDefinedBelow2To31(seed: int, lv: int)
    requires 0 <= seed < TwoTo31 && 0 <= lv && lv * 31 < TwoTo31
    ensures 0 <= PermIndex(seed, lv) < 24 && LevelRoll(seed, lv).Some?
  {
    XorBelow2To31(seed, lv * 31);
  }

  /** The whole range is defined when seed < 2^31 and the levels are in range. */
  lemma IncrementsDefinedBelow2To31(seed: int, fromLevel: int, toLevel: int)
    requires 0 <= seed < TwoTo31 && 0 <= fromLevel && toLevel * 31 < TwoTo31
    ensures Increments(seed, fromLevel, toLevel).Some?
  {
    forall lv | fromLevel < lv <= toLevel
      ensures Rolls(seed)(lv).Some?
    {
      RollDefinedBelow2To31(seed, lv);
    }
    AccumulateDefined(Rolls(seed), fromLevel, toLevel);
  }

  /**
   * For a seed of 2^31 or more the signed XOR is negative, so the roll is defined only when
   * the XOR is a multiple of 24 (read as row 0 through a negative zero).
   */
  lemma RollAtOrAbove2To31(seed: int, lv: int)
    requires TwoTo31 <= seed < TwoTo32 && 0 <= lv && lv * 31 < TwoTo31
    ensures JsXor(seed, lv * 31) < 0
    ensures LevelRoll(seed, lv).Some? <==> JsXor(seed, lv * 31) % 24 == 0
  {
    XorWithHighWord(seed, lv * 31);
    JsRem24OfNegative(JsXor(seed, lv * 31));
    assert SetIndex(seed, lv) >= 0;
    RollDefinedIff(seed, lv);
  }

  /** Both operands are already 32-bit patterns, so the signed XOR reads their XOR. */
  lemma XorOfWords(a: int, b: int)
    requires 0 <= a < TwoTo32 && 0 <= b < TwoTo32
    ensures BitXor(a % TwoTo32, b % TwoTo32) == BitXor(a, b)
    ensures JsXor(a, b) == ToInt32(BitXor(a, b))
  {
    WordAsIs(a);
    WordAsIs(b);
  }

  /** A 32-bit pattern is its own remainder modulo 2^32. */
  lemma WordAsIs(a: int)
    requires 0 <= a < TwoTo32
    ensures a % TwoTo32 == a
  {
  }

  /** XOR with a top-bit-set word keeps the top bit, so the signed result is negative. */
  lemma XorWithHighWord(a: int, b: int)
    requires TwoTo31 <= a < TwoTo32 && 0 <= b < TwoTo31
    ensures JsXor(a, b) == BitXor(a, b) - TwoTo32 < 0
  {
    Pow2Values();
    BitXorHigh(a - TwoTo31, b, 31);
    BitXorBelow(a - TwoTo31, b, 31);
    XorOfWords(a, b);
    ToInt32High(BitXor(a, b));
  }

  /** The signed XOR of 2^31 with 62 (level 2 times 31). */
  lemma BitXorPow2Plus(k: nat, b: nat)
    requires b < Pow2(k)
    ensures BitXor(Pow2(k), b) == Pow2(k) + b
  {
    BitXorHigh(0, b, k);
    BitXorZero(b);
  }

  lemma XorOf2To31And62()
    ensures JsXor(TwoTo31, 62) == -2147483586
  {
    Pow2Values();
    BitXorPow2Plus(31, 62);
    assert BitXor(TwoTo31 % TwoTo32, 62 % TwoTo32) == TwoTo31 + 62;
    ToInt32High(TwoTo31 + 62);
  }

  /** A concrete case: seed 2^31 going from level 1 to level 2 makes the source throw. */
  lemma LevelUpThrowsForSeed2To31()
    ensures PermIndex(TwoTo31, 2) == -18
    ensures Increments(TwoTo31, 1, 2) == None
  {
    XorOf2To31And62();
    assert PermIndex(TwoTo31, 2) == JsRem(-2147483586, 24) == -18;
    assert LevelRoll(TwoTo31, 2) == None;
  }

  // ---------------------------------------------------------------------------------------
  // The evidently intended generator: an unsigned permutation index
  // ---------------------------------------------------------------------------------------

  /** `((seed ^ (lv * 31)) >>> 0) % 24`: the index the table lookup was meant to get. */
  function UnsignedPermIndex(seed: int, lv: int): (r: int)
    ensures 0 <= r < 24
  {
    BitXor(seed % TwoTo32, (lv * 31) % TwoTo32) % 24
  }

  function FixedRoll(seed: int, lv: int): Stats {
    Arrange((seed + lv) % 4, UnsignedPermIndex(seed, lv))
  }

  /**
   * The generator with the unsigned index: the same sum of one roll per level in
   * (fromLevel, toLevel], but no level can throw, so the result is a plain `Stats`.
   */
  function FixedIncrements(seed: int, fromLevel: int, toLevel: int): Stats
    decreases toLevel - fromLevel
  {
    if toLevel <= fromLevel then Zero else Plus(FixedIncrements(seed, fromLevel, toLevel - 1), FixedRoll(seed, toLevel))
  }

  /** With the unsigned index every level gained adds exactly 10 points. */
  lemma {:induction false} FixedIncrementsTotal(seed: int, fromLevel: int, toLevel: int)
    ensures Total(FixedIncrements(seed, fromLevel, toLevel)) == (if toLevel <= fromLevel then 0 else 10 * (toLevel - fromLevel))
    decreases toLevel - fromLevel
  {
    if toLevel > fromLevel {
      FixedIncrementsTotal(seed, fromLevel, toLevel - 1);
      RollTotal((seed + toLevel) % 4, UnsignedPermIndex(seed, toLevel));
      PlusTotal(FixedIncrements(seed, fromLevel, toLevel - 1), FixedRoll(seed, toLevel));
    }
  }

  /** The corrected increments over (a, b] and (b, c] add up to those over (a, c]. */
  lemma {:induction false} FixedIncrementsAdditive(seed: int, a: int, b: int, c: int)
    requires a <= b <= c
    ensures FixedIncrements(seed, a, c) == Plus(FixedIncrements(seed, a, b), FixedIncrements(seed, b, c))
    decreases c - b
  {
    if c == b {
      PlusZero(FixedIncrements(seed, a, b));
    } else {
      FixedIncrementsAdditive(seed, a, b, c - 1);
      PlusAssociative(FixedIncrements(seed, a, b), FixedIncrements(seed, b, c - 1), FixedRoll(seed, c));
    }
  }

  /** Below 2^31 the signed and the unsigned index pick the same row for every level. */
  lemma RollAgreesBelow2To31(seed: int, lv: int)
    requires 0 <= seed < TwoTo31 && 0 <= lv && lv * 31 < TwoTo31
    ensures LevelRoll(seed, lv) == Some(FixedRoll(seed, lv))
  {
    XorBelow2To31(seed, lv * 31);
    XorOfWords(seed, lv * 31);
    assert PermIndex(seed, lv) == UnsignedPermIndex(seed, lv);
    assert SetIndex(seed, lv) == (seed + lv) % 4;
  }

  /** Where the source's generator runs on seeds below 2^31, the two agree. */
  lemma {:induction false} FixedAgreesBelow2To31(seed: int, fromLevel: int, toLevel: int)
    requires 0 <= seed < TwoTo31 && 0 <= fromLevel && toLevel * 31 < TwoTo31
    ensures Increments(seed, fromLevel, toLevel) == Some(FixedIncrements(seed, fromLevel, toLevel))
    decreases toLevel - fromLevel
  {
    if toLevel > fromLevel {
      FixedAgreesBelow2To31(seed, fromLevel, toLevel - 1);
      RollAgreesBelow2To31(seed, toLevel);
    }
  }
}
