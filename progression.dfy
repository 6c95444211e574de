/**
 * Levels, titles and the per-user seed.
 *
 * A level spans 80 XP; a title is attached to every even level from 2 to 100; the seed that
 * drives the stat generator is the 32-bit FNV-1a hash of the user id's UTF-16 code units.
 */
module Progression {

  const LevelSize: int := 80

  /** `computeLevel(totalXp)`: the level whose 80-XP band (`LevelSize`) contains `totalXp`. */
  function ComputeLevel(totalXp: int): (level: int)
    ensures (level - 1) * 80 <= totalXp < level * 80
    ensures totalXp >= 0 ==> level >= 1
  {
    totalXp / 80 + 1
  }

  /** More XP never means a lower level. */
  lemma ComputeLevelMonotone(a: int, b: int)
    requires a <= b
    ensures ComputeLevel(a) <= ComputeLevel(b)
  {
  }

  /** Each level is reached exactly at a multiple of 80. */
  lemma ComputeLevelAtBoundary(k: nat)
    ensures ComputeLevel(k * LevelSize) == k + 1
    ensures k > 0 ==> ComputeLevel(k * LevelSize - 1) == k
  {
  }

  /**
   * `xpToNext` on the home screen: the XP still missing to the next level, between 1 and 80.
   * Gaining exactly that much raises the level by one; one point less does not.
   */
  function XpToNext(totalXp: nat): (r: int)
    ensures 1 <= r <= LevelSize
    ensures ComputeLevel(totalXp + r) == ComputeLevel(totalXp) + 1
    ensures ComputeLevel(totalXp + r - 1) == ComputeLevel(totalXp)
  {
    LevelSize - totalXp % LevelSize
  }

  // ---------------------------------------------------------------------------------------
  // Titles
  // ---------------------------------------------------------------------------------------

  /** The title names, in table order; the i-th belongs to level 2·(i+1). */
  const TitleNames: seq<string> := [
    "見習い医師", "町医者", "若手臨床家", "当直番長", "診断の探求者",
    "カルテの達人", "処方の匠", "救急の番人", "感染症ハンター", "呼吸器の剣士",
    "循環器の盾", "消化器の錬金術師", "内分泌の賢者", "腎臓の守人", "神経の詠唱者",
    "皮膚の識者", "小児の守護者", "在宅の旅人", "総合診療の導き手", "ガイドライン読破者",
    "EBMの求道者", "臨床推論家", "証拠の錬成師", "合併症見抜き人", "重症管理人",
    "外来オーケストラ指揮者", "チーム医療の要", "患者説明の語り部", "医療安全の番人", "生活習慣コーチ",
    "予防医療の旗手", "研究心の探検家", "学びの設計者", "指導医見習い", "指導医",
    "部門統括", "医療経営の参謀", "地域医療の灯", "臨床の賢者", "百戦錬磨の臨床家",
    "知見の収集家", "データ読解師", "合理の求道者", "観察眼の達人", "忍耐の達人",
    "共感の達人", "技術の大家", "判断の達人", "知識の賢王", "伝説の医師"]

  /** `titlesByLevel`: (threshold level, title) pairs in insertion order 2, 4, …, 100. */
  function TitlesByLevel(): (t: seq<(int, string)>)
    ensures |t| == 50 && forall i :: 0 <= i < |t| ==> t[i].0 == 2 * i + 2
  {
    seq(|TitleNames|, i requires 0 <= i < |TitleNames| => (2 * i + 2, TitleNames[i]))
  }

  /** The title the scan over `entries` ends with: the last entry whose threshold is reached. */
  function ScanTitles(entries: seq<(int, string)>, level: int): string {
    if entries == [] then "-"
    else if level >= entries[|entries| - 1].0 then entries[|entries| - 1].1
    else ScanTitles(entries[..|entries| - 1], level)
  }

  function Min(a: int, b: int): int {
    if a <= b then a else b
  }

  /** The title of the highest threshold at or below `level`, or "-" below level 2. */
  function TitleFor(level: int): string {
    if level < 2 then "-" else TitlesByLevel()[Min(level / 2, |TitlesByLevel()|) - 1].1
  }

  /** `levelTitle(level)`: scans the whole table, keeping the last title whose level is reached. */
  method LevelTitle(level: int) returns (title: string)
    ensures title == TitleFor(level)
  {
    var table := TitlesByLevel();
    title := "-";
    var i := 0;
    while i < |table|
      invariant 0 <= i <= |table|
      invariant title == ScanTitles(table[..i], level)
    {
      ScanStep(table, i, level);
      if level >= table[i].0 {
        title := table[i].1;
      }
      i := i + 1;
    }
    assert table[..i] == table;
    ScanIsTitleFor(table, level, |table|);
  }

  /** One more entry of the scan: it replaces the title when its threshold is reached. */
  lemma ScanStep(t: seq<(int, string)>, i: nat, level: int)
    requires i < |t|
    ensures ScanTitles(t[..i + 1], level) == if level >= t[i].0 then t[i].1 else ScanTitles(t[..i], level)
  {
    assert t[..i + 1][..i] == t[..i];
  }

  /** A table whose i-th threshold is level 2·(i+1), as `titlesByLevel` is. */
  predicate EvenThresholds(t: seq<(int, string)>) {
    forall i :: 0 <= i < |t| ==> t[i].0 == 2 * i + 2
  }

  /** On such a table, scanning the first `k` entries picks the `min(level / 2, k)`-th one. */
  lemma {:induction false} ScanIsTitleFor(t: seq<(int, string)>, level: int, k: nat)
    requires EvenThresholds(t) && k <= |t|
    ensures ScanTitles(t[..k], level) == if level < 2 || k == 0 then "-" else t[Min(level / 2, k) - 1].1
  {
    if k > 0 {
      var e := t[..k];
      assert e[..k - 1] == t[..k - 1];
      assert e[k - 1] == t[k - 1] && t[k - 1].0 == 2 * k;
      ScanIsTitleFor(t, level, k - 1);
      if level >= 2 * k {
        assert level / 2 >= k;
      } else {
        assert level / 2 <= k - 1;
      }
    }
  }

  /**
   * The title chosen for level 2 and above has the highest threshold not above the level: its
   * own threshold is reached and every later one is not.
   */
  lemma TitleForIsHighestReached(level: int)
    requires level >= 2
    ensures var i := Min(level / 2, |TitlesByLevel()|) - 1;
      TitlesByLevel()[i].0 <= level && TitleFor(level) == TitlesByLevel()[i].1 &&
      forall j :: i < j < |TitlesByLevel()| ==> TitlesByLevel()[j].0 > level
  {
  }

  // ---------------------------------------------------------------------------------------
  // The seed: 32-bit FNV-1a over UTF-16 code units
  // ---------------------------------------------------------------------------------------

  /** One UTF-16 code unit, as `charCodeAt` returns it. */
  type CodeUnit = bv16

  const FnvOffsetBasis: bv32 := 2166136261
  const FnvPrime: bv32 := 16777619

  /** `h ^= c; h = Math.imul(h, 16777619) >>> 0`: XOR, then multiply modulo 2^32. */
  function FnvStep(h: bv32, c: CodeUnit): bv32 {
    (h ^ (c as bv32)) * FnvPrime
  }

  /** The hash of a code-unit sequence, one step per unit from the left. */
  function Fnv1a(uid: seq<CodeUnit>): bv32 {
    if uid == [] then FnvOffsetBasis else FnvStep(Fnv1a(uid[..|uid| - 1]), uid[|uid| - 1])
  }

  /** `seedFromUid(uid)`: the loop over the code units, returned as an unsigned 32-bit number. */
  method SeedFromUid(uid: seq<CodeUnit>) returns (seed: int)
    ensures seed == Fnv1a(uid) as int
    ensures 0 <= seed < 0x1_0000_0000
  {
    var h := FnvOffsetBasis;
    var i := 0;
    while i < |uid|
      invariant 0 <= i <= |uid|
      invariant h == Fnv1a(uid[..i])
    {
      assert uid[..i + 1][..i] == uid[..i];
      h := FnvStep(h, uid[i]);
      i := i + 1;
    }
    assert uid[..i] == uid;
    seed := h as int;
  }

  /** Hashing a longer id continues from the hash of its prefix. */
  lemma {:induction false} Fnv1aAppend(a: seq<CodeUnit>, b: seq<CodeUnit>)
    ensures Fnv1a(a + b) == FnvFold(Fnv1a(a), b)
    decreases |b|
  {
    if b == [] {
      assert a + b == a;
    } else {
      var b' := b[..|b| - 1];
      assert (a + b)[..|a + b| - 1] == a + b';
      assert (a + b)[|a + b| - 1] == b[|b| - 1];
      Fnv1aAppend(a, b');
    }
  }

  function FnvFold(h: bv32, b: seq<CodeUnit>): bv32 {
    if b == [] then h else FnvStep(FnvFold(h, b[..|b| - 1]), b[|b| - 1])
  }

  /** The published FNV-1a test vectors for "" and "a"; the hash of "a" is at least 2^31. */
  lemma Fnv1aTestVectors()
    ensures Fnv1a([]) == 0x811c9dc5
    ensures Fnv1a([0x61]) == 0xe40c292c
    ensures Fnv1a([0x66, 0x6f, 0x6f, 0x62, 0x61, 0x72]) == 0xbf9cf968
  {
    var a: seq<CodeUnit> := [0x61];
    assert a[..0] == [];
    assert Fnv1a(a) == FnvStep(FnvOffsetBasis, 0x61);
    var s: seq<CodeUnit> := [0x66, 0x6f, 0x6f, 0x62, 0x61, 0x72];
    assert s[..5] == [0x66, 0x6f, 0x6f, 0x62, 0x61];
    assert s[..4] == [0x66, 0x6f, 0x6f, 0x62];
    assert s[..3] == [0x66, 0x6f, 0x6f];
    assert s[..2] == [0x66, 0x6f];
    assert s[..1] == [0x66];
    assert s[..1][..0] == [];
    var h1 := FnvStep(FnvOffsetBasis, 0x66);
    var h2 := FnvStep(h1, 0x6f);
    var h3 := FnvStep(h2, 0x6f);
    var h4 := FnvStep(h3, 0x62);
    var h5 := FnvStep(h4, 0x61);
    assert Fnv1a(s[..1]) == h1;
    assert s[..2][..1] == s[..1];
    assert Fnv1a(s[..2]) == h2;
    assert s[..3][..2] == s[..2];
    assert Fnv1a(s[..3]) == h3;
    assert s[..4][..3] == s[..3];
    assert Fnv1a(s[..4]) == h4;
    assert s[..5][..4] == s[..4];
    assert Fnv1a(s[..5]) == h5;
    assert Fnv1a(s) == FnvStep(h5, 0x72);
  }
}
