/**
 * Small string and list helpers around the study engine: article slugs, the comma-separated
 * tag field, the added/removed diff of an article's links, and the swipe navigation between
 * the top-level pages.
 */
module Helpers {
  import opened Sequences
  import StatGenerator

  // ---------------------------------------------------------------------------------------
  // White space and `trim`
  // ---------------------------------------------------------------------------------------

  /** JavaScript's white space and line terminators: what `trim` strips and `\s` matches. */
  predicate IsSpace(c: char) {
    c == '\t' || c == '\n' || c == '\U{000B}' || c == '\U{000C}' || c == '\r' || c == ' ' ||
    c == '\U{00A0}' || c == '\U{1680}' || ('\U{2000}' <= c <= '\U{200A}') ||
    c == '\U{2028}' || c == '\U{2029}' || c == '\U{202F}' || c == '\U{205F}' ||
    c == '\U{3000}' || c == '\U{FEFF}'
  }

  /** Drops the leading white space: what is removed is all white space, what remains starts with none. */
  function TrimStart(s: string): (r: string)
    ensures |r| <= |s| && r == s[|s| - |r|..]
    ensures forall i :: 0 <= i < |s| - |r| ==> IsSpace(s[i])
    ensures r == [] || !IsSpace(r[0])
  {
    if s != [] && IsSpace(s[0]) then
      var r := TrimStart(s[1..]);
      assert forall i :: 1 <= i < |s| - |r| ==> s[i] == s[1..][i - 1];
      r
    else s
  }

  /** Drops the trailing white space: what is removed is all white space, what remains ends with none. */
  function TrimEnd(s: string): (r: string)
    ensures |r| <= |s| && r == s[..|r|]
    ensures forall i :: |r| <= i < |s| ==> IsSpace(s[i])
    ensures r == [] || !IsSpace(r[|r| - 1])
  {
    if s != [] && IsSpace(s[|s| - 1]) then TrimEnd(s[..|s| - 1]) else s
  }

  /** Every character of `s` outside the slice `s[a..b]` is white space. */
  predicate SpaceOutside(s: string, a: nat, b: nat)
    requires a <= b <= |s|
  {
    forall i :: 0 <= i < |s| && (i < a || b <= i) ==> IsSpace(s[i])
  }

  /**
   * `s.trim()`: the slice of `s` left when the white space at both ends is cut off; what is
   * cut is all white space, and what remains neither starts nor ends with it.
   */
  function Trim(s: string): (r: string)
    ensures r == [] || (!IsSpace(r[0]) && !IsSpace(r[|r| - 1]))
    ensures forall c :: c in r ==> c in s
  {
    var t := TrimStart(s);
    var r := TrimEnd(t);
    assert forall c :: c in r ==> c in t;
    r
  }

  /** `trim` cuts only white space, from the two ends: what it leaves is a slice of `s`. */
  lemma TrimIsSlice(s: string)
    ensures exists a: nat, b: nat :: a <= b <= |s| && Trim(s) == s[a..b] && SpaceOutside(s, a, b)
  {
    var t := TrimStart(s);
    var r := TrimEnd(t);
    var a := |s| - |t|;
    forall i | a + |r| <= i < |s|
      ensures IsSpace(s[i])
    {
      assert s[i] == t[i - a];
    }
    assert Trim(s) == s[a..a + |r|] && SpaceOutside(s, a, a + |r|);
  }

  /** A string that neither starts nor ends with white space is its own trim. */
  lemma TrimClean(s: string)
    requires s == [] || (!IsSpace(s[0]) && !IsSpace(s[|s| - 1]))
    ensures Trim(s) == s
  {
  }

  /** A space in front of a non-empty clean string is trimmed away. */
  lemma TrimLeadingSpace(s: string)
    requires s != [] && !IsSpace(s[0]) && !IsSpace(s[|s| - 1])
    ensures Trim(" " + s) == s
  {
    assert (" " + s)[1..] == s;
  }

  // ---------------------------------------------------------------------------------------
  // Slugs
  // ---------------------------------------------------------------------------------------

  /**
   * `toLowerCase` of one character: ASCII capitals, and the two non-ASCII capitals whose
   * lower case is an ASCII letter (U+0130 gives "i" and a combining dot; the Kelvin sign gives
   * "k"). Every other character is kept as it is.
   */
  function LowerChar(c: char): string {
    if 'A' <= c <= 'Z' then [(c as int + 32) as char]
    else if c == '\U{0130}' then ['i', '\U{0307}']
    else if c == '\U{212A}' then ['k']
    else [c]
  }

  /** `s.toLowerCase()`, character by character. */
  function Lower(s: string): string {
    if s == [] then [] else Lower(s[..|s| - 1]) + LowerChar(s[|s| - 1])
  }

  /** The characters `[a-z0-9぀-ヿ㐀-鿿\s-]` that the slug filter keeps. */
  predicate SlugChar(c: char) {
    ('a' <= c <= 'z') || ('0' <= c <= '9') || ('\U{3040}' <= c <= '\U{30FF}') ||
    ('\U{3400}' <= c <= '\U{9FFF}') || IsSpace(c) || c == '-'
  }

  /** The characters a finished slug consists of: kept characters other than white space. */
  predicate SlugOutputChar(c: char) {
    SlugChar(c) && !IsSpace(c)
  }

  predicate IsDash(c: char) {
    c == '-'
  }

  /** Drops the leading run of characters satisfying `p`. */
  function DropRun(s: string, p: char -> bool): (r: string)
    ensures |r| <= |s| && r == s[|s| - |r|..]
    ensures s != [] && p(s[0]) ==> |r| < |s|
    ensures r == [] || !p(r[0])
  {
    if s != [] && p(s[0]) then DropRun(s[1..], p) else s
  }

  /** Every character `DropRun` removes satisfies `p`. */
  lemma {:induction false} DropRunCut(s: string, p: char -> bool)
    ensures forall i :: 0 <= i < |s| - |DropRun(s, p)| ==> p(s[i])
    decreases |s|
  {
    if s != [] && p(s[0]) {
      DropRunCut(s[1..], p);
      assert forall i :: 1 <= i < |s| - |DropRun(s, p)| ==> s[i] == s[1..][i - 1];
    }
  }

  /** `s.replace(/P+/g, '-')`: every maximal run of characters satisfying `p` becomes one dash. */
  function ReplaceRuns(s: string, p: char -> bool): string
    decreases |s|
  {
    if s == [] then []
    else if p(s[0]) then "-" + ReplaceRuns(DropRun(s, p), p)
    else [s[0]] + ReplaceRuns(s[1..], p)
  }

  /** Replacing runs leaves only dashes and characters of `s` outside the runs. */
  lemma {:induction false} ReplaceRunsChars(s: string, p: char -> bool)
    ensures forall c :: c in ReplaceRuns(s, p) ==> c == '-' || (c in s && !p(c))
    decreases |s|
  {
    if s != [] {
      if p(s[0]) {
        var t := DropRun(s, p);
        ReplaceRunsChars(t, p);
        assert forall c :: c in t ==> c in s;
      } else {
        ReplaceRunsChars(s[1..], p);
        assert forall c :: c in s[1..] ==> c in s;
      }
    }
  }

  /** Where no character satisfies `p` there is no run to replace. */
  lemma {:induction false} ReplaceRunsNone(s: string, p: char -> bool)
    requires forall i :: 0 <= i < |s| ==> !p(s[i])
    ensures ReplaceRuns(s, p) == s
    decreases |s|
  {
    if s != [] {
      ReplaceRunsNone(s[1..], p);
    }
  }

  /** No dash directly follows another. */
  predicate NoDoubleDash(s: string) {
    forall i :: 0 <= i < |s| - 1 ==> !(s[i] == '-' && s[i + 1] == '-')
  }

  lemma ReplaceRunsHead(s: string, p: char -> bool)
    requires s != [] && !p(s[0])
    ensures ReplaceRuns(s, p) != [] && ReplaceRuns(s, p)[0] == s[0]
  {
  }

  /** After `replace(/-+/g, '-')` no two dashes are adjacent. */
  lemma {:induction false} CollapseDashes(s: string)
    ensures NoDoubleDash(ReplaceRuns(s, IsDash))
    decreases |s|
  {
    if s != [] {
      if s[0] == '-' {
        var t := DropRun(s, IsDash);
        CollapseDashes(t);
        if t != [] {
          ReplaceRunsHead(t, IsDash);
        }
        var r := ReplaceRuns(t, IsDash);
        assert ReplaceRuns(s, IsDash) == "-" + r;
        assert forall i :: 1 <= i < |r| ==> ("-" + r)[i] == r[i - 1];
      } else {
        var r := ReplaceRuns(s[1..], IsDash);
        CollapseDashes(s[1..]);
        assert ReplaceRuns(s, IsDash) == [s[0]] + r;
        assert forall i :: 1 <= i < |r| ==> ([s[0]] + r)[i] == r[i - 1];
      }
    }
  }

  /** A string without adjacent dashes is left as it is by `replace(/-+/g, '-')`. */
  lemma {:induction false} CollapseDashesNone(s: string)
    requires NoDoubleDash(s)
    ensures ReplaceRuns(s, IsDash) == s
    decreases |s|
  {
    if s != [] {
      assert NoDoubleDash(s[1..]) by {
        forall i | 0 <= i < |s[1..]| - 1 ensures !(s[1..][i] == '-' && s[1..][i + 1] == '-') {
          assert s[1..][i] == s[i + 1] && s[1..][i + 1] == s[i + 2];
        }
      }
      CollapseDashesNone(s[1..]);
      if s[0] == '-' {
        assert DropRun(s, IsDash) == s[1..];
      }
    }
  }

  /** `s.slice(0, n)`. */
  function Prefix(s: string, n: nat): (r: string)
    ensures |r| <= n && |r| <= |s| && r == s[..|r|]
    ensures |s| <= n ==> r == s
    ensures |r| < n ==> r == s
  {
    if |s| <= n then s else s[..n]
  }

  const SlugMaxLength: nat := 64

  /**
   * `slugify(title)`: trim, lower-case, drop every character outside the kept set, turn each
   * run of white space into a dash, merge adjacent dashes and cut to 64 characters. A slug is
   * at most 64 characters of `[a-z0-9]`, kana, CJK ideographs and dashes, never two dashes in a row.
   */
  function Slugify(title: string): (slug: string)
    ensures |slug| <= SlugMaxLength
    ensures forall c :: c in slug ==> SlugOutputChar(c)
    ensures NoDoubleDash(slug)
  {
    var kept := Select(Lower(Trim(title)), SlugChar);
    var dashed := ReplaceRuns(ReplaceRuns(kept, IsSpace), IsDash);
    DashedSlugChars(kept);
    PrefixOfSlug(dashed, SlugMaxLength);
    Prefix(dashed, SlugMaxLength)
  }

  /** After both replacements only slug characters remain, with no two dashes in a row. */
  lemma DashedSlugChars(kept: string)
    requires forall i :: 0 <= i < |kept| ==> SlugChar(kept[i])
    ensures var dashed := ReplaceRuns(ReplaceRuns(kept, IsSpace), IsDash);
      (forall c :: c in dashed ==> SlugOutputChar(c)) && NoDoubleDash(dashed)
  {
    var spaced := ReplaceRuns(kept, IsSpace);
    ReplaceRunsChars(kept, IsSpace);
    ReplaceRunsChars(spaced, IsDash);
    CollapseDashes(spaced);
    assert SlugOutputChar('-');
    forall c | c in kept
      ensures SlugChar(c)
    {
      var i :| 0 <= i < |kept| && kept[i] == c;
    }
  }

  /** Cutting a slug short keeps its characters and its lack of double dashes. */
  lemma PrefixOfSlug(s: string, n: nat)
    requires (forall c :: c in s ==> SlugOutputChar(c)) && NoDoubleDash(s)
    ensures var r := Prefix(s, n);
      (forall c :: c in r ==> SlugOutputChar(c)) && NoDoubleDash(r)
  {
    var r := Prefix(s, n);
    forall c | c in r
      ensures SlugOutputChar(c)
    {
      var i :| 0 <= i < |r| && r[i] == c;
      assert s[i] == c;
    }
  }

  /** The characters of a title that survive into its slug as themselves: kept, neither white space nor a dash. */
  predicate WordChar(c: char) {
    SlugOutputChar(c) && c != '-'
  }

  /**
   * The slug's word characters are those of the trimmed, lower-cased title, in order: all of
   * them when the slug is shorter than 64 characters, a prefix of them when it was cut.
   */
  lemma SlugifyKeepsWords(title: string)
    ensures var w, all := Select(Slugify(title), WordChar), Select(Lower(Trim(title)), WordChar);
      |w| <= |all| && w == all[..|w|] && (|Slugify(title)| < SlugMaxLength ==> w == all)
  {
    var lowered := Lower(Trim(title));
    var kept := Select(lowered, SlugChar);
    var spaced := ReplaceRuns(kept, IsSpace);
    var dashed := ReplaceRuns(spaced, IsDash);
    SelectNested(lowered, SlugChar, WordChar);
    ReplaceRunsWords(kept, IsSpace, WordChar);
    ReplaceRunsWords(spaced, IsDash, WordChar);
    assert Slugify(title) == Prefix(dashed, SlugMaxLength);
    PrefixSelect(dashed, SlugMaxLength, WordChar);
  }

  /** What a filter keeps from a cut-off string is a prefix of what it keeps from the whole. */
  lemma PrefixSelect(s: string, n: nat, q: char -> bool)
    ensures var w, all := Select(Prefix(s, n), q), Select(s, q);
      |w| <= |all| && w == all[..|w|] && (|Prefix(s, n)| < n ==> w == all)
  {
    var r := Prefix(s, n);
    assert s == r + s[|r|..];
    SelectAppend(r, s[|r|..], q);
  }

  /** Replacing runs of `p` by dashes keeps, in order, every character that is neither `p` nor a dash. */
  lemma {:induction false} ReplaceRunsWords(s: string, p: char -> bool, q: char -> bool)
    requires forall c :: q(c) ==> !p(c)
    requires !q('-')
    ensures Select(ReplaceRuns(s, p), q) == Select(s, q)
    decreases |s|
  {
    if s != [] {
      if p(s[0]) {
        ReplaceRunsWords(DropRun(s, p), p, q);
        RunWordsStep(s, p, q);
      } else {
        ReplaceRunsWords(s[1..], p, q);
        KeptWordsStep(s, p, q);
      }
    }
  }

  /** The step of `ReplaceRunsWords` at a run: the dash and the run add nothing that `q` keeps. */
  lemma RunWordsStep(s: string, p: char -> bool, q: char -> bool)
    requires forall c :: q(c) ==> !p(c)
    requires !q('-')
    requires s != [] && p(s[0])
    requires Select(ReplaceRuns(DropRun(s, p), p), q) == Select(DropRun(s, p), q)
    ensures Select(ReplaceRuns(s, p), q) == Select(s, q)
  {
    var t := DropRun(s, p);
    assert ReplaceRuns(s, p) == "-" + ReplaceRuns(t, p);
    SelectAfterRun(s, p, q);
    SelectAppend("-", ReplaceRuns(t, p), q);
  }

  /** The step of `ReplaceRunsWords` at a character outside the runs: it is kept as it is. */
  lemma KeptWordsStep(s: string, p: char -> bool, q: char -> bool)
    requires s != [] && !p(s[0])
    requires Select(ReplaceRuns(s[1..], p), q) == Select(s[1..], q)
    ensures Select(ReplaceRuns(s, p), q) == Select(s, q)
  {
    assert ReplaceRuns(s, p) == [s[0]] + ReplaceRuns(s[1..], p);
    assert s == [s[0]] + s[1..];
    SelectAppend([s[0]], s[1..], q);
    SelectAppend([s[0]], ReplaceRuns(s[1..], p), q);
  }

  /** A filter that rejects every `p` character keeps the same from `s` as from `s` without its leading run. */
  lemma SelectAfterRun(s: string, p: char -> bool, q: char -> bool)
    requires forall c :: q(c) ==> !p(c)
    ensures Select(s, q) == Select(DropRun(s, p), q)
  {
    var t := DropRun(s, p);
    var cut := s[..|s| - |t|];
    DropRunCut(s, p);
    assert s == cut + t;
    SelectNone(cut, q);
    SelectAppend(cut, t, q);
  }

  /** Two words with white space between them become the two words joined by one dash. */
  lemma SlugifyJoinsWords(a: string, sp: string, b: string)
    requires a != [] && sp != [] && b != [] && |a| + 1 + |b| <= SlugMaxLength
    requires forall i :: 0 <= i < |a| ==> WordChar(a[i])
    requires forall i :: 0 <= i < |sp| ==> IsSpace(sp[i])
    requires forall i :: 0 <= i < |b| ==> WordChar(b[i])
    ensures Slugify(a + sp + b) == a + "-" + b
  {
    PlainTitle(a, sp, b);
    assert forall i :: 0 <= i < |a| ==> !IsSpace(a[i]) && a[i] != '-';
    assert forall i :: 0 <= i < |b| ==> !IsSpace(b[i]) && b[i] != '-';
    ReplaceRunBetween(a, sp, b, IsSpace);
    DashedWords(a, b);
    assert Slugify(a + sp + b) == Prefix(a + "-" + b, SlugMaxLength);
  }

  /** A title of two words and white space is already trimmed, lower-case and fully kept. */
  lemma PlainTitle(a: string, sp: string, b: string)
    requires a != [] && b != []
    requires forall i :: 0 <= i < |a| ==> WordChar(a[i])
    requires forall i :: 0 <= i < |sp| ==> IsSpace(sp[i])
    requires forall i :: 0 <= i < |b| ==> WordChar(b[i])
    ensures Select(Lower(Trim(a + sp + b)), SlugChar) == a + sp + b
  {
    var t := a + sp + b;
    assert !IsSpace(t[0]) && !IsSpace(t[|t| - 1]) by {
      assert t[0] == a[0] && t[|t| - 1] == b[|b| - 1];
      assert WordChar(a[0]) && WordChar(b[|b| - 1]);
    }
    TrimClean(t);
    forall i | 0 <= i < |t|
      ensures SlugChar(t[i]) && LowerChar(t[i]) == [t[i]]
    {
      if i < |a| {
        assert t[i] == a[i];
        SlugCharLower(a[i]);
      } else if i < |a| + |sp| {
        assert t[i] == sp[i - |a|];
        SpaceLower(t[i]);
      } else {
        assert t[i] == b[i - |a| - |sp|];
        SlugCharLower(t[i]);
      }
    }
    LowerNone(t);
    SelectAll(t, SlugChar);
  }

  /** A run of `p` between two stretches free of `p` becomes one dash. */
  lemma ReplaceRunBetween(a: string, sp: string, b: string, p: char -> bool)
    requires sp != [] && b != []
    requires forall i :: 0 <= i < |a| ==> !p(a[i])
    requires forall i :: 0 <= i < |sp| ==> p(sp[i])
    requires forall i :: 0 <= i < |b| ==> !p(b[i])
    ensures ReplaceRuns(a + sp + b, p) == a + "-" + b
  {
    assert ReplaceRuns(sp + b, p) == "-" + b by {
      assert (sp + b)[0] == sp[0];
      DropRunThen(sp, b, p);
      ReplaceRunsNone(b, p);
    }
    assert a + sp + b == a + (sp + b);
    ReplaceRunsAfter(a, sp + b, p);
    assert a + ("-" + b) == a + "-" + b;
  }

  /** Two dash-free words joined by one dash have no run of dashes to merge. */
  lemma DashedWords(a: string, b: string)
    requires b != []
    requires forall i :: 0 <= i < |a| ==> a[i] != '-'
    requires forall i :: 0 <= i < |b| ==> b[i] != '-'
    ensures ReplaceRuns(a + "-" + b, IsDash) == a + "-" + b
  {
    var head := a + "-";
    var u := head + b;
    assert |head| == |a| + 1 && forall i :: 0 <= i < |a| ==> head[i] == a[i];
    forall i | 0 <= i < |u| - 1
      ensures !(u[i] == '-' && u[i + 1] == '-')
    {
      if i < |a| {
        assert u[i] == head[i];
      } else if i == |a| {
        assert u[i + 1] == b[0];
      } else {
        assert u[i] == b[i - |head|];
      }
    }
    CollapseDashesNone(u);
  }

  /** White space has no capital to lower. */
  lemma SpaceLower(c: char)
    requires IsSpace(c)
    ensures LowerChar(c) == [c]
  {
  }

  /** A leading stretch without `p` passes through the replacement untouched. */
  lemma {:induction false} ReplaceRunsAfter(a: string, rest: string, p: char -> bool)
    requires forall i :: 0 <= i < |a| ==> !p(a[i])
    ensures ReplaceRuns(a + rest, p) == a + ReplaceRuns(rest, p)
    decreases |a|
  {
    if a == [] {
      assert a + rest == rest;
    } else {
      assert (a + rest)[0] == a[0] && (a + rest)[1..] == a[1..] + rest;
      ReplaceRunsAfter(a[1..], rest, p);
    }
  }

  /** Dropping the leading run of `x + y` removes exactly `x` when `x` is all `p` and `y` does not start with `p`. */
  lemma {:induction false} DropRunThen(x: string, y: string, p: char -> bool)
    requires forall i :: 0 <= i < |x| ==> p(x[i])
    requires y == [] || !p(y[0])
    ensures DropRun(x + y, p) == y
    decreases |x|
  {
    if x == [] {
      assert x + y == y;
    } else {
      assert (x + y)[0] == x[0] && (x + y)[1..] == x[1..] + y;
      DropRunThen(x[1..], y, p);
    }
  }

  /** Lower-casing leaves alone a string that has no capital with a lower case. */
  lemma {:induction false} LowerNone(s: string)
    requires forall i :: 0 <= i < |s| ==> LowerChar(s[i]) == [s[i]]
    ensures Lower(s) == s
  {
    if s != [] {
      LowerNone(s[..|s| - 1]);
      assert s == s[..|s| - 1] + [s[|s| - 1]];
    }
  }

  /** Slug characters have no capital to lower. */
  lemma SlugCharLower(c: char)
    requires SlugOutputChar(c)
    ensures LowerChar(c) == [c]
  {
  }

  /** A slug is its own slug: every step of `slugify` leaves a finished slug unchanged. */
  lemma SlugifyIdempotent(title: string)
    ensures Slugify(Slugify(title)) == Slugify(title)
  {
    var s := Slugify(title);
    forall i | 0 <= i < |s|
      ensures SlugOutputChar(s[i]) && LowerChar(s[i]) == [s[i]]
    {
      assert s[i] in s;
      SlugCharLower(s[i]);
    }
    TrimClean(s);
    LowerNone(s);
    SelectAll(s, SlugChar);
    ReplaceRunsNone(s, IsSpace);
    CollapseDashesNone(s);
  }

  // ---------------------------------------------------------------------------------------
  // Tags: `csv.split(',').map((s) => s.trim()).filter((s) => s.length)`
  // ---------------------------------------------------------------------------------------

  /** `s.split(sep)`: the pieces between separators, at least one, possibly empty. */
  function Split(s: string, sep: char): (parts: seq<string>)
    ensures |parts| >= 1
    ensures forall i :: 0 <= i < |parts| ==> sep !in parts[i]
  {
    if s == [] then [[]]
    else
      var rest := Split(s[1..], sep);
      if s[0] == sep then [[]] + rest else [[s[0]] + rest[0]] + rest[1..]
  }

  /** `parts.join(sep)`. */
  function Join(parts: seq<string>, sep: string): string {
    if parts == [] then [] else if |parts| == 1 then parts[0] else parts[0] + sep + Join(parts[1..], sep)
  }

  /** Joining the pieces with the separator gives back the string that was split. */
  lemma {:induction false} JoinSplit(s: string, sep: char)
    ensures Join(Split(s, sep), [sep]) == s
  {
    if s != [] {
      var rest := Split(s[1..], sep);
      JoinSplit(s[1..], sep);
      if s[0] != sep {
        var parts := [[s[0]] + rest[0]] + rest[1..];
        assert parts[1..] == rest[1..];
        if |rest| == 1 {
          assert Join(parts, [sep]) == [s[0]] + rest[0];
        } else {
          assert Join(rest, [sep]) == rest[0] + [sep] + Join(rest[1..], [sep]);
          assert Join(parts, [sep]) == [s[0]] + rest[0] + [sep] + Join(rest[1..], [sep]);
        }
      } else {
        assert ([[]] + rest)[1..] == rest;
      }
    }
  }

  /** A piece without a separator splits into itself. */
  lemma {:induction false} SplitNoSep(a: string, sep: char)
    requires sep !in a
    ensures Split(a, sep) == [a]
  {
    if a != [] {
      SplitNoSep(a[1..], sep);
      assert [a[0]] + a[1..] == a;
    }
  }

  /** Splitting at the first separator: the piece before it, then the pieces of the rest. */
  lemma {:induction false} SplitAtSep(a: string, sep: char, b: string)
    requires sep !in a
    ensures Split(a + [sep] + b, sep) == [a] + Split(b, sep)
  {
    if a == [] {
      assert a + [sep] + b == [sep] + b;
      assert ([sep] + b)[1..] == b;
    } else {
      var s := a + [sep] + b;
      assert s[1..] == a[1..] + [sep] + b;
      SplitAtSep(a[1..], sep, b);
      assert [a[0]] + a[1..] == a;
    }
  }

  /** Splitting joined pieces that contain no separator gives the pieces back. */
  lemma {:induction false} SplitJoin(parts: seq<string>, sep: char)
    requires |parts| >= 1 && forall i :: 0 <= i < |parts| ==> sep !in parts[i]
    ensures Split(Join(parts, [sep]), sep) == parts
  {
    if |parts| == 1 {
      SplitNoSep(parts[0], sep);
    } else {
      SplitJoin(parts[1..], sep);
      SplitAtSep(parts[0], sep, Join(parts[1..], [sep]));
      assert [parts[0]] + parts[1..] == parts;
    }
  }

  function TrimAll(parts: seq<string>): (r: seq<string>)
    ensures |r| == |parts|
  {
    seq(|parts|, i requires 0 <= i < |parts| => Trim(parts[i]))
  }

  function NonEmpty(s: string): bool {
    |s| > 0
  }

  /**
   * The tag list of a comma-separated field: every tag is non-empty, has no comma and neither
   * starts nor ends with white space.
   */
  function ParseTags(csv: string): (tags: seq<string>)
    ensures forall t :: t in tags ==> CleanTag(t)
  {
    var parts := Split(csv, ',');
    var trimmed := TrimAll(parts);
    var tags := Select(trimmed, NonEmpty);
    SelectMembers(trimmed, NonEmpty);
    TrimAllClean(parts);
    tags
  }

  /** Trimming comma-free pieces leaves comma-free strings with no white space at either end. */
  lemma TrimAllClean(parts: seq<string>)
    requires forall i :: 0 <= i < |parts| ==> ',' !in parts[i]
    ensures forall t :: t in TrimAll(parts) ==> t == [] || CleanTag(t)
  {
    forall t | t in TrimAll(parts)
      ensures t == [] || CleanTag(t)
    {
      var i :| 0 <= i < |parts| && TrimAll(parts)[i] == t;
      assert t == Trim(parts[i]);
    }
  }

  /** A tag as stored: non-empty, no comma, no white space at either end. */
  predicate CleanTag(t: string) {
    t != [] && ',' !in t && !IsSpace(t[0]) && !IsSpace(t[|t| - 1])
  }

  /** Each string of `ts` with `p` in front. */
  function PrefixAll(p: string, ts: seq<string>): (r: seq<string>)
    ensures |r| == |ts|
  {
    seq(|ts|, i requires 0 <= i < |ts| => p + ts[i])
  }

  /** The pieces of `pre + tags.join(', ')` split at commas. */
  lemma {:induction false} SplitJoinedTags(pre: string, tags: seq<string>)
    requires ',' !in pre && |tags| >= 1 && forall i :: 0 <= i < |tags| ==> ',' !in tags[i]
    ensures Split(pre + Join(tags, ", "), ',') == [pre + tags[0]] + PrefixAll(" ", tags[1..])
    decreases |tags|
  {
    if |tags| == 1 {
      SplitNoSep(pre + tags[0], ',');
    } else {
      var rest := tags[1..];
      SplitJoinedTags(" ", rest);
      assert pre + Join(tags, ", ") == (pre + tags[0]) + [','] + (" " + Join(rest, ", "));
      SplitAtSep(pre + tags[0], ',', " " + Join(rest, ", "));
      assert [" " + rest[0]] + PrefixAll(" ", rest[1..]) == PrefixAll(" ", rest);
    }
  }

  /**
   * The edit dialogs show the stored tags as `tags.join(', ')`; saving the field unchanged
   * parses back exactly the stored tags.
   */
  lemma ParseJoinedTags(tags: seq<string>)
    requires forall i :: 0 <= i < |tags| ==> CleanTag(tags[i])
    ensures ParseTags(Join(tags, ", ")) == tags
  {
    if tags == [] {
      ParseEmpty();
    } else {
      SplitJoinedTags("", tags);
      assert "" + Join(tags, ", ") == Join(tags, ", ") && "" + tags[0] == tags[0];
      TrimJoinedPieces(tags);
      SelectAll(tags, NonEmpty);
    }
  }

  /** An empty field has no tags. */
  lemma ParseEmpty()
    ensures ParseTags("") == []
  {
    assert Split("", ',') == [[]];
    assert TrimAll([[]]) == [[]];
  }

  /** Trimming the pieces of a joined field recovers the clean tags. */
  lemma TrimJoinedPieces(tags: seq<string>)
    requires |tags| >= 1 && forall i :: 0 <= i < |tags| ==> CleanTag(tags[i])
    ensures TrimAll([tags[0]] + PrefixAll(" ", tags[1..])) == tags
  {
    var parts := [tags[0]] + PrefixAll(" ", tags[1..]);
    var trimmed := TrimAll(parts);
    forall i | 0 <= i < |tags| ensures trimmed[i] == tags[i] {
      if i == 0 {
        TrimClean(tags[0]);
      } else {
        assert parts[i] == " " + tags[i];
        TrimLeadingSpace(tags[i]);
      }
    }
  }

  // ---------------------------------------------------------------------------------------
  // Links added and removed when an article is saved
  // ---------------------------------------------------------------------------------------

  /** `Array.from(new Set(s))`: each element once, in order of first appearance. */
  function Dedup(s: seq<string>): (r: seq<string>)
    ensures forall x :: x in r <==> x in s
    ensures forall i, j :: 0 <= i < j < |r| ==> r[i] != r[j]
  {
    if s == [] then []
    else
      var d := Dedup(s[..|s| - 1]);
      var x := s[|s| - 1];
      assert forall y :: y in s <==> y in s[..|s| - 1] || y == x;
      if x in d then d else d + [x]
  }

  /**
   * The ids to add a backlink to (selected now, not linked before) and to remove it from
   * (linked before, not selected now), as computed when an article is saved.
   */
  function LinkDiff(links: seq<string>, selected: seq<string>): (d: (seq<string>, seq<string>))
    ensures forall x :: x in d.0 <==> x in selected && x !in links
    ensures forall x :: x in d.1 <==> x in links && x !in selected
  {
    var added := Select(selected, (id: string) => id !in links);
    var removed := Select(Dedup(links), (id: string) => id !in selected);
    SelectMembers(selected, (id: string) => id !in links);
    SelectMembers(Dedup(links), (id: string) => id !in selected);
    (added, removed)
  }

  function ToSet(s: seq<string>): set<string> {
    set x | x in s
  }

  /** Removing the removed ids from the old links and adding the added ones gives the new selection. */
  lemma LinkDiffApplies(links: seq<string>, selected: seq<string>)
    ensures var d := LinkDiff(links, selected);
      ToSet(links) - ToSet(d.1) + ToSet(d.0) == ToSet(selected)
  {
  }

  // ---------------------------------------------------------------------------------------
  // Swipe navigation between the top-level pages
  // ---------------------------------------------------------------------------------------

  /** `NAV_ORDER`: the pages a swipe moves between, in order. */
  const NavOrder: seq<string> := ["/home", "/articles", "/create", "/study", "/summary", "/profile"]

  /** `s.indexOf(x)`: the first position of `x`, or -1. */
  function IndexOf(s: seq<string>, x: string): (i: int)
    ensures -1 <= i < |s|
    ensures i >= 0 ==> s[i] == x && forall j :: 0 <= j < i ==> s[j] != x
    ensures i == -1 ==> x !in s
  {
    if s == [] then -1
    else if s[0] == x then 0
    else
      var k := IndexOf(s[1..], x);
      assert x in s ==> x == s[0] || x in s[1..];
      if k < 0 then -1 else k + 1
  }

  /**
   * `navigateRelative(step)` from `path`: the hash it sets. An unknown page counts as the
   * first; the index `(cur + step + 6) % 6` uses JavaScript's `%`, so a step below `-cur - 6`
   * gives a negative index and the hash `#undefined`, unless `cur + step` is a multiple of 6
   * (the index is then -0, which names the first page).
   */
  function NavigateRelative(path: string, step: int): (hash: string)
    ensures hash == "#undefined" || exists i :: 0 <= i < |NavOrder| && hash == "#" + NavOrder[i]
  {
    NavHash(StatGenerator.JsRem(NavPosition(path) + step + |NavOrder|, |NavOrder|))
  }

  /** The position of the page on screen; an unknown page counts as the first. */
  function NavPosition(path: string): (cur: nat)
    ensures cur < |NavOrder|
    ensures path in NavOrder ==> NavOrder[cur] == path
  {
    var idx := IndexOf(NavOrder, path);
    if idx >= 0 then idx else 0
  }

  /** The hash for position `next`, which JavaScript reads as `undefined` when negative. */
  function NavHash(next: int): (hash: string)
    requires next < |NavOrder|
    ensures 0 <= next ==> hash == "#" + NavOrder[next]
    ensures next < 0 ==> hash == "#undefined"
  {
    if 0 <= next then "#" + NavOrder[next] else "#undefined"
  }

  /** Every page of the order is found at its own position. */
  lemma NavOrderIndex(i: nat)
    requires i < |NavOrder|
    ensures IndexOf(NavOrder, NavOrder[i]) == i
  {
    var s := NavOrder;
    assert s[1..] == ["/articles", "/create", "/study", "/summary", "/profile"];
    assert s[1..][1..] == ["/create", "/study", "/summary", "/profile"];
    assert s[1..][1..][1..] == ["/study", "/summary", "/profile"];
    assert s[1..][1..][1..][1..] == ["/summary", "/profile"];
    assert s[1..][1..][1..][1..][1..] == ["/profile"];
    assert "/home"[1] == 'h' && "/articles"[1] == 'a' && "/create"[1] == 'c';
    assert "/study"[2] == 't' && "/summary"[2] == 'u' && "/profile"[1] == 'p';
  }

  /** A swipe moves to the neighbouring page, wrapping around at both ends. */
  lemma SwipeNeighbours(i: nat)
    requires i < |NavOrder|
    ensures NavigateRelative(NavOrder[i], 1) == "#" + NavOrder[(i + 1) % 6]
    ensures NavigateRelative(NavOrder[i], -1) == "#" + NavOrder[(i + 5) % 6]
  {
    NavPositionOf(i);
    NeighbourIndex(i);
  }

  /** The index arithmetic of a swipe by one page either way. */
  lemma NeighbourIndex(i: nat)
    requires i < 6
    ensures StatGenerator.JsRem(i + 1 + 6, 6) == (i + 1) % 6
    ensures StatGenerator.JsRem(i - 1 + 6, 6) == (i + 5) % 6
  {
    assert (i + 7) % 6 == (i + 1) % 6;
  }

  /** Swiping forward and then back returns to the page it started from. */
  lemma SwipeForwardBack(i: nat)
    requires i < |NavOrder|
    ensures NavigateRelative(NavOrder[(i + 1) % 6], -1) == "#" + NavOrder[i]
  {
    var j := (i + 1) % 6;
    assert (j + 5) % 6 == i;
    SwipeNeighbours(j);
  }

  /** A page not in the order navigates as if from the first page. */
  lemma SwipeFromUnknown(path: string, step: int)
    requires path !in NavOrder
    ensures NavigateRelative(path, step) == NavigateRelative(NavOrder[0], step)
  {
  }

  /**
   * A step that takes `cur + step + 6` below zero makes JavaScript's `%` negative, and the
   * hash `#undefined`, except when `cur + step` is a multiple of 6: the remainder is then -0,
   * which indexes the first page.
   */
  lemma SwipeFarBackUndefined(i: nat, step: int)
    requires i < |NavOrder| && i + step + 6 < 0
    ensures NavigateRelative(NavOrder[i], step) == if (i + step) % 6 == 0 then "#/home" else "#undefined"
  {
    NavPositionOf(i);
    FarBackIndex(i + step);
  }

  /** Every page of the order is at its own position. */
  lemma NavPositionOf(i: nat)
    requires i < |NavOrder|
    ensures NavPosition(NavOrder[i]) == i
  {
    NavOrderIndex(i);
  }

  /** JavaScript's `(x + 6) % 6` for `x + 6 < 0`: 0 when 6 divides `x`, negative otherwise. */
  lemma FarBackIndex(x: int)
    requires x + 6 < 0
    ensures x % 6 == 0 ==> StatGenerator.JsRem(x + 6, 6) == 0
    ensures x % 6 != 0 ==> StatGenerator.JsRem(x + 6, 6) < 0
  {
    var a := x + 6;
    assert StatGenerator.JsRem(a, 6) == -((-a) % 6);
    if x % 6 == 0 {
      var q := x / 6;
      assert -a == 6 * (-q - 1);
    }
    if (-a) % 6 == 0 {
      var q := (-a) / 6;
      assert x == 6 * (-q - 1);
    }
  }

  /** From the first page, seven steps back give `#undefined`, twelve give the first page again. */
  lemma SwipeFarBackExamples()
    ensures NavigateRelative("/home", -7) == "#undefined"
    ensures NavigateRelative("/home", -12) == "#/home"
  {
    SwipeFarBackUndefined(0, -7);
    SwipeFarBackUndefined(0, -12);
  }
}
