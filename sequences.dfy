/** `Array.prototype.filter`, shared by the card queries, the tag parser and the link diff. */
module Sequences {

  /** `s.filter(keep)`: the elements `keep` accepts, in their original order. */
  function Select<T>(s: seq<T>, keep: T -> bool): (r: seq<T>)
    ensures |r| <= |s|
    ensures forall i :: 0 <= i < |r| ==> keep(r[i])
  {
    if s == [] then []
    else
      var last := s[|s| - 1];
      Select(s[..|s| - 1], keep) + (if keep(last) then [last] else [])
  }

  /** Exactly the accepted elements pass the filter. */
  lemma {:induction false} SelectMembers<T>(s: seq<T>, keep: T -> bool)
    ensures forall x :: x in Select(s, keep) <==> x in s && keep(x)
  {
    if s != [] {
      var init := s[..|s| - 1];
      SelectMembers(init, keep);
      assert s == init + [s[|s| - 1]];
    }
  }

  /** A filter that accepts every element keeps the sequence as it is. */
  lemma {:induction false} SelectAll<T>(s: seq<T>, keep: T -> bool)
    requires forall i :: 0 <= i < |s| ==> keep(s[i])
    ensures Select(s, keep) == s
  {
    if s != [] {
      var init := s[..|s| - 1];
      SelectAll(init, keep);
      assert s == init + [s[|s| - 1]];
    }
  }

  /** Filtering a concatenation filters each part. */
  lemma {:induction false} SelectAppend<T>(a: seq<T>, b: seq<T>, keep: T -> bool)
    ensures Select(a + b, keep) == Select(a, keep) + Select(b, keep)
    decreases |b|
  {
    if b == [] {
      assert a + b == a;
    } else {
      var b' := b[..|b| - 1];
      assert (a + b)[..|a + b| - 1] == a + b';
      SelectAppend(a, b', keep);
    }
  }

  /** Filtering by a stricter test after a looser one is filtering by the stricter one. */
  lemma {:induction false} SelectNested<T>(s: seq<T>, p: T -> bool, q: T -> bool)
    requires forall x :: q(x) ==> p(x)
    ensures Select(Select(s, p), q) == Select(s, q)
  {
    if s != [] {
      var init, last := s[..|s| - 1], s[|s| - 1];
      SelectNested(init, p, q);
      SelectAppend(Select(init, p), if p(last) then [last] else [], q);
    }
  }

  /** A filter that rejects every element keeps nothing. */
  lemma {:induction false} SelectNone<T>(s: seq<T>, keep: T -> bool)
    requires forall i :: 0 <= i < |s| ==> !keep(s[i])
    ensures Select(s, keep) == []
  {
    if s != [] {
      SelectNone(s[..|s| - 1], keep);
    }
  }
}
