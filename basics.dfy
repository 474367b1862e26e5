/** Small shared vocabulary: an optional value, and order-preserving filtering
    of sequences (the model of JavaScript's `Array.prototype.filter`). */
module Basics {

  datatype Option<T> = None | Some(value: T)

  /** An interval handle returned by `setInterval`. Browsers hand out positive
      integers, so a held handle always passes the source's `if (timer)` test; an
      absent one is `None` or a missing map key. */
  type Handle = h: nat | h > 0 witness 1

  /** `a` is obtained from `b` by deleting zero or more elements; the rest keep their order. */
  predicate IsSubseq<T(==)>(a: seq<T>, b: seq<T>)
    decreases |b|
  {
    |a| == 0 || (|b| > 0 && ((a[0] == b[0] && IsSubseq(a[1..], b[1..])) || IsSubseq(a, b[1..])))
  }

  /** The number of elements of `s` that satisfy `p`. */
  function CountWhere<T>(s: seq<T>, p: T -> bool): nat
  {
    if |s| == 0 then 0 else (if p(s[0]) then 1 else 0) + CountWhere(s[1..], p)
  }

  /** The elements of `s` that satisfy `p`, in their original order. */
  function Filter<T(==)>(s: seq<T>, p: T -> bool): (r: seq<T>)
    ensures |r| <= |s|
  {
    if |s| == 0 then []
    else if p(s[0]) then [s[0]] + Filter(s[1..], p)
    else Filter(s[1..], p)
  }

  /** A non-empty sequence is its front followed by its last element. */
  lemma SplitLast<T>(s: seq<T>)
    requires |s| > 0
    ensures s == s[..|s| - 1] + [s[|s| - 1]]
  {
  }

  /** What Filter keeps: as many elements as satisfy `p`, each of them an element of `s`
      satisfying `p`, and every element of `s` satisfying `p`. With FilterIsSubseq this
      determines the result completely. */
  lemma {:induction false} FilterMembers<T>(s: seq<T>, p: T -> bool)
    ensures var r := Filter(s, p);
            |r| == CountWhere(s, p)
            && (forall i :: 0 <= i < |r| ==> p(r[i]) && r[i] in s)
            && (forall i :: 0 <= i < |s| && p(s[i]) ==> s[i] in r)
  {
    if |s| > 0 {
      FilterMembers(s[1..], p);
      assert s == [s[0]] + s[1..];
      forall i | 0 < i < |s| ensures s[i] == s[1..][i - 1] { }
    }
  }

  lemma {:induction false} FilterIsSubseq<T>(s: seq<T>, p: T -> bool)
    ensures IsSubseq(Filter(s, p), s)
  {
    if |s| > 0 {
      FilterIsSubseq(s[1..], p);
      var rest := Filter(s[1..], p);
      if p(s[0]) {
        assert Filter(s, p) == [s[0]] + rest;
        assert ([s[0]] + rest)[1..] == rest;
      }
    }
  }

  /** Filtering with a predicate that every element satisfies changes nothing. */
  lemma {:induction false} FilterKeepsAll<T>(s: seq<T>, p: T -> bool)
    ensures (forall i :: 0 <= i < |s| ==> p(s[i])) ==> Filter(s, p) == s
  {
    if |s| > 0 && forall i :: 0 <= i < |s| ==> p(s[i]) {
      assert forall i :: 0 <= i < |s[1..]| ==> p(s[1..][i]) by {
        forall i | 0 <= i < |s[1..]| ensures p(s[1..][i]) { assert s[1..][i] == s[i + 1]; }
      }
      FilterKeepsAll(s[1..], p);
      assert [s[0]] + s[1..] == s;
    }
  }

  /** Filtering distributes over concatenation. */
  lemma {:induction false} FilterAppend<T>(a: seq<T>, b: seq<T>, p: T -> bool)
    ensures Filter(a + b, p) == Filter(a, p) + Filter(b, p)
  {
    if |a| == 0 {
      assert a + b == b;
    } else {
      assert (a + b)[1..] == a[1..] + b;
      FilterAppend(a[1..], b, p);
    }
  }

  /** Replacing an element that the filter drops by another one it drops changes nothing. */
  lemma {:induction false} FilterUpdateDropped<T>(s: seq<T>, i: nat, x: T, p: T -> bool)
    requires i < |s| && !p(s[i]) && !p(x)
    ensures Filter(s[i := x], p) == Filter(s, p)
  {
    if i == 0 {
      assert s[i := x][1..] == s[1..];
    } else {
      FilterUpdateDropped(s[1..], i - 1, x, p);
      assert s[i := x][1..] == s[1..][i - 1 := x];
    }
  }

  /** Filtering with a predicate that no element satisfies leaves nothing. */
  lemma FilterKeepsNone<T>(s: seq<T>, p: T -> bool)
    ensures (forall i :: 0 <= i < |s| ==> !p(s[i])) ==> Filter(s, p) == []
  {
    FilterMembers(s, p);
    if |Filter(s, p)| > 0 {
      assert Filter(s, p)[0] in s;
    }
  }

  lemma FilterCons<T>(a: T, t: seq<T>, p: T -> bool)
    ensures Filter([a] + t, p) == (if p(a) then [a] else []) + Filter(t, p)
  {
    assert ([a] + t)[1..] == t;
  }

  /** Putting back the first element on both sides keeps a filtered suffix relation. */
  lemma FilterConsBoth<T>(s: seq<T>, rest: seq<T>, tail: seq<T>, p: T -> bool)
    requires |s| > 0 && Filter(rest, p) == Filter(s[1..], p) + tail
    ensures Filter([s[0]] + rest, p) == Filter(s, p) + tail
  {
    var head: seq<T> := if p(s[0]) then [s[0]] else [];
    FilterCons(s[0], rest, p);
    FilterHead(s, p);
    AppendAssoc(head, Filter(s[1..], p), tail);
  }

  lemma FilterHead<T>(s: seq<T>, p: T -> bool)
    requires |s| > 0
    ensures Filter(s, p) == (if p(s[0]) then [s[0]] else []) + Filter(s[1..], p)
  {
  }

  lemma AppendAssoc<T>(x: seq<T>, y: seq<T>, z: seq<T>)
    ensures (x + y) + z == x + (y + z)
  {
  }

}
