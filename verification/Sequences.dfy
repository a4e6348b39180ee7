/**
 The slice operations the parsers are built from: searching for the first
 delimiter, splitting on a delimiter and joining with one.
 */
module Sequences {

  // Facts about concatenation and slicing, called by name where a proof needs them.

  lemma Assoc<T>(a: seq<T>, b: seq<T>, c: seq<T>)
    ensures (a + b) + c == a + (b + c)
  {
  }

  lemma DropPrefix<T>(a: seq<T>, b: seq<T>)
    ensures (a + b)[..|a|] == a
    ensures (a + b)[|a|..] == b
  {
  }

  lemma HeadTail<T>(x: T, s: seq<T>)
    ensures ([x] + s)[1..] == s
  {
  }

  lemma Uncons<T>(s: seq<T>)
    requires s != []
    ensures s == [s[0]] + s[1..]
  {
  }

  lemma DropDrop<T>(s: seq<T>, i: nat, k: nat)
    requires i + k <= |s|
    ensures s[i..][k..] == s[i + k..]
  {
  }

  /** Moving the first element of what is to come to the end of what has been read. */
  lemma Shift<T>(read: seq<T>, s: seq<T>)
    requires s != []
    ensures read + s == (read + [s[0]]) + s[1..]
  {
  }

  lemma Empty<T>(s: seq<T>)
    ensures s + [] == s && [] + s == s && s[0..] == s && s[..|s|] == s
  {
  }

  /** No element of `s` is one of the delimiters `ds`. */
  ghost predicate Avoids<T>(s: seq<T>, ds: set<T>) {
    forall i | 0 <= i < |s| :: s[i] !in ds
  }

  ghost predicate AllIn<T>(s: seq<T>, allowed: set<T>) {
    forall i | 0 <= i < |s| :: s[i] in allowed
  }

  /** Index of the first element of `s` that is in `ds`, or `|s|` (`find(..).unwrap_or(len)`). */
  function Find<T(==)>(s: seq<T>, ds: set<T>): (i: nat)
    ensures i <= |s|
    ensures i < |s| ==> s[i] in ds
    ensures Avoids(s[..i], ds)
  {
    if s == [] || s[0] in ds then 0 else
      var i := 1 + Find(s[1..], ds);
      assert s[..i] == [s[0]] + s[1..][..i - 1];
      i
  }

  /** The three facts about `Find` single out its value. */
  lemma FindAt<T>(s: seq<T>, ds: set<T>, i: nat)
    requires i <= |s|
    requires Avoids(s[..i], ds)
    requires i < |s| ==> s[i] in ds
    ensures Find(s, ds) == i
  {
  }

  /** A delimiter-free text followed by nothing or by a delimiter is what `Find` cuts off. */
  lemma FindConcat<T>(a: seq<T>, b: seq<T>, ds: set<T>)
    requires Avoids(a, ds)
    requires b == [] || b[0] in ds
    ensures Find(a + b, ds) == |a|
    ensures (a + b)[..|a|] == a && (a + b)[|a|..] == b
  {
    DropPrefix(a, b);
    FindAt(a + b, ds, |a|);
  }

  /** `s` contains `x`, and no `y` before it. */
  predicate Before<T(==)>(s: seq<T>, x: T, y: T) {
    s != [] && s[0] != y && (s[0] == x || Before(s[1..], x, y))
  }

  lemma {:induction false} BeforeConcat<T>(a: seq<T>, b: seq<T>, x: T, y: T)
    requires x != y
    ensures Before(a + b, x, y) <==> Before(a, x, y) || (y !in a && Before(b, x, y))
  {
    if a == [] {
      Empty(b);
    } else {
      assert (a + b)[1..] == a[1..] + b;
      BeforeConcat(a[1..], b, x, y);
    }
  }

  /** The first `x` or `y` decides. */
  lemma {:induction false} BeforeAt<T>(s: seq<T>, x: T, y: T, k: nat)
    requires x != y && k <= |s|
    requires forall j | 0 <= j < k :: s[j] != x && s[j] != y
    requires k < |s| ==> s[k] == x || s[k] == y
    ensures Before(s, x, y) <==> k < |s| && s[k] == x
  {
    if k > 0 {
      BeforeAt(s[1..], x, y, k - 1);
    }
  }

  lemma {:induction false} BeforeNone<T>(s: seq<T>, x: T, y: T)
    requires y !in s
    ensures Before(s, x, y) <==> x in s
  {
    if s != [] && s[0] != x {
      BeforeNone(s[1..], x, y);
    }
  }

  /** Length of the longest prefix of `s` made of elements of `allowed`. */
  function Span<T(==)>(s: seq<T>, allowed: set<T>): (i: nat)
    ensures i <= |s|
    ensures i < |s| ==> s[i] !in allowed
    ensures forall k | 0 <= k < i :: s[k] in allowed
  {
    if s == [] || s[0] !in allowed then 0 else
      assert forall k | 1 <= k < 1 + Span(s[1..], allowed) :: s[k] == s[1..][k - 1];
      1 + Span(s[1..], allowed)
  }

  function Split<T(==)>(s: seq<T>, d: T): (parts: seq<seq<T>>)
    ensures |parts| >= 1
    decreases |s|
  {
    var i := Find(s, {d});
    if i == |s| then [s] else [s[..i]] + Split(s[i + 1..], d)
  }

  function Join<T>(parts: seq<seq<T>>, d: T): seq<T> {
    if parts == [] then []
    else if |parts| == 1 then parts[0]
    else parts[0] + [d] + Join(parts[1..], d)
  }

  lemma {:induction false} JoinSplit<T>(s: seq<T>, d: T)
    ensures Join(Split(s, d), d) == s
    decreases |s|
  {
    var i := Find(s, {d});
    if i < |s| {
      JoinSplit(s[i + 1..], d);
      HeadTail(s[..i], Split(s[i + 1..], d));
      CutAt(s, i);
    }
  }

  lemma {:induction false} JoinConcat<T>(a: seq<seq<T>>, b: seq<seq<T>>, d: T)
    requires a != [] && b != []
    ensures Join(a + b, d) == Join(a, d) + [d] + Join(b, d)
    ensures Join([a[0]], d) == a[0]
  {
    assert (a + b)[0] == a[0] && (a + b)[1..] == a[1..] + b;
    if |a| == 1 {
      assert a[1..] + b == b;
    } else {
      JoinConcat(a[1..], b, d);
      Assoc(a[0] + [d], Join(a[1..], d), [d]);
      Assoc(a[0] + [d], Join(a[1..], d) + [d], Join(b, d));
    }
  }

  lemma CutAt<T>(s: seq<T>, i: nat)
    requires i < |s|
    ensures s == s[..i] + [s[i]] + s[i + 1..]
  {
  }

  lemma {:induction false} SplitAvoids<T>(s: seq<T>, d: T)
    ensures forall k | 0 <= k < |Split(s, d)| :: Avoids(Split(s, d)[k], {d})
    decreases |s|
  {
    var i := Find(s, {d});
    if i < |s| {
      SplitAvoids(s[i + 1..], d);
    } else {
      Empty(s);
    }
  }

  /** Splitting peels off the text before the first delimiter. */
  lemma SplitPeel<T>(a: seq<T>, b: seq<T>, d: T)
    requires Avoids(a, {d})
    ensures Split(a, d) == [a]
    ensures Split(a + [d] + b, d) == [a] + Split(b, d)
  {
    Empty(a);
    FindConcat(a, [], {d});
    Assoc(a, [d], b);
    FindConcat(a, [d] + b, {d});
    DropPrefix(a + [d], b);
  }

  lemma {:induction false} SplitJoin<T>(parts: seq<seq<T>>, d: T)
    requires |parts| >= 1
    requires forall k | 0 <= k < |parts| :: Avoids(parts[k], {d})
    ensures Split(Join(parts, d), d) == parts
  {
    SplitPeel(parts[0], Join(parts[1..], d), d);
    if |parts| > 1 {
      SplitJoin(parts[1..], d);
      Uncons(parts);
    }
  }
}
