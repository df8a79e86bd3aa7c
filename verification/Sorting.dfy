/** Go's byte-wise string order and sort.Strings. */
module Sorting {
  import opened Bytes

  predicate Leq(a: Str, b: Str)
  {
    || a == []
    || (b != [] && (a[0] < b[0] || (a[0] == b[0] && Leq(a[1..], b[1..]))))
  }

  /** The first different byte is at `i`, and `a` has the smaller one. */
  predicate SmallerAt(a: Str, b: Str, i: nat)
  {
    i < |a| && i < |b| && a[..i] == b[..i] && a[i] < b[i]
  }

  lemma SmallerInTail(a: Str, b: Str, i: nat)
    requires a != [] && b != [] && a[0] == b[0]
    ensures SmallerAt(a, b, i + 1) <==> SmallerAt(a[1..], b[1..], i)
  {
    if i + 1 < |a| && i + 1 < |b| {
      assert a[..i + 1] == [a[0]] + a[1..][..i] && b[..i + 1] == [b[0]] + b[1..][..i];
      assert a[1..][..i] == a[..i + 1][1..] && b[1..][..i] == b[..i + 1][1..];
    }
  }

  /** The order by position: a beginning comes first, otherwise the first different byte decides. */
  lemma {:induction false} LeqIff(a: Str, b: Str)
    ensures Leq(a, b) <==> a <= b || exists i: nat :: SmallerAt(a, b, i)
  {
    if a != [] && b != [] {
      if a[0] == b[0] {
        LeqIff(a[1..], b[1..]);
        assert a == [a[0]] + a[1..] && b == [b[0]] + b[1..];
        hide SmallerAt;
        assert !SmallerAt(a, b, 0) by { FirstBytes(a, b); }
        forall i: nat ensures SmallerAt(a, b, i + 1) <==> SmallerAt(a[1..], b[1..], i) { SmallerInTail(a, b, i); }
        forall i: nat | SmallerAt(a, b, i) ensures SmallerAt(a[1..], b[1..], i - 1) { SmallerInTail(a, b, i - 1); }
      } else {
        hide SmallerAt;
        FirstBytes(a, b);
      }
    }
  }

  lemma FirstBytes(a: Str, b: Str)
    requires a != [] && b != []
    ensures SmallerAt(a, b, 0) <==> a[0] < b[0]
    ensures a[0] != b[0] ==> forall i: nat :: i > 0 ==> !SmallerAt(a, b, i)
  {
    forall i: nat | 0 < i < |a| && i < |b| ensures a[0] != b[0] ==> a[..i] != b[..i] {
      assert a[..i][0] == a[0] && b[..i][0] == b[0];
    }
  }

  lemma {:induction false} LeqTotal(a: Str, b: Str)
    ensures Leq(a, b) || Leq(b, a)
    ensures Leq(a, b) && Leq(b, a) ==> a == b
  {
    if a != [] && b != [] {
      LeqTotal(a[1..], b[1..]);
      assert a == [a[0]] + a[1..] && b == [b[0]] + b[1..];
    }
  }

  lemma {:induction false} LeqTransitive(a: Str, b: Str, c: Str)
    requires Leq(a, b) && Leq(b, c)
    ensures Leq(a, c)
  {
    if a != [] && a[0] == b[0] == c[0] {
      LeqTransitive(a[1..], b[1..], c[1..]);
    }
  }

  /** Paths under one directory compare as their file names do. */
  lemma {:induction false} LeqSharedPrefix(p: Str, a: Str, b: Str)
    ensures Leq(p + a, p + b) <==> Leq(a, b)
  {
    if p == [] {
      assert p + a == a && p + b == b;
    } else {
      assert (p + a)[1..] == p[1..] + a && (p + b)[1..] == p[1..] + b;
      LeqSharedPrefix(p[1..], a, b);
    }
  }

  ghost predicate Ascending(xs: seq<Str>)
  {
    forall i, j :: 0 <= i < j < |xs| ==> Leq(xs[i], xs[j])
  }

  function Insert(x: Str, xs: seq<Str>): seq<Str>
  {
    if xs == [] || Leq(x, xs[0]) then [x] + xs else [xs[0]] + Insert(x, xs[1..])
  }

  /** The ascending arrangement; SortUnique shows that there is no other. */
  function Sort(xs: seq<Str>): seq<Str>
  {
    if xs == [] then [] else Insert(xs[0], Sort(xs[1..]))
  }

  /** An element below `x` and below all of `xs` goes in front of any arrangement of them. */
  lemma AscendingCons(first: Str, rest: seq<Str>, x: Str, xs: seq<Str>)
    requires Ascending(rest) && multiset(rest) == multiset{x} + multiset(xs)
    requires Leq(first, x) && forall j :: 0 <= j < |xs| ==> Leq(first, xs[j])
    ensures Ascending([first] + rest)
  {
    hide Leq;
    forall j | 0 <= j < |rest| ensures Leq(first, rest[j]) {
      assert rest[j] in multiset(rest);
      assert rest[j] == x || rest[j] in xs;
    }
  }

  lemma {:induction false} InsertCorrect(x: Str, xs: seq<Str>)
    requires Ascending(xs)
    ensures Ascending(Insert(x, xs))
    ensures multiset(Insert(x, xs)) == multiset{x} + multiset(xs)
  {
    if xs != [] {
      LeqTotal(x, xs[0]);
      hide Leq;
      if Leq(x, xs[0]) {
        forall j | 0 <= j < |xs| ensures Leq(x, xs[j]) {
          if j > 0 { LeqTransitive(x, xs[0], xs[j]); }
        }
      } else {
        var rest := Insert(x, xs[1..]);
        InsertCorrect(x, xs[1..]);
        assert xs == [xs[0]] + xs[1..];
        AscendingCons(xs[0], rest, x, xs[1..]);
      }
    }
  }

  lemma {:induction false} SortCorrect(xs: seq<Str>)
    ensures Ascending(Sort(xs))
    ensures multiset(Sort(xs)) == multiset(xs)
  {
    if xs != [] {
      SortCorrect(xs[1..]);
      InsertCorrect(xs[0], Sort(xs[1..]));
      assert xs == [xs[0]] + xs[1..];
    }
  }

  /** The first element of an ascending list is below every element. */
  lemma FirstIsLeast(xs: seq<Str>, y: Str)
    requires Ascending(xs) && y in xs
    ensures Leq(xs[0], y)
  {
    var i :| 0 <= i < |xs| && xs[i] == y;
    LeqTotal(y, y);
  }

  lemma MultisetTail(xs: seq<Str>)
    requires xs != []
    ensures multiset(xs) == multiset{xs[0]} + multiset(xs[1..])
  {
    assert xs == [xs[0]] + xs[1..];
  }

  lemma FirstsAgree(xs: seq<Str>, ys: seq<Str>)
    requires Ascending(xs) && Ascending(ys)
    requires multiset(xs) == multiset(ys) && xs != []
    ensures ys != [] && xs[0] == ys[0]
    ensures multiset(xs[1..]) == multiset(ys[1..])
  {
    hide Leq, Ascending;
    assert |multiset(xs)| == |multiset(ys)|;
    assert xs[0] in multiset(ys) && ys[0] in multiset(xs);
    FirstIsLeast(xs, ys[0]);
    FirstIsLeast(ys, xs[0]);
    LeqTotal(xs[0], ys[0]);
    MultisetTail(xs);
    MultisetTail(ys);
    assert multiset(xs[1..]) == multiset(xs) - multiset{xs[0]};
  }

  lemma {:induction false} AscendingUnique(xs: seq<Str>, ys: seq<Str>)
    requires Ascending(xs) && Ascending(ys)
    requires multiset(xs) == multiset(ys)
    ensures xs == ys
  {
    hide Leq;
    if xs == [] {
      assert |multiset(ys)| == 0;
    } else {
      FirstsAgree(xs, ys);
      AscendingUnique(xs[1..], ys[1..]);
      assert xs == [xs[0]] + xs[1..] && ys == [ys[0]] + ys[1..];
    }
  }

  /** Whatever algorithm sort.Strings uses, its result is this one. */
  lemma SortUnique(xs: seq<Str>, ys: seq<Str>)
    requires Ascending(ys) && multiset(ys) == multiset(xs)
    ensures ys == Sort(xs)
  {
    SortCorrect(xs);
    AscendingUnique(ys, Sort(xs));
  }

  function Prefixed(p: Str, names: seq<Str>): seq<Str>
  {
    seq(|names|, i requires 0 <= i < |names| => p + names[i])
  }

  lemma {:induction false} InsertPrefixed(p: Str, x: Str, xs: seq<Str>)
    ensures Insert(p + x, Prefixed(p, xs)) == Prefixed(p, Insert(x, xs))
  {
    if xs == [] {
    } else {
      LeqSharedPrefix(p, x, xs[0]);
      InsertPrefixed(p, x, xs[1..]);
      assert Prefixed(p, xs)[1..] == Prefixed(p, xs[1..]);
    }
  }

  /** Sorting the full paths is sorting the names. */
  lemma {:induction false} SortPrefixed(p: Str, names: seq<Str>)
    ensures Sort(Prefixed(p, names)) == Prefixed(p, Sort(names))
  {
    if names != [] {
      SortPrefixed(p, names[1..]);
      assert Prefixed(p, names)[1..] == Prefixed(p, names[1..]);
      InsertPrefixed(p, names[0], Sort(names[1..]));
    }
  }
}
