/** Order-preserving filtering of sequences: the model of a Python list
    comprehension `[x for x in s if f(x)]`. */
module Seqs {

  /** The elements of `s` that satisfy `f`, in their order in `s`. Defined
      from the right end so that a loop appending to a list can be
      specified by it. */
  function Filter<T>(f: T -> bool, s: seq<T>): (r: seq<T>)
    ensures |r| <= |s|
  {
    if s == [] then []
    else Filter(f, s[..|s| - 1]) + (if f(s[|s| - 1]) then [s[|s| - 1]] else [])
  }

  /** One more element at the end of the input adds at most that element
      at the end of the output. */
  lemma FilterSnoc<T>(f: T -> bool, s: seq<T>, x: T)
    ensures Filter(f, s + [x]) == Filter(f, s) + (if f(x) then [x] else [])
  {
    assert (s + [x])[..|s|] == s;
  }

  /** Membership in the filtered sequence, both directions. */
  lemma {:induction false} FilterMembers<T>(f: T -> bool, s: seq<T>, x: T)
    ensures x in Filter(f, s) <==> x in s && f(x)
  {
    if s != [] {
      var init := s[..|s| - 1];
      FilterMembers(f, init, x);
      assert s == init + [s[|s| - 1]];
    }
  }

  /** Filtering distributes over concatenation: relative order is kept. */
  lemma {:induction false} FilterConcat<T>(f: T -> bool, a: seq<T>, b: seq<T>)
    ensures Filter(f, a + b) == Filter(f, a) + Filter(f, b)
    decreases |b|
  {
    if b == [] {
      assert a + b == a;
    } else {
      var init := b[..|b| - 1];
      var last := b[|b| - 1];
      assert b == init + [last];
      assert a + b == (a + init) + [last];
      FilterConcat(f, a, init);
      FilterSnoc(f, a + init, last);
      FilterSnoc(f, init, last);
    }
  }

  /** Filtering by `f` and by its negation `g` splits the input: every
      element lands in exactly one of the two outputs. */
  lemma {:induction false} FilterComplement<T>(f: T -> bool, g: T -> bool, s: seq<T>)
    requires forall x :: g(x) == !f(x)
    ensures |Filter(f, s)| + |Filter(g, s)| == |s|
    ensures multiset(Filter(f, s)) + multiset(Filter(g, s)) == multiset(s)
  {
    if s != [] {
      var init, last := s[..|s| - 1], s[|s| - 1];
      FilterComplement(f, g, init);
      assert s == init + [last];
      assert multiset(s) == multiset(init) + multiset{last};
      if f(last) {
        assert Filter(f, s) == Filter(f, init) + [last];
        assert Filter(g, s) == Filter(g, init);
      } else {
        assert Filter(f, s) == Filter(f, init);
        assert Filter(g, s) == Filter(g, init) + [last];
      }
    }
  }

  /** The concatenation of `f(x)` over the elements `x` of `s`, in order:
      the model of a loop that appends a block of values per element.
      Defined from the right end, as such a loop builds it. */
  function FlatMap<T, U>(f: T -> seq<U>, s: seq<T>): seq<U> {
    if s == [] then []
    else FlatMap(f, s[..|s| - 1]) + f(s[|s| - 1])
  }

  /** One more element at the end of the input appends its block. */
  lemma FlatMapSnoc<T, U>(f: T -> seq<U>, s: seq<T>, x: T)
    ensures FlatMap(f, s + [x]) == FlatMap(f, s) + f(x)
  {
    assert (s + [x])[..|s|] == s;
  }

  /** The blocks of `a + b` are the blocks of `a` followed by those of `b`. */
  lemma {:induction false} FlatMapConcat<T, U>(f: T -> seq<U>, a: seq<T>, b: seq<T>)
    ensures FlatMap(f, a + b) == FlatMap(f, a) + FlatMap(f, b)
    decreases |b|
  {
    if b == [] {
      assert a + b == a;
    } else {
      var init, last := b[..|b| - 1], b[|b| - 1];
      assert b == init + [last];
      assert a + b == (a + init) + [last];
      FlatMapConcat(f, a, init);
      FlatMapSnoc(f, a + init, last);
      FlatMapSnoc(f, init, last);
    }
  }

  /** A value is in the concatenation exactly when it is in the block of
      some element. */
  lemma {:induction false} FlatMapMembers<T, U>(f: T -> seq<U>, s: seq<T>, y: U)
    ensures y in FlatMap(f, s) <==> exists x :: x in s && y in f(x)
  {
    if s != [] {
      var init, last := s[..|s| - 1], s[|s| - 1];
      assert s == init + [last];
      FlatMapMembers(f, init, y);
      if y in FlatMap(f, init) {
        var x :| x in init && y in f(x);
        assert x in s;
      }
      if exists x :: x in s && y in f(x) {
        var x :| x in s && y in f(x);
        if x != last {
          assert x in init;
        }
      }
    }
  }
}
