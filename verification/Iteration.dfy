// Iterating a step function and folding one over data, for any state type.

module Iteration {

  function Iterate<S>(n: nat, f: S -> S, x: S): S
    decreases n
  {
    if n == 0 then x else Iterate(n - 1, f, f(x))
  }

  /** Feeds the data to the state, first element first. */
  function Fold<S, D>(f: (S, D) -> S, s: S, data: seq<D>): S
    decreases |data|
  {
    if data == [] then s else Fold(f, f(s, data[0]), data[1..])
  }

  /** Takes the data back out again, last element first. */
  function Unfold<S, D>(g: (S, D) -> S, s: S, data: seq<D>): S
    decreases |data|
  {
    if data == [] then s else g(Unfold(g, s, data[1..]), data[0])
  }

  lemma {:induction false} IterateSplit<S>(m: nat, n: nat, f: S -> S, x: S)
    ensures Iterate(m + n, f, x) == Iterate(n, f, Iterate(m, f, x))
    decreases m
  {
    if m > 0 {
      IterateSplit(m - 1, n, f, f(x));
    }
  }

  lemma Iterate8<S>(f: S -> S, x: S)
    ensures Iterate(8, f, x) == f(f(f(f(f(f(f(f(x))))))))
  {
    IterateSplit(4, 4, f, x);
    assert forall y :: Iterate(4, f, y) == f(f(f(f(y))));
  }

  lemma {:induction false} IterateHomomorphism<S(!new)>(n: nat, f: S -> S, op: (S, S) -> S, a: S, b: S)
    requires forall x, y :: f(op(x, y)) == op(f(x), f(y))
    ensures Iterate(n, f, op(a, b)) == op(Iterate(n, f, a), Iterate(n, f, b))
    decreases n
  {
    if n > 0 {
      assert f(op(a, b)) == op(f(a), f(b));
      IterateHomomorphism(n - 1, f, op, f(a), f(b));
    }
  }

  lemma {:induction false} IterateInverse<S(!new)>(n: nat, f: S -> S, g: S -> S, x: S)
    requires forall y :: g(f(y)) == y
    ensures Iterate(n, g, Iterate(n, f, x)) == x
    decreases n
  {
    if n > 0 {
      IterateInverse(n - 1, f, g, f(x));
      IterateSplit(n - 1, 1, g, Iterate(n - 1, f, f(x)));
    }
  }

  lemma {:induction false} FoldConcat<S, D>(f: (S, D) -> S, s: S, a: seq<D>, b: seq<D>)
    ensures Fold(f, s, a + b) == Fold(f, Fold(f, s, a), b)
    decreases |a|
  {
    if a == [] {
      assert a + b == b;
    } else {
      assert (a + b)[1..] == a[1..] + b;
      FoldConcat(f, f(s, a[0]), a[1..], b);
    }
  }

  lemma FoldShort<S, D>(f: (S, D) -> S, s: S, data: seq<D>)
    ensures |data| == 1 ==> Fold(f, s, data) == f(s, data[0])
    ensures |data| == 2 ==> Fold(f, s, data) == f(f(s, data[0]), data[1])
    decreases |data|
  {
    if |data| == 1 {
      assert data[1..] == [];
    } else if |data| == 2 {
      assert Fold(f, s, data) == Fold(f, f(s, data[0]), data[1..]);
      FoldShort(f, f(s, data[0]), data[1..]);
    }
  }

  /** A step that can be undone element by element makes the whole fold a bijection. */
  lemma {:induction false} FoldBijective<S(!new), D(!new)>(f: (S, D) -> S, g: (S, D) -> S, s: S, data: seq<D>)
    requires forall x, d :: g(f(x, d), d) == x
    requires forall x, d :: f(g(x, d), d) == x
    ensures Unfold(g, Fold(f, s, data), data) == s
    ensures Fold(f, Unfold(g, s, data), data) == s
    decreases |data|
  {
    if data != [] {
      FoldBijective(f, g, f(s, data[0]), data[1..]);
      FoldBijective(f, g, s, data[1..]);
    }
  }

  function Reverse<D>(data: seq<D>): (r: seq<D>)
    ensures |r| == |data|
    ensures forall i :: 0 <= i < |data| ==> r[i] == data[|data| - 1 - i]
  {
    if data == [] then [] else Reverse(data[1..]) + [data[0]]
  }

  function Assemble<D, W>(cons: (D, W) -> W, nil: W, x: seq<D>): W
    decreases |x|
  {
    if x == [] then nil else cons(x[0], Assemble(cons, nil, x[1..]))
  }

  function Disassemble<D, W>(head: W -> D, tail: W -> W, n: nat, w: W): seq<D> {
    if n == 0 then [] else [head(w)] + Disassemble(head, tail, n - 1, tail(w))
  }

  /** Taking apart what was assembled, as long as it `fits`. */
  lemma {:induction false} AssembleRoundTrip<D(!new), W(!new)>(
    cons: (D, W) -> W, nil: W, head: W -> D, tail: W -> W, fits: (nat, W) -> bool, max: nat, x: seq<D>)
    requires fits(0, nil)
    requires forall n: nat, d, w :: n < max && fits(n, w) ==>
               fits(n + 1, cons(d, w)) && head(cons(d, w)) == d && tail(cons(d, w)) == w
    requires |x| <= max
    ensures fits(|x|, Assemble(cons, nil, x))
    ensures Disassemble(head, tail, |x|, Assemble(cons, nil, x)) == x
    decreases |x|
  {
    if x != [] {
      AssembleRoundTrip(cons, nil, head, tail, fits, max, x[1..]);
      var w := Assemble(cons, nil, x[1..]);
      assert fits(|x[1..]|, w);
      assert head(cons(x[0], w)) == x[0] && tail(cons(x[0], w)) == w;
    }
  }

  /** The order in which the CRC update routines consume their data: at most 8 bytes
      are read as one little-endian integer, last byte first. */
  function Consumed<D>(data: seq<D>): (r: seq<D>)
    ensures |r| == |data|
    ensures forall i :: 0 <= i < |data| ==> r[i] == data[if |data| <= 8 then |data| - 1 - i else i]
  {
    if |data| <= 8 then Reverse(data) else data
  }

  /** Equal lengths, and equal outside the `width` elements from `i` on. */
  ghost predicate DifferWithin<D>(a: seq<D>, b: seq<D>, i: nat, width: nat) {
    |a| == |b| && forall j :: 0 <= j < |a| && !(i <= j < i + width) ==> a[j] == b[j]
  }

  lemma ConsumedBurst<D>(a: seq<D>, b: seq<D>, i: nat, width: nat) returns (k: nat)
    requires DifferWithin(a, b, i, width) && a != b
    ensures DifferWithin(Consumed(a), Consumed(b), k, width) && Consumed(a) != Consumed(b)
  {
    var n := |a|;
    if n <= 8 {
      k := if n - i - width >= 0 then n - i - width else 0;
      forall j | 0 <= j < n && !(k <= j < k + width)
        ensures Consumed(a)[j] == Consumed(b)[j]
      {
        assert !(i <= n - 1 - j < i + width);
      }
      var d :| 0 <= d < n && a[d] != b[d];
      assert Consumed(a)[n - 1 - d] != Consumed(b)[n - 1 - d];
    } else {
      k := i;
    }
  }
}
