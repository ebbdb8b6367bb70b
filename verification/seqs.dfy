/** Order and uniqueness facts about sequences used across the model. */
module Seqs {

  /** `a` is `b` with some elements left out, the rest kept in order. */
  ghost predicate SubsequenceOf<T>(a: seq<T>, b: seq<T>)
    decreases |b|
  {
    if |a| == 0 then true
    else if |b| == 0 then false
    else if a[0] == b[0] then SubsequenceOf(a[1..], b[1..])
    else SubsequenceOf(a, b[1..])
  }

  /** Number of positions marked true. */
  function CountTrue(bs: seq<bool>): nat
  {
    if |bs| == 0 then 0 else CountTrue(bs[..|bs| - 1]) + (if bs[|bs| - 1] then 1 else 0)
  }

  /** Counting from the front: the head's mark, then the rest. */
  lemma {:induction false} CountTrueCons(b: bool, bs: seq<bool>)
    ensures CountTrue([b] + bs) == (if b then 1 else 0) + CountTrue(bs)
    decreases |bs|
  {
    if |bs| > 0 {
      var n := |bs| - 1;
      assert ([b] + bs)[..n + 1] == [b] + bs[..n];
      CountTrueCons(b, bs[..n]);
    }
  }

  /** `r` lists the marked elements of `xs` in order: one per marked
      position, the element at the i-th position at index "marks before i". */
  ghost predicate Picks<T>(r: seq<T>, xs: seq<T>, marks: seq<bool>)
    requires |marks| == |xs|
  {
    && |r| == CountTrue(marks)
    && forall i :: 0 <= i < |xs| && marks[i] ==>
         CountTrue(marks[..i]) < |r| && r[CountTrue(marks[..i])] == xs[i]
  }

  /** Picking from the front: the head if marked, then the picks of the tail. */
  lemma PicksCons<T>(xs: seq<T>, marks: seq<bool>, rest: seq<T>)
    requires |marks| == |xs| > 0
    requires Picks(rest, xs[1..], marks[1..])
    ensures Picks(if marks[0] then [xs[0]] + rest else rest, xs, marks)
  {
    var r := if marks[0] then [xs[0]] + rest else rest;
    var d := if marks[0] then 1 else 0;
    assert marks == [marks[0]] + marks[1..];
    CountTrueCons(marks[0], marks[1..]);
    forall i | 0 <= i < |xs| && marks[i]
      ensures CountTrue(marks[..i]) < |r| && r[CountTrue(marks[..i])] == xs[i]
    {
      if i == 0 {
        assert marks[..0] == [];
      } else {
        assert marks[..i] == [marks[0]] + marks[1..][..i - 1];
        CountTrueCons(marks[0], marks[1..][..i - 1]);
        assert marks[1..][i - 1] && xs[1..][i - 1] == xs[i];
        assert r[d + CountTrue(marks[1..][..i - 1])] == rest[CountTrue(marks[1..][..i - 1])];
      }
    }
  }

  /** No element occurs twice. */
  ghost predicate NoDup<T>(s: seq<T>)
  {
    forall i, j :: 0 <= i < j < |s| ==> s[i] != s[j]
  }

  lemma {:induction false} SubsequenceElements<T>(a: seq<T>, b: seq<T>)
    requires SubsequenceOf(a, b)
    ensures forall x :: x in a ==> x in b
    decreases |b|
  {
    if |a| > 0 && |b| > 0 {
      if a[0] == b[0] {
        SubsequenceElements(a[1..], b[1..]);
        assert forall x :: x in a ==> x == a[0] || x in a[1..];
      } else {
        SubsequenceElements(a, b[1..]);
      }
    }
  }

  lemma {:induction false} SubsequenceNoDup<T>(a: seq<T>, b: seq<T>)
    requires SubsequenceOf(a, b) && NoDup(b)
    ensures NoDup(a)
    decreases |b|
  {
    if |a| > 0 && |b| > 0 {
      if a[0] == b[0] {
        SubsequenceNoDup(a[1..], b[1..]);
        SubsequenceElements(a[1..], b[1..]);
        assert b[0] !in b[1..];
        assert forall j :: 0 < j < |a| ==> a[j] == a[1..][j - 1];
      } else {
        SubsequenceNoDup(a, b[1..]);
      }
    }
  }

  /** An element in front of the longer sequence may be skipped. */
  lemma {:induction false} SubsequenceSkip<T>(a: seq<T>, b: seq<T>)
    requires |b| > 0 && SubsequenceOf(a, b[1..])
    ensures SubsequenceOf(a, b)
    decreases |b|, 0
  {
    if |a| > 0 && a[0] == b[0] {
      SubsequenceDropHead(a, b[1..]);
    }
  }

  /** `h` in front of `body`: position i + 1 holds the i-th element. */
  function Cons<T>(h: T, body: seq<T>): (r: seq<T>)
    ensures |r| == |body| + 1 && r[0] == h
    ensures forall i :: 0 <= i < |body| ==> r[i + 1] == body[i]
  {
    [h] + body
  }

  /** A list holding the images of the picked elements behind one leading
      entry holds the image of the marked element at position i at its rank
      among the marked positions. */
  lemma PickedImages<T, U>(r: seq<T>, xs: seq<T>, marks: seq<bool>, ys: seq<U>, f: T -> U)
    requires |marks| == |xs| && Picks(r, xs, marks)
    requires |ys| == |r| + 1
    requires forall k :: 0 <= k < |r| ==> ys[k + 1] == f(r[k])
    ensures forall i :: 0 <= i < |xs| && marks[i] ==> ys[CountTrue(marks[..i]) + 1] == f(xs[i])
  {
    forall i | 0 <= i < |xs| && marks[i] ensures ys[CountTrue(marks[..i]) + 1] == f(xs[i]) {
      var k := CountTrue(marks[..i]);
      assert k < |r| && r[k] == xs[i];
    }
  }

  /** Keeping the head of the longer sequence extends a subsequence. */
  lemma SubsequenceKeep<T>(rest: seq<T>, b: seq<T>)
    requires |b| > 0 && SubsequenceOf(rest, b[1..])
    ensures SubsequenceOf([b[0]] + rest, b)
  {
    assert ([b[0]] + rest)[1..] == rest;
  }

  /** Dropping the first element keeps a subsequence a subsequence. */
  lemma {:induction false} SubsequenceDropHead<T>(a: seq<T>, c: seq<T>)
    requires |a| > 0 && SubsequenceOf(a, c)
    ensures SubsequenceOf(a[1..], c)
    decreases |c|, 1
  {
    if a[0] == c[0] {
      SubsequenceSkip(a[1..], c);
    } else {
      SubsequenceDropHead(a, c[1..]);
      SubsequenceSkip(a[1..], c);
    }
  }

  /** Two pieces, one of them empty, can trade places. */
  lemma SwapEmpty<T>(a: seq<T>, b: seq<T>, c: seq<T>)
    requires a == [] || b == []
    ensures a + (b + c) == b + (a + c)
  {
    if a == [] {
      assert a + (b + c) == b + c && a + c == c;
    } else {
      assert b + c == c && b + (a + c) == a + c;
    }
  }

  /** A list without repeats has as many distinct members as positions. */
  lemma {:induction false} NoDupCard<T>(xs: seq<T>)
    requires NoDup(xs)
    ensures |set x | x in xs| == |xs|
    decreases |xs|
  {
    if |xs| > 0 {
      var n := |xs| - 1;
      var init := xs[..n];
      assert NoDup(init) by {
        forall i, j | 0 <= i < j < |init| ensures init[i] != init[j] {
          assert init[i] == xs[i] && init[j] == xs[j];
        }
      }
      NoDupCard(init);
      assert (set x | x in xs) == (set x | x in init) + {xs[n]} by {
        assert xs == init + [xs[n]];
      }
    }
  }
}
