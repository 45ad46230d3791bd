/** Bytes, optional values, concatenation of lists of sequences, and divisibility by repeated
    subtraction. */
module Bytes {
  type byte = x: int | 0 <= x < 256

  datatype Option<+T> = None | Some(value: T)

  predicate MultipleOf(x: nat, d: nat)
    requires d > 0
  {
    x == 0 || (x >= d && MultipleOf(x - d, d))
  }

  lemma {:induction false} MultipleOfIsMod(x: nat, d: nat)
    requires d > 0
    ensures MultipleOf(x, d) <==> x % d == 0
    decreases x
  {
    if x >= d {
      MultipleOfIsMod(x - d, d);
      WrapOnce(x, d);
    }
  }

  lemma WrapOnce(k: nat, size: nat)
    requires 0 < size <= k
    ensures (k - size) % size == k % size
  {
    var q, r := (k - size) / size, (k - size) % size;
    assert k == (q + 1) * size + r;
    var d := k / size - (q + 1);
    assert d * size == r - k % size;
    MultipleIsFar(d, size);
  }

  lemma {:induction false} MultipleIsFar(d: int, size: int)
    requires size > 0
    ensures d > 0 ==> d * size >= size
    ensures d < 0 ==> d * size <= -size
    decreases if d < 0 then -d else d
  {
    if d > 1 {
      MultipleIsFar(d - 1, size);
      assert d * size == (d - 1) * size + size;
    } else if d < -1 {
      MultipleIsFar(d + 1, size);
      assert d * size == (d + 1) * size - size;
    }
  }

  function Concat<T>(parts: seq<seq<T>>): (s: seq<T>)
  {
    if parts == [] then [] else parts[0] + Concat(parts[1..])
  }

  lemma {:induction false} ConcatAppend<T>(a: seq<seq<T>>, b: seq<seq<T>>)
    ensures Concat(a + b) == Concat(a) + Concat(b)
  {
    if a == [] {
      assert a + b == b;
    } else {
      var s := a + b;
      assert s[1..] == a[1..] + b && s[0] == a[0];
      ConcatAppend(a[1..], b);
      assert Concat(s) == a[0] + (Concat(a[1..]) + Concat(b));
    }
  }

  lemma Regroup<T>(a: seq<T>, b: seq<T>, c: seq<T>)
    ensures a + (b + c) == a + b + c
  {
  }

  lemma ConcatSnoc<T>(a: seq<seq<T>>, x: seq<T>)
    ensures Concat(a + [x]) == Concat(a) + x
  {
    ConcatAppend(a, [x]);
    assert Concat([x]) == x;
  }

  lemma SliceOfSlice<T>(t: seq<T>, a: nat, b: nat, c: nat)
    requires b <= c && a + c <= |t|
    ensures t[a..][b..c] == t[a + b..a + c]
  {
  }

  lemma DropTwice<T>(t: seq<T>, a: nat, b: nat)
    requires a + b <= |t|
    ensures t[a..][b..] == t[a + b..]
  {
  }

  lemma WithinTake<T>(t: seq<T>, n: nat, lo: nat, hi: nat)
    requires lo <= hi <= n <= |t|
    ensures t[..n][lo..hi] == t[lo..hi]
  {
  }

  lemma DropOfSum<T>(a: seq<T>, b: seq<T>, n: nat)
    requires n <= |a|
    ensures (a + b)[n..] == a[n..] + b && (a + b)[n..|a + b|] == a[n..] + b
    ensures (a + b)[0..|a|] == a
  {
  }
}
