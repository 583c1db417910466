/** Small vocabulary shared by every module: optional values, bytes, and concatenation of pieces. */
module Prelude {
  datatype Option<+T> = None | Some(value: T)

  /** An unsigned 8-bit value. */
  type Byte = b: int | 0 <= b < 256

  function Min(a: nat, b: nat): nat {
    if a <= b then a else b
  }

  function Max(a: nat, b: nat): nat {
    if a >= b then a else b
  }

  /** The concatenation of `parts`, in order. */
  function Flatten<T>(parts: seq<seq<T>>): seq<T> {
    if parts == [] then [] else parts[0] + Flatten(parts[1..])
  }

  /** Concatenation is associative. */
  lemma Regroup<T>(a: seq<T>, b: seq<T>, c: seq<T>)
    ensures a + (b + c) == a + b + c
  {
  }

  lemma {:induction false} FlattenSnoc<T>(parts: seq<seq<T>>, last: seq<T>)
    ensures Flatten(parts + [last]) == Flatten(parts) + last
  {
    if parts == [] {
      assert [last][1..] == [];
      assert parts + [last] == [last];
    } else {
      FlattenSnoc(parts[1..], last);
      assert (parts + [last])[1..] == parts[1..] + [last];
    }
  }

  lemma {:induction false} FlattenPrefix<T>(parts: seq<seq<T>>, k: nat)
    requires k <= |parts|
    ensures Flatten(parts[..k]) <= Flatten(parts)
  {
    if k == 0 {
    } else {
      FlattenPrefix(parts[1..], k - 1);
      assert parts[..k][1..] == parts[1..][..k - 1];
    }
  }

  /** `a` can be obtained from `b` by deleting elements, keeping the order. */
  predicate IsSubsequence<T(==)>(a: seq<T>, b: seq<T>)
    decreases |b|
  {
    if a == [] then true
    else if b == [] then false
    else if a[|a| - 1] == b[|b| - 1] then IsSubsequence(a[..|a| - 1], b[..|b| - 1])
    else IsSubsequence(a, b[..|b| - 1])
  }

  /** One more element to choose from does no harm. */
  lemma {:induction false} SubsequenceOfLonger<T>(a: seq<T>, whole: seq<T>, last: T)
    requires IsSubsequence(a, whole)
    ensures IsSubsequence(a, whole + [last])
    decreases |whole|, 1
  {
    var longer := whole + [last];
    assert longer[..|longer| - 1] == whole;
    if a != [] && a[|a| - 1] == last {
      DropLast(a, whole);
    }
  }

  lemma {:induction false} DropLast<T>(a: seq<T>, whole: seq<T>)
    requires a != [] && IsSubsequence(a, whole)
    ensures IsSubsequence(a[..|a| - 1], whole)
    decreases |whole|, 0
  {
    var init := whole[..|whole| - 1];
    assert init + [whole[|whole| - 1]] == whole;
    if a[|a| - 1] == whole[|whole| - 1] {
      SubsequenceOfLonger(a[..|a| - 1], init, whole[|whole| - 1]);
    } else {
      DropLast(a, init);
      SubsequenceOfLonger(a[..|a| - 1], init, whole[|whole| - 1]);
    }
  }
}
