/** Shared vocabulary: optional values, results, and the key order of the ordered maps. */
module Basics {
  datatype Option<+T> = None | Some(value: T)

  datatype Result<+T, +E> = Ok(value: T) | Err(error: E)

  /** The unit value of operations that only succeed or fail. */
  datatype Unit = Unit

  const I32_MIN: int := -0x8000_0000
  const I32_MAX: int := 0x7fff_ffff
  const U32_MAX: int := 0xffff_ffff
  const USIZE_MAX: int := 0xffff_ffff_ffff_ffff

  type I32 = x: int | I32_MIN <= x <= I32_MAX
  type U32 = x: int | 0 <= x <= U32_MAX
  type Usize = x: int | 0 <= x <= USIZE_MAX
  type Byte = x: int | 0 <= x < 256

  datatype Size = Size(width: I32, height: I32)

  datatype Rect = Rect(x: I32, y: I32, width: I32, height: I32)

  predicate IsEmptyRect(r: Rect) {
    r.width <= 0 || r.height <= 0
  }

  function Max(a: int, b: int): int {
    if a < b then b else a
  }

  function Min(a: int, b: int): int {
    if a < b then a else b
  }

  /** Rust's saturating arithmetic on `i32`: the exact result moved to the nearest bound. */
  function SaturateI32(x: int): I32 {
    Max(I32_MIN, Min(I32_MAX, x))
  }

  /** Rust's saturating arithmetic on a 64-bit `usize`. */
  function SaturateUsize(x: int): Usize {
    Max(0, Min(USIZE_MAX, x))
  }

  /** Rust's checked arithmetic: None where the exact result leaves the type. */
  function CheckedI32(x: int): Option<I32> {
    if I32_MIN <= x <= I32_MAX then Some(x) else None
  }

  function CheckedUsize(x: int): Option<Usize> {
    if 0 <= x <= USIZE_MAX then Some(x) else None
  }

  ghost predicate IsLeast(s: set<nat>, least: nat) {
    least in s && forall y :: y in s ==> least <= y
  }

  lemma {:induction false} HasLeast(s: set<nat>)
    requires s != {}
    ensures exists least :: IsLeast(s, least)
  {
    var x :| x in s;
    var rest := s - {x};
    assert forall y :: y in s ==> y == x || y in rest;
    if rest == {} {
      assert IsLeast(s, x);
    } else {
      HasLeast(rest);
      var other :| IsLeast(rest, other);
      assert IsLeast(s, if other < x then other else x);
    }
  }

  function Least(s: set<nat>): (least: nat)
    requires s != {}
    ensures IsLeast(s, least)
  {
    HasLeast(s);
    assert exists least :: least in s && forall y :: y in s ==> least <= y by {
      var least :| IsLeast(s, least);
      assert least in s;
    }
    var least: nat :| least in s && forall y :: y in s ==> least <= y;
    least
  }

  predicate Increasing(r: seq<nat>) {
    forall i, j :: 0 <= i < j < |r| ==> r[i] < r[j]
  }

  /** The iteration order of an ordered map or set: its keys, ascending. */
  function Ascending(s: set<nat>): (r: seq<nat>)
    ensures forall k :: k in r <==> k in s
    ensures Increasing(r)
    ensures multiset(r) == multiset(s)
  {
    if s == {} then
      []
    else
      var least := Least(s);
      var rest := s - {least};
      assert s == {least} + rest;
      [least] + Ascending(rest)
  }

  predicate Distinct<T(==)>(r: seq<T>) {
    forall i, j :: 0 <= i < j < |r| ==> r[i] != r[j]
  }

  lemma IncreasingIsDistinct(r: seq<nat>)
    requires Increasing(r)
    ensures Distinct(r)
  {
  }

  lemma {:induction false} DistinctMultiset<T>(r: seq<T>)
    requires Distinct(r)
    ensures forall x :: x in r ==> multiset(r)[x] == 1
  {
    if r != [] {
      assert r == [r[0]] + r[1..];
      DistinctMultiset(r[1..]);
    }
  }

  /** There is only one ascending listing of a set. */
  lemma {:induction false} IncreasingIsUnique(a: seq<nat>, b: seq<nat>)
    requires Increasing(a) && Increasing(b) && forall x :: x in a <==> x in b
    ensures a == b
  {
    assert a != [] ==> a[0] in b;
    assert b != [] ==> b[0] in a;
    if a != [] {
      assert a[0] == b[0];
      forall x ensures x in a[1..] <==> x in b[1..] {
        assert x in a[1..] <==> x in a && x != a[0];
        assert x in b[1..] <==> x in b && x != b[0];
      }
      IncreasingIsUnique(a[1..], b[1..]);
    }
  }

  lemma SubsetIsSmaller<T>(a: set<T>, b: set<T>)
    requires a <= b
    ensures |a| <= |b|
  {
    assert b == a + (b - a);
  }

  lemma DistinctParts<T>(a: seq<T>, b: seq<T>)
    ensures Distinct(a + b) <==> Distinct(a) && Distinct(b) && forall t :: t in a ==> t !in b
  {
    var c := a + b;
    if Distinct(c) {
      forall i, j | 0 <= i < j < |a| ensures a[i] != a[j] {
        assert c[i] != c[j];
      }
      forall i, j | 0 <= i < j < |b| ensures b[i] != b[j] {
        assert c[|a| + i] != c[|a| + j];
      }
      forall i, j | 0 <= i < |a| && 0 <= j < |b| ensures a[i] != b[j] {
        assert c[i] != c[|a| + j];
      }
    }
    if Distinct(a) && Distinct(b) && forall t :: t in a ==> t !in b {
      forall i, j | 0 <= i < j < |c| ensures c[i] != c[j] {
        assert c[i] == (if i < |a| then a[i] else b[i - |a|]);
        assert c[j] == (if j < |a| then a[j] else b[j - |a|]);
        if i < |a| <= j {
          assert c[i] in a && c[j] in b;
        }
      }
    }
  }

  lemma MulMonotone(a: int, b: int, s: int)
    requires a <= b && 0 <= s
    ensures a * s <= b * s
  {
  }
}
