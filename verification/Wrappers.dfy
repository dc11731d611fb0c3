/** Small datatypes and functions shared by the other modules. */
module Wrappers {
  /** A value that may be absent. */
  datatype Option<+T> = None | Some(value: T)

  function Min(a: nat, b: nat): (r: nat)
    ensures r <= a && r <= b && (r == a || r == b)
  {
    if a < b then a else b
  }

  function Max(a: nat, b: nat): (r: nat)
    ensures a <= r && b <= r && (r == a || r == b)
  {
    if a < b then b else a
  }

  /** The elements that satisfy `p`, in order. */
  function Filter<T>(s: seq<T>, p: T -> bool): seq<T> {
    if s == [] then []
    else Filter(s[..|s| - 1], p) + if p(s[|s| - 1]) then [s[|s| - 1]] else []
  }

  lemma {:induction false} FilterAppend<T>(a: seq<T>, b: seq<T>, p: T -> bool)
    ensures Filter(a + b, p) == Filter(a, p) + Filter(b, p)
  {
    if b == [] {
      assert a + b == a;
    } else {
      var c := b[..|b| - 1];
      FilterAppend(a, c, p);
      assert (a + b)[..|a + b| - 1] == a + c;
    }
  }

  lemma {:induction false} FilterOne<T>(x: T, p: T -> bool)
    ensures Filter([x], p) == if p(x) then [x] else []
  {
    assert [x][..0] == [];
  }

  lemma {:induction false} FilterSnoc<T>(s: seq<T>, n: nat, p: T -> bool)
    requires 0 < n <= |s|
    ensures Filter(s[..n], p) == Filter(s[..n - 1], p) + if p(s[n - 1]) then [s[n - 1]] else []
  {
    assert s[..n][..n - 1] == s[..n - 1];
  }
}
