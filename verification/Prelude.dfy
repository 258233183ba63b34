/** Small shared vocabulary: optional values and duplicate-free sequences. */
module Prelude {

  datatype Option<+T> = None | Some(value: T)

  function Min(a: int, b: int): int {
    if a <= b then a else b
  }

  function Max(a: int, b: int): int {
    if a <= b then b else a
  }

  ghost predicate NoDuplicates<T>(s: seq<T>) {
    forall i, j :: 0 <= i < j < |s| ==> s[i] != s[j]
  }

  /** The elements of a sequence, as a set. */
  function Elements<T>(s: seq<T>): set<T> {
    set x | x in s
  }

  /** Walking through a duplicate-free list adds one new element at a time. */
  lemma NextInOrder<T>(s: seq<T>, i: nat)
    requires NoDuplicates(s) && i < |s|
    ensures s[i] !in Elements(s[..i])
    ensures Elements(s[..i + 1]) == Elements(s[..i]) + {s[i]}
  {
    assert s[..i + 1] == s[..i] + [s[i]];
  }

  /** A finite set listed in some order: the rows of a query without ORDER BY. */
  method Enumerate<T(==)>(s: set<T>) returns (q: seq<T>)
    ensures NoDuplicates(q)
    ensures forall x :: x in q <==> x in s
    ensures |q| == |s|
  {
    q := [];
    var rest := s;
    while rest != {}
      invariant rest <= s
      invariant NoDuplicates(q)
      invariant forall x :: x in q <==> x in s - rest
      invariant |q| + |rest| == |s|
      decreases rest
    {
      var x :| x in rest;
      assert x !in q && forall i :: 0 <= i < |q| ==> q[i] in q;
      q := q + [x];
      rest := rest - {x};
    }
  }

  /** Some `limit` elements of a set, or all if there are fewer: a query with LIMIT. */
  method TakeSome<T(==)>(s: set<T>, limit: nat) returns (t: set<T>)
    ensures t <= s && |t| == Min(|s|, limit)
  {
    t := {};
    var rest := s;
    while rest != {} && |t| < limit
      invariant t <= s && rest == s - t
      invariant |t| + |rest| == |s| && |t| <= limit
      decreases rest
    {
      var x :| x in rest;
      t := t + {x};
      rest := rest - {x};
    }
  }
}
