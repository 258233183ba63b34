/** auto-start-migrations-fns.ts: how the history of a database compares with the
    migrations an image bundles. */
module BootDirection {
  import opened Prelude

  type Name = string

  datatype Direction = Ahead | Behind | Current | Invalid

  datatype BootState = BootState(direction: Direction, unknownApplied: seq<Name>, pending: seq<Name>)

  /** The names that are not in `known`, in their original order. */
  function Unknown(names: seq<Name>, known: set<Name>): (r: seq<Name>)
    ensures forall n :: n in r <==> n in names && n !in known
    ensures |r| <= |names|
  {
    if names == [] then []
    else
      var rest := Unknown(names[1..], known);
      if names[0] in known then rest else [names[0]] + rest
  }

  function GetMigrationBootDirection(applied: seq<Name>, bundled: seq<Name>): BootState {
    var unknownApplied := Unknown(applied, Elements(bundled));
    var pending := Unknown(bundled, Elements(applied));
    if unknownApplied != [] && pending != [] then BootState(Invalid, unknownApplied, pending)
    else if unknownApplied != [] then BootState(Ahead, unknownApplied, [])
    else if pending != [] then BootState(Behind, [], pending)
    else BootState(Current, [], [])
  }

  /** The four directions are exactly the four ways two sets can compare; the names reported are the two
      differences, each in the order of its list. */
  lemma DirectionIsSetComparison(applied: seq<Name>, bundled: seq<Name>)
    ensures var s := GetMigrationBootDirection(applied, bundled);
            var a, b := Elements(applied), Elements(bundled);
            && (s.direction == Current <==> a == b)
            && (s.direction == Behind <==> a < b)
            && (s.direction == Ahead <==> b < a)
            && (s.direction == Invalid <==> !(a <= b) && !(b <= a))
            && Elements(s.unknownApplied) == a - b
            && Elements(s.pending) == b - a
            && s.unknownApplied == Unknown(applied, b) && s.pending == Unknown(bundled, a)
  {
    var a, b := Elements(applied), Elements(bundled);
    var u, p := Unknown(applied, b), Unknown(bundled, a);
    assert Elements(u) == a - b;
    assert Elements(p) == b - a;
    assert u == [] <==> a <= b by {
      assert u != [] ==> u[0] in a - b;
    }
    assert p == [] <==> b <= a by {
      assert p != [] ==> p[0] in b - a;
    }
    assert u == [] ==> Elements(u) == {};
    assert p == [] ==> Elements(p) == {};
  }

  /** Filtering works name by name: with the filter of a single name this determines it, order and
      repetitions included. */
  lemma {:induction false} UnknownConcat(a: seq<Name>, b: seq<Name>, known: set<Name>)
    ensures Unknown(a + b, known) == Unknown(a, known) + Unknown(b, known)
    decreases |a|
  {
    if a == [] {
      assert a + b == b;
    } else {
      assert (a + b)[1..] == a[1..] + b;
      UnknownConcat(a[1..], b, known);
    }
  }

  lemma UnknownAround(a: seq<Name>, x: Name, b: seq<Name>, known: set<Name>)
    requires x !in known
    ensures Unknown(a + [x] + b, known) == Unknown(a, known) + [x] + Unknown(b, known)
  {
    UnknownConcat(a + [x], b, known);
    UnknownConcat(a, [x], known);
  }

  /** Of two names that are both missing, the one that came first still does. */
  lemma UnknownKeepsOrder(a: seq<Name>, x: Name, b: seq<Name>, y: Name, c: seq<Name>, known: set<Name>)
    requires x !in known && y !in known
    ensures Unknown(a + [x] + b + [y] + c, known)
         == Unknown(a, known) + [x] + Unknown(b, known) + [y] + Unknown(c, known)
  {
    UnknownAround(a + [x] + b, y, c, known);
    UnknownAround(a, x, b, known);
  }

  /** The first missing name is preceded by known names only; once it is known too, the others are
      what is missing, in the same order. */
  lemma {:induction false} FirstUnknown(names: seq<Name>, known: set<Name>)
    requires NoDuplicates(names) && Unknown(names, known) != []
    ensures var r := Unknown(names, known);
            && (forall p, q :: 0 <= p < q < |names| && names[q] == r[0] ==> names[p] in known)
            && Unknown(names, known + {r[0]}) == r[1..]
    decreases |names|
  {
    if names[0] in known {
      FirstUnknown(names[1..], known);
    } else {
      assert names[0] !in names[1..];
      UnknownIgnores(names[1..], known, names[0]);
    }
  }

  lemma {:induction false} UnknownIgnores(names: seq<Name>, known: set<Name>, x: Name)
    requires x !in names
    ensures Unknown(names, known + {x}) == Unknown(names, known)
    decreases |names|
  {
    if names != [] {
      UnknownIgnores(names[1..], known, x);
    }
  }
}
