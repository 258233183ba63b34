/** db/migrations/20250115222458_groups-unique-name.ts: give duplicate group names within an
    organization numbered suffixes, then make (orgId, name) unique. */
module GroupNames {
  import opened Prelude
  import opened Decimals

  type Id = string

  /** `rest` stands for the columns the migration does not look at. */
  datatype Group = Group(orgId: string, name: string, createdAt: int, rest: string)

  type Table = map<Id, Group>

  datatype Pair = Pair(orgId: string, name: string)

  // ---------------------------------------------------------------- suffixes

  /** `${name} (${i})`. */
  function Suffixed(name: string, i: nat): string {
    name + " (" + Decimal(i) + ")"
  }

  /** Behind the name comes the last opening parenthesis, and then the digits. */
  lemma SuffixedShape(name: string, i: nat)
    ensures var s, d := Suffixed(name, i), |Decimal(i)|;
            && |s| == |name| + d + 3
            && s[..|name|] == name
            && s[|name| + 1] == '('
            && (forall k :: |name| + 2 <= k < |s| ==> s[k] != '(')
            && s[|name| + 2..|s| - 1] == Decimal(i)
  {
    var s, d := Suffixed(name, i), |Decimal(i)|;
    assert s == name + (" (" + Decimal(i) + ")");
    assert s[|name| + 2..|name| + 2 + d] == Decimal(i);
    forall k | |name| + 2 <= k < |s| ensures s[k] != '(' {
      if k < |s| - 1 {
        assert s[k] == Decimal(i)[k - |name| - 2];
        assert s[k] in Decimal(i);
      }
    }
  }

  /** The suffix can be read back: name and number are determined by the suffixed name. */
  lemma SuffixedInjective(m: string, i: nat, n: string, j: nat)
    requires Suffixed(m, i) == Suffixed(n, j)
    ensures m == n && i == j
  {
    SuffixedShape(m, i);
    SuffixedShape(n, j);
    assert |m| == |n|;
    DecimalInjective(i, j);
  }

  // ---------------------------------------------------------------- the two loops

  /** WHERE orgId = ... AND name = .... */
  function Members(t: Table, p: Pair): set<Id> {
    set id | id in t && t[id].orgId == p.orgId && t[id].name == p.name
  }

  /** GROUP BY orgId, name HAVING count(*) > 1. */
  function Duplicates(t: Table): set<Pair> {
    set id | id in t && |Members(t, Pair(t[id].orgId, t[id].name))| > 1 :: Pair(t[id].orgId, t[id].name)
  }

  /** A result of the inner query: the groups of a pair, ordered by creation time, ties anyhow. */
  ghost predicate ByAge(t: Table, p: Pair, ids: seq<Id>) {
    && NoDuplicates(ids)
    && Elements(ids) == Members(t, p)
    && (forall id :: id in ids ==> id in t)
    && forall i, j :: 0 <= i < j < |ids| ==> t[ids[i]].createdAt <= t[ids[j]].createdAt
  }

  function Rename(t: Table, id: Id, name: string): Table {
    map x | x in t :: if x == id then t[x].(name := name) else t[x]
  }

  /** The inner loop from position `i` on. */
  function RenameFrom(t: Table, name: string, ids: seq<Id>, i: nat): Table
    decreases |ids| - i
  {
    if i >= |ids| then t else RenameFrom(Rename(t, ids[i], Suffixed(name, i)), name, ids, i + 1)
  }

  /** `after` can result from processing the duplicates in the given order. */
  ghost predicate Outcome(t: Table, duplicates: seq<Pair>, after: Table)
    decreases |duplicates|
  {
    if duplicates == [] then after == t
    else exists ids :: ByAge(t, duplicates[0], ids) &&
                       Outcome(RenameFrom(t, duplicates[0].name, ids, 1), duplicates[1..], after)
  }

  /** A result of the outer query. */
  ghost predicate ListsDuplicates(t: Table, duplicates: seq<Pair>) {
    NoDuplicates(duplicates) && Elements(duplicates) == Duplicates(t)
  }

  ghost predicate Unique(t: Table) {
    forall a, b :: a in t && b in t && t[a].orgId == t[b].orgId && t[a].name == t[b].name ==> a == b
  }

  /** Some group already carries a name that the loops are about to hand out in its organization. */
  ghost predicate Collides(t: Table) {
    exists id, p, i: nat :: Clash(t, id, p, i)
  }

  ghost predicate Clash(t: Table, id: Id, p: Pair, i: nat) {
    && id in t && p in Duplicates(t) && 1 <= i < |Members(t, p)|
    && t[id].orgId == p.orgId && t[id].name == Suffixed(p.name, i)
  }

  lemma DuplicatesAreBig(t: Table, p: Pair)
    ensures p in Duplicates(t) <==> |Members(t, p)| > 1
  {
    if |Members(t, p)| > 1 {
      var id :| id in Members(t, p);
      assert p == Pair(t[id].orgId, t[id].name);
    }
  }

  /** What the inner loop does to each row. */
  lemma {:induction false} RenameFromNames(t: Table, name: string, ids: seq<Id>, i: nat)
    requires NoDuplicates(ids) && forall id :: id in ids ==> id in t
    ensures var u := RenameFrom(t, name, ids, i);
            && u.Keys == t.Keys
            && (forall id :: id in t && id !in ids ==> u[id] == t[id])
            && (forall j :: 0 <= j < i && j < |ids| ==> u[ids[j]] == t[ids[j]])
            && (forall j :: i <= j < |ids| ==> u[ids[j]] == t[ids[j]].(name := Suffixed(name, j)))
    decreases |ids| - i
  {
    if i < |ids| {
      var v := Rename(t, ids[i], Suffixed(name, i));
      assert v.Keys == t.Keys;
      RenameFromNames(v, name, ids, i + 1);
      assert forall j :: 0 <= j < |ids| && j != i ==> v[ids[j]] == t[ids[j]];
    }
  }

  /** All rows listed oldest first. */
  method SelectByAge(t: Table, p: Pair) returns (ids: seq<Id>)
    ensures ByAge(t, p, ids)
  {
    ids := [];
    var rest := Members(t, p);
    while rest != {}
      invariant rest <= Members(t, p)
      invariant NoDuplicates(ids) && Elements(ids) == Members(t, p) - rest
      invariant forall id :: id in ids ==> id in t
      invariant forall i, j :: 0 <= i < j < |ids| ==> t[ids[i]].createdAt <= t[ids[j]].createdAt
      invariant forall i, id :: 0 <= i < |ids| && id in rest ==> t[ids[i]].createdAt <= t[id].createdAt
      decreases rest
    {
      var oldest := Oldest(t, rest);
      assert oldest !in Elements(ids);
      var longer := ids + [oldest];
      assert Elements(longer) == Elements(ids) + {oldest};
      ids := longer;
      rest := rest - {oldest};
    }
  }

  method Oldest(t: Table, candidates: set<Id>) returns (oldest: Id)
    requires candidates != {} && candidates <= t.Keys
    ensures oldest in candidates
    ensures forall id :: id in candidates ==> t[oldest].createdAt <= t[id].createdAt
  {
    oldest :| oldest in candidates;
    var rest := candidates - {oldest};
    while rest != {}
      invariant rest <= candidates && oldest in candidates
      invariant forall id :: id in candidates - rest ==> t[oldest].createdAt <= t[id].createdAt
      decreases rest
    {
      var id :| id in rest;
      if t[id].createdAt < t[oldest].createdAt {
        oldest := id;
      }
      rest := rest - {id};
    }
  }

  // ---------------------------------------------------------------- without a collision

  function PairOf(t: Table, id: Id): Pair
    requires id in t
  {
    Pair(t[id].orgId, t[id].name)
  }

  function NameAt(name: string, k: nat): string {
    if k == 0 then name else Suffixed(name, k)
  }

  /** Row `id` of `t` carries the name of position `pos[id]` of its original duplicate set. */
  ghost predicate NamedBy(t0: Table, t: Table, pos: map<Id, nat>) {
    && t.Keys == t0.Keys == pos.Keys
    && forall id :: id in t0 ==> t[id] == t0[id].(name := NameAt(t0[id].name, pos[id]))
  }

  /** The positions within a duplicate set: distinct, below its size, the first one taken, and in
      order of age. */
  ghost predicate Positioned(t0: Table, p: Pair, pos: map<Id, nat>)
    requires pos.Keys == t0.Keys
  {
    && (forall a :: a in Members(t0, p) ==> pos[a] < |Members(t0, p)|)
    && (forall a, b :: a in Members(t0, p) && b in Members(t0, p) && pos[a] == pos[b] ==> a == b)
    && (forall a, b ::
          a in Members(t0, p) && b in Members(t0, p) && pos[a] <= pos[b] ==> t0[a].createdAt <= t0[b].createdAt)
    && (exists a :: a in Members(t0, p) && pos[a] == 0)
  }

  ghost predicate Numbered(t0: Table, t: Table, done: set<Pair>, pos: map<Id, nat>) {
    && NamedBy(t0, t, pos)
    && (forall id :: id in t0 && PairOf(t0, id) !in done ==> pos[id] == 0)
    && (forall p :: p in done ==> Positioned(t0, p, pos))
  }

  /** Every group outside the duplicate sets is untouched; in a duplicate set the oldest group keeps
      its name and the others carry it with the distinct numbers 1, 2, ... in order of age. */
  ghost predicate Renumbered(t0: Table, t: Table) {
    exists pos :: Numbered(t0, t, Duplicates(t0), pos)
  }

  lemma PositionBound(t0: Table, pos: map<Id, nat>, id: Id)
    requires pos.Keys == t0.Keys && id in t0 && Positioned(t0, PairOf(t0, id), pos)
    ensures pos[id] < |Members(t0, PairOf(t0, id))|
  {
    assert id in Members(t0, PairOf(t0, id));
  }

  /** A group that kept its original name and one that got a number do not share a name, if the
      first one's name is not to be handed out. */
  lemma NumberedNameIsNew(t0: Table, pos: map<Id, nat>, a: Id, b: Id)
    requires !Collides(t0) && pos.Keys == t0.Keys && a in t0 && b in t0
    requires PairOf(t0, b) in Duplicates(t0) && Positioned(t0, PairOf(t0, b), pos)
    requires pos[b] > 0
    ensures t0[a].orgId != t0[b].orgId || t0[a].name != Suffixed(t0[b].name, pos[b])
  {
    PositionBound(t0, pos, b);
    assert !Clash(t0, a, PairOf(t0, b), pos[b]);
  }

  lemma UnprocessedMember(t0: Table, t: Table, done: set<Pair>, pos: map<Id, nat>, p: Pair, id: Id)
    requires !Collides(t0) && Numbered(t0, t, done, pos)
    requires done <= Duplicates(t0) && p in Duplicates(t0)
    requires id in Members(t, p)
    ensures id in Members(t0, p)
  {
    var some :| some in t0 && PairOf(t0, some) == p;
    if pos[id] > 0 {
      assert PairOf(t0, id) in done;
      NumberedNameIsNew(t0, pos, some, id);
    }
  }

  lemma NamedAsBefore(t0: Table, t: Table, done: set<Pair>, pos: map<Id, nat>, id: Id)
    requires NamedBy(t0, t, pos) && id in t0 && PairOf(t0, id) !in done
    requires forall id :: id in t0 && PairOf(t0, id) !in done ==> pos[id] == 0
    ensures t[id] == t0[id]
  {
  }

  /** The groups of a set not yet processed are still its groups. */
  lemma UnprocessedSetStays(t0: Table, t: Table, done: set<Pair>, pos: map<Id, nat>, p: Pair)
    requires NamedBy(t0, t, pos) && p !in done
    requires forall id :: id in t0 && PairOf(t0, id) !in done ==> pos[id] == 0
    ensures Members(t0, p) <= Members(t, p)
  {
    forall id | id in Members(t0, p) ensures id in Members(t, p) {
      NamedAsBefore(t0, t, done, pos, id);
    }
  }

  /** No group has come to it: no name handed out so far is its name. */
  lemma NothingJoinsTheSet(t0: Table, t: Table, done: set<Pair>, pos: map<Id, nat>, p: Pair)
    requires !Collides(t0) && Numbered(t0, t, done, pos)
    requires done <= Duplicates(t0) && p in Duplicates(t0)
    ensures Members(t, p) <= Members(t0, p)
  {
    forall id | id in Members(t, p) ensures id in Members(t0, p) {
      UnprocessedMember(t0, t, done, pos, p, id);
    }
  }

  /** `pos'` gives the listed ids their index and leaves the other positions alone. */
  ghost predicate Indexes(ids: seq<Id>, pos: map<Id, nat>, pos': map<Id, nat>) {
    && pos'.Keys == pos.Keys
    && (forall k :: 0 <= k < |ids| ==> ids[k] in pos' && pos'[ids[k]] == k)
    && (forall id :: id in pos && id !in ids ==> pos'[id] == pos[id])
  }

  lemma ProcessingNames(t0: Table, t: Table, pos: map<Id, nat>, p: Pair, ids: seq<Id>, pos': map<Id, nat>)
    requires NamedBy(t0, t, pos) && NoDuplicates(ids) && Elements(ids) == Members(t0, p)
    requires forall id :: id in Members(t0, p) ==> pos[id] == 0
    requires Indexes(ids, pos, pos')
    ensures NamedBy(t0, RenameFrom(t, p.name, ids, 1), pos')
  {
    forall id | id in ids ensures id in t && t[id] == t0[id] && t0[id].name == p.name {
      assert id in Elements(ids);
    }
    RenameFromNames(t, p.name, ids, 1);
    var u := RenameFrom(t, p.name, ids, 1);
    forall id | id in t0 ensures u[id] == t0[id].(name := NameAt(t0[id].name, pos'[id])) {
      if id in ids {
        var k :| 0 <= k < |ids| && ids[k] == id;
      }
    }
  }

  lemma ProcessingPositions(t0: Table, done: set<Pair>, pos: map<Id, nat>, p: Pair, ids: seq<Id>, pos': map<Id, nat>)
    requires pos.Keys == t0.Keys && Indexes(ids, pos, pos')
    requires p in Duplicates(t0) && p !in done && ByAge(t0, p, ids)
    requires forall q :: q in done ==> Positioned(t0, q, pos)
    requires forall id :: id in t0 && PairOf(t0, id) !in done ==> pos[id] == 0
    ensures forall q :: q in done + {p} ==> Positioned(t0, q, pos')
    ensures forall id :: id in t0 && PairOf(t0, id) !in done + {p} ==> pos'[id] == 0
  {
    NewPositions(t0, p, ids, pos');
    forall q | q in done ensures Positioned(t0, q, pos') {
      OldPositions(t0, p, q, ids, pos, pos');
    }
    forall id | id in t0 && PairOf(t0, id) !in done + {p} ensures pos'[id] == 0 {
      assert id !in Elements(ids);
    }
  }

  lemma AgeIsUnchanged(t0: Table, t: Table, pos: map<Id, nat>, p: Pair, ids: seq<Id>)
    requires NamedBy(t0, t, pos) && ByAge(t, p, ids) && Members(t, p) == Members(t0, p)
    ensures ByAge(t0, p, ids)
  {
    forall i, j | 0 <= i < j < |ids| ensures t0[ids[i]].createdAt <= t0[ids[j]].createdAt {
      assert t[ids[i]].createdAt <= t[ids[j]].createdAt;
    }
  }

  lemma ProcessingOneSet(t0: Table, t: Table, done: set<Pair>, pos: map<Id, nat>, p: Pair, ids: seq<Id>)
    returns (pos': map<Id, nat>)
    requires !Collides(t0) && Numbered(t0, t, done, pos)
    requires done <= Duplicates(t0) && p in Duplicates(t0) && p !in done
    requires ByAge(t, p, ids)
    ensures Numbered(t0, RenameFrom(t, p.name, ids, 1), done + {p}, pos')
  {
    NothingJoinsTheSet(t0, t, done, pos, p);
    UnprocessedSetStays(t0, t, done, pos, p);
    PositionsExist(ids, pos);
    pos' :| Indexes(ids, pos, pos');
    forall id | id in Members(t0, p) ensures pos[id] == 0 {
      assert PairOf(t0, id) == p;
    }
    ProcessingNames(t0, t, pos, p, ids, pos');
    AgeIsUnchanged(t0, t, pos, p, ids);
    ProcessingPositions(t0, done, pos, p, ids, pos');
  }

  lemma {:induction false} PositionsExist(ids: seq<Id>, pos: map<Id, nat>)
    requires NoDuplicates(ids) && forall id :: id in ids ==> id in pos
    ensures exists r :: Indexes(ids, pos, r)
  {
    if ids == [] {
      assert Indexes(ids, pos, pos);
    } else {
      var n := |ids| - 1;
      PositionsExist(ids[..n], pos);
      var r :| Indexes(ids[..n], pos, r);
      var r' := r[ids[n] := n];
      assert ids == ids[..n] + [ids[n]];
      forall k | 0 <= k < |ids| ensures ids[k] in r' && r'[ids[k]] == k {
        if k < n {
          assert ids[..n][k] == ids[k];
        }
      }
      assert r'.Keys == pos.Keys;
      assert Indexes(ids, pos, r');
    }
  }

  lemma CountedList<T>(s: seq<T>)
    requires NoDuplicates(s)
    ensures |Elements(s)| == |s|
  {
    if s != [] {
      var n := |s| - 1;
      CountedList(s[..n]);
      assert Elements(s) == Elements(s[..n]) + {s[n]};
      assert s[n] !in Elements(s[..n]);
    }
  }

  lemma NewPositions(t0: Table, p: Pair, ids: seq<Id>, pos: map<Id, nat>)
    requires pos.Keys == t0.Keys && p in Duplicates(t0)
    requires NoDuplicates(ids) && Elements(ids) == Members(t0, p)
    requires forall i, j :: 0 <= i < j < |ids| && ids[i] in t0 && ids[j] in t0 ==>
               t0[ids[i]].createdAt <= t0[ids[j]].createdAt
    requires forall k :: 0 <= k < |ids| && ids[k] in pos ==> pos[ids[k]] == k
    ensures Positioned(t0, p, pos)
  {
    CountedList(ids);
    forall a | a in Members(t0, p) ensures exists k :: 0 <= k < |ids| && ids[k] == a && pos[a] == k {
      assert a in Elements(ids);
      var k :| 0 <= k < |ids| && ids[k] == a;
    }
    DuplicatesAreBig(t0, p);
    assert ids[0] in Elements(ids) && pos[ids[0]] == 0;
  }

  lemma OldPositions(t0: Table, p: Pair, q: Pair, ids: seq<Id>, pos: map<Id, nat>, pos': map<Id, nat>)
    requires pos.Keys == t0.Keys == pos'.Keys && p != q
    requires Elements(ids) == Members(t0, p)
    requires forall id :: id in pos && id !in ids ==> pos'[id] == pos[id]
    requires Positioned(t0, q, pos)
    ensures Positioned(t0, q, pos')
  {
    forall a | a in Members(t0, q) ensures pos'[a] == pos[a] {
      assert a !in Elements(ids);
    }
  }

  lemma MoveToDone(done: set<Pair>, duplicates: seq<Pair>, all: set<Pair>)
    requires duplicates != [] && NoDuplicates(duplicates)
    requires done + Elements(duplicates) == all && forall p :: p in done ==> p !in duplicates
    ensures duplicates[0] in all && duplicates[0] !in done
    ensures NoDuplicates(duplicates[1..])
    ensures done + {duplicates[0]} + Elements(duplicates[1..]) == all
    ensures forall p :: p in done + {duplicates[0]} ==> p !in duplicates[1..]
  {
    var p := duplicates[0];
    assert duplicates == [p] + duplicates[1..];
    assert p in Elements(duplicates);
    assert Elements(duplicates) == {p} + Elements(duplicates[1..]);
  }

  lemma {:induction false} OutcomeFrom(t0: Table, t: Table, done: set<Pair>, pos: map<Id, nat>, duplicates: seq<Pair>,
                                       after: Table)
    requires !Collides(t0) && Numbered(t0, t, done, pos)
    requires NoDuplicates(duplicates) && done + Elements(duplicates) == Duplicates(t0)
    requires forall p :: p in done ==> p !in duplicates
    requires Outcome(t, duplicates, after)
    ensures Renumbered(t0, after)
    decreases |duplicates|
  {
    if duplicates == [] {
      assert done == Duplicates(t0);
    } else {
      var p := duplicates[0];
      var ids :| ByAge(t, p, ids) && Outcome(RenameFrom(t, p.name, ids, 1), duplicates[1..], after);
      MoveToDone(done, duplicates, Duplicates(t0));
      var pos' := ProcessingOneSet(t0, t, done, pos, p, ids);
      OutcomeFrom(t0, RenameFrom(t, p.name, ids, 1), done + {p}, pos', duplicates[1..], after);
    }
  }

  lemma RenumberedIsUnique(t0: Table, t: Table)
    requires !Collides(t0) && Renumbered(t0, t)
    ensures Unique(t)
  {
    var pos :| Numbered(t0, t, Duplicates(t0), pos);
    forall a, b | a in t && b in t && t[a].orgId == t[b].orgId && t[a].name == t[b].name ensures a == b {
      EqualNamesAreOneGroup(t0, t, pos, a, b);
    }
  }

  lemma EqualNamesAreOneGroup(t0: Table, t: Table, pos: map<Id, nat>, a: Id, b: Id)
    requires !Collides(t0) && Numbered(t0, t, Duplicates(t0), pos)
    requires a in t && b in t && t[a].orgId == t[b].orgId && t[a].name == t[b].name
    ensures a == b
  {
    if pos[a] > 0 && pos[b] == 0 {
      NumberedNameIsNew(t0, pos, b, a);
    } else if pos[b] > 0 && pos[a] == 0 {
      NumberedNameIsNew(t0, pos, a, b);
    } else {
      if pos[a] > 0 {
        SuffixedInjective(t0[a].name, pos[a], t0[b].name, pos[b]);
      }
      SameOriginalPair(t0, pos, a, b);
    }
  }

  lemma AtMostOne<T>(s: set<T>, a: T, b: T)
    requires a in s && b in s && |s| <= 1
    ensures a == b
  {
    assert |s - {a}| == 0;
    assert b !in s - {a};
  }

  lemma SameOriginalPair(t0: Table, pos: map<Id, nat>, a: Id, b: Id)
    requires pos.Keys == t0.Keys && a in t0 && b in t0
    requires forall p :: p in Duplicates(t0) ==> Positioned(t0, p, pos)
    requires PairOf(t0, a) == PairOf(t0, b) && pos[a] == pos[b]
    ensures a == b
  {
    var p := PairOf(t0, a);
    assert a in Members(t0, p) && b in Members(t0, p);
    DuplicatesAreBig(t0, p);
    if p !in Duplicates(t0) {
      AtMostOne(Members(t0, p), a, b);
    }
  }

  /** Without a collision every order of processing gives distinct names. */
  lemma OutcomeIsRenumbering(t0: Table, duplicates: seq<Pair>, after: Table)
    requires !Collides(t0) && ListsDuplicates(t0, duplicates) && Outcome(t0, duplicates, after)
    ensures Renumbered(t0, after) && Unique(after)
  {
    var pos := map id | id in t0 :: 0;
    assert Numbered(t0, t0, {}, pos);
    OutcomeFrom(t0, t0, {}, pos, duplicates, after);
    RenumberedIsUnique(t0, after);
  }

  // ---------------------------------------------------------------- with a collision

  lemma OldestIn(t: Table, candidates: set<Id>) returns (oldest: Id)
    requires candidates != {} && candidates <= t.Keys
    ensures oldest in candidates
    ensures forall id :: id in candidates ==> t[oldest].createdAt <= t[id].createdAt
    decreases candidates
  {
    oldest :| oldest in candidates;
    if candidates != {oldest} {
      var other := OldestIn(t, candidates - {oldest});
      if t[other].createdAt < t[oldest].createdAt {
        oldest := other;
      }
    }
  }

  lemma ListByAge(t: Table, members: set<Id>) returns (ids: seq<Id>)
    requires members <= t.Keys
    ensures NoDuplicates(ids) && Elements(ids) == members && |ids| == |members|
    ensures forall i, j :: 0 <= i < j < |ids| ==>
              ids[i] in t && ids[j] in t && t[ids[i]].createdAt <= t[ids[j]].createdAt
    decreases members
  {
    ids := [];
    if members != {} {
      var oldest := OldestIn(t, members);
      var rest := ListByAge(t, members - {oldest});
      ids := PrependOldest(t, members, oldest, rest);
    }
  }

  lemma PrependOldest(t: Table, members: set<Id>, oldest: Id, rest: seq<Id>) returns (ids: seq<Id>)
    requires members <= t.Keys && oldest in members
    requires forall id :: id in members ==> t[oldest].createdAt <= t[id].createdAt
    requires NoDuplicates(rest) && Elements(rest) == members - {oldest} && |rest| == |members| - 1
    requires forall i, j :: 0 <= i < j < |rest| ==>
              rest[i] in t && rest[j] in t && t[rest[i]].createdAt <= t[rest[j]].createdAt
    ensures NoDuplicates(ids) && Elements(ids) == members && |ids| == |members|
    ensures forall i, j :: 0 <= i < j < |ids| ==>
              ids[i] in t && ids[j] in t && t[ids[i]].createdAt <= t[ids[j]].createdAt
  {
    ids := [oldest] + rest;
    assert forall i :: 0 <= i < |rest| ==> rest[i] in Elements(rest);
    assert forall i :: 0 < i < |ids| ==> ids[i] == rest[i - 1];
    assert Elements(ids) == {oldest} + Elements(rest);
  }

  lemma SomeByAge(t: Table, p: Pair) returns (ids: seq<Id>)
    ensures ByAge(t, p, ids) && |ids| == |Members(t, p)|
  {
    ids := ListByAge(t, Members(t, p));
    forall id | id in ids ensures id in t {
      assert id in Elements(ids);
    }
  }

  lemma ListSet<T>(s: set<T>) returns (q: seq<T>)
    ensures NoDuplicates(q) && Elements(q) == s
    decreases s
  {
    q := [];
    if s != {} {
      var x :| x in s;
      var rest := ListSet(s - {x});
      q := [x] + rest;
      assert forall i :: 0 <= i < |rest| ==> rest[i] in Elements(rest);
      assert Elements(q) == {x} + Elements(rest);
    }
  }

  lemma {:induction false} SomeOutcome(t: Table, duplicates: seq<Pair>) returns (after: Table)
    ensures Outcome(t, duplicates, after)
    decreases |duplicates|
  {
    after := t;
    if duplicates != [] {
      var ids := SomeByAge(t, duplicates[0]);
      after := SomeOutcome(RenameFrom(t, duplicates[0].name, ids, 1), duplicates[1..]);
    }
  }

  /** Processing other sets leaves a group alone. */
  lemma {:induction false} OtherSetsKeepGroup(t: Table, duplicates: seq<Pair>, after: Table, id: Id)
    requires Outcome(t, duplicates, after) && id in t && PairOf(t, id) !in duplicates
    ensures id in after && after[id] == t[id]
    decreases |duplicates|
  {
    if duplicates != [] {
      var p := duplicates[0];
      var ids :| ByAge(t, p, ids) && Outcome(RenameFrom(t, p.name, ids, 1), duplicates[1..], after);
      var u := RenameFrom(t, p.name, ids, 1);
      RenameFromNames(t, p.name, ids, 1);
      assert id !in Elements(ids);
      OtherSetsKeepGroup(u, duplicates[1..], after, id);
    }
  }

  lemma LongerName(name: string, i: nat)
    ensures Suffixed(name, i) != name
  {
    SuffixedShape(name, i);
  }

  /** From a table in which `holder` already carries the name and the set of `p` is big enough,
      processing `p` and then other sets ends with two groups of that name. */
  lemma HandingOutATakenName(t: Table, holder: Id, p: Pair, i: nat, rest: seq<Pair>) returns (after: Table)
    requires 1 <= i < |Members(t, p)|
    requires holder in t && PairOf(t, holder) == Pair(p.orgId, Suffixed(p.name, i))
    requires PairOf(t, holder) !in rest
    ensures Outcome(t, [p] + rest, after) && !Unique(after)
  {
    LongerName(p.name, i);
    var ids := SomeByAge(t, p);
    var u := RenameFrom(t, p.name, ids, 1);
    RenameFromNames(t, p.name, ids, 1);
    assert holder !in Elements(ids);
    assert ids[i] in Elements(ids);
    after := SomeOutcome(u, rest);
    OtherSetsKeepGroup(u, rest, after, holder);
    OtherSetsKeepGroup(u, rest, after, ids[i]);
    assert ([p] + rest)[0] == p && ([p] + rest)[1..] == rest;
    assert holder != ids[i];
  }

  /** When the taken name is itself a duplicated one, processing that set first leaves it taken by
      the oldest of its groups. */
  lemma TakenNameStaysTaken(t0: Table, p: Pair, q: Pair) returns (ids: seq<Id>)
    requires q in Duplicates(t0) && p != q
    ensures ByAge(t0, q, ids) && ids != []
    ensures var u := RenameFrom(t0, q.name, ids, 1);
            && ids[0] in u && PairOf(u, ids[0]) == q
            && |Members(t0, p)| <= |Members(u, p)|
  {
    ids := SomeByAge(t0, q);
    DuplicatesAreBig(t0, q);
    RenameFromNames(t0, q.name, ids, 1);
    assert ids[0] in Elements(ids);
    OtherMembersStay(t0, RenameFrom(t0, q.name, ids, 1), p, q, ids);
  }

  lemma ListWithHeads(t0: Table, p: Pair, q: Pair) returns (rest: seq<Pair>)
    requires p in Duplicates(t0) && p != q
    ensures p !in rest && q !in rest
    ensures q !in Duplicates(t0) ==> ListsDuplicates(t0, [p] + rest)
    ensures q in Duplicates(t0) ==> ListsDuplicates(t0, [q] + ([p] + rest))
  {
    rest := ListSet(Duplicates(t0) - {p, q});
    assert forall k :: 0 <= k < |rest| ==> rest[k] in Elements(rest);
    assert Elements([p] + rest) == {p} + Elements(rest);
    assert Elements([q] + ([p] + rest)) == {q, p} + Elements(rest);
  }

  /** With a collision some order of processing gives two groups of an organization one name. */
  lemma CollisionBreaksSomeOrder(t0: Table) returns (duplicates: seq<Pair>, after: Table)
    requires Collides(t0)
    ensures ListsDuplicates(t0, duplicates) && Outcome(t0, duplicates, after) && !Unique(after)
  {
    var id, p, i: nat :| Clash(t0, id, p, i);
    var q := PairOf(t0, id);
    LongerName(p.name, i);
    var rest := ListWithHeads(t0, p, q);
    if q !in Duplicates(t0) {
      duplicates := [p] + rest;
      after := HandingOutATakenName(t0, id, p, i, rest);
    } else {
      duplicates := [q] + ([p] + rest);
      var ids := TakenNameStaysTaken(t0, p, q);
      var u := RenameFrom(t0, q.name, ids, 1);
      after := HandingOutATakenName(u, ids[0], p, i, rest);
      assert duplicates[0] == q && duplicates[1..] == [p] + rest;
    }
  }

  lemma OtherMembersStay(t: Table, u: Table, p: Pair, q: Pair, ids: seq<Id>)
    requires p != q && Elements(ids) == Members(t, q)
    requires u.Keys == t.Keys && forall id :: id in t && id !in ids ==> u[id] == t[id]
    ensures Members(t, p) <= Members(u, p)
    ensures |Members(t, p)| <= |Members(u, p)|
  {
    forall id | id in Members(t, p) ensures id in Members(u, p) {
      assert id !in Elements(ids);
    }
    assert |Members(u, p) - Members(t, p)| == |Members(u, p)| - |Members(t, p)|;
  }

  /** The exact condition of the migration: names come out distinct whatever order the database lists
      the duplicates and ties in, if and only if no group already carries, in the organization of a
      duplicate set, one of the numbered names that set is about to use. */
  lemma UniqueExactlyWhenNoCollision(t0: Table)
    ensures (forall duplicates, after ::
               ListsDuplicates(t0, duplicates) && Outcome(t0, duplicates, after) ==> Unique(after))
            <==> !Collides(t0)
  {
    if Collides(t0) {
      var duplicates, after := CollisionBreaksSomeOrder(t0);
    } else {
      forall duplicates, after | ListsDuplicates(t0, duplicates) && Outcome(t0, duplicates, after)
        ensures Unique(after)
      {
        OutcomeIsRenumbering(t0, duplicates, after);
      }
    }
  }

  lemma FirstSuffix()
    ensures Suffixed("a", 1) == "a (1)"
  {
    assert Decimal(1) == "1";
  }

  lemma CollidingTable() returns (t: Table)
    ensures |t| == 3 && Collides(t)
  {
    t := map["1" := Group("o", "a", 1, ""), "2" := Group("o", "a", 2, ""), "3" := Group("o", "a (1)", 3, "")];
    var p := Pair("o", "a");
    assert Members(t, p) == {"1", "2"};
    DuplicatesAreBig(t, p);
    FirstSuffix();
    assert Clash(t, "3", p, 1);
  }

  /** Such tables exist: two groups "a" and one already called "a (1)" can end as two groups of the
      same name. */
  lemma CollisionHappens() returns (t: Table, duplicates: seq<Pair>, after: Table)
    ensures |t| == 3 && Collides(t)
    ensures ListsDuplicates(t, duplicates) && Outcome(t, duplicates, after) && !Unique(after)
  {
    t := CollidingTable();
    duplicates, after := CollisionBreaksSomeOrder(t);
  }

  // ---------------------------------------------------------------- the migration

  class GroupsTable {
    var rows: Table

    constructor (rows: Table)
      ensures this.rows == rows
    {
      this.rows := rows;
    }

    /** One duplicate set: skip the oldest group, rename the others in order of age. */
    method RenameDuplicates(p: Pair) returns (ghost ids: seq<Id>)
      modifies this
      ensures ByAge(old(rows), p, ids)
      ensures rows == RenameFrom(old(rows), p.name, ids, 1)
    {
      var groups := SelectByAge(rows, p);
      ids := groups;
      var i := 1;
      while i < |groups|
        invariant 1 <= i
        invariant RenameFrom(rows, p.name, groups, i) == RenameFrom(old(rows), p.name, groups, 1)
        decreases |groups| - i
      {
        rows := Rename(rows, groups[i], Suffixed(p.name, i));
        i := i + 1;
      }
    }

    /** The migration up to the unique constraint. Unless a name to be handed out is already taken,
        the names within every organization are distinct afterwards. */
    method Up() returns (ghost duplicates: seq<Pair>)
      modifies this
      ensures ListsDuplicates(old(rows), duplicates)
      ensures Outcome(old(rows), duplicates, rows)
      ensures !Collides(old(rows)) ==> Unique(rows) && Renumbered(old(rows), rows)
    {
      var list := Enumerate(Duplicates(rows));
      duplicates := list;
      var i := 0;
      while i < |list|
        invariant 0 <= i <= |list|
        invariant forall after :: Outcome(rows, list[i..], after) ==> Outcome(old(rows), list, after)
      {
        ghost var before := rows;
        var ids := RenameDuplicates(list[i]);
        forall after | Outcome(rows, list[i + 1..], after) ensures Outcome(old(rows), list, after) {
          assert list[i..][0] == list[i] && list[i..][1..] == list[i + 1..];
          assert Outcome(before, list[i..], after);
        }
        i := i + 1;
      }
      assert Outcome(rows, list[i..], rows);
      assert Elements(list) == Duplicates(old(rows));
      if !Collides(old(rows)) {
        OutcomeIsRenumbering(old(rows), list, rows);
      }
    }
  }
}
