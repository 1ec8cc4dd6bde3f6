/** Order-independent selection (native/src/decisions.c and solver.c): picking one provider and one
    replacement from candidates that come in whatever order the pool lists them. */
module Selection {
  import opened Bytes

  type Text = seq<Byte>
  type Id = nat

  datatype Identity = Identity(name: Text, evr: Text, arch: Text)

  datatype Solvable = Solvable(identity: Identity, vendor: Text, repository: Option<nat>)

  /** Where a repository stands in the preference of the user. */
  datatype Rank = Rank(priority: int, subpriority: int)

  /** `installed` is the repository of the installed packages with its range of ids. */
  datatype Pool = Pool(solvable: Id -> Solvable, rank: nat -> Rank, installed: Option<(nat, Id, Id)>)

  // ---------------------------------------------------------------- the order of identities

  /** `identity_order`. */
  function IdentityOrder(a: Identity, b: Identity): Ordering {
    var name := CompareBytes(a.name, b.name);
    if name != Equal then name
    else
      var evr := CompareBytes(a.evr, b.evr);
      if evr != Equal then evr else CompareBytes(a.arch, b.arch)
  }

  /** It is a total order. */
  lemma IdentityOrderTotal(a: Identity, b: Identity, c: Identity)
    ensures IdentityOrder(a, b) == Equal <==> a == b
    ensures IdentityOrder(b, a) == IdentityOrder(a, b).Reversed()
    ensures IdentityOrder(a, b) == Less && IdentityOrder(b, c) == Less ==> IdentityOrder(a, c) == Less
  {
    CompareBytesEqual(a.name, b.name);
    CompareBytesEqual(b.name, c.name);
    CompareBytesEqual(a.evr, b.evr);
    CompareBytesEqual(b.evr, c.evr);
    CompareBytesEqual(a.arch, b.arch);
    CompareBytesReversed(a.name, b.name);
    CompareBytesReversed(a.evr, b.evr);
    CompareBytesReversed(a.arch, b.arch);
    LessTransitive(a.name, b.name, c.name);
    LessTransitive(a.evr, b.evr, c.evr);
    LessTransitive(a.arch, b.arch, c.arch);
  }

  lemma LessTransitive(a: Text, b: Text, c: Text)
    ensures CompareBytes(a, b) == Less && CompareBytes(b, c) == Less ==> CompareBytes(a, c) == Less
  {
    if CompareBytes(a, b) == Less && CompareBytes(b, c) == Less { CompareBytesTransitive(a, b, c); }
  }

  // ---------------------------------------------------------------- selected_provider

  predicate IsInstalled(pool: Pool, id: Id) {
    pool.installed.Some? && pool.solvable(id).repository == Some(pool.installed.value.0)
  }

  predicate SameIdentity(pool: Pool, a: Id, b: Id) { pool.solvable(a).identity == pool.solvable(b).identity }

  /** The displacement rule, condition by condition. */
  predicate Displaces(pool: Pool, candidate: Id, found: Id) {
    var c, f := pool.solvable(candidate), pool.solvable(found);
    var order := IdentityOrder(c.identity, f.identity);
    || (IsInstalled(pool, candidate) && !IsInstalled(pool, found))
    || (c.repository == f.repository && order == Less)
    || (!IsInstalled(pool, candidate) && !IsInstalled(pool, found) && order == Less)
  }

  /** What the rule amounts to: installed first, then the smaller identity. */
  predicate Better(pool: Pool, a: Id, b: Id) {
    if IsInstalled(pool, a) != IsInstalled(pool, b) then IsInstalled(pool, a)
    else IdentityOrder(pool.solvable(a).identity, pool.solvable(b).identity) == Less
  }

  lemma DisplacesIsBetter(pool: Pool, a: Id, b: Id)
    ensures Displaces(pool, a, b) <==> Better(pool, a, b)
  {
  }

  /** It is a strict weak order whose ties have one identity. */
  lemma BetterOrder(pool: Pool, a: Id, b: Id, c: Id)
    ensures !(Better(pool, a, b) && Better(pool, b, a))
    ensures !SameIdentity(pool, a, b) ==> Better(pool, a, b) || Better(pool, b, a)
    ensures Better(pool, a, b) && Better(pool, b, c) ==> Better(pool, a, c)
    ensures Better(pool, a, b) ==> Better(pool, a, c) || Better(pool, c, b)
  {
    var x, y, z := pool.solvable(a).identity, pool.solvable(b).identity, pool.solvable(c).identity;
    IdentityOrderTotal(x, y, z);
    IdentityOrderTotal(x, z, y);
    IdentityOrderTotal(z, y, x);
  }

  /** Nothing selected, the provider found, or two selected solvables of one identity. */
  datatype Provider = Nothing | Found(id: Id) | Ambiguous

  function Step(pool: Pool, found: Provider, candidate: Id): Provider {
    match found
    case Nothing => Found(candidate)
    case Ambiguous => Ambiguous
    case Found(f) =>
      if f == candidate then found
      else if SameIdentity(pool, candidate, f) then Ambiguous
      else if Better(pool, candidate, f) then Found(candidate) else found
  }

  /** The outcome for selected candidates in this order. */
  function Scan(pool: Pool, ids: seq<Id>): Provider {
    if ids == [] then Nothing else Step(pool, Scan(pool, ids[..|ids| - 1]), ids[|ids| - 1])
  }

  function Selected(level: Id -> int, ids: seq<Id>): seq<Id> {
    if ids == [] then []
    else Selected(level, ids[..|ids| - 1]) + if level(ids[|ids| - 1]) > 0 then [ids[|ids| - 1]] else []
  }

  lemma ScanNext(pool: Pool, ids: seq<Id>, id: Id)
    ensures Scan(pool, ids + [id]) == Step(pool, Scan(pool, ids), id)
  {
    assert (ids + [id])[..|ids|] == ids;
  }

  lemma NextSelected(pool: Pool, level: Id -> int, ids: seq<Id>, i: nat)
    requires i < |ids|
    ensures Scan(pool, Selected(level, ids[..i + 1])) ==
              if level(ids[i]) > 0 then Step(pool, Scan(pool, Selected(level, ids[..i])), ids[i])
              else Scan(pool, Selected(level, ids[..i]))
  {
    assert ids[..i + 1][..i] == ids[..i];
    if level(ids[i]) > 0 {
      ScanNext(pool, Selected(level, ids[..i]), ids[i]);
    } else {
      assert Selected(level, ids[..i + 1]) == Selected(level, ids[..i]);
    }
  }

  /** `selected_provider`: -1, 0 or 1, with the provider in the last case. */
  method SelectedProvider(pool: Pool, level: Id -> int, candidates: seq<Id>) returns (status: int, provider: Id)
    ensures match Scan(pool, Selected(level, candidates))
            case Nothing => status == 0
            case Ambiguous => status == -1
            case Found(id) => status == 1 && provider == id
  {
    var found: Option<Id> := None;
    provider := 0;
    for i := 0 to |candidates|
      invariant Scan(pool, Selected(level, candidates[..i])) == if found.None? then Nothing else Found(found.value)
    {
      var candidate := candidates[i];
      NextSelected(pool, level, candidates, i);
      if level(candidate) <= 0 { continue; }
      if found.None? {
        found := Some(candidate);
      } else if found.value != candidate {
        IdentityOrderTotal(pool.solvable(candidate).identity, pool.solvable(found.value).identity, pool.solvable(candidate).identity);
        if IdentityOrder(pool.solvable(candidate).identity, pool.solvable(found.value).identity) == Equal {
          AmbiguousStays(pool, level, candidates, i + 1);
          return -1, 0;
        }
        DisplacesIsBetter(pool, candidate, found.value);
        if Displaces(pool, candidate, found.value) { found := Some(candidate); }
      }
    }
    assert candidates[..|candidates|] == candidates;
    if found.None? { return 0, 0; }
    return 1, found.value;
  }

  lemma {:induction false} AmbiguousStays(pool: Pool, level: Id -> int, ids: seq<Id>, n: nat)
    requires n <= |ids| && Scan(pool, Selected(level, ids[..n])) == Ambiguous
    ensures Scan(pool, Selected(level, ids)) == Ambiguous
    decreases |ids| - n
  {
    if n < |ids| {
      NextSelected(pool, level, ids, n);
      AmbiguousStays(pool, level, ids, n + 1);
    } else {
      assert ids[..n] == ids;
    }
  }

  // ---------------------------------------------------------------- order independence

  predicate NoRepeats(ids: seq<Id>) { forall i, j :: 0 <= i < j < |ids| ==> ids[i] != ids[j] }

  function Elements(ids: seq<Id>): set<Id> { set x | x in ids }

  /** The same candidates in another order. */
  predicate Reordered(order: seq<Id>, ids: seq<Id>) { NoRepeats(order) && Elements(order) == Elements(ids) }

  predicate DistinctIdentities(pool: Pool, ids: set<Id>) {
    forall a, b :: a in ids && b in ids && a != b ==> !SameIdentity(pool, a, b)
  }

  predicate Best(pool: Pool, ids: set<Id>, m: Id) { m in ids && forall x :: x in ids ==> !Better(pool, x, m) }

  /** Two candidates of one identity that nothing else comes before. */
  predicate LeadingTwins(pool: Pool, ids: set<Id>, a: Id, b: Id) {
    a in ids && b in ids && a != b && SameIdentity(pool, a, b) &&
    forall x :: x in ids && x != a && x != b ==> !Better(pool, x, a) && !Better(pool, x, b)
  }

  /** With distinct identities the provider is the installed-first, identity-minimal candidate. */
  lemma {:induction false} DistinctFindsBest(pool: Pool, ids: seq<Id>)
    requires DistinctIdentities(pool, Elements(ids)) && ids != []
    ensures Scan(pool, ids).Found? && Best(pool, Elements(ids), Scan(pool, ids).id)
  {
    var n := |ids| - 1;
    var front, last := ids[..n], ids[n];
    assert ids == front + [last];
    assert Elements(ids) == Elements(front) + {last};
    ScanNext(pool, front, last);
    if n > 0 {
      DistinctFindsBest(pool, front);
      var f := Scan(pool, front).id;
      forall x | x in Elements(ids) ensures !Better(pool, x, Scan(pool, ids).id) {
        BetterOrder(pool, x, f, last);
        BetterOrder(pool, x, last, f);
        BetterOrder(pool, f, last, f);
        BetterOrder(pool, last, f, last);
      }
    } else {
      BetterOrder(pool, last, last, last);
    }
  }

  lemma BestUnique(pool: Pool, ids: set<Id>, a: Id, b: Id)
    requires DistinctIdentities(pool, ids) && Best(pool, ids, a) && Best(pool, ids, b)
    ensures a == b
  {
    BetterOrder(pool, a, b, a);
  }

  /** Once one of two leading twins has been seen, only it or ambiguity is left; after both, ambiguity. */
  lemma {:induction false} TwinsAreSeen(pool: Pool, ids: seq<Id>, all: set<Id>, a: Id, b: Id)
    requires LeadingTwins(pool, all, a, b) && Elements(ids) <= all
    ensures a in ids && b in ids ==> Scan(pool, ids) == Ambiguous
    ensures a in ids && b !in ids ==> Scan(pool, ids) in {Ambiguous, Found(a)}
    ensures b in ids && a !in ids ==> Scan(pool, ids) in {Ambiguous, Found(b)}
    ensures Scan(pool, ids).Found? ==> Scan(pool, ids).id in ids
    ensures ids != [] ==> Scan(pool, ids) != Nothing
  {
    if ids != [] {
      var n := |ids| - 1;
      var front, last := ids[..n], ids[n];
      assert ids == front + [last];
      assert Elements(ids) == Elements(front) + {last};
      ScanNext(pool, front, last);
      TwinsAreSeen(pool, front, all, a, b);
      if Scan(pool, front).Found? {
        BetterOrder(pool, last, Scan(pool, front).id, last);
      }
    }
  }

  lemma {:induction false} AmbiguousForGood(pool: Pool, front: seq<Id>, rest: seq<Id>)
    requires Scan(pool, front) == Ambiguous
    ensures Scan(pool, front + rest) == Ambiguous
  {
    if rest == [] {
      assert front + rest == front;
    } else {
      AmbiguousForGood(pool, front, rest[..|rest| - 1]);
      ScanNext(pool, front + rest[..|rest| - 1], rest[|rest| - 1]);
      assert front + rest == (front + rest[..|rest| - 1]) + [rest[|rest| - 1]];
    }
  }

  /** A candidate stays found while none that shares its identity and none better comes by. */
  lemma {:induction false} FoundStays(pool: Pool, front: seq<Id>, m: Id, rest: seq<Id>)
    requires Scan(pool, front) == Found(m)
    requires forall x :: x in rest && x != m ==> !SameIdentity(pool, x, m) && !Better(pool, x, m)
    ensures Scan(pool, front + rest) == Found(m)
  {
    if rest == [] {
      assert front + rest == front;
    } else {
      FoundStays(pool, front, m, rest[..|rest| - 1]);
      ScanNext(pool, front + rest[..|rest| - 1], rest[|rest| - 1]);
      assert front + rest == (front + rest[..|rest| - 1]) + [rest[|rest| - 1]];
    }
  }

  lemma Joined(a: seq<Id>, b: seq<Id>)
    ensures Elements(a + b) == Elements(a) + Elements(b)
    ensures NoRepeats(a) && NoRepeats(b) && Elements(a) !! Elements(b) ==> NoRepeats(a + b)
  {
    if NoRepeats(a) && NoRepeats(b) && Elements(a) !! Elements(b) {
      forall i, j | 0 <= i < j < |a + b| ensures (a + b)[i] != (a + b)[j] {
        if i < |a| <= j {
          assert a[i] in Elements(a) && b[j - |a|] in Elements(b);
        }
      }
    }
  }

  /** The ids of a set, in order. */
  function Keep(ids: seq<Id>, wanted: set<Id>): seq<Id> {
    if ids == [] then []
    else Keep(ids[..|ids| - 1], wanted) + if ids[|ids| - 1] in wanted then [ids[|ids| - 1]] else []
  }

  lemma {:induction false} KeepKeeps(ids: seq<Id>, wanted: set<Id>)
    ensures Elements(Keep(ids, wanted)) == Elements(ids) * wanted
    ensures NoRepeats(ids) ==> NoRepeats(Keep(ids, wanted))
  {
    if ids != [] {
      var n := |ids| - 1;
      KeepKeeps(ids[..n], wanted);
      Joined(ids[..n], [ids[n]]);
      Joined(Keep(ids[..n], wanted), [ids[n]]);
      assert ids == ids[..n] + [ids[n]];
      assert Elements([ids[n]]) == {ids[n]};
      if ids[n] !in wanted { assert Keep(ids, wanted) == Keep(ids[..n], wanted); }
    }
  }

  lemma {:induction false} BestExists(pool: Pool, ids: seq<Id>) returns (m: Id)
    requires ids != []
    ensures Best(pool, Elements(ids), m)
  {
    var n := |ids| - 1;
    m := ids[n];
    assert ids == ids[..n] + [ids[n]];
    if n == 0 {
      BetterOrder(pool, m, m, m);
    } else {
      var f := BestExists(pool, ids[..n]);
      if !Better(pool, m, f) { m := f; }
      forall x | x in Elements(ids) ensures !Better(pool, x, m) {
        BetterOrder(pool, x, f, ids[n]);
        BetterOrder(pool, x, ids[n], f);
        BetterOrder(pool, ids[n], ids[n], ids[n]);
      }
    }
  }

  /** The outcome of a candidate put first that nothing in the rest can unseat. */
  lemma FirstStays(pool: Pool, m: Id, rest: seq<Id>)
    requires forall x :: x in rest ==> x != m && !SameIdentity(pool, x, m) && !Better(pool, x, m)
    ensures Scan(pool, [m] + rest) == Found(m)
  {
    ScanNext(pool, [], m);
    assert [] + [m] == [m];
    FoundStays(pool, [m], m, rest);
  }

  /** Putting two candidates of one identity first makes any candidates ambiguous. */
  lemma TwinsFirst(pool: Pool, ids: seq<Id>, a: Id, b: Id) returns (order: seq<Id>)
    requires NoRepeats(ids) && a in ids && b in ids && a != b && SameIdentity(pool, a, b)
    ensures Reordered(order, ids) && Scan(pool, order) == Ambiguous
  {
    var rest := Keep(ids, Elements(ids) - {a, b});
    KeepKeeps(ids, Elements(ids) - {a, b});
    assert Elements([a, b]) == {a, b};
    Joined([a, b], rest);
    order := [a, b] + rest;
    assert Elements(order) == Elements(ids);
    ScanNext(pool, [], a);
    ScanNext(pool, [a], b);
    assert [] + [a] == [a] && [a] + [b] == [a, b];
    AmbiguousForGood(pool, [a, b], rest);
  }

  function Twins(pool: Pool, ids: set<Id>, m: Id): set<Id> { set x | x in ids && x != m && SameIdentity(pool, x, m) }

  /** Without leading twins the candidates can be ordered so that the best one is found. */
  lemma BestCanBeFound(pool: Pool, ids: seq<Id>) returns (order: seq<Id>)
    requires NoRepeats(ids) && ids != []
    requires forall a, b :: !LeadingTwins(pool, Elements(ids), a, b)
    ensures Reordered(order, ids) && Scan(pool, order).Found?
  {
    var all := Elements(ids);
    var m := BestExists(pool, ids);
    if Twins(pool, all, m) == {} {
      var rest := Keep(ids, all - {m});
      KeepKeeps(ids, all - {m});
      order := [m] + rest;
      assert Elements([m]) == {m};
      Joined([m], rest);
      assert Elements(order) == all;
      forall x | x in rest ensures x != m && !SameIdentity(pool, x, m) && !Better(pool, x, m) {
        assert x in Elements(rest) && x !in Twins(pool, all, m);
      }
      FirstStays(pool, m, rest);
    } else {
      order := BestBehindBlocker(pool, ids, m);
    }
  }

  lemma KeptSubset(ids: seq<Id>, wanted: set<Id>)
    requires NoRepeats(ids) && wanted <= Elements(ids)
    ensures Elements(Keep(ids, wanted)) == wanted && NoRepeats(Keep(ids, wanted))
  {
    KeepKeeps(ids, wanted);
  }

  lemma Arranged(ids: seq<Id>, x: Id, behind: set<Id>, m: Id)
    requires NoRepeats(ids) && x in ids && m in ids && x != m && behind <= Elements(ids) - {m, x}
    ensures Reordered([x] + Keep(ids, behind) + [m] + Keep(ids, Elements(ids) - behind - {m, x}), ids)
  {
    var left := Elements(ids) - behind - {m, x};
    KeptSubset(ids, behind);
    KeptSubset(ids, left);
    Chained(x, Keep(ids, behind), behind, m, Keep(ids, left), left);
    SplitAgain(Elements(ids), behind, x, m);
  }

  lemma SplitAgain(all: set<Id>, behind: set<Id>, x: Id, m: Id)
    requires x in all && m in all && behind <= all
    ensures {x} + behind + {m} + (all - behind - {m, x}) == all
  {
  }

  lemma Chained(x: Id, b: seq<Id>, s: set<Id>, m: Id, c: seq<Id>, t: set<Id>)
    requires NoRepeats(b) && NoRepeats(c) && Elements(b) == s && Elements(c) == t
    requires s !! t && x != m && x !in s && x !in t && m !in s && m !in t
    ensures NoRepeats([x] + b + [m] + c) && Elements([x] + b + [m] + c) == {x} + s + {m} + t
  {
    var first := Appended([x], {x}, b, s);
    var second := Appended(first, {x} + s, [m], {m});
    var third := Appended(second, {x} + s + {m}, c, t);
  }

  lemma Appended(a: seq<Id>, s: set<Id>, b: seq<Id>, t: set<Id>) returns (r: seq<Id>)
    requires NoRepeats(a) && NoRepeats(b) && Elements(a) == s && Elements(b) == t && s !! t
    ensures r == a + b && NoRepeats(r) && Elements(r) == s + t
  {
    r := a + b;
    Joined(a, b);
  }

  /** The twins of the best candidate go behind one that is better than they are. */
  lemma BestBehindBlocker(pool: Pool, ids: seq<Id>, m: Id) returns (order: seq<Id>)
    requires NoRepeats(ids) && Best(pool, Elements(ids), m) && Twins(pool, Elements(ids), m) != {}
    requires forall a, b :: !LeadingTwins(pool, Elements(ids), a, b)
    ensures Reordered(order, ids) && Scan(pool, order).Found?
  {
    var all, twins := Elements(ids), Twins(pool, Elements(ids), m);
    var x := Blocker(pool, ids, m);
    var behind, rest := Keep(ids, twins), Keep(ids, all - twins - {m, x});
    KeepKeeps(ids, twins);
    KeepKeeps(ids, all - twins - {m, x});
    var front := [x] + behind;
    order := front + [m] + rest;
    Arranged(ids, x, twins, m);
    forall t | t in behind ensures t != x && !SameIdentity(pool, t, x) && !Better(pool, t, x) {
      assert t in Elements(behind);
      BetterOrder(pool, t, x, t);
    }
    FirstStays(pool, x, behind);
    BetterOrder(pool, m, x, m);
    ScanNext(pool, front, m);
    forall y | y in rest ensures y != m && !SameIdentity(pool, y, m) && !Better(pool, y, m) {
      assert y in Elements(rest);
    }
    FoundStays(pool, front + [m], m, rest);
  }

  /** If the best candidate has twins but they do not lead together, something else is better than all of them. */
  lemma Blocker(pool: Pool, ids: seq<Id>, m: Id) returns (x: Id)
    requires Best(pool, Elements(ids), m) && Twins(pool, Elements(ids), m) != {}
    requires forall a, b :: !LeadingTwins(pool, Elements(ids), a, b)
    ensures x in ids && x != m && x !in Twins(pool, Elements(ids), m) && !SameIdentity(pool, x, m)
    ensures forall t :: t in Twins(pool, Elements(ids), m) ==> Better(pool, x, t)
  {
    var twins := Twins(pool, Elements(ids), m);
    var kept := Keep(ids, twins);
    KeepKeeps(ids, twins);
    assert Elements(kept) == twins;
    assert Elements([]) == {};
    var b := BestExists(pool, kept);
    assert !LeadingTwins(pool, Elements(ids), m, b);
    x :| x in Elements(ids) && x != m && x != b && (Better(pool, x, m) || Better(pool, x, b));
    forall t | t in twins ensures Better(pool, x, t) {
      BetterOrder(pool, x, b, t);
    }
    BetterOrder(pool, x, x, x);
  }

  /** The outcome does not depend on the order of the candidates exactly when their identities are
      distinct, or two candidates of one identity come before everything else; the outcome is then the
      best candidate, or ambiguity. */
  lemma OrderIndependentExact(pool: Pool, ids: seq<Id>)
    requires NoRepeats(ids) && ids != []
    ensures (forall order, other :: Reordered(order, ids) && Reordered(other, ids) ==> Scan(pool, order) == Scan(pool, other))
       <==> (DistinctIdentities(pool, Elements(ids)) || exists a, b :: LeadingTwins(pool, Elements(ids), a, b))
  {
    var all := Elements(ids);
    if a, b :| LeadingTwins(pool, all, a, b) {
      forall order | Reordered(order, ids) ensures Scan(pool, order) == Ambiguous {
        assert a in Elements(order) && b in Elements(order);
        TwinsAreSeen(pool, order, all, a, b);
      }
    } else if DistinctIdentities(pool, all) {
      forall order, other | Reordered(order, ids) && Reordered(other, ids) ensures Scan(pool, order) == Scan(pool, other) {
        assert ids[0] in Elements(order) && ids[0] in Elements(other);
        DistinctFindsBest(pool, order);
        DistinctFindsBest(pool, other);
        BestUnique(pool, all, Scan(pool, order).id, Scan(pool, other).id);
      }
    } else {
      var a, b :| a in all && b in all && a != b && SameIdentity(pool, a, b);
      var order := TwinsFirst(pool, ids, a, b);
      var other := BestCanBeFound(pool, ids);
      assert Scan(pool, order) != Scan(pool, other);
    }
  }

  // ---------------------------------------------------------------- exact_replacement_candidate

  const DOWNGRADE: nat := 3
  const REINSTALL: nat := 4

  /** The version comparison of the solver library. */
  type Evr = (Text, Text) -> Ordering

  ghost predicate TotalPreorder(evr: Evr) {
    && (forall a, b :: evr(b, a) == evr(a, b).Reversed())
    && (forall a, b, c :: evr(a, b) != Greater && evr(b, c) != Greater ==>
          evr(a, c) != Greater && (evr(a, b) == Less || evr(b, c) == Less ==> evr(a, c) == Less))
  }

  /** May replace this installed package under this operation. */
  predicate Eligible(pool: Pool, evr: Evr, operation: nat, prior: Id, id: Id) {
    var o, c := pool.solvable(prior), pool.solvable(id);
    var comparison := evr(c.identity.evr, o.identity.evr);
    && c.repository.Some? && !IsInstalled(pool, id)
    && c.identity.name == o.identity.name && c.identity.arch == o.identity.arch && c.vendor == o.vendor
    && (operation == DOWNGRADE ==> comparison == Less) && (operation == REINSTALL ==> comparison == Equal)
  }

  function RankOf(pool: Pool, id: Id): Rank {
    match pool.solvable(id).repository
    case None => Rank(0, 0)
    case Some(repository) => pool.rank(repository)
  }

  /** Newer, then from the preferred repository, then the lower id. */
  predicate Beats(pool: Pool, evr: Evr, a: Id, b: Id) {
    var version := evr(pool.solvable(a).identity.evr, pool.solvable(b).identity.evr);
    var p, q := RankOf(pool, a), RankOf(pool, b);
    || version == Greater
    || (version == Equal && p.priority > q.priority)
    || (version == Equal && p.priority == q.priority && p.subpriority > q.subpriority)
    || (version == Equal && p.priority == q.priority && p.subpriority == q.subpriority && a < b)
  }

  /** It is a strict total order on candidates. */
  lemma BeatsOrder(pool: Pool, evr: Evr, a: Id, b: Id, c: Id)
    requires TotalPreorder(evr)
    ensures !(Beats(pool, evr, a, b) && Beats(pool, evr, b, a))
    ensures a != b ==> Beats(pool, evr, a, b) || Beats(pool, evr, b, a)
    ensures Beats(pool, evr, a, b) && Beats(pool, evr, b, c) ==> Beats(pool, evr, a, c)
  {
    var x, y, z := pool.solvable(a).identity.evr, pool.solvable(b).identity.evr, pool.solvable(c).identity.evr;
    assert evr(y, x) == evr(x, y).Reversed() && evr(z, y) == evr(y, z).Reversed() && evr(z, x) == evr(x, z).Reversed();
    assert evr(z, y) != Greater && evr(y, x) != Greater ==>
             evr(z, x) != Greater && (evr(z, y) == Less || evr(y, x) == Less ==> evr(z, x) == Less);
    assert evr(x, y) != Greater && evr(y, z) != Greater ==> evr(x, z) != Greater;
  }

  /** An installed package an available one of the selection has the name and architecture of. */
  predicate MatchesSelection(pool: Pool, selected: seq<Id>, prior: Id) {
    exists k :: 0 <= k < |selected| && !IsInstalled(pool, selected[k]) &&
      pool.solvable(selected[k]).identity.name == pool.solvable(prior).identity.name &&
      pool.solvable(selected[k]).identity.arch == pool.solvable(prior).identity.arch
  }

  /** The installed packages the selection names, else those it matches. */
  function Direct(pool: Pool, selected: seq<Id>): set<Id> { set id | id in selected && IsInstalled(pool, id) }

  function Matched(pool: Pool, selected: seq<Id>): set<Id> {
    if pool.installed.None? then {}
    else set id: nat | pool.installed.value.1 <= id < pool.installed.value.2 && IsInstalled(pool, id) && MatchesSelection(pool, selected, id)
  }

  function Targets(pool: Pool, selected: seq<Id>): set<Id> {
    if Direct(pool, selected) != {} then Direct(pool, selected) else Matched(pool, selected)
  }

  function Candidates(pool: Pool, evr: Evr, operation: nat, selected: seq<Id>, prior: Id): set<Id> {
    set id | id in selected && Eligible(pool, evr, operation, prior, id)
  }

  datatype Replacement = Chosen(candidate: Id) | SeveralInstalled | NotInstalled | NoCandidate

  /** The greatest candidate. */
  predicate Greatest(pool: Pool, evr: Evr, candidates: set<Id>, m: Id) {
    m in candidates && forall x :: x in candidates && x != m ==> Beats(pool, evr, m, x)
  }

  /** The first two loops: the one installed package to replace, told by sets alone. */
  method FindTarget(pool: Pool, selected: seq<Id>) returns (several: bool, installed: Option<Id>)
    ensures several <==> exists a, b :: a in Targets(pool, selected) && b in Targets(pool, selected) && a != b
    ensures !several ==> Targets(pool, selected) == if installed.None? then {} else {installed.value}
  {
    installed := None;
    for i := 0 to |selected|
      invariant installed.None? ==> forall j :: 0 <= j < i ==> !IsInstalled(pool, selected[j])
      invariant installed.Some? ==> installed.value in Direct(pool, selected)
      invariant installed.Some? ==> forall j :: 0 <= j < i && IsInstalled(pool, selected[j]) ==> selected[j] == installed.value
    {
      if IsInstalled(pool, selected[i]) {
        if installed.Some? && installed.value != selected[i] {
          assert selected[i] in Direct(pool, selected) && Direct(pool, selected) == Targets(pool, selected);
          return true, None;
        }
        installed := Some(selected[i]);
      }
    }
    if installed.None? && pool.installed.Some? {
      assert Direct(pool, selected) == {};
      var (_, start, end) := pool.installed.value;
      var id := start;
      while id < end
        invariant start <= id
        invariant installed.None? ==> forall x :: x in Matched(pool, selected) ==> id <= x
        invariant installed.Some? ==> installed.value in Matched(pool, selected) && installed.value < id
        invariant installed.Some? ==> forall x :: x in Matched(pool, selected) && x < id ==> x == installed.value
      {
        if IsInstalled(pool, id) && MatchesSelection(pool, selected, id) {
          assert id in Matched(pool, selected) && Matched(pool, selected) == Targets(pool, selected);
          if installed.Some? { return true, None; }
          installed := Some(id);
        }
        id := id + 1;
      }
    }
    several := false;
  }

  /** `exact_replacement_candidate`: every outcome is told by sets alone, so no listing order matters. */
  method ExactReplacement(pool: Pool, evr: Evr, operation: nat, selected: seq<Id>) returns (r: Replacement)
    requires TotalPreorder(evr)
    ensures r.SeveralInstalled? <==> exists a, b :: a in Targets(pool, selected) && b in Targets(pool, selected) && a != b
    ensures r.NotInstalled? <==> Targets(pool, selected) == {}
    ensures r.NoCandidate? ==> exists prior :: Targets(pool, selected) == {prior} && Candidates(pool, evr, operation, selected, prior) == {}
    ensures r.Chosen? ==> exists prior :: Targets(pool, selected) == {prior} &&
                            Greatest(pool, evr, Candidates(pool, evr, operation, selected, prior), r.candidate)
  {
    var several, installed := FindTarget(pool, selected);
    if several { return SeveralInstalled; }
    if installed.None? { return NotInstalled; }
    var prior := installed.value;
    assert Targets(pool, selected) == {prior};
    var found := FindGreatest(pool, evr, operation, selected, prior);
    r := if found.None? then NoCandidate else Chosen(found.value);
  }

  /** The last loop. */
  method FindGreatest(pool: Pool, evr: Evr, operation: nat, selected: seq<Id>, prior: Id) returns (candidate: Option<Id>)
    requires TotalPreorder(evr)
    ensures candidate.None? ==> Candidates(pool, evr, operation, selected, prior) == {}
    ensures candidate.Some? ==> Greatest(pool, evr, Candidates(pool, evr, operation, selected, prior), candidate.value)
  {
    candidate := None;
    for i := 0 to |selected|
      invariant candidate.None? ==> forall j :: 0 <= j < i ==> !Eligible(pool, evr, operation, prior, selected[j])
      invariant candidate.Some? ==> candidate.value in selected && Eligible(pool, evr, operation, prior, candidate.value)
      invariant candidate.Some? ==> forall j :: 0 <= j < i && Eligible(pool, evr, operation, prior, selected[j]) ==>
                                      selected[j] == candidate.value || Beats(pool, evr, candidate.value, selected[j])
    {
      var id := selected[i];
      if Eligible(pool, evr, operation, prior, id) {
        if candidate.None? {
          candidate := Some(id);
        } else {
          ghost var was := candidate.value;
          forall j | 0 <= j < i && Eligible(pool, evr, operation, prior, selected[j])
            ensures Beats(pool, evr, id, was) && Beats(pool, evr, was, selected[j]) ==> Beats(pool, evr, id, selected[j])
          {
            BeatsOrder(pool, evr, id, was, selected[j]);
          }
          BeatsOrder(pool, evr, id, was, id);
          if Beats(pool, evr, id, candidate.value) { candidate := Some(id); }
        }
      }
    }
  }

  /** There is at most one greatest candidate. */
  lemma GreatestUnique(pool: Pool, evr: Evr, candidates: set<Id>, a: Id, b: Id)
    requires TotalPreorder(evr)
    requires Greatest(pool, evr, candidates, a) && Greatest(pool, evr, candidates, b)
    ensures a == b
  {
    BeatsOrder(pool, evr, a, b, a);
  }

  /** Targets and candidates are those of the set of selected ids: with GreatestUnique, any listing of the
      same selection gives the same replacement. */
  lemma SelectionIsASet(pool: Pool, evr: Evr, operation: nat, selected: seq<Id>, other: seq<Id>, prior: Id)
    requires Elements(selected) == Elements(other)
    ensures Targets(pool, selected) == Targets(pool, other)
    ensures Candidates(pool, evr, operation, selected, prior) == Candidates(pool, evr, operation, other, prior)
  {
    assert forall x :: x in selected <==> x in Elements(selected);
    assert forall x :: x in other <==> x in Elements(selected);
    forall id: Id ensures MatchesSelection(pool, selected, id) <==> MatchesSelection(pool, other, id) {
      MatchesBySet(pool, selected, other, id);
      MatchesBySet(pool, other, selected, id);
    }
  }

  lemma MatchesBySet(pool: Pool, selected: seq<Id>, other: seq<Id>, prior: Id)
    requires forall x :: x in selected ==> x in other
    ensures MatchesSelection(pool, selected, prior) ==> MatchesSelection(pool, other, prior)
  {
    if MatchesSelection(pool, selected, prior) {
      var k :| 0 <= k < |selected| && !IsInstalled(pool, selected[k]) &&
        pool.solvable(selected[k]).identity.name == pool.solvable(prior).identity.name &&
        pool.solvable(selected[k]).identity.arch == pool.solvable(prior).identity.arch;
      assert selected[k] in selected;
      var j :| 0 <= j < |other| && other[j] == selected[k];
      assert !IsInstalled(pool, other[j]);
    }
  }
}
