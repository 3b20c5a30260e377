/** Ordering the located records into a walk through the store
    (`gerar_rota_otimizada`): a greedy nearest-neighbour tour that starts at
    the first located record and always walks to the closest record whose
    product name has not been visited yet. Visited records are tracked by
    product name, so records that share a name become a single stop. */
module Route {
  import opened Seqs
  import opened Locations

  /** `produtos`: the records that are not error records, in order. */
  function LocatedOnly(rs: seq<Record>): (ps: seq<Stop>)
    ensures forall i :: 0 <= i < |ps| ==> ps[i] in rs
    ensures ps == [] <==> forall i :: 0 <= i < |rs| ==> rs[i].NotFound?
    ensures ps != [] ==> exists k :: 0 <= k < |rs| && rs[k] == ps[0] && forall j :: 0 <= j < k ==> rs[j].NotFound?
  {
    if rs == [] then []
    else if rs[0].Located? then [rs[0]] + LocatedOnly(rs[1..])
    else
      var ps := LocatedOnly(rs[1..]);
      assert forall i :: 0 <= i < |ps| ==> ps[i] in rs by {
        assert forall r :: r in rs[1..] ==> r in rs;
      }
      if ps != [] then
        var k :| 0 <= k < |rs| - 1 && rs[1..][k] == ps[0] && forall j :: 0 <= j < k ==> rs[1..][j].NotFound?;
        assert rs[k + 1] == ps[0];
        ps
      else ps
  }

  /** The filter drops error records only: a located record survives it
      exactly when it is among the records. */
  lemma {:induction false} LocatedOnlyMembers(rs: seq<Record>, p: Stop)
    ensures p in LocatedOnly(rs) <==> p in rs
  {
    if rs != [] {
      LocatedOnlyMembers(rs[1..], p);
      assert p in rs <==> p == rs[0] || p in rs[1..];
    }
  }

  /** A single record survives the filter exactly when it is located. */
  lemma LocatedOnlyOne(r: Record)
    ensures LocatedOnly([r]) == if r.Located? then [r] else []
  {
    assert [r][1..] == [];
  }

  /** The filter keeps the records' order and multiplicity: filtering
      `a + b` gives the located records of `a` followed by those of `b`.
      With `LocatedOnlyOne` this pins down `LocatedOnly` completely. */
  lemma {:induction false} LocatedOnlyConcat(a: seq<Record>, b: seq<Record>)
    ensures LocatedOnly(a + b) == LocatedOnly(a) + LocatedOnly(b)
  {
    if a == [] {
      assert a + b == b;
    } else {
      assert (a + b)[0] == a[0];
      assert (a + b)[1..] == a[1..] + b;
      LocatedOnlyConcat(a[1..], b);
    }
  }

  /** The squared Euclidean distance between two records; the square root
      is monotone, so comparing it picks the same record as `math.dist`. */
  function Dist2(a: Stop, b: Stop): int {
    (a.x - b.x) * (a.x - b.x) + (a.y - b.y) * (a.y - b.y)
  }

  /** `min(cs, key=distance from `from`)`: the index of the first record of
      least distance. The scan keeps its current best unless a later
      record is strictly closer, as Python's `min` does. */
  function NearestIndex(from: Stop, cs: seq<Stop>): (k: nat)
    requires |cs| > 0
    ensures k < |cs|
    ensures forall j :: 0 <= j < |cs| ==> Dist2(from, cs[k]) <= Dist2(from, cs[j])
    ensures forall j :: 0 <= j < k ==> Dist2(from, cs[k]) < Dist2(from, cs[j])
  {
    if |cs| == 1 then 0
    else
      var k := NearestIndex(from, cs[..|cs| - 1]);
      if Dist2(from, cs[|cs| - 1]) < Dist2(from, cs[k]) then |cs| - 1 else k
  }

  /** The product names of a sequence of records. */
  function NameSet(ps: seq<Stop>): set<string> {
    set p | p in ps :: p.name
  }

  function NotVisited(visited: set<string>): Stop -> bool {
    (p: Stop) => p.name !in visited
  }

  /** `proximos`: the records whose name is not yet visited, in order. */
  function Unvisited(ps: seq<Stop>, visited: set<string>): seq<Stop> {
    Filter(NotVisited(visited), ps)
  }

  lemma UnvisitedMembers(ps: seq<Stop>, visited: set<string>, p: Stop)
    ensures p in Unvisited(ps, visited) <==> p in ps && p.name !in visited
  {
    FilterMembers(NotVisited(visited), ps, p);
  }

  /** The rest of the route from `current` once the names in `visited` are
      taken: the loop guard `len(visitados) < len(produtos)`, the `break`
      when no candidate is left, and otherwise one nearest step. */
  function RouteFrom(ps: seq<Stop>, visited: set<string>, current: Stop): seq<Stop>
    requires visited <= NameSet(ps)
    decreases NameSet(ps) - visited
  {
    if |visited| >= |ps| then []
    else
      var cs := Unvisited(ps, visited);
      if cs == [] then []
      else
        var next := cs[NearestIndex(current, cs)];
        UnvisitedMembers(ps, visited, next);
        assert next.name in NameSet(ps);
        [next] + RouteFrom(ps, visited + {next.name}, next)
  }

  /** The whole route: the first record, then the greedy steps. */
  function GreedyRoute(ps: seq<Stop>): seq<Stop>
    requires |ps| > 0
  {
    assert ps[0].name in NameSet(ps);
    [ps[0]] + RouteFrom(ps, {ps[0].name}, ps[0])
  }

  /** What `gerar_rota_otimizada` returns. */
  datatype RouteOutcome =
    | Planned(route: seq<Stop>)
    | NoLocatedProduct   // every record was an error record

  function PlanRoute(records: seq<Record>): RouteOutcome {
    var ps := LocatedOnly(records);
    if ps == [] then NoLocatedProduct else Planned(GreedyRoute(ps))
  }

  /** The route loop of `gerar_rota_otimizada`, over the records that
      `obter_localizacoes_lista` produced. */
  method BuildRoute(records: seq<Record>) returns (r: RouteOutcome)
    ensures r == PlanRoute(records)
    ensures r == NoLocatedProduct <==> forall i :: 0 <= i < |records| ==> records[i].NotFound?
    ensures r.Planned? ==> |r.route| > 0 && r.route[0] == LocatedOnly(records)[0]
  {
    var ps := LocatedOnly(records);
    if ps == [] {
      return NoLocatedProduct;
    }
    var route := [ps[0]];
    var visited := {ps[0].name};
    var current := ps[0];
    assert ps[0].name in NameSet(ps);
    while |visited| < |ps|
      invariant visited <= NameSet(ps)
      invariant route + RouteFrom(ps, visited, current) == GreedyRoute(ps)
      decreases NameSet(ps) - visited
    {
      var candidates := Unvisited(ps, visited);
      if candidates == [] {
        break;
      }
      var next := candidates[NearestIndex(current, candidates)];
      UnvisitedMembers(ps, visited, next);
      assert next.name in NameSet(ps);
      assert RouteFrom(ps, visited, current) == [next] + RouteFrom(ps, visited + {next.name}, next);
      route := route + [next];
      visited := visited + {next.name};
      current := next;
    }
    assert RouteFrom(ps, visited, current) == [];
    assert route + [] == route;
    return Planned(route);
  }

  /** Pairwise distinct product names. */
  predicate DistinctNames(ps: seq<Stop>) {
    forall i, j :: 0 <= i < j < |ps| ==> ps[i].name != ps[j].name
  }

  lemma NameSetConcat(a: seq<Stop>, b: seq<Stop>)
    ensures NameSet(a + b) == NameSet(a) + NameSet(b)
  {
    forall n | n in NameSet(a + b)
      ensures n in NameSet(a) + NameSet(b)
    {
      var p :| p in a + b && p.name == n;
    }
  }

  lemma NameSetCons(p: Stop, t: seq<Stop>)
    ensures NameSet([p] + t) == {p.name} + NameSet(t)
  {
    NameSetConcat([p], t);
    assert NameSet([p]) == {p.name};
  }

  /** A record in front keeps the names distinct exactly when its name is
      new. */
  lemma DistinctCons(p: Stop, t: seq<Stop>)
    ensures DistinctNames([p] + t) <==> DistinctNames(t) && p.name !in NameSet(t)
  {
    var s := [p] + t;
    if DistinctNames(s) {
      forall i, j | 0 <= i < j < |t|
        ensures t[i].name != t[j].name
      {
        assert t[i] == s[i + 1] && t[j] == s[j + 1];
      }
      forall q | q in t
        ensures q.name != p.name
      {
        var j :| 0 <= j < |t| && t[j] == q;
        assert s[0] == p && s[j + 1] == q;
        assert s[0].name != s[j + 1].name;
      }
    }
    if DistinctNames(t) && p.name !in NameSet(t) {
      forall i, j | 0 <= i < j < |s|
        ensures s[i].name != s[j].name
      {
        assert s[j] == t[j - 1];
        if i > 0 {
          assert s[i] == t[i - 1];
        }
      }
    }
  }

  /** There are at most as many names as records, and exactly as many
      precisely when no two records share a name. */
  lemma {:induction false} NameSetSize(ps: seq<Stop>)
    ensures |NameSet(ps)| <= |ps|
    ensures |NameSet(ps)| == |ps| <==> DistinctNames(ps)
  {
    if ps != [] {
      var p, t := ps[0], ps[1..];
      assert ps == [p] + t;
      NameSetSize(t);
      NameSetCons(p, t);
      DistinctCons(p, t);
    }
  }

  /** A subset at least as large as its superset is the superset. */
  lemma SubsetFull(a: set<string>, b: set<string>)
    requires a <= b && |b| <= |a|
    ensures a == b
  {
    assert b == a + (b - a);
    assert |b| == |a| + |b - a|;
    assert b - a == {};
  }

  /** The rest of a route: records of `ps` whose names were not visited,
      no name twice. */
  lemma {:induction false} RouteFromStops(ps: seq<Stop>, visited: set<string>, current: Stop)
    requires visited <= NameSet(ps)
    ensures var r := RouteFrom(ps, visited, current);
      && (forall i :: 0 <= i < |r| ==> r[i] in ps)
      && NameSet(r) !! visited
      && DistinctNames(r)
    decreases NameSet(ps) - visited
  {
    if |visited| < |ps| && Unvisited(ps, visited) != [] {
      var cs := Unvisited(ps, visited);
      var next := cs[NearestIndex(current, cs)];
      UnvisitedMembers(ps, visited, next);
      assert next.name in NameSet(ps);
      var visited' := visited + {next.name};
      var rest := RouteFrom(ps, visited', next);
      RouteFromStops(ps, visited', next);
      assert RouteFrom(ps, visited, current) == [next] + rest;
      NameSetCons(next, rest);
      DistinctCons(next, rest);
    }
  }

  /** Between them, the visited names and the rest of the route cover every
      name of `ps`: the loop only stops when no name is left. */
  lemma {:induction false} RouteFromCovers(ps: seq<Stop>, visited: set<string>, current: Stop)
    requires visited <= NameSet(ps)
    ensures visited + NameSet(RouteFrom(ps, visited, current)) == NameSet(ps)
    decreases NameSet(ps) - visited
  {
    if |visited| >= |ps| {
      NameSetSize(ps);
      SubsetFull(visited, NameSet(ps));
    } else if Unvisited(ps, visited) == [] {
      forall n | n in NameSet(ps)
        ensures n in visited
      {
        var p :| p in ps && p.name == n;
        UnvisitedMembers(ps, visited, p);
      }
    } else {
      var cs := Unvisited(ps, visited);
      var next := cs[NearestIndex(current, cs)];
      UnvisitedMembers(ps, visited, next);
      assert next.name in NameSet(ps);
      var visited' := visited + {next.name};
      var rest := RouteFrom(ps, visited', next);
      RouteFromCovers(ps, visited', next);
      assert RouteFrom(ps, visited, current) == [next] + rest;
      NameSetCons(next, rest);
    }
  }

  /** `next` is what `min(proximos, key=...)` returns from `from` after the
      names in `visited`: a record of `ps` with an unvisited name, no farther
      from `from` than any other such record, and strictly closer than every
      candidate before it in `proximos` (first minimum wins). */
  predicate IsNearestStep(ps: seq<Stop>, visited: set<string>, from: Stop, next: Stop) {
    && next in ps
    && next.name !in visited
    && (forall q :: q in ps && q.name !in visited ==> Dist2(from, next) <= Dist2(from, q))
    && var cs := Unvisited(ps, visited);
       exists m :: 0 <= m < |cs| && cs[m] == next && forall j :: 0 <= j < m ==> Dist2(from, next) < Dist2(from, cs[j])
  }

  /** One step of the loop picks the nearest unvisited record. */
  lemma NearestStep(ps: seq<Stop>, visited: set<string>, from: Stop)
    requires Unvisited(ps, visited) != []
    ensures IsNearestStep(ps, visited, from, Unvisited(ps, visited)[NearestIndex(from, Unvisited(ps, visited))])
  {
    var cs := Unvisited(ps, visited);
    var k := NearestIndex(from, cs);
    UnvisitedMembers(ps, visited, cs[k]);
    forall q | q in ps && q.name !in visited
      ensures Dist2(from, cs[k]) <= Dist2(from, q)
    {
      UnvisitedMembers(ps, visited, q);
      var j :| 0 <= j < |cs| && cs[j] == q;
    }
  }

  /** Walking `r` from `from` with the names in `visited` taken: every
      stop is a nearest step from the one before it. */
  predicate NearestSteps(ps: seq<Stop>, visited: set<string>, from: Stop, r: seq<Stop>)
    decreases |r|
  {
    r == [] || (IsNearestStep(ps, visited, from, r[0]) && NearestSteps(ps, visited + {r[0].name}, r[0], r[1..]))
  }

  /** The rest of a route is a walk of nearest steps. */
  lemma {:induction false} RouteFromNearest(ps: seq<Stop>, visited: set<string>, current: Stop)
    requires visited <= NameSet(ps)
    ensures NearestSteps(ps, visited, current, RouteFrom(ps, visited, current))
    decreases NameSet(ps) - visited
  {
    if |visited| < |ps| && Unvisited(ps, visited) != [] {
      var cs := Unvisited(ps, visited);
      var next := cs[NearestIndex(current, cs)];
      UnvisitedMembers(ps, visited, next);
      assert next.name in NameSet(ps);
      var visited' := visited + {next.name};
      var rest := RouteFrom(ps, visited', next);
      RouteFromNearest(ps, visited', next);
      NearestStep(ps, visited, current);
      var r := RouteFrom(ps, visited, current);
      assert r == [next] + rest;
      assert r[1..] == rest;
    }
  }

  /** The walk, stop by stop: stop `i` is a nearest step from stop `i - 1`
      (or from `from`) once the names of the earlier stops are taken. */
  lemma {:induction false} NearestStepsAt(ps: seq<Stop>, visited: set<string>, from: Stop, r: seq<Stop>, i: nat)
    requires NearestSteps(ps, visited, from, r)
    requires i < |r|
    ensures IsNearestStep(ps, visited + NameSet(r[..i]), if i == 0 then from else r[i - 1], r[i])
    decreases i
  {
    if i == 0 {
      assert NameSet(r[..0]) == {};
      assert visited + NameSet(r[..0]) == visited;
    } else {
      var rest := r[1..];
      NearestStepsAt(ps, visited + {r[0].name}, r[0], rest, i - 1);
      assert r[..i] == [r[0]] + rest[..i - 1];
      NameSetCons(r[0], rest[..i - 1]);
      assert visited + NameSet(r[..i]) == visited + {r[0].name} + NameSet(rest[..i - 1]);
    }
  }

  /** The route starts at the first located record, visits only located
      records, never repeats a product name and covers every name; so it
      has exactly one stop per distinct name, at most one per record, and
      the loop runs once per name after the first. */
  lemma GreedyRouteStops(ps: seq<Stop>)
    requires |ps| > 0
    ensures var r := GreedyRoute(ps);
      && |r| > 0 && r[0] == ps[0]
      && (forall i :: 0 <= i < |r| ==> r[i] in ps)
      && DistinctNames(r)
      && NameSet(r) == NameSet(ps)
      && |r| == |NameSet(ps)| <= |ps|
  {
    var r := GreedyRoute(ps);
    assert ps[0].name in NameSet(ps);
    var rest := RouteFrom(ps, {ps[0].name}, ps[0]);
    RouteFromStops(ps, {ps[0].name}, ps[0]);
    RouteFromCovers(ps, {ps[0].name}, ps[0]);
    assert r == [ps[0]] + rest;
    NameSetCons(ps[0], rest);
    DistinctCons(ps[0], rest);
    NameSetSize(r);
    NameSetSize(ps);
  }

  /** Every stop after the first is the nearest record, from the stop
      before it, among those whose names are not yet on the route; ties go
      to the earliest candidate. */
  lemma GreedyRouteNearest(ps: seq<Stop>, i: nat)
    requires |ps| > 0
    requires i + 1 < |GreedyRoute(ps)|
    ensures var r := GreedyRoute(ps);
      IsNearestStep(ps, NameSet(r[..i + 1]), r[i], r[i + 1])
  {
    var r := GreedyRoute(ps);
    assert ps[0].name in NameSet(ps);
    var rest := RouteFrom(ps, {ps[0].name}, ps[0]);
    RouteFromNearest(ps, {ps[0].name}, ps[0]);
    NearestStepsAt(ps, {ps[0].name}, ps[0], rest, i);
    assert r == [ps[0]] + rest;
    assert r[..i + 1] == [ps[0]] + rest[..i];
    NameSetCons(ps[0], rest[..i]);
    assert r[i + 1] == rest[i];
  }

  lemma {:induction false} DistinctCount(s: seq<Stop>, x: Stop)
    requires DistinctNames(s)
    ensures multiset(s)[x] == if x in s then 1 else 0
  {
    if s != [] {
      var t := s[1..];
      assert s == [s[0]] + t;
      DistinctCons(s[0], t);
      DistinctCount(t, x);
      assert x in t ==> x.name in NameSet(t);
    }
  }

  /** The route is a permutation of the located records exactly when no two
      of them share a product name; otherwise it is strictly shorter. */
  lemma GreedyRoutePermutation(ps: seq<Stop>)
    requires |ps| > 0
    ensures multiset(GreedyRoute(ps)) == multiset(ps) <==> DistinctNames(ps)
    ensures !DistinctNames(ps) ==> |GreedyRoute(ps)| < |ps|
  {
    var r := GreedyRoute(ps);
    GreedyRouteStops(ps);
    NameSetSize(ps);
    var mr: multiset<Stop>, mps: multiset<Stop> := multiset(r), multiset(ps);
    if DistinctNames(ps) {
      forall x: Stop
        ensures mr[x] == mps[x]
      {
        DistinctCount(r, x);
        DistinctCount(ps, x);
        if x in ps {
          assert x.name in NameSet(r);
          var y :| y in r && y.name == x.name;
          var i :| 0 <= i < |ps| && ps[i] == x;
          var j :| 0 <= j < |ps| && ps[j] == y;
          assert i == j;
        }
      }
      assert mr == mps;
    } else {
      assert |mr| != |mps|;
    }
  }
}
