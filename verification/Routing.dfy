/** The routing table, and the proof that its lookup is the one longest match among all its rules (src/routing.rs). */
module Routing {
  import opened Outcomes
  import opened Names
  import opened Replies
  import opened Transport

  const MAX_UPSTREAMS := 8

  datatype RouteError = InvalidGroupSize | DuplicateServer | DuplicateRoute(name: DomainName)

  datatype UpstreamGroup = UpstreamGroup(servers: seq<Endpoint>) {
    /** Nonempty, bounded and without duplicates. */
    ghost predicate Valid() {
      && 1 <= |servers| <= 8
      && forall i, j :: 0 <= i < j < |servers| ==> servers[i] != servers[j]
    }
  }

  /** Validates size and uniqueness without reordering. */
  method NewGroup(addresses: seq<Endpoint>) returns (r: Result<UpstreamGroup, RouteError>)
    ensures r.Ok? <==> UpstreamGroup(addresses).Valid()
    ensures r.Ok? ==> r.value == UpstreamGroup(addresses)
    ensures r.Err? ==> r.error == if 1 <= |addresses| <= 8 then DuplicateServer else InvalidGroupSize
  {
    if addresses == [] || |addresses| > MAX_UPSTREAMS {
      return Err(InvalidGroupSize);
    }
    for i := 0 to |addresses|
      invariant forall a, b :: 0 <= a < b < i ==> addresses[a] != addresses[b]
    {
      if addresses[i] in addresses[..i] {
        return Err(DuplicateServer);
      }
    }
    return Ok(UpstreamGroup(addresses));
  }

  /** A policy for a suffix and everything below it. */
  datatype Rule<+T> = Rule(suffix: DomainName, policy: T)

  type Route = Rule<UpstreamGroup>
  type LocalRecord = Rule<LocalAnswer>

  datatype RoutingTable = RoutingTable(fallback: Option<UpstreamGroup>, routes: seq<Route>, local: seq<LocalRecord>) {
    predicate HasUpstreams() {
      fallback.Some? || routes != []
    }
  }

  datatype Selection = Default(group: UpstreamGroup) | Routed(route: Route) | Local(record: LocalRecord) | Unmatched

  // ----- ordering by specificity -----

  function Insert<T>(r: Rule<T>, rs: seq<Rule<T>>): seq<Rule<T>> {
    if rs == [] || |r.suffix.labels| >= |rs[0].suffix.labels| then [r] + rs else [rs[0]] + Insert(r, rs[1..])
  }

  /** The stable sort by label count, most labels first. */
  function Sort<T>(rs: seq<Rule<T>>): seq<Rule<T>> {
    if rs == [] then [] else Insert(rs[0], Sort(rs[1..]))
  }

  ghost predicate Descends<T>(rs: seq<Rule<T>>) {
    forall i, j :: 0 <= i < j < |rs| ==> |rs[i].suffix.labels| >= |rs[j].suffix.labels|
  }

  lemma {:induction false} InsertPermutes<T>(r: Rule<T>, rs: seq<Rule<T>>)
    ensures multiset(Insert(r, rs)) == multiset(rs) + multiset{r}
    decreases |rs|
  {
    if rs != [] && |r.suffix.labels| < |rs[0].suffix.labels| {
      assert rs == [rs[0]] + rs[1..];
      InsertPermutes(r, rs[1..]);
    }
  }

  lemma {:induction false} InsertDescends<T>(r: Rule<T>, rs: seq<Rule<T>>)
    requires Descends(rs)
    ensures Descends(Insert(r, rs))
    decreases |rs|
  {
    if rs != [] && |r.suffix.labels| < |rs[0].suffix.labels| {
      InsertDescends(r, rs[1..]);
      var rest := Insert(r, rs[1..]);
      assert Insert(r, rs) == [rs[0]] + rest;
      InsertPermutes(r, rs[1..]);
      forall x | x in rest ensures |rs[0].suffix.labels| >= |x.suffix.labels| {
        assert x in multiset(rest);
      }
    }
  }

  /** Sorting permutes the rules and puts the most specific first. */
  lemma {:induction false} SortKeeps<T>(rs: seq<Rule<T>>)
    ensures multiset(Sort(rs)) == multiset(rs) && Descends(Sort(rs))
    decreases |rs|
  {
    hide Insert;
    if rs != [] {
      assert rs == [rs[0]] + rs[1..];
      SortKeeps(rs[1..]);
      InsertPermutes(rs[0], Sort(rs[1..]));
      InsertDescends(rs[0], Sort(rs[1..]));
    }
  }

  // ----- construction -----

  ghost predicate Distinct<T>(rs: seq<Rule<T>>) {
    forall i, j :: 0 <= i < j < |rs| ==> !SameName(rs[i].suffix, rs[j].suffix)
  }

  /** No two rules, of either kind, name the same suffix. */
  ghost predicate DistinctRules(routes: seq<Route>, local: seq<LocalRecord>) {
    && Distinct(routes) && Distinct(local)
    && forall r, l :: r in routes && l in local ==> !SameName(r.suffix, l.suffix)
  }

  ghost predicate Repeated<T>(rs: seq<Rule<T>>, suffix: DomainName) {
    exists j :: 0 <= j < |rs| && SameName(rs[j].suffix, suffix)
  }

  /** The first rule, routes before local records, whose suffix was already taken. */
  ghost predicate FirstRepeat(routes: seq<Route>, local: seq<LocalRecord>, name: DomainName) {
    || (exists i :: 0 <= i < |routes| && name == routes[i].suffix
                    && Repeated(routes[..i], name) && Distinct(routes[..i]))
    || (exists i :: 0 <= i < |local| && name == local[i].suffix
                    && (Repeated(local[..i], name) || Repeated(routes, name)) && DistinctRules(routes, local[..i]))
  }

  lemma RouteRepeats(routes: seq<Route>, local: seq<LocalRecord>, i: nat)
    requires i < |routes|
    requires forall a, b :: 0 <= a < b < i ==> !SameName(routes[a].suffix, routes[b].suffix)
    requires exists j :: 0 <= j < i && SameName(routes[j].suffix, routes[i].suffix)
    ensures FirstRepeat(routes, local, routes[i].suffix)
  {
    hide SameName;
    var j :| 0 <= j < i && SameName(routes[j].suffix, routes[i].suffix);
    assert routes[..i][j] == routes[j];
  }

  lemma LocalRepeats(routes: seq<Route>, local: seq<LocalRecord>, i: nat)
    requires Distinct(routes) && i < |local|
    requires forall a, b :: 0 <= a < b < i ==> !SameName(local[a].suffix, local[b].suffix)
    requires forall a, b :: 0 <= a < |routes| && 0 <= b < i ==> !SameName(routes[a].suffix, local[b].suffix)
    requires (exists j :: 0 <= j < i && SameName(local[j].suffix, local[i].suffix))
             || (exists j :: 0 <= j < |routes| && SameName(routes[j].suffix, local[i].suffix))
    ensures FirstRepeat(routes, local, local[i].suffix)
  {
    hide SameName;
    if j :| 0 <= j < i && SameName(local[j].suffix, local[i].suffix) {
      assert local[..i][j] == local[j];
    }
  }

  /** Rejects duplicate suffixes and prepares the lookup order. */
  method NewTable(fallback: Option<UpstreamGroup>, routes: seq<Route>, local: seq<LocalRecord>)
    returns (r: Result<RoutingTable, RouteError>)
    ensures r.Ok? <==> DistinctRules(routes, local)
    ensures r.Ok? ==> r.value == RoutingTable(fallback, Sort(routes), Sort(local)) && Prepared(r.value)
    ensures r.Err? ==> r.error.DuplicateRoute? && FirstRepeat(routes, local, r.error.name)
  {
    hide SameName, FirstRepeat, Prepared;
    for i := 0 to |routes|
      invariant forall a, b :: 0 <= a < b < i ==> !SameName(routes[a].suffix, routes[b].suffix)
    {
      if exists j :: 0 <= j < i && SameName(routes[j].suffix, routes[i].suffix) {
        RouteRepeats(routes, local, i);
        return Err(DuplicateRoute(routes[i].suffix));
      }
    }
    for i := 0 to |local|
      invariant forall a, b :: 0 <= a < b < i ==> !SameName(local[a].suffix, local[b].suffix)
      invariant forall a, b :: 0 <= a < |routes| && 0 <= b < i ==> !SameName(routes[a].suffix, local[b].suffix)
    {
      if exists j :: 0 <= j < i && SameName(local[j].suffix, local[i].suffix) {
        LocalRepeats(routes, local, i);
        return Err(DuplicateRoute(local[i].suffix));
      }
      if exists j :: 0 <= j < |routes| && SameName(routes[j].suffix, local[i].suffix) {
        LocalRepeats(routes, local, i);
        return Err(DuplicateRoute(local[i].suffix));
      }
    }
    SortPrepares(fallback, routes, local);
    return Ok(RoutingTable(fallback, Sort(routes), Sort(local)));
  }

  // ----- selection -----

  function Find<T>(rs: seq<Rule<T>>, name: DomainName): (r: Option<Rule<T>>)
    ensures r.Some? ==> r.value in rs && IsSubdomainOf(name, r.value.suffix)
    ensures r.None? ==> forall x :: x in rs ==> !IsSubdomainOf(name, x.suffix)
  {
    if rs == [] then None
    else if IsSubdomainOf(name, rs[0].suffix) then Some(rs[0])
    else Find(rs[1..], name)
  }

  /** Depends on the question name alone; the default is used only when no suffix matches. */
  function Select(table: RoutingTable, name: DomainName): Selection {
    match (Find(table.routes, name), Find(table.local, name))
    case (Some(route), Some(record)) =>
      if |route.suffix.labels| > |record.suffix.labels| then Routed(route) else Local(record)
    case (None, Some(record)) => Local(record)
    case (Some(route), None) => Routed(route)
    case (None, None) => if table.fallback.Some? then Default(table.fallback.value) else Unmatched
  }

  // ----- the declarative longest match -----

  /** Every other rule of the list that matches has fewer labels than `suffix`. */
  ghost predicate Beats<T>(suffix: DomainName, rs: seq<Rule<T>>, name: DomainName) {
    forall r :: r in rs && Below(name, r.suffix) && r.suffix != suffix ==>
                  |r.suffix.labels| < |suffix.labels|
  }

  /** `suffix` matches with more labels than every other matching rule of either kind. */
  ghost predicate Longest(suffix: DomainName, routes: seq<Route>, local: seq<LocalRecord>, name: DomainName) {
    Below(name, suffix) && Beats(suffix, routes, name) && Beats(suffix, local, name)
  }

  ghost predicate NothingMatches(routes: seq<Route>, local: seq<LocalRecord>, name: DomainName) {
    && (forall r :: r in routes ==> !Below(name, r.suffix))
    && (forall l :: l in local ==> !Below(name, l.suffix))
  }

  /** What selection means, for rules in any order. */
  ghost predicate Wins(
    fallback: Option<UpstreamGroup>, routes: seq<Route>, local: seq<LocalRecord>, name: DomainName, s: Selection)
  {
    match s
    case Routed(r) => r in routes && Longest(r.suffix, routes, local, name)
    case Local(l) => l in local && Longest(l.suffix, routes, local, name)
    case Default(group) => fallback == Some(group) && NothingMatches(routes, local, name)
    case Unmatched => fallback.None? && NothingMatches(routes, local, name)
  }

  lemma SubdomainsAreBelow(name: DomainName)
    ensures forall suffix :: IsSubdomainOf(name, suffix) <==> Below(name, suffix)
  {
    hide IsSubdomainOf, Below;
    forall suffix ensures IsSubdomainOf(name, suffix) <==> Below(name, suffix) {
      SubdomainIffBelow(name, suffix);
    }
  }

  /** The first match in descending order has at least as many labels as every match. */
  lemma {:induction false} FirstIsLongest<T>(rs: seq<Rule<T>>, name: DomainName)
    requires Descends(rs) && Find(rs, name).Some?
    ensures forall r :: r in rs && IsSubdomainOf(name, r.suffix) ==>
                          |r.suffix.labels| <= |Find(rs, name).value.suffix.labels|
    decreases |rs|
  {
    hide IsSubdomainOf;
    if !IsSubdomainOf(name, rs[0].suffix) {
      FirstIsLongest(rs[1..], name);
    }
  }

  /** Both rules match `name` with equally many labels. */
  ghost predicate Ties<T, U>(name: DomainName, a: Rule<T>, b: Rule<U>) {
    Below(name, a.suffix) && Below(name, b.suffix) && |a.suffix.labels| == |b.suffix.labels|
  }

  /** Matching rules with equally many labels are one and the same rule, so nothing ever ties. */
  lemma MatchesDoNotTie(routes: seq<Route>, local: seq<LocalRecord>, name: DomainName)
    requires DistinctRules(routes, local)
    ensures forall r, r' :: r in routes && r' in routes && Ties(name, r, r') ==> r == r'
    ensures forall l, l' :: l in local && l' in local && Ties(name, l, l') ==> l == l'
    ensures forall r, l :: r in routes && l in local ==> !Ties(name, r, l)
  {
    hide IsSubdomainOf, SameName, Below;
    SubdomainsAreBelow(name);
    forall a, b | Below(name, a) && Below(name, b) && |a.labels| == |b.labels|
      ensures SameName(a, b)
    {
      SuffixesOfOneName(name, a, b);
    }
  }

  /** What construction gives a table: no repeated suffix, and more labels before fewer. */
  ghost predicate Prepared(table: RoutingTable) {
    DistinctRules(table.routes, table.local) && Descends(table.routes) && Descends(table.local)
  }

  lemma SortPrepares(fallback: Option<UpstreamGroup>, routes: seq<Route>, local: seq<LocalRecord>)
    requires DistinctRules(routes, local)
    ensures Prepared(RoutingTable(fallback, Sort(routes), Sort(local)))
  {
    hide DistinctRules;
    SortKeeps(routes);
    SortKeeps(local);
    DistinctRulesPermute(routes, local, Sort(routes), Sort(local));
  }

  /** Lookup in a prepared table is the declarative longest match. */
  lemma PreparedSelectsLongest(table: RoutingTable, name: DomainName)
    requires Prepared(table)
    ensures Wins(table.fallback, table.routes, table.local, name, Select(table, name))
  {
    hide IsSubdomainOf, SameName, Below, DistinctRules, Find;
    SubdomainsAreBelow(name);
    MatchesDoNotTie(table.routes, table.local, name);
    if Find(table.routes, name).Some? {
      FirstIsLongest(table.routes, name);
    }
    if Find(table.local, name).Some? {
      FirstIsLongest(table.local, name);
    }
  }

  /** Lookup after construction is the declarative longest match over the configured rules. */
  lemma SelectIsLongestMatch(
    fallback: Option<UpstreamGroup>, routes: seq<Route>, local: seq<LocalRecord>, name: DomainName)
    requires DistinctRules(routes, local)
    ensures Wins(fallback, routes, local, name,
                 Select(RoutingTable(fallback, Sort(routes), Sort(local)), name))
  {
    hide Sort, DistinctRules, Select, Prepared, Wins;
    var table := RoutingTable(fallback, Sort(routes), Sort(local));
    SortPrepares(fallback, routes, local);
    PreparedSelectsLongest(table, name);
    SortKeeps(routes);
    SortKeeps(local);
    WinsPermutes(fallback, table.routes, table.local, routes, local, name, Select(table, name));
  }

  /** There is at most one winner. */
  lemma WinnerIsUnique(
    fallback: Option<UpstreamGroup>, routes: seq<Route>, local: seq<LocalRecord>, name: DomainName,
    a: Selection, b: Selection)
    requires DistinctRules(routes, local)
    requires Wins(fallback, routes, local, name, a) && Wins(fallback, routes, local, name, b)
    ensures a == b
  {
    hide IsSubdomainOf, SameName, Below, DistinctRules;
    MatchesDoNotTie(routes, local, name);
  }

  lemma DistinctRulesPermute(routes: seq<Route>, local: seq<LocalRecord>, routes': seq<Route>, local': seq<LocalRecord>)
    requires multiset(routes) == multiset(routes') && multiset(local) == multiset(local')
    requires DistinctRules(routes, local)
    ensures DistinctRules(routes', local')
  {
    hide IsSubdomainOf, SameName;
    assert forall r :: r in routes' <==> r in multiset(routes');
    assert forall l :: l in local' <==> l in multiset(local');
    DistinctPermutes(routes, routes');
    DistinctPermutes(local, local');
  }

  /** Two places of a permutation come from two places of the original. */
  lemma TwoPlaces<T>(xs: seq<T>, ys: seq<T>, i: nat, j: nat) returns (a: nat, b: nat)
    requires multiset(xs) == multiset(ys) && i < j < |ys|
    ensures a < |xs| && b < |xs| && a != b && xs[a] == ys[i] && xs[b] == ys[j]
  {
    assert ys[i] in multiset(ys) && ys[j] in multiset(ys);
    a :| a < |xs| && xs[a] == ys[i];
    if ys[i] != ys[j] {
      b :| b < |xs| && xs[b] == ys[j];
    } else {
      WithoutOne(ys, i);
      WithoutOne(xs, a);
      assert (ys[..i] + ys[i + 1..])[j - 1] == ys[j];
      var rest := xs[..a] + xs[a + 1..];
      assert ys[j] in multiset(rest);
      var k :| 0 <= k < |rest| && rest[k] == ys[j];
      b := if k < a then k else k + 1;
    }
  }

  lemma WithoutOne<T>(xs: seq<T>, a: nat)
    requires a < |xs|
    ensures multiset(xs[..a] + xs[a + 1..]) == multiset(xs) - multiset{xs[a]}
  {
    assert xs == xs[..a] + [xs[a]] + xs[a + 1..];
  }

  lemma DistinctPermutes<T>(rs: seq<Rule<T>>, rs': seq<Rule<T>>)
    requires multiset(rs) == multiset(rs') && Distinct(rs)
    ensures Distinct(rs')
  {
    hide SameName;
    forall i, j | 0 <= i < j < |rs'| ensures !SameName(rs'[i].suffix, rs'[j].suffix) {
      var a, b := TwoPlaces(rs, rs', i, j);
      SameNameIsEquivalence(rs[a].suffix, rs[b].suffix, rs[a].suffix);
      SameNameIsEquivalence(rs[b].suffix, rs[a].suffix, rs[b].suffix);
    }
  }

  /** The order of the configuration changes neither acceptance nor any selection. */
  lemma OrderDoesNotMatter(
    fallback: Option<UpstreamGroup>, routes: seq<Route>, local: seq<LocalRecord>,
    routes': seq<Route>, local': seq<LocalRecord>, name: DomainName)
    requires multiset(routes) == multiset(routes') && multiset(local) == multiset(local')
    ensures DistinctRules(routes, local) <==> DistinctRules(routes', local')
    ensures DistinctRules(routes, local) ==>
              Select(RoutingTable(fallback, Sort(routes), Sort(local)), name)
              == Select(RoutingTable(fallback, Sort(routes'), Sort(local')), name)
  {
    hide DistinctRules, Select, Wins;
    if DistinctRules(routes, local) {
      DistinctRulesPermute(routes, local, routes', local');
    }
    if DistinctRules(routes', local') {
      DistinctRulesPermute(routes', local', routes, local);
      SelectIsLongestMatch(fallback, routes, local, name);
      SelectIsLongestMatch(fallback, routes', local', name);
      var s' := Select(RoutingTable(fallback, Sort(routes'), Sort(local')), name);
      WinsPermutes(fallback, routes', local', routes, local, name, s');
      WinnerIsUnique(fallback, routes, local, name,
                     Select(RoutingTable(fallback, Sort(routes), Sort(local)), name), s');
    }
  }

  lemma WinsPermutes(
    fallback: Option<UpstreamGroup>, routes: seq<Route>, local: seq<LocalRecord>,
    routes': seq<Route>, local': seq<LocalRecord>, name: DomainName, s: Selection)
    requires multiset(routes) == multiset(routes') && multiset(local) == multiset(local')
    requires Wins(fallback, routes, local, name, s)
    ensures Wins(fallback, routes', local', name, s)
  {
    hide Below;
    assert forall r :: r in routes' <==> r in multiset(routes');
    assert forall l :: l in local' <==> l in multiset(local');
    assert forall r :: r in routes <==> r in multiset(routes);
    assert forall l :: l in local <==> l in multiset(local);
  }

  /** Names that differ only in ASCII case are routed alike. */
  lemma SelectIgnoresCase(table: RoutingTable, a: DomainName, b: DomainName)
    requires SameName(a, b)
    ensures Select(table, a) == Select(table, b)
  {
    hide IsSubdomainOf, SameName;
    FindIgnoresCase(table.routes, a, b);
    FindIgnoresCase(table.local, a, b);
  }

  lemma {:induction false} FindIgnoresCase<T>(rs: seq<Rule<T>>, a: DomainName, b: DomainName)
    requires SameName(a, b)
    ensures Find(rs, a) == Find(rs, b)
    decreases |rs|
  {
    hide IsSubdomainOf, SameName;
    if rs != [] {
      SameNameSameSuffixes(a, b, rs[0].suffix);
      FindIgnoresCase(rs[1..], a, b);
    }
  }
}
