/** The catalog delta: what was added, removed, changed and moved between two model catalogs. */
module CatalogDiff {
  import opened Machine
  import opened Serializer
  import opened Sorting

  /** A JavaScript object: its keys in the order it lists them, and their values. */
  datatype Obj<+V> = Obj(keys: seq<Str>, at: map<Str, V>)

  /** The keys are listed once each. */
  predicate Listed<V>(r: Obj<V>) {
    AsSet(r.keys) == r.at.Keys && |r.keys| == |r.at.Keys|
  }

  type Record<+V> = r: Obj<V> | Listed(r) witness Obj([], map[])

  type Model = map<Str, Json>
  type Provider = Record<Record<Model>>
  type Catalog = Record<Provider>

  /** A model under an API of a provider. */
  datatype Route = Route(api: Str, model: Str)

  datatype Status = Added | Removed | Changed | Unchanged
  datatype FieldChange = FieldChange(field: Str, before: Json, after: Json)
  datatype ModelDelta = ModelDelta(provider: Str, route: Route, status: Status, changes: seq<FieldChange>)
  datatype ApiMove = ApiMove(provider: Str, model: Str, fromApi: Str, toApi: Str)
  datatype ProviderDelta = ProviderDelta(provider: Str, status: Status, baseCount: nat, headCount: nat,
                                         added: seq<Str>, removed: seq<Str>, changed: seq<Str>)

  /** The comparisons used: of names, of coordinate texts, and of names by code unit. */
  datatype Orders = Orders(names: (Str, Str) -> bool, texts: (string, string) -> bool, units: (Str, Str) -> bool)

  function Nothing<V>(): Record<V> {
    Obj([], map[])
  }

  /** The keys are listed once each. */
  lemma KeysListed<V>(r: Record<V>)
    ensures Distinct(r.keys) && forall k :: k in r.keys <==> k in r.at
  {
    SetSize(r.keys);
    assert forall k :: k in r.keys <==> k in AsSet(r.keys);
    assert forall k :: k in r.at <==> k in r.at.Keys;
  }

  // ----- coordinates

  /** The text under which a route is looked up. */
  function Coordinate(r: Route): string {
    "[" + (Quoted(r.api) + ("," + (Quoted(r.model) + "]")))
  }

  lemma CoordinateInjective(r: Route, t: Route)
    requires Coordinate(r) == Coordinate(t)
    ensures r == t
  {
    hide Quoted;
    var x, y := "," + (Quoted(r.model) + "]"), "," + (Quoted(t.model) + "]");
    Strip("[", Quoted(r.api) + x, Quoted(t.api) + y);
    QuotedUnique(r.api, t.api, x, y);
    Strip(",", Quoted(r.model) + "]", Quoted(t.model) + "]");
    QuotedUnique(r.model, t.model, "]", "]");
  }

  function RouteOrder(o: Orders): (Route, Route) -> bool {
    (r: Route, t: Route) => o.texts(Coordinate(r), Coordinate(t))
  }

  const SLASH: Code := 0x2f

  /** The text under which a route is listed; unlike the coordinate it may be that of another route too. */
  function Display(r: Route): Str {
    r.api + [SLASH] + r.model
  }

  function Displays(q: seq<Route>): (d: seq<Str>)
    ensures |d| == |q|
  {
    seq(|q|, i requires 0 <= i < |q| => Display(q[i]))
  }

  // ----- entries

  ghost function Routes(p: Provider): set<Route> {
    set api, model | api in p.at.Keys && model in p.at[api].at.Keys :: Route(api, model)
  }

  function ProviderOf(c: Catalog, name: Str): Provider {
    if name in c.at then c.at[name] else Nothing()
  }

  predicate Has(p: Provider, r: Route) {
    r.api in p.at && r.model in p.at[r.api].at
  }

  /** The keys of an object in order; where two keys tie, in the object's own order. */
  function SortedNames<V>(r: Record<V>, o: Orders): (q: seq<Str>)
    ensures Distinct(q) && forall k :: k in q <==> k in r.at
  {
    KeysListed(r);
    SortPermutes(r.keys, o.names);
    SortDistinct(r.keys, o.names);
    Sort(r.keys, o.names)
  }

  ghost function RoutesOfApi(api: Str, models: seq<Str>): (q: seq<Route>)
    ensures |q| == |models| && forall i :: 0 <= i < |q| ==> q[i] == Route(api, models[i])
  {
    seq(|models|, i requires 0 <= i < |models| => Route(api, models[i]))
  }

  ghost function EntriesOver(p: Provider, apis: seq<Str>, o: Orders): seq<Route>
    requires forall a :: a in apis ==> a in p.at
  {
    if apis == [] then []
    else RoutesOfApi(apis[0], SortedNames(p.at[apis[0]], o)) + EntriesOver(p, apis[1..], o)
  }

  /** A provider's routes: APIs in order, and within each its models in order. */
  ghost function Entries(p: Provider, o: Orders): seq<Route> {
    EntriesOver(p, SortedNames(p, o), o)
  }

  lemma {:induction false} EntriesOverAre(p: Provider, apis: seq<Str>, o: Orders)
    requires (forall a :: a in apis ==> a in p.at) && Distinct(apis)
    ensures Distinct(EntriesOver(p, apis, o))
    ensures forall r :: r in EntriesOver(p, apis, o) <==> r.api in apis && Has(p, r)
  {
    hide Has, SortedNames;
    if apis != [] {
      var head, rest := RoutesOfApi(apis[0], SortedNames(p.at[apis[0]], o)), EntriesOver(p, apis[1..], o);
      assert apis == [apis[0]] + apis[1..];
      DistinctCons(apis[0], apis[1..]);
      EntriesOverAre(p, apis[1..], o);
      ApiRoutesAre(p, apis[0], o);
      hide Distinct;
      forall r: Route
        ensures r in head + rest <==> r.api in apis && Has(p, r)
      {
        assert r.api in apis <==> r.api == apis[0] || r.api in apis[1..];
      }
      DisjointDistinct(head, rest);
    }
  }

  lemma DisjointDistinct(a: seq<Route>, b: seq<Route>)
    requires Distinct(a) && Distinct(b) && forall r :: r in a ==> r !in b
    ensures Distinct(a + b)
  {
    forall i, j | 0 <= i < j < |a + b|
      ensures (a + b)[i] != (a + b)[j]
    {
      if i < |a| <= j {
        assert a[i] in a && b[j - |a|] in b;
      }
    }
  }

  lemma ApiRoutesAre(p: Provider, api: Str, o: Orders)
    requires api in p.at
    ensures var q := RoutesOfApi(api, SortedNames(p.at[api], o));
      Distinct(q) && forall r :: r in q <==> r.api == api && Has(p, r)
  {
    hide SortedNames;
    var models := SortedNames(p.at[api], o);
    var q := RoutesOfApi(api, models);
    forall i, j | 0 <= i < j < |q|
      ensures q[i] != q[j]
    {
      assert models[i] != models[j];
    }
    forall r: Route
      ensures r in q <==> r.api == api && Has(p, r)
    {
      if r.api == api && Has(p, r) {
        assert r.model in models;
        var i :| 0 <= i < |models| && models[i] == r.model;
        assert q[i] == r;
      }
    }
  }

  lemma EntriesAre(p: Provider, o: Orders)
    ensures Distinct(Entries(p, o)) && forall r :: r in Entries(p, o) <==> r in Routes(p)
  {
    hide SortedNames;
    EntriesOverAre(p, SortedNames(p, o), o);
  }

  /** Every route of the provider, in order. */
  method ProviderEntries(p: Provider, o: Orders) returns (entries: seq<Route>)
    ensures entries == Entries(p, o)
  {
    hide RoutesOfApi, SortedNames;
    entries := [];
    var apis := SortedNames(p, o);
    assert apis[0..] == apis;
    for i := 0 to |apis|
      invariant entries + EntriesOver(p, apis[i..], o) == Entries(p, o)
    {
      assert apis[i] in apis;
      var models := SortedNames(p.at[apis[i]], o);
      assert apis[i..][0] == apis[i] && apis[i..][1..] == apis[i + 1..];
      Assoc(entries, RoutesOfApi(apis[i], models), EntriesOver(p, apis[i + 1..], o));
      entries := PushRoutes(entries, apis[i], models);
    }
    assert apis[|apis|..] == [];
  }

  /** The inner loop: one entry for each model of an API. */
  method PushRoutes(before: seq<Route>, api: Str, models: seq<Str>) returns (entries: seq<Route>)
    ensures entries == before + RoutesOfApi(api, models)
  {
    hide RoutesOfApi;
    entries := before;
    RoutesOfApiNone(api);
    for j := 0 to |models|
      invariant entries == before + RoutesOfApi(api, models[..j])
    {
      RoutesOfApiGrow(api, models, j);
      Assoc(before, RoutesOfApi(api, models[..j]), [Route(api, models[j])]);
      entries := entries + [Route(api, models[j])];
    }
    assert models[..|models|] == models;
  }

  lemma RoutesOfApiNone(api: Str)
    ensures RoutesOfApi(api, []) == []
  {
  }

  lemma RoutesOfApiGrow(api: Str, models: seq<Str>, j: nat)
    requires j < |models|
    ensures RoutesOfApi(api, models[..j + 1]) == RoutesOfApi(api, models[..j]) + [Route(api, models[j])]
  {
  }

  // ----- fields

  function FieldOf(m: Model, field: Str): Json {
    if field in m then m[field] else Undefined
  }

  function CompareField(before: Model, after: Model, field: Str, o: Orders): Option<FieldChange> {
    var b, a := FieldOf(before, field), FieldOf(after, field);
    if Stable(b, o.names) == Stable(a, o.names) then None else Some(FieldChange(field, b, a))
  }

  function Changes(before: Model, after: Model, fields: seq<Str>, o: Orders): seq<FieldChange> {
    if fields == [] then []
    else
      match CompareField(before, after, fields[0], o)
      case None => Changes(before, after, fields[1..], o)
      case Some(c) => [c] + Changes(before, after, fields[1..], o)
  }

  // ----- one provider

  function ModelAt(p: Provider, r: Route): Model
    requires Has(p, r)
  {
    p.at[r.api].at[r.model]
  }

  /** What happened to a route that at least one side has. */
  function DeltaAt(name: Str, b: Provider, h: Provider, r: Route, fields: seq<Str>, o: Orders): ModelDelta {
    if !Has(b, r) then ModelDelta(name, r, Added, [])
    else if !Has(h, r) then ModelDelta(name, r, Removed, [])
    else
      var changes := Changes(ModelAt(b, r), ModelAt(h, r), fields, o);
      ModelDelta(name, r, if changes == [] then Unchanged else Changed, changes)
  }

  ghost function DeltasOver(name: Str, b: Provider, h: Provider, order: seq<Route>, fields: seq<Str>, all: bool,
                            o: Orders): seq<ModelDelta> {
    if order == [] then []
    else
      var d := DeltaAt(name, b, h, order[0], fields, o);
      (if d.status != Unchanged || all then [d] else []) + DeltasOver(name, b, h, order[1..], fields, all, o)
  }

  predicate ChangedAt(name: Str, b: Provider, h: Provider, r: Route, fields: seq<Str>, o: Orders) {
    DeltaAt(name, b, h, r, fields, o).status == Changed
  }

  ghost function IsChanged(name: Str, b: Provider, h: Provider, fields: seq<Str>, o: Orders): Route -> bool {
    r => ChangedAt(name, b, h, r, fields, o)
  }

  ghost function ChangedOver(name: Str, b: Provider, h: Provider, order: seq<Route>, fields: seq<Str>,
                             o: Orders): seq<Route> {
    Keep(order, IsChanged(name, b, h, fields, o))
  }

  /** The routes of both sides, ordered by coordinate. */
  ghost function Coordinates(b: Provider, h: Provider, o: Orders): seq<Route> {
    Sort(Dedup(Entries(b, o) + Entries(h, o)), RouteOrder(o))
  }

  lemma RoutesHad(p: Provider)
    ensures forall r :: r in Routes(p) <==> Has(p, r)
  {
    forall r: Route
      ensures r in Routes(p) <==> Has(p, r)
    {
      assert r == Route(r.api, r.model);
    }
  }

  /** Merging two lists and sorting keeps their elements, each once. */
  lemma MergedAre<T(!new)>(x: seq<T>, y: seq<T>, le: (T, T) -> bool)
    ensures Distinct(Sort(Dedup(x + y), le)) && forall e :: e in Sort(Dedup(x + y), le) <==> e in x || e in y
  {
    DedupIs(x + y);
    SortPermutes(Dedup(x + y), le);
    SortDistinct(Dedup(x + y), le);
    hide *;
  }

  lemma CoordinatesAre(b: Provider, h: Provider, o: Orders)
    ensures var q := Coordinates(b, h, o);
      Distinct(q) && forall r :: r in q <==> Has(b, r) || Has(h, r)
  {
    EntriesAre(b, o);
    EntriesAre(h, o);
    RoutesHad(b);
    RoutesHad(h);
    MergedAre(Entries(b, o), Entries(h, o), RouteOrder(o));
    hide Entries, RouteOrder, Sort, Dedup, Distinct, Has, Routes;
  }

  /** The entries of one side that the other side lacks. */
  ghost function Lost(p: Provider, q: Provider, o: Orders): seq<Route> {
    Keep(Entries(p, o), r => !Has(q, r))
  }

  ghost function ByModel(q: seq<Route>, model: Str): seq<Route> {
    Keep(q, (r: Route) => r.model == model)
  }

  ghost predicate Movable(removed: seq<Route>, added: seq<Route>, model: Str) {
    |ByModel(removed, model)| == 1 && |ByModel(added, model)| == 1
  }

  ghost function MoveOf(name: Str, removed: seq<Route>, added: seq<Route>, model: Str): ApiMove
    requires Movable(removed, added, model)
  {
    ApiMove(name, model, ByModel(removed, model)[0].api, ByModel(added, model)[0].api)
  }

  ghost function MovesOver(name: Str, order: seq<Str>, removed: seq<Route>, added: seq<Route>): seq<ApiMove> {
    if order == [] then []
    else
      (if Movable(removed, added, order[0]) then [MoveOf(name, removed, added, order[0])] else [])
      + MovesOver(name, order[1..], removed, added)
  }

  function ModelsOf(q: seq<Route>): (ms: seq<Str>)
    ensures |ms| == |q| && forall i :: 0 <= i < |q| ==> ms[i] == q[i].model
  {
    seq(|q|, i requires 0 <= i < |q| => q[i].model)
  }

  ghost predicate Mentions(q: seq<Route>, model: Str) {
    exists r :: r in q && r.model == model
  }

  /** The models of the routes, each once, in order. */
  function MoveOrder(q: seq<Route>, o: Orders): (ms: seq<Str>)
    ensures Distinct(ms) && forall m :: m in ms <==> Mentions(q, m)
  {
    DedupIs(ModelsOf(q));
    SortPermutes(Dedup(ModelsOf(q)), o.units);
    SortDistinct(Dedup(ModelsOf(q)), o.units);
    MentionedModels(q);
    Sort(Dedup(ModelsOf(q)), o.units)
  }

  lemma MentionedModels(q: seq<Route>)
    ensures forall m :: m in ModelsOf(q) <==> Mentions(q, m)
  {
    forall m | Mentions(q, m)
      ensures m in ModelsOf(q)
    {
      var r :| r in q && r.model == m;
      var i :| 0 <= i < |q| && q[i] == r;
      assert ModelsOf(q)[i] == m;
    }
  }

  /** What the report says about one provider. */
  datatype Section = Section(provider: ProviderDelta, models: seq<ModelDelta>, moves: seq<ApiMove>)

  function ProviderStatus(inBase: bool, inHead: bool, touched: bool): Status {
    if !inBase then Added else if !inHead then Removed else if touched then Changed else Unchanged
  }

  ghost function SectionOf(base: Catalog, head: Catalog, name: Str, fields: seq<Str>, all: bool, o: Orders): Section {
    var b, h := ProviderOf(base, name), ProviderOf(head, name);
    var added, removed := Lost(h, b, o), Lost(b, h, o);
    var order := Coordinates(b, h, o);
    var changed := ChangedOver(name, b, h, order, fields, o);
    var touched := added != [] || removed != [] || changed != [];
    Section(
      ProviderDelta(name, ProviderStatus(name in base.at, name in head.at, touched),
                    |Entries(b, o)|, |Entries(h, o)|, Displays(added), Displays(removed), Displays(changed)),
      DeltasOver(name, b, h, order, fields, all, o),
      MovesOver(name, MoveOrder(removed, o), removed, added))
  }

  method LostEntries(entries: seq<Route>, other: Provider) returns (lost: seq<Route>)
    ensures lost == Keep(entries, r => !Has(other, r))
  {
    hide Keep;
    lost := [];
    ghost var p := r => !Has(other, r);
    assert entries[0..] == entries;
    for i := 0 to |entries|
      invariant lost + Keep(entries[i..], p) == Keep(entries, p)
    {
      KeepStep(entries, i, p);
      Assoc(lost, [entries[i]], Keep(entries[i + 1..], p));
      if !Has(other, entries[i]) {
        lost := lost + [entries[i]];
      }
    }
    KeepNothing(p);
    assert entries[|entries|..] == [];
  }

  method RoutesWithModel(q: seq<Route>, model: Str) returns (found: seq<Route>)
    ensures found == ByModel(q, model)
  {
    hide Keep;
    found := [];
    ghost var p := (r: Route) => r.model == model;
    assert q[0..] == q;
    for i := 0 to |q|
      invariant found + Keep(q[i..], p) == Keep(q, p)
    {
      KeepStep(q, i, p);
      Assoc(found, [q[i]], Keep(q[i + 1..], p));
      if q[i].model == model {
        found := found + [q[i]];
      }
    }
    KeepNothing(p);
    assert q[|q|..] == [];
  }

  lemma MovesStep(name: Str, order: seq<Str>, i: nat, removed: seq<Route>, added: seq<Route>)
    requires i < |order|
    ensures MovesOver(name, order[i..], removed, added)
         == (if Movable(removed, added, order[i]) then [MoveOf(name, removed, added, order[i])] else [])
            + MovesOver(name, order[i + 1..], removed, added)
  {
    hide ByModel;
    assert order[i..][0] == order[i] && order[i..][1..] == order[i + 1..];
  }

  method PairMoves(name: Str, removed: seq<Route>, added: seq<Route>, o: Orders) returns (moves: seq<ApiMove>)
    ensures moves == MovesOver(name, MoveOrder(removed, o), removed, added)
  {
    hide ByModel, MoveOrder, MovesOver;
    moves := [];
    var order := MoveOrder(removed, o);
    assert order[0..] == order;
    for i := 0 to |order|
      invariant moves + MovesOver(name, order[i..], removed, added) == MovesOver(name, order, removed, added)
    {
      MovesStep(name, order, i, removed, added);
      var from := RoutesWithModel(removed, order[i]);
      var to := RoutesWithModel(added, order[i]);
      if |from| == 1 && |to| == 1 {
        var move := ApiMove(name, order[i], from[0].api, to[0].api);
        Assoc(moves, [move], MovesOver(name, order[i + 1..], removed, added));
        moves := moves + [move];
      } else {
        Assoc(moves, [], MovesOver(name, order[i + 1..], removed, added));
        assert moves + [] == moves;
      }
    }
    assert order[|order|..] == [];
    NoMovesOver(name, removed, added);
  }

  lemma NoMovesOver(name: Str, removed: seq<Route>, added: seq<Route>)
    ensures MovesOver(name, [], removed, added) == []
  {
  }

  lemma DeltasStep(name: Str, b: Provider, h: Provider, order: seq<Route>, i: nat, fields: seq<Str>, all: bool,
                   o: Orders)
    requires i < |order|
    ensures var d, rest := DeltaAt(name, b, h, order[i], fields, o),
        DeltasOver(name, b, h, order[i + 1..], fields, all, o);
      DeltasOver(name, b, h, order[i..], fields, all, o) == (if d.status != Unchanged || all then [d] + rest else rest)
  {
    assert order[i..][0] == order[i] && order[i..][1..] == order[i + 1..];
    assert [] + DeltasOver(name, b, h, order[i + 1..], fields, all, o)
        == DeltasOver(name, b, h, order[i + 1..], fields, all, o);
  }

  lemma DeltasOverNothing(name: Str, b: Provider, h: Provider, fields: seq<Str>, all: bool, o: Orders)
    ensures DeltasOver(name, b, h, [], fields, all, o) == []
    ensures ChangedOver(name, b, h, [], fields, o) == []
  {
  }

  lemma ChangedStep(name: Str, b: Provider, h: Provider, order: seq<Route>, i: nat, fields: seq<Str>, o: Orders)
    requires i < |order|
    ensures ChangedOver(name, b, h, order[i..], fields, o)
         == (if DeltaAt(name, b, h, order[i], fields, o).status == Changed then [order[i]] else [])
            + ChangedOver(name, b, h, order[i + 1..], fields, o)
  {
    hide DeltaAt, Keep;
    KeepStep(order, i, IsChanged(name, b, h, fields, o));
  }

  method CompareRoutes(name: Str, b: Provider, h: Provider, order: seq<Route>, fields: seq<Str>, all: bool, o: Orders)
    returns (models: seq<ModelDelta>, changed: seq<Route>)
    ensures models == DeltasOver(name, b, h, order, fields, all, o)
    ensures changed == ChangedOver(name, b, h, order, fields, o)
  {
    hide *;
    models, changed := [], [];
    assert order[0..] == order;
    for i := 0 to |order|
      invariant models + DeltasOver(name, b, h, order[i..], fields, all, o)
             == DeltasOver(name, b, h, order, fields, all, o)
      invariant changed + ChangedOver(name, b, h, order[i..], fields, o) == ChangedOver(name, b, h, order, fields, o)
    {
      DeltasStep(name, b, h, order, i, fields, all, o);
      ChangedStep(name, b, h, order, i, fields, o);
      var d := DeltaAt(name, b, h, order[i], fields, o);
      Assoc(models, [d], DeltasOver(name, b, h, order[i + 1..], fields, all, o));
      Assoc(changed, [order[i]], ChangedOver(name, b, h, order[i + 1..], fields, o));
      if d.status == Changed {
        changed := changed + [order[i]];
      }
      if d.status != Unchanged || all {
        models := models + [d];
      }
    }
    assert order[|order|..] == [];
    DeltasOverNothing(name, b, h, fields, all, o);
  }

  method BuildSection(base: Catalog, head: Catalog, name: Str, fields: seq<Str>, all: bool, o: Orders)
    returns (section: Section)
    ensures section == SectionOf(base, head, name, fields, all, o)
  {
    hide Sort, Dedup, MovesOver, Entries, DeltasOver, ChangedOver, ProviderOf, Keep, MoveOrder, Displays;
    var b, h := ProviderOf(base, name), ProviderOf(head, name);
    var baseEntries := ProviderEntries(b, o);
    var headEntries := ProviderEntries(h, o);
    var added := LostEntries(headEntries, b);
    var removed := LostEntries(baseEntries, h);
    var order := Sort(Dedup(baseEntries + headEntries), RouteOrder(o));
    var models, changed := CompareRoutes(name, b, h, order, fields, all, o);
    var moves := PairMoves(name, removed, added, o);
    var touched := added != [] || removed != [] || changed != [];
    section := Section(
      ProviderDelta(name, ProviderStatus(name in base.at, name in head.at, touched),
                    |baseEntries|, |headEntries|, Displays(added), Displays(removed), Displays(changed)),
      models, moves);
  }

  // ----- the report

  datatype Summary = Summary(providersAdded: nat, providersRemoved: nat, providersChanged: nat,
                             modelsAdded: nat, modelsRemoved: nat, modelsChanged: nat, apiMoves: nat,
                             baseEntries: nat, headEntries: nat, fieldChanges: nat, changedByField: map<Str, nat>)

  datatype Report = Report(comparedFields: seq<Str>, summary: Summary, providers: seq<ProviderDelta>,
                           models: seq<ModelDelta>, moves: seq<ApiMove>)

  function CountModels(ds: seq<ModelDelta>, status: Status): nat {
    if ds == [] then 0 else (if ds[0].status == status then 1 else 0) + CountModels(ds[1..], status)
  }

  function CountProviders(ps: seq<ProviderDelta>, status: Status): nat {
    if ps == [] then 0 else (if ps[0].status == status then 1 else 0) + CountProviders(ps[1..], status)
  }

  function SumChanges(ds: seq<ModelDelta>): nat {
    if ds == [] then 0 else |ds[0].changes| + SumChanges(ds[1..])
  }

  function SumBase(ps: seq<ProviderDelta>): nat {
    if ps == [] then 0 else ps[0].baseCount + SumBase(ps[1..])
  }

  function SumHead(ps: seq<ProviderDelta>): nat {
    if ps == [] then 0 else ps[0].headCount + SumHead(ps[1..])
  }

  predicate TouchesField(d: ModelDelta, field: Str) {
    exists i :: 0 <= i < |d.changes| && d.changes[i].field == field
  }

  /** How many entries have a change in the field. */
  function CountField(ds: seq<ModelDelta>, field: Str): nat {
    if ds == [] then 0 else (if TouchesField(ds[0], field) then 1 else 0) + CountField(ds[1..], field)
  }

  function ByField(ds: seq<ModelDelta>, fields: seq<Str>): map<Str, nat> {
    map f | f in fields :: CountField(ds, f)
  }

  function Summarize(ps: seq<ProviderDelta>, ds: seq<ModelDelta>, moves: seq<ApiMove>, fields: seq<Str>): Summary {
    Summary(CountProviders(ps, Added), CountProviders(ps, Removed), CountProviders(ps, Changed),
            CountModels(ds, Added), CountModels(ds, Removed), CountModels(ds, Changed), |moves|,
            SumBase(ps), SumHead(ps), SumChanges(ds), ByField(ds, fields))
  }

  /** The provider deltas that are listed: the unchanged ones only on request. */
  function Shown(ps: seq<ProviderDelta>, all: bool): seq<ProviderDelta> {
    if ps == [] then []
    else (if ps[0].status != Unchanged || all then [ps[0]] else []) + Shown(ps[1..], all)
  }

  ghost function SectionsOf(base: Catalog, head: Catalog, names: seq<Str>, fields: seq<Str>, all: bool, o: Orders)
    : (ss: seq<Section>)
    ensures |ss| == |names| && forall i :: 0 <= i < |ss| ==> ss[i] == SectionOf(base, head, names[i], fields, all, o)
  {
    seq(|names|, i requires 0 <= i < |names| => SectionOf(base, head, names[i], fields, all, o))
  }

  ghost function Providers(ss: seq<Section>): seq<ProviderDelta> {
    if ss == [] then [] else Providers(ss[..|ss| - 1]) + [ss[|ss| - 1].provider]
  }

  ghost function Models(ss: seq<Section>): seq<ModelDelta> {
    if ss == [] then [] else Models(ss[..|ss| - 1]) + ss[|ss| - 1].models
  }

  ghost function Moves(ss: seq<Section>): seq<ApiMove> {
    if ss == [] then [] else Moves(ss[..|ss| - 1]) + ss[|ss| - 1].moves
  }

  /** The providers of both catalogs, in order. */
  function Names(base: Catalog, head: Catalog, o: Orders): (q: seq<Str>)
    ensures Distinct(q) && forall name :: name in q <==> name in base.at || name in head.at
  {
    MergedAre(SortedNames(base, o), SortedNames(head, o), o.names);
    Sort(Dedup(SortedNames(base, o) + SortedNames(head, o)), o.names)
  }

  ghost function Assemble(fields: seq<Str>, ss: seq<Section>, all: bool): Report {
    Report(fields, Summarize(Providers(ss), Models(ss), Moves(ss), fields), Shown(Providers(ss), all), Models(ss),
           Moves(ss))
  }

  ghost function ReportOf(base: Catalog, head: Catalog, fields: seq<Str>, all: bool, o: Orders): Report {
    var sorted := Sort(fields, o.names);
    Assemble(sorted, SectionsOf(base, head, Names(base, head, o), sorted, all, o), all)
  }

  lemma LastSection(ss: seq<Section>)
    requires ss != []
    ensures var n := |ss| - 1;
      && Providers(ss) == Providers(ss[..n]) + [ss[n].provider]
      && Models(ss) == Models(ss[..n]) + ss[n].models && Moves(ss) == Moves(ss[..n]) + ss[n].moves
  {
  }

  lemma SectionsStep(ss: seq<Section>, i: nat)
    requires i < |ss|
    ensures Providers(ss[..i + 1]) == Providers(ss[..i]) + [ss[i].provider]
    ensures Models(ss[..i + 1]) == Models(ss[..i]) + ss[i].models && Moves(ss[..i + 1]) == Moves(ss[..i]) + ss[i].moves
  {
    hide Providers, Models, Moves;
    LastSection(ss[..i + 1]);
    assert ss[..i + 1][..i] == ss[..i];
  }

  lemma NoSections()
    ensures Providers([]) == [] && Models([]) == [] && Moves([]) == []
  {
  }

  lemma ReportIs(base: Catalog, head: Catalog, fields: seq<Str>, all: bool, o: Orders)
    ensures var sorted := Sort(fields, o.names);
      var ss := SectionsOf(base, head, Names(base, head, o), sorted, all, o);
      var ps, ds, ms := Providers(ss), Models(ss), Moves(ss);
      ReportOf(base, head, fields, all, o) == Report(sorted, Summarize(ps, ds, ms, sorted), Shown(ps, all), ds, ms)
  {
    hide SectionsOf, Providers, Models, Moves, Summarize, Shown, Names, Sort;
  }

  method BuildReport(base: Catalog, head: Catalog, fields: seq<Str>, all: bool, o: Orders) returns (r: Report)
    ensures r == ReportOf(base, head, fields, all, o)
  {
    hide *;
    var sorted := Sort(fields, o.names);
    var names := Names(base, head, o);
    var providers: seq<ProviderDelta> := [];
    var models: seq<ModelDelta> := [];
    var moves: seq<ApiMove> := [];
    ghost var ss := SectionsOf(base, head, names, sorted, all, o);
    NoSections();
    assert ss[..0] == [];
    assert |ss| == |names|;
    for i := 0 to |names|
      invariant providers == Providers(ss[..i]) && models == Models(ss[..i]) && moves == Moves(ss[..i])
    {
      var section := BuildSection(base, head, names[i], sorted, all, o);
      SectionsStep(ss, i);
      providers := providers + [section.provider];
      models := models + section.models;
      moves := moves + section.moves;
    }
    assert ss[..|names|] == ss;
    r := Report(sorted, Summarize(providers, models, moves, sorted), Shown(providers, all), models, moves);
    ReportIs(base, head, fields, all, o);
  }

  datatype FailOn = NoChange | AnyChange | ProviderChange | ModelChange | AnyField

  function ShouldFail(s: Summary, mode: FailOn): bool {
    match mode
    case NoChange => false
    case AnyChange =>
      s.providersAdded + s.providersRemoved + s.providersChanged + s.modelsAdded + s.modelsRemoved
      + s.modelsChanged + s.apiMoves + s.fieldChanges > 0
    case ProviderChange => s.providersAdded + s.providersRemoved + s.providersChanged > 0
    case ModelChange => s.modelsAdded + s.modelsRemoved + s.modelsChanged > 0
    case AnyField => s.fieldChanges > 0
  }
}
