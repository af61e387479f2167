/** What the catalog delta guarantees: conservation, reversal, unambiguous moves, and an exact verdict. */
module CatalogLaws {
  import opened Serializer
  import opened Sorting
  import opened CatalogDiff

  // ----- conservation

  lemma {:induction false} CountConcat(a: seq<ModelDelta>, b: seq<ModelDelta>, status: Status)
    ensures CountModels(a + b, status) == CountModels(a, status) + CountModels(b, status)
    ensures SumChanges(a + b) == SumChanges(a) + SumChanges(b)
  {
    if a == [] {
      assert a + b == b;
    } else {
      assert (a + b)[1..] == a[1..] + b;
      CountConcat(a[1..], b, status);
    }
  }

  lemma {:induction false} ProvidersConcat(a: seq<ProviderDelta>, b: seq<ProviderDelta>, status: Status)
    ensures CountProviders(a + b, status) == CountProviders(a, status) + CountProviders(b, status)
    ensures SumBase(a + b) == SumBase(a) + SumBase(b) && SumHead(a + b) == SumHead(a) + SumHead(b)
  {
    if a == [] {
      assert a + b == b;
    } else {
      assert (a + b)[1..] == a[1..] + b;
      ProvidersConcat(a[1..], b, status);
    }
  }

  ghost function OnlyIn(p: Provider, q: Provider): Route -> bool {
    r => Has(p, r) && !Has(q, r)
  }

  lemma DeltasUnfold(name: Str, b: Provider, h: Provider, order: seq<Route>, fields: seq<Str>, all: bool, o: Orders)
    requires order != []
    ensures var d := DeltaAt(name, b, h, order[0], fields, o);
      DeltasOver(name, b, h, order, fields, all, o)
      == (if d.status != Unchanged || all then [d] else []) + DeltasOver(name, b, h, order[1..], fields, all, o)
  {
    hide DeltaAt;
  }

  lemma KeptCount(order: seq<Route>, p: Route -> bool)
    requires order != []
    ensures |Keep(order, p)| == (if p(order[0]) then 1 else 0) + |Keep(order[1..], p)|
  {
  }

  lemma CountUnfold(name: Str, b: Provider, h: Provider, order: seq<Route>, fields: seq<Str>, all: bool, o: Orders)
    requires order != []
    ensures var d := DeltaAt(name, b, h, order[0], fields, o);
      var ds, rest := DeltasOver(name, b, h, order, fields, all, o), DeltasOver(name, b, h, order[1..], fields, all, o);
      && CountModels(ds, Added) == (if d.status == Added then 1 else 0) + CountModels(rest, Added)
      && CountModels(ds, Removed) == (if d.status == Removed then 1 else 0) + CountModels(rest, Removed)
  {
    hide *;
    var d, rest := DeltaAt(name, b, h, order[0], fields, o), DeltasOver(name, b, h, order[1..], fields, all, o);
    DeltasUnfold(name, b, h, order, fields, all, o);
    var first := if d.status != Unchanged || all then [d] else [];
    CountOne(first, d);
    CountConcat(first, rest, Added);
    CountConcat(first, rest, Removed);
  }

  lemma {:induction false} CountOver(name: Str, b: Provider, h: Provider, order: seq<Route>, fields: seq<Str>,
                                     all: bool, o: Orders)
    requires forall r :: r in order ==> Has(b, r) || Has(h, r)
    ensures var ds := DeltasOver(name, b, h, order, fields, all, o);
      && CountModels(ds, Added) == |Keep(order, OnlyIn(h, b))|
      && CountModels(ds, Removed) == |Keep(order, OnlyIn(b, h))|
  {
    if order != [] {
      hide *;
      assert order[0] in order && forall r :: r in order[1..] ==> r in order;
      CountOver(name, b, h, order[1..], fields, all, o);
      KeptCount(order, OnlyIn(h, b));
      KeptCount(order, OnlyIn(b, h));
      CountUnfold(name, b, h, order, fields, all, o);
      DeltaStatus(name, b, h, order[0], fields, o);
    }
  }

  lemma CountOne(first: seq<ModelDelta>, d: ModelDelta)
    requires first == [d] || (first == [] && d.status == Unchanged)
    ensures CountModels(first, Added) == (if d.status == Added then 1 else 0)
    ensures CountModels(first, Removed) == (if d.status == Removed then 1 else 0)
  {
    assert [d][1..] == [];
  }

  lemma DeltaStatus(name: Str, b: Provider, h: Provider, r: Route, fields: seq<Str>, o: Orders)
    requires Has(b, r) || Has(h, r)
    ensures DeltaAt(name, b, h, r, fields, o).status == Added <==> OnlyIn(h, b)(r)
    ensures DeltaAt(name, b, h, r, fields, o).status == Removed <==> OnlyIn(b, h)(r)
  {
    hide Has;
  }

  /** The routes of one side number those it alone has and those both have. */
  lemma SectionConserves(name: Str, b: Provider, h: Provider, fields: seq<Str>, all: bool, o: Orders)
    ensures var ds := DeltasOver(name, b, h, Coordinates(b, h, o), fields, all, o);
      |Entries(h, o)| + CountModels(ds, Removed) == |Entries(b, o)| + CountModels(ds, Added)
  {
    var order := Coordinates(b, h, o);
    CoordinatesAre(b, h, o);
    CountOver(name, b, h, order, fields, all, o);
    OnlyCount(order, h, b);
    OnlyCount(order, b, h);
    EntriesSize(b, o);
    EntriesSize(h, o);
    hide *;
    Overlap(Routes(b), Routes(h));
    Overlap(Routes(h), Routes(b));
    assert Routes(b) * Routes(h) == Routes(h) * Routes(b);
  }

  lemma EntriesSize(p: Provider, o: Orders)
    ensures |Entries(p, o)| == |Routes(p)|
  {
    EntriesAre(p, o);
    hide *;
    DistinctSizes(Entries(p, o), Routes(p));
  }

  lemma DistinctSizes(q: seq<Route>, s: set<Route>)
    requires Distinct(q) && forall r :: r in q <==> r in s
    ensures |q| == |s|
  {
    DistinctSize(q, s);
  }

  lemma OnlyCount(order: seq<Route>, p: Provider, q: Provider)
    requires Distinct(order) && forall r :: r in order <==> Has(p, r) || Has(q, r)
    ensures |Keep(order, OnlyIn(p, q))| == |Routes(p) - Routes(q)|
  {
    KeepHas(order, OnlyIn(p, q));
    DistinctSizes(Keep(order, OnlyIn(p, q)), Routes(p) - Routes(q));
  }

  lemma Overlap(x: set<Route>, y: set<Route>)
    ensures |x| == |x - y| + |x * y|
  {
    assert x == (x - y) + x * y;
  }

  lemma {:induction false} SectionsConserve(ss: seq<Section>)
    requires forall i :: 0 <= i < |ss| ==>
      ss[i].provider.headCount + CountModels(ss[i].models, Removed)
          == ss[i].provider.baseCount + CountModels(ss[i].models, Added)
    ensures SumHead(Providers(ss)) + CountModels(Models(ss), Removed)
        == SumBase(Providers(ss)) + CountModels(Models(ss), Added)
  {
    if ss != [] {
      var n := |ss| - 1;
      SectionsConserve(ss[..n]);
      CountConcat(Models(ss[..n]), ss[n].models, Added);
      CountConcat(Models(ss[..n]), ss[n].models, Removed);
      ProvidersConcat(Providers(ss[..n]), [ss[n].provider], Added);
    }
  }

  /** Entries are conserved: what the head has beyond the base is what was added less what was removed. */
  lemma EntriesConserved(base: Catalog, head: Catalog, fields: seq<Str>, all: bool, o: Orders)
    ensures var s := ReportOf(base, head, fields, all, o).summary;
      s.headEntries - s.baseEntries == s.modelsAdded - s.modelsRemoved
  {
    hide DeltasOver, Entries, Coordinates, MovesOver, MoveOrder, Names, CountModels, SumHead, SumBase, Sort;
    var sorted := Sort(fields, o.names);
    var names := Names(base, head, o);
    var ss := SectionsOf(base, head, names, sorted, all, o);
    forall i | 0 <= i < |ss|
      ensures ss[i].provider.headCount + CountModels(ss[i].models, Removed)
          == ss[i].provider.baseCount + CountModels(ss[i].models, Added)
    {
      SectionConserves(names[i], ProviderOf(base, names[i]), ProviderOf(head, names[i]), sorted, all, o);
    }
    SectionsConserve(ss);
  }

  // ----- per-field counts

  /** Each field of the list that has a change in the entry counts one. */
  function Touched(d: ModelDelta, fields: seq<Str>): nat {
    if fields == [] then 0 else (if TouchesField(d, fields[0]) then 1 else 0) + Touched(d, fields[1..])
  }

  function SumByField(ds: seq<ModelDelta>, fields: seq<Str>): nat {
    if fields == [] then 0 else CountField(ds, fields[0]) + SumByField(ds, fields[1..])
  }

  lemma {:induction false} TouchedNone(d: ModelDelta, fields: seq<Str>)
    requires d.changes == []
    ensures Touched(d, fields) == 0
  {
    if fields != [] {
      TouchedNone(d, fields[1..]);
    }
  }

  lemma {:induction false} SumByFieldStep(ds: seq<ModelDelta>, fields: seq<Str>)
    requires ds != []
    ensures SumByField(ds, fields) == Touched(ds[0], fields) + SumByField(ds[1..], fields)
  {
    hide TouchesField;
    if fields != [] {
      SumByFieldStep(ds, fields[1..]);
    }
  }

  lemma {:induction false} SumByFieldNone(fields: seq<Str>)
    ensures SumByField([], fields) == 0
  {
    if fields != [] {
      SumByFieldNone(fields[1..]);
    }
  }

  lemma {:induction false} ChangesInFields(b: Model, h: Model, fields: seq<Str>, o: Orders)
    ensures forall c :: c in Changes(b, h, fields, o) ==> c.field in fields
  {
    hide Stable;
    if fields != [] {
      assert fields == [fields[0]] + fields[1..];
      ChangesInFields(b, h, fields[1..], o);
    }
  }

  /** Fields that are not those of the first change are touched by the others or not at all. */
  lemma {:induction false} TouchedRest(d: ModelDelta, c: FieldChange, fields: seq<Str>)
    requires c.field !in fields
    ensures Touched(d.(changes := [c] + d.changes), fields) == Touched(d, fields)
  {
    if fields != [] {
      var e := d.(changes := [c] + d.changes);
      assert fields == [fields[0]] + fields[1..];
      assert TouchesField(e, fields[0]) <==> TouchesField(d, fields[0]) by {
        assert forall i :: 0 <= i < |d.changes| ==> e.changes[i + 1] == d.changes[i];
      }
      TouchedRest(d, c, fields[1..]);
    }
  }

  /** An entry has at most one change in each compared field. */
  lemma {:induction false} ChangesTouch(d: ModelDelta, b: Model, h: Model, fields: seq<Str>, o: Orders)
    requires Distinct(fields) && d.changes == Changes(b, h, fields, o)
    ensures |d.changes| == Touched(d, fields)
    decreases fields
  {
    hide Stable;
    if fields != [] {
      var f, rest := fields[0], fields[1..];
      var e := d.(changes := Changes(b, h, rest, o));
      assert fields == [f] + rest;
      DistinctCons(f, rest);
      hide Distinct;
      ChangesTouch(e, b, h, rest, o);
      ChangesInFields(b, h, rest, o);
      match CompareField(b, h, f, o)
      case None =>
        NotTouched(d, f, rest);
      case Some(c) =>
        TouchedRest(e, c, rest);
        assert d == e.(changes := [c] + e.changes);
        assert d.changes[0].field == f && TouchesField(d, f);
    }
  }

  lemma NotTouched(d: ModelDelta, f: Str, rest: seq<Str>)
    requires f !in rest && forall c :: c in d.changes ==> c.field in rest
    ensures !TouchesField(d, f)
  {
  }

  lemma DeltaTouches(name: Str, b: Provider, h: Provider, r: Route, fields: seq<Str>, o: Orders)
    requires Distinct(fields)
    ensures var d := DeltaAt(name, b, h, r, fields, o); |d.changes| == Touched(d, fields)
  {
    var d := DeltaAt(name, b, h, r, fields, o);
    if Has(b, r) && Has(h, r) {
      ChangesTouch(d, ModelAt(b, r), ModelAt(h, r), fields, o);
    } else {
      TouchedNone(d, fields);
    }
  }

  ghost predicate AllTouch(ds: seq<ModelDelta>, fields: seq<Str>) {
    forall d :: d in ds ==> |d.changes| == Touched(d, fields)
  }

  lemma {:induction false} ChangesSum(ds: seq<ModelDelta>, fields: seq<Str>)
    requires AllTouch(ds, fields)
    ensures SumChanges(ds) == SumByField(ds, fields)
  {
    if ds == [] {
      SumByFieldNone(fields);
    } else {
      assert ds == [ds[0]] + ds[1..];
      ChangesSum(ds[1..], fields);
      SumByFieldStep(ds, fields);
    }
  }

  lemma {:induction false} ModelsTouch(ss: seq<Section>, fields: seq<Str>)
    requires forall i :: 0 <= i < |ss| ==> AllTouch(ss[i].models, fields)
    ensures AllTouch(Models(ss), fields)
  {
    if ss != [] {
      ModelsTouch(ss[..|ss| - 1], fields);
    }
  }

  ghost function SumCounts(counts: map<Str, nat>, fields: seq<Str>): nat
    requires forall f :: f in fields ==> f in counts
  {
    if fields == [] then 0 else counts[fields[0]] + SumCounts(counts, fields[1..])
  }

  lemma {:induction false} CountsAreSums(ds: seq<ModelDelta>, counts: map<Str, nat>, fields: seq<Str>)
    requires forall f :: f in fields ==> f in counts && counts[f] == CountField(ds, f)
    ensures SumCounts(counts, fields) == SumByField(ds, fields)
  {
    if fields != [] {
      CountsAreSums(ds, counts, fields[1..]);
    }
  }

  /** Field changes are conserved: the entries counted under each compared field add up to all changes. */
  lemma FieldChangesConserved(base: Catalog, head: Catalog, fields: seq<Str>, all: bool, o: Orders)
    requires Distinct(fields)
    ensures var r := ReportOf(base, head, fields, all, o);
      && (forall f :: f in r.summary.changedByField <==> f in fields)
      && (forall f :: f in r.comparedFields ==> f in r.summary.changedByField)
      && r.summary.fieldChanges == SumCounts(r.summary.changedByField, r.comparedFields)
  {
    var sorted := Sort(fields, o.names);
    var names := Names(base, head, o);
    var ss := SectionsOf(base, head, names, sorted, all, o);
    SortedFieldsSame(fields, o);
    SortDistinct(fields, o.names);
    hide Sort, Names, Distinct, CountField, SumChanges, Providers, Models, Moves, AllTouch, DeltasOver;
    forall i | 0 <= i < |ss|
      ensures AllTouch(ss[i].models, sorted)
    {
      SectionTouches(base, head, names[i], sorted, all, o);
    }
    ModelsTouch(ss, sorted);
    ChangesSum(Models(ss), sorted);
    CountsAreSums(Models(ss), ByField(Models(ss), sorted), sorted);
  }

  lemma SectionTouches(base: Catalog, head: Catalog, name: Str, fields: seq<Str>, all: bool, o: Orders)
    requires Distinct(fields)
    ensures AllTouch(SectionOf(base, head, name, fields, all, o).models, fields)
  {
    var b, h := ProviderOf(base, name), ProviderOf(head, name);
    var order := Coordinates(b, h, o);
    DeltasHave(name, b, h, order, fields, all, o);
    hide ProviderOf, DeltasOver, DeltaAt, Coordinates, Distinct, Touched, MovesOver, Lost;
    forall d | d in DeltasOver(name, b, h, order, fields, all, o)
      ensures |d.changes| == Touched(d, fields)
    {
      DeltaTouches(name, b, h, d.route, fields, o);
    }
  }

  // ----- reversal

  function ReverseStatus(s: Status): Status {
    match s
    case Added => Removed
    case Removed => Added
    case _ => s
  }

  function ReverseChanges(cs: seq<FieldChange>): seq<FieldChange> {
    if cs == [] then [] else [FieldChange(cs[0].field, cs[0].after, cs[0].before)] + ReverseChanges(cs[1..])
  }

  function ReverseModel(d: ModelDelta): ModelDelta {
    ModelDelta(d.provider, d.route, ReverseStatus(d.status), ReverseChanges(d.changes))
  }

  function ReverseModels(ds: seq<ModelDelta>): seq<ModelDelta> {
    if ds == [] then [] else [ReverseModel(ds[0])] + ReverseModels(ds[1..])
  }

  function ReverseMove(m: ApiMove): ApiMove {
    ApiMove(m.provider, m.model, m.toApi, m.fromApi)
  }

  function ReverseMoves(ms: seq<ApiMove>): seq<ApiMove> {
    if ms == [] then [] else [ReverseMove(ms[0])] + ReverseMoves(ms[1..])
  }

  function ReverseProvider(p: ProviderDelta): ProviderDelta {
    ProviderDelta(p.provider, ReverseStatus(p.status), p.headCount, p.baseCount, p.removed, p.added, p.changed)
  }

  function ReverseProviders(ps: seq<ProviderDelta>): seq<ProviderDelta> {
    if ps == [] then [] else [ReverseProvider(ps[0])] + ReverseProviders(ps[1..])
  }

  function ReverseSummary(s: Summary): Summary {
    s.(providersAdded := s.providersRemoved, providersRemoved := s.providersAdded, modelsAdded := s.modelsRemoved,
       modelsRemoved := s.modelsAdded, baseEntries := s.headEntries, headEntries := s.baseEntries)
  }

  function ReverseReport(r: Report): Report {
    Report(r.comparedFields, ReverseSummary(r.summary), ReverseProviders(r.providers), ReverseModels(r.models),
           ReverseMoves(r.moves))
  }

  lemma {:induction false} ChangesReversed(before: Model, after: Model, fields: seq<Str>, o: Orders)
    ensures Changes(after, before, fields, o) == ReverseChanges(Changes(before, after, fields, o))
  {
    hide Stable;
    if fields != [] {
      ChangesReversed(before, after, fields[1..], o);
      var rest := Changes(before, after, fields[1..], o);
      match CompareField(before, after, fields[0], o)
      case None =>
      case Some(c) =>
        assert ([c] + rest)[1..] == rest;
    }
  }

  lemma DeltaReversed(name: Str, b: Provider, h: Provider, r: Route, fields: seq<Str>, o: Orders)
    requires Has(b, r) || Has(h, r)
    ensures DeltaAt(name, h, b, r, fields, o) == ReverseModel(DeltaAt(name, b, h, r, fields, o))
  {
    if Has(b, r) && Has(h, r) {
      ChangesReversed(ModelAt(b, r), ModelAt(h, r), fields, o);
    }
  }

  lemma {:induction false} ReverseConcat(a: seq<ModelDelta>, b: seq<ModelDelta>)
    ensures ReverseModels(a + b) == ReverseModels(a) + ReverseModels(b)
  {
    if a == [] {
      assert a + b == b;
    } else {
      assert (a + b)[1..] == a[1..] + b;
      ReverseConcat(a[1..], b);
    }
  }

  lemma {:induction false} DeltasReversed(name: Str, b: Provider, h: Provider, order: seq<Route>, fields: seq<Str>,
                                          all: bool, o: Orders)
    requires forall r :: r in order ==> Has(b, r) || Has(h, r)
    ensures DeltasOver(name, h, b, order, fields, all, o)
        == ReverseModels(DeltasOver(name, b, h, order, fields, all, o))
  {
    hide Has, DeltaAt;
    if order != [] {
      assert order[0] in order && forall r :: r in order[1..] ==> r in order;
      DeltaReversed(name, b, h, order[0], fields, o);
      DeltasReversed(name, b, h, order[1..], fields, all, o);
      var d, rest := DeltaAt(name, b, h, order[0], fields, o), DeltasOver(name, b, h, order[1..], fields, all, o);
      assert [d][1..] == [];
      ReverseConcat(if d.status != Unchanged || all then [d] else [], rest);
    }
  }

  lemma ChangedReversed(name: Str, b: Provider, h: Provider, order: seq<Route>, fields: seq<Str>, o: Orders)
    requires forall r :: r in order ==> Has(b, r) || Has(h, r)
    ensures ChangedOver(name, h, b, order, fields, o) == ChangedOver(name, b, h, order, fields, o)
  {
    hide Has, ChangedAt, Keep;
    forall r | r in order
      ensures ChangedAt(name, h, b, r, fields, o) == ChangedAt(name, b, h, r, fields, o)
    {
      SameVerdict(name, b, h, r, fields, o);
    }
    KeepSame(order, IsChanged(name, h, b, fields, o), IsChanged(name, b, h, fields, o));
  }

  lemma SameVerdict(name: Str, b: Provider, h: Provider, r: Route, fields: seq<Str>, o: Orders)
    requires Has(b, r) || Has(h, r)
    ensures ChangedAt(name, h, b, r, fields, o) == ChangedAt(name, b, h, r, fields, o)
  {
    hide Has, DeltaAt, ReverseChanges;
    DeltaReversed(name, b, h, r, fields, o);
  }

  // ----- moves

  ghost function CanMove(removed: seq<Route>, added: seq<Route>): Str -> bool {
    model => Movable(removed, added, model)
  }

  ghost predicate AllMovable(models: seq<Str>, removed: seq<Route>, added: seq<Route>) {
    forall m :: m in models ==> Movable(removed, added, m)
  }

  lemma {:induction false} MovesAreKept(name: Str, order: seq<Str>, removed: seq<Route>, added: seq<Route>)
    ensures var models := Keep(order, CanMove(removed, added));
      && AllMovable(models, removed, added)
      && MovesOver(name, order, removed, added) == MovesOver(name, models, removed, added)
  {
    hide ByModel;
    if order != [] {
      var m, rest := order[0], Keep(order[1..], CanMove(removed, added));
      MovesAreKept(name, order[1..], removed, added);
      if Movable(removed, added, m) {
        assert ([m] + rest)[1..] == rest;
      } else {
        assert [] + rest == rest;
        assert [] + MovesOver(name, order[1..], removed, added) == MovesOver(name, order[1..], removed, added);
      }
    }
  }

  lemma {:induction false} MovesAlong(name: Str, models: seq<Str>, removed: seq<Route>, added: seq<Route>)
    requires AllMovable(models, removed, added)
    ensures var ms := MovesOver(name, models, removed, added);
      |ms| == |models| && forall i :: 0 <= i < |ms| ==> ms[i] == MoveOf(name, removed, added, models[i])
    ensures MovesOver(name, models, added, removed) == ReverseMoves(MovesOver(name, models, removed, added))
  {
    hide ByModel;
    if models != [] {
      assert models[0] in models && forall m :: m in models[1..] ==> m in models;
      MovesAlong(name, models[1..], removed, added);
      var first, rest := MoveOf(name, removed, added, models[0]), MovesOver(name, models[1..], removed, added);
      assert ([first] + rest)[1..] == rest;
    }
  }

  /** The models that can be paired, in order. */
  ghost function MovedModels(removed: seq<Route>, added: seq<Route>, o: Orders): seq<Str> {
    Keep(MoveOrder(removed, o), CanMove(removed, added))
  }

  ghost predicate Antisymmetric<T(!new)>(le: (T, T) -> bool) {
    forall a, b :: le(a, b) && le(b, a) ==> a == b
  }

  /** Which side was removed does not matter. */
  lemma MovableBothWays(removed: seq<Route>, added: seq<Route>, o: Orders)
    requires Preorder(o.units) && Antisymmetric(o.units)
    ensures MovedModels(removed, added, o) == MovedModels(added, removed, o)
  {
    var x, y := MovedModels(removed, added, o), MovedModels(added, removed, o);
    ModelsMoved(removed, added, o);
    ModelsMoved(added, removed, o);
    MovedSorted(removed, added, o);
    MovedSorted(added, removed, o);
    assert forall m :: Movable(removed, added, m) <==> Movable(added, removed, m);
    assert NoTies(x, o.units);
    hide *;
    SortedSame(x, y, o.units);
  }

  lemma MovedSorted(removed: seq<Route>, added: seq<Route>, o: Orders)
    requires Preorder(o.units)
    ensures Sorted(MovedModels(removed, added, o), o.units)
  {
    SortSorts(Dedup(ModelsOf(removed)), o.units);
    KeepSorted(MoveOrder(removed, o), CanMove(removed, added), o.units);
  }

  lemma OneOfModel(q: seq<Route>, model: Str)
    requires ByModel(q, model) != []
    ensures Mentions(q, model) && ByModel(q, model)[0] in q && ByModel(q, model)[0].model == model
  {
    KeepHas(q, (r: Route) => r.model == model);
    assert ByModel(q, model)[0] in ByModel(q, model);
  }

  lemma MovesReversed(name: Str, removed: seq<Route>, added: seq<Route>, o: Orders)
    requires Preorder(o.units) && Antisymmetric(o.units)
    ensures MovesOver(name, MoveOrder(added, o), added, removed)
         == ReverseMoves(MovesOver(name, MoveOrder(removed, o), removed, added))
  {
    hide MoveOrder, MovesOver, ReverseMoves, Keep, ByModel;
    MovesAreKept(name, MoveOrder(removed, o), removed, added);
    MovesAreKept(name, MoveOrder(added, o), added, removed);
    MovableBothWays(removed, added, o);
    MovesAlong(name, MovedModels(removed, added, o), removed, added);
  }

  // ----- the whole report reversed

  function ReverseSection(s: Section): Section {
    Section(ReverseProvider(s.provider), ReverseModels(s.models), ReverseMoves(s.moves))
  }

  /** No two providers and no two routes of one provider tie, on either side or across. */
  ghost predicate Untied(base: Catalog, head: Catalog, o: Orders) {
    && Preorder(o.names) && Preorder(o.texts) && Preorder(o.units) && Antisymmetric(o.units)
    && NoTies(base.keys + head.keys, o.names)
    && forall name :: UntiedRoutes(ProviderOf(base, name), ProviderOf(head, name), o)
  }

  ghost predicate UntiedRoutes(b: Provider, h: Provider, o: Orders) {
    NoTies(Entries(b, o) + Entries(h, o), RouteOrder(o))
  }

  lemma RoutesCompare(o: Orders)
    requires Preorder(o.texts)
    ensures Preorder(RouteOrder(o))
  {
    hide Coordinate;
    forall r, t
      ensures RouteOrder(o)(r, t) || RouteOrder(o)(t, r)
    {
      assert o.texts(Coordinate(r), Coordinate(t)) || o.texts(Coordinate(t), Coordinate(r));
    }
    forall r, t, u | RouteOrder(o)(r, t) && RouteOrder(o)(t, u)
      ensures RouteOrder(o)(r, u)
    {
      assert o.texts(Coordinate(r), Coordinate(t)) && o.texts(Coordinate(t), Coordinate(u));
    }
  }

  /** Without ties, merging two lists and sorting does not depend on which comes first. */
  lemma MergedSame<T(!new)>(x: seq<T>, y: seq<T>, le: (T, T) -> bool)
    requires Preorder(le) && NoTies(x + y, le)
    ensures Sort(Dedup(x + y), le) == Sort(Dedup(y + x), le)
  {
    DedupIs(x + y);
    DedupIs(y + x);
    assert NoTies(Dedup(x + y), le);
    hide Dedup, Sort, Preorder, NoTies, Distinct;
    assert forall e :: e in x + y <==> e in y + x;
    SortSame(Dedup(x + y), Dedup(y + x), le);
  }

  lemma CoordinatesSame(b: Provider, h: Provider, o: Orders)
    requires Preorder(o.texts) && UntiedRoutes(b, h, o)
    ensures Coordinates(b, h, o) == Coordinates(h, b, o)
  {
    RoutesCompare(o);
    hide Entries, Preorder, NoTies, Sort, Dedup, RouteOrder;
    MergedSame(Entries(b, o), Entries(h, o), RouteOrder(o));
  }

  lemma NamesSame(base: Catalog, head: Catalog, o: Orders)
    requires Preorder(o.names) && NoTies(base.keys + head.keys, o.names)
    ensures Names(base, head, o) == Names(head, base, o)
  {
    var x, y := SortedNames(base, o), SortedNames(head, o);
    assert NoTies(x + y, o.names) by {
      KeysListed(base);
      KeysListed(head);
      hide SortedNames, Preorder, Sort;
      assert forall k :: k in x + y ==> k in base.keys + head.keys;
    }
    hide SortedNames, Preorder, NoTies, Sort, Dedup;
    MergedSame(x, y, o.names);
  }

  lemma SectionReversed(base: Catalog, head: Catalog, name: Str, fields: seq<Str>, all: bool, o: Orders)
    requires Untied(base, head, o) && (name in base.at || name in head.at)
    ensures SectionOf(head, base, name, fields, all, o) == ReverseSection(SectionOf(base, head, name, fields, all, o))
  {
    var b, h := ProviderOf(base, name), ProviderOf(head, name);
    assert UntiedRoutes(b, h, o);
    var order := Coordinates(b, h, o);
    hide Preorder, UntiedRoutes, NoTies, DeltasOver, ChangedOver, MovesOver, MoveOrder, Entries, ReverseModels,
         ReverseMoves, Lost, ProviderOf, Displays;
    CoordinatesSame(b, h, o);
    CoordinatesAre(b, h, o);
    hide Coordinates;
    DeltasReversed(name, b, h, order, fields, all, o);
    ChangedReversed(name, b, h, order, fields, o);
    MovesReversed(name, Lost(b, h, o), Lost(h, b, o), o);
  }

  lemma {:induction false} SectionsReversed(ss: seq<Section>, ts: seq<Section>)
    requires |ss| == |ts| && forall i :: 0 <= i < |ss| ==> ts[i] == ReverseSection(ss[i])
    ensures Providers(ts) == ReverseProviders(Providers(ss))
    ensures Models(ts) == ReverseModels(Models(ss)) && Moves(ts) == ReverseMoves(Moves(ss))
  {
    if ss != [] {
      var n := |ss| - 1;
      SectionsReversed(ss[..n], ts[..n]);
      hide Providers, Models, Moves;
      LastSection(ss);
      LastSection(ts);
      ReverseConcat(Models(ss[..n]), ss[n].models);
      ReverseMovesConcat(Moves(ss[..n]), ss[n].moves);
      ReverseProvidersConcat(Providers(ss[..n]), [ss[n].provider]);
      assert ReverseProviders([ss[n].provider]) == [ReverseProvider(ss[n].provider)];
    }
  }

  lemma {:induction false} ReverseMovesConcat(a: seq<ApiMove>, b: seq<ApiMove>)
    ensures ReverseMoves(a + b) == ReverseMoves(a) + ReverseMoves(b)
  {
    if a == [] {
      assert a + b == b;
    } else {
      assert (a + b)[1..] == a[1..] + b;
      ReverseMovesConcat(a[1..], b);
    }
  }

  lemma {:induction false} ReverseProvidersConcat(a: seq<ProviderDelta>, b: seq<ProviderDelta>)
    ensures ReverseProviders(a + b) == ReverseProviders(a) + ReverseProviders(b)
  {
    if a == [] {
      assert a + b == b;
    } else {
      assert (a + b)[1..] == a[1..] + b;
      ReverseProvidersConcat(a[1..], b);
    }
  }

  lemma {:induction false} ProviderCountsReversed(ps: seq<ProviderDelta>, all: bool)
    ensures var qs := ReverseProviders(ps);
      && CountProviders(qs, Added) == CountProviders(ps, Removed)
      && CountProviders(qs, Removed) == CountProviders(ps, Added)
      && CountProviders(qs, Changed) == CountProviders(ps, Changed)
      && SumBase(qs) == SumHead(ps) && SumHead(qs) == SumBase(ps)
      && Shown(qs, all) == ReverseProviders(Shown(ps, all))
  {
    if ps != [] {
      ProviderCountsReversed(ps[1..], all);
      var first := [ReverseProvider(ps[0])];
      assert (first + ReverseProviders(ps[1..]))[1..] == ReverseProviders(ps[1..]);
      if ps[0].status != Unchanged || all {
        assert ([ps[0]] + Shown(ps[1..], all))[1..] == Shown(ps[1..], all);
      } else {
        assert [] + Shown(ps[1..], all) == Shown(ps[1..], all);
        assert [] + Shown(ReverseProviders(ps[1..]), all) == Shown(ReverseProviders(ps[1..]), all);
      }
    }
  }

  lemma {:induction false} ModelCountsReversed(ds: seq<ModelDelta>)
    ensures var es := ReverseModels(ds);
      && CountModels(es, Added) == CountModels(ds, Removed) && CountModels(es, Removed) == CountModels(ds, Added)
      && CountModels(es, Changed) == CountModels(ds, Changed) && SumChanges(es) == SumChanges(ds)
  {
    if ds != [] {
      ModelCountsReversed(ds[1..]);
      assert ([ReverseModel(ds[0])] + ReverseModels(ds[1..]))[1..] == ReverseModels(ds[1..]);
      ChangesKept(ds[0].changes);
    }
  }

  lemma {:induction false} ChangesKept(cs: seq<FieldChange>)
    ensures |ReverseChanges(cs)| == |cs|
  {
    if cs != [] {
      ChangesKept(cs[1..]);
    }
  }

  lemma {:induction false} MovesKept(ms: seq<ApiMove>)
    ensures |ReverseMoves(ms)| == |ms|
  {
    if ms != [] {
      MovesKept(ms[1..]);
    }
  }

  lemma {:induction false} ChangesFieldsReversed(cs: seq<FieldChange>)
    ensures |ReverseChanges(cs)| == |cs|
    ensures forall i :: 0 <= i < |cs| ==> ReverseChanges(cs)[i].field == cs[i].field
  {
    if cs != [] {
      ChangesFieldsReversed(cs[1..]);
    }
  }

  lemma {:induction false} CountFieldReversed(ds: seq<ModelDelta>, f: Str)
    ensures CountField(ReverseModels(ds), f) == CountField(ds, f)
  {
    if ds != [] {
      CountFieldReversed(ds[1..], f);
      assert ([ReverseModel(ds[0])] + ReverseModels(ds[1..]))[1..] == ReverseModels(ds[1..]);
      ChangesFieldsReversed(ds[0].changes);
      assert TouchesField(ReverseModel(ds[0]), f) <==> TouchesField(ds[0], f);
    }
  }

  lemma ByFieldReversed(ds: seq<ModelDelta>, fields: seq<Str>)
    ensures ByField(ReverseModels(ds), fields) == ByField(ds, fields)
  {
    forall f | f in fields
      ensures CountField(ReverseModels(ds), f) == CountField(ds, f)
    {
      CountFieldReversed(ds, f);
    }
    hide CountField;
  }

  // ----- comparing the other way round

  ghost predicate Reverses(base: Catalog, head: Catalog, fields: seq<Str>, all: bool, o: Orders) {
    ReportOf(head, base, fields, all, o) == ReverseReport(ReportOf(base, head, fields, all, o))
  }

  /** Comparing the other way round gives the same report with every entry reversed, unless names or routes tie. */
  lemma ReportReversed(base: Catalog, head: Catalog, fields: seq<Str>, all: bool, o: Orders)
    requires Untied(base, head, o)
    ensures Reverses(base, head, fields, all, o)
  {
    hide SectionOf, ReverseSection, Sort, Providers, Models, Moves, CountModels, CountProviders, Shown, ByField,
         SumBase, SumHead, SumChanges, ReverseProviders, ReverseModels, ReverseMoves, Untied, Names;
    var sorted := Sort(fields, o.names);
    var names := Names(base, head, o);
    assert names == Names(head, base, o) by {
      UntiedNames(base, head, o);
      NamesSame(base, head, o);
    }
    var ss, ts := SectionsOf(base, head, names, sorted, all, o), SectionsOf(head, base, names, sorted, all, o);
    forall i | 0 <= i < |ss|
      ensures ts[i] == ReverseSection(ss[i])
    {
      assert names[i] in names;
      SectionReversed(base, head, names[i], sorted, all, o);
    }
    SectionsReversed(ss, ts);
    ProviderCountsReversed(Providers(ss), all);
    ModelCountsReversed(Models(ss));
    ByFieldReversed(Models(ss), sorted);
    MovesKept(Moves(ss));
  }

  lemma UntiedNames(base: Catalog, head: Catalog, o: Orders)
    requires Untied(base, head, o)
    ensures Preorder(o.names) && NoTies(base.keys + head.keys, o.names)
  {
  }

  // ----- ties show in the order of a report

  /** An object with one key. */
  function Single<V>(key: Str, value: V): Record<V> {
    Obj([key], map[key := value])
  }

  lemma SingleSorted<V>(key: Str, value: V, o: Orders)
    ensures SortedNames(Single(key, value), o) == [key]
  {
    var keys: seq<Str> := [key];
    assert Single(key, value).keys == keys && keys[1..] == [];
    assert Sort(keys[1..], o.names) == [];
    assert [key] + [] == keys;
  }

  lemma {:induction false} SortTwo<T(!new)>(a: T, b: T, le: (T, T) -> bool)
    requires a != b && le(a, b)
    ensures Sort(Dedup([a] + [b]), le) == [a, b]
  {
    assert [a] + [b] == [a, b] && [a, b][..1] == [a] && [a][..0] == [];
    assert Dedup([a]) == [a];
    assert Dedup([a, b]) == [a, b];
    assert [a, b][1..] == [b] && [b][1..] == [];
    assert Sort([b], le) == [b];
  }

  lemma FirstProvider(base: Catalog, head: Catalog, o: Orders, a: Str)
    requires Names(base, head, o) != [] && Names(base, head, o)[0] == a && !(a in base.at && a in head.at)
    ensures var ps := ReportOf(base, head, [], false, o).providers; ps != [] && ps[0].provider == a
    ensures var ps := ReverseReport(ReportOf(base, head, [], false, o)).providers; ps != [] && ps[0].provider == a
  {
    hide DeltasOver, MovesOver, Coordinates, Lost, Entries, ChangedOver, Displays, MoveOrder, Models, Moves, Summarize,
         Names;
    var sorted := Sort([], o.names);
    var ss := SectionsOf(base, head, Names(base, head, o), sorted, false, o);
    SectionsProviders(ss);
    hide Providers;
    assert ss[0].provider.provider == a && ss[0].provider.status != Unchanged;
    hide SectionOf;
    assert Providers(ss)[0] == ss[0].provider;
  }

  /** Two providers whose names tie, one in each catalog, are listed in the order the catalogs are given. */
  lemma NameTieShows(a: Str, b: Str, o: Orders) returns (base: Catalog, head: Catalog)
    requires a != b && o.names(a, b) && o.names(b, a)
    ensures !Reverses(base, head, [], false, o)
  {
    base, head := Single(a, Obj([], map[])), Single(b, Obj([], map[]));
    SingleSorted<Provider>(a, Obj([], map[]), o);
    SingleSorted<Provider>(b, Obj([], map[]), o);
    SortTwo(a, b, o.names);
    SortTwo(b, a, o.names);
    assert Names(base, head, o) == [a, b] && Names(head, base, o) == [b, a];
    FirstProvider(base, head, o, a);
    FirstProvider(head, base, o, b);
    hide *;
    DifferentFirst(base, head, o, a, b);
  }

  lemma DifferentFirst(base: Catalog, head: Catalog, o: Orders, a: Str, b: Str)
    requires a != b
    requires var ps := ReverseReport(ReportOf(base, head, [], false, o)).providers; ps != [] && ps[0].provider == a
    requires var ps := ReportOf(head, base, [], false, o).providers; ps != [] && ps[0].provider == b
    ensures !Reverses(base, head, [], false, o)
  {
    hide ReportOf, ReverseReport;
  }

  /** A provider with one route. */
  function OneRoute(r: Route): Provider {
    Single(r.api, Single(r.model, map[]))
  }

  lemma OneRouteEntries(r: Route, o: Orders)
    ensures Entries(OneRoute(r), o) == [r] && forall t :: Has(OneRoute(r), t) <==> t == r
  {
    var p := OneRoute(r);
    SingleSorted(r.api, Single<Model>(r.model, map[]), o);
    SingleSorted<Model>(r.model, map[], o);
    hide SortedNames;
    assert p.at[r.api] == Single<Model>(r.model, map[]);
    assert RoutesOfApi(r.api, [r.model]) == [r];
    assert EntriesOver(p, [r.api][1..], o) == [];
    assert EntriesOver(p, [r.api], o) == [r] + [];
  }

  lemma OneName(name: Str, b: Provider, h: Provider, o: Orders)
    ensures Names(Single(name, b), Single(name, h), o) == [name]
  {
    SingleSorted(name, b, o);
    SingleSorted(name, h, o);
    assert [name] + [name] == [name, name] && [name, name][..1] == [name] && [name][..0] == [];
    assert Dedup([name]) == [name] && Dedup([name, name]) == [name];
    assert [name][1..] == [];
  }

  lemma OneSection(name: Str, b: Provider, h: Provider, o: Orders)
    ensures ReportOf(Single(name, b), Single(name, h), [], false, o).models
         == DeltasOver(name, b, h, Coordinates(b, h, o), [], false, o)
  {
    var base, head := Single(name, b), Single(name, h);
    OneName(name, b, h, o);
    assert Sort<Str>([], o.names) == [];
    hide DeltasOver, MovesOver, Coordinates, Lost, Entries, ChangedOver, Displays, MoveOrder, Summarize, Names, Sort;
    var ss := SectionsOf(base, head, [name], [], false, o);
    LastSection(ss);
    assert ss[..0] == [] && Models([]) == [];
    assert Models(ss) == [] + ss[0].models == ss[0].models;
    hide Models, Shown, Providers, Moves;
    assert ProviderOf(base, name) == b && ProviderOf(head, name) == h;
  }

  lemma FirstModel(b: Provider, h: Provider, o: Orders, r: Route)
    requires Coordinates(b, h, o) != [] && Coordinates(b, h, o)[0] == r && !(Has(b, r) && Has(h, r))
    ensures var ds := ReportOf(Single([], b), Single([], h), [], false, o).models; ds != [] && ds[0].route == r
    ensures var ds := ReverseReport(ReportOf(Single([], b), Single([], h), [], false, o)).models;
      ds != [] && ds[0].route == r
  {
    var order := Coordinates(b, h, o);
    OneSection([], b, h, o);
    DeltasUnfold([], b, h, order, [], false, o);
    DeltaRoute([], b, h, r, [], o);
    hide ReportOf, Coordinates, DeltasOver, Has, ReverseSummary, ReverseProviders, ReverseMoves;
  }

  /** Two routes that tie, one in each catalog, are listed in the order the catalogs are given. */
  lemma RouteTieShows(r: Route, t: Route, o: Orders) returns (base: Catalog, head: Catalog)
    requires r != t && RouteOrder(o)(r, t) && RouteOrder(o)(t, r)
    ensures !Reverses(base, head, [], false, o)
  {
    var b, h := OneRoute(r), OneRoute(t);
    base, head := Single([], b), Single([], h);
    OneRouteEntries(r, o);
    OneRouteEntries(t, o);
    SortTwo(r, t, RouteOrder(o));
    SortTwo(t, r, RouteOrder(o));
    hide Entries, Has, Sort, Dedup, RouteOrder, OneRoute, ReportOf, ReverseReport;
    FirstModel(b, h, o, r);
    FirstModel(h, b, o, t);
  }

  /**
   Exactly for comparisons that never tie, on names and on the coordinates of routes, every comparison of
   two catalogs reverses.
   */
  lemma ReversesExactly(o: Orders)
    requires Preorder(o.names) && Preorder(o.texts) && Preorder(o.units) && Antisymmetric(o.units)
    ensures (forall base, head, fields, all :: Reverses(base, head, fields, all, o))
       <==> Antisymmetric(o.names) && Antisymmetric(RouteOrder(o))
  {
    hide Reverses, Preorder, RouteOrder, Entries, ProviderOf;
    if Antisymmetric(o.names) && Antisymmetric(RouteOrder(o)) {
      forall base, head, fields, all
        ensures Reverses(base, head, fields, all, o)
      {
        assert Untied(base, head, o);
        ReportReversed(base, head, fields, all, o);
      }
    } else if !Antisymmetric(o.names) {
      var a, b :| o.names(a, b) && o.names(b, a) && a != b;
      var base, head := NameTieShows(a, b, o);
    } else {
      var r, t :| RouteOrder(o)(r, t) && RouteOrder(o)(t, r) && r != t;
      var base, head := RouteTieShows(r, t, o);
    }
  }

  // ----- each route takes part in at most one move

  /** The one route of q with the model. */
  ghost predicate OnlyRoute(q: seq<Route>, r: Route) {
    r in q && forall t :: t in q && t.model == r.model ==> t == r
  }

  lemma OneKept(q: seq<Route>, model: Str)
    requires Distinct(q)
    ensures |ByModel(q, model)| == 1 <==> exists r :: OnlyRoute(q, r) && r.model == model
    ensures |ByModel(q, model)| == 1 ==> OnlyRoute(q, ByModel(q, model)[0]) && ByModel(q, model)[0].model == model
  {
    var s := ByModel(q, model);
    KeepHas(q, (r: Route) => r.model == model);
    assert forall r :: r in s <==> r in q && r.model == model;
    hide ByModel;
    if |s| == 1 {
      assert s[0] in s;
      assert OnlyRoute(q, s[0]);
    }
    if r :| OnlyRoute(q, r) && r.model == model {
      assert r in s;
      DistinctSizes(s, {r});
    }
  }

  /**
   A move in the report of a pair of catalogs: a removed route and an added one of the same model, each
   the only one.
   */
  ghost predicate IsMove(base: Catalog, head: Catalog, m: ApiMove) {
    var b, h := ProviderOf(base, m.provider), ProviderOf(head, m.provider);
    && OnlyLost(b, h, Route(m.fromApi, m.model))
    && OnlyLost(h, b, Route(m.toApi, m.model))
  }

  ghost predicate OnlyLost(p: Provider, q: Provider, r: Route) {
    Has(p, r) && !Has(q, r) && forall t :: Has(p, t) && !Has(q, t) && t.model == r.model ==> t == r
  }

  lemma LostAre(p: Provider, q: Provider, o: Orders)
    ensures Distinct(Lost(p, q, o)) && forall r :: r in Lost(p, q, o) <==> Has(p, r) && !Has(q, r)
  {
    EntriesAre(p, o);
    KeepHas(Entries(p, o), r => !Has(q, r));
    hide Entries;
  }

  /** Pairing by model gives exactly the moves. */
  lemma MovableIs(base: Catalog, head: Catalog, name: Str, removed: seq<Route>, added: seq<Route>, m: ApiMove)
    requires Distinct(removed)
    requires (forall r :: r in removed <==> Has(ProviderOf(base, name), r) && !Has(ProviderOf(head, name), r))
    requires Distinct(added)
    requires (forall r :: r in added <==> Has(ProviderOf(head, name), r) && !Has(ProviderOf(base, name), r))
    ensures m.provider == name && IsMove(base, head, m)
       <==> Movable(removed, added, m.model) && m == MoveOf(name, removed, added, m.model)
  {
    hide Has, ProviderOf, ByModel;
    var from, to := Route(m.fromApi, m.model), Route(m.toApi, m.model);
    OneKept(removed, m.model);
    OneKept(added, m.model);
    if Movable(removed, added, m.model) && m == MoveOf(name, removed, added, m.model) {
      assert ByModel(removed, m.model)[0] == from && ByModel(added, m.model)[0] == to;
    }
    if m.provider == name && IsMove(base, head, m) {
      assert OnlyRoute(removed, from) && OnlyRoute(added, to);
    }
  }

  lemma SectionMoves(base: Catalog, head: Catalog, name: Str, fields: seq<Str>, all: bool, o: Orders)
    ensures var ms := SectionOf(base, head, name, fields, all, o).moves;
      && (forall m :: m in ms <==> m.provider == name && IsMove(base, head, m))
      && forall i, j :: 0 <= i < j < |ms| ==> ms[i].model != ms[j].model
  {
    hide *;
    var b, h := ProviderOf(base, name), ProviderOf(head, name);
    var removed, added := Lost(b, h, o), Lost(h, b, o);
    var models := MovedModels(removed, added, o);
    var ms := SectionOf(base, head, name, fields, all, o).moves;
    SectionMovesAre(base, head, name, fields, all, o);
    LostAre(b, h, o);
    LostAre(h, b, o);
    ModelsMoved(removed, added, o);
    MovesAlong(name, models, removed, added);
    ListedMoves(name, models, removed, added, ms);
    forall m: ApiMove
      ensures m in ms <==> m.provider == name && IsMove(base, head, m)
    {
      MovableIs(base, head, name, removed, added, m);
    }
  }

  lemma SectionMovesAre(base: Catalog, head: Catalog, name: Str, fields: seq<Str>, all: bool, o: Orders)
    ensures var b, h := ProviderOf(base, name), ProviderOf(head, name);
      var removed, added := Lost(b, h, o), Lost(h, b, o);
      var models := MovedModels(removed, added, o);
      && SectionOf(base, head, name, fields, all, o).moves == MovesOver(name, models, removed, added)
      && AllMovable(models, removed, added)
  {
    var b, h := ProviderOf(base, name), ProviderOf(head, name);
    var removed, added := Lost(b, h, o), Lost(h, b, o);
    MovesAreKept(name, MoveOrder(removed, o), removed, added);
    hide MovesOver, Lost, Keep, MoveOrder, ProviderOf, DeltasOver, Coordinates, ChangedOver, Displays, Entries,
         AllMovable;
  }

  lemma ModelsMoved(removed: seq<Route>, added: seq<Route>, o: Orders)
    ensures var models := MovedModels(removed, added, o);
      Distinct(models) && forall m :: m in models <==> Movable(removed, added, m)
  {
    KeepHas(MoveOrder(removed, o), CanMove(removed, added));
    hide ByModel, MoveOrder, Mentions;
    forall m | Movable(removed, added, m)
      ensures Mentions(removed, m)
    {
      OneOfModel(removed, m);
    }
  }

  lemma ListedMoves(name: Str, models: seq<Str>, removed: seq<Route>, added: seq<Route>, ms: seq<ApiMove>)
    requires Distinct(models) && (forall m :: m in models <==> Movable(removed, added, m)) && |ms| == |models|
    requires AllMovable(models, removed, added)
    requires forall i :: 0 <= i < |ms| ==> ms[i] == MoveOf(name, removed, added, models[i])
    ensures forall m :: m in ms <==> Movable(removed, added, m.model) && m == MoveOf(name, removed, added, m.model)
    ensures forall i, j :: 0 <= i < j < |ms| ==> ms[i].model != ms[j].model
  {
    hide ByModel, Movable;
    forall i | 0 <= i < |ms|
      ensures ms[i].model == models[i]
    {
    }
    forall m: ApiMove | Movable(removed, added, m.model) && m == MoveOf(name, removed, added, m.model)
      ensures m in ms
    {
      var i :| 0 <= i < |models| && models[i] == m.model;
      assert ms[i] == m;
    }
  }

  ghost predicate SeparateMoves(ms: seq<ApiMove>) {
    forall i, j :: 0 <= i < j < |ms| ==> ms[i].provider != ms[j].provider || ms[i].model != ms[j].model
  }

  lemma {:induction false} SectionsMoves(ss: seq<Section>, names: seq<Str>)
    requires |ss| == |names| && Distinct(names)
    requires forall i, m :: 0 <= i < |ss| && m in ss[i].moves ==> m.provider == names[i]
    requires forall i {:trigger ss[i]} :: 0 <= i < |ss| ==> SeparateMoves(ss[i].moves)
    ensures SeparateMoves(Moves(ss))
    ensures forall m :: m in Moves(ss) <==> exists i :: 0 <= i < |ss| && m in ss[i].moves
  {
    if ss != [] {
      var n := |ss| - 1;
      var front, last := Moves(ss[..n]), ss[n].moves;
      SectionsMoves(ss[..n], names[..n]);
      LastSection(ss);
      hide Moves;
      forall m
        ensures m in front + last <==> exists i :: 0 <= i < |ss| && m in ss[i].moves
      {
        if i :| 0 <= i < |ss| && m in ss[i].moves {
          assert i < n ==> ss[..n][i] == ss[i];
        }
      }
      forall m | m in front
        ensures m.provider != names[n]
      {
        var i :| 0 <= i < n && m in ss[..n][i].moves;
        assert names[i] != names[n];
      }
      SeparateConcat(front, last);
    }
  }

  lemma SeparateConcat(a: seq<ApiMove>, b: seq<ApiMove>)
    requires SeparateMoves(a) && SeparateMoves(b) && forall m, n :: m in a && n in b ==> m.provider != n.provider
    ensures SeparateMoves(a + b)
  {
  }

  /**
   The reported moves are exactly the pairs of a removed and an added route of one model that are the
   only such routes, and no two moves share a provider and model: no route takes part in two.
   */
  lemma MovesAreUnambiguous(base: Catalog, head: Catalog, fields: seq<Str>, all: bool, o: Orders)
    ensures var ms := ReportOf(base, head, fields, all, o).moves;
      SeparateMoves(ms) && forall m :: m in ms <==> IsMove(base, head, m)
  {
    hide *;
    var sorted := Sort(fields, o.names);
    var names := Names(base, head, o);
    var ss := SectionsOf(base, head, names, sorted, all, o);
    ReportIs(base, head, fields, all, o);
    forall i | 0 <= i < |ss|
      ensures SectionHasMoves(base, head, names[i], ss[i])
    {
      SectionMoves(base, head, names[i], sorted, all, o);
      HasMoves(base, head, names[i], ss[i]);
    }
    AllMoves(base, head, names, ss);
  }

  ghost predicate SectionHasMoves(base: Catalog, head: Catalog, name: Str, s: Section) {
    && SeparateMoves(s.moves)
    && forall m :: m in s.moves <==> m.provider == name && IsMove(base, head, m)
  }

  lemma HasMoves(base: Catalog, head: Catalog, name: Str, s: Section)
    requires forall m :: m in s.moves <==> m.provider == name && IsMove(base, head, m)
    requires forall i, j :: 0 <= i < j < |s.moves| ==> s.moves[i].model != s.moves[j].model
    ensures SectionHasMoves(base, head, name, s)
  {
    hide IsMove;
  }

  lemma AllMoves(base: Catalog, head: Catalog, names: seq<Str>, ss: seq<Section>)
    requires |ss| == |names| && Distinct(names)
    requires forall name :: name in names <==> name in base.at || name in head.at
    requires forall i :: 0 <= i < |ss| ==> SectionHasMoves(base, head, names[i], ss[i])
    ensures SeparateMoves(Moves(ss)) && forall m :: m in Moves(ss) <==> IsMove(base, head, m)
  {
    hide SeparateMoves, IsMove, Moves, Distinct;
    forall i | 0 <= i < |ss|
      ensures SeparateMoves(ss[i].moves)
      ensures forall m :: m in ss[i].moves <==> m.provider == names[i] && IsMove(base, head, m)
    {
      assert SectionHasMoves(base, head, names[i], ss[i]);
    }
    SectionsMoves(ss, names);
    forall m | IsMove(base, head, m)
      ensures m in Moves(ss)
    {
      MoveInCatalogs(base, head, m);
      assert m.provider in names;
      var i :| 0 <= i < |names| && names[i] == m.provider;
      assert m in ss[i].moves;
    }
  }

  lemma MoveInCatalogs(base: Catalog, head: Catalog, m: ApiMove)
    requires IsMove(base, head, m)
    ensures m.provider in base.at || m.provider in head.at
  {
  }

  // ----- the verdict

  // When values count as equal is a parameter: when their texts are, or when they are up to key order.
  type Alike = (Json, Json) -> bool

  ghost function SameText(o: Orders): Alike {
    (x, y) => Stable(x, o.names) == Stable(y, o.names)
  }

  ghost function SameValue(): Alike {
    (x, y) => Same(x, y)
  }

  ghost predicate FieldsCoincide(b: Model, h: Model, fields: seq<Str>, eq: Alike) {
    forall f :: f in fields ==> eq(FieldOf(b, f), FieldOf(h, f))
  }

  /** Both sides have the same routes, and on each route the compared fields are equal. */
  ghost predicate ProvidersCoincide(b: Provider, h: Provider, fields: seq<Str>, eq: Alike) {
    (forall r :: Has(b, r) <==> Has(h, r)) && SharedCoincide(b, h, fields, eq)
  }

  /** The routes both sides have agree on the compared fields. */
  ghost predicate SharedCoincide(b: Provider, h: Provider, fields: seq<Str>, eq: Alike) {
    forall r :: Has(b, r) && Has(h, r) ==> FieldsCoincide(ModelAt(b, r), ModelAt(h, r), fields, eq)
  }

  ghost predicate CatalogsCoincide(base: Catalog, head: Catalog, fields: seq<Str>, eq: Alike) {
    && base.at.Keys == head.at.Keys
    && forall name :: name in base.at && name in head.at ==> ProvidersCoincide(base.at[name], head.at[name], fields, eq)
  }

  ghost predicate WfModel(m: Model) {
    forall f :: f in m ==> Wf(m[f])
  }

  ghost predicate WfProvider(p: Provider) {
    forall r :: Has(p, r) ==> WfModel(ModelAt(p, r))
  }

  ghost predicate WfCatalog(c: Catalog) {
    forall name :: name in c.at ==> WfProvider(c.at[name])
  }

  /** No object within a compared field has keys that tie. */
  ghost predicate TieFreeModel(m: Model, fields: seq<Str>, o: Orders) {
    forall f :: f in fields ==> TieFree(FieldOf(m, f), o.names)
  }

  ghost predicate TieFreeProvider(p: Provider, fields: seq<Str>, o: Orders) {
    forall r :: Has(p, r) ==> TieFreeModel(ModelAt(p, r), fields, o)
  }

  ghost predicate TieFreeCatalog(c: Catalog, fields: seq<Str>, o: Orders) {
    forall name :: name in c.at ==> TieFreeProvider(c.at[name], fields, o)
  }

  lemma {:induction false} ChangesByText(b: Model, h: Model, fields: seq<Str>, o: Orders)
    ensures Changes(b, h, fields, o) == [] <==> FieldsCoincide(b, h, fields, SameText(o))
  {
    hide Stable;
    if fields != [] {
      ChangesByText(b, h, fields[1..], o);
      assert fields == [fields[0]] + fields[1..];
    }
  }

  lemma FieldsMean(b: Model, h: Model, fields: seq<Str>, o: Orders)
    requires WfModel(b) && WfModel(h)
    ensures FieldsCoincide(b, h, fields, SameText(o)) ==> FieldsCoincide(b, h, fields, SameValue())
    ensures Preorder(o.names) && TieFreeModel(b, fields, o) && FieldsCoincide(b, h, fields, SameValue())
            ==> FieldsCoincide(b, h, fields, SameText(o))
  {
    hide Stable, Same, Preorder, TieFree;
    forall f | f in fields
      ensures SameText(o)(FieldOf(b, f), FieldOf(h, f)) ==> SameValue()(FieldOf(b, f), FieldOf(h, f))
      ensures Preorder(o.names) && TieFreeModel(b, fields, o) && SameValue()(FieldOf(b, f), FieldOf(h, f))
              ==> SameText(o)(FieldOf(b, f), FieldOf(h, f))
    {
      var x, y := FieldOf(b, f), FieldOf(h, f);
      assert Wf(x) && Wf(y);
      if Stable(x, o.names) == Stable(y, o.names) {
        EqualTexts(x, y, o.names);
      }
      if Preorder(o.names) && TieFreeModel(b, fields, o) {
        StableIsCanonical(x, y, o.names);
      }
    }
  }

  /**
   Without a listed change the compared fields are equal up to key order, whatever the comparison of keys;
   with equal fields none is listed, if no keys in them tie.
   */
  lemma NoChanges(b: Model, h: Model, fields: seq<Str>, o: Orders)
    requires WfModel(b) && WfModel(h)
    ensures Changes(b, h, fields, o) == [] ==> FieldsCoincide(b, h, fields, SameValue())
    ensures Preorder(o.names) && TieFreeModel(b, fields, o)
            ==> (Changes(b, h, fields, o) == [] <==> FieldsCoincide(b, h, fields, SameValue()))
  {
    ChangesByText(b, h, fields, o);
    FieldsMean(b, h, fields, o);
    hide *;
  }

  lemma SharedMean(b: Provider, h: Provider, fields: seq<Str>, o: Orders)
    requires WfProvider(b) && WfProvider(h)
    ensures SharedCoincide(b, h, fields, SameText(o)) ==> SharedCoincide(b, h, fields, SameValue())
    ensures Preorder(o.names) && TieFreeProvider(b, fields, o) && SharedCoincide(b, h, fields, SameValue())
            ==> SharedCoincide(b, h, fields, SameText(o))
  {
    hide FieldsCoincide, SameText, SameValue, WfModel, TieFreeModel, Preorder, Has;
    forall r | Has(b, r) && Has(h, r)
      ensures FieldsCoincide(ModelAt(b, r), ModelAt(h, r), fields, SameText(o))
              ==> FieldsCoincide(ModelAt(b, r), ModelAt(h, r), fields, SameValue())
      ensures Preorder(o.names) && TieFreeProvider(b, fields, o)
              && FieldsCoincide(ModelAt(b, r), ModelAt(h, r), fields, SameValue())
              ==> FieldsCoincide(ModelAt(b, r), ModelAt(h, r), fields, SameText(o))
    {
      FieldsMean(ModelAt(b, r), ModelAt(h, r), fields, o);
    }
  }

  lemma DeltaVerdict(name: Str, b: Provider, h: Provider, r: Route, fields: seq<Str>, o: Orders)
    requires Has(b, r) || Has(h, r)
    ensures DeltaAt(name, b, h, r, fields, o).status == Unchanged
       <==> Has(b, r) && Has(h, r) && FieldsCoincide(ModelAt(b, r), ModelAt(h, r), fields, SameText(o))
    ensures ChangedAt(name, b, h, r, fields, o)
       <==> Has(b, r) && Has(h, r) && !FieldsCoincide(ModelAt(b, r), ModelAt(h, r), fields, SameText(o))
    ensures DeltaAt(name, b, h, r, fields, o).changes == []
       <==> (Has(b, r) && Has(h, r) ==> FieldsCoincide(ModelAt(b, r), ModelAt(h, r), fields, SameText(o)))
  {
    hide FieldsCoincide, Changes;
    if Has(b, r) && Has(h, r) {
      ChangesByText(ModelAt(b, r), ModelAt(h, r), fields, o);
    }
  }

  /** A provider is unchanged exactly when both catalogs have it and agree on it. */
  lemma SectionVerdict(base: Catalog, head: Catalog, name: Str, fields: seq<Str>, all: bool, o: Orders)
    ensures SectionOf(base, head, name, fields, all, o).provider.status == Unchanged
       <==> name in base.at && name in head.at && ProvidersCoincide(base.at[name], head.at[name], fields, SameText(o))
  {
    var b, h := ProviderOf(base, name), ProviderOf(head, name);
    hide Entries, MoveOrder, MovesOver, DeltasOver, Has, SharedCoincide, Lost, Coordinates, ChangedOver;
    LostVerdict(b, h, o);
    ChangedVerdict(name, b, h, fields, o);
  }

  lemma LostVerdict(b: Provider, h: Provider, o: Orders)
    ensures Lost(b, h, o) == [] && Lost(h, b, o) == [] <==> forall r :: Has(b, r) <==> Has(h, r)
  {
    LostAre(b, h, o);
    LostAre(h, b, o);
    hide Has, Lost;
    NonEmptyHas(Lost(b, h, o));
    NonEmptyHas(Lost(h, b, o));
  }

  lemma ChangedVerdict(name: Str, b: Provider, h: Provider, fields: seq<Str>, o: Orders)
    ensures ChangedOver(name, b, h, Coordinates(b, h, o), fields, o) == []
        <==> SharedCoincide(b, h, fields, SameText(o))
  {
    var order := Coordinates(b, h, o);
    var changed := ChangedOver(name, b, h, order, fields, o);
    CoordinatesAre(b, h, o);
    KeepHas(order, IsChanged(name, b, h, fields, o));
    hide Has, ChangedAt, FieldsCoincide, Keep, Coordinates;
    forall r | Has(b, r) || Has(h, r)
      ensures ChangedAt(name, b, h, r, fields, o)
         <==> Has(b, r) && Has(h, r) && !FieldsCoincide(ModelAt(b, r), ModelAt(h, r), fields, SameText(o))
    {
      DeltaVerdict(name, b, h, r, fields, o);
    }
    forall r
      ensures r in changed <==> r in order && ChangedAt(name, b, h, r, fields, o)
    {
    }
    NonEmptyHas(changed);
    hide ChangedOver;
  }

  lemma NonEmptyHas<T>(q: seq<T>)
    ensures q != [] <==> exists x :: x in q
  {
    if q != [] {
      assert q[0] in q;
    }
  }

  lemma {:induction false} DeltasHave(name: Str, b: Provider, h: Provider, order: seq<Route>, fields: seq<Str>,
                                      all: bool, o: Orders)
    ensures var ds := DeltasOver(name, b, h, order, fields, all, o);
      && (forall r :: r in order ==> var d := DeltaAt(name, b, h, r, fields, o); d.status != Unchanged ==> d in ds)
      && forall d :: d in ds ==> d.route in order && d == DeltaAt(name, b, h, d.route, fields, o)
  {
    hide DeltaAt;
    if order != [] {
      assert order == [order[0]] + order[1..];
      DeltasHave(name, b, h, order[1..], fields, all, o);
      DeltaRoute(name, b, h, order[0], fields, o);
    }
  }

  lemma DeltaRoute(name: Str, b: Provider, h: Provider, r: Route, fields: seq<Str>, o: Orders)
    ensures DeltaAt(name, b, h, r, fields, o).route == r
  {
  }

  ghost predicate Quiet(ds: seq<ModelDelta>) {
    forall d :: d in ds ==> d.status == Unchanged
  }

  ghost predicate FieldsQuiet(ds: seq<ModelDelta>) {
    forall d :: d in ds ==> d.changes == []
  }

  lemma DeltasQuiet(name: Str, b: Provider, h: Provider, fields: seq<Str>, all: bool, o: Orders)
    ensures var ds := DeltasOver(name, b, h, Coordinates(b, h, o), fields, all, o);
      && (Quiet(ds) <==> ProvidersCoincide(b, h, fields, SameText(o)))
      && (FieldsQuiet(ds) <==> SharedCoincide(b, h, fields, SameText(o)))
  {
    var order := Coordinates(b, h, o);
    var ds := DeltasOver(name, b, h, order, fields, all, o);
    CoordinatesAre(b, h, o);
    DeltasHave(name, b, h, order, fields, all, o);
    hide DeltasOver, Has, FieldsCoincide, DeltaAt, Coordinates, Distinct, SameText, ModelAt;
    forall r | Has(b, r) || Has(h, r)
      ensures var d := DeltaAt(name, b, h, r, fields, o);
        && ((forall e :: e in ds && e.route == r ==> e.status == Unchanged)
            <==> Has(b, r) && Has(h, r) && FieldsCoincide(ModelAt(b, r), ModelAt(h, r), fields, SameText(o)))
        && ((forall e :: e in ds && e.route == r ==> e.changes == [])
            <==> (Has(b, r) && Has(h, r) ==> FieldsCoincide(ModelAt(b, r), ModelAt(h, r), fields, SameText(o))))
    {
      DeltaVerdict(name, b, h, r, fields, o);
      ChangesOnlyIfChanged(name, b, h, r, fields, o);
      DeltaRoute(name, b, h, r, fields, o);
    }
    forall e | e in ds
      ensures Has(b, e.route) || Has(h, e.route)
    {
    }
  }

  lemma ChangesOnlyIfChanged(name: Str, b: Provider, h: Provider, r: Route, fields: seq<Str>, o: Orders)
    ensures var d := DeltaAt(name, b, h, r, fields, o); d.changes != [] ==> d.status != Unchanged
  {
  }

  lemma {:induction false} QuietCounts(ds: seq<ModelDelta>)
    ensures CountModels(ds, Added) + CountModels(ds, Removed) + CountModels(ds, Changed) == 0 <==> Quiet(ds)
    ensures SumChanges(ds) == 0 <==> FieldsQuiet(ds)
  {
    if ds != [] {
      QuietCounts(ds[1..]);
      assert ds == [ds[0]] + ds[1..];
    }
  }

  ghost predicate Settled(ps: seq<ProviderDelta>) {
    forall i :: 0 <= i < |ps| ==> ps[i].status == Unchanged
  }

  lemma {:induction false} QuietProviders(ps: seq<ProviderDelta>)
    ensures CountProviders(ps, Added) + CountProviders(ps, Removed) + CountProviders(ps, Changed) == 0
       <==> Settled(ps)
  {
    if ps != [] {
      QuietProviders(ps[1..]);
      assert forall i :: 1 <= i < |ps| ==> ps[i] == ps[1..][i - 1];
    }
  }

  lemma QuietConcat(a: seq<ModelDelta>, b: seq<ModelDelta>)
    ensures Quiet(a + b) <==> Quiet(a) && Quiet(b)
    ensures FieldsQuiet(a + b) <==> FieldsQuiet(a) && FieldsQuiet(b)
  {
    assert forall d :: d in a + b <==> d in a || d in b;
  }

  lemma {:induction false} SectionsProviders(ss: seq<Section>)
    ensures |Providers(ss)| == |ss| && forall i :: 0 <= i < |ss| ==> Providers(ss)[i] == ss[i].provider
  {
    if ss != [] {
      var n := |ss| - 1;
      SectionsProviders(ss[..n]);
      LastSection(ss);
      hide Providers;
      assert forall i :: 0 <= i < n ==> ss[..n][i] == ss[i];
    }
  }

  ghost predicate UnchangedIn(ss: seq<Section>) {
    forall i :: 0 <= i < |ss| ==> ss[i].provider.status == Unchanged
  }

  ghost predicate QuietIn(ss: seq<Section>) {
    forall i :: 0 <= i < |ss| ==> Quiet(ss[i].models)
  }

  ghost predicate FieldsQuietIn(ss: seq<Section>) {
    forall i :: 0 <= i < |ss| ==> FieldsQuiet(ss[i].models)
  }

  ghost predicate NoMovesIn(ss: seq<Section>) {
    forall i :: 0 <= i < |ss| ==> ss[i].moves == []
  }

  lemma QuietInLast(ss: seq<Section>)
    requires ss != []
    ensures var n := |ss| - 1;
      && (QuietIn(ss) <==> QuietIn(ss[..n]) && Quiet(ss[n].models))
      && (FieldsQuietIn(ss) <==> FieldsQuietIn(ss[..n]) && FieldsQuiet(ss[n].models))
      && (NoMovesIn(ss) <==> NoMovesIn(ss[..n]) && ss[n].moves == [])
  {
    hide Quiet, FieldsQuiet;
    assert ss == ss[..|ss| - 1] + [ss[|ss| - 1]];
  }

  lemma {:induction false} SectionsQuiet(ss: seq<Section>)
    ensures Quiet(Models(ss)) <==> QuietIn(ss)
    ensures FieldsQuiet(Models(ss)) <==> FieldsQuietIn(ss)
    ensures Moves(ss) == [] <==> NoMovesIn(ss)
  {
    if ss != [] {
      var n := |ss| - 1;
      SectionsQuiet(ss[..n]);
      LastSection(ss);
      QuietInLast(ss);
      QuietConcat(Models(ss[..n]), ss[n].models);
      hide *;
    }
  }

  /** If two providers coincide the section about them lists no move. */
  lemma QuietMoves(base: Catalog, head: Catalog, name: Str, fields: seq<Str>, all: bool, o: Orders)
    requires ProvidersCoincide(ProviderOf(base, name), ProviderOf(head, name), fields, SameText(o))
    ensures SectionOf(base, head, name, fields, all, o).moves == []
  {
    var ms := SectionOf(base, head, name, fields, all, o).moves;
    SectionMoves(base, head, name, fields, all, o);
    hide SectionOf, Has, SharedCoincide;
    NonEmptyHas(ms);
  }

  /** The four failure modes in terms of what coincides. */
  ghost predicate Verdict(s: Summary, base: Catalog, head: Catalog, fields: seq<Str>, eq: Alike) {
    && (ShouldFail(s, AnyChange) <==> !CatalogsCoincide(base, head, fields, eq))
    && (ShouldFail(s, ProviderChange) <==> !CatalogsCoincide(base, head, fields, eq))
    && (ShouldFail(s, ModelChange)
        <==> exists name :: !ProvidersCoincide(ProviderOf(base, name), ProviderOf(head, name), fields, eq))
    && (ShouldFail(s, AnyField)
        <==> exists name :: !SharedCoincide(ProviderOf(base, name), ProviderOf(head, name), fields, eq))
  }

  /** With texts for equality the verdict is exact under any comparisons whatever. */
  lemma VerdictByText(base: Catalog, head: Catalog, fields: seq<Str>, all: bool, o: Orders)
    ensures Verdict(ReportOf(base, head, fields, all, o).summary, base, head, fields, SameText(o))
  {
    var sorted := Sort(fields, o.names);
    var names := Names(base, head, o);
    var ss := SectionsOf(base, head, names, sorted, all, o);
    SortedFieldsSame(fields, o);
    hide SectionOf, Sort, Moves, Providers, Models, CountModels, CountProviders, SumChanges, SumBase, SumHead, ByField,
         ProvidersCoincide, SharedCoincide, Quiet, FieldsQuiet, ProviderOf, Names, SameText;
    forall i | 0 <= i < |ss|
      ensures SectionSays(base, head, names[i], fields, SameText(o), ss[i])
    {
      SectionSaysIt(base, head, names[i], fields, all, o);
    }
    assert ReportOf(base, head, fields, all, o).summary == Summarize(Providers(ss), Models(ss), Moves(ss), sorted);
    hide *;
    SettledIn(ss);
    SectionsQuiet(ss);
    SummaryVerdict(Providers(ss), Models(ss), Moves(ss), sorted);
    AllNamesQuiet(base, head, fields, SameText(o), names, ss);
    VerdictFrom(Summarize(Providers(ss), Models(ss), Moves(ss), sorted), base, head, fields, SameText(o), ss);
  }

  lemma VerdictFrom(s: Summary, base: Catalog, head: Catalog, fields: seq<Str>, eq: Alike, ss: seq<Section>)
    requires ShouldFail(s, AnyChange) <==> !(UnchangedIn(ss) && QuietIn(ss) && FieldsQuietIn(ss) && NoMovesIn(ss))
    requires (ShouldFail(s, ProviderChange) <==> !UnchangedIn(ss)) && (ShouldFail(s, ModelChange) <==> !QuietIn(ss))
    requires ShouldFail(s, AnyField) <==> !FieldsQuietIn(ss)
    requires UnchangedIn(ss) <==> CatalogsCoincide(base, head, fields, eq)
    requires QuietIn(ss)
        <==> forall name :: ProvidersCoincide(ProviderOf(base, name), ProviderOf(head, name), fields, eq)
    requires FieldsQuietIn(ss)
        <==> forall name :: SharedCoincide(ProviderOf(base, name), ProviderOf(head, name), fields, eq)
    requires CatalogsCoincide(base, head, fields, eq) ==> QuietIn(ss) && FieldsQuietIn(ss) && NoMovesIn(ss)
    ensures Verdict(s, base, head, fields, eq)
  {
    hide UnchangedIn, QuietIn, FieldsQuietIn, NoMovesIn, CatalogsCoincide, ProvidersCoincide, SharedCoincide,
         ShouldFail;
  }

  lemma CatalogsMean(base: Catalog, head: Catalog, fields: seq<Str>, o: Orders)
    requires WfCatalog(base) && WfCatalog(head)
    ensures CatalogsCoincide(base, head, fields, SameText(o)) ==> CatalogsCoincide(base, head, fields, SameValue())
    ensures Preorder(o.names) && TieFreeCatalog(base, fields, o) && CatalogsCoincide(base, head, fields, SameValue())
            ==> CatalogsCoincide(base, head, fields, SameText(o))
  {
    hide SharedCoincide, SameText, SameValue, WfProvider, TieFreeProvider, Preorder, Has;
    forall name | name in base.at && name in head.at
      ensures ProvidersCoincide(base.at[name], head.at[name], fields, SameText(o))
              ==> ProvidersCoincide(base.at[name], head.at[name], fields, SameValue())
      ensures Preorder(o.names) && TieFreeCatalog(base, fields, o)
              && ProvidersCoincide(base.at[name], head.at[name], fields, SameValue())
              ==> ProvidersCoincide(base.at[name], head.at[name], fields, SameText(o))
    {
      SharedMean(base.at[name], head.at[name], fields, o);
    }
  }

  lemma NameMeans(base: Catalog, head: Catalog, name: Str, fields: seq<Str>, o: Orders)
    requires WfCatalog(base) && WfCatalog(head)
    ensures var b, h := ProviderOf(base, name), ProviderOf(head, name);
      && (SharedCoincide(b, h, fields, SameText(o)) ==> SharedCoincide(b, h, fields, SameValue()))
      && (Preorder(o.names) && TieFreeCatalog(base, fields, o) && SharedCoincide(b, h, fields, SameValue())
          ==> SharedCoincide(b, h, fields, SameText(o)))
  {
    var b, h := ProviderOf(base, name), ProviderOf(head, name);
    assert WfProvider(b) && WfProvider(h) && (TieFreeCatalog(base, fields, o) ==> TieFreeProvider(b, fields, o)) by {
      hide WfModel, TieFreeModel;
    }
    hide *;
    SharedMean(b, h, fields, o);
  }

  /**
   What each failure mode means: any change, or any provider change, is reported exactly when the
   catalogs do not coincide; a model change exactly when some provider's routes or compared fields
   differ; a field change exactly when a shared route differs in a compared field. Fields are compared
   up to key order; no object in them may have keys that tie.
   */
  lemma VerdictIsExact(base: Catalog, head: Catalog, fields: seq<Str>, all: bool, o: Orders)
    requires WfCatalog(base) && WfCatalog(head) && Preorder(o.names) && TieFreeCatalog(base, fields, o)
    ensures Verdict(ReportOf(base, head, fields, all, o).summary, base, head, fields, SameValue())
  {
    VerdictByText(base, head, fields, all, o);
    CatalogsMean(base, head, fields, o);
    forall name
      ensures var b, h := ProviderOf(base, name), ProviderOf(head, name);
        && (SharedCoincide(b, h, fields, SameText(o)) <==> SharedCoincide(b, h, fields, SameValue()))
        && (ProvidersCoincide(b, h, fields, SameText(o)) <==> ProvidersCoincide(b, h, fields, SameValue()))
    {
      NameMeans(base, head, name, fields, o);
      hide SharedCoincide, Has, WfCatalog, TieFreeCatalog, Preorder, ReportOf;
    }
    hide *;
    SameVerdicts(ReportOf(base, head, fields, all, o).summary, base, head, fields, SameText(o), SameValue());
  }

  lemma SameVerdicts(s: Summary, base: Catalog, head: Catalog, fields: seq<Str>, eq: Alike, eq': Alike)
    requires Verdict(s, base, head, fields, eq)
    requires CatalogsCoincide(base, head, fields, eq) <==> CatalogsCoincide(base, head, fields, eq')
    requires forall name :: var b, h := ProviderOf(base, name), ProviderOf(head, name);
      && (SharedCoincide(b, h, fields, eq) <==> SharedCoincide(b, h, fields, eq'))
      && (ProvidersCoincide(b, h, fields, eq) <==> ProvidersCoincide(b, h, fields, eq'))
    ensures Verdict(s, base, head, fields, eq')
  {
    hide SharedCoincide, ProvidersCoincide, CatalogsCoincide, ShouldFail;
  }

  /** A passing verdict can be trusted under any comparisons whatever: what is not reported is equal up to key order. */
  lemma PassMeansEqual(base: Catalog, head: Catalog, fields: seq<Str>, all: bool, o: Orders)
    requires WfCatalog(base) && WfCatalog(head)
    ensures var s := ReportOf(base, head, fields, all, o).summary;
      && (!ShouldFail(s, AnyChange) || !ShouldFail(s, ProviderChange)
          ==> CatalogsCoincide(base, head, fields, SameValue()))
      && (!ShouldFail(s, ModelChange)
          ==> forall name :: ProvidersCoincide(ProviderOf(base, name), ProviderOf(head, name), fields, SameValue()))
      && (!ShouldFail(s, AnyField)
          ==> forall name :: SharedCoincide(ProviderOf(base, name), ProviderOf(head, name), fields, SameValue()))
  {
    VerdictByText(base, head, fields, all, o);
    CatalogsMean(base, head, fields, o);
    forall name
      ensures var b, h := ProviderOf(base, name), ProviderOf(head, name);
        && (SharedCoincide(b, h, fields, SameText(o)) ==> SharedCoincide(b, h, fields, SameValue()))
        && (ProvidersCoincide(b, h, fields, SameText(o)) ==> ProvidersCoincide(b, h, fields, SameValue()))
    {
      NameMeans(base, head, name, fields, o);
      hide SharedCoincide, Has, WfCatalog, TieFreeCatalog, Preorder, ReportOf;
    }
    hide SharedCoincide, ProvidersCoincide, CatalogsCoincide, ShouldFail, ReportOf, ProviderOf, SameText, SameValue;
  }

  lemma SettledIn(ss: seq<Section>)
    ensures Settled(Providers(ss)) <==> UnchangedIn(ss)
  {
    SectionsProviders(ss);
    hide Providers;
    assert UnchangedIn(ss) ==> Settled(Providers(ss));
    forall i | 0 <= i < |ss|
      ensures ss[i].provider == Providers(ss)[i]
    {
    }
  }

  /** When each mode fails, in terms of the lists that are counted. */
  lemma SummaryVerdict(ps: seq<ProviderDelta>, ds: seq<ModelDelta>, ms: seq<ApiMove>, fields: seq<Str>)
    ensures var s := Summarize(ps, ds, ms, fields);
      && (ShouldFail(s, AnyChange) <==> !(Settled(ps) && Quiet(ds) && FieldsQuiet(ds) && ms == []))
      && (ShouldFail(s, ProviderChange) <==> !Settled(ps)) && (ShouldFail(s, ModelChange) <==> !Quiet(ds))
      && (ShouldFail(s, AnyField) <==> !FieldsQuiet(ds))
  {
    QuietCounts(ds);
    QuietProviders(ps);
    hide CountModels, CountProviders, SumChanges, SumBase, SumHead, Quiet, FieldsQuiet, Settled;
  }

  lemma SortedFieldsSame(fields: seq<Str>, o: Orders)
    ensures forall f :: f in Sort(fields, o.names) <==> f in fields
  {
    SortPermutes(fields, o.names);
  }

  ghost predicate SectionSays(base: Catalog, head: Catalog, name: Str, fields: seq<Str>, eq: Alike, s: Section) {
    var b, h := ProviderOf(base, name), ProviderOf(head, name);
    && (s.provider.status == Unchanged <==> name in base.at && name in head.at && ProvidersCoincide(b, h, fields, eq))
    && (Quiet(s.models) <==> ProvidersCoincide(b, h, fields, eq))
    && (FieldsQuiet(s.models) <==> SharedCoincide(b, h, fields, eq))
    && (ProvidersCoincide(b, h, fields, eq) ==> s.moves == [] && SharedCoincide(b, h, fields, eq))
  }

  lemma SectionSaysIt(base: Catalog, head: Catalog, name: Str, fields: seq<Str>, all: bool, o: Orders)
    ensures SectionSays(base, head, name, fields, SameText(o),
        SectionOf(base, head, name, Sort(fields, o.names), all, o))
  {
    var sorted := Sort(fields, o.names);
    var b, h := ProviderOf(base, name), ProviderOf(head, name);
    SortedFieldsSame(fields, o);
    assert ProvidersCoincide(b, h, fields, SameText(o)) <==> ProvidersCoincide(b, h, sorted, SameText(o)) by {
      hide Has, Same;
    }
    assert SharedCoincide(b, h, fields, SameText(o)) <==> SharedCoincide(b, h, sorted, SameText(o)) by {
      hide Has, Same;
    }
    SectionVerdict(base, head, name, sorted, all, o);
    DeltasQuiet(name, b, h, sorted, all, o);
    hide DeltasOver, MovesOver, MoveOrder, Names, Has, Coordinates, Sort, Quiet, FieldsQuiet;
    if ProvidersCoincide(b, h, sorted, SameText(o)) {
      QuietMoves(base, head, name, sorted, all, o);
    }
  }

  /** A name that neither catalog has stands for two empty providers, which coincide. */
  lemma AbsentCoincide(base: Catalog, head: Catalog, name: Str, fields: seq<Str>, eq: Alike)
    requires name !in base.at && name !in head.at
    ensures ProvidersCoincide(ProviderOf(base, name), ProviderOf(head, name), fields, eq)
    ensures SharedCoincide(ProviderOf(base, name), ProviderOf(head, name), fields, eq)
  {
  }

  lemma AllNamesQuiet(base: Catalog, head: Catalog, fields: seq<Str>, eq: Alike, names: seq<Str>, ss: seq<Section>)
    requires (forall name :: name in names <==> name in base.at || name in head.at) && |ss| == |names|
    requires forall i :: 0 <= i < |ss| ==> SectionSays(base, head, names[i], fields, eq, ss[i])
    ensures UnchangedIn(ss) <==> CatalogsCoincide(base, head, fields, eq)
    ensures QuietIn(ss)
       <==> forall name :: ProvidersCoincide(ProviderOf(base, name), ProviderOf(head, name), fields, eq)
    ensures FieldsQuietIn(ss)
       <==> forall name :: SharedCoincide(ProviderOf(base, name), ProviderOf(head, name), fields, eq)
    ensures CatalogsCoincide(base, head, fields, eq) ==> QuietIn(ss) && FieldsQuietIn(ss) && NoMovesIn(ss)
  {
    hide *;
    NamesUnchanged(base, head, fields, eq, names, ss);
    NamesQuiet(base, head, fields, eq, names, ss);
    NamesFieldsQuiet(base, head, fields, eq, names, ss);
  }

  lemma NamesUnchanged(base: Catalog, head: Catalog, fields: seq<Str>, eq: Alike, names: seq<Str>, ss: seq<Section>)
    requires (forall name :: name in names <==> name in base.at || name in head.at) && |ss| == |names|
    requires forall i :: 0 <= i < |ss| ==> SectionSays(base, head, names[i], fields, eq, ss[i])
    ensures UnchangedIn(ss) <==> CatalogsCoincide(base, head, fields, eq)
    ensures CatalogsCoincide(base, head, fields, eq) ==> QuietIn(ss) && FieldsQuietIn(ss) && NoMovesIn(ss)
  {
    hide *;
    if UnchangedIn(ss) {
      UnchangedCoincide(base, head, fields, eq, names, ss);
    }
    if CatalogsCoincide(base, head, fields, eq) {
      CoincideUnchanged(base, head, fields, eq, names, ss);
    }
  }

  lemma UnchangedCoincide(base: Catalog, head: Catalog, fields: seq<Str>, eq: Alike, names: seq<Str>,
                          ss: seq<Section>)
    requires (forall name :: name in names <==> name in base.at || name in head.at) && |ss| == |names|
    requires forall i :: 0 <= i < |ss| ==> SectionSays(base, head, names[i], fields, eq, ss[i])
    requires UnchangedIn(ss)
    ensures CatalogsCoincide(base, head, fields, eq)
  {
    forall name | name in names
      ensures name in base.at && name in head.at && ProvidersCoincide(base.at[name], head.at[name], fields, eq)
    {
      hide *;
      var i :| 0 <= i < |names| && names[i] == name;
      UnchangedAt(ss, i);
      SectionUnchanged(base, head, names[i], fields, eq, ss[i]);
    }
    BothHave(base.at.Keys, head.at.Keys, names);
    hide ProvidersCoincide, SectionSays, UnchangedIn;
  }

  lemma UnchangedAt(ss: seq<Section>, i: nat)
    requires UnchangedIn(ss) && i < |ss|
    ensures ss[i].provider.status == Unchanged
  {
  }

  lemma BothHave(x: set<Str>, y: set<Str>, names: seq<Str>)
    requires forall name :: name in names <==> name in x || name in y
    requires forall name :: name in names ==> name in x && name in y
    ensures x == y
  {
    assert forall name :: name in x <==> name in y;
  }

  lemma CoincideUnchanged(base: Catalog, head: Catalog, fields: seq<Str>, eq: Alike, names: seq<Str>,
                          ss: seq<Section>)
    requires (forall name :: name in names <==> name in base.at || name in head.at) && |ss| == |names|
    requires forall i :: 0 <= i < |ss| ==> SectionSays(base, head, names[i], fields, eq, ss[i])
    requires CatalogsCoincide(base, head, fields, eq)
    ensures UnchangedIn(ss) && QuietIn(ss) && FieldsQuietIn(ss) && NoMovesIn(ss)
  {
    forall i | 0 <= i < |ss|
      ensures ss[i].provider.status == Unchanged
    {
      hide ProvidersCoincide, SectionSays;
      assert names[i] in names;
      assert names[i] in base.at.Keys <==> names[i] in head.at.Keys;
      SectionUnchanged(base, head, names[i], fields, eq, ss[i]);
    }
    forall i | 0 <= i < |ss|
      ensures Quiet(ss[i].models) && FieldsQuiet(ss[i].models) && ss[i].moves == []
    {
      hide *;
      SectionUnchanged(base, head, names[i], fields, eq, ss[i]);
    }
    hide Quiet, FieldsQuiet, SectionSays, CatalogsCoincide;
  }

  lemma SectionUnchanged(base: Catalog, head: Catalog, name: Str, fields: seq<Str>, eq: Alike, s: Section)
    requires SectionSays(base, head, name, fields, eq, s)
    ensures s.provider.status == Unchanged
       <==> name in base.at && name in head.at && ProvidersCoincide(base.at[name], head.at[name], fields, eq)
    ensures s.provider.status == Unchanged ==> Quiet(s.models) && FieldsQuiet(s.models) && s.moves == []
  {
    hide ProvidersCoincide, SharedCoincide, Quiet, FieldsQuiet;
  }

  lemma NamesQuiet(base: Catalog, head: Catalog, fields: seq<Str>, eq: Alike, names: seq<Str>, ss: seq<Section>)
    requires (forall name :: name in names <==> name in base.at || name in head.at) && |ss| == |names|
    requires forall i :: 0 <= i < |ss| ==> SectionSays(base, head, names[i], fields, eq, ss[i])
    ensures QuietIn(ss)
       <==> forall name :: ProvidersCoincide(ProviderOf(base, name), ProviderOf(head, name), fields, eq)
  {
    hide ProvidersCoincide, SharedCoincide, Quiet, FieldsQuiet, ProviderOf;
    if QuietIn(ss) {
      forall name
        ensures ProvidersCoincide(ProviderOf(base, name), ProviderOf(head, name), fields, eq)
      {
        if name in names {
          var i :| 0 <= i < |names| && names[i] == name;
          assert SectionSays(base, head, names[i], fields, eq, ss[i]);
        } else {
          AbsentCoincide(base, head, name, fields, eq);
        }
      }
    }
  }

  lemma NamesFieldsQuiet(base: Catalog, head: Catalog, fields: seq<Str>, eq: Alike, names: seq<Str>, ss: seq<Section>)
    requires (forall name :: name in names <==> name in base.at || name in head.at) && |ss| == |names|
    requires forall i :: 0 <= i < |ss| ==> SectionSays(base, head, names[i], fields, eq, ss[i])
    ensures FieldsQuietIn(ss)
       <==> forall name :: SharedCoincide(ProviderOf(base, name), ProviderOf(head, name), fields, eq)
  {
    hide ProvidersCoincide, SharedCoincide, Quiet, FieldsQuiet, ProviderOf;
    if FieldsQuietIn(ss) {
      forall name
        ensures SharedCoincide(ProviderOf(base, name), ProviderOf(head, name), fields, eq)
      {
        if name in names {
          var i :| 0 <= i < |names| && names[i] == name;
          assert SectionSays(base, head, names[i], fields, eq, ss[i]);
        } else {
          AbsentCoincide(base, head, name, fields, eq);
        }
      }
    }
  }
}
