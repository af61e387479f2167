/** When the verdict of the catalog delta is exact: exactly for catalogs in which no keys of an object tie. */
module CatalogTies {
  import opened Serializer
  import opened Sorting
  import opened CatalogDiff
  import opened CatalogLaws

  // ----- a catalog with one field of one model replaced

  function WithValue<V>(r: Record<V>, key: Str, value: V): (s: Record<V>)
    requires key in r.at
    ensures s.at == r.at[key := value]
  {
    assert r.at[key := value].Keys == r.at.Keys;
    Obj(r.keys, r.at[key := value])
  }

  function ProviderWith(p: Provider, r: Route, field: Str, value: Json): Provider
    requires Has(p, r)
  {
    WithValue(p, r.api, WithValue(p.at[r.api], r.model, ModelAt(p, r)[field := value]))
  }

  lemma ProviderWithIs(p: Provider, r: Route, field: Str, value: Json)
    requires Has(p, r)
    ensures var q := ProviderWith(p, r, field, value);
      && (forall t :: Has(q, t) <==> Has(p, t))
      && forall t :: Has(p, t) ==> ModelAt(q, t) == if t == r then ModelAt(p, r)[field := value] else ModelAt(p, t)
  {
    var q := ProviderWith(p, r, field, value);
    hide Listed;
    forall t: Route
      ensures Has(q, t) <==> Has(p, t)
      ensures Has(p, t) ==> ModelAt(q, t) == if t == r then ModelAt(p, r)[field := value] else ModelAt(p, t)
    {
      assert t.api == r.api && t.model == r.model ==> t == r;
    }
  }

  /** The field of a replaced model: the new value there, the old ones elsewhere. */
  lemma FieldReplaced(m: Model, field: Str, value: Json, f: Str)
    ensures FieldOf(m[field := value], f) == if f == field then value else FieldOf(m, f)
  {
  }

  lemma FieldsKept(m: Model, field: Str, value: Json, fields: seq<Str>)
    requires WfModel(m) && Wf(value) && Same(FieldOf(m, field), value)
    ensures WfModel(m[field := value]) && FieldsCoincide(m, m[field := value], fields, SameValue())
  {
    hide Same, Wf;
    forall f | f in fields
      ensures SameValue()(FieldOf(m, f), FieldOf(m[field := value], f))
    {
      FieldReplaced(m, field, value, f);
      if f != field {
        assert Wf(FieldOf(m, f)) by { UndefinedIsWf(); }
        SameAsItself(FieldOf(m, f));
      }
    }
  }

  lemma UndefinedIsWf()
    ensures Wf(Undefined)
  {
  }

  lemma FieldsAlike(m: Model, fields: seq<Str>)
    requires WfModel(m)
    ensures FieldsCoincide(m, m, fields, SameValue())
  {
    hide Same, Wf;
    forall f | f in fields
      ensures SameValue()(FieldOf(m, f), FieldOf(m, f))
    {
      assert Wf(FieldOf(m, f)) by { UndefinedIsWf(); }
      SameAsItself(FieldOf(m, f));
    }
  }

  /** Replacing a field by an equal value leaves a provider that coincides with the first. */
  lemma ProviderKept(p: Provider, r: Route, field: Str, value: Json, fields: seq<Str>)
    requires WfProvider(p) && Has(p, r) && Wf(value) && Same(FieldOf(ModelAt(p, r), field), value)
    ensures var q := ProviderWith(p, r, field, value);
      WfProvider(q) && ProvidersCoincide(p, q, fields, SameValue())
  {
    var q := ProviderWith(p, r, field, value);
    ProviderWithIs(p, r, field, value);
    hide Has, ModelAt, ProviderWith, FieldsCoincide, WfModel, Same, Wf, SameValue;
    forall t | Has(p, t)
      ensures WfModel(ModelAt(q, t)) && FieldsCoincide(ModelAt(p, t), ModelAt(q, t), fields, SameValue())
    {
      if t == r {
        FieldsKept(ModelAt(p, r), field, value, fields);
      } else {
        FieldsAlike(ModelAt(p, t), fields);
      }
    }
  }

  /** A value with another text shows in a compared field. */
  lemma TextShows(p: Provider, r: Route, field: Str, value: Json, fields: seq<Str>, o: Orders)
    requires Has(p, r) && field in fields && Stable(FieldOf(ModelAt(p, r), field), o.names) != Stable(value, o.names)
    ensures !SharedCoincide(p, ProviderWith(p, r, field, value), fields, SameText(o))
  {
    var q := ProviderWith(p, r, field, value);
    ProviderWithIs(p, r, field, value);
    hide Has, ModelAt, ProviderWith, Stable;
    FieldReplaced(ModelAt(p, r), field, value, field);
    assert !SameText(o)(FieldOf(ModelAt(p, r), field), FieldOf(ModelAt(q, r), field));
    assert !FieldsCoincide(ModelAt(p, r), ModelAt(q, r), fields, SameText(o));
  }

  lemma ProviderAlike(p: Provider, fields: seq<Str>)
    requires WfProvider(p)
    ensures ProvidersCoincide(p, p, fields, SameValue())
  {
    hide Has, ModelAt, FieldsCoincide, WfModel, SameValue;
    forall t | Has(p, t)
      ensures FieldsCoincide(ModelAt(p, t), ModelAt(p, t), fields, SameValue())
    {
      FieldsAlike(ModelAt(p, t), fields);
    }
  }

  lemma CatalogKept(base: Catalog, name: Str, q: Provider, fields: seq<Str>)
    requires WfCatalog(base) && name in base.at && WfProvider(q)
    requires ProvidersCoincide(base.at[name], q, fields, SameValue())
    ensures var head := WithValue(base, name, q);
      WfCatalog(head) && CatalogsCoincide(base, head, fields, SameValue())
  {
    hide WfProvider, ProvidersCoincide, Listed;
    var head := WithValue(base, name, q);
    assert base.at.Keys == head.at.Keys;
    forall n | n in base.at && n in head.at
      ensures ProvidersCoincide(base.at[n], head.at[n], fields, SameValue())
    {
      if n != name {
        ProviderAlike(base.at[n], fields);
      }
    }
  }

  // ----- ties show in the verdict

  ghost predicate AllModesFail(s: Summary) {
    ShouldFail(s, AnyChange) && ShouldFail(s, ProviderChange) && ShouldFail(s, ModelChange) && ShouldFail(s, AnyField)
  }

  ghost predicate TiedField(base: Catalog, name: Str, r: Route, field: Str, o: Orders) {
    && name in base.at && Has(base.at[name], r)
    && !TieFree(FieldOf(ModelAt(base.at[name], r), field), o.names)
  }

  lemma FindTiedField(base: Catalog, fields: seq<Str>, o: Orders) returns (name: Str, r: Route, field: Str)
    requires !TieFreeCatalog(base, fields, o)
    ensures field in fields && TiedField(base, name, r, field, o)
  {
    hide TieFree, Has, ModelAt;
    name :| name in base.at && !TieFreeProvider(base.at[name], fields, o);
    r :| Has(base.at[name], r) && !TieFreeModel(ModelAt(base.at[name], r), fields, o);
    field :| field in fields && !TieFree(FieldOf(ModelAt(base.at[name], r), field), o.names);
  }

  /** If keys tie in a compared field, some catalog that is equal up to key order fails in every mode. */
  lemma TiedCatalogFails(base: Catalog, fields: seq<Str>, all: bool, o: Orders) returns (head: Catalog)
    requires WfCatalog(base) && Preorder(o.names) && !TieFreeCatalog(base, fields, o)
    ensures WfCatalog(head) && CatalogsCoincide(base, head, fields, SameValue())
    ensures AllModesFail(ReportOf(base, head, fields, all, o).summary)
  {
    var name, r, field := FindTiedField(base, fields, o);
    var p := base.at[name];
    assert WfProvider(p) && WfModel(ModelAt(p, r)) && Wf(FieldOf(ModelAt(p, r), field));
    hide *;
    TiedIs(base, name, r, field, o);
    var value := TieShows(FieldOf(ModelAt(p, r), field), o.names);
    var q := ProviderWith(p, r, field, value);
    ProviderKept(p, r, field, value, fields);
    CatalogKept(base, name, q, fields);
    TextShows(p, r, field, value, fields, o);
    head := WithValue(base, name, q);
    VerdictByText(base, head, fields, all, o);
    FailsEverywhere(ReportOf(base, head, fields, all, o).summary, base, head, name, fields, SameText(o));
  }

  lemma TiedIs(base: Catalog, name: Str, r: Route, field: Str, o: Orders)
    requires TiedField(base, name, r, field, o)
    ensures name in base.at && Has(base.at[name], r)
    ensures !TieFree(FieldOf(ModelAt(base.at[name], r), field), o.names)
  {
  }

  lemma FailsEverywhere(s: Summary, base: Catalog, head: Catalog, name: Str, fields: seq<Str>, eq: Alike)
    requires Verdict(s, base, head, fields, eq) && name in base.at && name in head.at
    requires !SharedCoincide(base.at[name], head.at[name], fields, eq)
    ensures AllModesFail(s)
  {
    hide SharedCoincide, ShouldFail;
    assert ProviderOf(base, name) == base.at[name] && ProviderOf(head, name) == head.at[name];
    assert !ProvidersCoincide(base.at[name], head.at[name], fields, eq);
    assert !CatalogsCoincide(base, head, fields, eq);
    hide ProvidersCoincide, CatalogsCoincide, ProviderOf;
  }

  /** Catalogs that coincide pass in every mode, if the verdict is exact. */
  lemma CoincidePasses(s: Summary, base: Catalog, head: Catalog, fields: seq<Str>, eq: Alike, mode: FailOn)
    requires Verdict(s, base, head, fields, eq) && CatalogsCoincide(base, head, fields, eq)
    ensures !ShouldFail(s, mode)
  {
    forall name
      ensures ProvidersCoincide(ProviderOf(base, name), ProviderOf(head, name), fields, eq)
      ensures SharedCoincide(ProviderOf(base, name), ProviderOf(head, name), fields, eq)
    {
      if name !in base.at {
        assert name !in base.at.Keys && name !in head.at.Keys;
        AbsentCoincide(base, head, name, fields, eq);
      } else {
        assert name in base.at.Keys && name in head.at.Keys;
        hide SharedCoincide;
      }
    }
    hide ProvidersCoincide, SharedCoincide, CatalogsCoincide, ProviderOf;
    if mode == NoChange {
      assert !ShouldFail(s, NoChange);
    }
  }

  ghost predicate NoFalseAlarm(base: Catalog, fields: seq<Str>, all: bool, o: Orders, mode: FailOn) {
    forall head :: WfCatalog(head) && CatalogsCoincide(base, head, fields, SameValue())
      ==> !ShouldFail(ReportOf(base, head, fields, all, o).summary, mode)
  }

  ghost predicate AlwaysExact(base: Catalog, fields: seq<Str>, all: bool, o: Orders) {
    forall head :: WfCatalog(head)
      ==> Verdict(ReportOf(base, head, fields, all, o).summary, base, head, fields, SameValue())
  }

  /**
   The verdict on a catalog is exact against every other, and no equal catalog fails in a given mode, if
   and only if no keys tie in its compared fields.
   */
  lemma VerdictExactly(base: Catalog, fields: seq<Str>, all: bool, o: Orders, mode: FailOn)
    requires WfCatalog(base) && Preorder(o.names) && mode != NoChange
    ensures NoFalseAlarm(base, fields, all, o, mode) <==> TieFreeCatalog(base, fields, o)
    ensures AlwaysExact(base, fields, all, o) <==> TieFreeCatalog(base, fields, o)
  {
    hide WfCatalog, TieFreeCatalog, Preorder, CatalogsCoincide, ReportOf, ShouldFail, Verdict;
    if TieFreeCatalog(base, fields, o) {
      forall head | WfCatalog(head)
        ensures Verdict(ReportOf(base, head, fields, all, o).summary, base, head, fields, SameValue())
      {
        VerdictIsExact(base, head, fields, all, o);
      }
      forall head | WfCatalog(head) && CatalogsCoincide(base, head, fields, SameValue())
        ensures !ShouldFail(ReportOf(base, head, fields, all, o).summary, mode)
      {
        CoincidePasses(ReportOf(base, head, fields, all, o).summary, base, head, fields, SameValue(), mode);
      }
    } else {
      var head := TiedCatalogFails(base, fields, all, o);
      if AlwaysExact(base, fields, all, o) {
        CoincidePasses(ReportOf(base, head, fields, all, o).summary, base, head, fields, SameValue(), mode);
      }
    }
  }
}
