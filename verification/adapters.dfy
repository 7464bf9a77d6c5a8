/**
 * The entity translation engine: one generic adapter, parameterised by the
 * entity's table name, its declared translatable fields and the way its
 * grouping loop copies rows. The five services instantiate it once each.
 */
module Adapters {
  import opened Results
  import opened Languages
  import opened Overlay

  datatype Adapter = Adapter(table: string, fields: seq<string>, style: GroupStyle)
  {
    function FieldSet(): set<string>
    {
      set f | f in fields
    }
  }

  /** Adds `field := value` when the DTO defines it (`value !== undefined`). */
  function Put(m: map<string, string>, field: string, value: Option<string>): map<string, string>
  {
    if value.Some? then m[field := value.value] else m
  }

  /** Fan-out on create: every language gets a row per field. */
  function OnCreate(a: Adapter, s: Store, langs: Registry, rowId: int, values: map<string, string>): Store
    requires values.Keys == a.FieldSet()
  {
    FanOut(s, langs, a.table, rowId, values)
  }

  /** Partial update: only the declared fields the DTO defines, for one language. */
  function OnUpdate(a: Adapter, s: Store, rowId: int, langId: int, dto: map<string, string>): Store
  {
    Upsert(s, a.table, rowId, langId, Restrict(dto, a.fields))
  }

  /** Delete every row of the entity, in every language. */
  function OnDelete(a: Adapter, s: Store, rowId: int): Store
  {
    DeleteRow(s, a.table, rowId)
  }

  /**
   * `remove` of a record with translations: NotFound for an unknown id;
   * otherwise the record is deleted with every overlay row it owns, in
   * every language, and the deleted record is returned.
   */
  function RemoveRecord<T>(a: Adapter, records: map<int, T>, s: Store, id: int): (r: Result<(map<int, T>, Store, T)>)
    ensures r.Err? <==> id !in records
    ensures r.Err? ==> r.error == NotFound
    ensures r.Ok? ==>
      && r.value.2 == records[id]
      && r.value.0 == records - {id}
      && (forall k :: k in r.value.1 <==> k in s && !OfRow(k, a.table, id))
      && (forall k :: k in r.value.1 ==> r.value.1[k] == s[k])
  {
    if id !in records then Err(NotFound)
    else Ok((records - {id}, OnDelete(a, s, id), records[id]))
  }

  /** The single-language `translated` object. */
  function ProjectOne(a: Adapter, s: Store, rowId: int, langId: int): map<string, string>
  {
    Project(s, a.table, rowId, langId, a.fields)
  }

  /** The all-language `translations` object. */
  function ProjectAll(a: Adapter, s: Store, langs: Registry, rowId: int): Grouping
  {
    Group(s, langs, a.table, rowId, a.fields, a.style)
  }

  /** No row of the entity `(table, rowId)` exists yet. */
  predicate NoRows(s: Store, table: string, rowId: int)
  {
    forall k :: k in s ==> !OfRow(k, table, rowId)
  }

  /** Every row of `table` carries one of the declared fields. */
  predicate Confined(s: Store, table: string, fields: seq<string>)
  {
    forall k :: k in s && k.table == table ==> k.field in fields
  }

  // ---------------------------------------------------------------
  // Fan-out
  // ---------------------------------------------------------------

  /**
   * Fan-out completeness: right after a fresh entity is created, every
   * registered language projects exactly the creation values.
   */
  lemma FanOutComplete(a: Adapter, s: Store, langs: Registry, rowId: int, values: map<string, string>)
    requires values.Keys == a.FieldSet()
    requires NoRows(s, a.table, rowId)
    ensures forall l :: l in langs ==> ProjectOne(a, OnCreate(a, s, langs, rowId, values), rowId, l.id) == values
  {
    var r := OnCreate(a, s, langs, rowId, values);
    forall l | l in langs ensures ProjectOne(a, r, rowId, l.id) == values {
      var p := ProjectOne(a, r, rowId, l.id);
      forall f | f in p ensures p[f] == values[f] {
        var k := Key(a.table, rowId, f, l.id);
        assert k in r && k !in s;
      }
      MapsEqual(p, values);
    }
  }

  /** With no registered language the fan-out writes nothing. */
  lemma FanOutWithoutLanguages(a: Adapter, s: Store, rowId: int, values: map<string, string>)
    requires values.Keys == a.FieldSet()
    ensures OnCreate(a, s, [], rowId, values) == s
  {
    MapsEqual(OnCreate(a, s, [], rowId, values), s);
  }

  /** Fan-out touches no other entity: their rows are exactly as before. */
  lemma FanOutIsolation(a: Adapter, s: Store, langs: Registry, rowId: int, values: map<string, string>, table: string, other: int)
    requires values.Keys == a.FieldSet()
    requires table != a.table || other != rowId
    ensures RowsOf(OnCreate(a, s, langs, rowId, values), table, other) == RowsOf(s, table, other)
  {
    MapsEqual(RowsOf(OnCreate(a, s, langs, rowId, values), table, other), RowsOf(s, table, other));
  }

  // ---------------------------------------------------------------
  // Partial update
  // ---------------------------------------------------------------

  /**
   * Partial update: the language's projection becomes the old projection
   * overridden by exactly the defined declared fields.
   */
  lemma PartialUpdate(a: Adapter, s: Store, rowId: int, langId: int, dto: map<string, string>)
    ensures ProjectOne(a, OnUpdate(a, s, rowId, langId, dto), rowId, langId) ==
      ProjectOne(a, s, rowId, langId) + Restrict(dto, a.fields)
  {
    var r := OnUpdate(a, s, rowId, langId, dto);
    MapsEqual(ProjectOne(a, r, rowId, langId), ProjectOne(a, s, rowId, langId) + Restrict(dto, a.fields));
  }

  /** Updating one language leaves every other language's projection unchanged. */
  lemma UpdateLanguageIsolation(a: Adapter, s: Store, rowId: int, langId: int, dto: map<string, string>)
    ensures forall other :: other != langId ==>
      ProjectOne(a, OnUpdate(a, s, rowId, langId, dto), rowId, other) == ProjectOne(a, s, rowId, other)
  {
    forall other | other != langId
      ensures ProjectOne(a, OnUpdate(a, s, rowId, langId, dto), rowId, other) == ProjectOne(a, s, rowId, other)
    {
      MapsEqual(ProjectOne(a, OnUpdate(a, s, rowId, langId, dto), rowId, other), ProjectOne(a, s, rowId, other));
    }
  }

  /** A DTO holding only declared fields passes the restriction unchanged. */
  lemma RestrictDeclared(a: Adapter, dto: map<string, string>)
    requires dto.Keys <= a.FieldSet()
    ensures Restrict(dto, a.fields) == dto
  {
    forall f | f in dto ensures f in a.fields {
      assert f in a.FieldSet();
    }
    MapsEqual(Restrict(dto, a.fields), dto);
  }

  /** Updating one entity leaves the rows of every other entity and table unchanged. */
  lemma UpdateRowIsolation(a: Adapter, s: Store, rowId: int, langId: int, dto: map<string, string>, table: string, other: int)
    requires table != a.table || other != rowId
    ensures RowsOf(OnUpdate(a, s, rowId, langId, dto), table, other) == RowsOf(s, table, other)
  {
    MapsEqual(RowsOf(OnUpdate(a, s, rowId, langId, dto), table, other), RowsOf(s, table, other));
  }

  /**
   * Two updates of the same entity and language: when the second defines
   * every field the first does, the second wins outright. With equal DTOs
   * this is idempotence.
   */
  lemma UpdateLastWins(a: Adapter, s: Store, rowId: int, langId: int, first: map<string, string>, second: map<string, string>)
    requires Restrict(first, a.fields).Keys <= Restrict(second, a.fields).Keys
    ensures OnUpdate(a, OnUpdate(a, s, rowId, langId, first), rowId, langId, second) == OnUpdate(a, s, rowId, langId, second)
  {
    MapsEqual(OnUpdate(a, OnUpdate(a, s, rowId, langId, first), rowId, langId, second), OnUpdate(a, s, rowId, langId, second));
  }

  // ---------------------------------------------------------------
  // Delete
  // ---------------------------------------------------------------

  /** After delete nothing of the entity remains: no language entry, every field `''`. */
  lemma DeleteLeavesNothing(a: Adapter, s: Store, langs: Registry, rowId: int, langId: int)
    ensures ProjectAll(a, OnDelete(a, s, rowId), langs, rowId) == map[]
    ensures ProjectOne(a, OnDelete(a, s, rowId), rowId, langId) == Defaults(a.fields)
  {
    var r := OnDelete(a, s, rowId);
    MapsEqual(RowsOf(r, a.table, rowId), map[]);
    SetsEqual(CodesWithRows(map[], langs), {});
    MapsEqual(ProjectAll(a, r, langs, rowId), map[]);
    MapsEqual(ProjectOne(a, r, rowId, langId), Defaults(a.fields));
  }

  /** Delete leaves the rows of every other entity and table unchanged. */
  lemma DeleteIsolation(a: Adapter, s: Store, rowId: int, table: string, other: int)
    requires table != a.table || other != rowId
    ensures RowsOf(OnDelete(a, s, rowId), table, other) == RowsOf(s, table, other)
  {
    MapsEqual(RowsOf(OnDelete(a, s, rowId), table, other), RowsOf(s, table, other));
  }

  // ---------------------------------------------------------------
  // The two projections agree
  // ---------------------------------------------------------------

  /**
   * A registered language has an entry in the all-language view exactly when
   * the entity has a row in it, and that entry carries the single-language
   * projection's content for every declared field.
   */
  lemma ProjectionsAgree(a: Adapter, s: Store, langs: Registry, rowId: int, l: Language)
    requires WellFormed(langs) && l in langs
    ensures l.code in ProjectAll(a, s, langs, rowId) <==> exists k :: k in s && OfRow(k, a.table, rowId) && k.langId == l.id
    ensures l.code in ProjectAll(a, s, langs, rowId) ==>
      forall f :: f in a.fields ==> ProjectAll(a, s, langs, rowId)[l.code][f] == ProjectOne(a, s, rowId, l.id)[f]
  {
    var rows := RowsOf(s, a.table, rowId);
    InCodesIffRows(rows, langs, l);
    if HasRowsIn(rows, l.id) {
      var k :| k in rows && k.langId == l.id;
      assert k in s && OfRow(k, a.table, rowId);
    }
    if exists k :: k in s && OfRow(k, a.table, rowId) && k.langId == l.id {
      var k :| k in s && OfRow(k, a.table, rowId) && k.langId == l.id;
      assert k in rows;
    }
    var found := FindByCode(langs, l.code).value;
    CodeDeterminesLanguage(langs, l, found);
  }

  /**
   * Under confinement (every row of the table carries a declared field) the
   * two grouping styles build the same view.
   */
  lemma StylesAgree(a: Adapter, s: Store, langs: Registry, rowId: int)
    requires Confined(s, a.table, a.fields)
    ensures Group(s, langs, a.table, rowId, a.fields, AnyField) == Group(s, langs, a.table, rowId, a.fields, DeclaredFields)
  {
    var rows := RowsOf(s, a.table, rowId);
    var g1 := Group(s, langs, a.table, rowId, a.fields, AnyField);
    var g2 := Group(s, langs, a.table, rowId, a.fields, DeclaredFields);
    forall c | c in g1 ensures g1[c] == g2[c] {
      var id := FindByCode(langs, c).value.id;
      SetsEqual(EntryFields(rows, id, a.fields, AnyField), EntryFields(rows, id, a.fields, DeclaredFields));
    }
    MapsEqual(g1, g2);
  }

  /** Create, update and delete keep the table confined to its declared fields. */
  lemma ConfinementPreserved(a: Adapter, s: Store, langs: Registry, rowId: int, langId: int, values: map<string, string>, dto: map<string, string>)
    requires values.Keys == a.FieldSet()
    requires Confined(s, a.table, a.fields)
    ensures Confined(OnCreate(a, s, langs, rowId, values), a.table, a.fields)
    ensures Confined(OnUpdate(a, s, rowId, langId, dto), a.table, a.fields)
    ensures Confined(OnDelete(a, s, rowId), a.table, a.fields)
  {
  }
}
