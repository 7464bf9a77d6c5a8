/**
 * The dynamic translation overlay: one store of per-field, per-language text
 * keyed by `(tableName, rowId, field, languageId)`. Because the store is a
 * map, the compound key `tableName_rowId_field_languageId` is unique by
 * construction.
 *
 * The functions below give each store operation a declarative meaning; the
 * methods follow the loops the services actually run (createMany over a
 * flat-mapped row list, the per-field upsert loop, the group-by-language
 * loop) and are proved to compute exactly those functions.
 */
module Overlay {
  import opened Results
  import opened Languages

  datatype Key = Key(table: string, rowId: int, field: string, langId: int)

  /** One row's text per key: the `dynamicTranslation` table. */
  type Store = map<Key, string>

  /** The key belongs to the entity row `(table, rowId)`. */
  predicate OfRow(k: Key, table: string, rowId: int)
  {
    k.table == table && k.rowId == rowId
  }

  /** `translations.find(t => t.field === f)?.content || ''`. */
  function Content(s: Store, k: Key): string
  {
    if k in s then s[k] else ""
  }

  // ---------------------------------------------------------------
  // Fan-out on create: createMany(..., skipDuplicates: true)
  // ---------------------------------------------------------------

  /** The keys one language contributes: one per field. */
  function LangKeys(table: string, rowId: int, langId: int, fields: seq<string>): set<Key>
  {
    set f | f in fields :: Key(table, rowId, f, langId)
  }

  /** The keys the fan-out targets: one per registered language and field. */
  function FanOutKeys(langs: Registry, table: string, rowId: int, fields: set<string>): set<Key>
  {
    set l, f | l in langs && f in fields :: Key(table, rowId, f, l.id)
  }

  /** Inserts every key of `keys` that is absent, with its field's content. */
  function FillAbsent(s: Store, keys: set<Key>, values: map<string, string>): Store
    requires forall k :: k in keys ==> k.field in values
  {
    map k | k in s.Keys + keys :: if k in s then s[k] else values[k.field]
  }

  /**
   * Fan-out: for every registered language and every field of `values`, a
   * row holding that field's content, unless the key already exists.
   */
  function FanOut(s: Store, langs: Registry, table: string, rowId: int, values: map<string, string>): (r: Store)
    ensures forall k :: k in s ==> k in r && r[k] == s[k]
    ensures forall l, f :: l in langs && f in values ==> Key(table, rowId, f, l.id) in r
    ensures forall k :: k in r && k !in s ==>
      OfRow(k, table, rowId) && k.field in values && k.langId in Ids(langs) && r[k] == values[k.field]
  {
    FillAbsent(s, FanOutKeys(langs, table, rowId, values.Keys), values)
  }

  lemma FillAbsentStep(s: Store, keys: set<Key>, k: Key, values: map<string, string>)
    requires forall x :: x in keys ==> x.field in values
    requires k.field in values
    ensures FillAbsent(s, keys + {k}, values) ==
      var r := FillAbsent(s, keys, values);
      if k in r then r else r[k := values[k.field]]
  {
    var r := FillAbsent(s, keys, values);
    var r' := if k in r then r else r[k := values[k.field]];
    MapsEqual(FillAbsent(s, keys + {k}, values), r');
  }

  /**
   * The source's fan-out: the row list `languages.flatMap(lang => fields.map(...))`
   * handed to createMany with skipDuplicates, which inserts each row whose
   * key is still absent. Returns the store unchanged when no language exists.
   */
  method CreateMany(s: Store, langs: Registry, table: string, rowId: int, fields: seq<string>, values: map<string, string>)
    returns (r: Store)
    requires values.Keys == set f | f in fields
    ensures r == FanOut(s, langs, table, rowId, values)
  {
    if |langs| == 0 {
      assert FanOutKeys(langs, table, rowId, values.Keys) == {};
      MapsEqual(s, FanOut(s, langs, table, rowId, values));
      return s;
    }
    r := s;
    SetsEqual(FanOutKeys(langs[..0], table, rowId, values.Keys), {});
    MapsEqual(r, FillAbsent(s, {}, values));
    for i := 0 to |langs|
      invariant r == FillAbsent(s, FanOutKeys(langs[..i], table, rowId, values.Keys), values)
    {
      r := CreateForLanguage(s, r, FanOutKeys(langs[..i], table, rowId, values.Keys), table, rowId, langs[i].id, fields, values);
      FanOutKeysStep(langs, i, table, rowId, fields, values.Keys);
    }
    assert langs[..|langs|] == langs;
  }

  /** The inner loop of the fan-out: the rows of one language, one per field. */
  method CreateForLanguage(s: Store, r0: Store, done: set<Key>, table: string, rowId: int, id: int, fields: seq<string>,
                           values: map<string, string>) returns (r: Store)
    requires values.Keys == set f | f in fields
    requires forall x :: x in done ==> x.field in values
    requires r0 == FillAbsent(s, done, values)
    ensures r == FillAbsent(s, done + LangKeys(table, rowId, id, fields), values)
  {
    r := r0;
    SetsEqual(LangKeys(table, rowId, id, fields[..0]), {});
    assert done + LangKeys(table, rowId, id, fields[..0]) == done;
    for j := 0 to |fields|
      invariant r == FillAbsent(s, done + LangKeys(table, rowId, id, fields[..j]), values)
    {
      var k := Key(table, rowId, fields[j], id);
      FillAbsentStep(s, done + LangKeys(table, rowId, id, fields[..j]), k, values);
      SetsEqual(LangKeys(table, rowId, id, fields[..j + 1]), LangKeys(table, rowId, id, fields[..j]) + {k});
      assert done + LangKeys(table, rowId, id, fields[..j]) + {k} == done + LangKeys(table, rowId, id, fields[..j + 1]);
      if k !in r {
        r := r[k := values[fields[j]]];
      }
    }
    assert fields[..|fields|] == fields;
  }

  lemma FanOutKeysStep(langs: Registry, i: int, table: string, rowId: int, fields: seq<string>, names: set<string>)
    requires 0 <= i < |langs|
    requires names == set f | f in fields
    ensures FanOutKeys(langs[..i + 1], table, rowId, names) ==
      FanOutKeys(langs[..i], table, rowId, names) + LangKeys(table, rowId, langs[i].id, fields)
  {
    var a := FanOutKeys(langs[..i + 1], table, rowId, names);
    var b := FanOutKeys(langs[..i], table, rowId, names) + LangKeys(table, rowId, langs[i].id, fields);
    assert langs[..i + 1][i] == langs[i];
    forall k ensures k in a <==> k in b {
      if k in a {
        var l, f :| l in langs[..i + 1] && f in names && k == Key(table, rowId, f, l.id);
        var n :| 0 <= n < i + 1 && langs[..i + 1][n] == l;
        if n < i {
          assert langs[..i][n] == l;
          assert k in FanOutKeys(langs[..i], table, rowId, names);
        } else {
          assert f in fields;
          assert k in LangKeys(table, rowId, langs[i].id, fields);
        }
      }
      if k in FanOutKeys(langs[..i], table, rowId, names) {
        var l, f :| l in langs[..i] && f in names && k == Key(table, rowId, f, l.id);
        var n :| 0 <= n < i && langs[..i][n] == l;
        assert langs[..i + 1][n] == l;
        assert k in a;
      }
      if k in LangKeys(table, rowId, langs[i].id, fields) {
        var f :| f in fields && k == Key(table, rowId, f, langs[i].id);
        assert f in names;
        assert k in a;
      }
    }
    SetsEqual(a, b);
  }

  // ---------------------------------------------------------------
  // Partial upsert on update
  // ---------------------------------------------------------------

  /** The key targeted when updating `field` of one entity row in one language. */
  predicate Targeted(k: Key, table: string, rowId: int, langId: int, values: map<string, string>)
  {
    OfRow(k, table, rowId) && k.langId == langId && k.field in values
  }

  /**
   * Upsert on the compound key: for each field of `values`, the row of this
   * entity and language ends up holding the new content, whether or not it
   * existed before.
   */
  function Upsert(s: Store, table: string, rowId: int, langId: int, values: map<string, string>): (r: Store)
    ensures forall f :: f in values ==> Key(table, rowId, f, langId) in r && r[Key(table, rowId, f, langId)] == values[f]
    ensures forall k :: k in s && !Targeted(k, table, rowId, langId, values) ==> k in r && r[k] == s[k]
    ensures forall k :: k in r ==> k in s || Targeted(k, table, rowId, langId, values)
  {
    map k | k in s.Keys + (set f | f in values :: Key(table, rowId, f, langId)) ::
      if Targeted(k, table, rowId, langId, values) then values[k.field] else s[k]
  }

  /** The defined entries of an update DTO that belong to the declared fields. */
  function Restrict(dto: map<string, string>, fields: seq<string>): map<string, string>
  {
    map f | f in dto && f in fields :: dto[f]
  }

  lemma UpsertStep(s: Store, table: string, rowId: int, langId: int, values: map<string, string>, f: string, v: string)
    ensures Upsert(s, table, rowId, langId, values)[Key(table, rowId, f, langId) := v] ==
      Upsert(s, table, rowId, langId, values[f := v])
  {
    MapsEqual(Upsert(s, table, rowId, langId, values)[Key(table, rowId, f, langId) := v],
      Upsert(s, table, rowId, langId, values[f := v]));
  }

  /**
   * The source's update loop: for each declared field whose DTO value is
   * defined, one upsert of that field for the resolved language.
   */
  method UpsertEach(s: Store, table: string, rowId: int, langId: int, fields: seq<string>, dto: map<string, string>)
    returns (r: Store)
    ensures r == Upsert(s, table, rowId, langId, Restrict(dto, fields))
  {
    r := s;
    MapsEqual(Restrict(dto, fields[..0]), map[]);
    MapsEqual(s, Upsert(s, table, rowId, langId, map[]));
    for i := 0 to |fields|
      invariant r == Upsert(s, table, rowId, langId, Restrict(dto, fields[..i]))
    {
      var f := fields[i];
      if f in dto {
        UpsertStep(s, table, rowId, langId, Restrict(dto, fields[..i]), f, dto[f]);
        MapsEqual(Restrict(dto, fields[..i])[f := dto[f]], Restrict(dto, fields[..i + 1]));
        r := r[Key(table, rowId, f, langId) := dto[f]];
      } else {
        MapsEqual(Restrict(dto, fields[..i]), Restrict(dto, fields[..i + 1]));
      }
    }
    assert fields[..|fields|] == fields;
  }

  // ---------------------------------------------------------------
  // Delete every row of one entity
  // ---------------------------------------------------------------

  /** `deleteMany({ where: { tableName, rowId } })`: every language and field. */
  function DeleteRow(s: Store, table: string, rowId: int): (r: Store)
    ensures forall k :: k in r <==> k in s && !OfRow(k, table, rowId)
    ensures forall k :: k in r ==> r[k] == s[k]
  {
    map k | k in s && !OfRow(k, table, rowId) :: s[k]
  }

  // ---------------------------------------------------------------
  // Projections
  // ---------------------------------------------------------------

  /** The `translated` object: each declared field's content, `''` when missing. */
  function Project(s: Store, table: string, rowId: int, langId: int, fields: seq<string>): map<string, string>
  {
    map f | f in fields :: Content(s, Key(table, rowId, f, langId))
  }

  /** How the grouping loop copies a row into its language entry. */
  datatype GroupStyle =
    | DeclaredFields   // only rows whose field is declared (`if (t.field === 'name') ...`)
    | AnyField         // every row (`grouped[lang][t.field] = t.content`)

  /** Language code to field to content: the `translations` object. */
  type Grouping = map<string, map<string, string>>

  /** The rows `findMany({ where: { tableName, rowId } })` returns. */
  function RowsOf(s: Store, table: string, rowId: int): Store
  {
    map k | k in s && OfRow(k, table, rowId) :: s[k]
  }

  predicate HasRowsIn(rows: Store, langId: int)
  {
    exists k :: k in rows && k.langId == langId
  }

  /** Codes of registered languages for which at least one row exists. */
  function CodesWithRows(rows: Store, langs: Registry): set<string>
  {
    set l | l in langs && HasRowsIn(rows, l.id) :: l.code
  }

  /** The fields a language entry carries. */
  function EntryFields(rows: Store, langId: int, fields: seq<string>, style: GroupStyle): set<string>
  {
    (set f | f in fields) +
    (if style.AnyField? then (set k | k in rows && k.langId == langId :: k.field) else {})
  }

  /** A language entry: every declared field defaults to `''`, stored rows overwrite. */
  function Entry(rows: Store, table: string, rowId: int, langId: int, fields: seq<string>, style: GroupStyle): map<string, string>
  {
    map f | f in EntryFields(rows, langId, fields, style) :: Content(rows, Key(table, rowId, f, langId))
  }

  /** The entry a language starts with: every declared field `''`. */
  function Defaults(fields: seq<string>): map<string, string>
  {
    map f | f in fields :: ""
  }

  /** Groups the rows of one entity by language code. */
  function GroupOf(rows: Store, langs: Registry, table: string, rowId: int, fields: seq<string>, style: GroupStyle): Grouping
  {
    map c | c in CodesWithRows(rows, langs) :: Entry(rows, table, rowId, FindByCode(langs, c).value.id, fields, style)
  }

  /** The all-language view of the entity `(table, rowId)`. */
  function Group(s: Store, langs: Registry, table: string, rowId: int, fields: seq<string>, style: GroupStyle): Grouping
  {
    GroupOf(RowsOf(s, table, rowId), langs, table, rowId, fields, style)
  }

  /** The rows of `s` at the keys listed so far. */
  function Seen(s: Store, ks: seq<Key>): Store
  {
    map k | k in ks && k in s :: s[k]
  }

  /** `ks` lists exactly the rows of the entity `(table, rowId)`, in some order. */
  predicate ListsRow(ks: seq<Key>, s: Store, table: string, rowId: int)
  {
    && (forall i :: 0 <= i < |ks| ==> ks[i] in s && OfRow(ks[i], table, rowId))
    && (forall k :: k in s && OfRow(k, table, rowId) ==> k in ks)
  }

  predicate AllOfRow(rows: Store, table: string, rowId: int)
  {
    forall k :: k in rows ==> OfRow(k, table, rowId)
  }

  lemma EntryWithoutRows(rows: Store, table: string, rowId: int, langId: int, fields: seq<string>, style: GroupStyle)
    requires !HasRowsIn(rows, langId)
    ensures Entry(rows, table, rowId, langId, fields, style) == Defaults(fields)
  {
    var e := Entry(rows, table, rowId, langId, fields, style);
    if style.AnyField? {
      SetsEqual(set k | k in rows && k.langId == langId :: k.field, {});
    }
    forall f | f in e ensures e[f] == "" {
      assert Key(table, rowId, f, langId) !in rows;
    }
    MapsEqual(e, Defaults(fields));
  }

  lemma EntryOtherLanguage(rows: Store, table: string, rowId: int, t: Key, v: string, langId: int, fields: seq<string>, style: GroupStyle)
    requires t.langId != langId
    ensures Entry(rows[t := v], table, rowId, langId, fields, style) == Entry(rows, table, rowId, langId, fields, style)
  {
    var a := Entry(rows[t := v], table, rowId, langId, fields, style);
    var b := Entry(rows, table, rowId, langId, fields, style);
    if style.AnyField? {
      SetsEqual(set k | k in rows[t := v] && k.langId == langId :: k.field, set k | k in rows && k.langId == langId :: k.field);
    }
    assert EntryFields(rows[t := v], langId, fields, style) == EntryFields(rows, langId, fields, style);
    MapsEqual(a, b);
  }

  lemma EntrySameLanguage(rows: Store, table: string, rowId: int, t: Key, v: string, fields: seq<string>, style: GroupStyle)
    requires OfRow(t, table, rowId)
    requires AllOfRow(rows, table, rowId)
    ensures Entry(rows[t := v], table, rowId, t.langId, fields, style) ==
      var e := Entry(rows, table, rowId, t.langId, fields, style);
      if style.AnyField? || t.field in fields then e[t.field := v] else e
  {
    var id := t.langId;
    var e := Entry(rows, table, rowId, id, fields, style);
    var a := Entry(rows[t := v], table, rowId, id, fields, style);
    var b := if style.AnyField? || t.field in fields then e[t.field := v] else e;
    assert t == Key(table, rowId, t.field, id);
    if style.AnyField? {
      var extra := set k | k in rows && k.langId == id :: k.field;
      var extra' := set k | k in rows[t := v] && k.langId == id :: k.field;
      SetsEqual(extra', extra + {t.field});
    }
    forall f | f in a ensures f in b && a[f] == b[f] {
      if f != t.field {
        assert Key(table, rowId, f, id) != t;
      }
    }
    MapsEqual(a, b);
  }

  lemma CodesStep(rows: Store, langs: Registry, t: Key, v: string, l: Language)
    requires WellFormed(langs) && l in langs && l.id == t.langId
    ensures CodesWithRows(rows[t := v], langs) == CodesWithRows(rows, langs) + {l.code}
  {
    var a := CodesWithRows(rows[t := v], langs);
    var b := CodesWithRows(rows, langs) + {l.code};
    assert HasRowsIn(rows[t := v], l.id) by { assert t in rows[t := v]; }
    assert l.code in a;
    forall c ensures c in a <==> c in b {
      if c in a {
        var l' :| l' in langs && HasRowsIn(rows[t := v], l'.id) && l'.code == c;
        if l'.id != t.langId {
          var k :| k in rows[t := v] && k.langId == l'.id;
          assert k in rows;
          assert HasRowsIn(rows, l'.id);
        } else {
          IdDeterminesLanguage(langs, l, l');
        }
      }
      if c in CodesWithRows(rows, langs) {
        var l' :| l' in langs && HasRowsIn(rows, l'.id) && l'.code == c;
        var k :| k in rows && k.langId == l'.id;
        assert k in rows[t := v];
        assert HasRowsIn(rows[t := v], l'.id);
      }
    }
    SetsEqual(a, b);
  }

  lemma CodesUnregistered(rows: Store, langs: Registry, t: Key, v: string)
    requires FindById(langs, t.langId).None?
    ensures CodesWithRows(rows[t := v], langs) == CodesWithRows(rows, langs)
  {
    var a := CodesWithRows(rows[t := v], langs);
    var b := CodesWithRows(rows, langs);
    forall c ensures c in a <==> c in b {
      if c in a {
        var l' :| l' in langs && HasRowsIn(rows[t := v], l'.id) && l'.code == c;
        var k :| k in rows[t := v] && k.langId == l'.id;
        assert k in rows;
      }
      if c in b {
        var l' :| l' in langs && HasRowsIn(rows, l'.id) && l'.code == c;
        var k :| k in rows && k.langId == l'.id;
        assert k in rows[t := v];
      }
    }
    SetsEqual(a, b);
  }

  lemma InCodesIffRows(rows: Store, langs: Registry, l: Language)
    requires WellFormed(langs) && l in langs
    ensures l.code in CodesWithRows(rows, langs) <==> HasRowsIn(rows, l.id)
  {
    if l.code in CodesWithRows(rows, langs) {
      var l' :| l' in langs && HasRowsIn(rows, l'.id) && l'.code == l.code;
      CodeDeterminesLanguage(langs, l, l');
    }
  }

  /** One step of the grouping loop on a row whose language is not registered. */
  lemma GroupSkip(rows: Store, langs: Registry, table: string, rowId: int, t: Key, v: string, fields: seq<string>, style: GroupStyle)
    requires FindById(langs, t.langId).None?
    ensures GroupOf(rows[t := v], langs, table, rowId, fields, style) == GroupOf(rows, langs, table, rowId, fields, style)
  {
    var a := GroupOf(rows[t := v], langs, table, rowId, fields, style);
    var b := GroupOf(rows, langs, table, rowId, fields, style);
    CodesUnregistered(rows, langs, t, v);
    forall c | c in a ensures a[c] == b[c] {
      var id := FindByCode(langs, c).value.id;
      assert id != t.langId;
      EntryOtherLanguage(rows, table, rowId, t, v, id, fields, style);
    }
    MapsEqual(a, b);
  }

  /** One step of the grouping loop on a row of the registered language `l`. */
  lemma GroupAdd(rows: Store, langs: Registry, table: string, rowId: int, t: Key, v: string, l: Language, fields: seq<string>, style: GroupStyle)
    requires WellFormed(langs) && l in langs && l.id == t.langId
    requires OfRow(t, table, rowId) && AllOfRow(rows, table, rowId)
    ensures
      var g := GroupOf(rows, langs, table, rowId, fields, style);
      var e := if l.code in g then g[l.code] else Defaults(fields);
      GroupOf(rows[t := v], langs, table, rowId, fields, style) ==
        g[l.code := if style.AnyField? || t.field in fields then e[t.field := v] else e]
  {
    var g := GroupOf(rows, langs, table, rowId, fields, style);
    var e := if l.code in g then g[l.code] else Defaults(fields);
    var a := GroupOf(rows[t := v], langs, table, rowId, fields, style);
    var b := g[l.code := if style.AnyField? || t.field in fields then e[t.field := v] else e];
    CodesStep(rows, langs, t, v, l);
    var found := FindByCode(langs, l.code).value;
    CodeDeterminesLanguage(langs, l, found);
    InCodesIffRows(rows, langs, l);
    if l.code !in g {
      EntryWithoutRows(rows, table, rowId, l.id, fields, style);
    }
    EntrySameLanguage(rows, table, rowId, t, v, fields, style);
    forall c | c in a ensures c in b && a[c] == b[c] {
      if c != l.code {
        var other := FindByCode(langs, c).value;
        CodeDeterminesLanguage(langs, l, other);
        IdDeterminesLanguage(langs, l, other);
        EntryOtherLanguage(rows, table, rowId, t, v, other.id, fields, style);
      }
    }
    MapsEqual(a, b);
  }

  /**
   * The source's grouping loop over the rows of one entity, in whatever
   * order the store lists them: the first row of a language creates its
   * entry with every declared field `''`, and each row then writes its
   * content. The result does not depend on the listing order.
   */
  method GroupLoop(s: Store, langs: Registry, table: string, rowId: int, fields: seq<string>, style: GroupStyle, rows: seq<Key>)
    returns (g: Grouping)
    requires WellFormed(langs)
    requires ListsRow(rows, s, table, rowId)
    ensures g == Group(s, langs, table, rowId, fields, style)
  {
    g := map[];
    MapsEqual(Seen(s, rows[..0]), map[]);
    MapsEqual(g, GroupOf(map[], langs, table, rowId, fields, style));
    for i := 0 to |rows|
      invariant g == GroupOf(Seen(s, rows[..i]), langs, table, rowId, fields, style)
    {
      var t := rows[i];
      ghost var seen := Seen(s, rows[..i]);
      SeenStep(s, rows, i, table, rowId);
      var lang := FindById(langs, t.langId);
      if lang.Some? {
        GroupAdd(seen, langs, table, rowId, t, s[t], lang.value, fields, style);
        var code := lang.value.code;
        var entry := if code in g then g[code] else Defaults(fields);
        if style.AnyField? || t.field in fields {
          entry := entry[t.field := s[t]];
        }
        g := g[code := entry];
      } else {
        GroupSkip(seen, langs, table, rowId, t, s[t], fields, style);
      }
    }
    SeenAll(s, rows, table, rowId);
  }

  lemma SeenStep(s: Store, rows: seq<Key>, i: int, table: string, rowId: int)
    requires ListsRow(rows, s, table, rowId) && 0 <= i < |rows|
    ensures AllOfRow(Seen(s, rows[..i]), table, rowId)
    ensures Seen(s, rows[..i + 1]) == Seen(s, rows[..i])[rows[i] := s[rows[i]]]
  {
    forall k | k in Seen(s, rows[..i]) ensures OfRow(k, table, rowId) {
      var n :| 0 <= n < i && rows[..i][n] == k;
      assert rows[n] == k;
    }
    assert rows[..i + 1] == rows[..i] + [rows[i]];
    MapsEqual(Seen(s, rows[..i + 1]), Seen(s, rows[..i])[rows[i] := s[rows[i]]]);
  }

  lemma SeenAll(s: Store, rows: seq<Key>, table: string, rowId: int)
    requires ListsRow(rows, s, table, rowId)
    ensures Seen(s, rows[..|rows|]) == RowsOf(s, table, rowId)
  {
    assert rows[..|rows|] == rows;
    MapsEqual(Seen(s, rows), RowsOf(s, table, rowId));
  }
}
