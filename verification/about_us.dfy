/**
 * The about-us service: a single record (an image path) plus its `story`,
 * `mission`, `vision` and `values` texts in the translation overlay. Its
 * grouping loop copies every stored row.
 */
module AboutUs {
  import opened Results
  import opened Languages
  import opened Overlay
  import opened Adapters
  import Ordering

  const Table := "AboutUs"
  const Texts := Adapter(Table, ["story", "mission", "vision", "values"], AnyField)

  datatype About = About(id: int, imageUrl: Option<string>)

  datatype Dto = Dto(story: Option<string>, mission: Option<string>, vision: Option<string>, values: Option<string>)

  datatype State = State(records: map<int, About>, overlay: Store)

  /** A record with its all-language `translations` (create and update responses). */
  datatype Detail = Detail(about: About, translations: Grouping)

  /** A record with its single-language `translated` object. */
  datatype View = View(about: About, translated: map<string, string>)

  /**
   * Every record is stored under its own id, every overlay row of the table
   * belongs to an existing record, and there is at most one record.
   */
  predicate Consistent(st: State)
  {
    && (forall id :: id in st.records ==> st.records[id].id == id)
    && (forall k :: k in st.overlay && k.table == Table ==> k.rowId in st.records)
    && |st.records| <= 1
  }

  /** The per-language rows written on create: each of the four texts or `''`. */
  function CreateValues(dto: Dto): (v: map<string, string>)
    ensures v.Keys == Texts.FieldSet()
  {
    map["story" := OrEmpty(dto.story), "mission" := OrEmpty(dto.mission),
        "vision" := OrEmpty(dto.vision), "values" := OrEmpty(dto.values)]
  }

  /** The defined text fields of an update DTO. */
  function UpdateValues(dto: Dto): (v: map<string, string>)
    ensures v.Keys <= Texts.FieldSet()
    ensures "story" in v <==> dto.story.Some?
    ensures "mission" in v <==> dto.mission.Some?
    ensures "vision" in v <==> dto.vision.Some?
    ensures "values" in v <==> dto.values.Some?
    ensures dto.story.Some? ==> v["story"] == dto.story.value
    ensures dto.mission.Some? ==> v["mission"] == dto.mission.value
    ensures dto.vision.Some? ==> v["vision"] == dto.vision.value
    ensures dto.values.Some? ==> v["values"] == dto.values.value
  {
    Put(Put(Put(Put(map[], "story", dto.story), "mission", dto.mission), "vision", dto.vision), "values", dto.values)
  }

  /**
   * `findFirst()` without a filter: the record with the smallest id, or
   * nothing when the table is empty.
   */
  function First(st: State): Option<int>
  {
    Ordering.FirstKey(st.records)
  }

  /**
   * `create`: rejected when any record exists; otherwise the record (the
   * uploaded path wins over `imageUrl`) and the fan-out of its texts.
   */
  function Create(st: State, langs: Registry, dto: Dto, imageUrl: Option<string>, upload: Option<string>, newId: int): (r: Result<(State, Detail)>)
    ensures r.Err? <==> |st.records| > 0
    ensures r.Err? ==> r.error == BadRequest
    ensures r.Ok? ==>
      && r.value.0.records == map[newId := r.value.1.about]
      && r.value.1.about == About(newId, if upload.Some? then upload else imageUrl)
      && (forall k :: k in st.overlay ==> k in r.value.0.overlay && r.value.0.overlay[k] == st.overlay[k])
      && (forall k :: k in r.value.0.overlay && k !in st.overlay ==> OfRow(k, Table, newId))
      && r.value.1.translations == ProjectAll(Texts, r.value.0.overlay, langs, newId)
  {
    if |st.records| > 0 then Err(BadRequest)
    else
      assert st.records == map[] by { MapsEqual(st.records, map[]); }
      var about := About(newId, if upload.Some? then upload else imageUrl);
      var overlay := OnCreate(Texts, st.overlay, langs, newId, CreateValues(dto));
      Ok((State(map[newId := about], overlay), Detail(about, ProjectAll(Texts, overlay, langs, newId))))
  }

  /**
   * Creating the record in a consistent state gives every registered
   * language the four texts, each missing one as `''`.
   */
  lemma CreateFansOut(st: State, langs: Registry, dto: Dto, imageUrl: Option<string>, upload: Option<string>, newId: int)
    requires Consistent(st) && |st.records| == 0
    ensures var st' := Create(st, langs, dto, imageUrl, upload, newId).value.0;
      forall l :: l in langs ==>
        ProjectOne(Texts, st'.overlay, newId, l.id) ==
          map["story" := OrEmpty(dto.story), "mission" := OrEmpty(dto.mission),
              "vision" := OrEmpty(dto.vision), "values" := OrEmpty(dto.values)]
  {
    assert st.records.Keys == {};
    assert NoRows(st.overlay, Texts.table, newId);
    FanOutComplete(Texts, st.overlay, langs, newId, CreateValues(dto));
  }

  /** Create keeps the state consistent, with exactly one record. */
  lemma CreateConsistent(st: State, langs: Registry, dto: Dto, imageUrl: Option<string>, upload: Option<string>, newId: int)
    requires Consistent(st) && |st.records| == 0
    ensures var st' := Create(st, langs, dto, imageUrl, upload, newId).value.0;
      Consistent(st') && |st'.records| == 1
  {
    var r := Create(st, langs, dto, imageUrl, upload, newId).value;
    assert forall k :: k in st.overlay ==> k.table != Table by {
      assert st.records.Keys == {};
    }
    OnlyRecordConsistent(st.overlay, r.0.overlay, r.1.about);
  }

  lemma OnlyRecordConsistent(before: Store, after: Store, about: About)
    requires forall k :: k in before ==> k.table != Table
    requires forall k :: k in after && k !in before ==> OfRow(k, Table, about.id)
    ensures Consistent(State(map[about.id := about], after))
  {
  }

  /** A second create is always rejected: the record stays unique. */
  lemma SecondCreateRejected(st: State, langs: Registry, dto: Dto, imageUrl: Option<string>, upload: Option<string>, newId: int,
                             dto2: Dto, imageUrl2: Option<string>, upload2: Option<string>, newId2: int)
    requires |st.records| == 0
    ensures var st' := Create(st, langs, dto, imageUrl, upload, newId).value.0;
      Create(st', langs, dto2, imageUrl2, upload2, newId2) == Err(BadRequest)
  {
    var st' := Create(st, langs, dto, imageUrl, upload, newId).value.0;
    assert newId in st'.records;
  }

  /**
   * `getByLanguage`: the first record is checked before the language; the
   * view carries the four texts, each stored content or `''`.
   */
  function FindByLanguage(st: State, langs: Registry, code: string): (r: Result<View>)
    ensures First(st).None? ==> r == Err(NotFound)
    ensures First(st).Some? && FindByCode(langs, code).None? ==> r == Err(NotFound)
    ensures r.Ok? <==> First(st).Some? && FindByCode(langs, code).Some?
    ensures r.Ok? ==>
      var id := First(st).value;
      var langId := FindByCode(langs, code).value.id;
      && r.value.about == st.records[id]
      && r.value.translated.Keys == Texts.FieldSet()
      && forall f :: f in r.value.translated ==> r.value.translated[f] == Content(st.overlay, Key(Table, id, f, langId))
  {
    match First(st)
    case None => Err(NotFound)
    case Some(id) =>
      match FindByCode(langs, code)
      case None => Err(NotFound)
      case Some(lang) =>
        var t := ProjectOne(Texts, st.overlay, id, lang.id);
        SetsEqual(t.Keys, Texts.FieldSet());
        Ok(View(st.records[id], t))
  }

  /**
   * `update`: the record is looked up before the language and both before
   * any write; the image changes only on upload; the defined texts are
   * upserted for the one language.
   */
  function Update(st: State, langs: Registry, id: int, code: string, dto: Dto, upload: Option<string>): (r: Result<(State, Detail)>)
    ensures id !in st.records ==> r == Err(NotFound)
    ensures id in st.records && FindByCode(langs, code).None? ==> r == Err(NotFound)
    ensures r.Ok? <==> id in st.records && FindByCode(langs, code).Some?
    ensures r.Ok? ==>
      && r.value.0.records == st.records[id := r.value.1.about]
      && r.value.1.about == About(id, if upload.Some? then upload else st.records[id].imageUrl)
      && r.value.1.translations == ProjectAll(Texts, r.value.0.overlay, langs, id)
  {
    if id !in st.records then Err(NotFound)
    else
      match FindByCode(langs, code)
      case None => Err(NotFound)
      case Some(lang) =>
        var updated := About(id, if upload.Some? then upload else st.records[id].imageUrl);
        var overlay := OnUpdate(Texts, st.overlay, id, lang.id, UpdateValues(dto));
        Ok((State(st.records[id := updated], overlay), Detail(updated, ProjectAll(Texts, overlay, langs, id))))
  }

  /**
   * The texts an update writes: the language's projection is overridden by
   * exactly the defined fields, every other language reads as before, and
   * consistency (a single record included) holds.
   */
  lemma UpdateTexts(st: State, langs: Registry, id: int, code: string, dto: Dto, upload: Option<string>)
    requires id in st.records && FindByCode(langs, code).Some?
    ensures var st' := Update(st, langs, id, code, dto, upload).value.0;
      var langId := FindByCode(langs, code).value.id;
      && ProjectOne(Texts, st'.overlay, id, langId) == ProjectOne(Texts, st.overlay, id, langId) + UpdateValues(dto)
      && (forall other :: other != langId ==> ProjectOne(Texts, st'.overlay, id, other) == ProjectOne(Texts, st.overlay, id, other))
      && (forall k :: k in st.overlay && !(OfRow(k, Table, id) && k.langId == langId) ==> k in st'.overlay && st'.overlay[k] == st.overlay[k])
      && (Consistent(st) ==> Consistent(st'))
  {
    var st' := Update(st, langs, id, code, dto, upload).value.0;
    var langId := FindByCode(langs, code).value.id;
    RestrictDeclared(Texts, UpdateValues(dto));
    PartialUpdate(Texts, st.overlay, id, langId, UpdateValues(dto));
    UpdateLanguageIsolation(Texts, st.overlay, id, langId, UpdateValues(dto));
    assert st'.records.Keys == st.records.Keys;
  }

  /** `remove`: the record and every overlay row of it, in every language. */
  function Remove(st: State, id: int): Result<(State, About)>
  {
    match RemoveRecord(Texts, st.records, st.overlay, id)
    case Err(e) => Err(e)
    case Ok((records, overlay, removed)) => Ok((State(records, overlay), removed))
  }

  /**
   * Removing the only record empties the table, so a later `create` is
   * accepted again and `getByLanguage` reports not found.
   */
  lemma RemoveThenCreate(st: State, langs: Registry, id: int, code: string)
    requires Consistent(st) && id in st.records
    ensures var st' := Remove(st, id).value.0;
      && |st'.records| == 0
      && FindByLanguage(st', langs, code) == Err(NotFound)
      && ProjectAll(Texts, st'.overlay, langs, id) == map[]
  {
    var st' := Remove(st, id).value.0;
    assert st'.records.Keys == st.records.Keys - {id};
    assert |st.records.Keys - {id}| == |st.records.Keys| - 1;
    assert st'.records.Keys == {} by { SetsEqual(st'.records.Keys, {}); }
    DeleteLeavesNothing(Texts, st.overlay, langs, id, 0);
  }
}
