/**
 * The home-slider service: slider records (image path and call-to-action
 * link) plus their `title`, `subTitle` and `ctaText` texts in the
 * translation overlay. Its grouping loop copies every stored row.
 */
module HomeSlider {
  import opened Results
  import opened Languages
  import opened Overlay
  import opened Adapters
  import Ordering

  const Table := "HomeSlider"
  const Texts := Adapter(Table, ["title", "subTitle", "ctaText"], AnyField)

  datatype Slider = Slider(id: int, imageUrl: string, ctaLink: Option<string>)

  datatype CreateDto = CreateDto(imageUrl: Option<string>, title: string, subTitle: Option<string>, ctaText: Option<string>, ctaLink: Option<string>)
  datatype UpdateDto = UpdateDto(title: Option<string>, subTitle: Option<string>, ctaText: Option<string>, ctaLink: Option<string>)

  datatype State = State(sliders: map<int, Slider>, overlay: Store)

  /** A record with its all-language `translations` (create and update responses). */
  datatype Detail = Detail(slider: Slider, translations: Grouping)

  /** A record with its single-language `translated` object. */
  datatype View = View(slider: Slider, translated: map<string, string>)

  /**
   * Every record is stored under its own id, and every overlay row of the
   * table belongs to an existing record.
   */
  predicate Consistent(st: State)
  {
    && (forall id :: id in st.sliders ==> st.sliders[id].id == id)
    && (forall k :: k in st.overlay && k.table == Table ==> k.rowId in st.sliders)
  }

  /** The per-language rows written on create: the title, the other two or `''`. */
  function CreateValues(dto: CreateDto): (v: map<string, string>)
    ensures v.Keys == Texts.FieldSet()
  {
    map["title" := dto.title, "subTitle" := OrEmpty(dto.subTitle), "ctaText" := OrEmpty(dto.ctaText)]
  }

  /** The defined text fields of an update DTO. */
  function UpdateValues(dto: UpdateDto): (v: map<string, string>)
    ensures v.Keys <= Texts.FieldSet()
    ensures "title" in v <==> dto.title.Some?
    ensures "subTitle" in v <==> dto.subTitle.Some?
    ensures "ctaText" in v <==> dto.ctaText.Some?
    ensures dto.title.Some? ==> v["title"] == dto.title.value
    ensures dto.subTitle.Some? ==> v["subTitle"] == dto.subTitle.value
    ensures dto.ctaText.Some? ==> v["ctaText"] == dto.ctaText.value
  {
    Put(Put(Put(map[], "title", dto.title), "subTitle", dto.subTitle), "ctaText", dto.ctaText)
  }

  /** The single-language read view of one slider. */
  function ViewOf(st: State, id: int, langId: int): View
    requires id in st.sliders
  {
    View(st.sliders[id], ProjectOne(Texts, st.overlay, id, langId))
  }

  /** The views of the listed ids, in list order. */
  function Views(st: State, ids: seq<int>, langId: int): (r: seq<View>)
    requires forall i :: 0 <= i < |ids| ==> ids[i] in st.sliders
    ensures |r| == |ids|
    ensures forall i :: 0 <= i < |ids| ==> r[i] == ViewOf(st, ids[i], langId)
  {
    seq(|ids|, i requires 0 <= i < |ids| => ViewOf(st, ids[i], langId))
  }

  function IdsOf(vs: seq<View>): (r: seq<int>)
    ensures |r| == |vs| && forall i :: 0 <= i < |vs| ==> r[i] == vs[i].slider.id
  {
    seq(|vs|, i requires 0 <= i < |vs| => vs[i].slider.id)
  }

  /** The image a new slider gets: the uploaded path wins over `dto.imageUrl`. */
  function NewImage(dto: CreateDto, upload: Option<string>): Option<string>
  {
    if upload.Some? then upload else dto.imageUrl
  }

  /**
   * `create`: rejected when neither an upload nor a non-empty `imageUrl`
   * gives the slider an image; otherwise a new record and the fan-out of its
   * texts, with the all-language translations in the response.
   */
  function Create(st: State, langs: Registry, dto: CreateDto, upload: Option<string>, newId: int): (r: Result<(State, Detail)>)
    requires newId !in st.sliders
    ensures r.Err? <==> !Truthy(NewImage(dto, upload))
    ensures r.Err? ==> r.error == BadRequest
    ensures r.Ok? ==>
      && r.value.0.sliders == st.sliders[newId := r.value.1.slider]
      && r.value.1.slider == Slider(newId, NewImage(dto, upload).value, dto.ctaLink)
      && (forall k :: k in st.overlay ==> k in r.value.0.overlay && r.value.0.overlay[k] == st.overlay[k])
      && (forall k :: k in r.value.0.overlay && k !in st.overlay ==> OfRow(k, Table, newId))
      && r.value.1.translations == ProjectAll(Texts, r.value.0.overlay, langs, newId)
  {
    var image := NewImage(dto, upload);
    if !Truthy(image) then Err(BadRequest)
    else
      var slider := Slider(newId, image.value, dto.ctaLink);
      var overlay := OnCreate(Texts, st.overlay, langs, newId, CreateValues(dto));
      Ok((State(st.sliders[newId := slider], overlay), Detail(slider, ProjectAll(Texts, overlay, langs, newId))))
  }

  /**
   * Creating a slider in a consistent state gives every registered language
   * the title and the subtitle and call-to-action text or `''`, and keeps
   * the state consistent.
   */
  lemma CreateFansOut(st: State, langs: Registry, dto: CreateDto, upload: Option<string>, newId: int)
    requires Consistent(st) && newId !in st.sliders
    requires Truthy(NewImage(dto, upload))
    ensures var st' := Create(st, langs, dto, upload, newId).value.0;
      && (forall l :: l in langs ==>
            ProjectOne(Texts, st'.overlay, newId, l.id) ==
              map["title" := dto.title, "subTitle" := OrEmpty(dto.subTitle), "ctaText" := OrEmpty(dto.ctaText)])
      && Consistent(st')
  {
    var st' := Create(st, langs, dto, upload, newId).value.0;
    assert NoRows(st.overlay, Texts.table, newId) by {
      forall k | k in st.overlay ensures !OfRow(k, Texts.table, newId) {
        if k.table == Table { assert k.rowId in st.sliders; }
      }
    }
    FanOutComplete(Texts, st.overlay, langs, newId, CreateValues(dto));
    forall id | id in st'.sliders ensures st'.sliders[id].id == id {
      if id != newId { assert st'.sliders[id] == st.sliders[id]; }
    }
    forall k | k in st'.overlay && k.table == Table ensures k.rowId in st'.sliders {
      if k in st.overlay {
        assert k.rowId in st.sliders;
      } else {
        assert OfRow(k, Table, newId);
      }
    }
  }

  /** `getAllByLanguage`: every slider in ascending id order, projected in the language. */
  function FindAllByLanguage(st: State, langs: Registry, code: string): (r: Result<seq<View>>)
    ensures r.Err? <==> FindByCode(langs, code).None?
    ensures r.Err? ==> r.error == NotFound
    ensures r.Ok? ==> |r.value| == |st.sliders|
  {
    match FindByCode(langs, code)
    case None => Err(NotFound)
    case Some(lang) =>
      var ids := Ordering.Ascending(st.sliders.Keys);
      assert forall i :: 0 <= i < |ids| ==> ids[i] in st.sliders by {
        forall i | 0 <= i < |ids| ensures ids[i] in st.sliders { assert ids[i] in ids; }
      }
      Ok(Views(st, ids, lang.id))
  }

  /**
   * In a consistent state the listing holds every slider once, in ascending
   * id order, each with its own texts in the language.
   */
  lemma FindAllAscending(st: State, langs: Registry, code: string)
    requires Consistent(st)
    requires FindByCode(langs, code).Some?
    ensures var r := FindAllByLanguage(st, langs, code);
      && r.Ok?
      && Ordering.StrictlyIncreasing(IdsOf(r.value))
      && (forall id :: id in IdsOf(r.value) <==> id in st.sliders)
      && forall i :: 0 <= i < |r.value| ==>
           r.value[i] == ViewOf(st, IdsOf(r.value)[i], FindByCode(langs, code).value.id)
  {
    var ids := Ordering.Ascending(st.sliders.Keys);
    assert forall i :: 0 <= i < |ids| ==> ids[i] in st.sliders by {
      forall i | 0 <= i < |ids| ensures ids[i] in st.sliders { assert ids[i] in ids; }
    }
    var vs := FindAllByLanguage(st, langs, code).value;
    assert vs == Views(st, ids, FindByCode(langs, code).value.id);
    assert IdsOf(vs) == ids;
  }

  /**
   * `update`: the slider is looked up before the language and both before
   * any write; the record keeps its image unless a file was uploaded and
   * keeps `ctaLink` unless the DTO sets it; the defined texts are upserted
   * for the one language.
   */
  function Update(st: State, langs: Registry, id: int, code: string, dto: UpdateDto, upload: Option<string>): (r: Result<(State, Detail)>)
    ensures id !in st.sliders ==> r == Err(NotFound)
    ensures id in st.sliders && FindByCode(langs, code).None? ==> r == Err(NotFound)
    ensures r.Ok? <==> id in st.sliders && FindByCode(langs, code).Some?
    ensures r.Ok? ==>
      var before := st.sliders[id];
      && r.value.0.sliders == st.sliders[id := r.value.1.slider]
      && r.value.1.slider == Slider(id, upload.GetOr(before.imageUrl), if dto.ctaLink.Some? then dto.ctaLink else before.ctaLink)
      && r.value.1.translations == ProjectAll(Texts, r.value.0.overlay, langs, id)
  {
    if id !in st.sliders then Err(NotFound)
    else
      match FindByCode(langs, code)
      case None => Err(NotFound)
      case Some(lang) =>
        var before := st.sliders[id];
        var updated := Slider(id, upload.GetOr(before.imageUrl), if dto.ctaLink.Some? then dto.ctaLink else before.ctaLink);
        var overlay := OnUpdate(Texts, st.overlay, id, lang.id, UpdateValues(dto));
        Ok((State(st.sliders[id := updated], overlay), Detail(updated, ProjectAll(Texts, overlay, langs, id))))
  }

  /**
   * The texts an update writes: the language's projection is overridden by
   * exactly the defined fields, every other language reads as before, no
   * row outside this slider and language changes, and consistency holds.
   */
  lemma UpdateTexts(st: State, langs: Registry, id: int, code: string, dto: UpdateDto, upload: Option<string>)
    requires id in st.sliders && FindByCode(langs, code).Some?
    ensures var st' := Update(st, langs, id, code, dto, upload).value.0;
      var langId := FindByCode(langs, code).value.id;
      && ProjectOne(Texts, st'.overlay, id, langId) == ProjectOne(Texts, st.overlay, id, langId) + UpdateValues(dto)
      && (forall other :: other != langId ==> ProjectOne(Texts, st'.overlay, id, other) == ProjectOne(Texts, st.overlay, id, other))
      && (forall k :: k in st.overlay && !(OfRow(k, Table, id) && k.langId == langId) ==> k in st'.overlay && st'.overlay[k] == st.overlay[k])
      && (forall k :: k in st'.overlay ==> k in st.overlay || (OfRow(k, Table, id) && k.langId == langId))
      && (Consistent(st) ==> Consistent(st'))
  {
    var langId := FindByCode(langs, code).value.id;
    RestrictDeclared(Texts, UpdateValues(dto));
    PartialUpdate(Texts, st.overlay, id, langId, UpdateValues(dto));
    UpdateLanguageIsolation(Texts, st.overlay, id, langId, UpdateValues(dto));
  }

  /** `remove`: the record and every overlay row of it, in every language. */
  function Remove(st: State, id: int): (r: Result<(State, Slider)>)
    ensures r.Err? <==> id !in st.sliders
    ensures r.Err? ==> r.error == NotFound
    ensures r.Ok? ==>
      && r.value.1 == st.sliders[id]
      && r.value.0.sliders == st.sliders - {id}
      && (forall k :: k in r.value.0.overlay <==> k in st.overlay && !OfRow(k, Table, id))
      && (forall k :: k in r.value.0.overlay ==> r.value.0.overlay[k] == st.overlay[k])
  {
    if id !in st.sliders then Err(NotFound)
    else Ok((State(st.sliders - {id}, OnDelete(Texts, st.overlay, id)), st.sliders[id]))
  }

  /** After remove no language has an entry for the slider, and consistency holds. */
  lemma RemoveLeavesNothing(st: State, langs: Registry, id: int)
    requires id in st.sliders
    ensures var st' := Remove(st, id).value.0;
      && ProjectAll(Texts, st'.overlay, langs, id) == map[]
      && (Consistent(st) ==> Consistent(st'))
  {
    DeleteLeavesNothing(Texts, st.overlay, langs, id, 0);
  }

  /** The fields stored for one slider in one language. */
  function StoredFields(st: State, id: int, langId: int): set<string>
  {
    set k | k in st.overlay && OfRow(k, Table, id) && k.langId == langId :: k.field
  }

  /**
   * Each language entry of the all-language view starts as three `''`
   * fields and then receives every stored row of that language, declared or
   * not: its keys are the declared fields plus the stored ones, and each
   * reads the stored content or `''`.
   */
  lemma GroupCopiesEveryRow(st: State, langs: Registry, id: int, l: Language)
    requires WellFormed(langs) && l in langs
    requires l.code in ProjectAll(Texts, st.overlay, langs, id)
    ensures var e := ProjectAll(Texts, st.overlay, langs, id)[l.code];
      && e.Keys == {"title", "subTitle", "ctaText"} + StoredFields(st, id, l.id)
      && forall f :: f in e ==> e[f] == Content(st.overlay, Key(Table, id, f, l.id))
  {
    var rows := RowsOf(st.overlay, Table, id);
    var e := ProjectAll(Texts, st.overlay, langs, id)[l.code];
    var found := FindByCode(langs, l.code).value;
    CodeDeterminesLanguage(langs, l, found);
    assert e == Entry(rows, Table, id, l.id, Texts.fields, AnyField);
    var stored := set k | k in rows && k.langId == l.id :: k.field;
    forall f ensures f in stored <==> f in StoredFields(st, id, l.id) {
      if f in StoredFields(st, id, l.id) {
        var k :| k in st.overlay && OfRow(k, Table, id) && k.langId == l.id && k.field == f;
        assert k in rows;
      }
    }
    SetsEqual(stored, StoredFields(st, id, l.id));
    SetsEqual(e.Keys, {"title", "subTitle", "ctaText"} + StoredFields(st, id, l.id));
    forall f | f in e ensures e[f] == Content(st.overlay, Key(Table, id, f, l.id)) {
      var k := Key(Table, id, f, l.id);
      assert k in rows <==> k in st.overlay;
    }
  }
}
