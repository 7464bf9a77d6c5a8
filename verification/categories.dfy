/**
 * The category service: category records plus their `name` and
 * `description` texts in the translation overlay.
 */
module Categories {
  import opened Results
  import opened Languages
  import opened Overlay
  import opened Adapters
  import Ordering

  const Table := "Category"
  const Texts := Adapter(Table, ["name", "description"], DeclaredFields)

  /** Non-translatable attributes live on the record; `imageUrl` is an opaque path. */
  datatype Category = Category(id: int, imageUrl: Option<string>, isFeatured: bool)

  datatype CreateDto = CreateDto(name: string, description: Option<string>, imageUrl: Option<string>, isFeatured: Option<bool>)
  datatype UpdateDto = UpdateDto(name: Option<string>, description: Option<string>, isFeatured: Option<bool>)

  datatype State = State(categories: map<int, Category>, overlay: Store)

  /** A record with its all-language `translations` (create and update responses). */
  datatype Detail = Detail(category: Category, translations: Grouping)

  /** A record with its single-language `translated` object (read responses). */
  datatype View = View(category: Category, translated: map<string, string>)

  /**
   * Every record is stored under its own id, and every overlay row of the
   * table belongs to an existing record.
   */
  predicate Consistent(st: State)
  {
    && (forall id :: id in st.categories ==> st.categories[id].id == id)
    && (forall k :: k in st.overlay && k.table == Table ==> k.rowId in st.categories)
  }

  /** The DTO validation rules: a non-empty name of at most 100 characters. */
  predicate ValidCreate(dto: CreateDto)
  {
    0 < |dto.name| <= 100
  }

  /** The per-language rows written on create: the name, and the description or `''`. */
  function CreateValues(dto: CreateDto): (v: map<string, string>)
    ensures v.Keys == Texts.FieldSet()
  {
    map["name" := dto.name, "description" := OrEmpty(dto.description)]
  }

  /** The defined text fields of an update DTO. */
  function UpdateValues(dto: UpdateDto): (v: map<string, string>)
    ensures v.Keys <= Texts.FieldSet()
    ensures "name" in v <==> dto.name.Some?
    ensures "description" in v <==> dto.description.Some?
    ensures dto.name.Some? ==> v["name"] == dto.name.value
    ensures dto.description.Some? ==> v["description"] == dto.description.value
  {
    Put(Put(map[], "name", dto.name), "description", dto.description)
  }

  /** The single-language read view of one category. */
  function ViewOf(st: State, id: int, langId: int): View
    requires id in st.categories
  {
    View(st.categories[id], ProjectOne(Texts, st.overlay, id, langId))
  }

  /** The views of the listed ids, in list order. */
  function Views(st: State, ids: seq<int>, langId: int): (r: seq<View>)
    requires forall i :: 0 <= i < |ids| ==> ids[i] in st.categories
    ensures |r| == |ids|
    ensures forall i :: 0 <= i < |ids| ==> r[i] == ViewOf(st, ids[i], langId)
  {
    seq(|ids|, i requires 0 <= i < |ids| => ViewOf(st, ids[i], langId))
  }

  function IdsOf(vs: seq<View>): (r: seq<int>)
    ensures |r| == |vs| && forall i :: 0 <= i < |vs| ==> r[i] == vs[i].category.id
  {
    seq(|vs|, i requires 0 <= i < |vs| => vs[i].category.id)
  }

  /**
   * `create`: a new record (the uploaded path wins over `dto.imageUrl`,
   * `isFeatured` defaults to false) and the fan-out of its texts; the
   * response carries the all-language translations.
   */
  function Create(st: State, langs: Registry, dto: CreateDto, upload: Option<string>, newId: int): (r: (State, Detail))
    requires ValidCreate(dto)
    requires newId !in st.categories
    ensures r.0.categories == st.categories[newId := r.1.category]
    ensures r.1.category == Category(newId, if upload.Some? then upload else dto.imageUrl, dto.isFeatured.GetOr(false))
    ensures forall k :: k in st.overlay ==> k in r.0.overlay && r.0.overlay[k] == st.overlay[k]
    ensures forall k :: k in r.0.overlay && k !in st.overlay ==> OfRow(k, Table, newId)
    ensures r.1.translations == ProjectAll(Texts, r.0.overlay, langs, newId)
  {
    var category := Category(newId, if upload.Some? then upload else dto.imageUrl, dto.isFeatured.GetOr(false));
    var overlay := OnCreate(Texts, st.overlay, langs, newId, CreateValues(dto));
    (State(st.categories[newId := category], overlay), Detail(category, ProjectAll(Texts, overlay, langs, newId)))
  }

  /**
   * Creating a category in a consistent state gives every registered
   * language the given name and the description or `''`, and keeps the
   * state consistent.
   */
  lemma CreateFansOut(st: State, langs: Registry, dto: CreateDto, upload: Option<string>, newId: int)
    requires Consistent(st) && ValidCreate(dto) && newId !in st.categories
    ensures var st' := Create(st, langs, dto, upload, newId).0;
      forall l :: l in langs ==>
        ProjectOne(Texts, st'.overlay, newId, l.id) == map["name" := dto.name, "description" := OrEmpty(dto.description)]
  {
    var values := CreateValues(dto);
    assert NoRows(st.overlay, Texts.table, newId) by {
      forall k | k in st.overlay ensures !OfRow(k, Texts.table, newId) {
        if k.table == Table { assert k.rowId in st.categories; }
      }
    }
    FanOutComplete(Texts, st.overlay, langs, newId, values);
  }

  /** Create keeps the state consistent. */
  lemma CreateConsistent(st: State, langs: Registry, dto: CreateDto, upload: Option<string>, newId: int)
    requires Consistent(st) && ValidCreate(dto) && newId !in st.categories
    ensures Consistent(Create(st, langs, dto, upload, newId).0)
  {
    var r := Create(st, langs, dto, upload, newId);
    var st' := r.0;
    forall id | id in st'.categories ensures st'.categories[id].id == id {
      if id != newId { assert st'.categories[id] == st.categories[id]; }
    }
    forall k | k in st'.overlay && k.table == Table ensures k.rowId in st'.categories {
      if k in st.overlay {
        assert k.rowId in st.categories;
      } else {
        assert OfRow(k, Table, newId);
      }
    }
  }

  /** `findAllByLanguage`: every category in ascending id order, projected in the language. */
  function FindAllByLanguage(st: State, langs: Registry, code: string): (r: Result<seq<View>>)
    ensures r.Err? <==> FindByCode(langs, code).None?
    ensures r.Err? ==> r.error == NotFound
    ensures r.Ok? ==> |r.value| == |st.categories|
    ensures r.Ok? ==> forall i :: 0 <= i < |r.value| ==>
      exists id :: id in st.categories && r.value[i] == ViewOf(st, id, FindByCode(langs, code).value.id)
  {
    match FindByCode(langs, code)
    case None => Err(NotFound)
    case Some(lang) =>
      var ids := Ordering.Ascending(st.categories.Keys);
      var views := Views(st, ids, lang.id);
      assert forall i :: 0 <= i < |views| ==> ids[i] in st.categories && views[i] == ViewOf(st, ids[i], lang.id);
      Ok(views)
  }

  /** In a consistent state the listing holds every category once, in ascending id order. */
  lemma FindAllAscending(st: State, langs: Registry, code: string)
    requires Consistent(st)
    requires FindByCode(langs, code).Some?
    ensures var r := FindAllByLanguage(st, langs, code);
      && r.Ok?
      && Ordering.StrictlyIncreasing(IdsOf(r.value))
      && forall id :: id in IdsOf(r.value) <==> id in st.categories
  {
    var ids := Ordering.Ascending(st.categories.Keys);
    var vs := FindAllByLanguage(st, langs, code).value;
    assert vs == Views(st, ids, FindByCode(langs, code).value.id);
    assert IdsOf(vs) == ids;
  }

  /** `findOne`: the category is checked before the language. */
  function FindOne(st: State, langs: Registry, id: int, code: string): (r: Result<View>)
    ensures id !in st.categories ==> r == Err(NotFound)
    ensures id in st.categories && FindByCode(langs, code).None? ==> r == Err(NotFound)
    ensures r.Ok? <==> id in st.categories && FindByCode(langs, code).Some?
    ensures r.Ok? ==>
      && r.value.category == st.categories[id]
      && r.value.translated.Keys == {"name", "description"}
      && r.value.translated["name"] == Content(st.overlay, Key(Table, id, "name", FindByCode(langs, code).value.id))
      && r.value.translated["description"] == Content(st.overlay, Key(Table, id, "description", FindByCode(langs, code).value.id))
  {
    if id !in st.categories then Err(NotFound)
    else
      match FindByCode(langs, code)
      case None => Err(NotFound)
      case Some(lang) =>
        var v := ViewOf(st, id, lang.id);
        SetsEqual(v.translated.Keys, {"name", "description"});
        Ok(v)
  }

  /** The landing order: featured before non-featured, then ascending id. */
  predicate Before(a: Category, b: Category)
  {
    (a.isFeatured && !b.isFeatured) || (a.isFeatured == b.isFeatured && a.id < b.id)
  }

  /** The ids of the categories whose `isFeatured` flag is `featured`. */
  function WithFlag(st: State, featured: bool): set<int>
  {
    set id | id in st.categories && st.categories[id].isFeatured == featured
  }

  /** `orderBy: [{ isFeatured: 'desc' }, { id: 'asc' }]` over every category. */
  function LandingOrder(st: State): (r: seq<int>)
    requires Consistent(st)
    ensures forall i :: 0 <= i < |r| ==> r[i] in st.categories
    ensures forall id :: id in st.categories ==> id in r
    ensures forall i, j :: 0 <= i < j < |r| ==> Before(st.categories[r[i]], st.categories[r[j]])
  {
    var f := Ordering.Ascending(WithFlag(st, true));
    var p := Ordering.Ascending(WithFlag(st, false));
    LandingSorted(st, f, p);
    forall id | id in st.categories ensures id in f + p {
      if st.categories[id].isFeatured {
        assert id in WithFlag(st, true);
      } else {
        assert id in WithFlag(st, false);
      }
    }
    f + p
  }

  lemma LandingSorted(st: State, f: seq<int>, p: seq<int>)
    requires Consistent(st)
    requires Ordering.StrictlyIncreasing(f) && forall x :: x in f <==> x in WithFlag(st, true)
    requires Ordering.StrictlyIncreasing(p) && forall x :: x in p <==> x in WithFlag(st, false)
    ensures forall i :: 0 <= i < |f + p| ==> (f + p)[i] in st.categories
    ensures forall i, j :: 0 <= i < j < |f + p| ==> Before(st.categories[(f + p)[i]], st.categories[(f + p)[j]])
  {
    var r := f + p;
    forall i | 0 <= i < |r| ensures r[i] in st.categories {
      if i < |f| {
        assert r[i] == f[i] && f[i] in f;
      } else {
        assert r[i] == p[i - |f|] && p[i - |f|] in p;
      }
    }
    forall i, j | 0 <= i < j < |r|
      ensures Before(st.categories[r[i]], st.categories[r[j]])
    {
      if j < |f| {
        assert r[i] == f[i] && r[j] == f[j] && f[i] in f && f[j] in f;
        assert st.categories[r[i]].id == r[i] && st.categories[r[j]].id == r[j];
      } else if i < |f| {
        assert r[i] == f[i] && f[i] in f;
        assert r[j] == p[j - |f|] && p[j - |f|] in p;
        assert st.categories[r[i]].isFeatured && !st.categories[r[j]].isFeatured;
      } else {
        assert r[i] == p[i - |f|] && r[j] == p[j - |f|] && p[i - |f|] in p && p[j - |f|] in p;
        assert st.categories[r[i]].id == r[i] && st.categories[r[j]].id == r[j];
      }
    }
  }

  /** `findLandingPageCategories`: the first five categories in landing order. */
  function FindLanding(st: State, langs: Registry, code: string): (r: Result<seq<View>>)
    requires Consistent(st)
    ensures r.Err? <==> FindByCode(langs, code).None?
    ensures r.Err? ==> r.error == NotFound
    ensures r.Ok? ==> |r.value| <= 5
    ensures r.Ok? ==> forall i :: 0 <= i < |r.value| ==>
      r.value[i].category.id in st.categories && r.value[i] == ViewOf(st, r.value[i].category.id, FindByCode(langs, code).value.id)
    ensures r.Ok? ==> forall i, j :: 0 <= i < j < |r.value| ==> Before(r.value[i].category, r.value[j].category)
  {
    match FindByCode(langs, code)
    case None => Err(NotFound)
    case Some(lang) =>
      var order := LandingOrder(st);
      var selected := if |order| < 5 then order else order[..5];
      var views := Views(st, selected, lang.id);
      assert forall i :: 0 <= i < |views| ==> views[i].category == st.categories[selected[i]];
      Ok(views)
  }

  /**
   * The landing list is the top of the order: it holds five categories (or
   * all of them when fewer exist), and every category left out comes after
   * each one selected.
   */
  lemma LandingIsTopFive(st: State, langs: Registry, code: string)
    requires Consistent(st)
    requires FindByCode(langs, code).Some?
    ensures var r := FindLanding(st, langs, code);
      && r.Ok?
      && |r.value| == (if |st.categories| < 5 then |st.categories| else 5)
      && forall id :: id in st.categories && id !in IdsOf(r.value) ==>
           forall i :: 0 <= i < |r.value| ==> Before(r.value[i].category, st.categories[id])
  {
    var order := LandingOrder(st);
    var selected := if |order| < 5 then order else order[..5];
    var lang := FindByCode(langs, code).value;
    var vs := Views(st, selected, lang.id);
    assert FindLanding(st, langs, code) == Ok(vs);
    LandingCoversAll(st);
    var n := |selected|;
    assert selected == order[..n];
    forall id | id in st.categories && id !in IdsOf(vs)
      ensures forall i :: 0 <= i < |vs| ==> Before(vs[i].category, st.categories[id])
    {
      forall i | 0 <= i < n ensures order[..n][i] != id {
        assert IdsOf(vs)[i] == st.categories[selected[i]].id == selected[i];
      }
      LandingAfterPrefix(st, n, id);
      forall i | 0 <= i < |vs| ensures Before(vs[i].category, st.categories[id]) {
        assert vs[i].category == st.categories[order[i]];
      }
    }
  }

  /** The landing order lists every category exactly once. */
  lemma LandingCoversAll(st: State)
    requires Consistent(st)
    ensures |LandingOrder(st)| == |st.categories|
  {
    var order := LandingOrder(st);
    assert Distinct(order) by {
      forall i, j | 0 <= i < j < |order| ensures order[i] != order[j] {
        assert Before(st.categories[order[i]], st.categories[order[j]]);
      }
    }
    DistinctCovers(order, st.categories.Keys);
  }

  /** A category missing from a prefix of the landing order comes after all of it. */
  lemma LandingAfterPrefix(st: State, n: int, id: int)
    requires Consistent(st)
    requires 0 <= n <= |LandingOrder(st)|
    requires id in st.categories
    requires forall i :: 0 <= i < n ==> LandingOrder(st)[..n][i] != id
    ensures forall i :: 0 <= i < n ==> Before(st.categories[LandingOrder(st)[i]], st.categories[id])
  {
    var order := LandingOrder(st);
    forall j | 0 <= j < n ensures order[j] != id {
      assert order[..n][j] == order[j];
    }
    var p :| 0 <= p < |order| && order[p] == id;
    assert n <= p;
  }

  /** A duplicate-free listing of exactly the members of `s` has `|s|` entries. */
  lemma {:induction false} DistinctCovers(xs: seq<int>, s: set<int>)
    requires Distinct(xs)
    requires forall i :: 0 <= i < |xs| ==> xs[i] in s
    requires forall x :: x in s ==> x in xs
    ensures |xs| == |s|
    decreases |xs|
  {
    if |xs| == 0 {
      var none: set<int> := {};
      forall k ensures k in s <==> k in none {
        assert k !in xs;
      }
      SetsEqual(s, none);
    } else {
      var x := xs[|xs| - 1];
      var rest := xs[..|xs| - 1];
      assert forall i :: 0 <= i < |rest| ==> rest[i] == xs[i];
      forall y | y in s - {x} ensures y in rest {
        var n :| 0 <= n < |xs| && xs[n] == y;
        assert n != |xs| - 1;
        assert rest[n] == y;
      }
      forall i | 0 <= i < |rest| ensures rest[i] in s - {x} {
        assert xs[i] != xs[|xs| - 1];
      }
      DistinctCovers(rest, s - {x});
    }
  }

  /**
   * `update`: both lookups happen before any write; the record keeps its
   * image unless a file was uploaded and keeps `isFeatured` unless the DTO
   * sets it; the defined texts are upserted for the one language.
   */
  function Update(st: State, langs: Registry, id: int, code: string, dto: UpdateDto, upload: Option<string>): (r: Result<(State, Detail)>)
    ensures id !in st.categories ==> r == Err(NotFound)
    ensures id in st.categories && FindByCode(langs, code).None? ==> r == Err(NotFound)
    ensures r.Ok? <==> id in st.categories && FindByCode(langs, code).Some?
    ensures r.Ok? ==>
      var before := st.categories[id];
      && r.value.0.categories == st.categories[id := r.value.1.category]
      && r.value.1.category == Category(id, if upload.Some? then upload else before.imageUrl, dto.isFeatured.GetOr(before.isFeatured))
      && r.value.1.translations == ProjectAll(Texts, r.value.0.overlay, langs, id)
  {
    if id !in st.categories then Err(NotFound)
    else
      match FindByCode(langs, code)
      case None => Err(NotFound)
      case Some(lang) =>
        var before := st.categories[id];
        var updated := Category(id, if upload.Some? then upload else before.imageUrl, dto.isFeatured.GetOr(before.isFeatured));
        var overlay := OnUpdate(Texts, st.overlay, id, lang.id, UpdateValues(dto));
        Ok((State(st.categories[id := updated], overlay), Detail(updated, ProjectAll(Texts, overlay, langs, id))))
  }

  /**
   * The texts an update writes: the language's projection is overridden by
   * exactly the defined fields, every other language reads as before, no
   * row outside this category and language changes, and consistency holds.
   */
  lemma UpdateTexts(st: State, langs: Registry, id: int, code: string, dto: UpdateDto, upload: Option<string>)
    requires id in st.categories && FindByCode(langs, code).Some?
    ensures var st' := Update(st, langs, id, code, dto, upload).value.0;
      var langId := FindByCode(langs, code).value.id;
      && ProjectOne(Texts, st'.overlay, id, langId) == ProjectOne(Texts, st.overlay, id, langId) + UpdateValues(dto)
      && (forall other :: other != langId ==> ProjectOne(Texts, st'.overlay, id, other) == ProjectOne(Texts, st.overlay, id, other))
      && (forall k :: k in st.overlay && !(OfRow(k, Table, id) && k.langId == langId) ==> k in st'.overlay && st'.overlay[k] == st.overlay[k])
      && (forall k :: k in st'.overlay ==> k in st.overlay || (OfRow(k, Table, id) && k.langId == langId))
      && (Consistent(st) ==> Consistent(st'))
  {
    var langId := FindByCode(langs, code).value.id;
    RestrictDeclared(Texts, UpdateValues(dto));
    PartialUpdate(Texts, st.overlay, id, langId, UpdateValues(dto));
    UpdateLanguageIsolation(Texts, st.overlay, id, langId, UpdateValues(dto));
  }

  /** `remove`: the record and every overlay row of it, in every language. */
  function Remove(st: State, id: int): (r: Result<(State, Category)>)
    ensures r.Err? <==> id !in st.categories
    ensures r.Err? ==> r.error == NotFound
    ensures r.Ok? ==>
      && r.value.1 == st.categories[id]
      && r.value.0.categories == st.categories - {id}
      && (forall k :: k in r.value.0.overlay <==> k in st.overlay && !OfRow(k, Table, id))
      && (forall k :: k in r.value.0.overlay ==> r.value.0.overlay[k] == st.overlay[k])
  {
    if id !in st.categories then Err(NotFound)
    else Ok((State(st.categories - {id}, OnDelete(Texts, st.overlay, id)), st.categories[id]))
  }

  /** After remove no language has an entry for the category, and consistency holds. */
  lemma RemoveLeavesNothing(st: State, langs: Registry, id: int)
    requires id in st.categories
    ensures var st' := Remove(st, id).value.0;
      && ProjectAll(Texts, st'.overlay, langs, id) == map[]
      && (Consistent(st) ==> Consistent(st'))
  {
    DeleteLeavesNothing(Texts, st.overlay, langs, id, 0);
  }

  /**
   * Creating "Shoes" with en and fr registered: both languages read the
   * name "Shoes" and an empty description.
   */
  lemma ShoesCreated(st: State, langs: Registry, en: Language, fr: Language, newId: int)
    requires Consistent(st) && newId !in st.categories
    requires en in langs && fr in langs
    ensures var created := Create(st, langs, CreateDto("Shoes", None, None, None), None, newId).0;
      && ProjectOne(Texts, created.overlay, newId, en.id) == map["name" := "Shoes", "description" := ""]
      && ProjectOne(Texts, created.overlay, newId, fr.id) == map["name" := "Shoes", "description" := ""]
  {
    CreateFansOut(st, langs, CreateDto("Shoes", None, None, None), None, newId);
  }

  /**
   * Renaming the fr name of a category that reads "Shoes" in en and fr to
   * "Chaussures": fr's name changes, and en still reads "Shoes".
   */
  lemma ShoesRenamed(st: State, langs: Registry, en: Language, fr: Language, id: int)
    requires id in st.categories
    requires WellFormed(langs) && en in langs && fr in langs && en.code == "en" && fr.code == "fr"
    requires ProjectOne(Texts, st.overlay, id, en.id) == map["name" := "Shoes", "description" := ""]
    requires ProjectOne(Texts, st.overlay, id, fr.id) == map["name" := "Shoes", "description" := ""]
    ensures var updated := Update(st, langs, id, "fr", UpdateDto(Some("Chaussures"), None, None), None);
      && updated.Ok?
      && ProjectOne(Texts, updated.value.0.overlay, id, fr.id) == map["name" := "Chaussures", "description" := ""]
      && ProjectOne(Texts, updated.value.0.overlay, id, en.id) == map["name" := "Shoes", "description" := ""]
  {
    var udto := UpdateDto(Some("Chaussures"), None, None);
    var found := FindByCode(langs, "fr").value;
    CodeDeterminesLanguage(langs, fr, found);
    CodeDeterminesLanguage(langs, en, fr);
    IdDeterminesLanguage(langs, en, fr);
    UpdateTexts(st, langs, id, "fr", udto, None);
    assert UpdateValues(udto) == map["name" := "Chaussures"] by {
      MapsEqual(UpdateValues(udto), map["name" := "Chaussures"]);
    }
    assert map["name" := "Shoes", "description" := ""] + map["name" := "Chaussures"] == map["name" := "Chaussures", "description" := ""] by {
      MapsEqual(map["name" := "Shoes", "description" := ""] + map["name" := "Chaussures"], map["name" := "Chaussures", "description" := ""]);
    }
  }
}
