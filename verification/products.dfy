/**
 * The product service: product records plus their `name`, `slug` and
 * `description` texts in the translation overlay.
 */
module Products {
  import opened Results
  import opened Languages
  import opened Overlay
  import opened Adapters
  import Ordering
  import ProductImages

  const Table := "Product"
  const Texts := Adapter(Table, ["name", "slug", "description"], DeclaredFields)

  datatype Product = Product(id: int, stockQuantity: int, isActive: bool, isFeatured: bool, categoryId: Option<int>)

  datatype CreateDto = CreateDto(
    name: string, slug: Option<string>, description: Option<string>,
    stockQuantity: Option<int>, isActive: Option<bool>, isFeatured: Option<bool>, categoryId: Option<int>)

  datatype UpdateDto = UpdateDto(
    name: Option<string>, slug: Option<string>, description: Option<string>,
    stockQuantity: Option<int>, isActive: Option<bool>, isFeatured: Option<bool>, categoryId: Option<int>)

  datatype State = State(products: map<int, Product>, overlay: Store)

  /** A record with its all-language `translations`. */
  datatype Detail = Detail(product: Product, translations: Grouping)

  /** A record with its single-language `translated` object. */
  datatype View = View(product: Product, translated: map<string, string>)

  /** A `findByCategory` item: the view plus the urls of the product's main images. */
  datatype CategoryItem = CategoryItem(view: View, mainImages: seq<string>)

  /**
   * Every record is stored under its own id, and every overlay row of the
   * table belongs to an existing record.
   */
  predicate Consistent(st: State)
  {
    && (forall id :: id in st.products ==> st.products[id].id == id)
    && (forall k :: k in st.overlay && k.table == Table ==> k.rowId in st.products)
  }

  /** The DTO validation rules: a name of 1 to 100 characters, a stock quantity of at least 0. */
  predicate ValidCreate(dto: CreateDto)
  {
    && 0 < |dto.name| <= 100
    && (dto.stockQuantity.Some? ==> dto.stockQuantity.value >= 0)
  }

  /** The per-language rows written on create: name, `slug || ''`, `description || ''`. */
  function CreateValues(dto: CreateDto): (v: map<string, string>)
    ensures v.Keys == Texts.FieldSet()
  {
    map["name" := dto.name, "slug" := OrEmpty(dto.slug), "description" := OrEmpty(dto.description)]
  }

  /** The defined text fields of an update DTO. */
  function UpdateValues(dto: UpdateDto): (v: map<string, string>)
    ensures v.Keys <= Texts.FieldSet()
    ensures "name" in v <==> dto.name.Some?
    ensures "slug" in v <==> dto.slug.Some?
    ensures "description" in v <==> dto.description.Some?
    ensures dto.name.Some? ==> v["name"] == dto.name.value
    ensures dto.slug.Some? ==> v["slug"] == dto.slug.value
    ensures dto.description.Some? ==> v["description"] == dto.description.value
  {
    Put(Put(Put(map[], "name", dto.name), "slug", dto.slug), "description", dto.description)
  }

  function ViewOf(st: State, id: int, langId: int): View
    requires id in st.products
  {
    View(st.products[id], ProjectOne(Texts, st.overlay, id, langId))
  }

  function DetailOf(st: State, langs: Registry, id: int): Detail
    requires id in st.products
  {
    Detail(st.products[id], ProjectAll(Texts, st.overlay, langs, id))
  }

  /**
   * `create`: the record takes the DTO's values or the defaults (stock 0,
   * active, not featured); the texts fan out to every language. The
   * language code the controller passes plays no part.
   */
  function Create(st: State, langs: Registry, langCode: string, dto: CreateDto, newId: int): (r: (State, Detail))
    requires ValidCreate(dto)
    requires newId !in st.products
    ensures r.0.products == st.products[newId := r.1.product]
    ensures r.1.product == Product(newId, dto.stockQuantity.GetOr(0), dto.isActive.GetOr(true), dto.isFeatured.GetOr(false), dto.categoryId)
    ensures r.1.product.stockQuantity >= 0
    ensures forall k :: k in st.overlay ==> k in r.0.overlay && r.0.overlay[k] == st.overlay[k]
    ensures forall k :: k in r.0.overlay && k !in st.overlay ==> OfRow(k, Table, newId)
    ensures r.1 == DetailOf(r.0, langs, newId)
  {
    var product := Product(newId, dto.stockQuantity.GetOr(0), dto.isActive.GetOr(true), dto.isFeatured.GetOr(false), dto.categoryId);
    var st' := State(st.products[newId := product], OnCreate(Texts, st.overlay, langs, newId, CreateValues(dto)));
    (st', DetailOf(st', langs, newId))
  }

  /**
   * Creating a product in a consistent state gives every registered
   * language the name, the slug or `''` and the description or `''`,
   * whatever language code was passed, and keeps the state consistent.
   */
  lemma CreateFansOut(st: State, langs: Registry, langCode: string, dto: CreateDto, newId: int)
    requires Consistent(st) && ValidCreate(dto) && newId !in st.products
    ensures var st' := Create(st, langs, langCode, dto, newId).0;
      && Consistent(st')
      && (forall other :: Create(st, langs, other, dto, newId) == Create(st, langs, langCode, dto, newId))
      && forall l :: l in langs ==>
           ProjectOne(Texts, st'.overlay, newId, l.id) ==
             map["name" := dto.name, "slug" := OrEmpty(dto.slug), "description" := OrEmpty(dto.description)]
  {
    var r := Create(st, langs, langCode, dto, newId);
    assert NoRows(st.overlay, Texts.table, newId) by {
      forall k | k in st.overlay ensures !OfRow(k, Texts.table, newId) {
        if k.table == Table { assert k.rowId in st.products; }
      }
    }
    FanOutComplete(Texts, st.overlay, langs, newId, CreateValues(dto));
    var st' := r.0;
    forall id | id in st'.products ensures st'.products[id].id == id {
      if id != newId { assert st'.products[id] == st.products[id]; }
    }
    forall k | k in st'.overlay && k.table == Table ensures k.rowId in st'.products {
      if k in st.overlay {
        assert k.rowId in st.products;
      } else {
        assert OfRow(k, Table, newId);
      }
    }
  }

  /** The details of the listed ids, in list order. */
  function Details(st: State, langs: Registry, ids: seq<int>): (r: seq<Detail>)
    requires forall i :: 0 <= i < |ids| ==> ids[i] in st.products
    ensures |r| == |ids|
    ensures forall i :: 0 <= i < |ids| ==> r[i] == DetailOf(st, langs, ids[i])
  {
    seq(|ids|, i requires 0 <= i < |ids| => DetailOf(st, langs, ids[i]))
  }

  /** `d` is the detail of some stored product. */
  predicate IsDetail(st: State, langs: Registry, d: Detail)
  {
    exists id :: id in st.products && d == DetailOf(st, langs, id)
  }

  /** `findAll`: every product with its all-language translations, ascending by id. */
  function FindAll(st: State, langs: Registry): (r: seq<Detail>)
    ensures |r| == |st.products|
    ensures forall i :: 0 <= i < |r| ==> IsDetail(st, langs, r[i])
    ensures forall id :: id in st.products ==> DetailOf(st, langs, id) in r
  {
    var ids := Ordering.Ascending(st.products.Keys);
    assert forall i :: 0 <= i < |ids| ==> ids[i] in st.products by {
      forall i | 0 <= i < |ids| ensures ids[i] in st.products { assert ids[i] in ids; }
    }
    var r := Details(st, langs, ids);
    forall i | 0 <= i < |r| ensures IsDetail(st, langs, r[i]) {
      assert ids[i] in st.products && r[i] == DetailOf(st, langs, ids[i]);
    }
    forall id | id in st.products ensures DetailOf(st, langs, id) in r {
      var i :| 0 <= i < |ids| && ids[i] == id;
      assert r[i] == DetailOf(st, langs, id);
    }
    r
  }

  /** The views of the listed ids, in list order. */
  function Views(st: State, ids: seq<int>, langId: int): (r: seq<View>)
    requires forall i :: 0 <= i < |ids| ==> ids[i] in st.products
    ensures |r| == |ids|
    ensures forall i :: 0 <= i < |ids| ==> r[i] == ViewOf(st, ids[i], langId)
  {
    seq(|ids|, i requires 0 <= i < |ids| => ViewOf(st, ids[i], langId))
  }

  /** `v` is the view of some stored product in language `langId`. */
  predicate IsView(st: State, langId: int, v: View)
  {
    exists id :: id in st.products && v == ViewOf(st, id, langId)
  }

  /** `findAllByLanguage`: every product, each with its three texts in the language. */
  function FindAllByLanguage(st: State, langs: Registry, code: string): (r: Result<seq<View>>)
    ensures r.Err? <==> FindByCode(langs, code).None?
    ensures r.Err? ==> r.error == NotFound
    ensures r.Ok? ==> |r.value| == |st.products|
    ensures r.Ok? ==> forall i :: 0 <= i < |r.value| ==> IsView(st, FindByCode(langs, code).value.id, r.value[i])
    ensures r.Ok? ==> forall id :: id in st.products ==> ViewOf(st, id, FindByCode(langs, code).value.id) in r.value
  {
    match FindByCode(langs, code)
    case None => Err(NotFound)
    case Some(lang) =>
      var ids := Ordering.Ascending(st.products.Keys);
      assert forall i :: 0 <= i < |ids| ==> ids[i] in st.products by {
        forall i | 0 <= i < |ids| ensures ids[i] in st.products { assert ids[i] in ids; }
      }
      var vs := Views(st, ids, lang.id);
      forall i | 0 <= i < |vs| ensures IsView(st, lang.id, vs[i]) {
        assert ids[i] in st.products && vs[i] == ViewOf(st, ids[i], lang.id);
      }
      forall id | id in st.products ensures ViewOf(st, id, lang.id) in vs {
        var i :| 0 <= i < |ids| && ids[i] == id;
        assert vs[i] == ViewOf(st, id, lang.id);
      }
      Ok(vs)
  }

  /** Every single-language view carries the three fields, each the stored content or `''`. */
  lemma ViewFields(st: State, id: int, langId: int)
    requires id in st.products
    ensures var t := ViewOf(st, id, langId).translated;
      && t.Keys == {"name", "slug", "description"}
      && forall f :: f in t ==> t[f] == Content(st.overlay, Key(Table, id, f, langId))
  {
    SetsEqual(ViewOf(st, id, langId).translated.Keys, {"name", "slug", "description"});
  }

  /** The ids of the products in category `categoryId`. */
  function InCategory(st: State, categoryId: int): set<int>
  {
    set id | id in st.products && st.products[id].categoryId == Some(categoryId)
  }

  /** The `findByCategory` items of the listed ids, in list order. */
  function Items(st: State, images: ProductImages.Images, ids: seq<int>, langId: int): (r: seq<CategoryItem>)
    requires forall i :: 0 <= i < |ids| ==> ids[i] in st.products
    ensures |r| == |ids|
    ensures forall i :: 0 <= i < |ids| ==> r[i] == CategoryItem(ViewOf(st, ids[i], langId), ProductImages.MainUrls(images, ids[i]))
  {
    seq(|ids|, i requires 0 <= i < |ids| => CategoryItem(ViewOf(st, ids[i], langId), ProductImages.MainUrls(images, ids[i])))
  }

  /** The ids of category `categoryId`, in the order the listing returns them. */
  function CategoryIds(st: State, categoryId: int): (ids: seq<int>)
    ensures forall i :: 0 <= i < |ids| ==> ids[i] in InCategory(st, categoryId)
    ensures forall id :: id in InCategory(st, categoryId) ==> id in ids
    ensures |ids| == |InCategory(st, categoryId)|
  {
    var ids := Ordering.Ascending(InCategory(st, categoryId));
    assert forall i :: 0 <= i < |ids| ==> ids[i] in InCategory(st, categoryId) by {
      forall i | 0 <= i < |ids| ensures ids[i] in InCategory(st, categoryId) { assert ids[i] in ids; }
    }
    ids
  }

  /**
   * `findByCategory`: the products whose category is the argument, each with
   * its texts in the language and the urls of its main images.
   */
  function FindByCategory(st: State, images: ProductImages.Images, langs: Registry, categoryId: int, code: string): (r: Result<seq<CategoryItem>>)
    ensures r.Err? <==> FindByCode(langs, code).None?
    ensures r.Err? ==> r.error == NotFound
    ensures r.Ok? ==> |r.value| == |InCategory(st, categoryId)|
  {
    match FindByCode(langs, code)
    case None => Err(NotFound)
    case Some(lang) =>
      var ids := CategoryIds(st, categoryId);
      Ok(Items(st, images, ids, lang.id))
  }

  /**
   * Every item `findByCategory` lists is a product of the category, with
   * its texts in the language and the urls of its main images.
   */
  lemma FindByCategoryMembers(st: State, images: ProductImages.Images, langs: Registry, categoryId: int, code: string, lang: Language)
    requires FindByCode(langs, code) == Some(lang)
    ensures var r := FindByCategory(st, images, langs, categoryId, code);
      && r.Ok?
      && forall i :: 0 <= i < |r.value| ==>
            && r.value[i].view.product.categoryId == Some(categoryId)
            && exists id :: id in st.products && r.value[i] == CategoryItem(ViewOf(st, id, lang.id), ProductImages.MainUrls(images, id))
  {
    var ids := CategoryIds(st, categoryId);
    var items := Items(st, images, ids, lang.id);
    assert FindByCategory(st, images, langs, categoryId, code) == Ok(items);
    forall i | 0 <= i < |items|
      ensures items[i].view.product.categoryId == Some(categoryId)
      ensures exists id :: id in st.products && items[i] == CategoryItem(ViewOf(st, id, lang.id), ProductImages.MainUrls(images, id))
    {
      var id := ids[i];
      assert id in InCategory(st, categoryId);
      assert items[i] == CategoryItem(ViewOf(st, id, lang.id), ProductImages.MainUrls(images, id));
    }
  }

  /** Every product of the category has an item in `findByCategory`. */
  lemma FindByCategoryCovers(st: State, images: ProductImages.Images, langs: Registry, categoryId: int, code: string, lang: Language)
    requires FindByCode(langs, code) == Some(lang)
    ensures var r := FindByCategory(st, images, langs, categoryId, code);
      && r.Ok?
      && forall id :: id in InCategory(st, categoryId) ==>
            exists i :: 0 <= i < |r.value| && r.value[i].view == ViewOf(st, id, lang.id)
  {
    var ids := CategoryIds(st, categoryId);
    var items := Items(st, images, ids, lang.id);
    assert FindByCategory(st, images, langs, categoryId, code) == Ok(items);
    forall id | id in InCategory(st, categoryId) ensures exists i :: 0 <= i < |items| && items[i].view == ViewOf(st, id, lang.id) {
      var i :| 0 <= i < |ids| && ids[i] == id;
      assert items[i].view == ViewOf(st, id, lang.id);
    }
  }

  /** `findOne`: the product with its all-language translations. */
  function FindOne(st: State, langs: Registry, id: int): (r: Result<Detail>)
    ensures r.Err? <==> id !in st.products
    ensures r.Err? ==> r.error == NotFound
    ensures r.Ok? ==> r.value.product == st.products[id] && r.value.translations == ProjectAll(Texts, st.overlay, langs, id)
  {
    if id !in st.products then Err(NotFound) else Ok(DetailOf(st, langs, id))
  }

  /** The record after an update: each attribute the DTO leaves undefined keeps its value. */
  function Updated(before: Product, dto: UpdateDto): (p: Product)
    ensures p.id == before.id
    ensures dto.stockQuantity.None? ==> p.stockQuantity == before.stockQuantity
    ensures dto.isActive.None? ==> p.isActive == before.isActive
    ensures dto.isFeatured.None? ==> p.isFeatured == before.isFeatured
    ensures dto.categoryId.None? ==> p.categoryId == before.categoryId
    ensures dto.stockQuantity.Some? ==> p.stockQuantity == dto.stockQuantity.value
    ensures dto.isActive.Some? ==> p.isActive == dto.isActive.value
    ensures dto.isFeatured.Some? ==> p.isFeatured == dto.isFeatured.value
    ensures dto.categoryId.Some? ==> p.categoryId == dto.categoryId
  {
    Product(before.id,
      dto.stockQuantity.GetOr(before.stockQuantity),
      dto.isActive.GetOr(before.isActive),
      dto.isFeatured.GetOr(before.isFeatured),
      if dto.categoryId.Some? then dto.categoryId else before.categoryId)
  }

  /** The writes of `update`, shared by both response variants. */
  function UpdateState(st: State, id: int, langId: int, dto: UpdateDto): State
    requires id in st.products
  {
    State(st.products[id := Updated(st.products[id], dto)], OnUpdate(Texts, st.overlay, id, langId, UpdateValues(dto)))
  }

  /**
   * `update` as written: the writes are right, but the response merges the
   * product record read BEFORE the update with the fresh translations.
   */
  function UpdateAsWritten(st: State, langs: Registry, id: int, code: string, dto: UpdateDto): (r: Result<(State, Detail)>)
    ensures r.Ok? <==> id in st.products && FindByCode(langs, code).Some?
    ensures r.Err? ==> r.error == NotFound
    ensures r.Ok? ==> r.value.1.product == st.products[id]
  {
    if id !in st.products then Err(NotFound)
    else
      match FindByCode(langs, code)
      case None => Err(NotFound)
      case Some(lang) =>
        var st' := UpdateState(st, id, lang.id, dto);
        Ok((st', Detail(st.products[id], ProjectAll(Texts, st'.overlay, langs, id))))
  }

  /**
   * The stale response: whenever the DTO changes an attribute, the response
   * of the as-written update disagrees with the record it stored.
   */
  lemma StaleUpdateResponse(st: State, langs: Registry, id: int, code: string, dto: UpdateDto)
    requires id in st.products && FindByCode(langs, code).Some?
    requires Updated(st.products[id], dto) != st.products[id]
    ensures var r := UpdateAsWritten(st, langs, id, code, dto).value;
      r.1.product != r.0.products[id]
  {
  }

  /**
   * `update`, with the response built from the updated record: both lookups
   * happen before any write; undefined attributes keep their values; the
   * defined texts are upserted for the one language.
   */
  function Update(st: State, langs: Registry, id: int, code: string, dto: UpdateDto): (r: Result<(State, Detail)>)
    ensures id !in st.products ==> r == Err(NotFound)
    ensures id in st.products && FindByCode(langs, code).None? ==> r == Err(NotFound)
    ensures r.Ok? <==> id in st.products && FindByCode(langs, code).Some?
    ensures r.Ok? ==>
      && r.value.0.products == st.products[id := Updated(st.products[id], dto)]
      && r.value.1 == DetailOf(r.value.0, langs, id)
  {
    if id !in st.products then Err(NotFound)
    else
      match FindByCode(langs, code)
      case None => Err(NotFound)
      case Some(lang) =>
        var st' := UpdateState(st, id, lang.id, dto);
        Ok((st', DetailOf(st', langs, id)))
  }

  /** Both variants perform the same writes; only the response differs. */
  lemma SameWrites(st: State, langs: Registry, id: int, code: string, dto: UpdateDto)
    ensures UpdateAsWritten(st, langs, id, code, dto).Ok? <==> Update(st, langs, id, code, dto).Ok?
    ensures Update(st, langs, id, code, dto).Ok? ==>
      UpdateAsWritten(st, langs, id, code, dto).value.0 == Update(st, langs, id, code, dto).value.0
  {
  }

  /**
   * The texts an update writes: the language's projection is overridden by
   * exactly the defined fields, every other language reads as before, no
   * row outside this product and language changes, and consistency holds.
   */
  lemma UpdateTexts(st: State, langs: Registry, id: int, code: string, dto: UpdateDto)
    requires id in st.products && FindByCode(langs, code).Some?
    ensures var st' := Update(st, langs, id, code, dto).value.0;
      var langId := FindByCode(langs, code).value.id;
      && ProjectOne(Texts, st'.overlay, id, langId) == ProjectOne(Texts, st.overlay, id, langId) + UpdateValues(dto)
      && (forall other :: other != langId ==> ProjectOne(Texts, st'.overlay, id, other) == ProjectOne(Texts, st.overlay, id, other))
      && (forall k :: k in st.overlay && !(OfRow(k, Table, id) && k.langId == langId) ==> k in st'.overlay && st'.overlay[k] == st.overlay[k])
      && (forall k :: k in st'.overlay ==> k in st.overlay || (OfRow(k, Table, id) && k.langId == langId))
      && (Consistent(st) ==> Consistent(st'))
  {
    var langId := FindByCode(langs, code).value.id;
    RestrictDeclared(Texts, UpdateValues(dto));
    PartialUpdate(Texts, st.overlay, id, langId, UpdateValues(dto));
    UpdateLanguageIsolation(Texts, st.overlay, id, langId, UpdateValues(dto));
  }

  /** `remove`: the record and every overlay row of it, in every language. */
  function Remove(st: State, id: int): (r: Result<(State, Product)>)
    ensures r.Err? <==> id !in st.products
    ensures r.Err? ==> r.error == NotFound
    ensures r.Ok? ==>
      && r.value.1 == st.products[id]
      && r.value.0.products == st.products - {id}
      && (forall k :: k in r.value.0.overlay <==> k in st.overlay && !OfRow(k, Table, id))
      && (forall k :: k in r.value.0.overlay ==> r.value.0.overlay[k] == st.overlay[k])
  {
    if id !in st.products then Err(NotFound)
    else Ok((State(st.products - {id}, OnDelete(Texts, st.overlay, id)), st.products[id]))
  }

  /** After remove no language has an entry for the product, and consistency holds. */
  lemma RemoveLeavesNothing(st: State, langs: Registry, id: int)
    requires id in st.products
    ensures var st' := Remove(st, id).value.0;
      && ProjectAll(Texts, st'.overlay, langs, id) == map[]
      && (Consistent(st) ==> Consistent(st'))
  {
    DeleteLeavesNothing(Texts, st.overlay, langs, id, 0);
  }

  /**
   * Each language entry of the all-language view starts as three `''`
   * fields that stored rows overwrite: a field without a row reads `''`.
   */
  lemma GroupDefaults(st: State, langs: Registry, id: int, l: Language)
    requires WellFormed(langs) && l in langs
    requires l.code in ProjectAll(Texts, st.overlay, langs, id)
    ensures var e := ProjectAll(Texts, st.overlay, langs, id)[l.code];
      && e.Keys == {"name", "slug", "description"}
      && forall f :: f in e ==> e[f] == Content(st.overlay, Key(Table, id, f, l.id))
  {
    ProjectionsAgree(Texts, st.overlay, langs, id, l);
    var e := ProjectAll(Texts, st.overlay, langs, id)[l.code];
    var found := FindByCode(langs, l.code).value;
    CodeDeterminesLanguage(langs, l, found);
    SetsEqual(e.Keys, {"name", "slug", "description"});
  }
}
