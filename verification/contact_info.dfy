/**
 * The contact-info service: a single record of contact details plus its
 * one translatable text, `address`, in the translation overlay.
 */
module ContactInfo {
  import opened Results
  import opened Languages
  import opened Overlay
  import opened Adapters
  import Ordering

  const Table := "ContactInfo"
  const Texts := Adapter(Table, ["address"], DeclaredFields)

  /** Coordinates are kept as opaque values: the service only copies them. */
  datatype Info = Info(id: int, phone: Option<string>, whatsapp: Option<string>, email: Option<string>,
                       latitude: Option<real>, longitude: Option<real>)

  datatype Dto = Dto(phone: Option<string>, whatsapp: Option<string>, email: Option<string>,
                     latitude: Option<real>, longitude: Option<real>, address: Option<string>)

  datatype State = State(records: map<int, Info>, overlay: Store)

  /** A record with its all-language `translations` (create and update responses). */
  datatype Detail = Detail(info: Info, translations: Grouping)

  /** The public read: the record when there is one, and the address in one language. */
  datatype View = View(info: Option<Info>, address: string)

  /**
   * Every record is stored under its own id, every overlay row of the table
   * belongs to an existing record, and there is at most one record.
   */
  predicate Consistent(st: State)
  {
    && (forall id :: id in st.records ==> st.records[id].id == id)
    && (forall k :: k in st.overlay && k.table == Table ==> k.rowId in st.records)
    && |st.records| <= 1
  }

  /** `findFirst()` without a filter: the record with the smallest id, if any. */
  function First(st: State): Option<int>
  {
    Ordering.FirstKey(st.records)
  }

  /** The address rows written on create: one per language, only for a non-empty address. */
  function CreateTexts(s: Store, langs: Registry, newId: int, address: Option<string>): Store
  {
    if Truthy(address) then OnCreate(Texts, s, langs, newId, map["address" := address.value]) else s
  }

  /**
   * `create`: rejected when any record exists; otherwise the record with
   * the DTO's details and, when the address is non-empty, its fan-out.
   */
  function Create(st: State, langs: Registry, dto: Dto, newId: int): (r: Result<(State, Detail)>)
    ensures r.Err? <==> |st.records| > 0
    ensures r.Err? ==> r.error == BadRequest
    ensures r.Ok? ==>
      && r.value.0.records == map[newId := r.value.1.info]
      && r.value.1.info == Info(newId, dto.phone, dto.whatsapp, dto.email, dto.latitude, dto.longitude)
      && (!Truthy(dto.address) ==> r.value.0.overlay == st.overlay)
      && (forall k :: k in st.overlay ==> k in r.value.0.overlay && r.value.0.overlay[k] == st.overlay[k])
      && (forall k :: k in r.value.0.overlay && k !in st.overlay ==> OfRow(k, Table, newId) && k.field == "address")
      && r.value.1.translations == ProjectAll(Texts, r.value.0.overlay, langs, newId)
  {
    if |st.records| > 0 then Err(BadRequest)
    else
      var info := Info(newId, dto.phone, dto.whatsapp, dto.email, dto.latitude, dto.longitude);
      var overlay := CreateTexts(st.overlay, langs, newId, dto.address);
      Ok((State(map[newId := info], overlay), Detail(info, ProjectAll(Texts, overlay, langs, newId))))
  }

  /**
   * After create every registered language reads the address when it was
   * non-empty, and `''` otherwise.
   */
  lemma CreateAddress(st: State, langs: Registry, dto: Dto, newId: int)
    requires Consistent(st) && |st.records| == 0
    ensures var st' := Create(st, langs, dto, newId).value.0;
      forall l :: l in langs ==>
        ProjectOne(Texts, st'.overlay, newId, l.id) == map["address" := if Truthy(dto.address) then dto.address.value else ""]
  {
    var st' := Create(st, langs, dto, newId).value.0;
    assert st.records.Keys == {};
    assert NoRows(st.overlay, Texts.table, newId);
    if Truthy(dto.address) {
      FanOutComplete(Texts, st.overlay, langs, newId, map["address" := dto.address.value]);
    } else {
      forall l | l in langs ensures ProjectOne(Texts, st'.overlay, newId, l.id) == map["address" := ""] {
        assert Key(Table, newId, "address", l.id) !in st.overlay;
        MapsEqual(ProjectOne(Texts, st'.overlay, newId, l.id), map["address" := ""]);
      }
    }
  }

  /** Create keeps the state consistent, with exactly one record. */
  lemma CreateConsistent(st: State, langs: Registry, dto: Dto, newId: int)
    requires Consistent(st) && |st.records| == 0
    ensures var st' := Create(st, langs, dto, newId).value.0;
      Consistent(st') && |st'.records| == 1
  {
    var st' := Create(st, langs, dto, newId).value.0;
    assert st.records.Keys == {};
    forall k | k in st'.overlay && k.table == Table ensures k.rowId in st'.records {
      assert k !in st.overlay;
    }
  }

  /**
   * `getByLanguage`: never fails. Without a record the rows of id 0 are
   * read; an unknown language reads no rows; a missing address reads `''`.
   */
  function FindByLanguage(st: State, langs: Registry, code: string): (r: View)
    ensures r.info.Some? <==> |st.records| > 0
    ensures r.info.Some? ==> r.info.value == st.records[First(st).value]
    ensures FindByCode(langs, code).None? ==> r.address == ""
    ensures FindByCode(langs, code).Some? ==>
      r.address == Content(st.overlay, Key(Table, First(st).GetOr(0), "address", FindByCode(langs, code).value.id))
  {
    var info := if First(st).Some? then Some(st.records[First(st).value]) else None;
    var rowId := First(st).GetOr(0);
    match FindByCode(langs, code)
    case None => View(info, "")
    case Some(lang) => View(info, ProjectOne(Texts, st.overlay, rowId, lang.id)["address"])
  }

  /** The record after an update: each detail the DTO leaves undefined keeps its value. */
  function Updated(before: Info, dto: Dto): (i: Info)
    ensures i.id == before.id
    ensures dto.phone.Some? ==> i.phone == dto.phone
    ensures dto.whatsapp.Some? ==> i.whatsapp == dto.whatsapp
    ensures dto.email.Some? ==> i.email == dto.email
    ensures dto.latitude.Some? ==> i.latitude == dto.latitude
    ensures dto.longitude.Some? ==> i.longitude == dto.longitude
    ensures dto.phone.None? ==> i.phone == before.phone
    ensures dto.whatsapp.None? ==> i.whatsapp == before.whatsapp
    ensures dto.email.None? ==> i.email == before.email
    ensures dto.latitude.None? ==> i.latitude == before.latitude
    ensures dto.longitude.None? ==> i.longitude == before.longitude
  {
    Info(before.id,
      if dto.phone.Some? then dto.phone else before.phone,
      if dto.whatsapp.Some? then dto.whatsapp else before.whatsapp,
      if dto.email.Some? then dto.email else before.email,
      if dto.latitude.Some? then dto.latitude else before.latitude,
      if dto.longitude.Some? then dto.longitude else before.longitude)
  }

  /**
   * `update`: the record is looked up before the language and both before
   * any write; undefined details keep their values; a defined address
   * (even `''`) is upserted for the one language.
   */
  function Update(st: State, langs: Registry, id: int, code: string, dto: Dto): (r: Result<(State, Detail)>)
    ensures id !in st.records ==> r == Err(NotFound)
    ensures id in st.records && FindByCode(langs, code).None? ==> r == Err(NotFound)
    ensures r.Ok? <==> id in st.records && FindByCode(langs, code).Some?
    ensures r.Ok? ==>
      && r.value.0.records == st.records[id := Updated(st.records[id], dto)]
      && r.value.1.info == Updated(st.records[id], dto)
      && (dto.address.None? ==> r.value.0.overlay == st.overlay)
      && r.value.1.translations == ProjectAll(Texts, r.value.0.overlay, langs, id)
  {
    if id !in st.records then Err(NotFound)
    else
      match FindByCode(langs, code)
      case None => Err(NotFound)
      case Some(lang) =>
        var updated := Updated(st.records[id], dto);
        var overlay := if dto.address.Some? then OnUpdate(Texts, st.overlay, id, lang.id, map["address" := dto.address.value]) else st.overlay;
        Ok((State(st.records[id := updated], overlay), Detail(updated, ProjectAll(Texts, overlay, langs, id))))
  }

  /**
   * After an update with an address, the language reads the new address,
   * every other language reads as before, and consistency holds.
   */
  lemma UpdateAddress(st: State, langs: Registry, id: int, code: string, dto: Dto)
    requires id in st.records && FindByCode(langs, code).Some?
    requires dto.address.Some?
    ensures var st' := Update(st, langs, id, code, dto).value.0;
      var langId := FindByCode(langs, code).value.id;
      && FindByLanguage(st', langs, code).address == (if First(st') == Some(id) then dto.address.value else FindByLanguage(st, langs, code).address)
      && (forall other :: other != langId ==> ProjectOne(Texts, st'.overlay, id, other) == ProjectOne(Texts, st.overlay, id, other))
      && (Consistent(st) ==> Consistent(st'))
  {
    var st' := Update(st, langs, id, code, dto).value.0;
    var langId := FindByCode(langs, code).value.id;
    var values := map["address" := dto.address.value];
    UpdateLanguageIsolation(Texts, st.overlay, id, langId, values);
    assert st'.records.Keys == st.records.Keys;
    SetsEqual(st'.records.Keys, st.records.Keys);
    assert First(st') == First(st);
  }

  /** `remove`: the record and every overlay row of it, in every language. */
  function Remove(st: State, id: int): Result<(State, Info)>
  {
    match RemoveRecord(Texts, st.records, st.overlay, id)
    case Err(e) => Err(e)
    case Ok((records, overlay, removed)) => Ok((State(records, overlay), removed))
  }

  /**
   * Removing the only record leaves the public read without a record and
   * with no address in any language, and a new create is accepted again.
   */
  lemma RemoveThenRead(st: State, langs: Registry, id: int, code: string, dto: Dto, newId: int)
    requires Consistent(st) && id in st.records
    ensures var st' := Remove(st, id).value.0;
      && FindByLanguage(st', langs, code).info.None?
      && ProjectAll(Texts, st'.overlay, langs, id) == map[]
      && Create(st', langs, dto, newId).Ok?
  {
    var st' := Remove(st, id).value.0;
    assert st'.records.Keys == st.records.Keys - {id};
    assert |st.records.Keys - {id}| == |st.records.Keys| - 1;
    DeleteLeavesNothing(Texts, st.overlay, langs, id, 0);
  }
}
