/**
 * The language registry: the list of registered languages that drives
 * translation fan-out and resolves a request's language code.
 */
module Languages {
  import opened Results

  datatype Language = Language(id: int, code: string, name: string, isDefault: bool)

  /** The rows of the language table, in the order the store lists them. */
  type Registry = seq<Language>

  /** The store keeps language ids and language codes unique. */
  predicate WellFormed(langs: Registry)
  {
    forall i, j :: 0 <= i < j < |langs| ==> langs[i].id != langs[j].id && langs[i].code != langs[j].code
  }

  /** A unique attribute of a language row, with the value a lookup asks for. */
  datatype Query = ById(id: int) | ByCode(code: string)

  predicate Matches(l: Language, q: Query)
  {
    match q
    case ById(id) => l.id == id
    case ByCode(code) => l.code == code
  }

  /** `language.findUnique` on one attribute: the first registered language that matches. */
  function FindBy(langs: Registry, q: Query): (r: Option<Language>)
    ensures r.Some? <==> exists l :: l in langs && Matches(l, q)
    ensures r.Some? ==> r.value in langs && Matches(r.value, q)
  {
    if |langs| == 0 then None
    else if Matches(langs[0], q) then Some(langs[0])
    else FindBy(langs[1..], q)
  }

  /** `language.findUnique({ where: { code } })`. */
  function FindByCode(langs: Registry, code: string): (r: Option<Language>)
    ensures r.Some? <==> exists l :: l in langs && l.code == code
    ensures r.Some? ==> r.value in langs && r.value.code == code
  {
    FindBy(langs, ByCode(code))
  }

  /** The language row an overlay row's `languageId` refers to. */
  function FindById(langs: Registry, id: int): Option<Language>
  {
    FindBy(langs, ById(id))
  }

  /** The ids of all registered languages. */
  function Ids(langs: Registry): set<int>
  {
    set l | l in langs :: l.id
  }

  /** In a well-formed registry a code names exactly one language. */
  lemma CodeDeterminesLanguage(langs: Registry, a: Language, b: Language)
    requires WellFormed(langs)
    requires a in langs && b in langs
    ensures a.code == b.code <==> a == b
  {
    var i :| 0 <= i < |langs| && langs[i] == a;
    var j :| 0 <= j < |langs| && langs[j] == b;
    if i < j || j < i {
      assert a.code != b.code && a != b;
    }
  }

  /** In a well-formed registry an id names exactly one language. */
  lemma IdDeterminesLanguage(langs: Registry, a: Language, b: Language)
    requires WellFormed(langs)
    requires a in langs && b in langs
    ensures a.id == b.id <==> a == b
  {
    var i :| 0 <= i < |langs| && langs[i] == a;
    var j :| 0 <= j < |langs| && langs[j] == b;
    if i < j || j < i {
      assert a.id != b.id && a != b;
    }
  }
}
