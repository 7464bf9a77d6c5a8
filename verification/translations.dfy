/**
 * The static translation service: rows of (key, language, value), read
 * back for one language as a key-to-value map.
 */
module StaticTranslations {
  import opened Results
  import opened Languages
  import Ordering

  /** A translation row, with the key's text and the language row it refers to. */
  datatype Translation = Translation(id: int, key: string, languageId: int, value: string, language: Language)

  datatype State = State(rows: map<int, Translation>)

  /** The language part of the response: id, code and name. */
  datatype LanguageInfo = LanguageInfo(id: int, code: string, name: string)

  datatype ByLanguage = ByLanguage(language: LanguageInfo, translations: map<string, string>, message: string, statusCode: int)

  /** Rows are stored under their own ids and carry the language their `languageId` names. */
  predicate Consistent(st: State)
  {
    forall id :: id in st.rows ==> st.rows[id].id == id && st.rows[id].language.id == st.rows[id].languageId
  }

  /** The ids of one language's rows. */
  function IdsOf(st: State, languageId: int): set<int>
  {
    set id | id in st.rows && st.rows[id].languageId == languageId
  }

  /** `orderBy: { id: 'asc' }` over one language's rows. */
  function RowOrder(st: State, languageId: int): (ids: seq<int>)
    ensures Ordering.StrictlyIncreasing(ids)
    ensures forall i :: 0 <= i < |ids| ==> ids[i] in st.rows && st.rows[ids[i]].languageId == languageId
    ensures forall id :: id in st.rows && st.rows[id].languageId == languageId ==> id in ids
  {
    var ids := Ordering.Ascending(IdsOf(st, languageId));
    assert forall i :: 0 <= i < |ids| ==> ids[i] in IdsOf(st, languageId) by {
      forall i | 0 <= i < |ids| ensures ids[i] in IdsOf(st, languageId) { assert ids[i] in ids; }
    }
    ids
  }

  /** `findMany({ where: { languageId }, orderBy: { id: 'asc' } })`. */
  function RowsOf(st: State, languageId: int): (r: seq<Translation>)
    ensures |r| == |RowOrder(st, languageId)|
    ensures forall i :: 0 <= i < |r| ==> r[i] == st.rows[RowOrder(st, languageId)[i]]
  {
    var ids := RowOrder(st, languageId);
    seq(|ids|, i requires 0 <= i < |ids| => st.rows[ids[i]])
  }

  /** The `reduce`: each row writes its value under its key, so a later row overwrites an earlier one. */
  function Fold(rows: seq<Translation>): map<string, string>
    decreases |rows|
  {
    if |rows| == 0 then map[]
    else Fold(rows[..|rows| - 1])[rows[|rows| - 1].key := rows[|rows| - 1].value]
  }

  /** Row `i` is the last of `rows` with its key. */
  predicate LastOfKey(rows: seq<Translation>, i: int)
  {
    0 <= i < |rows| && forall j :: i < j < |rows| ==> rows[j].key != rows[i].key
  }

  /** Independent description of the fold's keys: a key is present exactly when some row has it. */
  lemma {:induction false} FoldKeys(rows: seq<Translation>)
    ensures forall k :: k in Fold(rows) <==> exists i :: 0 <= i < |rows| && rows[i].key == k
    decreases |rows|
  {
    if |rows| > 0 {
      var n := |rows| - 1;
      var init := rows[..n];
      FoldKeys(init);
      forall k ensures k in Fold(rows) <==> exists i :: 0 <= i < |rows| && rows[i].key == k {
        if k in Fold(rows) && k != rows[n].key {
          assert k in Fold(init);
          var i :| 0 <= i < |init| && init[i].key == k;
          assert rows[i].key == k;
        }
        if k != rows[n].key && exists i :: 0 <= i < |rows| && rows[i].key == k {
          var i :| 0 <= i < |rows| && rows[i].key == k;
          assert init[i].key == k;
        }
      }
    }
  }

  /** Independent description of the fold's values: each key maps to the value of the last row with it. */
  lemma {:induction false} FoldLastWins(rows: seq<Translation>)
    ensures forall i :: LastOfKey(rows, i) ==> rows[i].key in Fold(rows) && Fold(rows)[rows[i].key] == rows[i].value
    decreases |rows|
  {
    if |rows| > 0 {
      var n := |rows| - 1;
      var init := rows[..n];
      FoldLastWins(init);
      forall i | LastOfKey(rows, i) ensures rows[i].key in Fold(rows) && Fold(rows)[rows[i].key] == rows[i].value {
        if i < n {
          assert rows[n].key != rows[i].key;
          assert LastOfKey(init, i) by {
            forall j | i < j < |init| ensures init[j].key != init[i].key {
              assert init[j] == rows[j];
            }
          }
          assert init[i] == rows[i];
        }
      }
    }
  }

  /** The fold written as the source's loop over the rows. */
  method Reduce(rows: seq<Translation>) returns (m: map<string, string>)
    ensures m == Fold(rows)
  {
    m := map[];
    for i := 0 to |rows|
      invariant m == Fold(rows[..i])
    {
      assert rows[..i + 1][..i] == rows[..i];
      m := m[rows[i].key := rows[i].value];
    }
    assert rows[..|rows|] == rows;
  }

  /** Row `id` is the language's row with the smallest id. */
  predicate FirstOfLanguage(st: State, languageId: int, id: int)
  {
    && id in st.rows && st.rows[id].languageId == languageId
    && forall other :: other in st.rows && st.rows[other].languageId == languageId ==> id <= other
  }

  function InfoOf(l: Language): LanguageInfo
  {
    LanguageInfo(l.id, l.code, l.name)
  }

  /**
   * `findByLanguage`: NotFound when the language has no rows; otherwise the
   * language of its first row by id, the folded map, `'successful'` and 200.
   */
  function FindByLanguage(st: State, languageId: int): (r: Result<ByLanguage>)
    ensures r.Err? <==> forall id :: id in st.rows ==> st.rows[id].languageId != languageId
    ensures r.Err? ==> r.error == NotFound
    ensures r.Ok? ==> r.value.message == "successful" && r.value.statusCode == 200
    ensures r.Ok? ==> exists id :: FirstOfLanguage(st, languageId, id) && r.value.language == InfoOf(st.rows[id].language)
    ensures r.Ok? && Consistent(st) ==> r.value.language.id == languageId
  {
    var rows := RowsOf(st, languageId);
    if |rows| == 0 then
      Err(NotFound)
    else
      var first := RowOrder(st, languageId)[0];
      assert forall other :: other in st.rows && st.rows[other].languageId == languageId ==> first <= other by {
        forall other | other in st.rows && st.rows[other].languageId == languageId ensures first <= other {
          var j :| 0 <= j < |RowOrder(st, languageId)| && RowOrder(st, languageId)[j] == other;
        }
      }
      assert FirstOfLanguage(st, languageId, first);
      Ok(ByLanguage(InfoOf(rows[0].language), Fold(rows), "successful", 200))
  }

  /**
   * The map holds exactly the keys of the language's rows, each with the
   * value of the row with the highest id among that language's rows with the key.
   */
  lemma FindByLanguageLastWins(st: State, languageId: int)
    requires FindByLanguage(st, languageId).Ok?
    ensures var m := FindByLanguage(st, languageId).value.translations;
      && (forall k :: k in m <==> exists id :: id in st.rows && st.rows[id].languageId == languageId && st.rows[id].key == k)
      && forall id :: id in st.rows && st.rows[id].languageId == languageId &&
          (forall later :: later in st.rows && st.rows[later].languageId == languageId && later > id ==> st.rows[later].key != st.rows[id].key)
          ==> st.rows[id].key in m && m[st.rows[id].key] == st.rows[id].value
  {
    var rows := RowsOf(st, languageId);
    var ids := RowOrder(st, languageId);
    var m := FindByLanguage(st, languageId).value.translations;
    assert m == Fold(rows);
    FoldKeys(rows);
    FoldLastWins(rows);
    forall k ensures k in m <==> exists id :: id in st.rows && st.rows[id].languageId == languageId && st.rows[id].key == k {
      if k in m {
        var i :| 0 <= i < |rows| && rows[i].key == k;
        assert st.rows[ids[i]].key == k;
      }
      if exists id :: id in st.rows && st.rows[id].languageId == languageId && st.rows[id].key == k {
        var id :| id in st.rows && st.rows[id].languageId == languageId && st.rows[id].key == k;
        var i :| 0 <= i < |ids| && ids[i] == id;
        assert rows[i].key == k;
      }
    }
    forall id | id in st.rows && st.rows[id].languageId == languageId &&
        (forall later :: later in st.rows && st.rows[later].languageId == languageId && later > id ==> st.rows[later].key != st.rows[id].key)
      ensures st.rows[id].key in m && m[st.rows[id].key] == st.rows[id].value
    {
      var i :| 0 <= i < |ids| && ids[i] == id;
      assert LastOfKey(rows, i) by {
        forall j | i < j < |rows| ensures rows[j].key != rows[i].key {
          assert ids[i] < ids[j];
        }
      }
    }
  }

  /** `findOne`: the row, or NotFound. */
  function FindOne(st: State, id: int): (r: Result<Translation>)
    ensures r.Ok? <==> id in st.rows
    ensures r.Err? ==> r.error == NotFound
    ensures r.Ok? ==> r.value == st.rows[id]
  {
    if id !in st.rows then Err(NotFound) else Ok(st.rows[id])
  }
}
