/**
 * The contact-request service: visitor requests, listed newest first, whose
 * status alone an administrator may change.
 */
module ContactRequests {
  import opened Results
  import Ordering

  /** A stored request; `createdAt` is the store's clock reading. */
  datatype Request = Request(id: int, name: string, phone: string, email: string, message: string, status: string, createdAt: int)

  datatype State = State(requests: map<int, Request>)

  /** The statuses `updateStatus` accepts. */
  const Allowed: seq<string> := ["pending", "in_progress", "completed"]

  /** `findOne`: the request, or NotFound. */
  function FindOne(st: State, id: int): (r: Result<Request>)
    ensures r.Ok? <==> id in st.requests
    ensures r.Err? ==> r.error == NotFound
    ensures r.Ok? ==> r.value == st.requests[id]
  {
    if id !in st.requests then Err(NotFound) else Ok(st.requests[id])
  }

  /** `remove`: NotFound for an unknown id, otherwise the request is deleted and returned. */
  function Remove(st: State, id: int): (r: Result<(State, Request)>)
    ensures r.Err? <==> id !in st.requests
    ensures r.Err? ==> r.error == NotFound
    ensures r.Ok? ==> r.value.1 == st.requests[id] && id !in r.value.0.requests
    ensures r.Ok? ==> forall other :: other != id ==> (other in r.value.0.requests <==> other in st.requests)
    ensures r.Ok? ==> forall other :: other in r.value.0.requests ==> r.value.0.requests[other] == st.requests[other]
  {
    if id !in st.requests then Err(NotFound)
    else Ok((State(st.requests - {id}), st.requests[id]))
  }

  /**
   * `updateStatus`: NotFound for an unknown id, checked first; then
   * BadRequest for a missing or empty status, and for one outside the
   * allowed list; otherwise only the status is written.
   */
  function UpdateStatus(st: State, id: int, status: Option<string>): (r: Result<(State, Request)>)
    ensures id !in st.requests ==> r == Err(NotFound)
    ensures id in st.requests && !Truthy(status) ==> r == Err(BadRequest)
    ensures id in st.requests && Truthy(status) && status.value !in Allowed ==> r == Err(BadRequest)
    ensures r.Ok? <==> id in st.requests && status.Some? && status.value in Allowed
    ensures r.Ok? ==>
      var (st', updated) := r.value;
      && updated == st.requests[id].(status := status.value)
      && st'.requests == st.requests[id := updated]
  {
    if id !in st.requests then Err(NotFound)
    else if !Truthy(status) then Err(BadRequest)
    else if status.value !in Allowed then Err(BadRequest)
    else
      var updated := st.requests[id].(status := status.value);
      Ok((State(st.requests[id := updated]), updated))
  }

  /**
   * Only the status moves: every other attribute of the request, and every
   * other request, is as before; and a second identical update changes nothing.
   */
  lemma UpdateStatusOnlyStatus(st: State, id: int, status: Option<string>)
    requires UpdateStatus(st, id, status).Ok?
    ensures var (st', updated) := UpdateStatus(st, id, status).value;
      var before := st.requests[id];
      && updated.id == before.id && updated.name == before.name && updated.phone == before.phone
      && updated.email == before.email && updated.message == before.message && updated.createdAt == before.createdAt
      && updated.status in Allowed
      && st'.requests.Keys == st.requests.Keys
      && (forall other :: other in st.requests && other != id ==> st'.requests[other] == st.requests[other])
      && UpdateStatus(st', id, status).Ok? && UpdateStatus(st', id, status).value.0 == st'
  {
    var st' := UpdateStatus(st, id, status).value.0;
    MapsEqual(st'.requests[id := st'.requests[id]], st'.requests);
  }

  /** The presence check is subsumed by the whitelist: no empty string is allowed. */
  lemma StatusChecksAgree(st: State, id: int, status: Option<string>)
    requires id in st.requests
    ensures UpdateStatus(st, id, status).Err? <==> status.None? || status.value !in Allowed
  {
  }

  /** Newest first: `createdAt` never increases along the list. */
  predicate Newest(s: seq<Request>)
  {
    forall i, j :: 0 <= i < j < |s| ==> s[i].createdAt >= s[j].createdAt
  }

  /** Places `x` into a newest-first list, ahead of the requests no newer than it. */
  function Insert(x: Request, s: seq<Request>): (r: seq<Request>)
    requires Newest(s)
    ensures Newest(r)
    ensures forall y :: y in r ==> y == x || y in s
    ensures multiset(r) == multiset(s) + multiset{x}
    decreases |s|
  {
    if |s| == 0 || x.createdAt >= s[0].createdAt then [x] + s
    else
      var rest := Insert(x, s[1..]);
      var r := [s[0]] + rest;
      assert Newest(r) by {
        forall j | 0 < j < |r| ensures r[0].createdAt >= r[j].createdAt {
          assert r[j] in rest;
          if r[j] != x {
            var k :| 0 <= k < |s[1..]| && s[1..][k] == r[j];
            assert s[k + 1] == r[j];
          }
        }
      }
      assert multiset(r) == multiset(s) + multiset{x} by {
        assert s == [s[0]] + s[1..];
        assert multiset(r) == multiset([s[0]]) + multiset(rest);
        assert multiset(s) == multiset([s[0]]) + multiset(s[1..]);
      }
      r
  }

  /** Insertion sort by `createdAt`, newest first. */
  function SortNewest(s: seq<Request>): (r: seq<Request>)
    ensures Newest(r)
    ensures multiset(r) == multiset(s)
    decreases |s|
  {
    if |s| == 0 then []
    else
      assert s == [s[0]] + s[1..];
      Insert(s[0], SortNewest(s[1..]))
  }

  /** Requests are stored under their own ids. */
  predicate Consistent(st: State)
  {
    forall id :: id in st.requests ==> st.requests[id].id == id
  }

  /** The requests in ascending id: the order the sort starts from. */
  function Listed(st: State): (r: seq<Request>)
    ensures |r| == |Ordering.Ascending(st.requests.Keys)|
    ensures forall i :: 0 <= i < |r| ==> r[i] == st.requests[Ordering.Ascending(st.requests.Keys)[i]]
  {
    var ids := Ordering.Ascending(st.requests.Keys);
    assert forall i :: 0 <= i < |ids| ==> ids[i] in st.requests by {
      forall i | 0 <= i < |ids| ensures ids[i] in st.requests { assert ids[i] in ids; }
    }
    seq(|ids|, i requires 0 <= i < |ids| => st.requests[ids[i]])
  }

  /**
   * `findAll` with `orderBy: { createdAt: 'desc' }`: the stored requests,
   * newest first.
   */
  function FindAll(st: State): (r: seq<Request>)
    ensures Newest(r)
    ensures multiset(r) == multiset(Listed(st))
    ensures |r| == |st.requests|
  {
    var r := SortNewest(Listed(st));
    assert |r| == |multiset(r)| == |multiset(Listed(st))| == |Listed(st)|;
    r
  }

  /** The list holds every stored request and nothing else, as many entries as there are requests. */
  lemma FindAllExact(st: State)
    requires Consistent(st)
    ensures var r := FindAll(st);
      && (forall id :: id in st.requests ==> st.requests[id] in r)
      && (forall i :: 0 <= i < |r| ==> r[i].id in st.requests && st.requests[r[i].id] == r[i])
  {
    var r := FindAll(st);
    var l := Listed(st);
    var ids := Ordering.Ascending(st.requests.Keys);
    forall id | id in st.requests ensures st.requests[id] in r {
      var i :| 0 <= i < |ids| && ids[i] == id;
      assert l[i] in multiset(l);
    }
    forall i | 0 <= i < |r| ensures r[i].id in st.requests && st.requests[r[i].id] == r[i] {
      assert r[i] in multiset(l);
      var j :| 0 <= j < |l| && l[j] == r[i];
      assert ids[j] in ids;
    }
  }
}
