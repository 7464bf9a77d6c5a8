/**
 * The JWT strategy: the start-up secret check and `validate`, which turns a
 * token's subject into the request principal (its roles, and the
 * permissions of all its roles de-duplicated by id).
 */
module Auth {
  import opened Results

  datatype Permission = Permission(id: int, name: string, endpoint: string)

  /** A stored role with the permissions its role-permission links point to. */
  datatype Role = Role(id: int, name: string, description: Option<string>, permissions: seq<Permission>)

  /** A stored user with the roles its user-role links point to, in link order. */
  datatype Account = Account(id: int, email: string, roles: seq<Role>)

  datatype RoleSummary = RoleSummary(id: int, name: string, description: Option<string>)

  /** What `validate` returns and the guard later reads as `request.user`. */
  datatype Principal = Principal(id: int, email: string, roles: seq<RoleSummary>, permissions: seq<Permission>)

  /** The constructor: an undefined or empty `JWT_SECRET` stops the application. */
  function Configure(secret: Option<string>): (r: Result<string>)
    ensures r.Ok? <==> Truthy(secret)
    ensures r.Err? ==> r.error == Misconfigured
    ensures r.Ok? ==> r.value == secret.value && r.value != ""
  {
    if !Truthy(secret) then Err(Misconfigured) else Ok(secret.value)
  }

  /** `userRoles.map(ur => ({ id, name, description }))`. */
  function Summaries(roles: seq<Role>): (r: seq<RoleSummary>)
    ensures |r| == |roles|
    ensures forall i :: 0 <= i < |roles| ==>
      r[i] == RoleSummary(roles[i].id, roles[i].name, roles[i].description)
  {
    seq(|roles|, i requires 0 <= i < |roles| => RoleSummary(roles[i].id, roles[i].name, roles[i].description))
  }

  /** `userRoles.flatMap(ur => ur.role.rolePermissions.map(...))`. */
  function Granted(roles: seq<Role>): (ps: seq<Permission>)
    ensures forall p :: p in ps <==> exists i :: 0 <= i < |roles| && p in roles[i].permissions
  {
    if |roles| == 0 then []
    else
      var rest := Granted(roles[1..]);
      assert forall p :: p in rest <==> exists i :: 1 <= i < |roles| && p in roles[i].permissions by {
        forall p ensures p in rest <==> exists i :: 1 <= i < |roles| && p in roles[i].permissions {
          if p in rest {
            var j :| 0 <= j < |roles[1..]| && p in roles[1..][j].permissions;
            assert p in roles[j + 1].permissions;
          }
          if exists i :: 1 <= i < |roles| && p in roles[i].permissions {
            var i :| 1 <= i < |roles| && p in roles[i].permissions;
            assert p in roles[1..][i - 1].permissions;
          }
        }
      }
      roles[0].permissions + rest
  }

  // ---------------------------------------------------------------
  // De-duplication by id: `new Map(ps.map(p => [p.id, p])).values()`
  // ---------------------------------------------------------------

  /** Some element of `ps` has this id. */
  ghost predicate Occurs(ps: seq<Permission>, id: int)
  {
    exists i :: 0 <= i < |ps| && ps[i].id == id
  }

  /** The Map's key order: each id once, at the place it first occurs. */
  function KeyOrder(ps: seq<Permission>): (ids: seq<int>)
    ensures Distinct(ids)
    ensures forall id :: id in ids <==> Occurs(ps, id)
    decreases |ps|
  {
    if |ps| == 0 then []
    else
      var init := ps[..|ps| - 1];
      var rest := KeyOrder(init);
      var id := ps[|ps| - 1].id;
      assert forall x :: Occurs(ps, x) <==> Occurs(init, x) || x == id by {
        forall x ensures Occurs(ps, x) <==> Occurs(init, x) || x == id {
          if Occurs(init, x) {
            var i :| 0 <= i < |init| && init[i].id == x;
            assert ps[i].id == x;
          }
          if Occurs(ps, x) && x != id {
            var i :| 0 <= i < |ps| && ps[i].id == x;
            assert init[i].id == x;
          }
        }
      }
      if id in rest then rest else rest + [id]
  }

  /** The Map's values: for each id, the element set last. */
  function LastById(ps: seq<Permission>): (m: map<int, Permission>)
    ensures forall id :: id in m <==> Occurs(ps, id)
    ensures forall id :: id in m ==> m[id].id == id
    decreases |ps|
  {
    if |ps| == 0 then map[]
    else
      var init := ps[..|ps| - 1];
      var last := ps[|ps| - 1];
      var rest := LastById(init);
      assert forall x :: Occurs(ps, x) <==> Occurs(init, x) || x == last.id by {
        forall x ensures Occurs(ps, x) <==> Occurs(init, x) || x == last.id {
          if Occurs(init, x) {
            var i :| 0 <= i < |init| && init[i].id == x;
            assert ps[i].id == x;
          }
          if Occurs(ps, x) && x != last.id {
            var i :| 0 <= i < |ps| && ps[i].id == x;
            assert init[i].id == x;
          }
        }
      }
      rest[last.id := last]
  }

  /** The de-duplicated list: the last element per id, in first-occurrence order of the ids. */
  function Dedupe(ps: seq<Permission>): (r: seq<Permission>)
    ensures |r| == |KeyOrder(ps)|
    ensures forall i :: 0 <= i < |r| ==> KeyOrder(ps)[i] in LastById(ps) && r[i] == LastById(ps)[KeyOrder(ps)[i]]
  {
    var ids := KeyOrder(ps);
    var m := LastById(ps);
    assert forall i :: 0 <= i < |ids| ==> ids[i] in m by {
      forall i | 0 <= i < |ids| ensures ids[i] in m { assert ids[i] in ids; assert Occurs(ps, ids[i]); }
    }
    seq(|ids|, i requires 0 <= i < |ids| => m[ids[i]])
  }

  /** One step of the Map: the next element either adds a new key or overwrites a value. */
  lemma MapStep(ps: seq<Permission>, i: int)
    requires 0 <= i < |ps|
    ensures KeyOrder(ps[..i + 1]) ==
      if ps[i].id in LastById(ps[..i]) then KeyOrder(ps[..i]) else KeyOrder(ps[..i]) + [ps[i].id]
    ensures LastById(ps[..i + 1]) == LastById(ps[..i])[ps[i].id := ps[i]]
  {
    assert ps[..i + 1][..i] == ps[..i];
    var id := ps[i].id;
    assert id in KeyOrder(ps[..i]) <==> Occurs(ps[..i], id);
  }

  /**
   * The loop the JavaScript Map performs: walk the list, append an id to
   * the key order when it is new, and overwrite the id's value every time;
   * then read the values in key order.
   */
  method DedupeByMap(ps: seq<Permission>) returns (r: seq<Permission>)
    ensures r == Dedupe(ps)
  {
    var keys: seq<int> := [];
    var values: map<int, Permission> := map[];
    for i := 0 to |ps|
      invariant keys == KeyOrder(ps[..i])
      invariant values == LastById(ps[..i])
    {
      MapStep(ps, i);
      if ps[i].id !in values {
        keys := keys + [ps[i].id];
      }
      values := values[ps[i].id := ps[i]];
    }
    assert ps[..|ps|] == ps;
    r := ValuesInOrder(ps, keys, values);
  }

  method ValuesInOrder(ps: seq<Permission>, keys: seq<int>, values: map<int, Permission>) returns (r: seq<Permission>)
    requires keys == KeyOrder(ps) && values == LastById(ps)
    ensures r == Dedupe(ps)
  {
    assert forall j :: 0 <= j < |keys| ==> keys[j] in values by {
      forall j | 0 <= j < |keys| ensures keys[j] in values { assert keys[j] in keys; assert Occurs(ps, keys[j]); }
    }
    r := [];
    for i := 0 to |keys|
      invariant |r| == i
      invariant forall j :: 0 <= j < i ==> r[j] == values[keys[j]]
    {
      r := r + [values[keys[i]]];
    }
  }

  /** The ids of the de-duplicated list are pairwise distinct. */
  lemma DedupeDistinct(ps: seq<Permission>)
    ensures forall i, j :: 0 <= i < j < |Dedupe(ps)| ==> Dedupe(ps)[i].id != Dedupe(ps)[j].id
  {
    var r := Dedupe(ps);
    forall i, j | 0 <= i < j < |r| ensures r[i].id != r[j].id {
      assert r[i].id == KeyOrder(ps)[i] && r[j].id == KeyOrder(ps)[j];
    }
  }

  /**
   * The de-duplicated list keeps, for each id, the element of the input
   * that no later element with that id follows.
   */
  lemma DedupeKeepsLast(ps: seq<Permission>)
    ensures forall i :: 0 <= i < |Dedupe(ps)| ==>
      exists k :: 0 <= k < |ps| && ps[k] == Dedupe(ps)[i] && forall j :: k < j < |ps| ==> ps[j].id != ps[k].id
  {
    var r := Dedupe(ps);
    forall i | 0 <= i < |r|
      ensures exists k :: 0 <= k < |ps| && ps[k] == r[i] && forall j :: k < j < |ps| ==> ps[j].id != ps[k].id
    {
      var id := KeyOrder(ps)[i];
      LastIsLast(ps, id);
    }
  }

  lemma {:induction false} LastIsLast(ps: seq<Permission>, id: int)
    requires id in LastById(ps)
    ensures exists k :: 0 <= k < |ps| && ps[k] == LastById(ps)[id] && forall j :: k < j < |ps| ==> ps[j].id != id
    decreases |ps|
  {
    var init := ps[..|ps| - 1];
    var last := ps[|ps| - 1];
    if last.id == id {
      assert ps[|ps| - 1] == LastById(ps)[id];
    } else {
      LastIsLast(init, id);
      var k :| 0 <= k < |init| && init[k] == LastById(init)[id] && forall j :: k < j < |init| ==> init[j].id != id;
      assert ps[k] == LastById(ps)[id];
      forall j | k < j < |ps| ensures ps[j].id != id {
        if j < |init| { assert ps[j] == init[j]; }
      }
    }
  }

  /**
   * First-occurrence order: when id `a` precedes id `b` in the key order,
   * every occurrence of `b` in the input has an occurrence of `a` before it.
   */
  lemma {:induction false} KeyOrderFirstOccurrence(ps: seq<Permission>)
    ensures forall i, j :: 0 <= i < j < |KeyOrder(ps)| ==>
      forall b :: 0 <= b < |ps| && ps[b].id == KeyOrder(ps)[j] ==>
        exists a :: 0 <= a < b && ps[a].id == KeyOrder(ps)[i]
    decreases |ps|
  {
    if |ps| > 0 {
      var init := ps[..|ps| - 1];
      var ids := KeyOrder(ps);
      var rest := KeyOrder(init);
      KeyOrderFirstOccurrence(init);
      forall i, j | 0 <= i < j < |ids|
        ensures forall b :: 0 <= b < |ps| && ps[b].id == ids[j] ==> exists a :: 0 <= a < b && ps[a].id == ids[i]
      {
        forall b | 0 <= b < |ps| && ps[b].id == ids[j] ensures exists a :: 0 <= a < b && ps[a].id == ids[i] {
          assert ids[i] == rest[i];
          assert ids[i] in rest;
          assert Occurs(init, ids[i]);
          if j < |rest| {
            assert ids[j] == rest[j];
            if b < |init| {
              assert init[b].id == rest[j];
              var a :| 0 <= a < b && init[a].id == rest[i];
              assert ps[a].id == ids[i];
            } else {
              var a :| 0 <= a < |init| && init[a].id == ids[i];
              assert ps[a].id == ids[i];
            }
          } else {
            assert ids[j] !in rest;
            assert b == |ps| - 1;
            var a :| 0 <= a < |init| && init[a].id == ids[i];
            assert ps[a].id == ids[i];
          }
        }
      }
    }
  }

  /**
   * When permission ids identify permissions (the store's primary key), the
   * de-duplicated list holds exactly the permissions of the input.
   */
  ghost predicate IdsIdentify(ps: seq<Permission>)
  {
    forall i, j :: 0 <= i < |ps| && 0 <= j < |ps| && ps[i].id == ps[j].id ==> ps[i] == ps[j]
  }

  lemma DedupeSameMembers(ps: seq<Permission>)
    requires IdsIdentify(ps)
    ensures forall p :: p in Dedupe(ps) <==> p in ps
  {
    var r := Dedupe(ps);
    forall p | p in r ensures p in ps {
      var i :| 0 <= i < |r| && r[i] == p;
      LastIsLast(ps, KeyOrder(ps)[i]);
    }
    forall p | p in ps ensures p in r {
      var b :| 0 <= b < |ps| && ps[b] == p;
      assert Occurs(ps, p.id);
      var i :| 0 <= i < |KeyOrder(ps)| && KeyOrder(ps)[i] == p.id;
      LastIsLast(ps, p.id);
      var k :| 0 <= k < |ps| && ps[k] == LastById(ps)[p.id] && forall j :: k < j < |ps| ==> ps[j].id != p.id;
      assert ps[k].id == p.id;
      assert r[i] == p;
    }
  }

  /**
   * `validate`: an unknown subject is unauthorized; otherwise the principal
   * carries the user's id and email, one role summary per role link, and
   * the de-duplicated permissions of all its roles.
   */
  function Validate(accounts: map<int, Account>, sub: int): (r: Result<Principal>)
    ensures r.Err? <==> sub !in accounts
    ensures r.Err? ==> r.error == Unauthorized
    ensures r.Ok? ==>
      && r.value.id == accounts[sub].id
      && r.value.email == accounts[sub].email
      && |r.value.roles| == |accounts[sub].roles|
      && (forall i :: 0 <= i < |r.value.roles| ==> r.value.roles[i].id == accounts[sub].roles[i].id)
  {
    if sub !in accounts then Err(Unauthorized)
    else
      var u := accounts[sub];
      Ok(Principal(u.id, u.email, Summaries(u.roles), Dedupe(Granted(u.roles))))
  }

  /** Some role of the list grants a permission with this id. */
  ghost predicate GrantsId(roles: seq<Role>, id: int)
  {
    exists k, p :: 0 <= k < |roles| && p in roles[k].permissions && p.id == id
  }

  /** The principal's permission ids are pairwise distinct. */
  lemma ValidateDistinct(accounts: map<int, Account>, sub: int)
    requires sub in accounts
    ensures var ps := Validate(accounts, sub).value.permissions;
      forall i, j :: 0 <= i < j < |ps| ==> ps[i].id != ps[j].id
  {
    DedupeDistinct(Granted(accounts[sub].roles));
  }

  /** A permission id is held exactly when some role of the user grants it. */
  lemma ValidateIds(accounts: map<int, Account>, sub: int)
    requires sub in accounts
    ensures var ps := Validate(accounts, sub).value.permissions;
      forall id :: Occurs(ps, id) <==> GrantsId(accounts[sub].roles, id)
  {
    var roles := accounts[sub].roles;
    var g := Granted(roles);
    var ps := Dedupe(g);
    assert Validate(accounts, sub).value.permissions == ps;
    forall id ensures Occurs(ps, id) <==> GrantsId(roles, id) {
      if Occurs(ps, id) {
        var i :| 0 <= i < |ps| && ps[i].id == id;
        assert KeyOrder(g)[i] == id;
        assert KeyOrder(g)[i] in KeyOrder(g);
        var n :| 0 <= n < |g| && g[n].id == id;
        assert g[n] in g;
      }
      if GrantsId(roles, id) {
        var k, p :| 0 <= k < |roles| && p in roles[k].permissions && p.id == id;
        assert p in g;
        var n :| 0 <= n < |g| && g[n] == p;
        assert Occurs(g, id);
        var i :| 0 <= i < |KeyOrder(g)| && KeyOrder(g)[i] == id;
        assert ps[i].id == id;
      }
    }
  }

  /**
   * When permission ids identify permissions, the principal holds exactly
   * the union of its roles' permissions.
   */
  lemma ValidateMembers(accounts: map<int, Account>, sub: int)
    requires sub in accounts
    requires IdsIdentify(Granted(accounts[sub].roles))
    ensures var ps := Validate(accounts, sub).value.permissions;
      forall p :: p in ps <==> exists k :: 0 <= k < |accounts[sub].roles| && p in accounts[sub].roles[k].permissions
  {
    DedupeSameMembers(Granted(accounts[sub].roles));
  }

  /** The role summaries follow the user-role links one for one, in order. */
  lemma ValidateRoles(accounts: map<int, Account>, sub: int)
    requires sub in accounts
    ensures var r := Validate(accounts, sub).value.roles;
      var roles := accounts[sub].roles;
      forall i :: 0 <= i < |roles| ==> r[i] == RoleSummary(roles[i].id, roles[i].name, roles[i].description)
  {
  }
}
