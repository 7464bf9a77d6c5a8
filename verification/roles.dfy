/**
 * The role service: role lookup and the role-permission links, which an
 * update replaces wholesale.
 */
module Roles {
  import opened Results
  import Ordering

  datatype Role = Role(id: int, name: string, description: Option<string>)

  /** A role-permission link; `createdAt` is the store's clock reading. */
  datatype Link = Link(id: int, roleId: int, permissionId: int, createdAt: int)

  datatype State = State(roles: map<int, Role>, links: map<int, Link>)

  /** `findOne`: the role, or NotFound. */
  function FindOne(st: State, id: int): (r: Result<Role>)
    ensures r.Ok? <==> id in st.roles
    ensures r.Err? ==> r.error == NotFound
    ensures r.Ok? ==> r.value == st.roles[id]
  {
    if id !in st.roles then Err(NotFound) else Ok(st.roles[id])
  }

  /** The ids of the links of one role. */
  function LinkIds(st: State, roleId: int): set<int>
  {
    set id | id in st.links && st.links[id].roleId == roleId
  }

  /** The role's link ids in ascending order: each once. */
  function LinkOrder(st: State, roleId: int): (ids: seq<int>)
    ensures Ordering.StrictlyIncreasing(ids)
    ensures forall i :: 0 <= i < |ids| ==> ids[i] in st.links && st.links[ids[i]].roleId == roleId
    ensures forall id :: id in st.links && st.links[id].roleId == roleId ==> id in ids
  {
    var ids := Ordering.Ascending(LinkIds(st, roleId));
    assert forall i :: 0 <= i < |ids| ==> ids[i] in LinkIds(st, roleId) by {
      forall i | 0 <= i < |ids| ensures ids[i] in LinkIds(st, roleId) { assert ids[i] in ids; }
    }
    ids
  }

  /** `findMany({ where: { roleId } })`: the role's links, in ascending link id. */
  function LinksOf(st: State, roleId: int): (r: seq<Link>)
    ensures |r| == |LinkOrder(st, roleId)|
    ensures forall i :: 0 <= i < |r| ==> r[i] == st.links[LinkOrder(st, roleId)[i]]
  {
    var ids := LinkOrder(st, roleId);
    seq(|ids|, i requires 0 <= i < |ids| => st.links[ids[i]])
  }

  /** The permission ids a role holds. */
  function PermissionIds(st: State, roleId: int): set<int>
  {
    set id | id in st.links && st.links[id].roleId == roleId :: st.links[id].permissionId
  }

  /** `getRolePermissions`: NotFound for an unknown role, otherwise its links. */
  function GetRolePermissions(st: State, roleId: int): (r: Result<seq<Link>>)
    ensures r.Err? <==> roleId !in st.roles
    ensures r.Err? ==> r.error == NotFound
    ensures r.Ok? ==> forall i :: 0 <= i < |r.value| ==> r.value[i].roleId == roleId
    ensures r.Ok? ==> forall id :: id in st.links && st.links[id].roleId == roleId ==> st.links[id] in r.value
  {
    if roleId !in st.roles then Err(NotFound)
    else
      var r := LinksOf(st, roleId);
      assert forall id :: id in st.links && st.links[id].roleId == roleId ==> st.links[id] in r by {
        forall id | id in st.links && st.links[id].roleId == roleId ensures st.links[id] in r {
          var i :| 0 <= i < |LinkOrder(st, roleId)| && LinkOrder(st, roleId)[i] == id;
          assert r[i] == st.links[id];
        }
      }
      Ok(r)
  }

  /** The listed links carry exactly the permission ids the role holds. */
  lemma RolePermissionsListed(st: State, roleId: int)
    requires roleId in st.roles
    ensures var r := GetRolePermissions(st, roleId).value;
      forall p :: p in PermissionIds(st, roleId) <==> exists i :: 0 <= i < |r| && r[i].permissionId == p
  {
    var r := GetRolePermissions(st, roleId).value;
    assert r == LinksOf(st, roleId);
    forall p ensures p in PermissionIds(st, roleId) <==> exists i :: 0 <= i < |r| && r[i].permissionId == p {
      if p in PermissionIds(st, roleId) {
        var id :| id in st.links && st.links[id].roleId == roleId && st.links[id].permissionId == p;
        var i :| 0 <= i < |LinkOrder(st, roleId)| && LinkOrder(st, roleId)[i] == id;
        assert r[i] == st.links[id];
      }
      if exists i :: 0 <= i < |r| && r[i].permissionId == p {
        var i :| 0 <= i < |r| && r[i].permissionId == p;
        assert LinkOrder(st, roleId)[i] in st.links;
      }
    }
  }

  /** `deleteMany({ where: { roleId } })`. */
  function Unlink(links: map<int, Link>, roleId: int): (r: map<int, Link>)
    ensures forall id :: id in r <==> id in links && links[id].roleId != roleId
    ensures forall id :: id in r ==> r[id] == links[id]
  {
    map id | id in links && links[id].roleId != roleId :: links[id]
  }

  /** `createMany`: one link per listed permission id, under the given fresh link ids. */
  function Relink(links: map<int, Link>, roleId: int, permissionIds: seq<int>, newIds: seq<int>, now: int): (r: map<int, Link>)
    requires |newIds| == |permissionIds|
    decreases |permissionIds|
  {
    if |permissionIds| == 0 then links
    else Relink(links[newIds[0] := Link(newIds[0], roleId, permissionIds[0], now)], roleId, permissionIds[1..], newIds[1..], now)
  }

  /** Link ids no link uses yet, pairwise distinct. */
  predicate Fresh(links: map<int, Link>, newIds: seq<int>)
  {
    && Distinct(newIds)
    && forall i :: 0 <= i < |newIds| ==> newIds[i] !in links
  }

  lemma {:induction false} RelinkContents(links: map<int, Link>, roleId: int, permissionIds: seq<int>, newIds: seq<int>, now: int)
    requires |newIds| == |permissionIds|
    requires Fresh(links, newIds)
    ensures var r := Relink(links, roleId, permissionIds, newIds, now);
      && (forall id :: id in links ==> id in r && r[id] == links[id])
      && (forall i :: 0 <= i < |newIds| ==> newIds[i] in r && r[newIds[i]] == Link(newIds[i], roleId, permissionIds[i], now))
      && (forall id :: id in r ==> id in links || id in newIds)
    decreases |permissionIds|
  {
    if |permissionIds| > 0 {
      var links' := links[newIds[0] := Link(newIds[0], roleId, permissionIds[0], now)];
      assert Fresh(links', newIds[1..]) by {
        forall i | 0 <= i < |newIds[1..]| ensures newIds[1..][i] !in links' {
          assert newIds[i + 1] != newIds[0];
        }
        assert forall i, j :: 0 <= i < j < |newIds[1..]| ==> newIds[1..][i] == newIds[i + 1] && newIds[1..][j] == newIds[j + 1];
      }
      RelinkContents(links', roleId, permissionIds[1..], newIds[1..], now);
      var r := Relink(links, roleId, permissionIds, newIds, now);
      assert r == Relink(links', roleId, permissionIds[1..], newIds[1..], now);
      forall i | 0 <= i < |newIds| ensures newIds[i] in r && r[newIds[i]] == Link(newIds[i], roleId, permissionIds[i], now) {
        if i > 0 {
          assert newIds[i] == newIds[1..][i - 1] && permissionIds[i] == permissionIds[1..][i - 1];
        }
      }
      forall id | id in r ensures id in links || id in newIds {
        if id !in links' {
          assert id in newIds[1..];
        }
      }
    }
  }

  /**
   * What `updateRolePermissions` leaves behind: the store as it stands
   * afterwards, and the response or the error it raised.
   */
  datatype Outcome = Outcome(state: State, response: Result<seq<Link>>)

  /** Every listed permission id names a stored permission, so `createMany` meets its foreign key. */
  predicate AllKnown(permissions: set<int>, permissionIds: seq<int>)
  {
    forall i :: 0 <= i < |permissionIds| ==> permissionIds[i] in permissions
  }

  /**
   * `updateRolePermissions`: NotFound for an unknown role before anything
   * is deleted; otherwise the role's links are all deleted, one link per
   * listed permission id is created, and the role's links are returned
   * (none for an empty list). `permissions` holds the ids of the stored
   * permissions: a listed id outside it makes `createMany` fail, and since
   * no transaction surrounds the two writes, the deletion stays.
   */
  function UpdateRolePermissions(st: State, permissions: set<int>, roleId: int, permissionIds: seq<int>, newIds: seq<int>, now: int): (r: Outcome)
    requires |newIds| == |permissionIds|
    ensures roleId !in st.roles ==> r == Outcome(st, Err(NotFound))
    ensures roleId in st.roles && !AllKnown(permissions, permissionIds) ==>
      r.response == Err(StoreFailure) && r.state == State(st.roles, Unlink(st.links, roleId))
    ensures r.response.Ok? <==> roleId in st.roles && AllKnown(permissions, permissionIds)
    ensures r.state.roles == st.roles
    ensures r.response.Ok? && |permissionIds| == 0 ==> r.response.value == []
  {
    if roleId !in st.roles then Outcome(st, Err(NotFound))
    else
      var kept := State(st.roles, Unlink(st.links, roleId));
      if |permissionIds| == 0 then Outcome(kept, Ok([]))
      else if !AllKnown(permissions, permissionIds) then Outcome(kept, Err(StoreFailure))
      else
        var st' := State(st.roles, Relink(kept.links, roleId, permissionIds, newIds, now));
        Outcome(st', Ok(LinksOf(st', roleId)))
  }

  /** A failed `createMany` leaves the role with no permission at all, and every other role as it was. */
  lemma FailureStripsRole(st: State, permissions: set<int>, roleId: int, permissionIds: seq<int>, newIds: seq<int>, now: int)
    requires |newIds| == |permissionIds|
    requires roleId in st.roles && !AllKnown(permissions, permissionIds)
    ensures var r := UpdateRolePermissions(st, permissions, roleId, permissionIds, newIds, now);
      && r.response.Err?
      && PermissionIds(r.state, roleId) == {}
      && (forall id :: id in st.links && st.links[id].roleId != roleId ==> id in r.state.links && r.state.links[id] == st.links[id])
  {
    var r := UpdateRolePermissions(st, permissions, roleId, permissionIds, newIds, now);
    assert forall p :: p !in PermissionIds(r.state, roleId);
  }

  /**
   * Replace semantics: afterwards the role holds exactly the listed
   * permission ids; every other role's links are untouched; and the
   * response lists the role's links.
   */
  lemma ReplaceSemantics(st: State, permissions: set<int>, roleId: int, permissionIds: seq<int>, newIds: seq<int>, now: int)
    requires roleId in st.roles && AllKnown(permissions, permissionIds)
    requires |newIds| == |permissionIds| && Fresh(st.links, newIds)
    ensures var r := UpdateRolePermissions(st, permissions, roleId, permissionIds, newIds, now);
      var (st', links) := (r.state, r.response.value);
      && (forall p :: p in PermissionIds(st', roleId) <==> p in permissionIds)
      && (forall id :: id in st.links && st.links[id].roleId != roleId ==> id in st'.links && st'.links[id] == st.links[id])
      && (forall id :: id in st'.links && st'.links[id].roleId != roleId ==> id in st.links)
      && (forall i :: 0 <= i < |links| ==> links[i].roleId == roleId && links[i].permissionId in permissionIds)
  {
    var kept := Unlink(st.links, roleId);
    assert Fresh(kept, newIds);
    RelinkContents(kept, roleId, permissionIds, newIds, now);
    var r := UpdateRolePermissions(st, permissions, roleId, permissionIds, newIds, now);
    var st' := r.state;
    assert st'.links == Relink(kept, roleId, permissionIds, newIds, now);
    forall p ensures p in PermissionIds(st', roleId) <==> p in permissionIds {
      if p in PermissionIds(st', roleId) {
        var id :| id in st'.links && st'.links[id].roleId == roleId && st'.links[id].permissionId == p;
        assert id !in kept;
        var i :| 0 <= i < |newIds| && newIds[i] == id;
      }
      if p in permissionIds {
        var i :| 0 <= i < |permissionIds| && permissionIds[i] == p;
        assert st'.links[newIds[i]].permissionId == p;
      }
    }
    var links := r.response.value;
    forall i | 0 <= i < |links| ensures links[i].roleId == roleId && links[i].permissionId in permissionIds {
      assert links == LinksOf(st', roleId);
      var id := LinkOrder(st', roleId)[i];
      assert links[i] == st'.links[id];
      assert links[i].permissionId in PermissionIds(st', roleId);
    }
  }
}
