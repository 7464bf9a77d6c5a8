/**
 * The user service: user records, their role links, and the responses
 * that leave the password out.
 */
module Users {
  import opened Results
  import opened Languages
  import Ordering
  import Roles

  /** A stored user; `password` holds the hash the service stored, if any. */
  datatype User = User(id: int, username: string, email: string, password: Option<string>, status: string, languageId: Option<int>)

  /** A user as the responses show it: every attribute but the password. */
  datatype PublicUser = PublicUser(id: int, username: string, email: string, status: string, languageId: Option<int>)

  datatype UserRole = UserRole(id: int, userId: int, roleId: int)

  datatype State = State(users: map<int, User>, links: map<int, UserRole>)

  datatype CreateDto = CreateDto(username: string, email: string, password: Option<string>, status: Option<string>,
                                 languageId: Option<int>, roleIds: Option<seq<int>>)

  datatype UpdateDto = UpdateDto(username: Option<string>, email: Option<string>, password: Option<string>, status: Option<string>,
                                 languageId: Option<int>, roleIds: Option<seq<int>>)

  /** The response shape: the record without its password. */
  function Public(u: User): (p: PublicUser)
    ensures p.id == u.id && p.username == u.username && p.email == u.email
    ensures p.status == u.status && p.languageId == u.languageId
  {
    PublicUser(u.id, u.username, u.email, u.status, u.languageId)
  }

  /** The listed role ids, or none when the list is undefined. */
  function RoleList(roleIds: Option<seq<int>>): seq<int>
  {
    if roleIds.Some? then roleIds.value else []
  }

  /** The role ids a user is linked to. */
  function RolesOf(links: map<int, UserRole>, userId: int): set<int>
  {
    set id | id in links && links[id].userId == userId :: links[id].roleId
  }

  /** One new link per listed role, under the given fresh link ids. */
  function Link(links: map<int, UserRole>, userId: int, roleIds: seq<int>, newIds: seq<int>): map<int, UserRole>
    requires |newIds| == |roleIds|
    decreases |roleIds|
  {
    if |roleIds| == 0 then links
    else Link(links[newIds[0] := UserRole(newIds[0], userId, roleIds[0])], userId, roleIds[1..], newIds[1..])
  }

  /** Link ids no link uses yet, pairwise distinct. */
  predicate Fresh(links: map<int, UserRole>, newIds: seq<int>)
  {
    && Distinct(newIds)
    && forall i :: 0 <= i < |newIds| ==> newIds[i] !in links
  }

  lemma {:induction false} LinkContents(links: map<int, UserRole>, userId: int, roleIds: seq<int>, newIds: seq<int>)
    requires |newIds| == |roleIds| && Fresh(links, newIds)
    ensures var r := Link(links, userId, roleIds, newIds);
      && (forall id :: id in links ==> id in r && r[id] == links[id])
      && (forall i :: 0 <= i < |newIds| ==> newIds[i] in r && r[newIds[i]] == UserRole(newIds[i], userId, roleIds[i]))
      && (forall id :: id in r ==> id in links || id in newIds)
    decreases |roleIds|
  {
    if |roleIds| > 0 {
      var links' := links[newIds[0] := UserRole(newIds[0], userId, roleIds[0])];
      assert Fresh(links', newIds[1..]) by {
        forall i | 0 <= i < |newIds[1..]| ensures newIds[1..][i] !in links' {
          assert newIds[i + 1] != newIds[0];
        }
        assert forall i, j :: 0 <= i < j < |newIds[1..]| ==> newIds[1..][i] == newIds[i + 1] && newIds[1..][j] == newIds[j + 1];
      }
      LinkContents(links', userId, roleIds[1..], newIds[1..]);
      var r := Link(links, userId, roleIds, newIds);
      assert r == Link(links', userId, roleIds[1..], newIds[1..]);
      forall i | 0 <= i < |newIds| ensures newIds[i] in r && r[newIds[i]] == UserRole(newIds[i], userId, roleIds[i]) {
        if i > 0 {
          assert newIds[i] == newIds[1..][i - 1] && roleIds[i] == roleIds[1..][i - 1];
        }
      }
      forall id | id in r ensures id in links || id in newIds {
        if id !in links' {
          assert id in newIds[1..];
        }
      }
    }
  }

  /** The role set a user ends up with when fresh links for `roleIds` are added to `links`. */
  lemma LinkedRoles(links: map<int, UserRole>, userId: int, roleIds: seq<int>, newIds: seq<int>)
    requires |newIds| == |roleIds| && Fresh(links, newIds)
    ensures forall r :: r in RolesOf(Link(links, userId, roleIds, newIds), userId) <==> r in RolesOf(links, userId) || r in roleIds
    ensures forall u :: u != userId ==> RolesOf(Link(links, userId, roleIds, newIds), u) == RolesOf(links, u)
  {
    var after := Link(links, userId, roleIds, newIds);
    LinkContents(links, userId, roleIds, newIds);
    forall r ensures r in RolesOf(after, userId) <==> r in RolesOf(links, userId) || r in roleIds {
      if r in RolesOf(after, userId) {
        var id :| id in after && after[id].userId == userId && after[id].roleId == r;
        if id !in links {
          var i :| 0 <= i < |newIds| && newIds[i] == id;
        }
      }
      if r in roleIds {
        var i :| 0 <= i < |roleIds| && roleIds[i] == r;
        assert after[newIds[i]].roleId == r;
      }
    }
    forall u | u != userId ensures RolesOf(after, u) == RolesOf(links, u) {
      forall r ensures r in RolesOf(after, u) <==> r in RolesOf(links, u) {
        if r in RolesOf(after, u) {
          var id :| id in after && after[id].userId == u && after[id].roleId == r;
          assert id !in newIds;
        }
      }
      SetsEqual(RolesOf(after, u), RolesOf(links, u));
    }
  }

  /** The password `create` stores: a non-empty one is hashed, any other is stored as given. */
  function StoredPassword(password: Option<string>, hash: string -> string): Option<string>
  {
    if Truthy(password) then Some(hash(password.value)) else password
  }

  /**
   * `create`: the record (status `'active'` unless given, the password
   * hashed when non-empty), one role link per listed role id, and the
   * record without its password as the response.
   */
  function Create(st: State, dto: CreateDto, hash: string -> string, newId: int, linkIds: seq<int>): (r: (State, PublicUser))
    requires newId !in st.users
    requires |linkIds| == |RoleList(dto.roleIds)|
    ensures newId in r.0.users && r.0.users == st.users[newId := r.0.users[newId]]
    ensures r.0.users[newId].status == dto.status.GetOr("active")
    ensures Truthy(dto.password) ==> r.0.users[newId].password == Some(hash(dto.password.value))
    ensures !Truthy(dto.password) ==> r.0.users[newId].password == dto.password
    ensures r.1 == Public(r.0.users[newId])
    ensures r.1 == PublicUser(newId, dto.username, dto.email, dto.status.GetOr("active"), dto.languageId)
  {
    var user := User(newId, dto.username, dto.email, StoredPassword(dto.password, hash), dto.status.GetOr("active"), dto.languageId);
    (State(st.users[newId := user], Link(st.links, newId, RoleList(dto.roleIds), linkIds)), Public(user))
  }

  /** After create the new user holds exactly the listed roles (with no prior links), and no other user's roles change. */
  lemma CreateLinksRoles(st: State, dto: CreateDto, hash: string -> string, newId: int, linkIds: seq<int>)
    requires newId !in st.users
    requires |linkIds| == |RoleList(dto.roleIds)| && Fresh(st.links, linkIds)
    ensures var st' := Create(st, dto, hash, newId, linkIds).0;
      && (forall r :: r in RolesOf(st'.links, newId) <==> r in RolesOf(st.links, newId) || r in RoleList(dto.roleIds))
      && forall u :: u != newId ==> RolesOf(st'.links, u) == RolesOf(st.links, u)
  {
    LinkedRoles(st.links, newId, RoleList(dto.roleIds), linkIds);
  }

  /** `deleteMany` of a user's links (the per-link removals). */
  function Unlink(links: map<int, UserRole>, userId: int): (r: map<int, UserRole>)
    ensures forall id :: id in r <==> id in links && links[id].userId != userId
    ensures forall id :: id in r ==> r[id] == links[id]
  {
    map id | id in links && links[id].userId != userId :: links[id]
  }

  /** The record after an update: the DTO's defined attributes, never the password. */
  function Updated(u: User, dto: UpdateDto): (v: User)
    ensures v.id == u.id && v.password == u.password
    ensures v.username == dto.username.GetOr(u.username)
    ensures v.email == dto.email.GetOr(u.email)
    ensures v.status == dto.status.GetOr(u.status)
    ensures v.languageId == (if dto.languageId.Some? then dto.languageId else u.languageId)
  {
    User(u.id, dto.username.GetOr(u.username), dto.email.GetOr(u.email), u.password,
      dto.status.GetOr(u.status), if dto.languageId.Some? then dto.languageId else u.languageId)
  }

  /**
   * `update`: the store's own error for an unknown id; otherwise the
   * defined attributes are written (never the password or the role list),
   * the role links are replaced only for a non-empty role list, and the
   * record without its password is the response.
   */
  function Update(st: State, id: int, dto: UpdateDto, linkIds: seq<int>): (r: Result<(State, PublicUser)>)
    requires |linkIds| == |RoleList(dto.roleIds)|
    ensures r.Err? <==> id !in st.users
    ensures r.Err? ==> r.error == StoreFailure
    ensures r.Ok? ==>
      && r.value.0.users == st.users[id := Updated(st.users[id], dto)]
      && r.value.0.users[id].password == st.users[id].password
      && r.value.1 == Public(r.value.0.users[id])
      && (|RoleList(dto.roleIds)| == 0 ==> r.value.0.links == st.links)
  {
    if id !in st.users then Err(StoreFailure)
    else
      var user := Updated(st.users[id], dto);
      var roles := RoleList(dto.roleIds);
      var links := if |roles| > 0 then Link(Unlink(st.links, id), id, roles, linkIds) else st.links;
      Ok((State(st.users[id := user], links), Public(user)))
  }

  /**
   * Replace semantics: a non-empty role list leaves the user with exactly
   * those roles; an empty or missing one leaves its roles as they were; no
   * other user's roles change.
   */
  lemma UpdateReplacesRoles(st: State, id: int, dto: UpdateDto, linkIds: seq<int>)
    requires id in st.users
    requires |linkIds| == |RoleList(dto.roleIds)| && Fresh(st.links, linkIds)
    ensures var st' := Update(st, id, dto, linkIds).value.0;
      && (|RoleList(dto.roleIds)| > 0 ==> forall r :: r in RolesOf(st'.links, id) <==> r in RoleList(dto.roleIds))
      && (|RoleList(dto.roleIds)| == 0 ==> RolesOf(st'.links, id) == RolesOf(st.links, id))
      && forall u :: u != id ==> RolesOf(st'.links, u) == RolesOf(st.links, u)
  {
    var roles := RoleList(dto.roleIds);
    if |roles| > 0 {
      var kept := Unlink(st.links, id);
      assert Fresh(kept, linkIds);
      LinkedRoles(kept, id, roles, linkIds);
      assert RolesOf(kept, id) == {} by {
        forall r ensures r !in RolesOf(kept, id) {}
        SetsEqual(RolesOf(kept, id), {});
      }
      forall u | u != id ensures RolesOf(kept, u) == RolesOf(st.links, u) {
        forall r ensures r in RolesOf(kept, u) <==> r in RolesOf(st.links, u) {
          if r in RolesOf(st.links, u) {
            var l :| l in st.links && st.links[l].userId == u && st.links[l].roleId == r;
            assert l in kept;
          }
        }
        SetsEqual(RolesOf(kept, u), RolesOf(st.links, u));
      }
    }
  }

  /** A role link as `findAll` includes it: the link with the role it names, if the role exists. */
  datatype ListedRole = ListedRole(id: int, userId: int, roleId: int, role: Option<Roles.Role>)

  /** A `findAll` entry: the user without its password, its role links and its language. */
  datatype ListedUser = ListedUser(user: PublicUser, userRoles: seq<ListedRole>, language: Option<Language>)

  /** The ids of one user's role links. */
  function LinkIds(links: map<int, UserRole>, userId: int): set<int>
  {
    set id | id in links && links[id].userId == userId
  }

  /** `include: { role: true }` on one link. */
  function WithRole(roles: map<int, Roles.Role>, l: UserRole): ListedRole
  {
    ListedRole(l.id, l.userId, l.roleId, if l.roleId in roles then Some(roles[l.roleId]) else None)
  }

  /** The user's link ids in ascending order: each once. */
  function LinkOrder(links: map<int, UserRole>, userId: int): (ids: seq<int>)
    ensures Ordering.StrictlyIncreasing(ids)
    ensures forall i :: 0 <= i < |ids| ==> ids[i] in links && links[ids[i]].userId == userId
    ensures forall id :: id in links && links[id].userId == userId ==> id in ids
  {
    var ids := Ordering.Ascending(LinkIds(links, userId));
    assert forall i :: 0 <= i < |ids| ==> ids[i] in LinkIds(links, userId) by {
      forall i | 0 <= i < |ids| ensures ids[i] in LinkIds(links, userId) { assert ids[i] in ids; }
    }
    ids
  }

  /** `include: { userRoles: { include: { role: true } } }`: the user's links, in ascending link id. */
  function RoleEntries(st: State, roles: map<int, Roles.Role>, userId: int): (r: seq<ListedRole>)
    ensures |r| == |LinkOrder(st.links, userId)|
    ensures forall i :: 0 <= i < |r| ==> r[i] == WithRole(roles, st.links[LinkOrder(st.links, userId)[i]])
    ensures forall i :: 0 <= i < |r| ==> r[i].userId == userId && (r[i].roleId in roles ==> r[i].role == Some(roles[r[i].roleId]))
  {
    var ids := LinkOrder(st.links, userId);
    seq(|ids|, i requires 0 <= i < |ids| => WithRole(roles, st.links[ids[i]]))
  }

  /** Every role the user is linked to is listed, and every listed role is one of the user's. */
  lemma RoleEntriesExact(st: State, roles: map<int, Roles.Role>, userId: int)
    ensures var r := RoleEntries(st, roles, userId);
      forall role :: role in RolesOf(st.links, userId) <==> exists i :: 0 <= i < |r| && r[i].roleId == role
  {
    var r := RoleEntries(st, roles, userId);
    var ids := LinkOrder(st.links, userId);
    forall role ensures role in RolesOf(st.links, userId) <==> exists i :: 0 <= i < |r| && r[i].roleId == role {
      if role in RolesOf(st.links, userId) {
        var id :| id in st.links && st.links[id].userId == userId && st.links[id].roleId == role;
        var i :| 0 <= i < |ids| && ids[i] == id;
        assert r[i].roleId == role;
      }
      if exists i :: 0 <= i < |r| && r[i].roleId == role {
        var i :| 0 <= i < |r| && r[i].roleId == role;
        assert st.links[ids[i]].roleId == role;
      }
    }
  }

  /**
   * The `findAll` entry of one user: the user without its password, its
   * links, and the registered language its `languageId` names, if any.
   */
  function Entry(st: State, roles: map<int, Roles.Role>, langs: Registry, id: int): (e: ListedUser)
    requires id in st.users
    ensures e.user == Public(st.users[id]) && e.userRoles == RoleEntries(st, roles, id)
    ensures e.language.Some? <==> st.users[id].languageId.Some? && exists l :: l in langs && l.id == st.users[id].languageId.value
    ensures e.language.Some? ==> e.language.value in langs && Some(e.language.value.id) == st.users[id].languageId
  {
    var u := st.users[id];
    ListedUser(Public(u), RoleEntries(st, roles, id), if u.languageId.Some? then FindById(langs, u.languageId.value) else None)
  }

  /**
   * `findAll`: every user once, without its password, with its role links
   * and their roles and with its language, in ascending id order.
   */
  function FindAll(st: State, roles: map<int, Roles.Role>, langs: Registry): (r: seq<ListedUser>)
    ensures |r| == |st.users|
    ensures forall i :: 0 <= i < |r| ==> exists id :: id in st.users && r[i] == Entry(st, roles, langs, id)
    ensures forall id :: id in st.users ==> Entry(st, roles, langs, id) in r
  {
    var ids := Ordering.Ascending(st.users.Keys);
    assert forall i :: 0 <= i < |ids| ==> ids[i] in st.users by {
      forall i | 0 <= i < |ids| ensures ids[i] in st.users { assert ids[i] in ids; }
    }
    var r := seq(|ids|, i requires 0 <= i < |ids| => Entry(st, roles, langs, ids[i]));
    forall id | id in st.users ensures Entry(st, roles, langs, id) in r {
      var i :| 0 <= i < |ids| && ids[i] == id;
      assert r[i] == Entry(st, roles, langs, id);
    }
    r
  }
}
