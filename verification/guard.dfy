/**
 * The permissions guard: a route's required endpoints against the
 * permissions of the request principal.
 */
module Guard {
  import opened Results
  import opened Auth

  /** `request.user` as the guard sees it: the user, and its permissions, may be missing. */
  datatype Caller = Caller(permissions: Option<seq<Permission>>)

  /** The caller a validated principal becomes. */
  function CallerOf(p: Principal): Caller
  {
    Caller(Some(p.permissions))
  }

  /** `user.permissions.some(up => up.endpoint === e)`. */
  predicate Holds(perms: seq<Permission>, e: string)
  {
    exists q :: q in perms && q.endpoint == e
  }

  /** `required.every(p => ...)`. */
  predicate HoldsAll(perms: seq<Permission>, required: seq<string>)
  {
    forall e :: e in required ==> Holds(perms, e)
  }

  /** Undefined or empty metadata: the route requires nothing. */
  predicate NothingRequired(required: Option<seq<string>>)
  {
    required.None? || |required.value| == 0
  }

  /**
   * `canActivate`: allowed when nothing is required; otherwise a missing
   * user or permission list, or a required endpoint the user does not hold,
   * is Forbidden. The guard never answers false.
   */
  function CanActivate(required: Option<seq<string>>, user: Option<Caller>): (r: Result<bool>)
    ensures r.Ok? ==> r.value
    ensures r.Err? ==> r.error == Forbidden
    ensures NothingRequired(required) ==> r.Ok?
    ensures !NothingRequired(required) && (user.None? || user.value.permissions.None?) ==> r.Err?
    ensures !NothingRequired(required) && user.Some? && user.value.permissions.Some? ==>
      (r.Ok? <==> forall e :: e in required.value ==> exists q :: q in user.value.permissions.value && q.endpoint == e)
  {
    if NothingRequired(required) then Ok(true)
    else if user.None? || user.value.permissions.None? then Err(Forbidden)
    else if HoldsAll(user.value.permissions.value, required.value) then Ok(true)
    else Err(Forbidden)
  }

  /** The `every`/`some` loops, stopping at the first endpoint not held. */
  method HasPermission(perms: seq<Permission>, required: seq<string>) returns (b: bool)
    ensures b <==> HoldsAll(perms, required)
  {
    for i := 0 to |required|
      invariant forall j :: 0 <= j < i ==> Holds(perms, required[j])
    {
      var found := false;
      for k := 0 to |perms|
        invariant found <==> exists m :: 0 <= m < k && perms[m].endpoint == required[i]
      {
        if perms[k].endpoint == required[i] {
          found := true;
        }
      }
      if !found {
        assert !Holds(perms, required[i]) by {
          forall q | q in perms ensures q.endpoint != required[i] {
            var m :| 0 <= m < |perms| && perms[m] == q;
          }
        }
        return false;
      }
      var m :| 0 <= m < |perms| && perms[m].endpoint == required[i];
      assert perms[m] in perms;
    }
    assert forall e :: e in required ==> Holds(perms, e) by {
      forall e | e in required ensures Holds(perms, e) {
        var j :| 0 <= j < |required| && required[j] == e;
      }
    }
    return true;
  }

  /** The guard as the source evaluates it, with the loops above. */
  method Decide(required: Option<seq<string>>, user: Option<Caller>) returns (r: Result<bool>)
    ensures r == CanActivate(required, user)
  {
    if required.None? || |required.value| == 0 {
      return Ok(true);
    }
    if user.None? || user.value.permissions.None? {
      return Err(Forbidden);
    }
    var ok := HasPermission(user.value.permissions.value, required.value);
    if !ok {
      return Err(Forbidden);
    }
    return Ok(true);
  }

  /** Monotone in the user's permissions: granting more never turns allow into deny. */
  lemma MorePermissionsStillAllowed(required: Option<seq<string>>, perms: seq<Permission>, more: seq<Permission>)
    requires CanActivate(required, Some(Caller(Some(perms)))).Ok?
    requires forall q :: q in perms ==> q in more
    ensures CanActivate(required, Some(Caller(Some(more)))).Ok?
  {
    if !NothingRequired(required) {
      forall e | e in required.value ensures Holds(more, e) {
        assert Holds(perms, e);
        var q :| q in perms && q.endpoint == e;
        assert q in more;
      }
    }
  }

  /** Antitone in the requirement: requiring fewer endpoints never turns allow into deny. */
  lemma FewerRequiredStillAllowed(required: seq<string>, fewer: seq<string>, user: Option<Caller>)
    requires CanActivate(Some(required), user).Ok?
    requires forall e :: e in fewer ==> e in required
    ensures CanActivate(Some(fewer), user).Ok?
  {
    if |fewer| > 0 {
      assert fewer[0] in required;
    }
  }

  /**
   * End to end: when permission ids identify permissions, a validated user
   * passes the guard exactly when every required endpoint is the endpoint
   * of a permission one of its roles grants.
   */
  lemma ValidatedAccess(accounts: map<int, Account>, sub: int, required: seq<string>)
    requires sub in accounts
    requires IdsIdentify(Granted(accounts[sub].roles))
    ensures var roles := accounts[sub].roles;
      CanActivate(Some(required), Some(CallerOf(Validate(accounts, sub).value))).Ok? <==>
        forall e :: e in required ==> exists k, q :: 0 <= k < |roles| && q in roles[k].permissions && q.endpoint == e
  {
    var roles := accounts[sub].roles;
    var ps := Validate(accounts, sub).value.permissions;
    ValidateMembers(accounts, sub);
    forall e ensures Holds(ps, e) <==> exists k, q :: 0 <= k < |roles| && q in roles[k].permissions && q.endpoint == e {
      if Holds(ps, e) {
        var q :| q in ps && q.endpoint == e;
        var k :| 0 <= k < |roles| && q in roles[k].permissions;
      }
      if exists k, q :: 0 <= k < |roles| && q in roles[k].permissions && q.endpoint == e {
        var k, q :| 0 <= k < |roles| && q in roles[k].permissions && q.endpoint == e;
        assert q in ps;
      }
    }
  }
}
