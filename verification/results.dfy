/**
 * Optional values, the error taxonomy of the services, and a
 * failure-compatible Result used by every service operation.
 */
module Results {

  /** An optional value: `None` stands for a JavaScript `undefined` or `null`. */
  datatype Option<+T> = None | Some(value: T) {

    /** The `??` operator: the value when present, otherwise the fallback. */
    function GetOr(fallback: T): T
    {
      match this
      case Some(v) => v
      case None => fallback
    }
  }

  /** The exceptions the services throw, one constructor per HTTP outcome. */
  datatype Error =
    | NotFound        // NotFoundException (404)
    | BadRequest      // BadRequestException (400)
    | Forbidden       // ForbiddenException (403)
    | Unauthorized    // UnauthorizedException (401)
    | Misconfigured   // a plain Error raised while the application starts
    | StoreFailure    // an error the store raises itself: a missing record to update, a dangling foreign key

  datatype Result<+T> = Ok(value: T) | Err(error: Error) {

    predicate IsFailure() {
      Err?
    }

    function PropagateFailure<U>(): Result<U>
      requires Err?
    {
      Err(error)
    }

    function Extract(): T
      requires Ok?
    {
      value
    }
  }

  /** The JavaScript idiom `s || ''` on an optional string. */
  function OrEmpty(o: Option<string>): string
  {
    match o
    case Some(s) => s
    case None => ""
  }

  /** JavaScript truthiness of an optional string: defined and not empty. */
  predicate Truthy(o: Option<string>)
  {
    o.Some? && o.value != ""
  }

  /** Sequence elements are pairwise distinct. */
  predicate Distinct<T(==)>(s: seq<T>)
  {
    forall i, j :: 0 <= i < j < |s| ==> s[i] != s[j]
  }

  /** Two maps with the same keys and the same value at every key are equal. */
  lemma MapsEqual<K, V>(m: map<K, V>, n: map<K, V>)
    requires forall k :: k in m <==> k in n
    requires forall k :: k in m ==> m[k] == n[k]
    ensures m == n
  {
    forall k ensures k in m <==> k in n {}
    forall k | k in m ensures m[k] == n[k] {}
  }

  /** Two sets with the same members are equal. */
  lemma SetsEqual<K>(a: set<K>, b: set<K>)
    requires forall k :: k in a <==> k in b
    ensures a == b
  {
    forall k ensures k in a <==> k in b {}
  }
}
