/** The object store as ugit's core sees it: a map from object id to a typed
    payload. Hashing is a parameter of the model, not computed. */
module Objects {

  import opened Wrappers

  /** An object id: in ugit, the 64-digit hex SHA-256 of the payload. */
  type Oid = string

  /** A slash-joined path relative to the working directory. */
  type Path = string

  /** The ways the core's operations fail. In the Python code each is an
      exception: a failed lookup, an `assert`, or an unpacking `ValueError`. */
  datatype Error =
    | ObjectNotFound(oid: Oid)
    | TypeMismatch(oid: Oid, expected: string, found: string)
    | MalformedTree(line: string)
    | UnwritableEntry(name: string)
    | InvalidPathComponent(name: string)
    | UnknownEntryType(kind: string, name: string)
    | TreeTooDeep(oid: Oid)
    | MalformedCommit(line: string)
    | UnknownField(key: string)
    | MissingTree
    | UnknownName(name: string)
    | NoOid(name: string)

  type Outcome<T> = Result<T, Error>

  /** A stored object: its type tag ("blob", "tree" or "commit") and its
      payload, held as the decoded text. */
  datatype Object = Object(kind: string, payload: string)

  type ObjectStore = map<Oid, Object>

  /** A reference's content: a direct object id, or (when `symbolic`) the
      name of another reference. `value` is `None` for a missing ref. */
  datatype RefValue = RefValue(symbolic: bool, value: Option<string>)

  /** Python truthiness of an optional string, such as a ref value or an
      oid: both `None` and "" are false. */
  predicate Truthy(v: Option<string>) {
    v.Some? && v.value != ""
  }

  /** Reads the payload at `oid`, checking the type tag when one is expected. */
  function GetObject(store: ObjectStore, oid: Oid, expected: Option<string>): Outcome<string>
  {
    if oid !in store then Err(ObjectNotFound(oid))
    else if expected.Some? && store[oid].kind != expected.value then
      Err(TypeMismatch(oid, expected.value, store[oid].kind))
    else Ok(store[oid].payload)
  }

  /** Stores `payload` under the id `hash` gives it and returns that id. */
  function HashObject(store: ObjectStore, hash: string -> Oid, payload: string, kind: string)
    : (r: (ObjectStore, Oid))
    ensures GetObject(r.0, r.1, Some(kind)) == Ok(payload)
    ensures GetObject(r.0, r.1, None) == Ok(payload)
    ensures forall o, t :: o != r.1 ==> GetObject(r.0, o, t) == GetObject(store, o, t)
    ensures r.0.Keys == store.Keys + {r.1}
    ensures forall o | o in store && o != r.1 :: r.0[o] == store[o]
    ensures r.1 == hash(payload)
  {
    var oid := hash(payload);
    (store[oid := Object(kind, payload)], oid)
  }
}
