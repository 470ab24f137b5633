/** base.py name resolution: `get_oid` and `is_branch`, over a reference
    store given as a function. */
module Refs {

  import opened Wrappers
  import opened Objects

  /** `data.get_ref(ref, deref)`: the reference store, read-only. With
      `deref` set, a symbolic ref is followed to the ref it names. */
  type RefReader = (string, bool) -> RefValue

  // ---------------------------------------------------------------------
  // get_oid
  // ---------------------------------------------------------------------

  /** The refs `get_oid` tries for `name`, in order. */
  function Candidates(name: string): seq<string> {
    [name, "refs/" + name, "refs/tags/" + name, "refs/heads/" + name]
  }

  /** A character of Python's `string.hexdigits`. */
  predicate IsHexDigit(c: char) {
    ('0' <= c <= '9') || ('a' <= c <= 'f') || ('A' <= c <= 'F')
  }

  /** What `get_oid` takes for a literal oid: 64 hex digits. */
  predicate IsHexOid(name: string) {
    |name| == 64 && forall i | 0 <= i < |name| :: IsHexDigit(name[i])
  }

  /** The ref `get_oid` settles on: the first of `refs[k..]` whose value,
      read without dereferencing, is truthy. */
  function FirstSet(getRef: RefReader, refs: seq<string>, k: nat): (r: Option<nat>)
    requires k <= |refs|
    ensures r.Some? ==> k <= r.value < |refs| && Truthy(getRef(refs[r.value], false).value)
    ensures r.Some? ==> forall j | k <= j < r.value :: !Truthy(getRef(refs[j], false).value)
    ensures r.None? ==> forall j | k <= j < |refs| :: !Truthy(getRef(refs[j], false).value)
    decreases |refs| - k
  {
    if k == |refs| then None
    else if Truthy(getRef(refs[k], false).value) then Some(k)
    else FirstSet(getRef, refs, k + 1)
  }

  /** `name`, with "@" read as "HEAD". */
  function Alias(name: string): string {
    if name == "@" then "HEAD" else name
  }

  /** `get_oid(name)`. The value is the dereferenced value of the chosen
      ref, which may itself be `None`. */
  function GetOid(getRef: RefReader, name: string): (r: Outcome<Option<Oid>>)
    ensures var refs := Candidates(Alias(name));
      forall k | 0 <= k < |refs| && Truthy(getRef(refs[k], false).value)
                 && (forall j | 0 <= j < k :: !Truthy(getRef(refs[j], false).value)) ::
        r == Ok(getRef(refs[k], true).value)
    ensures var n := Alias(name); var refs := Candidates(n);
      (forall k | 0 <= k < |refs| :: !Truthy(getRef(refs[k], false).value)) ==>
        r == if IsHexOid(n) then Ok(Some(n)) else Err(UnknownName(n))
  {
    var n := Alias(name);
    var refs := Candidates(n);
    match FirstSet(getRef, refs, 0)
    case Some(k) => Ok(getRef(refs[k], true).value)
    case None => if IsHexOid(n) then Ok(Some(n)) else Err(UnknownName(n))
  }

  /** `is_branch(name)`: the branch ref exists, whatever its value, even ""
      (the test is `is not None`, not truthiness). `get_ref`'s `deref`
      defaults to dereferencing. */
  function IsBranch(getRef: RefReader, name: string): (b: bool)
    ensures b <==> getRef(Candidates(name)[3], true).value != None
  {
    getRef("refs/heads/" + name, true).value.Some?
  }

  /** `is_branch` tests the ref that `get_oid` tries last: when none of the
      others is set and the branch ref is, `get_oid` resolves the name to
      the branch's commit, and it finds an oid exactly when `is_branch`
      holds. */
  lemma BranchResolves(getRef: RefReader, name: string)
    requires name != "@"
    requires !Truthy(getRef(name, false).value)
    requires !Truthy(getRef("refs/" + name, false).value)
    requires !Truthy(getRef("refs/tags/" + name, false).value)
    requires Truthy(getRef("refs/heads/" + name, false).value)
    ensures GetOid(getRef, name) == Ok(getRef("refs/heads/" + name, true).value)
    ensures GetOid(getRef, name).value.Some? <==> IsBranch(getRef, name)
  {
    var refs := Candidates(name);
    assert refs[0] == name && refs[1] == "refs/" + name;
    assert refs[2] == "refs/tags/" + name && refs[3] == "refs/heads/" + name;
    assert FirstSet(getRef, refs, 3) == Some(3);
    assert FirstSet(getRef, refs, 0) == FirstSet(getRef, refs, 3);
  }

  /** A branch whose ref holds "" is a branch for `is_branch`, yet
      `get_oid` passes over it. */
  lemma EmptyBranchSkipped(getRef: RefReader, name: string)
    requires name != "@"
    requires getRef("refs/heads/" + name, true).value == Some("")
    requires getRef("refs/heads/" + name, false).value == Some("")
    ensures IsBranch(getRef, name)
    ensures FirstSet(getRef, Candidates(Alias(name)), 0) != Some(3)
  {
  }
}
