/** base.py `commit` and `get_commit`: the commit record, as written and as
    read back. */
module Commits {

  import opened Wrappers
  import opened Text
  import opened Objects

  /** base.py's `Commit` namedtuple. */
  datatype Commit = Commit(tree: Oid, parent: Option<Oid>, message: string)

  // ---------------------------------------------------------------------
  // Writing
  // ---------------------------------------------------------------------

  /** The record `commit` builds: a `tree` line, a `parent` line only when
      HEAD holds a truthy value, a blank line, then the message and "\n". */
  function CommitRecord(tree: Oid, head: Option<Oid>, message: string): string {
    "tree " + tree + "\n"
    + (if Truthy(head) then "parent " + head.value + "\n" else "")
    + "\n" + message + "\n"
  }

  /** `commit(message)`, given the oid `write_tree()` returned and the value
      HEAD held: the record is stored as a "commit" object and HEAD becomes a
      direct ref to it. The result is the new store, the commit's oid and the
      new value of HEAD. */
  function MakeCommit(store: ObjectStore, hash: string -> Oid, tree: Oid, head: Option<Oid>, message: string)
    : (r: (ObjectStore, Oid, RefValue))
    ensures r.1 == hash(CommitRecord(tree, head, message))
    ensures GetObject(r.0, r.1, Some("commit")) == Ok(CommitRecord(tree, head, message))
    ensures forall o, t :: o != r.1 ==> GetObject(r.0, o, t) == GetObject(store, o, t)
    ensures r.0.Keys == store.Keys + {r.1}
    ensures forall o | o in store && o != r.1 :: r.0[o] == store[o]
    ensures r.2 == RefValue(false, Some(r.1))
  {
    var (store', oid) := HashObject(store, hash, CommitRecord(tree, head, message), "commit");
    (store', oid, RefValue(false, Some(oid)))
  }

  // ---------------------------------------------------------------------
  // Reading
  // ---------------------------------------------------------------------

  /** Index of the first empty line at or after `from`, or `|lines|`: where
      `itertools.takewhile(operator.truth, lines)` stops. */
  function HeaderEnd(lines: seq<string>, from: nat): (n: nat)
    requires from <= |lines|
    ensures from <= n <= |lines|
    ensures forall k | from <= k < n :: lines[k] != ""
    ensures n < |lines| ==> lines[n] == ""
    decreases |lines| - from
  {
    if from == |lines| || lines[from] == "" then from
    else HeaderEnd(lines, from + 1)
  }

  /** The header lines of a commit record: those before the first blank. */
  function HeaderLines(text: string): seq<string> {
    var lines := SplitLines(text);
    lines[..HeaderEnd(lines, 0)]
  }

  /** The lines after the first blank line, which `takewhile` consumed. */
  function MessageLines(text: string): seq<string> {
    var lines := SplitLines(text);
    var n := HeaderEnd(lines, 0);
    if n < |lines| then lines[n + 1..] else []
  }

  /** The fields the header loop has assigned so far. */
  datatype Headers = Headers(tree: Option<Oid>, parent: Option<Oid>)

  /** A header line the loop accepts: `key value` with a known key. */
  predicate HeaderOk(line: string) {
    var kv := SplitOnce(line, ' ');
    kv.Some? && (kv.value.0 == "tree" || kv.value.0 == "parent")
  }

  /** The failure a rejected header line raises: the two-name unpacking of
      `split(' ', 1)` fails without a space, the `assert` fails on any other
      key. */
  function HeaderError(line: string): Error {
    match SplitOnce(line, ' ')
    case None => MalformedCommit(line)
    case Some((key, _)) => UnknownField(key)
  }

  /** Every header line is accepted. */
  ghost predicate AllHeadersOk(lines: seq<string>) {
    forall k | 0 <= k < |lines| :: HeaderOk(lines[k])
  }

  /** Line `k` is the first rejected header line. */
  ghost predicate FirstRejected(lines: seq<string>, k: int) {
    && 0 <= k < |lines|
    && (forall j | 0 <= j < k :: HeaderOk(lines[j]))
    && !HeaderOk(lines[k])
  }

  /** The header loop of `get_commit`, from the field values `h`. */
  function ReadHeaders(lines: seq<string>, h: Headers): (r: Outcome<Headers>)
    ensures r.Ok? <==> AllHeadersOk(lines)
    ensures r.Err? ==> exists k :: FirstRejected(lines, k) && r.error == HeaderError(lines[k])
    decreases |lines|
  {
    if lines == [] then Ok(h)
    else
      match SplitOnce(lines[0], ' ')
      case None =>
        RejectFirst(lines);
        Err(MalformedCommit(lines[0]))
      case Some((key, value)) =>
        if key == "tree" || key == "parent" then
          var h' := if key == "tree" then h.(tree := Some(value)) else h.(parent := Some(value));
          var r := ReadHeaders(lines[1..], h');
          AcceptFirst(lines, r);
          r
        else
          RejectFirst(lines);
          Err(UnknownField(key))
  }

  /** A rejected first line is the first rejected line. */
  lemma RejectFirst(lines: seq<string>)
    requires lines != [] && !HeaderOk(lines[0])
    ensures !AllHeadersOk(lines) && FirstRejected(lines, 0)
  {
  }

  /** An accepted first line passes the verdict on the rest through. */
  lemma AcceptFirst(lines: seq<string>, r: Outcome<Headers>)
    requires lines != [] && HeaderOk(lines[0])
    requires r.Ok? <==> AllHeadersOk(lines[1..])
    requires r.Err? ==> exists k :: FirstRejected(lines[1..], k) && r.error == HeaderError(lines[1..][k])
    ensures r.Ok? <==> AllHeadersOk(lines)
    ensures r.Err? ==> exists k :: FirstRejected(lines, k) && r.error == HeaderError(lines[k])
  {
    assert forall k | 1 <= k < |lines| :: lines[k] == lines[1..][k - 1];
    if r.Err? {
      var k :| FirstRejected(lines[1..], k) && r.error == HeaderError(lines[1..][k]);
      assert FirstRejected(lines, k + 1);
    }
  }

  /** The value of the last line with the given key, scanning from the end:
      an independent statement of "a later line overrides an earlier one". */
  ghost function LastField(lines: seq<string>, key: string): Option<string>
    decreases |lines|
  {
    if lines == [] then None
    else
      var kv := SplitOnce(lines[|lines| - 1], ' ');
      if kv.Some? && kv.value.0 == key then Some(kv.value.1)
      else LastField(lines[..|lines| - 1], key)
  }

  /** `get_commit` on the decoded text of a commit object. */
  function ParseCommit(text: string): Outcome<Commit> {
    var h :- ReadHeaders(HeaderLines(text), Headers(None, None));
    if h.tree.None? then Err(MissingTree)
    else Ok(Commit(h.tree.value, h.parent, Join("\n", MessageLines(text))))
  }

  /** `get_commit(oid)`: reads the object at `oid`, which must be a commit. */
  function GetCommit(store: ObjectStore, oid: Oid): (r: Outcome<Commit>)
    ensures oid !in store ==> r == Err(ObjectNotFound(oid))
    ensures oid in store && store[oid].kind != "commit" ==> r == Err(TypeMismatch(oid, "commit", store[oid].kind))
    ensures oid in store && store[oid].kind == "commit" ==> r == ParseCommit(store[oid].payload)
  {
    var text :- GetObject(store, oid, Some("commit"));
    ParseCommit(text)
  }

  // ---------------------------------------------------------------------
  // Properties
  // ---------------------------------------------------------------------

  /** Reading one more line first: its key, if it is `key`, is overridden by
      any later line with that key. */
  lemma {:induction false} LastFieldCons(l: string, rest: seq<string>, key: string)
    ensures LastField([l] + rest, key)
         == if LastField(rest, key).Some? then LastField(rest, key)
            else if SplitOnce(l, ' ').Some? && SplitOnce(l, ' ').value.0 == key then Some(SplitOnce(l, ' ').value.1)
            else None
    decreases |rest|
  {
    var all := [l] + rest;
    if rest == [] {
      assert all[..|all| - 1] == [];
    } else {
      var init := rest[..|rest| - 1];
      assert all[|all| - 1] == rest[|rest| - 1];
      assert all[..|all| - 1] == [l] + init;
      LastFieldCons(l, init, key);
    }
  }

  /** The header loop keeps the last `tree` and the last `parent` value,
      falling back to what it started with. */
  lemma {:induction false} ReadHeadersLast(lines: seq<string>, h: Headers)
    requires ReadHeaders(lines, h).Ok?
    ensures ReadHeaders(lines, h).value.tree
         == if LastField(lines, "tree").Some? then LastField(lines, "tree") else h.tree
    ensures ReadHeaders(lines, h).value.parent
         == if LastField(lines, "parent").Some? then LastField(lines, "parent") else h.parent
    decreases |lines|
  {
    if lines != [] {
      var kv := SplitOnce(lines[0], ' ');
      assert HeaderOk(lines[0]);
      var key, value := kv.value.0, kv.value.1;
      var h' := if key == "tree" then h.(tree := Some(value)) else h.(parent := Some(value));
      assert ReadHeaders(lines, h) == ReadHeaders(lines[1..], h');
      ReadHeadersLast(lines[1..], h');
      assert lines == [lines[0]] + lines[1..];
      LastFieldCons(lines[0], lines[1..], "tree");
      LastFieldCons(lines[0], lines[1..], "parent");
    }
  }

  /** What `get_commit` returns: it succeeds exactly when every header line
      is a `tree` or `parent` line and there is at least one `tree` line; the
      tree and parent are the values of the last such lines (no parent line
      leaves `None`), and the message is the remaining lines joined by "\n". */
  lemma ParseCommitFields(text: string)
    ensures var hl := HeaderLines(text);
      ParseCommit(text).Ok?
      <==> ((forall k | 0 <= k < |hl| :: HeaderOk(hl[k])) && LastField(hl, "tree").Some?)
    ensures var hl := HeaderLines(text);
      ParseCommit(text).Ok? ==>
        && ParseCommit(text).value.tree == LastField(hl, "tree").value
        && ParseCommit(text).value.parent == LastField(hl, "parent")
        && ParseCommit(text).value.message == Join("\n", MessageLines(text))
  {
    var hl := HeaderLines(text);
    if ReadHeaders(hl, Headers(None, None)).Ok? {
      ReadHeadersLast(hl, Headers(None, None));
    }
  }

  /** The first rejected header line decides the error: a line without a
      space is malformed, any key other than `tree` or `parent` is unknown. */
  lemma ParseCommitRejects(text: string, k: nat)
    requires var hl := HeaderLines(text);
      k < |hl| && !HeaderOk(hl[k]) && forall j | 0 <= j < k :: HeaderOk(hl[j])
    ensures ParseCommit(text) == Err(HeaderError(HeaderLines(text)[k]))
  {
    var hl := HeaderLines(text);
    var r := ReadHeaders(hl, Headers(None, None));
    assert r.Err?;
    var k' :| FirstRejected(hl, k') && r.error == HeaderError(hl[k']);
    assert k' == k;
  }

  /** The header lines `commit` writes. */
  function RecordHeaders(tree: Oid, head: Option<Oid>): seq<string> {
    ["tree " + tree] + (if Truthy(head) then ["parent " + head.value] else [])
  }

  /** A prefix free of line boundaries followed by an id free of them. */
  lemma PrefixedNoLineBreak(p: string, x: string)
    requires NoLineBreak(p) && NoLineBreak(x)
    ensures NoLineBreak(p + x)
  {
    assert forall m | 0 <= m < |p + x| :: (p + x)[m] == if m < |p| then p[m] else x[m - |p|];
  }

  /** The record is its header lines and a blank line, each ended by
      "\n", followed by the message and "\n". */
  lemma RecordText(tree: Oid, head: Option<Oid>, message: string)
    ensures CommitRecord(tree, head, message) == Unlines(RecordHeaders(tree, head) + [""]) + (message + "\n")
  {
    var hdrs := RecordHeaders(tree, head);
    var tl := "tree " + tree;
    var x, z, m := tl + "\n", "\n", message + "\n";
    assert "" + "\n" + "" == z;
    if Truthy(head) {
      var pl := "parent " + head.value;
      var y := pl + "\n";
      assert hdrs + [""] == [tl] + ([pl] + ([""] + []));
      UnlinesCons(tl, [pl] + ([""] + []));
      UnlinesCons(pl, [""] + []);
      UnlinesCons("", []);
      assert Unlines(hdrs + [""]) == x + (y + z);
      assert CommitRecord(tree, head, message) == x + y + z + message + "\n";
      assert x + y + z + message + "\n" == (x + (y + z)) + m;
    } else {
      assert hdrs + [""] == [tl] + ([""] + []);
      UnlinesCons(tl, [""] + []);
      UnlinesCons("", []);
      assert Unlines(hdrs + [""]) == x + z;
      assert CommitRecord(tree, head, message) == x + "" + z + message + "\n";
      assert x + "" + z + message + "\n" == (x + z) + m;
    }
  }

  /** The header lines hold no line boundary when the ids hold none. */
  lemma HeadersNoLineBreak(tree: Oid, head: Option<Oid>)
    requires NoLineBreak(tree)
    requires Truthy(head) ==> NoLineBreak(head.value)
    ensures forall k | 0 <= k < |RecordHeaders(tree, head) + [""]| :: NoLineBreak((RecordHeaders(tree, head) + [""])[k])
  {
    PrefixedNoLineBreak("tree ", tree);
    if Truthy(head) {
      PrefixedNoLineBreak("parent ", head.value);
    }
  }

  /** The record read as lines: the headers, the blank line, then the lines
      of the message followed by "\n". */
  lemma RecordLines(tree: Oid, head: Option<Oid>, message: string)
    requires NoLineBreak(tree)
    requires Truthy(head) ==> NoLineBreak(head.value)
    ensures SplitLines(CommitRecord(tree, head, message))
         == RecordHeaders(tree, head) + [""] + SplitLines(message + "\n")
  {
    var block := RecordHeaders(tree, head) + [""];
    HeadersNoLineBreak(tree, head);
    RecordText(tree, head, message);
    SplitLinesAppend(block, message + "\n");
  }

  /** The header loop reads back the tree, and the parent exactly when HEAD
      was truthy. */
  lemma RecordHeadersRead(tree: Oid, head: Option<Oid>)
    ensures ReadHeaders(RecordHeaders(tree, head), Headers(None, None))
         == Ok(Headers(Some(tree), if Truthy(head) then head else None))
  {
    var hdrs := RecordHeaders(tree, head);
    assert "tree " + tree == "tree" + [' '] + tree;
    SplitOnceJoin("tree", ' ', tree);
    if Truthy(head) {
      assert "parent " + head.value == "parent" + [' '] + head.value;
      SplitOnceJoin("parent", ' ', head.value);
      assert hdrs[1..] == ["parent " + head.value];
      assert hdrs[1..][1..] == [];
      assert ReadHeaders(hdrs[1..][1..], Headers(Some(tree), head)) == Ok(Headers(Some(tree), head));
      assert ReadHeaders(hdrs[1..], Headers(Some(tree), None)) == Ok(Headers(Some(tree), head));
    } else {
      assert hdrs[1..] == [];
    }
  }

  /** A record written by `commit` reads back as the commit it describes:
      the tree, the parent exactly when HEAD was truthy, and the message,
      provided the ids hold no line boundary and the message's only line
      boundaries are "\n". */
  lemma CommitRecordRoundTrip(tree: Oid, head: Option<Oid>, message: string)
    requires NoLineBreak(tree)
    requires Truthy(head) ==> NoLineBreak(head.value)
    requires forall k | 0 <= k < |message| :: IsLineBreak(message[k]) ==> message[k] == '\n'
    ensures ParseCommit(CommitRecord(tree, head, message))
         == Ok(Commit(tree, if Truthy(head) then head else None, message))
  {
    var text := CommitRecord(tree, head, message);
    var hdrs := RecordHeaders(tree, head);
    RecordLines(tree, head, message);
    var lines := SplitLines(text);
    assert HeaderEnd(lines, 0) == |hdrs| by {
      if Truthy(head) {
        assert HeaderEnd(lines, 0) == HeaderEnd(lines, 1) == HeaderEnd(lines, 2);
      } else {
        assert HeaderEnd(lines, 0) == HeaderEnd(lines, 1);
      }
    }
    assert HeaderLines(text) == hdrs;
    assert MessageLines(text) == SplitLines(message + "\n");
    JoinSplitLines(message);
    RecordHeadersRead(tree, head);
  }

  /** `get_commit` on the oid `commit` returned gives back the commit just
      made, under the conditions of `CommitRecordRoundTrip`. */
  lemma CommitRoundTrip(store: ObjectStore, hash: string -> Oid, tree: Oid, head: Option<Oid>, message: string)
    requires NoLineBreak(tree)
    requires Truthy(head) ==> NoLineBreak(head.value)
    requires forall k | 0 <= k < |message| :: IsLineBreak(message[k]) ==> message[k] == '\n'
    ensures var r := MakeCommit(store, hash, tree, head, message);
      GetCommit(r.0, r.1) == Ok(Commit(tree, if Truthy(head) then head else None, message))
  {
    CommitRecordRoundTrip(tree, head, message);
  }
}
