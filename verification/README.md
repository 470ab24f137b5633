# ugit core in Dafny

This project models the pure logic of ugit, a small content-addressed
version-control system written in Python, and proves properties of it. The
modelled files are `ugit/base.py` and `ugit/diff.py`:

- **Tree codec.** `write_tree` serialises a directory's `(name, oid, type)`
  entries as sorted `"type oid name\n"` lines. `_iter_tree_entries` parses
  such a record. `get_tree` flattens nested trees into a `path -> blob oid`
  map and rejects bad names and unknown entry types.
- **Commit codec.** `commit` builds the record `"tree T\n[parent P\n]\nM\n"`.
  `get_commit` reads the header lines up to the first blank line, then
  rebuilds the message from the lines after it.
- **History walk.** `iter_commits_and_parents` walks a worklist, keeps a
  visited set and follows parent links.
- **Names.** `get_oid` tries candidate refs in a fixed order and falls back
  to a literal 64-digit hex oid. `is_branch` tests for a branch ref.
- **Working tree.** `read_tree` writes the blobs of a flattened tree.
  `checkout` reads a commit's tree and chooses between a symbolic and a
  direct HEAD. `is_ignored` is also modelled.
- **Tree comparison.** `compare_trees` merges N `path -> oid` maps into one
  row per path, in first-seen order. `diff_trees` reports the paths whose
  oids differ.

The object store is a `map<Oid, Object>` with the type tag and the decoded
payload. The hash function, `get_ref` and the commit reader used by the walk
are parameters of the model. No file I/O, hashing or clock appears in it.

Modules, one per file:

- `Wrappers`: `Option` and `Result`.
- `Text`: Python's `str.splitlines`, `split(' ', 1)`, `split('/')` and `'\n'.join`, on `seq<char>`.
- `Sequences`: the `Distinct` predicate shared by the other modules.
- `OrderedMaps`: a Python `dict`, whose iteration order is insertion order.
- `Objects`: object ids, the store, `RefValue`, Python truthiness of an optional string, and the error kinds.
- `TreeCodec`: `write_tree` line 33 and `_iter_tree_entries`.
- `TreeFlatten`: `get_tree`.
- `Commits`: `commit` and `get_commit`.
- `History`: `iter_commits_and_parents`.
- `Refs`: `get_oid` and `is_branch`.
- `WorkingTree`: `read_tree`, `checkout` and `is_ignored`.
- `Diff`: `compare_trees` and `diff_trees`.

Each Python exception is modelled as an `Err` value:

- a failed object lookup;
- a failed `assert`;
- a tuple unpacking that raises `ValueError`;
- the `UnboundLocalError` raised when a commit has no `tree` line.

Two details of the code:

- **Hex oids.** `get_oid` tests against `string.hexdigits`, so upper-case hex
  digits are accepted too (`Refs.IsHexDigit`).
- **Commit message.** The commit round trip is proved for messages whose only
  line boundary is `"\n"`, so a message may span several lines.

## Model

| member | source | states |
|---|---|---|
| Objects.HashObject | ugit/base.py:36 | The payload is stored under `hash(payload)`, with its type tag, and reads back unchanged. The store gains only that oid. Every other oid keeps its object, type tag included, so it reads as before whatever type is expected. |
| TreeCodec.SortEntries | ugit/base.py:33 | `sorted(entries)` returns a permutation of the entries, in ascending (name, oid, type) order. |
| TreeCodec.WriteTreeDeterministic | ugit/base.py:30-33 | Any two enumerations of the same multiset of entries serialise to the same tree record. |
| TreeCodec.WriteTreeLines | ugit/base.py:33 | The record holds one line per entry. Line i is `"type oid name"` of the i-th entry in ascending order. |
| TreeCodec.ParseEntryLine | ugit/base.py:45 | `split(' ', 2)` recovers any entry whose type and oid contain no space. The name may contain spaces. |
| TreeCodec.ParseEntryPrints | ugit/base.py:45 | Any line that `split(' ', 2)` accepts is exactly `"type oid name"` of the parsed fields. |
| TreeCodec.ParseLines | ugit/base.py:44-46 | On success there is one entry per line, each line's own parse. On failure some line fails to split into three fields. |
| TreeCodec.IterTreeEntries | ugit/base.py:40-46 | An empty oid yields no entries. A missing oid fails with not-found. A stored tree yields the parse of its payload. |
| TreeCodec.NameInjectsEntry | ugit/base.py:33-46 | As written, a child named `a + "\r" + line`, where `line` is a whole tree line, reads back as two children: `a` with the child's oid and type, and the entry `line` describes. |
| TreeCodec.InjectedBlob | ugit/base.py:33-46 | The file `"a\rblob X b"` with oid `O` reads back as the blobs `a` (oid `O`) and `b` (oid `X`). |
| TreeCodec.WriteTreeChecked | ugit/base.py:30-33 | Corrected writer: it succeeds iff every entry is writable, and then its record parses back to exactly the sorted entries. Otherwise it fails, naming an unwritable entry. |
| TreeCodec.CheckedTreeReads | ugit/base.py:40-46 | A tree stored from the corrected writer reads back through `_iter_tree_entries` as the entries written, sorted. |
| TreeCodec.TreeRoundTrip | ugit/base.py:33-46 | Parsing the record `write_tree` produced gives exactly the sorted entry list, provided types and oids have no spaces and no field has a line break. |
| TreeFlatten.GetTree | ugit/base.py:49-61 | An empty oid gives the empty map. Every resulting path starts with the base path. The result is a well-formed ordered map. |
| TreeFlatten.GetTreeRejects | ugit/base.py:52-60 | `get_tree` fails on a tree with an entry named `.`, `..` or containing `/`, or an entry whose type is neither `blob` nor `tree`. |
| TreeFlatten.GetTreeShape | ugit/base.py:51-58 | A successful result's keys are exactly the blob paths `base + name` and the keys of each subtree read at `base + name + "/"`. No other key appears. Every entry was accepted: a valid name, and a blob or a subtree that itself reads. |
| TreeFlatten.GetTreeSucceeds | ugit/base.py:49-61 | `get_tree` of a non-empty oid succeeds iff the tree's entries parse and every entry is accepted: a name without `/` other than `.` and `..`, and either a blob or a subtree that reads. |
| TreeFlatten.GetTreeMore | ugit/base.py:49-61 | A result `get_tree` reaches within some nesting budget is the same with one level more. |
| TreeFlatten.GetTreeMonotone | ugit/base.py:49-61 | Once a budget suffices for `get_tree`, every larger budget gives the same result. |
| TreeFlatten.InjectedFile | ugit/base.py:49-61 | As written, a directory whose one file is named `a + "\r" + line`, with `line` describing a blob, flattens to two files: `a` and the blob `line` names, which the directory never held. |
| TreeFlatten.GetTreeValues | ugit/base.py:54-58 | With distinct entry names, every blob entry maps `base + name` to its oid. Every subtree key maps to the subtree's oid for it. |
| Commits.MakeCommit | ugit/base.py:102-114 | The commit record is stored under its hash as a `commit` object. HEAD becomes a direct ref to that oid. The store gains only that oid, and every other object, type tag included, is unchanged. |
| Commits.ReadHeaders | ugit/base.py:145-153 | The header loop succeeds iff every header line is `tree …` or `parent …`. Otherwise it fails with the error of the first rejected line. |
| Commits.GetCommit | ugit/base.py:140-157 | A missing oid fails with not-found. A non-commit object fails with a type mismatch. A commit object is parsed. |
| Commits.ParseCommitFields | ugit/base.py:141-157 | Parsing succeeds iff all header lines are accepted and a `tree` line occurs. The last `tree` and `parent` values win. The message is the remaining lines joined by `"\n"`. |
| Commits.ParseCommitRejects | ugit/base.py:147-153 | The first header line that has no space, or whose key is neither `tree` nor `parent`, decides the error. |
| Commits.RecordLines | ugit/base.py:103-110 | The lines of a commit record are its header lines, one blank line, then the message's lines. |
| Commits.CommitRecordRoundTrip | ugit/base.py:141-157 | Parsing the record `commit` builds (lines 103-110) gives back its tree, its message and its parent. The parent is `None` when HEAD was empty. |
| Commits.CommitRoundTrip | ugit/base.py:140-157 | `get_commit` on the oid `commit` returned gives back the tree, parent and message it was built from. |
| History.IterCommitsAndParents | ugit/base.py:159-173 | The walk yields each oid at most once and never an empty one. Each yielded oid is a start oid or the parent of an earlier one. A parent not yet seen comes right after its child. Otherwise the next oid is the first start oid not yet yielded, so the start oids are taken in their order. Without an error, every truthy start and parent is yielded. An unreadable commit ends the walk right after it is yielded. |
| History.WalkYieldsReachable | ugit/base.py:159-173 | A complete walk yields exactly the oids reachable from the start oids by parent links. |
| Refs.FirstSet | ugit/base.py:185-186 | The ref chosen is the first candidate whose undereferenced value is truthy. No earlier candidate is truthy. |
| Refs.IsBranch | ugit/base.py:137-138 | `is_branch(name)` holds iff the dereferenced value of `refs/heads/name`, the last ref `get_oid` tries, is not `None`. An empty value still counts. |
| Refs.BranchResolves | ugit/base.py:175-195 | When `refs/heads/name` is the only candidate with a truthy value, `get_oid(name)` is that branch's dereferenced value. It is an oid exactly when `is_branch(name)`. |
| Refs.EmptyBranchSkipped | ugit/base.py:137-138 | A branch ref holding `""` is a branch for `is_branch`, yet `get_oid` never settles on it. |
| Refs.GetOid | ugit/base.py:175-195 | With `@` read as `HEAD`, the result is the dereferenced value of the first truthy candidate among `name`, `refs/name`, `refs/tags/name`, `refs/heads/name`. Failing that, it is the name itself if it is 64 hex digits. Otherwise it is an unknown-name error. |
| WorkingTree.ReadFiles | ugit/base.py:97-100 | Reading succeeds iff every path's oid is stored, and gives each path its object's payload. Otherwise it fails on the first missing object. |
| WorkingTree.ReadTree | ugit/base.py:94-100 | `read_tree` succeeds iff `get_tree(tree, './')` succeeds and every blob it lists is stored. The files written are then exactly its paths, each with the payload of its blob. |
| WorkingTree.CommitFiles | ugit/base.py:119-120 | Reading a commit's files succeeds iff `get_commit` succeeds and `read_tree` of its tree succeeds, and gives that tree's files. |
| WorkingTree.CommitFilesMonotone | ugit/base.py:119-120 | Once a nesting budget suffices to read a commit's files, any larger budget reads the same files. |
| WorkingTree.CheckoutMonotone | ugit/base.py:117-127 | A checkout, as written or corrected, that succeeds with some nesting budget gives the same files and HEAD with any larger budget. |
| WorkingTree.CheckoutAsWritten | ugit/base.py:117-127 | `checkout` succeeds iff `get_oid(name)` gives an oid whose commit's files read. The tree read is that commit's. HEAD is symbolic to `refs/heads/name` exactly when `is_branch(name)`, and direct to that oid otherwise. |
| WorkingTree.TagShadowsBranch | ugit/base.py:117-127 | For a name that is both a tag and a branch, `checkout`, via the candidate order of `get_oid` (lines 179-184), writes file `f` from the tag's commit ("from tag") but points HEAD at the branch, whose commit holds "from branch". |
| WorkingTree.Checkout | ugit/base.py:117-127 | For a branch name, `checkout` succeeds iff the branch's commit's files read. The commit HEAD names is the one whose tree was read. HEAD is symbolic exactly when `is_branch(name)`. For a non-branch name the result equals the code as written. |
| WorkingTree.BranchCheckedOut | ugit/base.py:117-127 | On the same tag and branch, taking the commit from the branch writes "from branch" and points HEAD at that branch. |
| WorkingTree.IsIgnored | ugit/base.py:197-198 | A path is ignored iff `.ugit` is one of its `/`-separated components. |
| Diff.FirstSeen | ugit/diff.py:19-21 | The paths in the union of all trees' keys, without repeats. |
| Diff.FirstSeenPrefix | ugit/diff.py:19-36 | The rows for the first k trees come first, in order. Later trees only append new paths. |
| Diff.FirstTreeFirst | ugit/diff.py:19-36 | All keys of tree 0, in tree 0's own order, lead the output. |
| Diff.CompareTrees | ugit/diff.py:5-37 | There is one row per path in the union of the key sets, in first-seen order. Column i of a row holds tree i's oid for the path, or `None` when the path is absent from tree i. |
| Diff.Changed | ugit/diff.py:54-55 | A path is kept iff the two trees' lookups differ. An absent side counts as `None`. |
| Diff.ChangedPaths | ugit/diff.py:54-56 | Over all paths of either tree, a path is reported iff its oids differ between the trees. This covers additions and removals. |
| Diff.NoChangeIff | ugit/diff.py:53-57 | The diff is the empty string iff the two trees are the same map. In particular `diff_trees(t, t)` is empty. |
| Diff.ReportRows | ugit/diff.py:53-57 | The loop's output is one `"changed: path\n"` line per row whose two oids differ, in row order. |
| Diff.DiffTrees | ugit/diff.py:44-57 | The output is one `"changed: path\n"` line for each path, in first-seen order, whose oids differ. |
| Text.SplitLinesUnlines | ugit/base.py:44 | `splitlines` inverts joining lines with `"\n"` terminators when no line contains a line boundary. |
| Text.SplitOnceJoin | ugit/base.py:147 | `split(' ', 1)` cuts at the first space. |
| Text.SplitPieces | ugit/base.py:198 | A string free of the separator is an element of `split('/')` iff it occurs between separators or the ends. |

## Left out

- **Store I/O and hashing.** `ugit/data.py` reads and writes files under
  `.ugit` and computes SHA-256. The store is an abstract map, the hash is a
  function parameter, and payloads are text, so UTF-8 encoding and decoding
  are not modelled.
- **Refs.** `get_ref` and `update_ref` are not part of this model: the
  `ugit/data.py` shown does not define them. `get_ref(name, deref)` is a
  function parameter, so symbolic-ref chains are whatever that function
  returns. `is_branch` calls `get_ref` without `deref`; the model takes the
  default to be `True`, i.e. the ref is dereferenced.
- **HEAD updates.** Writing HEAD in `commit` and `checkout`
  (ugit/base.py:113, ugit/base.py:127) is modelled as the returned new
  HEAD value. Persisting it, and whether a write through a symbolic HEAD
  moves the branch, is not modelled.
- **Directory walk in `write_tree`.** `os.scandir`, `is_file`/`is_dir`, file
  reads and the recursion over subdirectories (ugit/base.py:14-29) are I/O.
  Only the serialisation on line 33 is modelled.
- **`is_ignored` inside `write_tree`** (line 18) and inside
  `_empty_current_directory`. Both filter a filesystem walk, which is left
  out. The predicate itself is modelled.
- **`_empty_current_directory`** (ugit/base.py:69-90). It is pure
  filesystem removal.
- **Filesystem effects of `read_tree`.** `os.makedirs` and the file writes
  are modelled as the resulting `path -> content` map. The files written
  before a missing object stops `read_tree` are not modelled.
- **`create_tag` and `create_branch`** (ugit/base.py:129-133). Each is a
  single `update_ref` call with no logic of its own.
- **`ugit/cli.py` and `setup.py`**: argument parsing, printing and packaging.
- **History.IterCommitsAndParents**: the reader is a function parameter. Its
  contract relies on `read` succeeding only on a finite set of oids, which
  `History.StoreReaderKnown` shows for `get_commit` over a store. The
  generator's laziness is modelled by returning everything yielded before
  the first failure.
- **TreeFlatten.GetTree**: the recursion into subtrees is bounded by a
  `fuel` depth. A tree nested deeper than the fuel fails with `TreeTooDeep`,
  although Python's `get_tree` would return its map. The model does not
  state which fuel a tree needs. `TreeFlatten.GetTreeSucceeds` says when the
  given fuel is enough, and `TreeFlatten.GetTreeMonotone` shows that any
  larger fuel then gives the same result. So `read_tree` and `checkout` do
  not depend on the fuel once it is enough (`WorkingTree.CommitFilesMonotone`,
  `WorkingTree.CheckoutMonotone`).
- **Names with line boundaries.** `write_tree` puts a name into the record
  as it is, and `splitlines` breaks at `\r`, `\x0b`, `\x0c`, `\x1c`-`\x1e`,
  `\x85`, `\u2028` and `\u2029` as well as `\n`. A tree holding such a name
  may fail to parse, or may parse into other entries, as the Findings
  section shows for `\r`. `TreeCodec.TreeRoundTrip` assumes no such name.
  Only the `\r` case is worked through; the other boundaries are not.
- TreeFlatten.GetTreeValues: stated only for trees whose entry names are
  distinct, as `write_tree` produces them from a directory listing. With a
  repeated name the later entry overwrites the earlier one in the `dict`;
  that case is not stated.
- **WorkingTree.CheckoutAsWritten**: `get_oid` may return `None` when a candidate
  ref's dereferenced value is missing. Python then fails inside `get_commit`;
  here that is the error `NoOid(name)`.
- **Assertions under `python -O`.** The `assert` statements in
  `get_tree`, `get_commit` and `get_oid` are modelled as failures, as when
  assertions are enabled. Under `-O` they would be skipped.

## Findings

| source | as written | input that shows it | evidently intended | confidence | as-written member | corrected member |
|---|---|---|---|---|---|---|
| ugit/base.py:117-127 with ugit/base.py:179-184 | `checkout` reads the tree of `get_oid(name)`, which tries `refs/tags/name` before `refs/heads/name`. HEAD is then made symbolic to `refs/heads/name` whenever that branch exists. | Tag `v` at commit `a` and branch `v` at commit `b`, with `a` ≠ `b`. `checkout("v")` writes `a`'s tree but leaves HEAD naming `b`. | A symbolic HEAD names the commit whose tree was checked out, so the commit is taken from the branch when `name` is a branch. | medium; not executed | WorkingTree.CheckoutAsWritten, WorkingTree.TagShadowsBranch | WorkingTree.Checkout, WorkingTree.BranchCheckedOut |
| ugit/base.py:33 with ugit/base.py:44 | `write_tree` writes each child as `"type oid name\n"` and does not check the name. `_iter_tree_entries` splits the record with `splitlines`, which also breaks at `"\r"`. | A file named `"a\rblob X b"` with oid `O`. The record reads back as two blobs, `a` with oid `O` and `b` with oid `X`, so `get_tree` lists a file `b` the directory never held. | A tree record reads back as the entries written, so a name the format cannot carry is refused when the tree is written. | high; not executed | TreeCodec.NameInjectsEntry, TreeCodec.InjectedBlob, TreeFlatten.InjectedFile | TreeCodec.WriteTreeChecked, TreeCodec.CheckedTreeReads |
