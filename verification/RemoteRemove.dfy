/**
 Deleting a remote folder over SFTP with an explicit stack.

 A path is a name in the folder of another path; a tree says what is at each path. The server refuses what a
 real one refuses: removing a folder that is not empty, removing a folder as a file, or
 anything about a path that is not there.
 */
module RemoteRemove {
  import opened Wrappers

  datatype Path = Top | In(folder: Path, name: string)

  datatype Kind = File | Link | Dir

  datatype Entry = Entry(path: Path, kind: Kind)

  datatype RemoteError = NoSuchPath(path: Path) | NotEmpty(path: Path) | WrongKind(path: Path)

  datatype Op = ReadDir(path: Path) | RemoveFile(path: Path) | RemoveDir(path: Path)

  /** What was asked of the server, and whether it did it. */
  datatype Request = Request(op: Op, done: bool)

  /** A folder on the stack: still to be read, or read and only to be removed. */
  datatype Todo = Todo(path: Path, emptied: bool)

  /** `p` is `a` or somewhere below it. */
  predicate Below(a: Path, p: Path) {
    p == a || (p.In? && Below(a, p.folder))
  }

  predicate IsChild(p: Path, dir: Path) {
    p.In? && p.folder == dir
  }

  /** Whatever is in the tree is in a folder of the tree. */
  ghost predicate IsTree(tree: map<Path, Kind>) {
    forall p :: p in tree && p.In? ==> p.folder in tree && tree[p.folder] == Dir
  }

  /** A tree without a path and everything below it. */
  ghost function Pruned(tree: map<Path, Kind>, root: Path): map<Path, Kind> {
    map p | p in tree && !Below(root, p) :: tree[p]
  }

  /** One request that touched the right kind of thing. */
  ghost predicate Proper(op: Op, tree: map<Path, Kind>, root: Path) {
    && Below(root, op.path) && op.path in tree
    && (op.RemoveFile? <==> tree[op.path] != Dir)
  }

  // ------------------------------------------------------------------ paths

  lemma {:induction false} BelowIsTransitive(a: Path, b: Path, p: Path)
    requires Below(a, b) && Below(b, p)
    ensures Below(a, p)
  {
    if p != b {
      BelowIsTransitive(a, b, p.folder);
    }
  }

  lemma {:induction false} AncestorsOfOnePath(a: Path, b: Path, p: Path)
    requires Below(a, p) && Below(b, p)
    ensures Below(a, b) || Below(b, a)
  {
    if p != a && p != b {
      AncestorsOfOnePath(a, b, p.folder);
    }
  }

  function Depth(p: Path): nat {
    if p.In? then 1 + Depth(p.folder) else 0
  }

  lemma {:induction false} BelowIsDeeper(a: Path, p: Path)
    ensures Below(a, p) ==> a == p || Depth(a) < Depth(p)
  {
    if p.In? {
      BelowIsDeeper(a, p.folder);
    }
  }

  lemma ChildIsBelow(child: Path, dir: Path)
    requires IsChild(child, dir)
    ensures Below(dir, child) && !Below(child, dir)
  {
    BelowIsDeeper(child, dir);
  }

  lemma {:induction false} FolderAbove(tree: map<Path, Kind>, a: Path, p: Path)
    requires IsTree(tree) && p in tree
    ensures Below(a, p) && a != p ==> a in tree && tree[a] == Dir
  {
    if p.In? {
      FolderAbove(tree, a, p.folder);
    }
  }

  // ------------------------------------------------------------------ the stack

  /** Each entry is a folder of the tree below the root; see `Apart` for how entries lie. */
  ghost predicate Stack(pending: seq<Todo>, tree: map<Path, Kind>, root: Path) {
    && (forall i :: 0 <= i < |pending| ==>
         Below(root, pending[i].path) && pending[i].path in tree && tree[pending[i].path] == Dir)
    && forall i, j :: 0 <= i < j < |pending| ==> Apart(pending[i], pending[j])
  }

  /**
   For an entry below another one on the stack: the upper path is no ancestor of the lower
   one, and an unread folder is no ancestor of anything else on the stack.
   */
  predicate Apart(lower: Todo, upper: Todo) {
    && !Below(upper.path, lower.path)
    && (!lower.emptied ==> !Below(lower.path, upper.path))
  }

  ghost predicate Covers(todo: Todo, p: Path) {
    todo.path == p || (!todo.emptied && Below(todo.path, p))
  }

  ghost predicate Covered(pending: seq<Todo>, p: Path) {
    exists i :: 0 <= i < |pending| && Covers(pending[i], p)
  }

  /** Everything still there below the root is on the stack, or below an unread folder on it. */
  ghost predicate AllCovered(pending: seq<Todo>, tree: map<Path, Kind>, root: Path) {
    forall p :: p in tree && Below(root, p) ==> Covered(pending, p)
  }

  /** What an entry covers is not inside a folder above it on the stack. */
  lemma CoversNothingAbove(todo: Todo, top: Todo, p: Path)
    requires Apart(todo, top) && Covers(todo, p)
    ensures !Below(top.path, p)
  {
    if todo.path != p && Below(top.path, p) {
      AncestorsOfOnePath(todo.path, top.path, p);
    }
  }

  lemma CoveredInsideTheTop(rest: seq<Todo>, top: Todo, p: Path)
    requires top.emptied && Covered(rest + [top], p) && Below(top.path, p)
    requires forall todo :: todo in rest ==> Apart(todo, top)
    ensures p == top.path
  {
    if p != top.path {
      CoveredByTheRest(rest, top, p);
      var i :| 0 <= i < |rest| && Covers(rest[i], p);
      CoversNothingAbove(rest[i], top, p);
    }
  }

  lemma ApartFromTheTop(rest: seq<Todo>, top: Todo, tree: map<Path, Kind>, root: Path)
    requires Stack(rest + [top], tree, root)
    ensures forall todo :: todo in rest ==> Apart(todo, top)
  {
    var pending := rest + [top];
    forall todo | todo in rest ensures Apart(todo, top) {
      var i :| 0 <= i < |rest| && rest[i] == todo;
      assert Apart(pending[i], pending[|rest|]);
    }
  }

  /** When an emptied folder is on top, nothing is left inside it. */
  lemma EmptiedIsEmpty(rest: seq<Todo>, top: Todo, tree: map<Path, Kind>, root: Path, p: Path)
    requires top.emptied && Stack(rest + [top], tree, root) && AllCovered(rest + [top], tree, root)
    requires p in tree && Below(top.path, p)
    ensures p == top.path
  {
    assert (rest + [top])[|rest|] == top;
    BelowIsTransitive(root, top.path, p);
    ApartFromTheTop(rest, top, tree, root);
    CoveredInsideTheTop(rest, top, p);
  }

  /** Taking the emptied folder away leaves everything else covered. */
  lemma PopEmptied(pending: seq<Todo>, tree: map<Path, Kind>, root: Path)
    requires pending != [] && pending[|pending| - 1].emptied && Stack(pending, tree, root)
    requires AllCovered(pending, tree, root)
    ensures var rest, dir := pending[..|pending| - 1], pending[|pending| - 1].path;
            && Stack(rest, tree - {dir}, root) && AllCovered(rest, tree - {dir}, root)
  {
    var rest, top := pending[..|pending| - 1], pending[|pending| - 1];
    assert pending == rest + [top];
    forall i | 0 <= i < |rest| ensures rest[i] == pending[i] && rest[i].path != top.path {
      assert Apart(pending[i], top);
    }
    forall p | p in tree && p != top.path && Below(root, p) ensures Covered(rest, p) {
      CoveredByTheRest(rest, top, p);
    }
  }

  /** A tree stays one without an empty folder. */
  lemma StillATree(before: map<Path, Kind>, now: map<Path, Kind>, root: Path, dir: Path)
    requires IsTree(now) && Shrunk(before, now, root) && Below(root, dir)
    requires forall p :: p in now && Below(dir, p) ==> p == dir
    ensures IsTree(now - {dir}) && Shrunk(before, now - {dir}, root)
  {
    forall p | p in now - {dir} && p.In? ensures p.folder != dir {
      assert p.folder == dir ==> Below(dir, p);
    }
  }

  lemma CoveredByTheRest(rest: seq<Todo>, top: Todo, p: Path)
    requires Covered(rest + [top], p) && !Covers(top, p)
    ensures Covered(rest, p)
  {
    var i :| 0 <= i < |rest + [top]| && Covers((rest + [top])[i], p);
    assert Covers(rest[i], p);
  }

  /** Reading a folder: from now on its entries have to be accounted for one by one. */
  ghost predicate AllCoveredOr(pending: seq<Todo>, children: seq<Entry>, c: nat, tree: map<Path, Kind>, root: Path)
    requires c <= |children|
  {
    forall p :: p in tree && Below(root, p) ==>
             Covered(pending, p) || exists k :: c <= k < |children| && Below(children[k].path, p)
  }

  /** The entries of a folder, each once. */
  ghost predicate Lists(children: seq<Entry>, tree: map<Path, Kind>, dir: Path) {
    && (forall k :: 0 <= k < |children| ==>
         IsChild(children[k].path, dir) && children[k].path in tree && tree[children[k].path] == children[k].kind)
    && (forall p :: p in tree && IsChild(p, dir) ==> exists k :: 0 <= k < |children| && children[k].path == p)
    && (forall k, l :: 0 <= k < l < |children| ==> children[k].path != children[l].path)
  }

  lemma StartReading(rest: seq<Todo>, tree: map<Path, Kind>, root: Path, dir: Path, children: seq<Entry>)
    requires IsTree(tree) && Lists(children, tree, dir)
    requires Stack(rest + [Todo(dir, false)], tree, root) && AllCovered(rest + [Todo(dir, false)], tree, root)
    ensures Stack(rest + [Todo(dir, true)], tree, root)
    ensures AllCoveredOr(rest + [Todo(dir, true)], children, 0, tree, root)
    ensures Reading(rest + [Todo(dir, true)], |rest|, dir, children, 0)
  {
    ReadingKeepsStack(rest, tree, root, dir);
    forall p | p in tree && Below(root, p)
      ensures Covered(rest + [Todo(dir, true)], p) || exists k :: 0 <= k < |children| && Below(children[k].path, p)
    {
      if !Covered(rest + [Todo(dir, true)], p) {
        NoLongerCovered(rest, dir, p);
        ChildAbove(tree, dir, p, children);
      }
    }
  }

  lemma NoLongerCovered(rest: seq<Todo>, dir: Path, p: Path)
    requires Covered(rest + [Todo(dir, false)], p) && !Covered(rest + [Todo(dir, true)], p)
    ensures Below(dir, p) && p != dir
  {
    NotCovered(rest, Todo(dir, true), p);
    var i :| 0 <= i < |rest| + 1 && Covers((rest + [Todo(dir, false)])[i], p);
  }

  lemma NotCovered(rest: seq<Todo>, top: Todo, p: Path)
    requires !Covered(rest + [top], p)
    ensures !Covers(top, p) && forall i :: 0 <= i < |rest| ==> !Covers(rest[i], p)
  {
    var all := rest + [top];
    assert all[|rest|] == top && forall i :: 0 <= i < |rest| ==> all[i] == rest[i];
  }

  lemma ReadingKeepsStack(rest: seq<Todo>, tree: map<Path, Kind>, root: Path, dir: Path)
    requires Stack(rest + [Todo(dir, false)], tree, root)
    ensures Stack(rest + [Todo(dir, true)], tree, root)
    ensures forall i :: 0 <= i < |rest| ==> Related(rest[i], dir)
  {
    var before, after := rest + [Todo(dir, false)], rest + [Todo(dir, true)];
    assert forall i :: 0 <= i < |after| ==>
             after[i].path == before[i].path && (i < |rest| ==> after[i] == before[i] == rest[i]);
    forall i, j | 0 <= i < j < |after| ensures Apart(after[i], after[j]) {
      assert Apart(before[i], before[j]);
    }
    forall i | 0 <= i < |rest| ensures Related(rest[i], dir) {
      assert Apart(before[i], before[|rest|]);
    }
  }

  lemma {:induction false} ChildAbove(tree: map<Path, Kind>, dir: Path, p: Path, children: seq<Entry>)
    requires IsTree(tree) && Lists(children, tree, dir) && p in tree && Below(dir, p) && p != dir
    ensures exists k :: 0 <= k < |children| && Below(children[k].path, p)
  {
    if p.folder == dir {
      assert IsChild(p, dir);
    } else {
      ChildAbove(tree, dir, p.folder, children);
      var k :| 0 <= k < |children| && Below(children[k].path, p.folder);
    }
  }

  /** How an entry lies to a folder that was unread above it. */
  predicate Related(todo: Todo, dir: Path) {
    !Below(dir, todo.path) && (!todo.emptied ==> !Below(todo.path, dir))
  }

  /** The entries pushed while a folder is read: those below it, the folder, and its subfolders. */
  ghost predicate Reading(pending: seq<Todo>, n: nat, dir: Path, children: seq<Entry>, c: nat)
    requires c <= |children|
  {
    && n < |pending| && pending[n] == Todo(dir, true)
    && (forall i :: 0 <= i < n ==> Related(pending[i], dir))
    && (forall i :: n < i < |pending| ==> !pending[i].emptied && IsChild(pending[i].path, dir)
                                          && exists k :: 0 <= k < c && children[k].path == pending[i].path)
  }

  /** Nothing new, nothing changed, and nothing gone that is not below the root. */
  ghost predicate Shrunk(before: map<Path, Kind>, now: map<Path, Kind>, root: Path) {
    && (forall p :: p in now ==> p in before && now[p] == before[p])
    && (forall p :: p in before && !Below(root, p) ==> p in now)
  }

  /** Every request since `before` was about the right kind of thing, and the server did it. */
  ghost predicate AllProper(log: seq<Request>, before: seq<Request>, tree: map<Path, Kind>, root: Path) {
    before <= log && forall k :: |before| <= k < |log| ==> log[k].done && Proper(log[k].op, tree, root)
  }

  lemma OneMoreProper(log: seq<Request>, before: seq<Request>, tree: map<Path, Kind>, root: Path, op: Op)
    requires AllProper(log, before, tree, root) && Proper(op, tree, root)
    ensures AllProper(log + [Request(op, true)], before, tree, root)
  {
  }

  /** Between two steps of the walk: what is gone was below the root, what is left is accounted for. */
  ghost predicate Walking(before: map<Path, Kind>, now: map<Path, Kind>, root: Path, pending: seq<Todo>) {
    Shrunk(before, now, root) && IsTree(now) && Stack(pending, now, root)
  }

  /** While a folder's entries are gone through: the first `c` are dealt with, the others untouched. */
  ghost predicate Entering(before: map<Path, Kind>, now: map<Path, Kind>, root: Path, pending: seq<Todo>, n: nat,
          dir: Path, children: seq<Entry>, c: nat) {
    && c <= |children|
    && Walking(before, now, root, pending)
    && Reading(pending, n, dir, children, c)
    && AllCoveredOr(pending, children, c, now, root)
    && (forall k :: c <= k < |children| ==> children[k].path in now && now[children[k].path] == children[k].kind)
  }

  ghost predicate Siblings(children: seq<Entry>, dir: Path) {
    && (forall k :: 0 <= k < |children| ==> IsChild(children[k].path, dir))
    && (forall k, l :: 0 <= k < l < |children| ==> children[k].path != children[l].path)
  }

  lemma PushChild(pending: seq<Todo>, n: nat, dir: Path, children: seq<Entry>, c: nat, tree: map<Path, Kind>,
          root: Path)
    requires c < |children| && Reading(pending, n, dir, children, c) && Stack(pending, tree, root)
    requires AllCoveredOr(pending, children, c, tree, root)
    requires IsChild(children[c].path, dir) && children[c].path in tree && tree[children[c].path] == Dir
    requires forall k :: 0 <= k < c ==> children[k].path != children[c].path
    ensures var pushed := pending + [Todo(children[c].path, false)];
            && Reading(pushed, n, dir, children, c + 1) && Stack(pushed, tree, root)
            && AllCoveredOr(pushed, children, c + 1, tree, root)
  {
    var child := children[c].path;
    var pushed := pending + [Todo(child, false)];
    assert Below(dir, child);
    forall i | 0 <= i < |pending| ensures Apart(pending[i], Todo(child, false)) {
      ChildIsBelow(child, dir);
      if i < n {
        RelatedToChild(pending[i], dir, child);
      } else if i > n {
        ChildIsBelow(pending[i].path, dir);
      }
    }
    forall p | p in tree && Below(root, p)
      ensures Covered(pushed, p) || exists k :: c + 1 <= k < |children| && Below(children[k].path, p)
    {
      if Covered(pending, p) {
        var i :| 0 <= i < |pending| && Covers(pending[i], p);
        assert pushed[i] == pending[i];
      } else if Below(child, p) {
        assert Covers(pushed[|pending|], p);
      }
    }
    assert Below(root, pending[n].path);
  }

  lemma RelatedToChild(todo: Todo, dir: Path, child: Path)
    requires Related(todo, dir) && IsChild(child, dir)
    ensures Apart(todo, Todo(child, false))
  {
    ChildIsBelow(child, dir);
    if Below(child, todo.path) {
      BelowIsTransitive(dir, child, todo.path);
    }
  }

  lemma ChildOfTheRoot(pending: seq<Todo>, n: nat, dir: Path, child: Path, tree: map<Path, Kind>, root: Path)
    requires n < |pending| && pending[n].path == dir && Stack(pending, tree, root) && IsChild(child, dir)
    ensures Below(root, child)
  {
  }

  lemma EveryEntryDealtWith(before: map<Path, Kind>, now: map<Path, Kind>, root: Path, pending: seq<Todo>, n: nat,
          dir: Path, children: seq<Entry>)
    requires Entering(before, now, root, pending, n, dir, children, |children|)
    ensures Walking(before, now, root, pending) && AllCovered(pending, now, root)
  {
  }

  lemma PrefixIsTransitive(a: seq<Todo>, b: seq<Todo>, c: seq<Todo>)
    requires a <= b && b <= c
    ensures a <= c
  {
  }

  lemma EnterFolder(before: map<Path, Kind>, now: map<Path, Kind>, root: Path, pending: seq<Todo>, n: nat, dir: Path,
          children: seq<Entry>, c: nat)
    requires Entering(before, now, root, pending, n, dir, children, c) && Siblings(children, dir)
    requires c < |children| && children[c].kind == Dir
    ensures Entering(before, now, root, pending + [Todo(children[c].path, false)], n, dir, children, c + 1)
  {
    PushChild(pending, n, dir, children, c, now, root);
  }

  lemma EnterFile(before: map<Path, Kind>, now: map<Path, Kind>, root: Path, pending: seq<Todo>, n: nat, dir: Path,
          children: seq<Entry>, c: nat)
    requires Entering(before, now, root, pending, n, dir, children, c) && Siblings(children, dir)
    requires c < |children| && children[c].kind != Dir
    ensures Entering(before, now - {children[c].path}, root, pending, n, dir, children, c + 1)
    ensures Proper(RemoveFile(children[c].path), before, root)
  {
    ChildOfTheRoot(pending, n, dir, children[c].path, now, root);
    DropFile(pending, n, dir, children, c, now, root);
  }

  lemma DropFile(pending: seq<Todo>, n: nat, dir: Path, children: seq<Entry>, c: nat, tree: map<Path, Kind>, root: Path)
    requires c < |children| && Reading(pending, n, dir, children, c) && Stack(pending, tree, root) && IsTree(tree)
    requires AllCoveredOr(pending, children, c, tree, root)
    requires children[c].path in tree && tree[children[c].path] != Dir
    ensures Reading(pending, n, dir, children, c + 1) && Stack(pending, tree - {children[c].path}, root)
    ensures IsTree(tree - {children[c].path})
    ensures AllCoveredOr(pending, children, c + 1, tree - {children[c].path}, root)
  {
    var child := children[c].path;
    forall p | p in tree && Below(root, p) && p != child
      ensures Covered(pending, p) || exists k :: c + 1 <= k < |children| && Below(children[k].path, p)
    {
      FolderAbove(tree, child, p);
    }
    DropFileKeepsTree(pending, tree, root, child);
  }

  lemma DropFileKeepsTree(pending: seq<Todo>, tree: map<Path, Kind>, root: Path, p: Path)
    requires Stack(pending, tree, root) && IsTree(tree) && p in tree && tree[p] != Dir
    ensures Stack(pending, tree - {p}, root) && IsTree(tree - {p})
  {
  }

  // ------------------------------------------------------------------ the server and the walk

  class Remote {
    var tree: map<Path, Kind>
    var log: seq<Request>

    ghost predicate Valid()
      reads this
    {
      IsTree(tree)
    }

    constructor (tree: map<Path, Kind>)
      requires IsTree(tree)
      ensures Valid() && this.tree == tree && log == []
    {
      this.tree := tree;
      log := [];
    }

    /** The entries of a folder, in any order. */
    method List(dir: Path) returns (r: Result<seq<Entry>, RemoteError>)
      modifies this`log
      ensures log == old(log) + [Request(ReadDir(dir), r.Ok?)]
      ensures r.Ok? <==> dir in tree && tree[dir] == Dir
      ensures r.Ok? ==> Lists(r.value, tree, dir)
    {
      log := log + [Request(ReadDir(dir), dir in tree && tree[dir] == Dir)];
      if dir !in tree {
        return Err(NoSuchPath(dir));
      }
      if tree[dir] != Dir {
        return Err(WrongKind(dir));
      }
      var left := set p | p in tree && IsChild(p, dir);
      var children: seq<Entry> := [];
      while left != {}
        invariant forall p :: p in left ==> p in tree && IsChild(p, dir)
        invariant forall k :: 0 <= k < |children| ==> IsChild(children[k].path, dir) && children[k].path in tree
                                                      && tree[children[k].path] == children[k].kind
                                                         && children[k].path !in left
        invariant forall p :: p in tree && IsChild(p, dir) ==>
                    p in left || exists k :: 0 <= k < |children| && children[k].path == p
        invariant forall k, l :: 0 <= k < l < |children| ==> children[k].path != children[l].path
      {
        var p :| p in left;
        ghost var before := children;
        children := children + [Entry(p, tree[p])];
        assert forall k :: 0 <= k < |before| ==> children[k] == before[k];
        assert children[|before|].path == p;
        left := left - {p};
      }
      r := Ok(children);
    }

    method Unlink(p: Path) returns (r: Result<(), RemoteError>)
      modifies this
      ensures log == old(log) + [Request(RemoveFile(p), r.Ok?)]
      ensures r.Ok? <==> p in old(tree) && old(tree)[p] != Dir
      ensures r.Ok? ==> tree == old(tree) - {p}
      ensures r.Err? ==> tree == old(tree)
    {
      r := if p !in tree then Err(NoSuchPath(p)) else if tree[p] == Dir then Err(WrongKind(p)) else Ok(());
      log := log + [Request(RemoveFile(p), r.Ok?)];
      if r.Ok? {
        tree := tree - {p};
      }
    }

    method Rmdir(p: Path) returns (r: Result<(), RemoteError>)
      modifies this
      ensures log == old(log) + [Request(RemoveDir(p), r.Ok?)]
      ensures r.Ok? <==> p in old(tree) && old(tree)[p] == Dir && forall q :: q in old(tree) && Below(p, q) ==> q == p
      ensures r.Ok? ==> tree == old(tree) - {p}
      ensures r.Err? ==> tree == old(tree)
    {
      r := if p !in tree then Err(NoSuchPath(p))
      else if tree[p] != Dir then Err(WrongKind(p))
      else if exists q :: q in tree && Below(p, q) && q != p then Err(NotEmpty(p))
      else Ok(());
      log := log + [Request(RemoveDir(p), r.Ok?)];
      if r.Ok? {
        tree := tree - {p};
      }
    }

    /** Go through a folder's entries: subfolders wait on the stack, anything else is removed. */
    method Enter(children: seq<Entry>, stack: seq<Todo>, ghost before: map<Path, Kind>, ghost asked: seq<Request>,
            ghost root: Path, ghost dir: Path)
      returns (pending: seq<Todo>)
      requires stack != [] && Entering(before, tree, root, stack, |stack| - 1, dir, children, 0)
      requires Siblings(children, dir)
      requires AllProper(log, asked, before, root)
      modifies this
      ensures Walking(before, tree, root, pending) && AllCovered(pending, tree, root)
      ensures AllProper(log, asked, before, root)
      ensures stack <= pending && forall p :: p in tree ==> p in old(tree)
    {
      pending := stack;
      for c := 0 to |children|
        invariant Entering(before, tree, root, pending, |stack| - 1, dir, children, c)
        invariant AllProper(log, asked, before, root)
        invariant stack <= pending && forall p :: p in tree ==> p in old(tree)
      {
        ghost var so := pending;
        pending := EnterOne(children, c, pending, before, asked, root, dir, |stack| - 1);
        PrefixIsTransitive(stack, so, pending);
      }
      EveryEntryDealtWith(before, tree, root, pending, |stack| - 1, dir, children);
    }

    method EnterOne(children: seq<Entry>, c: nat, stack: seq<Todo>, ghost before: map<Path, Kind>,
            ghost asked: seq<Request>, ghost root: Path, ghost dir: Path, ghost n: nat)
      returns (pending: seq<Todo>)
      requires c < |children| && Entering(before, tree, root, stack, n, dir, children, c) && Siblings(children, dir)
      requires AllProper(log, asked, before, root)
      modifies this
      ensures Entering(before, tree, root, pending, n, dir, children, c + 1)
      ensures AllProper(log, asked, before, root)
      ensures stack <= pending && forall p :: p in tree ==> p in old(tree)
    {
      pending := stack;
      if children[c].kind == Dir {
        EnterFolder(before, tree, root, pending, n, dir, children, c);
        pending := pending + [Todo(children[c].path, false)];
      } else {
        EnterFile(before, tree, root, pending, n, dir, children, c);
        OneMoreProper(log, asked, before, root, RemoveFile(children[c].path));
        var removed := Unlink(children[c].path);
        assert removed.Ok?;
      }
    }

    /** Remove the folder on top of the stack, which is empty by now. */
    method RemoveEmptied(stack: seq<Todo>, ghost before: map<Path, Kind>, ghost asked: seq<Request>, ghost root: Path)
      returns (pending: seq<Todo>)
      requires stack != [] && stack[|stack| - 1].emptied
      requires Walking(before, tree, root, stack) && AllCovered(stack, tree, root)
      requires AllProper(log, asked, before, root)
      modifies this
      ensures pending == stack[..|stack| - 1] && tree == old(tree) - {stack[|stack| - 1].path}
      ensures Walking(before, tree, root, pending) && AllCovered(pending, tree, root)
      ensures AllProper(log, asked, before, root)
    {
      ghost var rest, top := stack[..|stack| - 1], stack[|stack| - 1];
      var dir := stack[|stack| - 1].path;
      assert stack == rest + [top];
      forall p | p in tree && Below(dir, p) ensures p == dir {
        EmptiedIsEmpty(rest, top, tree, root, p);
      }
      PopEmptied(stack, tree, root);
      StillATree(before, tree, root, dir);
      OneMoreProper(log, asked, before, root, RemoveDir(dir));
      var removed := Rmdir(dir);
      assert removed.Ok?;
      pending := stack[..|stack| - 1];
    }

    /** Read the folder on top of the stack and leave it there, to be removed after what is in it. */
    method Read(stack: seq<Todo>, ghost before: map<Path, Kind>, ghost asked: seq<Request>, ghost root: Path)
      returns (pending: seq<Todo>)
      requires stack != [] && !stack[|stack| - 1].emptied
      requires Walking(before, tree, root, stack) && AllCovered(stack, tree, root)
      requires AllProper(log, asked, before, root)
      modifies this
      ensures Walking(before, tree, root, pending) && AllCovered(pending, tree, root)
      ensures AllProper(log, asked, before, root)
      ensures stack[..|stack| - 1] + [Todo(stack[|stack| - 1].path, true)] <= pending
      ensures forall p :: p in tree ==> p in old(tree)
    {
      var rest, dir := stack[..|stack| - 1], stack[|stack| - 1].path;
      assert stack == rest + [Todo(dir, false)];
      OneMoreProper(log, asked, before, root, ReadDir(dir));
      pending := rest + [Todo(dir, true)];
      var listed := List(dir);
      assert listed.Ok?;
      StartReading(rest, tree, root, dir, listed.value);
      pending := Enter(listed.value, pending, before, asked, root, dir);
    }

    /** One turn of the walk: the folder on top is read, or, if it was, removed. */
    method Turn(stack: seq<Todo>, ghost before: map<Path, Kind>, ghost asked: seq<Request>, ghost root: Path,
            ghost read: set<Path>)
      returns (pending: seq<Todo>, ghost expanded: set<Path>)
      requires stack != [] && Walking(before, tree, root, stack) && AllCovered(stack, tree, root)
      requires AllProper(log, asked, before, root)
      requires read <= before.Keys && ReadOnce(read, stack, tree)
      modifies this
      ensures Walking(before, tree, root, pending) && AllCovered(pending, tree, root)
      ensures AllProper(log, asked, before, root)
      ensures expanded <= before.Keys && ReadOnce(expanded, pending, tree)
      ensures (expanded == read && |pending| < |stack|) || |before.Keys - expanded| < |before.Keys - read|
    {
      var top := stack[|stack| - 1];
      if top.emptied {
        StillRead(stack, read, tree);
        pending := RemoveEmptied(stack, before, asked, root);
        expanded := read;
      } else {
        NotExpanded(stack, read, tree, root);
        ReadingShrinks(before.Keys, read, top.path);
        pending := Read(stack, before, asked, root);
        ReadNow(stack, pending, read, tree);
        expanded := read + {top.path};
      }
    }

    /** Delete a file, a link, or a folder with everything in it. Links are removed, never followed. */
    method Remove(path: Path) returns (r: Result<(), RemoteError>)
      requires Valid()
      modifies this
      ensures Valid()
      ensures r.Ok? <==> path in old(tree)
      ensures tree == Pruned(old(tree), path)
      ensures AllProper(log, old(log), old(tree), path)
    {
      if path !in tree {
        NothingToPrune(tree, path);
        return Err(NoSuchPath(path));
      }
      if tree[path] != Dir {
        LeafToPrune(tree, path);
        r := Unlink(path);
        return;
      }
      r := RemoveFolder(path);
    }

    method RemoveFolder(path: Path) returns (r: Result<(), RemoteError>)
      requires Valid() && path in tree && tree[path] == Dir
      modifies this
      ensures Valid() && r.Ok? && tree == Pruned(old(tree), path)
      ensures AllProper(log, old(log), old(tree), path)
    {
      ghost var asked := log;
      ghost var expanded: set<Path> := {};
      var pending := [Todo(path, false)];
      StartOfTheWalk(tree, path);
      while pending != []
        invariant Walking(old(tree), tree, path, pending) && AllCovered(pending, tree, path)
        invariant AllProper(log, asked, old(tree), path)
        invariant expanded <= old(tree).Keys && ReadOnce(expanded, pending, tree)
        decreases |old(tree).Keys - expanded|, |pending|
      {
        pending, expanded := Turn(pending, old(tree), asked, path, expanded);
      }
      EndOfTheWalk(old(tree), tree, path);
      r := Ok(());
    }
  }

  lemma StartOfTheWalk(tree: map<Path, Kind>, root: Path)
    requires IsTree(tree) && root in tree && tree[root] == Dir
    ensures Walking(tree, tree, root, [Todo(root, false)]) && AllCovered([Todo(root, false)], tree, root)
  {
    assert forall p :: Below(root, p) ==> Covers([Todo(root, false)][0], p);
  }

  lemma EndOfTheWalk(before: map<Path, Kind>, now: map<Path, Kind>, root: Path)
    requires Shrunk(before, now, root) && AllCovered([], now, root)
    ensures now == Pruned(before, root)
  {
    forall p | p in now ensures !Below(root, p) {
      assert !Covered([], p);
    }
  }

  /** The folders read so far that are still there wait on the stack to be removed. */
  ghost predicate ReadOnce(expanded: set<Path>, pending: seq<Todo>, tree: map<Path, Kind>) {
    forall p :: p in expanded && p in tree ==> Todo(p, true) in pending
  }

  lemma StillRead(pending: seq<Todo>, expanded: set<Path>, tree: map<Path, Kind>)
    requires pending != [] && ReadOnce(expanded, pending, tree)
    ensures ReadOnce(expanded, pending[..|pending| - 1], tree - {pending[|pending| - 1].path})
  {
    assert pending == pending[..|pending| - 1] + [pending[|pending| - 1]];
  }

  lemma ReadNow(stack: seq<Todo>, pending: seq<Todo>, expanded: set<Path>, tree: map<Path, Kind>)
    requires stack != [] && ReadOnce(expanded, stack, tree) && !stack[|stack| - 1].emptied
    requires stack[..|stack| - 1] + [Todo(stack[|stack| - 1].path, true)] <= pending
    ensures ReadOnce(expanded + {stack[|stack| - 1].path}, pending, tree)
  {
    var head := stack[..|stack| - 1] + [Todo(stack[|stack| - 1].path, true)];
    assert stack == stack[..|stack| - 1] + [stack[|stack| - 1]];
    assert forall i :: 0 <= i < |head| ==> head[i] == pending[i];
    forall p | p in expanded + {stack[|stack| - 1].path} && p in tree ensures Todo(p, true) in pending {
      assert Todo(p, true) in head;
    }
  }

  /** A folder is read only once. */
  lemma NotExpanded(pending: seq<Todo>, expanded: set<Path>, tree: map<Path, Kind>, root: Path)
    requires pending != [] && Stack(pending, tree, root) && ReadOnce(expanded, pending, tree)
    requires !pending[|pending| - 1].emptied
    ensures pending[|pending| - 1].path !in expanded
  {
    var top := pending[|pending| - 1];
    forall i | 0 <= i < |pending| ensures pending[i] != Todo(top.path, true) {
      if i < |pending| - 1 {
        assert Apart(pending[i], top);
      }
    }
  }

  lemma ReadingShrinks(folders: set<Path>, expanded: set<Path>, dir: Path)
    requires dir in folders && dir !in expanded
    ensures |folders - (expanded + {dir})| < |folders - expanded|
  {
    assert folders - expanded == (folders - (expanded + {dir})) + {dir};
  }

  lemma NothingToPrune(tree: map<Path, Kind>, root: Path)
    requires IsTree(tree) && root !in tree
    ensures Pruned(tree, root) == tree
  {
    forall p | p in tree ensures !Below(root, p) {
      FolderAbove(tree, root, p);
    }
  }

  lemma LeafToPrune(tree: map<Path, Kind>, root: Path)
    requires IsTree(tree) && root in tree && tree[root] != Dir
    ensures Pruned(tree, root) == tree - {root} && IsTree(tree - {root})
  {
    forall p | p in tree ensures Below(root, p) ==> p == root {
      FolderAbove(tree, root, p);
    }
  }
}
