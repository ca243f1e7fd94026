/**
 The directory tree below PAGES_PATH. A page whose key is a 40-character hex string lies four
 directories deep, each named by ten characters of the key; the file itself is named by the whole key.
 A directory is identified by the characters of the key that lead to it; `Path` spells its path.
 */
module PageTree {
  import opened GoStrings
  import opened UseCounter

  type Key = string

  /** The first 10, 20, 30 or 40 characters of a key; the empty node is PAGES_PATH itself. */
  type Node = string

  const PAGES_PATH := "./cache-data/db"
  const SUB_HASH_COUNT := 4
  const SUB_HASH_LENGTH := 10

  predicate IsKey(k: Key) {
    |k| == 40 && '/' !in k
  }

  datatype Page = Page(body: seq<Byte>, header: string)

  /** What a page file holds: a complete JSON page, or the rest of a write that failed. */
  datatype Content = Whole(page: Page) | Partial

  /** The directories below PAGES_PATH, and the page files, each in the directory of its key. */
  datatype Tree = Tree(dirs: set<Node>, files: map<Key, Content>)

  const EMPTY_TREE := Tree({}, map[])

  /** The directory `i` segments deep on the way to the page of `k`; Dir(k, 4) holds the page. */
  function Dir(k: Key, i: nat): Node
    requires IsKey(k) && i <= SUB_HASH_COUNT
  {
    k[..SUB_HASH_LENGTH * i]
  }

  function Up(n: Node): Node {
    if |n| < SUB_HASH_LENGTH then "" else n[..|n| - SUB_HASH_LENGTH]
  }

  // ---------- Directories and their paths ----------

  function Segment(k: Key, i: nat): string
    requires IsKey(k) && i < SUB_HASH_COUNT
  {
    k[SUB_HASH_LENGTH * i..SUB_HASH_LENGTH * (i + 1)]
  }

  /** The path of Dir(k, i). */
  function Path(k: Key, i: nat): (p: string)
    requires IsKey(k) && i <= SUB_HASH_COUNT
    ensures |p| == |PAGES_PATH| + 11 * i
    decreases i, k
  {
    if i == 0 then PAGES_PATH else Path(k, i - 1) + "/" + Segment(k, i - 1)
  }

  /** The path of a page's directory, spelled out. */
  lemma PathSpelled(k: Key)
    requires IsKey(k)
    ensures Path(k, 4) == "./cache-data/db" + "/" + k[0..10] + "/" + k[10..20] + "/" + k[20..30] + "/" + k[30..40]
    ensures Path(k, 0) == "./cache-data/db"
  {
    assert Path(k, 1) == Path(k, 0) + "/" + Segment(k, 0);
    assert Path(k, 2) == Path(k, 1) + "/" + Segment(k, 1);
    assert Path(k, 3) == Path(k, 2) + "/" + Segment(k, 2);
  }

  /** makePath: cut the key into four segments, then append them one by one. */
  method MakePath(hash: Key) returns (path: string)
    requires IsKey(hash)
    ensures path == Path(hash, SUB_HASH_COUNT)
  {
    var subHashes: seq<string> := [];
    var subHashLength := |hash| / SUB_HASH_COUNT;
    for i := 0 to SUB_HASH_COUNT
      invariant subHashLength == SUB_HASH_LENGTH && |subHashes| == i
      invariant forall j: nat :: j < i ==> subHashes[j] == Segment(hash, j)
    {
      subHashes := subHashes + [hash[i * subHashLength..(i + 1) * subHashLength]];
    }
    path := PAGES_PATH;
    for i := 0 to |subHashes|
      invariant path == Path(hash, i)
    {
      path := path + "/" + subHashes[i];
    }
  }

  lemma JoinedAgree(p: string, q: string, x: string, y: string)
    requires |p| == |q|
    ensures p + "/" + x == q + "/" + y <==> p == q && x == y
  {
    var s, t := p + "/" + x, q + "/" + y;
    assert s[..|p|] == p && s[|p| + 1..] == x;
    assert t[..|q|] == q && t[|q| + 1..] == y;
  }

  lemma DirStep(k: Key, i: nat)
    requires IsKey(k) && i < SUB_HASH_COUNT
    ensures Dir(k, i + 1) == Dir(k, i) + Segment(k, i)
    ensures Up(Dir(k, i + 1)) == Dir(k, i)
  {
  }

  lemma DirsAgree(k: Key, l: Key, i: nat)
    requires IsKey(k) && IsKey(l) && i < SUB_HASH_COUNT
    ensures Dir(k, i + 1) == Dir(l, i + 1) <==> Dir(k, i) == Dir(l, i) && Segment(k, i) == Segment(l, i)
  {
    DirStep(k, i);
    DirStep(l, i);
    var x, y := Dir(k, i + 1), Dir(l, i + 1);
    assert x[..|Dir(k, i)|] == Dir(k, i) && x[|Dir(k, i)|..] == Segment(k, i);
    assert y[..|Dir(l, i)|] == Dir(l, i) && y[|Dir(l, i)|..] == Segment(l, i);
  }

  /** A path stands for one directory: paths are equal exactly when the directories are. */
  lemma {:induction false} PathsDiffer(k: Key, i: nat, l: Key, j: nat)
    requires IsKey(k) && IsKey(l) && i <= SUB_HASH_COUNT && j <= SUB_HASH_COUNT
    ensures Path(k, i) == Path(l, j) <==> Dir(k, i) == Dir(l, j)
    decreases i
  {
    assert |Dir(k, i)| == 10 * i && |Dir(l, j)| == 10 * j;
    if i == j && i > 0 {
      PathsDiffer(k, i - 1, l, i - 1);
      DirsAgree(k, l, i - 1);
      JoinedAgree(Path(k, i - 1), Path(l, i - 1), Segment(k, i - 1), Segment(l, i - 1));
    }
  }

  lemma SlashBefore(p: string, name: string, i: int)
    requires '/' !in name
    requires var s := p + "/" + name; 0 <= i < |s| && s[i] == '/' && forall j :: i < j < |s| ==> s[j] != '/'
    ensures i == |p| && (p + "/" + name)[..i] == p
  {
    var s := p + "/" + name;
    assert s[|p|] == '/';
    assert forall j :: |p| < j < |s| ==> s[j] == name[j - |p| - 1];
  }

  /** path[:strings.LastIndexByte(path, '/')] of a directory's path is the path one level up. */
  method PathAbove(path: string, ghost k: Key, ghost i: nat) returns (up: string)
    requires IsKey(k) && 1 <= i <= SUB_HASH_COUNT && path == Path(k, i)
    ensures up == Path(k, i - 1)
  {
    var j := LastIndexByte(path, '/');
    ghost var p, name := Path(k, i - 1), Segment(k, i - 1);
    assert path == p + "/" + name;
    assert path[|p|] == '/';
    SlashBefore(p, name, j);
    up := path[..j];
  }

  method IsPagesPath(path: string, ghost k: Key, ghost i: nat) returns (r: bool)
    requires IsKey(k) && i <= SUB_HASH_COUNT && path == Path(k, i)
    ensures r <==> i == 0
  {
    r := path == PAGES_PATH;
  }

  /** The directory a path stands for. */
  method NodeAt(path: string, ghost k: Key, ghost i: nat) returns (n: Node)
    requires IsKey(k) && i <= SUB_HASH_COUNT && path == Path(k, i)
    ensures n == Dir(k, i)
    decreases |path|
  {
    if |path| == |PAGES_PATH| {
      return "";
    }
    var j := |path| - SUB_HASH_LENGTH;
    assert path == Path(k, i - 1) + "/" + Segment(k, i - 1);
    assert path[..j - 1] == Path(k, i - 1) && path[j..] == Segment(k, i - 1);
    var above := NodeAt(path[..j - 1], k, i - 1);
    DirStep(k, i - 1);
    n := above + path[j..];
  }

  // ---------- The shape of the tree ----------

  /** Two keys share their first ten characters, so their pages share a directory. */
  predicate SameFirstSegment(k: Key, l: Key)
    requires IsKey(k) && IsKey(l)
  {
    k[..10] == l[..10]
  }

  predicate KeysOnly(t: Tree) {
    forall k :: k in t.files ==> IsKey(k)
  }

  /** os.Remove refuses the directory: it holds another directory or a page file. */
  predicate HasChild(t: Tree, d: Node) {
    d in t.files || exists p :: p in t.dirs && p != "" && Up(p) == d
  }

  /** The directories on the way to the given pages. */
  ghost function Ancestors(keys: set<Key>): set<Node>
    requires forall k :: k in keys ==> IsKey(k)
  {
    set k, i: nat | k in keys && 1 <= i <= SUB_HASH_COUNT :: Dir(k, i)
  }

  /** The first `i` directories on the way to the page of `k`. */
  ghost function Dirs(k: Key, i: nat): set<Node>
    requires IsKey(k) && i <= SUB_HASH_COUNT
  {
    set j: nat | 1 <= j <= i :: Dir(k, j)
  }

  /** Every page file can be reached. */
  ghost predicate Closed(t: Tree) {
    KeysOnly(t) && Ancestors(t.files.Keys) <= t.dirs
  }

  /** The directories are exactly those on the way to some page file. */
  ghost predicate Exact(t: Tree) {
    KeysOnly(t) && t.dirs == Ancestors(t.files.Keys)
  }

  // ---------- Removing a page ----------

  datatype Removal = Removal(tree: Tree, ok: bool)

  /** The upward loop: remove the directories of `k` from depth `i` on while os.Remove succeeds. */
  function Pruned(t: Tree, k: Key, i: nat): (r: Removal)
    requires IsKey(k) && i <= SUB_HASH_COUNT
    ensures r.tree.files == t.files && r.tree.dirs <= t.dirs
    decreases i, k
  {
    if i == 0 then Removal(t, true)
    else if Dir(k, i) !in t.dirs || HasChild(t, Dir(k, i)) then Removal(t, false)
    else Pruned(t.(dirs := t.dirs - {Dir(k, i)}), k, i - 1)
  }

  /** The effect of removePageFromDisk. */
  function WithoutPage(t: Tree, k: Key): (r: Removal)
    requires IsKey(k)
    ensures r.tree.files == t.files - {k} && r.tree.dirs <= t.dirs
  {
    if k !in t.files then
      assert t.files - {k} == t.files;
      Removal(t, false)
    else Pruned(t.(files := t.files - {k}), k, SUB_HASH_COUNT)
  }

  /** A directory on the way to a page is not empty. */
  lemma OnTheWayNotEmpty(t: Tree, l: Key, j: nat)
    requires Closed(t) && l in t.files && 1 <= j <= SUB_HASH_COUNT
    ensures HasChild(t, Dir(l, j))
  {
    if j < SUB_HASH_COUNT {
      assert Dir(l, j + 1) in Ancestors(t.files.Keys);
      assert Up(Dir(l, j + 1)) == Dir(l, j);
    } else {
      assert Dir(l, j) == l;
    }
  }

  lemma {:induction false} PrunedClosed(t: Tree, k: Key, i: nat)
    requires Closed(t) && IsKey(k) && i <= SUB_HASH_COUNT
    ensures Closed(Pruned(t, k, i).tree)
    decreases i
  {
    if i > 0 && Dir(k, i) in t.dirs && !HasChild(t, Dir(k, i)) {
      forall l, j: nat | l in t.files && 1 <= j <= SUB_HASH_COUNT ensures HasChild(t, Dir(l, j)) {
        OnTheWayNotEmpty(t, l, j);
      }
      PrunedClosed(t.(dirs := t.dirs - {Dir(k, i)}), k, i - 1);
    }
  }

  /** Keys that agree at some depth agree at every smaller one. */
  lemma AgreeAbove(k: Key, l: Key, i: nat, j: nat)
    requires IsKey(k) && IsKey(l) && j <= i <= SUB_HASH_COUNT && Dir(k, i) == Dir(l, i)
    ensures Dir(k, j) == Dir(l, j)
  {
    assert Dir(k, j) == Dir(k, i)[..SUB_HASH_LENGTH * j];
    assert Dir(l, j) == Dir(l, i)[..SUB_HASH_LENGTH * j];
  }

  lemma NeighbourCovers(keys: set<Key>, k: Key, l: Key, i: nat)
    requires IsKey(k) && l in keys && (forall x :: x in keys ==> IsKey(x))
    requires i <= SUB_HASH_COUNT && Dir(l, i) == Dir(k, i)
    ensures Dirs(k, i) <= Ancestors(keys)
    ensures i >= 1 ==> Dir(l, 1) == Dir(k, 1)
  {
    forall j: nat | 1 <= j <= i ensures Dir(k, j) in Ancestors(keys) && Dir(l, j) == Dir(k, j) {
      AgreeAbove(k, l, i, j);
    }
  }

  /** While `k` is being removed: the directories of the stored pages and those of `k` down to depth `i`. */
  ghost predicate ExactBut(t: Tree, k: Key, i: nat)
    requires IsKey(k) && i <= SUB_HASH_COUNT
  {
    KeysOnly(t) && k !in t.files && t.dirs == Ancestors(t.files.Keys) + Dirs(k, i)
  }

  /** If the deepest remaining directory of `k` has a child, it is on the way to another page. */
  lemma ChildMeansNeighbour(t: Tree, k: Key, i: nat) returns (l: Key)
    requires IsKey(k) && 1 <= i <= SUB_HASH_COUNT && ExactBut(t, k, i) && HasChild(t, Dir(k, i))
    ensures l in t.files && Dir(l, i) == Dir(k, i)
  {
    var d := Dir(k, i);
    if d in t.files {
      l := d;
    } else {
      var p :| p in t.dirs && p != "" && Up(p) == d;
      assert p in Ancestors(t.files.Keys);
      var x, j: nat :| x in t.files.Keys && 1 <= j <= SUB_HASH_COUNT && p == Dir(x, j);
      assert Up(Dir(x, j)) == Dir(x, j - 1);
      l := x;
    }
  }

  lemma DirsStep(k: Key, i: nat)
    requires IsKey(k) && 1 <= i <= SUB_HASH_COUNT
    ensures Dirs(k, i) == Dirs(k, i - 1) + {Dir(k, i)}
    ensures Dir(k, i) !in Dirs(k, i - 1)
  {
  }

  /** Removing an empty directory of `k` goes one level up. */
  lemma EmptyStep(t: Tree, k: Key, i: nat)
    requires IsKey(k) && 1 <= i <= SUB_HASH_COUNT && ExactBut(t, k, i) && !HasChild(t, Dir(k, i))
    ensures ExactBut(t.(dirs := t.dirs - {Dir(k, i)}), k, i - 1)
    ensures forall l :: l in t.files ==> Dir(l, i) != Dir(k, i)
  {
    DirsStep(k, i);
    forall l, j: nat | l in t.files && 1 <= j <= SUB_HASH_COUNT ensures HasChild(t, Dir(l, j)) {
      OnTheWayNotEmpty(t, l, j);
    }
    assert Dir(k, i) !in Ancestors(t.files.Keys);
  }

  lemma {:induction false} PrunedExact(t: Tree, k: Key, i: nat)
    requires IsKey(k) && i <= SUB_HASH_COUNT && ExactBut(t, k, i)
    ensures Exact(Pruned(t, k, i).tree)
    ensures i >= 1 ==> (Pruned(t, k, i).ok <==> forall l :: l in t.files ==> Dir(l, 1) != Dir(k, 1))
    decreases i
  {
    if i == 0 {
      assert Dirs(k, 0) == {};
    } else if HasChild(t, Dir(k, i)) {
      var l := ChildMeansNeighbour(t, k, i);
      NeighbourCovers(t.files.Keys, k, l, i);
    } else {
      EmptyStep(t, k, i);
      DirsStep(k, i);
      PrunedExact(t.(dirs := t.dirs - {Dir(k, i)}), k, i - 1);
    }
  }

  lemma AncestorsOfMore(keys: set<Key>, k: Key)
    requires IsKey(k) && forall l :: l in keys ==> IsKey(l)
    ensures Ancestors(keys + {k}) == Ancestors(keys) + Dirs(k, SUB_HASH_COUNT)
  {
    assert k in keys + {k};
  }

  /**
   Removing a stored page from an exact tree leaves an exact tree with every other page in place, and
   reports success exactly when no other stored page shares the first segment of the key.
   */
  lemma RemoveKeepsExact(t: Tree, k: Key)
    requires Exact(t) && k in t.files
    ensures var r := WithoutPage(t, k);
            && Exact(r.tree) && r.tree.files == t.files - {k}
            && (r.ok <==> forall l :: l in t.files && l != k ==> l[..10] != k[..10])
  {
    var u := t.(files := t.files - {k});
    AncestorsOfMore(u.files.Keys, k);
    assert t.files.Keys == u.files.Keys + {k};
    PrunedExact(u, k, SUB_HASH_COUNT);
    assert forall l :: l in u.files <==> l in t.files && l != k;
  }

  /** Removing a page that is not there is an error and leaves the tree alone. */
  lemma RemoveAbsent(t: Tree, k: Key)
    requires IsKey(k) && k !in t.files
    ensures WithoutPage(t, k) == Removal(t, false)
  {
  }

  /** With directories left behind by failed writes around, no page is lost and all stay reachable. */
  lemma RemoveKeepsClosed(t: Tree, k: Key)
    requires Closed(t) && IsKey(k)
    ensures Closed(WithoutPage(t, k).tree)
  {
    if k in t.files {
      var u := t.(files := t.files - {k});
      assert Ancestors(u.files.Keys) <= Ancestors(t.files.Keys);
      PrunedClosed(u, k, SUB_HASH_COUNT);
    }
  }

  // ---------- Writing a page ----------

  /** How writing a page file can end. */
  datatype WriteEnd =
    | Written
    | MkdirFails(made: nat) // after the first `made` directories exist
    | CreateFails           // the directories exist, the file was not opened
    | FlushFails            // the file was truncated but not completely written

  /** How many of the four directories exist after the write. */
  function Depth(end: WriteEnd): (i: nat)
    ensures i <= SUB_HASH_COUNT
  {
    if end.MkdirFails? && end.made < SUB_HASH_COUNT then end.made else SUB_HASH_COUNT
  }

  /** The effect of writePageToDisk. */
  ghost function WithPage(t: Tree, k: Key, page: Page, end: WriteEnd): Tree
    requires IsKey(k)
  {
    Tree(t.dirs + Dirs(k, Depth(end)),
         match end
         case Written => t.files[k := Whole(page)]
         case FlushFails => t.files[k := Partial]
         case _ => t.files)
  }

  /** The directories a write makes: all four, or as many as were made before it failed. */
  lemma WriteMakes(t: Tree, k: Key, page: Page, end: WriteEnd, i: nat)
    requires IsKey(k) && 1 <= i <= 4
    ensures Dir(k, i) in WithPage(t, k, page, end).dirs
       <==> Dir(k, i) in t.dirs || (end.MkdirFails? ==> i <= end.made)
  {
    assert forall j :: 1 <= j <= SUB_HASH_COUNT ==> |Dir(k, j)| == SUB_HASH_LENGTH * j;
    if i <= Depth(end) {
      assert Dir(k, i) in Dirs(k, Depth(end));
    }
  }

  /**
   Writing keeps every page reachable whatever its end. An exact tree stays exact if the file was
   opened, and otherwise exactly when the directories made already led to stored pages.
   */
  lemma WriteKeepsTree(t: Tree, k: Key, page: Page, end: WriteEnd)
    requires IsKey(k) && Closed(t)
    ensures var u := WithPage(t, k, page, end);
            && Closed(u)
            && (Exact(t) && end in {Written, FlushFails} ==> Exact(u))
            && (Exact(t) && end !in {Written, FlushFails} ==>
                  (Exact(u) <==> Dirs(k, Depth(end)) <= Ancestors(t.files.Keys)))
  {
    var u := WithPage(t, k, page, end);
    if end in {Written, FlushFails} {
      AncestorsOfMore(t.files.Keys, k);
      assert u.files.Keys == t.files.Keys + {k};
    } else {
      assert u.files == t.files;
    }
  }
}
