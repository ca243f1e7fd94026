/**
 The page cache as the class of cache/: its methods change the bucket database, the directory tree
 and the byte counter step by step, and are proved against the functions of CacheModel.
 */
module CachingProperties {
  import opened Wrappers
  import opened GoStrings
  import opened UseCounter
  import opened CacheControl
  import opened RequestDirectives
  import opened ResponseDirectives
  import opened PageTree
  import opened CacheModel

  /** Go's copy(dst, src): as many leading elements as both have. */
  function Copied(dst: string, src: string): (r: string)
    ensures |r| == |dst|
    ensures |dst| == |src| ==> r == src
  {
    if |dst| <= |src| then src[..|dst|] else src + dst[|src|..]
  }

  /** make([]byte, n) */
  function Zeros(n: nat): (r: string)
    ensures |r| == n
  {
    seq(n, i => '\0')
  }

  datatype LruItem = LruItem(key: Key, uses: nat)

  ghost predicate SortedItems(items: seq<LruItem>) {
    forall i, j :: 0 <= i < j < |items| ==> items[i].uses <= items[j].uses
  }

  method InsertSorted(sorted: seq<LruItem>, x: LruItem) returns (r: seq<LruItem>)
    requires SortedItems(sorted)
    ensures SortedItems(r) && multiset(r) == multiset(sorted) + multiset{x}
  {
    var p := |sorted|;
    while p > 0 && sorted[p - 1].uses > x.uses
      invariant 0 <= p <= |sorted|
      invariant forall j :: p <= j < |sorted| ==> sorted[j].uses > x.uses
    {
      p := p - 1;
    }
    r := sorted[..p] + [x] + sorted[p..];
    SpliceKeepsAll(sorted, p, x);
  }

  lemma SpliceKeepsAll(s: seq<LruItem>, p: nat, x: LruItem)
    requires p <= |s|
    ensures multiset(s[..p] + [x] + s[p..]) == multiset(s) + multiset{x}
  {
    assert s == s[..p] + s[p..];
  }

  /** sort.Slice by uses; which order equally used items end up in is left open. */
  method SortByUses(items: seq<LruItem>) returns (sorted: seq<LruItem>)
    ensures SortedItems(sorted)
    ensures multiset(sorted) == multiset(items)
  {
    sorted := [];
    for i := 0 to |items|
      invariant SortedItems(sorted)
      invariant multiset(sorted) == multiset(items[..i])
    {
      assert items[..i + 1] == items[..i] + [items[i]];
      sorted := InsertSorted(sorted, items[i]);
    }
    assert items[..|items|] == items;
  }

  /** What a cleaning loop reports: -1, with an error, if the reported sizes add up to nothing. */
  function Reported(bytes: int): int {
    if bytes == 0 then -1 else bytes
  }

  /** The bytes a cleaning loop has freed by its report. */
  function Freed(reported: int): int {
    if reported == -1 then 0 else reported
  }

  lemma OccursTwice(s: seq<LruItem>, i: nat, j: nat)
    requires i < j < |s| && s[i] == s[j]
    ensures multiset(s)[s[i]] >= 2
  {
    assert s == s[..j] + [s[j]] + s[j + 1..];
    assert s[..j][i] == s[i];
    assert s[i] in multiset(s[..j]);
  }

  lemma {:induction false} OccursOnce(s: seq<LruItem>, x: LruItem)
    requires forall i, j :: 0 <= i < j < |s| ==> s[i].key != s[j].key
    ensures multiset(s)[x] <= 1
  {
    if s != [] {
      var init := s[..|s| - 1];
      assert s == init + [s[|s| - 1]];
      OccursOnce(init, x);
      assert x in multiset(init) ==> x in init;
    }
  }

  lemma SortedIsUseOrder(db: Db, names: seq<Key>, items: seq<LruItem>, sorted: seq<LruItem>, order: seq<Key>)
    requires WellFormed(db) && Distinct(names) && forall k :: k in names <==> k in db
    requires |items| == |names|
    requires forall j :: 0 <= j < |names| ==> items[j] == LruItem(names[j], Uint32(db[names[j]].uses))
    requires SortedItems(sorted) && multiset(sorted) == multiset(items)
    requires |order| == |sorted| && forall j :: 0 <= j < |order| ==> order[j] == sorted[j].key
    ensures UseOrder(db, order)
  {
    forall j | 0 <= j < |sorted|
      ensures sorted[j].key in db && sorted[j].uses == Uint32(db[sorted[j].key].uses)
    {
      assert sorted[j] in multiset(sorted);
      assert sorted[j] in items;
    }
    forall k | k in db ensures k in order {
      var j :| 0 <= j < |names| && names[j] == k;
      assert items[j] in multiset(items);
      assert items[j] in sorted;
      var i :| 0 <= i < |sorted| && sorted[i] == items[j];
      assert order[i] == k;
    }
    forall i, j | 0 <= i < j < |order| ensures order[i] != order[j] {
      if order[i] == order[j] {
        OccursTwice(sorted, i, j);
        OccursOnce(items, sorted[i]);
      }
    }
  }

  /** What a triggered tick of Observe makes of `c`. */
  ghost predicate CleanedUp(c: Cache, now: Time, fullCopy: bool,
                            expired: seq<Key>, order: seq<Key>, n: nat, d: Cache)
    requires WellFormed(c.db)
  {
    var e := if fullCopy then Sweep(c, expired).cache else c;
    && ExpiredKeys(c.db, now, expired)
    && UseOrder(e.db, order) && ShortestPrefix(e, order, n)
    && d == Sweep(e, order[..n]).cache
  }

  /**
   A triggered tick with the key copied in full leaves no expired page and evicts an unexpired one only
   if that was not enough; the tick as it stands leaves no expired page exactly when each expired page
   weighs, with the pages used more than it, more than the fill limit.
   */
  lemma CleanedUpOutcome(c: Cache, now: Time, fullCopy: bool,
                         expired: seq<Key>, order: seq<Key>, n: nat, d: Cache)
    requires Valid(c) && c.fillLimit >= 0.0 && CleanedUp(c, now, fullCopy, expired, order, n, d)
    ensures Valid(d) && !Exceeded(d)
    ensures fullCopy ==>
              && (forall k :: k in d.db ==> !Expired(d.db[k], now))
              && (forall k :: k in c.db && !Expired(c.db[k], now) && k !in d.db
                    ==> Exceeded(Sweep(c, expired).cache))
    ensures !fullCopy ==>
              ((forall k :: k in d.db ==> !Expired(d.db[k], now)) <==> ExpiredAreHeavy(c, now, order))
  {
    if fullCopy {
      CleaningPass(c, now, expired, order, n);
    } else {
      EvictionOnlyPass(c, now, order, n);
    }
  }

  /** The order of a bolt cursor. */
  ghost predicate Ascending(names: seq<Key>) {
    forall i, j :: 0 <= i < j < |names| ==> Before(names[i], names[j])
  }

  lemma AscendingAppend(names: seq<Key>, k: Key)
    requires Ascending(names) && forall l :: l in names ==> Before(l, k)
    ensures Ascending(names + [k])
  {
  }

  lemma AscendingDistinct(names: seq<Key>)
    requires Ascending(names)
    ensures Distinct(names)
  {
    forall i, j | 0 <= i < j < |names| ensures names[i] != names[j] {
      BeforeIsTotal(names[i], names[j]);
    }
  }

  /** The buckets of the first `i` names. */
  ghost function Taken(db: Db, names: seq<Key>, i: nat): Db
    requires i <= |names|
  {
    map k | k in db && k in names[..i] :: db[k]
  }

  /** The other buckets. */
  ghost function Left(db: Db, names: seq<Key>, i: nat): Db
    requires i <= |names|
  {
    map k | k in db && k !in names[..i] :: db[k]
  }

  lemma TakenNoneOrAll(db: Db, names: seq<Key>)
    requires forall k :: k in names <==> k in db
    ensures Total(Taken(db, names, 0)) == 0
    ensures Left(db, names, 0) == db
    ensures Taken(db, names, |names|) == db && Left(db, names, |names|) == map[]
  {
    assert Sizes(Taken(db, names, 0)) == map[];
    assert names[..|names|] == names;
  }

  lemma TakenMore(db: Db, names: seq<Key>, i: nat)
    requires Distinct(names) && i < |names| && names[i] in db
    ensures names[i] in Left(db, names, i) && Left(db, names, i)[names[i]] == db[names[i]]
    ensures Left(db, names, i + 1) == Left(db, names, i) - {names[i]}
    ensures Taken(db, names, i + 1) == Taken(db, names, i)[names[i] := db[names[i]]]
    ensures Total(Taken(db, names, i + 1)) == Total(Taken(db, names, i)) + db[names[i]].size
  {
    assert names[..i + 1] == names[..i] + [names[i]];
    TotalPut(Taken(db, names, i), names[i], db[names[i]]);
  }

  /** What a cursor has passed when it comes to the first bucket without page. */
  lemma TakenIsClearedFirst(c: Cache, names: seq<Key>, i: nat)
    requires Ascending(names) && i < |names| && forall l :: l in names <==> l in c.db
    requires names[i] !in c.tree.files && forall l :: l in Taken(c.db, names, i) ==> l in c.tree.files
    ensures Taken(c.db, names, i) == ClearedFirst(c)
  {
    forall k | k in c.db ensures k in names[..i] <==> StoredUpTo(c, k) {
      var j :| 0 <= j < |names| && names[j] == k;
      if j < i {
        assert names[..i][j] == k;
        StoredBefore(c, names, i, j);
      } else {
        assert j == i || Before(names[i], k);
        if k in names[..i] {
          var m :| 0 <= m < i && names[m] == k;
          BeforeIsTotal(k, k);
        }
      }
    }
  }

  lemma StoredBefore(c: Cache, names: seq<Key>, i: nat, j: nat)
    requires Ascending(names) && j < i < |names| && forall l :: l in names <==> l in c.db
    requires forall l :: l in Taken(c.db, names, i) ==> l in c.tree.files
    ensures StoredUpTo(c, names[j])
  {
    forall l | l in c.db && (l == names[j] || Before(l, names[j])) ensures l in c.tree.files {
      var m :| 0 <= m < |names| && names[m] == l;
      if m > j {
        BeforeIsTotal(names[j], l);
      }
      assert names[..i][m] == l;
    }
  }

  class CachingProperties {
    var db: Db
    var tree: Tree
    var size: int
    var pagesCount: int
    const maxFileSize: int
    const fillFactor: real

    ghost function State(): Cache
      reads this
    {
      Cache(db, tree, size, maxFileSize, FillLimit())
    }

    ghost function FillLimit(): real {
      maxFileSize as real * fillFactor
    }

    /** NewCachingProperties, over whatever database and tree a previous run left. */
    constructor (db: Db, tree: Tree, maxFileSize: int, fillFactor: real)
      ensures State() == Cache(db, tree, 0, maxFileSize, maxFileSize as real * fillFactor)
      ensures pagesCount == 0
    {
      this.db, this.tree, size, pagesCount := db, tree, 0, 0;
      this.maxFileSize, this.fillFactor := maxFileSize, fillFactor;
    }

    method IncrementSize(delta: int)
      modifies this`size
      ensures size == old(size) + delta
    {
      size := size + delta;
    }

    /** The bucket names in ascending order, as a bolt cursor lists them. */
    method BucketNames() returns (names: seq<Key>)
      ensures Ascending(names) && Distinct(names)
      ensures forall k :: k in names <==> k in db
    {
      names := [];
      var rest := db.Keys;
      while rest != {}
        invariant Ascending(names) && rest <= db.Keys
        invariant forall k :: k in names <==> k in db && k !in rest
        invariant forall k, l :: k in names && l in rest ==> Before(k, l)
        decreases rest
      {
        ghost var first := First(rest);
        var k :| k in rest && forall l :: l in rest && l != k ==> Before(k, l);
        AscendingAppend(names, k);
        names := names + [k];
        rest := rest - {k};
      }
      AscendingDistinct(names);
    }

    // ---------- insert.go ----------

    /**
     InsertPageInCache. The request's directives are loaded at `t0` and the response's at `t1` for the
     test, the response's again at `now` for the bucket; the test sees flags only, which do not depend
     on the time.
     */
    method InsertPageInCache(key: Key, req: Request, resp: Response, page: Page, t0: Time, t1: Time, now: Time,
                             commits: bool, end: WriteEnd) returns (r: InsertResult)
      requires IsKey(key) && Valid(State())
      modifies this
      ensures (State(), r) == Inserted(old(State()), key, req, resp, page, now, commits, end)
      ensures Valid(State()) && (old(PagesStored(State())) ==> PagesStored(State()))
      ensures old(size) <= maxFileSize ==> size <= maxFileSize
      ensures pagesCount == old(pagesCount)
    {
      InsertedValid(State(), key, req, resp, page, now, commits, end);
      if size + |page.body| > maxFileSize {
        return TooLarge;
      }
      var requestDirectives := LoadRequestDirectives(req.cacheControl, t0);
      var responseDirectives := LoadResponseDirectives(resp.cacheControl, t1);
      StorableAtAnyTime(req, resp, t0, t1, now);
      if requestDirectives.noStore || responseDirectives.noStore
         || req.method_ != "GET" || responseDirectives.isPrivate {
        return NotStorable;
      }
      var recorded := LoadResponseDirectives(resp.cacheControl, now); // createCacheInfo
      r := StorePage(key, page, recorded, commits, end);
    }

    /** The two stores in turn: the bucket, then the file, and the bucket again if the file fails. */
    method StorePage(key: Key, page: Page, recorded: ResponseDirectives, commits: bool, end: WriteEnd)
      returns (r: InsertResult)
      requires IsKey(key)
      modifies this`db, this`size, this`tree
      ensures key !in old(db) && !commits ==> r == DbError && State() == old(State())
      ensures key in old(db) || commits ==>
                var counted := Counted(old(State()), key, Bucket(|page.body|, recorded, ZERO));
                var written := counted.(tree := WithPage(old(tree), key, page, end));
                && r == (if end.Written? then Stored else DiskError)
                && State() == if end.Written? then written else WithoutMetadata(written, key)
    {
      var ok := InsertPageMetadataToDB(key, |page.body|, recorded, commits);
      if !ok {
        return DbError;
      }
      ok := WritePageToDisk(key, page, end);
      if !ok {
        var _ := RemovePageMetadata(key);
        return DiskError;
      }
      return Stored;
    }

    /** One bolt transaction: on ErrBucketExists both writes are rolled back. */
    method InsertPageMetadataToDB(key: Key, bytes: int, directives: ResponseDirectives, commits: bool)
      returns (ok: bool)
      modifies this`db, this`size
      ensures ok <==> key in old(db) || commits
      ensures key in old(db) || !ok ==> db == old(db) && size == old(size)
      ensures key !in old(db) && ok ==> db == old(db)[key := Bucket(bytes, directives, ZERO)]
      ensures key !in old(db) && ok ==> size == old(size) + bytes
    {
      var tx := db;
      var exists_ := key in tx;
      tx := tx[key := Bucket(bytes, directives, ZERO)];
      if exists_ {
        return true;
      }
      if !commits {
        return false;
      }
      db := tx;
      IncrementSize(bytes);
      return true;
    }

    method WritePageToDisk(key: Key, page: Page, end: WriteEnd) returns (ok: bool)
      requires IsKey(key)
      modifies this`tree
      ensures tree == WithPage(old(tree), key, page, end)
      ensures ok <==> end == Written
    {
      // os.MkdirAll(path), one directory after the other
      for i := 0 to Depth(end)
        invariant tree.files == old(tree).files
        invariant tree.dirs == old(tree).dirs + Dirs(key, i)
      {
        DirsStep(key, i + 1);
        tree := tree.(dirs := tree.dirs + {Dir(key, i + 1)});
      }
      match end {
        case MkdirFails(_) => return false;
        case CreateFails => return false;
        case FlushFails =>
          tree := tree.(files := tree.files[key := Partial]);
          return false;
        case Written =>
          tree := tree.(files := tree.files[key := Whole(page)]);
          return true;
      }
    }

    // ---------- remove.go ----------

    method RemovePageFromCache(key: Key) returns (meta: Option<Bucket>)
      requires Valid(State())
      modifies this`db, this`size, this`tree
      ensures State() == RemovedPage(old(State()), key).cache
      ensures meta.Some? == RemovedPage(old(State()), key).reported.Some?
      ensures meta.Some? ==> key in old(db) && meta.value == old(db)[key]
      ensures Valid(State())
    {
      RemovedPageEffect(State(), key);
      meta := RemovePageMetadata(key);
      if meta.None? {
        return None;
      }
      var ok := RemovePageFromDisk(key);
      if !ok {
        return None;
      }
    }

    method RemovePageMetadata(key: Key) returns (meta: Option<Bucket>)
      modifies this`db, this`size
      ensures State() == WithoutMetadata(old(State()), key)
      ensures meta == if key in old(db) then Some(old(db)[key]) else None
    {
      if key !in db {
        return None;
      }
      meta := Some(db[key]);
      db := db - {key};
      IncrementSize(-meta.value.size);
    }

    /** os.Remove of the path of Dir(k, i). */
    method RemoveDirectory(path: string, ghost k: Key, ghost i: nat) returns (ok: bool)
      requires IsKey(k) && i <= SUB_HASH_COUNT && path == Path(k, i)
      modifies this`tree
      ensures ok == (Dir(k, i) in old(tree).dirs && !HasChild(old(tree), Dir(k, i)))
      ensures tree == if ok then old(tree).(dirs := old(tree).dirs - {Dir(k, i)}) else old(tree)
    {
      var dir := NodeAt(path, k, i);
      if dir !in tree.dirs || HasChild(tree, dir) {
        return false;
      }
      tree := tree.(dirs := tree.dirs - {dir});
      return true;
    }

    /** Remove the file, then its directories upwards until one is not empty. */
    method RemovePageFromDisk(key: Key) returns (ok: bool)
      requires IsKey(key)
      modifies this`tree
      ensures Removal(tree, ok) == WithoutPage(old(tree), key)
    {
      var path := MakePath(key);
      if key !in tree.files {
        return false;
      }
      tree := tree.(files := tree.files - {key});
      ghost var cut := tree;
      ghost var i: nat := SUB_HASH_COUNT;
      var done := IsPagesPath(path, key, i);
      while !done
        invariant i <= SUB_HASH_COUNT && path == Path(key, i) && (done <==> i == 0)
        invariant Pruned(tree, key, i) == Pruned(cut, key, SUB_HASH_COUNT)
        decreases i
      {
        var removed := RemoveDirectory(path, key, i);
        if !removed {
          return false;
        }
        path := PathAbove(path, key, i);
        i := i - 1;
        done := IsPagesPath(path, key, i);
      }
      return true;
    }

    // ---------- read.go ----------

    /** GetPageFromCache; `t0`, `t1` and `t2` are successive readings of the clock. */
    method GetPageFromCache(key: Key, req: Request, t0: Time, t1: Time, t2: Time) returns (r: LookupResult)
      requires Valid(State())
      modifies this`db, this`size
      ensures (State(), r) == LookedUp(old(State()), key, req, t0, t1, t2)
      ensures Valid(State()) && (old(PagesStored(State())) ==> PagesStored(State()) && size == old(size))
    {
      LookedUpValid(State(), key, req, t0, t1, t2);
      var requestDirectives := LoadRequestDirectives(req.cacheControl, t0);
      var info := GetPageMetadata(key);
      if info.None? {
        return Missed;
      }
      var d := info.value.directives;
      var afterDeath := requestDirectives.maxStale;
      var maxAge := d.maxAge;
      if d.sMaxAge != NULL_TIME {
        maxAge := d.sMaxAge;
      }
      var freshTime := requestDirectives.minFresh;
      if d.mustRevalidate {
        afterDeath := 0;
      }
      if t1 > maxAge + afterDeath || !(t2 > freshTime) {
        return NotFresh;
      }
      if key !in tree.files {
        var _ := RemovePageMetadata(key);
        return NoPage;
      }
      match tree.files[key] {
        case Partial => return Damaged;
        case Whole(page) => return Hit(page);
      }
    }

    /** A read transaction, then a second transaction that counts the use. */
    method GetPageMetadata(key: Key) returns (meta: Option<Bucket>)
      requires WellFormed(db)
      modifies this`db
      ensures key !in old(db) ==> meta == None && db == old(db)
      ensures key in old(db) ==> meta == Some(old(db)[key]) && State() == Used(old(State()), key)
    {
      if key !in db {
        return None;
      }
      meta := Some(db[key]);
      var bs := db[key].uses;
      db := db[key := db[key].(uses := Incremented(bs))];
    }

    // ---------- cache.go ----------

    /** Recount the buckets whose page is on disk. */
    method CalculateSize()
      modifies this`size, this`pagesCount
      ensures size == Total(OnDisk(State())) && pagesCount == |OnDisk(State())|
    {
      var bytes, count := 0, 0;
      ghost var seen: Db := map[];
      var rest := db.Keys;
      assert Sizes(seen) == map[];
      while rest != {}
        invariant rest <= db.Keys
        invariant forall k :: k in seen <==> k in db && k in tree.files && k !in rest
        invariant forall k :: k in seen ==> seen[k] == db[k]
        invariant bytes == Total(seen) && count == |seen|
        decreases rest
      {
        var name :| name in rest;
        rest := rest - {name};
        if name in tree.files {
          TotalPut(seen, name, db[name]);
          seen := seen[name := db[name]];
          bytes := bytes + db[name].size;
          count := count + 1;
        }
      }
      assert seen == OnDisk(State());
      size, pagesCount := bytes, count;
    }

    /** ForEach over the bucket names, up to the first bucket without page, at place `i`. */
    method DeleteInOrder(names: seq<Key>) returns (ok: bool, ghost i: nat)
      requires Distinct(names) && forall k :: k in names <==> k in db
      modifies this`db, this`size
      ensures i <= |names| && (ok <==> i == |names|)
      ensures forall k :: k in Taken(old(db), names, i) ==> k in tree.files
      ensures !ok ==> names[i] !in tree.files && db == old(db)
      ensures ok ==> db == map[]
      ensures size == old(size) - Total(Taken(old(db), names, i))
    {
      ghost var all := db;
      TakenNoneOrAll(all, names);
      var tx := db;
      i := 0;
      for j := 0 to |names|
        invariant i == j && db == all
        invariant size == old(size) - Total(Taken(all, names, j))
        invariant tx == Left(all, names, j)
        invariant forall k :: k in Taken(all, names, j) ==> k in tree.files
      {
        var name := names[j];
        assert name in names;
        if name !in tree.files {
          return false, i;
        }
        TakenMore(all, names, j);
        IncrementSize(-tx[name].size);
        tx := tx - {name};
        i := j + 1;
      }
      db := tx;
      return true, i;
    }

    /** The transaction of ClearCache: the counter is lowered inside it, and a rollback does not raise it again. */
    method DeleteBuckets() returns (ok: bool)
      requires Valid(State())
      modifies this`db, this`size
      ensures ok <==> forall k :: k in old(db) ==> k in tree.files
      ensures ok ==> db == map[] && size == 0
      ensures !ok ==> db == old(db) && size == old(size) - Total(ClearedFirst(old(State())))
    {
      ghost var c := State();
      var names := BucketNames();
      ghost var i: nat;
      ok, i := DeleteInOrder(names);
      if ok {
        TakenNoneOrAll(c.db, names);
      } else {
        assert names[i] in names;
        TakenIsClearedFirst(c, names, i);
      }
    }

    /**
     ClearCache. If a bucket without page stops the iteration, the buckets come back, but the counter does
     not get back the sizes of those listed before it: it stays right exactly if all pages are there or
     those buckets weigh nothing.
     */
    method ClearCache() returns (ok: bool)
      requires Valid(State())
      modifies this`db, this`size, this`tree
      ensures ok <==> forall k :: k in old(db) ==> k in old(tree).files
      ensures ok ==> State() == Cleared(old(State()))
      ensures ok ==> db == map[] && size == 0 && tree.files == map[] && tree.dirs == {}
      ensures !ok ==> State() == old(State()).(size := old(size) - Total(ClearedFirst(old(State()))))
      ensures Valid(State()) <==>
                ok || forall k :: k in old(db) && StoredUpTo(old(State()), k) ==> old(db)[k].size == 0
    {
      NothingLost(State());
      ok := DeleteBuckets();
      if ok {
        assert Sizes(db) == map[];
        tree := EMPTY_TREE; // everything below PAGES_PATH is removed
      }
    }

    // ---------- cacheCleaner.go ----------

    method IsSizeExceeded() returns (exceeded: bool)
      ensures exceeded == Exceeded(State())
      ensures exceeded <==> size as real > maxFileSize as real * fillFactor
    {
      exceeded := size as real > maxFileSize as real * fillFactor;
    }

    /**
     The keys of the expired pages as deleteExpiredCache collects them. `fullCopy` false is the code as
     it stands: the key is copied into a slice of length zero and stays empty.
     */
    method CollectExpired(now: Time, fullCopy: bool) returns (keys: seq<string>, ghost expired: seq<Key>)
      ensures ExpiredKeys(db, now, expired)
      ensures fullCopy ==> keys == expired
      ensures !fullCopy ==> forall k :: k in keys ==> k == ""
    {
      keys, expired := [], [];
      var rest := db.Keys;
      while rest != {}
        invariant rest <= db.Keys && Distinct(expired)
        invariant forall k :: k in expired <==> k in db && k !in rest && Expired(db[k], now)
        invariant fullCopy ==> keys == expired
        invariant !fullCopy ==> forall k :: k in keys ==> k == ""
        decreases rest
      {
        var name :| name in rest;
        rest := rest - {name};
        var nameCopy := Copied(Zeros(if fullCopy then |name| else 0), name);
        if Expired(db[name], now) {
          keys := keys + [nameCopy];
          expired := expired + [name];
        }
      }
    }

    /** One turn of a cleaning loop that has already removed the first `i` of `keys` from `c`. */
    method RemoveNext(key: Key, ghost c: Cache, ghost keys: seq<Key>, ghost i: nat) returns (meta: Option<Bucket>)
      requires Valid(State()) && WellFormed(c.db)
      requires i < |keys| && keys[i] == key && State() == Sweep(c, keys[..i]).cache
      modifies this`db, this`size, this`tree
      ensures Valid(State()) && State() == Sweep(c, keys[..i + 1]).cache
      ensures Sweep(c, keys[..i + 1]).freed
           == Sweep(c, keys[..i]).freed + if meta.Some? then meta.value.size else 0
    {
      ghost var next := keys[..i + 1];
      assert next[..i] == keys[..i] && next[i] == key;
      meta := RemovePageFromCache(key);
    }

    /** deleteExpiredCache: as it stands, it never finds a page. */
    method DeleteExpiredCache(now: Time, fullCopy: bool) returns (freed: int, ghost expired: seq<Key>)
      requires Valid(State())
      modifies this`db, this`size, this`tree
      ensures ExpiredKeys(old(db), now, expired)
      ensures !fullCopy ==> State() == old(State()) && freed == -1
      ensures fullCopy ==> State() == Sweep(old(State()), expired).cache
      ensures fullCopy ==> freed == Reported(Sweep(old(State()), expired).freed)
      ensures freed == -1 || freed > 0
      ensures fullCopy ==> old(size) - size == Freed(freed) + Sweep(old(State()), expired).failed
      ensures Valid(State())
    {
      var keys;
      keys, expired := CollectExpired(now, fullCopy);
      if !fullCopy {
        SweepAbsent(State(), keys);
      }
      var bytes := 0;
      for i := 0 to |keys|
        invariant Valid(State())
        invariant State() == Sweep(old(State()), keys[..i]).cache
        invariant bytes == Sweep(old(State()), keys[..i]).freed
      {
        var meta := RemoveNext(keys[i], old(State()), keys, i);
        if meta.None? {
          continue;
        }
        bytes := bytes + meta.value.size;
      }
      assert keys[..|keys|] == keys;
      SweepConserves(old(State()), keys);
      freed := if bytes == 0 then -1 else bytes;
    }

    /** The buckets in the order of their use counters. */
    method ItemsByUses() returns (items: seq<LruItem>, ghost order: seq<Key>)
      requires WellFormed(db)
      ensures UseOrder(db, order)
      ensures |order| == |items| && forall j :: 0 <= j < |items| ==> order[j] == items[j].key
      ensures SortedItems(items)
      ensures forall item :: item in items ==> item.key in db && item.uses == Uint32(db[item.key].uses)
    {
      var names := BucketNames();
      items := [];
      for i := 0 to |names|
        invariant |items| == i
        invariant forall j :: 0 <= j < i ==> items[j] == LruItem(names[j], Uint32(db[names[j]].uses))
      {
        items := items + [LruItem(names[i], Uint32(db[names[i]].uses))];
      }
      ghost var unsorted := items;
      items := SortByUses(items);
      order := seq(|items|, i requires 0 <= i < |items| => items[i].key);
      SortedIsUseOrder(db, names, unsorted, items, order);
      forall item | item in items ensures item.key in db && item.uses == Uint32(db[item.key].uses) {
        assert item in multiset(items) && item in unsorted;
      }
    }

    /** Remove pages in the given order while the cache is too full. */
    method EvictInOrder(items: seq<LruItem>, ghost order: seq<Key>) returns (freed: int, ghost n: nat)
      requires Valid(State())
      requires |order| == |items| && forall j :: 0 <= j < |items| ==> order[j] == items[j].key
      modifies this`db, this`size, this`tree
      ensures ShortestPrefix(old(State()), order, n)
      ensures State() == Sweep(old(State()), order[..n]).cache
      ensures freed == Reported(Sweep(old(State()), order[..n]).freed)
      ensures old(size) - size == Freed(freed) + Sweep(old(State()), order[..n]).failed
      ensures Valid(State())
    {
      var bytes := 0;
      n := 0;
      var i := 0;
      var exceeded := IsSizeExceeded();
      while exceeded && i < |items|
        invariant n == i <= |items| && exceeded == Exceeded(State())
        invariant Valid(State())
        invariant State() == Sweep(old(State()), order[..n]).cache
        invariant bytes == Sweep(old(State()), order[..n]).freed
        invariant n > 0 ==> Exceeded(Sweep(old(State()), order[..n - 1]).cache)
        decreases |items| - i
      {
        var meta := RemoveNext(items[i].key, old(State()), order, n);
        i, n := i + 1, n + 1;
        exceeded := IsSizeExceeded();
        if meta.None? {
          continue;
        }
        bytes := bytes + meta.value.size;
      }
      SweepConserves(old(State()), order[..n]);
      freed := if bytes == 0 then -1 else bytes;
    }

    /** deletePagesLRU: `order` is the sorted order and `n` the number of pages evicted. */
    method DeletePagesLRU() returns (freed: int, ghost order: seq<Key>, ghost n: nat)
      requires Valid(State()) && FillLimit() >= 0.0
      modifies this`db, this`size, this`tree
      ensures UseOrder(old(db), order) && ShortestPrefix(old(State()), order, n)
      ensures State() == Sweep(old(State()), order[..n]).cache
      ensures freed == Reported(Sweep(old(State()), order[..n]).freed)
      ensures old(size) - size == Freed(freed) + Sweep(old(State()), order[..n]).failed
      ensures Valid(State()) && !Exceeded(State()) && size as real <= maxFileSize as real * fillFactor
      ensures freed == -1 || freed > 0
    {
      var items;
      items, order := ItemsByUses();
      freed, n := EvictInOrder(items, order);
      EvictionBound(old(State()), order, n);
    }

    /** One tick of Observe: if the cache is too full, remove the expired pages, then evict by use. */
    method Observe(now: Time, fullCopy: bool) returns (ghost expired: seq<Key>, ghost order: seq<Key>, ghost n: nat)
      requires Valid(State()) && FillLimit() >= 0.0
      modifies this`db, this`size, this`tree
      ensures Valid(State()) && !Exceeded(State()) && size as real <= maxFileSize as real * fillFactor
      ensures old(size) as real <= maxFileSize as real * fillFactor ==> State() == old(State())
      ensures old(Exceeded(State())) ==> CleanedUp(old(State()), now, fullCopy, expired, order, n, State())
    {
      expired, order, n := [], [], 0;
      var exceeded := IsSizeExceeded();
      if exceeded {
        var freed: int;
        freed, expired := DeleteExpiredCache(now, fullCopy);
        freed, order, n := DeletePagesLRU();
      }
    }
  }

  /** SaveToCache of the balancer: only answers with status 200 to 399 are inserted. */
  method SaveToCache(props: CachingProperties, key: Key, req: Request, resp: Response, page: Page,
                     t0: Time, t1: Time, now: Time, commits: bool, end: WriteEnd)
    returns (r: Option<InsertResult>)
    requires IsKey(key) && Valid(props.State())
    modifies props
    ensures (props.State(), r) == Saved(old(props.State()), key, req, resp, page, now, commits, end)
  {
    if !(resp.status >= 200 && resp.status < 400) {
      return None;
    }
    var res := props.InsertPageInCache(key, req, resp, page, t0, t1, now, commits, end);
    return Some(res);
  }
}
