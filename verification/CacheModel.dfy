/**
 The page cache as a value: the metadata buckets, the directory tree and the byte counter, and what
 each operation makes of them. The class in CachingProperties.dfy is proved to follow these functions.
 */
module CacheModel {
  import opened Wrappers
  import opened GoStrings
  import opened UseCounter
  import opened CacheControl
  import opened RequestDirectives
  import opened ResponseDirectives
  import opened PageTree
  import Tally

  /** A bucket: the page's metadata and its use counter. */
  datatype Bucket = Bucket(size: int, directives: ResponseDirectives, uses: seq<Byte>)

  type Db = map<Key, Bucket>

  /** `fillLimit` is the size the cleaner cleans down to: maxFileSize times the fill factor. */
  datatype Cache = Cache(db: Db, tree: Tree, size: int, maxFileSize: int, fillLimit: real)

  datatype Request = Request(method_: string, cacheControl: string)
  datatype Response = Response(status: int, cacheControl: string)

  ghost function Sizes(db: Db): map<Key, int> {
    map k | k in db :: db[k].size
  }

  /** The bytes all buckets account for. */
  ghost function Total(db: Db): int {
    Tally.Sum(Sizes(db))
  }

  lemma TotalPut(db: Db, k: Key, b: Bucket)
    ensures Total(db[k := b]) == Total(db) + b.size - (if k in db then db[k].size else 0)
  {
    Tally.SumPut(Sizes(db), k, b.size);
    assert Sizes(db[k := b]) == Sizes(db)[k := b.size];
  }

  lemma TotalRemoved(db: Db, k: Key)
    requires k in db
    ensures Total(db - {k}) == Total(db) - db[k].size
  {
    Tally.SumSplit(Sizes(db), k);
    assert Sizes(db - {k}) == Sizes(db) - {k};
  }

  ghost predicate WellFormed(db: Db) {
    forall k :: k in db ==> IsKey(k) && db[k].size >= 0 && IsCounter(db[k].uses)
  }

  /** The counter is the sum over the buckets, and every page file can be reached. */
  ghost predicate Valid(c: Cache) {
    WellFormed(c.db) && Closed(c.tree) && c.size == Total(c.db)
  }

  /** Every bucket has its page, completely written. */
  ghost predicate PagesStored(c: Cache) {
    forall k :: k in c.db ==> k in c.tree.files && c.tree.files[k].Whole?
  }

  // ---------- Recounting ----------

  /** The buckets that CalculateSize counts: those whose page file exists. */
  ghost function OnDisk(c: Cache): Db {
    map k | k in c.db && k in c.tree.files :: c.db[k]
  }

  lemma {:induction false} TotalSubset(some: Db, all: Db)
    requires some.Keys <= all.Keys && WellFormed(all)
    requires forall k :: k in some ==> some[k] == all[k]
    ensures Total(some) <= Total(all)
    ensures Total(some) == Total(all) <==> forall k :: k in all && k !in some ==> all[k].size == 0
    decreases |all|
  {
    if all.Keys == some.Keys {
      assert all == some;
    } else {
      var k :| k in all && k !in some;
      TotalSubset(some, all - {k});
      TotalRemoved(all, k);
    }
  }

  /** A recount finds the counter's value exactly when every bucket without a page is of size zero. */
  lemma RecountAgrees(c: Cache)
    requires Valid(c)
    ensures Total(OnDisk(c)) == c.size <==> forall k :: k in c.db && k !in c.tree.files ==> c.db[k].size == 0
    ensures PagesStored(c) ==> Total(OnDisk(c)) == c.size
  {
    TotalSubset(OnDisk(c), c.db);
  }

  // ---------- Inserting ----------

  datatype InsertResult = Stored | TooLarge | NotStorable | DbError | DiskError

  predicate Storable(req: Request, resp: Response, now: Time) {
    && !RequestOf(req.cacheControl, now).noStore
    && !ResponseOf(resp.cacheControl, now).noStore
    && req.method_ == "GET"
    && !ResponseOf(resp.cacheControl, now).isPrivate
  }

  /** Whether a page may be stored does not depend on when the two headers are read. */
  lemma StorableAtAnyTime(req: Request, resp: Response, t0: Time, t1: Time, now: Time)
    ensures Storable(req, resp, now)
       <==> && !RequestOf(req.cacheControl, t0).noStore && !ResponseOf(resp.cacheControl, t1).noStore
            && req.method_ == "GET" && !ResponseOf(resp.cacheControl, t1).isPrivate
  {
    RequestFlagsAreTimeless(req.cacheControl, t0, now);
    ResponseFlagsAreTimeless(resp.cacheControl, t1, now);
  }

  function NewBucket(page: Page, resp: Response, now: Time): Bucket {
    Bucket(|page.body|, ResponseOf(resp.cacheControl, now), ZERO)
  }

  ghost function WithoutMetadata(c: Cache, k: Key): Cache {
    if k in c.db then c.(db := c.db - {k}, size := c.size - c.db[k].size) else c
  }

  /** The bucket made and counted, unless there is one. */
  ghost function Counted(c: Cache, k: Key, b: Bucket): Cache {
    if k in c.db then c else c.(db := c.db[k := b], size := c.size + b.size)
  }

  /**
   InsertPageInCache: an existing bucket stays as it is, because its transaction is rolled back; a page
   that cannot be written takes its bucket with it, whether the bucket is new or old.
   */
  ghost function Inserted(c: Cache, k: Key, req: Request, resp: Response, page: Page, now: Time,
                          commits: bool, end: WriteEnd): (r: (Cache, InsertResult))
    requires IsKey(k)
  {
    if c.size + |page.body| > c.maxFileSize then (c, TooLarge)
    else if !Storable(req, resp, now) then (c, NotStorable)
    else if k !in c.db && !commits then (c, DbError)
    else
      var b := NewBucket(page, resp, now);
      var written := Counted(c, k, b).(tree := WithPage(c.tree, k, page, end));
      if end.Written? then (written, Stored) else (WithoutMetadata(written, k), DiskError)
  }

  /** What an insert answers, read off the cache, the two headers and the outcomes of commit and write. */
  lemma InsertAnswers(c: Cache, k: Key, req: Request, resp: Response, page: Page, now: Time,
                      commits: bool, end: WriteEnd)
    requires IsKey(k)
    ensures var r := Inserted(c, k, req, resp, page, now, commits, end).1;
            var fits := c.size + |page.body| <= c.maxFileSize;
            var refused := "no-store" in Trimmed(req.cacheControl) || "no-store" in Trimmed(resp.cacheControl)
              || req.method_ != "GET" || "private" in Trimmed(resp.cacheControl);
            && (r == TooLarge <==> !fits)
            && (r == NotStorable <==> fits && refused)
            && (r == DbError <==> fits && !refused && k !in c.db && !commits)
            && (r == Stored <==> fits && !refused && (k in c.db || commits) && end == Written)
            && (r == DiskError <==> fits && !refused && (k in c.db || commits) && end != Written)
  {
    RequestFlagsNamed(req.cacheControl, now);
    ResponseFlagsNamed(resp.cacheControl, now);
  }

  /** SaveToCache passes only answers with status 200 to 399 on. */
  ghost function Saved(c: Cache, k: Key, req: Request, resp: Response, page: Page, now: Time,
                       commits: bool, end: WriteEnd): (r: (Cache, Option<InsertResult>))
    requires IsKey(k)
  {
    if 200 <= resp.status < 400 then
      var r := Inserted(c, k, req, resp, page, now, commits, end);
      (r.0, Some(r.1))
    else (c, None)
  }

  /** What is not passed on is exactly what has another status. */
  lemma SaveAnswers(c: Cache, k: Key, req: Request, resp: Response, page: Page, now: Time,
                    commits: bool, end: WriteEnd)
    requires IsKey(k)
    ensures var r := Saved(c, k, req, resp, page, now, commits, end);
            && (r.1.None? <==> resp.status < 200 || resp.status >= 400)
            && (r.1.None? ==> r.0 == c)
            && (r.1.Some? ==> (r.0, r.1.value) == Inserted(c, k, req, resp, page, now, commits, end))
  {
  }

  lemma WithoutMetadataValid(c: Cache, k: Key)
    requires Valid(c)
    ensures Valid(WithoutMetadata(c, k))
  {
    if k in c.db {
      TotalRemoved(c.db, k);
    }
  }

  lemma CountedValid(c: Cache, k: Key, b: Bucket)
    requires Valid(c) && IsKey(k) && b.size >= 0 && IsCounter(b.uses)
    ensures Valid(Counted(c, k, b)) && Counted(c, k, b).tree == c.tree
  {
    TotalPut(c.db, k, b);
  }

  lemma WrittenValid(c: Cache, k: Key, page: Page, end: WriteEnd)
    requires Valid(c) && IsKey(k)
    ensures Valid(c.(tree := WithPage(c.tree, k, page, end)))
  {
    WriteKeepsTree(c.tree, k, page, end);
  }

  /** Both stores written, and the bucket taken back if the file failed. */
  lemma StoredValid(c: Cache, k: Key, b: Bucket, page: Page, end: WriteEnd)
    requires Valid(c) && IsKey(k) && b.size >= 0 && IsCounter(b.uses)
    ensures var written := Counted(c, k, b).(tree := WithPage(c.tree, k, page, end));
            && Valid(written) && Valid(WithoutMetadata(written, k))
            && (PagesStored(c) && end.Written? ==> PagesStored(written))
            && (PagesStored(c) ==> PagesStored(WithoutMetadata(written, k)))
            && WithoutMetadata(written, k).size <= written.size <= c.size + b.size
  {
    CountedValid(c, k, b);
    WrittenValid(Counted(c, k, b), k, page, end);
    WithoutMetadataValid(Counted(c, k, b).(tree := WithPage(c.tree, k, page, end)), k);
  }

  lemma InsertedValid(c: Cache, k: Key, req: Request, resp: Response, page: Page, now: Time,
                      commits: bool, end: WriteEnd)
    requires Valid(c) && IsKey(k)
    ensures var c' := Inserted(c, k, req, resp, page, now, commits, end).0;
            && Valid(c')
            && (PagesStored(c) ==> PagesStored(c'))
            && (c.size <= c.maxFileSize ==> c'.size <= c'.maxFileSize)
  {
    if c.size + |page.body| <= c.maxFileSize && Storable(req, resp, now) && (k in c.db || commits) {
      StoredValid(c, k, NewBucket(page, resp, now), page, end);
    }
  }

  // ---------- Looking up ----------

  datatype LookupResult = Hit(page: Page) | Missed | NotFresh | NoPage | Damaged

  /** The recorded end of the page's lifetime; a shared cache prefers s-maxage (RFC 9111, section 5.2.2.10). */
  function LastMoment(d: ResponseDirectives): Time {
    if d.sMaxAge != NULL_TIME then d.sMaxAge else d.maxAge
  }

  /** How long after that moment the request still accepts the page, in nanoseconds. */
  function Allowance(d: ResponseDirectives, r: RequestDirectives): int {
    if d.mustRevalidate then 0 else r.maxStale
  }

  /** The clock is read at `t1` for the page's age and at `t2` for the request's min-fresh. */
  predicate Fresh(d: ResponseDirectives, r: RequestDirectives, t1: Time, t2: Time) {
    t1 <= LastMoment(d) + Allowance(d, r) && t2 > r.minFresh
  }

  ghost function Used(c: Cache, k: Key): Cache
    requires k in c.db && IsCounter(c.db[k].uses)
  {
    c.(db := c.db[k := c.db[k].(uses := Incremented(c.db[k].uses))])
  }

  /** GetPageFromCache; the request's directives are read at `t0`. */
  ghost function LookedUp(c: Cache, k: Key, req: Request, t0: Time, t1: Time, t2: Time): (r: (Cache, LookupResult))
    requires WellFormed(c.db)
  {
    if k !in c.db then (c, Missed)
    else
      var used := Used(c, k);
      if !Fresh(c.db[k].directives, RequestOf(req.cacheControl, t0), t1, t2) then (used, NotFresh)
      else if k !in c.tree.files then (WithoutMetadata(used, k), NoPage)
      else if c.tree.files[k].Partial? then (used, Damaged)
      else (used, Hit(c.tree.files[k].page))
  }

  /**
   What a lookup answers: a page in time, with s-maxage before max-age, is a hit exactly if its file is
   whole; in time includes the deadline itself and the staleness that the request allows and the page
   does not forbid.
   */
  lemma LookupAnswers(c: Cache, k: Key, req: Request, t0: Time, t1: Time, t2: Time)
    requires WellFormed(c.db)
    ensures var r, q := LookedUp(c, k, req, t0, t1, t2).1, RequestOf(req.cacheControl, t0);
            && (r == Missed <==> k !in c.db)
            && (k in c.db ==>
                  var d := c.db[k].directives;
                  var end := if d.sMaxAge != -62_135_596_800_000_000_000 then d.sMaxAge else d.maxAge;
                  var inTime := t1 <= end + (if d.mustRevalidate then 0 else q.maxStale) && t2 > q.minFresh;
                  && (r == NotFresh <==> !inTime)
                  && (r == NoPage <==> inTime && k !in c.tree.files)
                  && (r == Damaged <==> inTime && k in c.tree.files && c.tree.files[k].Partial?)
                  && (r.Hit? <==> inTime && k in c.tree.files && c.tree.files[k].Whole?)
                  && (r.Hit? ==> c.tree.files[k] == Whole(r.page)))
  {
  }

  lemma UsedValid(c: Cache, k: Key)
    requires Valid(c) && k in c.db
    ensures Valid(Used(c, k)) && Used(c, k).db - {k} == c.db - {k}
    ensures PagesStored(c) ==> PagesStored(Used(c, k))
  {
    TotalPut(c.db, k, c.db[k].(uses := Incremented(c.db[k].uses)));
  }

  /** A lookup keeps the counter right; if it finds a bucket without page, the bucket is gone afterwards. */
  lemma LookedUpValid(c: Cache, k: Key, req: Request, t0: Time, t1: Time, t2: Time)
    requires Valid(c)
    ensures var r := LookedUp(c, k, req, t0, t1, t2);
            && Valid(r.0) && r.0.tree == c.tree
            && (PagesStored(c) ==> PagesStored(r.0) && r.0.size == c.size)
            && (r.1 == NoPage ==> r.0.db == c.db - {k} && r.0.size == c.size - c.db[k].size)
  {
    if k in c.db {
      UsedValid(c, k);
      WithoutMetadataValid(Used(c, k), k);
    }
  }

  // ---------- Removing ----------

  /** The cache after a removal, and the size RemovePageFromCache reports unless it reports an error. */
  datatype Evicted = Evicted(cache: Cache, reported: Option<int>)

  ghost function RemovedPage(c: Cache, k: Key): Evicted
    requires WellFormed(c.db)
  {
    if k !in c.db then Evicted(c, None)
    else
      var r := WithoutPage(c.tree, k);
      Evicted(WithoutMetadata(c, k).(tree := r.tree), if r.ok then Some(c.db[k].size) else None)
  }

  /** A removal takes the bucket and, if there was one, the page; everything else stays. */
  lemma RemovedPageEffect(c: Cache, k: Key)
    requires Valid(c)
    ensures var d := RemovedPage(c, k).cache;
            && Valid(d)
            && d.db == c.db - {k}
            && d.tree.files == (if k in c.db then c.tree.files - {k} else c.tree.files)
            && (PagesStored(c) ==> PagesStored(d))
  {
    WithoutMetadataValid(c, k);
    if k in c.db {
      RemoveKeepsClosed(c.tree, k);
    }
  }

  /** A cleaning loop: remove the listed pages in order and add up what is reported. */
  datatype Sweeping = Sweeping(cache: Cache, freed: int, failed: int)

  /** `failed` adds up the sizes of the pages whose bucket went but whose disk deletion reported an error. */
  ghost function Sweep(c: Cache, keys: seq<Key>): (s: Sweeping)
    requires WellFormed(c.db)
    ensures WellFormed(s.cache.db) && s.freed >= 0 && s.failed >= 0
    ensures s.cache.maxFileSize == c.maxFileSize && s.cache.fillLimit == c.fillLimit
    ensures s.cache.db.Keys <= c.db.Keys && forall k :: k in s.cache.db ==> s.cache.db[k] == c.db[k]
  {
    if keys == [] then Sweeping(c, 0, 0)
    else
      var s := Sweep(c, keys[..|keys| - 1]);
      var k := keys[|keys| - 1];
      var r := RemovedPage(s.cache, k);
      match r.reported
      case Some(size) => Sweeping(r.cache, s.freed + size, s.failed)
      case None => Sweeping(r.cache, s.freed, s.failed + if k in s.cache.db then s.cache.db[k].size else 0)
  }

  /** `d` is `c` without the listed buckets and their pages. */
  ghost predicate Without(c: Cache, keys: seq<Key>, d: Cache) {
    && Valid(d)
    && (forall k :: k in d.db <==> k in c.db && k !in keys)
    && (forall k :: k in d.tree.files <==> k in c.tree.files && !(k in keys && k in c.db))
    && (forall k :: k in d.tree.files ==> d.tree.files[k] == c.tree.files[k])
    && (PagesStored(c) ==> PagesStored(d))
  }

  lemma WithoutOneMore(c: Cache, init: seq<Key>, last: Key, d: Cache)
    requires Without(c, init, d)
    ensures Without(c, init + [last], RemovedPage(d, last).cache)
  {
    RemovedPageEffect(d, last);
    assert forall k :: k in init + [last] <==> k in init || k == last;
  }

  /** Exactly the listed buckets go, with their pages; the counter keeps up. */
  lemma {:induction false} SweepEffect(c: Cache, keys: seq<Key>)
    requires Valid(c)
    ensures Without(c, keys, Sweep(c, keys).cache)
  {
    if keys != [] {
      var init, last := keys[..|keys| - 1], keys[|keys| - 1];
      SweepEffect(c, init);
      WithoutOneMore(c, init, last, Sweep(c, init).cache);
      assert keys == init + [last];
    }
  }

  /** Byte conservation: the drop of the counter is what was reported plus what failed on disk. */
  lemma {:induction false} SweepConserves(c: Cache, keys: seq<Key>)
    requires WellFormed(c.db)
    ensures c.size - Sweep(c, keys).cache.size == Sweep(c, keys).freed + Sweep(c, keys).failed
  {
    if keys != [] {
      SweepConserves(c, keys[..|keys| - 1]);
    }
  }

  /** Keys without a bucket are passed over. */
  lemma {:induction false} SweepAbsent(c: Cache, keys: seq<Key>)
    requires WellFormed(c.db) && forall k :: k in keys ==> k !in c.db
    ensures Sweep(c, keys) == Sweeping(c, 0, 0)
  {
    if keys != [] {
      SweepAbsent(c, keys[..|keys| - 1]);
      assert keys[|keys| - 1] in keys;
    }
  }

  /** A page outside `keys` shares its first segment with `k`. */
  ghost predicate Shared(c: Cache, keys: seq<Key>, k: Key)
    requires KeysOnly(c.tree) && IsKey(k)
  {
    exists l :: l in c.tree.files && l !in keys && SameFirstSegment(k, l)
  }

  /** The sizes of the listed pages that share their first segment with a page still on disk. */
  ghost function SharedBytes(c: Cache, keys: seq<Key>): int
    requires KeysOnly(c.tree)
    requires forall k :: k in keys ==> k in c.db && IsKey(k)
  {
    if keys == [] then 0
    else
      var k := keys[|keys| - 1];
      SharedBytes(c, keys[..|keys| - 1])
      + if Shared(c, keys, k) then c.db[k].size else 0
  }

  lemma DistinctInit(keys: seq<Key>)
    requires Distinct(keys) && keys != []
    ensures Distinct(keys[..|keys| - 1]) && keys[|keys| - 1] !in keys[..|keys| - 1]
    ensures keys == keys[..|keys| - 1] + [keys[|keys| - 1]]
  {
  }

  /** The deletion of `k` fails exactly if a page still on disk shares its first segment. */
  lemma DeletionFails(c: Cache, init: seq<Key>, k: Key, d: Cache)
    requires Exact(d.tree) && Without(c, init, d) && PagesStored(d) && KeysOnly(c.tree)
    requires IsKey(k) && k in d.db && forall l :: l in init ==> l in c.db
    ensures Exact(RemovedPage(d, k).cache.tree)
    ensures RemovedPage(d, k).reported == if Shared(c, init + [k], k) then None else Some(d.db[k].size)
  {
    RemoveKeepsExact(d.tree, k);
    assert forall l :: l in d.tree.files && l != k <==> l in c.tree.files && l !in init + [k];
  }

  /**
   Which deletions fail: with an exact tree, the bytes not reported belong to exactly those pages that,
   when their turn comes, share their first path segment with another page still on disk.
   */
  lemma {:induction false} SweepFailures(c: Cache, keys: seq<Key>)
    requires Valid(c) && Exact(c.tree) && PagesStored(c)
    requires Distinct(keys) && forall k :: k in keys ==> k in c.db
    ensures Exact(Sweep(c, keys).cache.tree)
    ensures Sweep(c, keys).failed == SharedBytes(c, keys)
  {
    if keys != [] {
      var init, k := keys[..|keys| - 1], keys[|keys| - 1];
      DistinctInit(keys);
      assert k in keys && forall l :: l in init ==> l in keys;
      SweepFailures(c, init);
      SweepEffect(c, init);
      DeletionFails(c, init, k, Sweep(c, init).cache);
    }
  }

  // ---------- Cleaning ----------

  /** isSizeExceeded */
  predicate Exceeded(c: Cache) {
    c.size as real > c.fillLimit
  }

  /** `order` lists the keys of the buckets once each, less used ones first. */
  ghost predicate UseOrder(db: Db, order: seq<Key>)
    requires WellFormed(db)
  {
    && Distinct(order)
    && (forall k :: k in order <==> k in db)
    && forall i, j :: 0 <= i < j < |order| ==> Uint32(db[order[i]].uses) <= Uint32(db[order[j]].uses)
  }

  /** Evicting in this order stops after `n` pages: at the first that makes the cache fit, or at the end. */
  ghost predicate ShortestPrefix(c: Cache, order: seq<Key>, n: nat)
    requires WellFormed(c.db)
  {
    && n <= |order|
    && (n > 0 ==> Exceeded(Sweep(c, order[..n - 1]).cache))
    && (n == |order| || !Exceeded(Sweep(c, order[..n]).cache))
  }

  /** No shorter prefix of the order would have made the cache fit. */
  lemma {:induction false} NoShorterFits(c: Cache, order: seq<Key>, n: nat, j: nat)
    requires WellFormed(c.db) && j <= n <= |order| && Exceeded(Sweep(c, order[..n]).cache)
    ensures Exceeded(Sweep(c, order[..j]).cache)
    decreases n
  {
    if j < n {
      assert order[..n][..n - 1] == order[..n - 1];
      NoShorterFits(c, order, n - 1, j);
    }
  }

  lemma PrefixMembers(order: seq<Key>, n: nat)
    requires Distinct(order) && n <= |order|
    ensures forall j :: 0 <= j < |order| ==> (order[j] in order[..n] <==> j < n)
  {
    forall j | 0 <= j < n ensures order[j] in order[..n] {
      assert order[..n][j] == order[j];
    }
  }

  lemma EvictingAllFits(c: Cache, order: seq<Key>)
    requires Valid(c) && UseOrder(c.db, order)
    requires c.fillLimit >= 0.0
    ensures !Exceeded(Sweep(c, order).cache)
  {
    SweepEffect(c, order);
    var d := Sweep(c, order).cache;
    assert d.db.Keys == {};
    assert Sizes(d.db) == map[];
  }

  lemma KeptAreUsedMore(db: Db, order: seq<Key>, n: nat, kept: set<Key>)
    requires WellFormed(db) && UseOrder(db, order) && n <= |order|
    requires forall k :: k in kept ==> k in db && k !in order[..n]
    ensures forall i, k :: 0 <= i < n && k in kept ==> Uint32(db[order[i]].uses) <= Uint32(db[k].uses)
  {
    PrefixMembers(order, n);
    forall i, k | 0 <= i < n && k in kept
      ensures Uint32(db[order[i]].uses) <= Uint32(db[k].uses)
    {
      var j :| 0 <= j < |order| && order[j] == k;
    }
  }

  /** The eviction stops as soon as the cache fits, and not before. */
  lemma EvictionStops(c: Cache, order: seq<Key>, n: nat)
    requires Valid(c) && UseOrder(c.db, order) && ShortestPrefix(c, order, n)
    requires c.fillLimit >= 0.0
    ensures !Exceeded(Sweep(c, order[..n]).cache)
    ensures forall j :: 0 <= j < n ==> Exceeded(Sweep(c, order[..j]).cache)
  {
    forall j | 0 <= j < n ensures Exceeded(Sweep(c, order[..j]).cache) {
      NoShorterFits(c, order, n - 1, j);
    }
    if n == |order| {
      assert order[..n] == order;
      EvictingAllFits(c, order);
    }
  }

  /**
   Least-used eviction: afterwards the cache fits, the last eviction was needed, and nothing that was
   evicted had been used more often than anything that was kept.
   */
  lemma EvictionBound(c: Cache, order: seq<Key>, n: nat)
    requires Valid(c) && UseOrder(c.db, order) && ShortestPrefix(c, order, n)
    requires c.fillLimit >= 0.0
    ensures var d := Sweep(c, order[..n]).cache;
            && !Exceeded(d)
            && (forall j :: 0 <= j < n ==> Exceeded(Sweep(c, order[..j]).cache))
            && (forall j :: 0 <= j < |order| ==> (order[j] in d.db <==> j >= n))
            && (forall i, k :: 0 <= i < n && k in d.db ==> Uint32(c.db[order[i]].uses) <= Uint32(c.db[k].uses))
  {
    EvictionStops(c, order, n);
    PrefixMembers(order, n);
    var d := Sweep(c, order[..n]).cache;
    assert forall k :: k in d.db <==> k in c.db && k !in order[..n] by {
      SweepEffect(c, order[..n]);
    }
    KeptAreUsedMore(c.db, order, n, d.db.Keys);
  }

  /** isExpired(info, 0): only max-age counts here, s-maxage does not. */
  predicate Expired(b: Bucket, now: Time) {
    now > b.directives.maxAge
  }

  /** A page received with "max-age=n" expires n seconds later, whatever its s-maxage. */
  lemma ExpiresInSeconds(page: Page, status: int, shared: string, n: nat, received: Time, now: Time)
    requires 0 < n <= 9_223_372_036 && forall v :: v in Trimmed(shared) ==> !Contains(v, "max-age")
    ensures var b := NewBucket(page, Response(status, "max-age" + "=" + Itoa(n) + ";" + shared), received);
            Expired(b, now) <==> now > received + n * 1_000_000_000
  {
    var header := "max-age" + "=" + Itoa(n);
    LifetimeInSeconds(n, received);
    ResponseJoined(header, shared, received);
    NoMaxAgeSaid(shared, received);
  }

  ghost predicate ExpiredKeys(db: Db, now: Time, expired: seq<Key>) {
    Distinct(expired) && forall k :: k in expired <==> k in db && Expired(db[k], now)
  }

  /**
   A pass that removes the expired pages and then evicts by use leaves no expired page, fits, and has
   evicted an unexpired page only if removing the expired ones did not suffice.
   */
  lemma CleaningPass(c: Cache, now: Time, expired: seq<Key>, order: seq<Key>, n: nat)
    requires Valid(c) && ExpiredKeys(c.db, now, expired)
    requires var e := Sweep(c, expired).cache; UseOrder(e.db, order) && ShortestPrefix(e, order, n)
    requires c.fillLimit >= 0.0
    ensures var e := Sweep(c, expired).cache;
            var d := Sweep(e, order[..n]).cache;
            && Valid(d) && !Exceeded(d)
            && (forall k :: k in d.db ==> !Expired(d.db[k], now))
            && (forall k :: k in c.db && !Expired(c.db[k], now) && k !in d.db ==> Exceeded(e))
  {
    var e := Sweep(c, expired).cache;
    SweepEffect(c, expired);
    SweepEffect(e, order[..n]);
    EvictionBound(e, order, n);
    if n == 0 {
      SweepNothing(e, order);
    } else {
      assert Exceeded(Sweep(e, order[..0]).cache);
      SweepNothing(e, order);
    }
  }

  lemma SweepNothing(c: Cache, order: seq<Key>)
    requires WellFormed(c.db)
    ensures Sweep(c, order[..0]).cache == c
  {
    assert order[..0] == [];
  }

  /** The sizes of the buckets from place `i` of the order on. */
  ghost function BytesFrom(db: Db, order: seq<Key>, i: nat): int
    requires i <= |order| && forall k :: k in order ==> k in db
    decreases |order| - i
  {
    if i == |order| then 0 else db[order[i]].size + BytesFrom(db, order, i + 1)
  }

  /** Evicting one page more lowers the counter by its size. */
  lemma SweepOneMore(c: Cache, order: seq<Key>, i: nat)
    requires Valid(c) && UseOrder(c.db, order) && i < |order|
    ensures Sweep(c, order[..i + 1]).cache.size == Sweep(c, order[..i]).cache.size - c.db[order[i]].size
  {
    var more := order[..i + 1];
    assert more[..i] == order[..i] && more[i] == order[i];
    PrefixMembers(order, i);
    SweepEffect(c, order[..i]);
  }

  /** After the eviction of the first `i` pages the counter is what the others weigh. */
  lemma {:induction false} SizeAfter(c: Cache, order: seq<Key>, i: nat)
    requires Valid(c) && UseOrder(c.db, order) && i <= |order|
    ensures Sweep(c, order[..i]).cache.size == BytesFrom(c.db, order, i)
    decreases |order| - i
  {
    if i == |order| {
      assert order[..i] == order;
      SweepEffect(c, order);
      var d := Sweep(c, order).cache;
      assert d.db.Keys == {} && Sizes(d.db) == map[];
    } else {
      SizeAfter(c, order, i + 1);
      SweepOneMore(c, order, i);
    }
  }

  /** The page at place `i` is evicted exactly if it and those used more weigh more than the fill limit. */
  lemma EvictedByWeight(c: Cache, order: seq<Key>, n: nat, i: nat)
    requires Valid(c) && UseOrder(c.db, order) && ShortestPrefix(c, order, n)
    requires c.fillLimit >= 0.0 && i < |order|
    ensures order[i] !in Sweep(c, order[..n]).cache.db <==> BytesFrom(c.db, order, i) as real > c.fillLimit
  {
    EvictionBound(c, order, n);
    SizeAfter(c, order, i);
    if i >= n && Exceeded(Sweep(c, order[..i]).cache) {
      NoShorterFits(c, order, i, n);
    }
  }

  /** Every expired page and those used more than it weigh more than the fill limit. */
  ghost predicate ExpiredAreHeavy(c: Cache, now: Time, order: seq<Key>)
    requires forall k :: k in order ==> k in c.db
  {
    forall i :: 0 <= i < |order| && Expired(c.db[order[i]], now) ==> BytesFrom(c.db, order, i) as real > c.fillLimit
  }

  /** Without the first loop's removals the eviction leaves no expired page exactly if they are all heavy. */
  lemma EvictionOnlyPass(c: Cache, now: Time, order: seq<Key>, n: nat)
    requires Valid(c) && UseOrder(c.db, order) && ShortestPrefix(c, order, n)
    requires c.fillLimit >= 0.0
    ensures var d := Sweep(c, order[..n]).cache;
            && Valid(d) && !Exceeded(d)
            && ((forall k :: k in d.db ==> !Expired(d.db[k], now)) <==> ExpiredAreHeavy(c, now, order))
  {
    SweepEffect(c, order[..n]);
    EvictionBound(c, order, n);
    var d := Sweep(c, order[..n]).cache;
    forall i | 0 <= i < |order|
      ensures order[i] !in d.db <==> BytesFrom(c.db, order, i) as real > c.fillLimit
    {
      EvictedByWeight(c, order, n, i);
    }
    if ExpiredAreHeavy(c, now, order) {
      forall k | k in d.db ensures !Expired(d.db[k], now) {
        var i :| 0 <= i < |order| && order[i] == k;
      }
    }
  }

  /** The same condition decides when the cache is not too full: then none is heavy, and nothing goes. */
  lemma NoPass(c: Cache, now: Time, order: seq<Key>)
    requires Valid(c) && UseOrder(c.db, order) && !Exceeded(c)
    ensures (forall k :: k in c.db ==> !Expired(c.db[k], now)) <==> ExpiredAreHeavy(c, now, order)
  {
    forall i | 0 <= i < |order| ensures BytesFrom(c.db, order, i) as real <= c.fillLimit {
      SizeAfter(c, order, i);
      SweepNothing(c, order);
      if Exceeded(Sweep(c, order[..i]).cache) {
        NoShorterFits(c, order, i, 0);
      }
    }
    if ExpiredAreHeavy(c, now, order) {
      forall k | k in c.db ensures !Expired(c.db[k], now) {
        var i :| 0 <= i < |order| && order[i] == k;
      }
    }
  }

  /** A cache with one page for each of two keys, one byte each; `stale` is expired and used once. */
  ghost function TwoPages(young: Key, stale: Key, page: Page, now: Time): Cache
    requires IsKey(young) && IsKey(stale)
  {
    var db := map[young := Bucket(1, RESPONSE_DEFAULT, ZERO),
                  stale := Bucket(1, RESPONSE_DEFAULT.(maxAge := now - 1), PutUint32(1))];
    var tree := WithPage(WithPage(EMPTY_TREE, young, page, Written), stale, page, Written);
    Cache(db, tree, 2, 2, 1.0)
  }

  lemma TwoPagesValid(young: Key, stale: Key, page: Page, now: Time)
    requires IsKey(young) && IsKey(stale) && young != stale
    ensures var c := TwoPages(young, stale, page, now); Valid(c) && PagesStored(c)
  {
    var c := TwoPages(young, stale, page, now);
    var none: Db := map[];
    assert Sizes(none) == map[];
    TotalPut(none, young, c.db[young]);
    TotalPut(none[young := c.db[young]], stale, c.db[stale]);
    assert c.db == none[young := c.db[young]][stale := c.db[stale]];
    WriteKeepsTree(EMPTY_TREE, young, page, Written);
    WriteKeepsTree(WithPage(EMPTY_TREE, young, page, Written), stale, page, Written);
  }

  lemma TwoPagesOrder(young: Key, stale: Key, page: Page, now: Time)
    requires IsKey(young) && IsKey(stale) && young != stale
    ensures var c, order := TwoPages(young, stale, page, now), [young, stale];
            && WellFormed(c.db) && UseOrder(c.db, order)
            && BytesFrom(c.db, order, 0) == 2 && BytesFrom(c.db, order, 1) == 1
  {
    var c, order := TwoPages(young, stale, page, now), [young, stale];
    RoundTrip(1, ZERO);
    assert Uint32(c.db[young].uses) == 0;
    assert BytesFrom(c.db, order, 2) == 0;
    assert BytesFrom(c.db, order, 1) == 1;
  }

  /** A tick as coded that evicts an unexpired page and leaves an expired one in the cache. */
  lemma ExpiredPageSurvives(young: Key, stale: Key, page: Page, now: Time)
    requires IsKey(young) && IsKey(stale) && young != stale && now <= INFINITY_TIME
    ensures var c, order := TwoPages(young, stale, page, now), [young, stale];
            && Valid(c) && PagesStored(c) && Exceeded(c)
            && UseOrder(c.db, order) && ShortestPrefix(c, order, 1)
            && var d := Sweep(c, order[..1]).cache;
               && d.db.Keys == {stale} && Expired(c.db[stale], now) && !Expired(c.db[young], now)
  {
    var c, order := TwoPages(young, stale, page, now), [young, stale];
    TwoPagesValid(young, stale, page, now);
    TwoPagesOrder(young, stale, page, now);
    SizeAfter(c, order, 0);
    SizeAfter(c, order, 1);
    SweepNothing(c, order);
    SweepEffect(c, order[..1]);
    PrefixMembers(order, 1);
  }

  // ---------- Clearing ----------

  /** Bucket `k` and all that a cursor lists before it have their pages. */
  ghost predicate StoredUpTo(c: Cache, k: Key) {
    forall l :: l in c.db && (l == k || Before(l, k)) ==> l in c.tree.files
  }

  /** The buckets that ClearCache comes to before the first one without page. */
  ghost function ClearedFirst(c: Cache): Db {
    map k | k in c.db && StoredUpTo(c, k) :: c.db[k]
  }

  /** The bytes of those buckets are lost to the counter exactly if one of them is of positive size. */
  lemma NothingLost(c: Cache)
    requires WellFormed(c.db)
    ensures Total(ClearedFirst(c)) >= 0
    ensures Total(ClearedFirst(c)) == 0 <==> forall k :: k in c.db && StoredUpTo(c, k) ==> c.db[k].size == 0
  {
    var none: Db := map[];
    assert Sizes(none) == map[];
    TotalSubset(none, ClearedFirst(c));
  }

  ghost function Cleared(c: Cache): Cache {
    c.(db := map[], tree := EMPTY_TREE, size := 0)
  }
}
