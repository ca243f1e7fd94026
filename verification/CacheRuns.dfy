/**
 Whole runs of the cache: any sequence of saves (with any outcome on disk), lookups, evictions, clears
 and restarts, from a start with no bucket. What a hit returns, why it is allowed, and what the use
 counter stands for is read off the history of the run.
 */
module CacheRuns {
  import opened Wrappers
  import opened UseCounter
  import opened CacheControl
  import opened GoStrings
  import opened RequestDirectives
  import opened ResponseDirectives
  import opened PageTree
  import opened CacheModel
  import H = KeyHistory

  datatype Op =
    | Save(key: Key, req: Request, resp: Response, page: Page, now: Time, commits: bool, end: WriteEnd)
    | Lookup(key: Key, req: Request, t0: Time, t1: Time, t2: Time)
    | Evict(keys: seq<Key>) // a removal, or either loop of a cleaning pass
    | Clear
    | Restart

  predicate OpOk(op: Op) {
    op.Save? ==> IsKey(op.key)
  }

  ghost predicate Good(c: Cache) {
    Valid(c) && PagesStored(c)
  }

  ghost function SaveResult(c: Cache, op: Op): (Cache, Option<InsertResult>)
    requires op.Save? && OpOk(op)
  {
    Saved(c, op.key, op.req, op.resp, op.page, op.now, op.commits, op.end)
  }

  ghost function Answer(c: Cache, op: Op): (Cache, LookupResult)
    requires op.Lookup? && WellFormed(c.db)
  {
    LookedUp(c, op.key, op.req, op.t0, op.t1, op.t2)
  }

  ghost function Step(c: Cache, op: Op): Cache
    requires Good(c) && OpOk(op)
  {
    match op
    case Save(_, _, _, _, _, _, _) => SaveResult(c, op).0
    case Lookup(_, _, _, _, _) => Answer(c, op).0
    case Evict(keys) => Sweep(c, keys).cache
    case Clear => Cleared(c)
    case Restart => c.(size := Total(OnDisk(c)))
  }

  /** Every operation keeps the counter equal to the sum, every page reachable, every bucket with its page. */
  lemma StepGood(c: Cache, op: Op)
    requires Good(c) && OpOk(op)
    ensures Good(Step(c, op))
    ensures Step(c, op).maxFileSize == c.maxFileSize
    ensures c.size <= c.maxFileSize && c.maxFileSize >= 0 ==> Step(c, op).size <= c.maxFileSize
  {
    match op
    case Save(k, req, resp, page, now, commits, end) => InsertedValid(c, k, req, resp, page, now, commits, end);
    case Lookup(k, req, t0, t1, t2) => LookedUpValid(c, k, req, t0, t1, t2);
    case Evict(keys) =>
      SweepEffect(c, keys);
      TotalSubset(Sweep(c, keys).cache.db, c.db);
    case Clear => assert Sizes(Cleared(c).db) == map[];
    case Restart => RecountAgrees(c);
  }

  // ---------- The cache as a map from keys to pages ----------

  ghost function Pages(c: Cache): map<Key, Page>
    requires PagesStored(c)
  {
    map k | k in c.db :: c.tree.files[k].page
  }

  /** How a plain map would change: only a completed save adds a page, a failed write takes one away. */
  ghost function PagesAfter(c: Cache, op: Op): map<Key, Page>
    requires Good(c) && OpOk(op)
  {
    match op
    case Save(k, _, _, page, _, _, _) =>
      (match SaveResult(c, op).1
       case Some(Stored) => Pages(c)[k := page]
       case Some(DiskError) => Pages(c) - {k}
       case _ => Pages(c))
    case Evict(keys) => map k | k in Pages(c) && k !in keys :: Pages(c)[k]
    case Clear => map[]
    case _ => Pages(c)
  }

  /** The three ways a save can end: the page stored, the bucket lost with the write, or nothing changed. */
  ghost predicate SaveOutcome(c: Cache, op: Op, d: Cache, r: Option<InsertResult>)
    requires op.Save?
  {
    if r == Some(Stored) then
      && 200 <= op.resp.status < 400 && Storable(op.req, op.resp, op.now)
      && d.db == (if op.key in c.db then c.db else c.db[op.key := NewBucket(op.page, op.resp, op.now)])
      && d.tree.files == c.tree.files[op.key := Whole(op.page)]
    else if r == Some(DiskError) then
      && d.db == c.db - {op.key}
      && (d.tree.files == c.tree.files || d.tree.files == c.tree.files[op.key := Partial])
    else d == c
  }

  lemma SaveEnds(c: Cache, op: Op)
    requires Good(c) && OpOk(op) && op.Save?
    ensures SaveOutcome(c, op, SaveResult(c, op).0, SaveResult(c, op).1)
  {
    assert c.db[op.key := NewBucket(op.page, op.resp, op.now)] - {op.key} == c.db - {op.key};
  }

  lemma PagesWith(c: Cache, k: Key, page: Page, d: Cache)
    requires PagesStored(c) && PagesStored(d) && d.db.Keys == c.db.Keys + {k}
    requires d.tree.files == c.tree.files[k := Whole(page)]
    ensures Pages(d) == Pages(c)[k := page]
  {
    assert forall l :: l in d.db && l != k ==> l in c.db;
  }

  lemma PagesWithout(c: Cache, k: Key, d: Cache)
    requires PagesStored(c) && PagesStored(d) && d.db.Keys == c.db.Keys - {k}
    requires forall l :: l in d.db ==> l in c.tree.files && d.tree.files[l] == c.tree.files[l]
    ensures Pages(d) == Pages(c) - {k}
  {
  }

  lemma SaveRefinesMap(c: Cache, op: Op, d: Cache, r: Option<InsertResult>)
    requires Good(c) && PagesStored(d) && op.Save? && SaveOutcome(c, op, d, r)
    ensures Pages(d) == match r
                        case Some(Stored) => Pages(c)[op.key := op.page]
                        case Some(DiskError) => Pages(c) - {op.key}
                        case _ => Pages(c)
  {
    if r == Some(Stored) {
      PagesWith(c, op.key, op.page, d);
    } else if r == Some(DiskError) {
      PagesWithout(c, op.key, d);
    }
  }

  lemma PagesKept(c: Cache, keys: seq<Key>, d: Cache)
    requires PagesStored(c) && PagesStored(d) && Without(c, keys, d)
    ensures Pages(d) == map k | k in Pages(c) && k !in keys :: Pages(c)[k]
  {
  }

  /** What a lookup does to the stores of a cache that has all its pages: it counts a use. */
  ghost predicate LookupOutcome(c: Cache, k: Key, d: Cache)
    requires WellFormed(c.db)
  {
    && d.tree == c.tree && d.size == c.size
    && d.db == if k in c.db then c.db[k := c.db[k].(uses := Incremented(c.db[k].uses))] else c.db
  }

  lemma LookupEnds(c: Cache, op: Op)
    requires Good(c) && op.Lookup?
    ensures LookupOutcome(c, op.key, Answer(c, op).0)
    ensures var r := Answer(c, op).1;
            && r != NoPage && r != Damaged
            && (r.Missed? <==> op.key !in c.db)
            && (r.Hit? ==> op.key in c.db)
            && (op.key in c.db ==>
                  (r.Hit? <==> Fresh(c.db[op.key].directives, RequestOf(op.req.cacheControl, op.t0), op.t1, op.t2)))
            && (r.Hit? ==> c.tree.files[op.key] == Whole(r.page))
  {
  }

  lemma LookupKeepsPages(c: Cache, k: Key, d: Cache)
    requires Good(c) && PagesStored(d) && LookupOutcome(c, k, d)
    ensures Pages(d) == Pages(c)
  {
  }

  /**
   The cache behaves like a plain map: every operation changes the map of its pages as stated, a lookup
   answers from that map, and damaged or missing page files are never met.
   */
  lemma RefinesMap(c: Cache, op: Op)
    requires Good(c) && OpOk(op)
    ensures Good(Step(c, op)) && Pages(Step(c, op)) == PagesAfter(c, op)
    ensures op.Lookup? ==>
              var r := Answer(c, op).1;
              && (r.Missed? <==> op.key !in Pages(c))
              && (r.Hit? ==> op.key in Pages(c) && r.page == Pages(c)[op.key])
              && (op.key in Pages(c) ==>
                    (r.Hit? <==> Fresh(c.db[op.key].directives, RequestOf(op.req.cacheControl, op.t0), op.t1, op.t2)))
              && r != NoPage && r != Damaged
  {
    StepGood(c, op);
    match op
    case Save(_, _, _, _, _, _, _) =>
      SaveEnds(c, op);
      SaveRefinesMap(c, op, SaveResult(c, op).0, SaveResult(c, op).1);
    case Evict(keys) =>
      SweepEffect(c, keys);
      PagesKept(c, keys, Sweep(c, keys).cache);
    case Lookup(_, _, _, _, _) =>
      LookupEnds(c, op);
      LookupKeepsPages(c, op.key, Answer(c, op).0);
    case _ =>
  }

  /** The answer to a GET with status 200 to 399 that nobody forbids to store, written without faults. */
  predicate Savable(c: Cache, op: Op)
    requires op.Save?
  {
    && 200 <= op.resp.status < 400 && op.req.method_ == "GET"
    && "no-store" !in Trimmed(op.req.cacheControl)
    && "no-store" !in Trimmed(op.resp.cacheControl) && "private" !in Trimmed(op.resp.cacheControl)
    && c.size + |op.page.body| <= c.maxFileSize
    && (op.key in c.db || op.commits) && op.end == Written
  }

  /** Such a save always puts its page into the cache, over the page of an existing bucket too. */
  lemma SaveStores(c: Cache, op: Op)
    requires Good(c) && OpOk(op) && op.Save? && Savable(c, op)
    ensures Good(Step(c, op)) && Pages(Step(c, op)) == Pages(c)[op.key := op.page]
    ensures op.key in Step(c, op).db
    ensures op.key !in c.db ==>
              Step(c, op).db[op.key].directives == ResponseOf(op.resp.cacheControl, op.now)
  {
    InsertAnswers(c, op.key, op.req, op.resp, op.page, op.now, op.commits, op.end);
    SaveAnswers(c, op.key, op.req, op.resp, op.page, op.now, op.commits, op.end);
    StepGood(c, op);
    SaveEnds(c, op);
    SaveRefinesMap(c, op, Step(c, op), Some(Stored));
  }

  /**
   From a save to a lookup: a new page received with "max-age=n" is served to requests without
   Cache-Control for n seconds, to the nanosecond, and then no more.
   */
  lemma ServedForItsLifetime(c: Cache, save: Op, lookup: Op, n: nat)
    requires Good(c) && OpOk(save) && save.Save? && save.key !in c.db && Savable(c, save)
    requires 0 < n <= 9_223_372_036 && save.resp.cacheControl == "max-age" + "=" + Itoa(n)
    requires lookup.Lookup? && lookup.key == save.key && lookup.req.cacheControl == ""
    requires lookup.t2 > -62_135_596_800_000_000_000
    ensures Good(Step(c, save))
    ensures Answer(Step(c, save), lookup).1
         == if lookup.t1 <= save.now + n * 1_000_000_000 then Hit(save.page) else NotFresh
  {
    var d := Step(c, save);
    SaveStores(c, save);
    assert save.key in Pages(d) && Pages(d)[save.key] == save.page;
    LifetimeInSeconds(n, save.now);
    NothingAsked(lookup.t0);
    LookupAnswers(d, lookup.key, lookup.req, lookup.t0, lookup.t1, lookup.t2);
  }

  /** A request without Cache-Control is served whatever is stored until the recorded deadline. */
  lemma PlainLookup(c: Cache, op: Op)
    requires Good(c) && op.Lookup? && op.req.cacheControl == "" && op.key in c.db
    requires op.t2 > -62_135_596_800_000_000_000
    ensures var d := c.db[op.key].directives;
            var end := if d.sMaxAge != -62_135_596_800_000_000_000 then d.sMaxAge else d.maxAge;
            Answer(c, op).1 == if op.t1 <= end then Hit(Pages(c)[op.key]) else NotFresh
  {
    NothingAsked(op.t0);
    LookupAnswers(c, op.key, op.req, op.t0, op.t1, op.t2);
  }

  // ---------- Runs ----------

  ghost predicate Started(c0: Cache, ops: seq<Op>) {
    Good(c0) && c0.db == map[] && forall i :: 0 <= i < |ops| ==> OpOk(ops[i])
  }

  /** `states` are the successive states of the cache under `ops`. */
  ghost predicate Run(states: seq<Cache>, ops: seq<Op>) {
    && |states| == |ops| + 1
    && (forall i :: 0 <= i < |states| ==> Good(states[i]))
    && (forall i :: 0 <= i < |ops| ==> OpOk(ops[i]) && states[i + 1] == Step(states[i], ops[i]))
    && states[0].db == map[]
  }

  /** Every sequence of operations has a run, so nothing in `Run` excludes one. */
  lemma {:induction false} RunExists(c0: Cache, ops: seq<Op>) returns (states: seq<Cache>)
    requires Started(c0, ops)
    ensures Run(states, ops) && states[0] == c0
  {
    if ops == [] {
      states := [c0];
    } else {
      var init, op := ops[..|ops| - 1], ops[|ops| - 1];
      var before := RunExists(c0, init);
      var last := before[|before| - 1];
      StepGood(last, op);
      states := before + [Step(last, op)];
      forall i | 0 <= i < |ops| ensures states[i + 1] == Step(states[i], ops[i]) {
        if i < |init| {
          assert before[i + 1] == Step(before[i], init[i]);
        }
      }
    }
  }

  /** After every operation of every run the counter equals a recount, so a restart changes nothing. */
  lemma RestartRecovers(states: seq<Cache>, ops: seq<Op>, i: nat)
    requires Run(states, ops) && i < |states|
    ensures states[i].size == Total(states[i].db) == Total(OnDisk(states[i]))
    ensures Step(states[i], Restart) == states[i]
  {
    RecountAgrees(states[i]);
  }

  /** No sequential run exceeds maxFileSize. */
  lemma {:induction false} NeverTooLarge(states: seq<Cache>, ops: seq<Op>, i: nat)
    requires Run(states, ops) && i < |states| && states[0].maxFileSize >= 0
    ensures states[i].size <= states[i].maxFileSize == states[0].maxFileSize
  {
    if i == 0 {
      assert Sizes(states[0].db) == map[];
    } else {
      NeverTooLarge(states, ops, i - 1);
      StepGood(states[i - 1], ops[i - 1]);
    }
  }

  // ---------- The history of one key ----------

  ghost function ViewOf(c: Cache, k: Key): H.View
    requires Good(c)
  {
    if k in c.db then H.View(Some(c.db[k]), Uint32(c.db[k].uses), Some(c.tree.files[k].page))
    else H.View(None, 0, None)
  }

  /** The operation is a save of `k` that ends well. */
  ghost predicate Stores(c: Cache, op: Op, k: Key) {
    op.Save? && OpOk(op) && op.key == k && SaveResult(c, op).1 == Some(Stored)
  }

  ghost function EventOf(c: Cache, op: Op, k: Key): H.Event {
    if Stores(c, op, k) then H.Stores(op.req, op.resp, op.page, op.now)
    else if op.Lookup? && op.key == k then H.LooksUp
    else H.Other
  }

  lemma SaveOnKey(c: Cache, op: Op, d: Cache, r: Option<InsertResult>, k: Key, e: H.Event)
    requires Good(c) && Good(d) && op.Save? && SaveOutcome(c, op, d, r)
    requires e == if r == Some(Stored) && op.key == k then H.Stores(op.req, op.resp, op.page, op.now) else H.Other
    ensures H.Follows(ViewOf(c, k), e, ViewOf(d, k))
  {
    if op.key != k {
      assert k in d.db ==> k in c.db && d.tree.files[k] == c.tree.files[k] && d.db[k] == c.db[k];
    }
  }

  lemma LookupOnKey(c: Cache, key: Key, d: Cache, k: Key)
    requires Good(c) && Good(d) && LookupOutcome(c, key, d)
    ensures H.Follows(ViewOf(c, k), if key == k then H.LooksUp else H.Other, ViewOf(d, k))
  {
  }

  lemma EvictOnKey(c: Cache, keys: seq<Key>, d: Cache, k: Key)
    requires Good(c) && Good(d) && Without(c, keys, d)
    requires k in d.db ==> d.db[k] == c.db[k]
    ensures H.Follows(ViewOf(c, k), H.Other, ViewOf(d, k))
  {
  }

  lemma StepOnKey(c: Cache, op: Op, k: Key)
    requires Good(c) && OpOk(op) && Good(Step(c, op))
    ensures H.Follows(ViewOf(c, k), EventOf(c, op, k), ViewOf(Step(c, op), k))
  {
    match op
    case Save(_, _, _, _, _, _, _) =>
      SaveEnds(c, op);
      SaveOnKey(c, op, SaveResult(c, op).0, SaveResult(c, op).1, k, EventOf(c, op, k));
    case Lookup(_, _, _, _, _) =>
      LookupEnds(c, op);
      LookupOnKey(c, op.key, Answer(c, op).0, k);
    case Evict(keys) =>
      SweepEffect(c, keys);
      EvictOnKey(c, keys, Sweep(c, keys).cache, k);
    case _ =>
  }

  ghost function Views(states: seq<Cache>, k: Key): (views: seq<H.View>)
    requires forall i :: 0 <= i < |states| ==> Good(states[i])
    ensures |views| == |states| && forall i :: 0 <= i < |states| ==> views[i] == ViewOf(states[i], k)
  {
    seq(|states|, i requires 0 <= i < |states| => ViewOf(states[i], k))
  }

  ghost function Events(states: seq<Cache>, ops: seq<Op>, k: Key): (events: seq<H.Event>)
    requires |states| >= |ops|
    ensures |events| == |ops| && forall i :: 0 <= i < |ops| ==> events[i] == EventOf(states[i], ops[i], k)
  {
    seq(|ops|, i requires 0 <= i < |ops| => EventOf(states[i], ops[i], k))
  }

  /** Every run, seen from one key, is a history of that key. */
  lemma RunIsHistory(states: seq<Cache>, ops: seq<Op>, k: Key)
    requires Run(states, ops)
    ensures H.History(Views(states, k), Events(states, ops, k))
  {
    forall i | 0 <= i < |ops|
      ensures H.Follows(Views(states, k)[i], Events(states, ops, k)[i], Views(states, k)[i + 1])
    {
      assert Good(states[i + 1]);
      StepOnKey(states[i], ops[i], k);
    }
  }

  /** The operation number `b` made the bucket of `k` that is live after `i` operations. */
  ghost predicate MadeBucket(states: seq<Cache>, ops: seq<Op>, k: Key, b: nat, i: nat)
    requires Run(states, ops) && i < |states|
  {
    && b < i && Stores(states[b], ops[b], k) && k !in states[b].db
    && forall n :: b < n <= i ==> k in states[n].db
  }

  /** The operation number `j` is the last completed save of `k` before number `i`. */
  ghost predicate LastSave(states: seq<Cache>, ops: seq<Op>, k: Key, j: nat, i: nat)
    requires Run(states, ops) && i < |states|
  {
    && j < i && Stores(states[j], ops[j], k)
    && forall n :: j < n < i ==> !Stores(states[n], ops[n], k)
  }

  /** Number of lookups of `k` among the operations from `i` to `j`. */
  function Lookups(ops: seq<Op>, k: Key, i: nat, j: nat): nat
    requires i <= j <= |ops|
  {
    if i == j then 0
    else Lookups(ops, k, i, j - 1) + if ops[j - 1].Lookup? && ops[j - 1].key == k then 1 else 0
  }

  lemma {:induction false} LookupsAgree(states: seq<Cache>, ops: seq<Op>, k: Key, i: nat, j: nat)
    requires |states| >= |ops| && i <= j <= |ops|
    ensures H.Lookups(Events(states, ops, k), i, j) == Lookups(ops, k, i, j)
    decreases j
  {
    if i < j {
      LookupsAgree(states, ops, k, i, j - 1);
    }
  }

  /** The live bucket of `k` has a birth in the run, and records what was received then. */
  lemma BucketBorn(states: seq<Cache>, ops: seq<Op>, i: nat, k: Key) returns (born: nat)
    requires Run(states, ops) && i < |states| && k in states[i].db
    ensures MadeBucket(states, ops, k, born, i) && born == H.Born(Views(states, k), i)
    ensures ops[born].req.method_ == "GET" && 200 <= ops[born].resp.status < 400
    ensures !RequestOf(ops[born].req.cacheControl, ops[born].now).noStore
    ensures var d := states[i].db[k].directives;
            && d == ResponseOf(ops[born].resp.cacheControl, ops[born].now)
            && !d.noStore && !d.isPrivate
  {
    var views, events := Views(states, k), Events(states, ops, k);
    RunIsHistory(states, ops, k);
    H.Provenance(views, events, i);
    born := H.Born(views, i);
    assert events[born].Stores?;
    forall n | born < n <= i ensures k in states[n].db {
      assert views[n].bucket.Some?;
    }
    assert views[born].bucket.None?;
  }

  lemma LastStoredEvent(states: seq<Cache>, ops: seq<Op>, i: nat, k: Key) returns (last: nat)
    requires Run(states, ops) && i < |states| && k in states[i].db
    ensures H.LastStored(Events(states, ops, k), i) == Some(last) && H.Born(Views(states, k), i) <= last < i
    ensures states[i].tree.files[k].page == Events(states, ops, k)[last].page
  {
    var views, events := Views(states, k), Events(states, ops, k);
    RunIsHistory(states, ops, k);
    H.PageIsLastStored(views, events, i);
    last := H.LastStored(events, i).value;
  }

  /** The page of the live bucket of `k` is that of the last completed save, not before the bucket's birth. */
  lemma PageSaved(states: seq<Cache>, ops: seq<Op>, i: nat, k: Key) returns (last: nat)
    requires Run(states, ops) && i < |states| && k in states[i].db
    ensures LastSave(states, ops, k, last, i) && H.Born(Views(states, k), i) <= last
    ensures states[i].tree.files[k] == Whole(ops[last].page)
  {
    var events := Events(states, ops, k);
    last := LastStoredEvent(states, ops, i, k);
    assert events[last].Stores?;
    forall n | last < n < i ensures !Stores(states[n], ops[n], k) {
      assert !events[n].Stores?;
    }
  }

  /**
   The stored counter is, modulo 2^32, the number of lookups of the key since its bucket was made, over
   stale lookups and over saves that found the bucket in place.
   */
  lemma UsesCountLookups(states: seq<Cache>, ops: seq<Op>, i: nat, k: Key) returns (born: nat)
    requires Run(states, ops) && i < |states| && k in states[i].db
    ensures MadeBucket(states, ops, k, born, i)
    ensures Uint32(states[i].db[k].uses) == Lookups(ops, k, born + 1, i) % TWO_32
  {
    born := BucketBorn(states, ops, i, k);
    RunIsHistory(states, ops, k);
    H.UsesCountLookups(Views(states, k), Events(states, ops, k), i);
    LookupsAgree(states, ops, k, born + 1, i);
  }

  /** The clock never goes back between a save and a later lookup. */
  predicate ClockForward(ops: seq<Op>) {
    forall a, b :: 0 <= a < b < |ops| && ops[a].Save? && ops[b].Lookup? ==> ops[a].now <= ops[b].t1
  }

  /**
   Every hit of every run is justified: the page is that of the last completed save of the key; the
   bucket was made by a GET answered with status 200 to 399 that neither side marked no-store and the
   origin did not mark private; and the hit is within the lifetime recorded then (s-maxage before
   max-age, RFC 9111, section 4.2.1) plus the allowed staleness, which must-revalidate sets to zero.
   */
  lemma HitJustified(states: seq<Cache>, ops: seq<Op>, i: nat) returns (born: nat, last: nat)
    requires Run(states, ops) && ClockForward(ops) && i < |ops|
    requires ops[i].Lookup? && Answer(states[i], ops[i]).1.Hit?
    ensures born <= last
    ensures MadeBucket(states, ops, ops[i].key, born, i)
    ensures LastSave(states, ops, ops[i].key, last, i)
    ensures Answer(states[i], ops[i]).1.page == ops[last].page
    ensures ops[born].now <= ops[i].t1
    ensures ops[born].req.method_ == "GET" && 200 <= ops[born].resp.status < 400
    ensures var d := ResponseOf(ops[born].resp.cacheControl, ops[born].now);
            && !d.noStore && !d.isPrivate && !RequestOf(ops[born].req.cacheControl, ops[born].now).noStore
            && ops[i].t1 <= (if d.sMaxAge != NULL_TIME then d.sMaxAge else d.maxAge)
                 + (if d.mustRevalidate then 0 else RequestOf(ops[i].req.cacheControl, ops[i].t0).maxStale)
  {
    born := BucketBorn(states, ops, i, ops[i].key);
    last := PageSaved(states, ops, i, ops[i].key);
  }
}
