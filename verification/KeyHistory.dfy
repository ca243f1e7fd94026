/**
 The history of one cache key, apart from all others: what its live bucket and page are after each
 operation, and which operations stored or looked it up. Facts about whole runs are proved here from
 the single-step relation `Follows`; CacheRuns.dfy shows that every run of the cache is such a history.
 */
module KeyHistory {
  import opened Wrappers
  import opened UseCounter
  import opened CacheControl
  import opened RequestDirectives
  import opened ResponseDirectives
  import opened PageTree
  import opened CacheModel

  /** The live bucket of the key, if any, the number its use counter holds, and the page a hit returns. */
  datatype View = View(bucket: Option<Bucket>, count: nat, page: Option<Page>)

  datatype Event =
    | Stores(req: Request, resp: Response, page: Page, now: Time) // a save that ended well
    | LooksUp
    | Other

  ghost predicate Follows(v: View, e: Event, w: View) {
    w.bucket.Some? ==>
      && (e.Stores? ==> w.page == Some(e.page))
      && (!e.Stores? ==> v.bucket.Some? && w.page == v.page)
      && (v.bucket.None? ==>
            && 200 <= e.resp.status < 400 && Storable(e.req, e.resp, e.now)
            && w.bucket == Some(NewBucket(e.page, e.resp, e.now)) && w.count == 0)
      && (v.bucket.Some? ==>
            && w.bucket.value == v.bucket.value.(uses := w.bucket.value.uses)
            && w.count == (v.count + if e.LooksUp? then 1 else 0) % TWO_32)
  }

  ghost predicate History(views: seq<View>, events: seq<Event>) {
    && |views| == |events| + 1
    && views[0].bucket.None?
    && forall i :: 0 <= i < |events| ==> Follows(views[i], events[i], views[i + 1])
  }

  /** The index of the event that made the bucket live after `i` events. */
  ghost function Born(views: seq<View>, i: nat): (b: nat)
    requires i < |views| && views[0].bucket.None? && views[i].bucket.Some?
    ensures b < i && views[b].bucket.None?
    ensures forall n :: b < n <= i ==> views[n].bucket.Some?
  {
    if views[i - 1].bucket.Some? then Born(views, i - 1) else i - 1
  }

  /** The index of the last storing event among the first `i`, if there is one. */
  ghost function LastStored(events: seq<Event>, i: nat): (j: Option<nat>)
    requires i <= |events|
    ensures j.Some? ==> j.value < i && events[j.value].Stores?
    ensures forall n :: (if j.Some? then j.value + 1 else 0) <= n < i ==> !events[n].Stores?
  {
    if i == 0 then None else if events[i - 1].Stores? then Some(i - 1) else LastStored(events, i - 1)
  }

  function Lookup(e: Event): nat {
    if e.LooksUp? then 1 else 0
  }

  /** How many of the events from `i` to `j` look the key up. */
  function Lookups(events: seq<Event>, i: nat, j: nat): nat
    requires i <= j <= |events|
  {
    if i == j then 0 else Lookups(events, i, j - 1) + Lookup(events[j - 1])
  }

  /** The live bucket records what the save that made it recorded, however often the key was saved since. */
  lemma {:induction false} Provenance(views: seq<View>, events: seq<Event>, i: nat)
    requires History(views, events) && i < |views| && views[i].bucket.Some?
    ensures var e := events[Born(views, i)];
            && e.Stores? && 200 <= e.resp.status < 400 && Storable(e.req, e.resp, e.now)
            && views[i].bucket.value.size == |e.page.body|
            && views[i].bucket.value.directives == ResponseOf(e.resp.cacheControl, e.now)
    decreases i
  {
    assert Follows(views[i - 1], events[i - 1], views[i]);
    if views[i - 1].bucket.Some? {
      Provenance(views, events, i - 1);
    }
  }

  lemma CountedOn(x: nat, y: nat, d: nat)
    requires x == y % TWO_32
    ensures (x + d) % TWO_32 == (y + d) % TWO_32
  {
  }

  /** What one event does to the number in the use counter. */
  lemma CountStep(views: seq<View>, events: seq<Event>, i: nat)
    requires History(views, events) && i < |views| && views[i].bucket.Some?
    ensures i > 0
    ensures views[i].count
         == if views[i - 1].bucket.Some? then (views[i - 1].count + Lookup(events[i - 1])) % TWO_32 else 0
  {
    assert Follows(views[i - 1], events[i - 1], views[i]);
  }

  /** The use counter is the number of lookups since the bucket was made, modulo 2^32. */
  lemma {:induction false} UsesCountLookups(views: seq<View>, events: seq<Event>, i: nat)
    requires History(views, events) && i < |views| && views[i].bucket.Some?
    ensures views[i].count == Lookups(events, Born(views, i) + 1, i) % TWO_32
    decreases i
  {
    CountStep(views, events, i);
    if views[i - 1].bucket.Some? {
      var b := Born(views, i - 1);
      UsesCountLookups(views, events, i - 1);
      CountedOn(views[i - 1].count, Lookups(events, b + 1, i - 1), Lookup(events[i - 1]));
    }
  }

  /** The page of a live bucket is that of the last completed save, at or after the bucket's birth. */
  lemma {:induction false} PageIsLastStored(views: seq<View>, events: seq<Event>, i: nat)
    requires History(views, events) && i < |views| && views[i].bucket.Some?
    ensures var j := LastStored(events, i);
            j.Some? && Born(views, i) <= j.value && views[i].page == Some(events[j.value].page)
    decreases i
  {
    assert Follows(views[i - 1], events[i - 1], views[i]);
    if views[i - 1].bucket.Some? {
      PageIsLastStored(views, events, i - 1);
    }
  }
}
