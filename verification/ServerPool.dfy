/** The backends with their bounded request channels, and the pool that scans them cyclically. */
module ServerPool {
  import opened Wrappers
  import RR = RoundRobin

  class Backend {
    const url: string
    /** The capacity of the request channel. */
    const maximalRequests: nat
    var alive: bool
    /** How many items the request channel holds. */
    var requests: nat

    ghost predicate Valid()
      reads this
    {
      requests <= maximalRequests
    }

    /** NewBackend: not alive until a health check succeeds, with an empty channel. */
    constructor (url: string, maximalRequests: nat)
      ensures Valid() && !alive && requests == 0
      ensures this.url == url && this.maximalRequests == maximalRequests
    {
      this.url, this.maximalRequests, alive, requests := url, maximalRequests, false, 0;
    }

    /**
     AssignRequest: put an item into the channel. `busy` says that other requests keep the channel full
     until the timer fires.
     */
    method AssignRequest(busy: bool) returns (ok: bool)
      requires Valid()
      modifies this`requests
      ensures Valid() && (ok <==> !busy && old(requests) < maximalRequests)
      ensures requests == old(requests) + if ok then 1 else 0
    {
      if busy || requests == maximalRequests {
        return false;
      }
      requests := requests + 1;
      return true;
    }

    /** Free: take an item out of the channel if there is one. */
    method Free() returns (ok: bool)
      requires Valid()
      modifies this`requests
      ensures Valid() && (ok <==> old(requests) > 0)
      ensures requests == old(requests) - if ok then 1 else 0
    {
      if requests == 0 {
        return false;
      }
      requests := requests - 1;
      return true;
    }

    method SetAlive(alive: bool)
      modifies this`alive
      ensures this.alive == alive
    {
      this.alive := alive;
    }
  }

  class ServerPool {
    var servers: seq<Backend>
    var current: int

    /** The pointer starts at -1; a removal may leave it beyond the last server. */
    ghost predicate Valid()
      reads this
    {
      current >= -1
    }

    /** Which of the servers are alive. */
    ghost function Mask(): (mask: RR.Mask)
      reads this, servers
      ensures |mask| == |servers| && forall i :: 0 <= i < |servers| ==> mask[i] == servers[i].alive
    {
      seq(|servers|, i requires 0 <= i < |servers| reads this, servers => servers[i].alive)
    }

    /** The first alive server after the pointer in cyclic order. */
    ghost function Due(): Option<Backend>
      requires Valid()
      reads this, servers
    {
      var i := RR.Next(Mask(), current);
      if i.None? then None else Some(servers[i.value])
    }

    lemma DueIsAlive()
      requires Valid()
      ensures Due().None? <==> forall b :: b in servers ==> !b.alive
      ensures Due().Some? ==> Due().value in servers && Due().value.alive
    {
      var mask := Mask();
      assert forall i :: 0 <= i < |servers| ==> mask[i] == servers[i].alive;
    }

    constructor ()
      ensures Valid() && servers == [] && current == -1
    {
      servers, current := [], -1;
    }

    method IncrementCurrent()
      modifies this`current
      ensures current == RR.Successor(old(current), |servers|)
    {
      current := current + 1;
      if current >= |servers| {
        current := 0;
      }
    }

    method AddServer(b: Backend)
      requires Valid()
      modifies this`servers
      ensures Valid() && servers == old(servers) + [b]
    {
      servers := servers + [b];
    }

    method FindServerByUrl(url: string) returns (b: Option<Backend>)
      ensures b.None? <==> forall i :: 0 <= i < |servers| ==> servers[i].url != url
      ensures b.Some? ==> b.value in servers && b.value.url == url
    {
      for i := 0 to |servers|
        invariant forall j :: 0 <= j < i ==> servers[j].url != url
      {
        if servers[i].url == url {
          return Some(servers[i]);
        }
      }
      return None;
    }

    /** The first server with the URL goes; the pointer stays where it is. */
    method RemoveServerByUrl(url: string) returns (ok: bool, ghost k: nat)
      requires Valid()
      modifies this`servers
      ensures Valid()
      ensures ok <==> exists i :: 0 <= i < |old(servers)| && old(servers)[i].url == url
      ensures !ok ==> servers == old(servers)
      ensures ok ==>
                && k < |old(servers)| && old(servers)[k].url == url
                && (forall i :: 0 <= i < k ==> old(servers)[i].url != url)
                && servers == old(servers)[..k] + old(servers)[k + 1..]
    {
      k := 0;
      for i := 0 to |servers|
        invariant servers == old(servers)
        invariant forall j :: 0 <= j < i ==> servers[j].url != url
      {
        if servers[i].url == url {
          k := i;
          servers := servers[..i] + servers[i + 1..];
          return true, k;
        }
      }
      return false, k;
    }

    /**
     GetNextPeer: pick the first alive server after the pointer in cyclic order and leave the pointer on
     it; fail only if no server is alive. The scan never leaves the list.
     */
    method GetNextPeer() returns (b: Option<Backend>)
      requires Valid()
      modifies this`current
      ensures Valid() && current == RR.Pointer(Mask(), old(current))
      ensures b == old(Due())
      ensures b.Some? ==> b.value in servers && b.value.alive && b.value == servers[current]
      ensures b.None? <==> forall s :: s in servers ==> !s.alive
      ensures servers != [] ==> 0 <= current < |servers|
      ensures b.None? && servers != [] ==>
                current == if old(current) < 0 || old(current) >= |servers| then |servers| - 1 else old(current)
    {
      ghost var n, mask := |servers|, Mask();
      ghost var start := RR.Successor(current, n);
      for i := 0 to |servers|
        invariant i == 0 ==> current == old(current)
        invariant i > 0 ==> current == RR.Shifted(n, start, i - 1)
        invariant forall d: nat :: d < i ==> !mask[RR.Shifted(n, start, d)]
      {
        IncrementCurrent();
        assert current == RR.Shifted(n, start, i);
        if servers[current].alive {
          RR.ScanFinds(mask, old(current), i);
          assert Mask() == mask && mask[current];
          return Some(servers[current]);
        }
      }
      if servers != [] {
        RR.ScanEnds(mask, old(current));
      }
      assert Mask() == mask && forall k :: 0 <= k < n ==> mask[k] == servers[k].alive;
      return None;
    }
  }
}
