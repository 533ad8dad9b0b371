/** The timed black and white list: a map from address to item, and a queue that owns the
    dynamic items, some of which the map no longer knows. Items are allocated in a store:
    reading one needs it allocated, and so does freeing it. */
module IpList {

  datatype Address = Address(text: string)

  datatype Entry = Static(white: bool) | Dynamic(time: int)

  type Pointer = nat

  /** A dynamic item that the map has forgotten has time zero. */
  datatype Item = Item(ip: Address, isStatic: bool, lastTime: int, white: bool) {
    predicate Forgotten() { lastTime == 0 }

    function Means(): Entry { if isStatic then Static(white) else Dynamic(lastTime) }
  }

  type Store = map<Pointer, Item>

  /** Every queued item is allocated, and is the one its address maps to unless forgotten. */
  ghost predicate QueueOk(store: Store, wls: map<Address, Pointer>, queue: seq<Pointer>, clock: int) {
    forall i :: 0 <= i < |queue| ==>
      && queue[i] in store
      && var x := store[queue[i]];
         !x.isStatic && 0 <= x.lastTime <= clock && (!x.Forgotten() ==> x.ip in wls && wls[x.ip] == queue[i])
  }

  /** Queued items are distinct, and those not forgotten stand in the order of their times. */
  ghost predicate InTimeOrder(store: Store, queue: seq<Pointer>) {
    forall i, j :: 0 <= i < j < |queue| ==>
      && queue[i] != queue[j]
      && (queue[i] in store && queue[j] in store && !store[queue[i]].Forgotten() && !store[queue[j]].Forgotten() ==>
            store[queue[i]].lastTime <= store[queue[j]].lastTime)
  }

  /** The map knows allocated items, by their addresses. */
  ghost predicate MapOk(store: Store, wls: map<Address, Pointer>) {
    forall ip :: ip in wls ==>
      wls[ip] in store && store[wls[ip]].ip == ip && (!store[wls[ip]].isStatic ==> !store[wls[ip]].Forgotten())
  }

  /** Every allocated item has one owner: the map, if static, else the queue. */
  ghost predicate Owned(store: Store, wls: map<Address, Pointer>, queue: seq<Pointer>) {
    forall p :: p in store ==>
      if store[p].isStatic then store[p].ip in wls && wls[store[p].ip] == p else p in queue
  }

  ghost predicate Consistent(store: Store, wls: map<Address, Pointer>, queue: seq<Pointer>, clock: int) {
    QueueOk(store, wls, queue, clock) && InTimeOrder(store, queue) && MapOk(store, wls) && Owned(store, wls, queue)
  }

  /** What the list means to its callers. */
  ghost function Entries(store: Store, wls: map<Address, Pointer>): map<Address, Entry>
    requires MapOk(store, wls)
  {
    map ip | ip in wls :: store[wls[ip]].Means()
  }

  /** The map may forget a dynamic item; the queue keeps it. */
  lemma ForgetKeeps(store: Store, wls: map<Address, Pointer>, queue: seq<Pointer>, clock: int, ip: Address)
    requires Consistent(store, wls, queue, clock) && ip in wls && !store[wls[ip]].isStatic
    ensures var forgot := store[wls[ip] := store[wls[ip]].(lastTime := 0)];
            && Consistent(forgot, wls - {ip}, queue, clock)
            && Entries(forgot, wls - {ip}) == Entries(store, wls) - {ip}
  {
  }

  /** The map owns a new static item. */
  lemma InsertKeeps(store: Store, wls: map<Address, Pointer>, queue: seq<Pointer>, clock: int, p: Pointer, x: Item)
    requires Consistent(store, wls, queue, clock) && p !in store && x.ip !in wls && x.isStatic
    ensures Consistent(store[p := x], wls[x.ip := p], queue, clock)
    ensures Entries(store[p := x], wls[x.ip := p]) == Entries(store, wls)[x.ip := Static(x.white)]
  {
  }

  /** The queue owns a new dynamic item, which is its youngest. */
  lemma AppendKeeps(store: Store, wls: map<Address, Pointer>, queue: seq<Pointer>, clock: int, p: Pointer, x: Item)
    requires Consistent(store, wls, queue, clock) && p !in store && x.ip !in wls && !x.isStatic
    requires x.lastTime >= clock && x.lastTime > 0
    ensures Consistent(store[p := x], wls[x.ip := p], queue + [p], x.lastTime)
    ensures Entries(store[p := x], wls[x.ip := p]) == Entries(store, wls)[x.ip := Dynamic(x.lastTime)]
  {
    assert forall q :: q in queue ==> q in queue + [p];
  }

  predicate Expired(e: Entry, now: int, timeout: int) {
    e.Dynamic? && now - e.time > timeout
  }

  lemma RecolourKeeps(store: Store, wls: map<Address, Pointer>, queue: seq<Pointer>, clock: int,
                      ip: Address, white: bool)
    requires Consistent(store, wls, queue, clock) && ip in wls && store[wls[ip]].isStatic
    ensures var to := store[wls[ip] := store[wls[ip]].(white := white)];
            && Consistent(to, wls, queue, clock)
            && Entries(to, wls) == Entries(store, wls)[ip := Static(white)]
  {
  }

  lemma PopOwned(store: Store, wls: map<Address, Pointer>, queue: seq<Pointer>, known: map<Address, Pointer>)
    requires queue != [] && queue[0] in store && Owned(store, wls, queue) && known == wls - {store[queue[0]].ip}
    requires forall p :: p in store && store[p].isStatic ==> store[p].ip != store[queue[0]].ip
    ensures Owned(store - {queue[0]}, known, queue[1..])
  {
    assert queue == [queue[0]] + queue[1..];
  }

  lemma PopOrder(store: Store, queue: seq<Pointer>)
    requires queue != [] && InTimeOrder(store, queue)
    ensures InTimeOrder(store - {queue[0]}, queue[1..])
    ensures forall i :: 0 <= i < |queue[1..]| ==> queue[1..][i] == queue[i + 1] != queue[0]
  {
  }

  /** A queue without its first item is consistent with a map that forgot the item. */
  lemma PopKnown(store: Store, wls: map<Address, Pointer>, queue: seq<Pointer>, clock: int)
    requires Consistent(store, wls, queue, clock) && queue != [] && !store[queue[0]].Forgotten()
    ensures var p, ip := queue[0], store[queue[0]].ip;
            && Consistent(store - {p}, wls - {ip}, queue[1..], clock)
            && Entries(store - {p}, wls - {ip}) == Entries(store, wls) - {ip}
  {
    PopOrder(store, queue);
    assert forall p :: p in store && store[p].isStatic ==> wls[store[p].ip] == p != queue[0];
    PopOwned(store, wls, queue, wls - {store[queue[0]].ip});
  }

  lemma PopForgotten(store: Store, wls: map<Address, Pointer>, queue: seq<Pointer>, clock: int)
    requires Consistent(store, wls, queue, clock) && queue != [] && store[queue[0]].Forgotten()
    ensures Consistent(store - {queue[0]}, wls, queue[1..], clock)
    ensures Entries(store - {queue[0]}, wls) == Entries(store, wls)
  {
    PopOrder(store, queue);
    PopRest(store, wls, queue);
  }

  lemma PopRest(store: Store, wls: map<Address, Pointer>, queue: seq<Pointer>)
    requires queue != [] && queue[0] in store && !store[queue[0]].isStatic && Owned(store, wls, queue)
    ensures Owned(store - {queue[0]}, wls, queue[1..])
  {
    assert queue == [queue[0]] + queue[1..];
  }

  /** The entries that a flush keeps. */
  ghost function Kept(v: map<Address, Entry>, now: int, timeout: int): map<Address, Entry> {
    map ip | ip in v && !Expired(v[ip], now, timeout) :: v[ip]
  }

  /** What is missing from v has expired in u. */
  ghost predicate Submap(u: map<Address, Entry>, v: map<Address, Entry>, now: int, timeout: int) {
    && (forall ip :: ip in v ==> ip in u && u[ip] == v[ip])
    && (forall ip :: ip in u && ip !in v ==> Expired(u[ip], now, timeout))
  }

  lemma SubmapStep(u: map<Address, Entry>, v: map<Address, Entry>, ip: Address, now: int, timeout: int)
    requires Submap(u, v, now, timeout) && ip in v && Expired(v[ip], now, timeout)
    ensures Submap(u, v - {ip}, now, timeout)
  {
  }

  lemma AllKept(u: map<Address, Entry>, v: map<Address, Entry>, now: int, timeout: int)
    requires Submap(u, v, now, timeout) && forall ip :: ip in v ==> !Expired(v[ip], now, timeout)
    ensures v == Kept(u, now, timeout)
  {
  }

  /** Once the head is too young to expire, every dynamic entry is. */
  lemma HeadIsOldest(store: Store, wls: map<Address, Pointer>, queue: seq<Pointer>, clock: int, now: int, timeout: int)
    requires Consistent(store, wls, queue, clock) && (queue != [] ==> now - store[queue[0]].lastTime <= timeout)
    ensures var v := Entries(store, wls); forall ip :: ip in v ==> !Expired(v[ip], now, timeout)
  {
    forall ip | ip in wls && !store[wls[ip]].isStatic
      ensures now - store[wls[ip]].lastTime <= timeout
    {
      assert wls[ip] in queue;
      var i :| 0 <= i < |queue| && queue[i] == wls[ip];
      assert i > 0 ==> queue[0] != queue[i];
    }
  }

  /** The listed addresses are those of the items that left the front of a queue, the last
      one first; the others are as they were. */
  ghost predicate Collected(queue: seq<Pointer>, store: Store, queue': seq<Pointer>, store': Store, ips: seq<Address>) {
    && |ips| <= |queue| && queue' == queue[|ips|..]
    && (forall i :: 0 <= i < |ips| ==> queue[i] in store && ips[|ips| - 1 - i] == store[queue[i]].ip)
    && (forall p :: p in store' ==> p in store && store'[p] == store[p])
  }

  lemma CollectedStep(queue: seq<Pointer>, store: Store, queue': seq<Pointer>, store': Store, ips: seq<Address>)
    requires Collected(queue, store, queue', store', ips) && queue' != [] && queue'[0] in store'
    ensures Collected(queue, store, queue'[1..], store' - {queue'[0]}, [store'[queue'[0]].ip] + ips)
  {
    assert queue'[0] == queue[|ips|];
  }

  /** v is u without the listed addresses, each listed once and dynamic in u. */
  ghost predicate Dropped(u: map<Address, Entry>, v: map<Address, Entry>, ips: seq<Address>) {
    && (forall ip :: ip in v ==> ip in u && u[ip] == v[ip])
    && (forall ip :: ip in u && ip !in v ==> ip in ips)
    && (forall i :: 0 <= i < |ips| ==> ips[i] in u && ips[i] !in v && u[ips[i]].Dynamic?)
    && (forall i, j :: 0 <= i < j < |ips| ==> ips[i] != ips[j])
  }

  lemma DroppedStep(u: map<Address, Entry>, v: map<Address, Entry>, ips: seq<Address>, ip: Address)
    requires Dropped(u, v, ips) && ip in v && v[ip].Dynamic?
    ensures Dropped(u, v - {ip}, ips + [ip])
  {
    var more := ips + [ip];
    forall a | a in u && a !in v - {ip} ensures a in more {
      if a != ip { assert a in ips; }
    }
  }

  class List {
    var wls: map<Address, Pointer>
    var queue: seq<Pointer>
    var store: Store
    var brk: Pointer
    ghost var clock: int

    ghost predicate Valid()
      reads this
    {
      && clock >= 0 && (forall p :: p in store ==> p < brk)
      && Consistent(store, wls, queue, clock)
    }

    ghost function View(): map<Address, Entry>
      reads this
      requires Valid()
    {
      Entries(store, wls)
    }

    constructor ()
      ensures Valid() && View() == map[] && store == map[]
    {
      wls, queue, store, brk, clock := map[], [], map[], 0, 0;
    }

    /** An item can be freed only while it is allocated. */
    method Free(p: Pointer)
      requires p in store
      modifies this`store
      ensures store == old(store) - {p}
    {
      store := store - {p};
    }

    /** A dynamic item leaves the map but not the queue. */
    method Forget(ip: Address)
      requires Valid() && ip in wls && !store[wls[ip]].isStatic
      modifies this`store, this`wls
      ensures Valid() && View() == old(View()) - {ip} && ip !in wls
    {
      ForgetKeeps(store, wls, queue, clock, ip);
      store, wls := store[wls[ip] := store[wls[ip]].(lastTime := 0)], wls - {ip};
    }

    method Remove(ip: Address) returns (found: bool)
      requires Valid()
      modifies this`store, this`wls
      ensures Valid() && found == (ip in old(View())) && View() == old(View()) - {ip}
    {
      if ip !in wls { return false; }
      if store[wls[ip]].isStatic {
        Free(wls[ip]);
        wls := wls - {ip};
      } else {
        Forget(ip);
      }
      return true;
    }

    method Insert(x: Item)
      requires Valid() && x.ip !in wls && x.isStatic
      modifies this`store, this`wls, this`brk
      ensures Valid() && View() == old(View())[x.ip := Static(x.white)]
    {
      InsertKeeps(store, wls, queue, clock, brk, x);
      store, wls, brk := store[brk := x], wls[x.ip := brk], brk + 1;
    }

    method Recolour(ip: Address, white: bool)
      requires Valid() && ip in wls && store[wls[ip]].isStatic
      modifies this`store
      ensures Valid() && View() == old(View())[ip := Static(white)]
    {
      RecolourKeeps(store, wls, queue, clock, ip, white);
      store := store[wls[ip] := store[wls[ip]].(white := white)];
    }

    method AddStatic(ip: Address, white: bool)
      requires Valid()
      modifies this`store, this`wls, this`brk
      ensures Valid() && View() == old(View())[ip := Static(white)]
    {
      if ip in wls {
        if store[wls[ip]].isStatic {
          Recolour(ip, white);
          return;
        }
        Forget(ip);
      }
      Insert(Item(ip, true, 0, white));
    }

    method Append(x: Item)
      requires Valid() && x.ip !in wls && !x.isStatic && x.lastTime >= clock && x.lastTime > 0
      modifies this
      ensures Valid() && View() == old(View())[x.ip := Dynamic(x.lastTime)]
    {
      AppendKeeps(store, wls, queue, clock, brk, x);
      store, wls, queue := store[brk := x], wls[x.ip := brk], queue + [brk];
      brk, clock := brk + 1, x.lastTime;
    }

    method AddDynamic(ip: Address, now: int) returns (added: bool)
      requires Valid() && now >= clock && now > 0
      modifies this
      ensures Valid() && added == (ip !in old(View()))
      ensures View() == if added then old(View())[ip := Dynamic(now)] else old(View())
    {
      if ip in wls { return false; }
      Append(Item(ip, false, now, false));
      return true;
    }

    /** The head of the queue leaves it and is freed, and leaves the map too if the map
        still knows it. */
    method Pop() returns (x: Item)
      requires Valid() && queue != []
      modifies this`store, this`wls, this`queue
      ensures x == old(store[queue[0]]) && queue == old(queue)[1..] && store == old(store) - {old(queue[0])}
      ensures Valid() && View() == if x.Forgotten() then old(View()) else old(View()) - {x.ip}
      ensures !x.Forgotten() ==> x.ip in old(View()) && old(View())[x.ip] == Dynamic(x.lastTime)
    {
      x := store[queue[0]];
      if !x.Forgotten() {
        PopKnown(store, wls, queue, clock);
        wls := wls - {x.ip};
      } else {
        PopForgotten(store, wls, queue, clock);
      }
      Free(queue[0]);
      queue := queue[1..];
    }

    /** Flush drops exactly the dynamic entries older than the timeout. */
    method Flush(now: int, timeout: int) returns (unblocked: seq<Address>)
      requires Valid()
      modifies this`store, this`wls, this`queue
      ensures Valid() && View() == Kept(old(View()), now, timeout)
      ensures Collected(old(queue), old(store), queue, store, unblocked)
    {
      unblocked := [];
      while queue != [] && now - store[queue[0]].lastTime > timeout
        invariant Valid() && Submap(old(View()), View(), now, timeout)
        invariant Collected(old(queue), old(store), queue, store, unblocked)
        decreases |queue|
      {
        CollectedStep(old(queue), old(store), queue, store, unblocked);
        ghost var meant := View();
        var x := Pop();
        if !x.Forgotten() { SubmapStep(old(View()), meant, x.ip, now, timeout); }
        unblocked := [x.ip] + unblocked;
      }
      HeadIsOldest(store, wls, queue, clock, now, timeout);
      AllKept(old(View()), View(), now, timeout);
    }

    /** Every dynamic entry goes, and what is static stays whatever its address was before. */
    method ClearDynamic() returns (count: nat, unblocked: seq<Address>)
      requires Valid()
      modifies this`store, this`wls, this`queue
      ensures Valid() && Dropped(old(View()), View(), unblocked) && count == |unblocked|
      ensures forall ip :: ip in View() ==> View()[ip].Static?
    {
      count, unblocked := 0, [];
      while queue != []
        invariant Valid() && Dropped(old(View()), View(), unblocked) && count == |unblocked|
        decreases |queue|
      {
        ghost var meant := View();
        var x := Pop();
        if !x.Forgotten() {
          DroppedStep(old(View()), meant, unblocked, x.ip);
          count, unblocked := count + 1, unblocked + [x.ip];
        }
      }
      assert forall ip :: ip in wls ==> wls[ip] !in queue;
    }

    /** The destructor: with the static items through the map and the others through the
        queue, every item is freed, and freed once. */
    method Clear()
      requires Valid()
      modifies this
      ensures Valid() && store == map[] && View() == map[] && clock == old(clock)
    {
      var keys := wls.Keys;
      while keys != {}
        invariant keys <= wls.Keys
        invariant wls == old(wls) && queue == old(queue) && clock == old(clock)
        invariant forall p :: p in store ==> p in old(store) && store[p] == old(store)[p]
        invariant forall p :: p in old(store) ==> (p in store <==> !old(store)[p].isStatic || old(store)[p].ip in keys)
        decreases keys
      {
        var ip :| ip in keys;
        keys := keys - {ip};
        if store[wls[ip]].isStatic { Free(wls[ip]); }
      }
      wls := map[];
      while queue != []
        invariant wls == map[] && clock == old(clock)
        invariant forall i, j :: 0 <= i < j < |queue| ==> queue[i] != queue[j]
        invariant forall p :: p in store <==> p in queue
        decreases |queue|
      {
        Free(queue[0]);
        queue := queue[1..];
      }
      assert store == map[];
    }

    /** find: whether the address is listed and not white. */
    method Find(ip: Address, now: int, timeout: int, flush: bool) returns (blocked: bool)
      requires Valid()
      modifies this`store, this`wls, this`queue
      ensures Valid() && View() == if flush then Kept(old(View()), now, timeout) else old(View())
      ensures blocked == (ip in View() && View()[ip] != Static(true))
    {
      if flush {
        var _ := Flush(now, timeout);
      }
      if ip !in wls { return false; }
      return !(store[wls[ip]].isStatic && store[wls[ip]].white);
    }
  }
}
