/** `DiskCache`: who may read, write and evict a cached resource, and what the totals count. */
module DiskCaches {

  type Id = string

  datatype LockState = Unlocked | Locked | Unlocking

  datatype Entry = Entry(lock: LockState, accessors: nat, size: nat, streams: nat)

  /** An open stream on a resource. */
  datatype Adapter = Adapter(id: Id, index: nat, writing: bool)

  const NEW_ENTRY: Entry := Entry(Unlocked, 0, 0, 0)

  predicate Idle(e: Entry) {
    e.lock == Unlocked && e.accessors == 0
  }

  // ---------- sums ----------

  function SizeOf(e: Entry): nat { e.size }

  function AccessorsOf(e: Entry): nat { e.accessors }

  ghost function Sum(m: map<Id, Entry>, f: Entry -> nat): nat {
    if m == map[] then 0
    else
      var k :| k in m;
      f(m[k]) + Sum(m - {k}, f)
  }

  lemma {:induction false} SumWithout(m: map<Id, Entry>, f: Entry -> nat, id: Id)
    requires id in m
    ensures Sum(m, f) == f(m[id]) + Sum(m - {id}, f)
  {
    var k :| k in m && Sum(m, f) == f(m[k]) + Sum(m - {k}, f);
    if k != id {
      SumWithout(m - {k}, f, id);
      SumWithout(m - {id}, f, k);
      assert m - {k} - {id} == m - {id} - {k};
    }
  }

  lemma SumWith(m: map<Id, Entry>, f: Entry -> nat, id: Id, e: Entry)
    ensures Sum(m[id := e], f) == f(e) + if id in m then Sum(m, f) - f(m[id]) else Sum(m, f)
  {
    SumWithout(m[id := e], f, id);
    if id in m {
      SumWithout(m, f, id);
      assert m[id := e] - {id} == m - {id};
    } else {
      assert m[id := e] - {id} == m;
    }
  }

  lemma SumsWith(m: map<Id, Entry>, id: Id, e: Entry)
    ensures Sum(m[id := e], SizeOf) == e.size + if id in m then Sum(m, SizeOf) - m[id].size else Sum(m, SizeOf)
    ensures Sum(m[id := e], AccessorsOf)
            == e.accessors + if id in m then Sum(m, AccessorsOf) - m[id].accessors else Sum(m, AccessorsOf)
    ensures id in m ==> m[id].size <= Sum(m, SizeOf) && m[id].accessors <= Sum(m, AccessorsOf)
  {
    SumWith(m, SizeOf, id, e);
    SumWith(m, AccessorsOf, id, e);
    if id in m {
      SumWithout(m, SizeOf, id);
      SumWithout(m, AccessorsOf, id);
    }
  }

  function Count(open: seq<Adapter>, id: Id): nat {
    if open == [] then 0 else Count(open[..|open| - 1], id) + if open[|open| - 1].id == id then 1 else 0
  }

  lemma CountSnoc(open: seq<Adapter>, a: Adapter, id: Id)
    ensures Count(open + [a], id) == Count(open, id) + if a.id == id then 1 else 0
  {
    assert (open + [a])[..|open|] == open;
  }

  function Without(open: seq<Adapter>, k: nat): seq<Adapter>
    requires k < |open|
  {
    open[..k] + open[k + 1..]
  }

  lemma {:induction false} CountWithout(open: seq<Adapter>, k: nat, id: Id)
    requires k < |open|
    ensures Count(open, id) == Count(Without(open, k), id) + if open[k].id == id then 1 else 0
    decreases |open|
  {
    var n := |open| - 1;
    if k == n {
      assert Without(open, k) == open[..n];
    } else {
      CountWithout(open[..n], k, id);
      assert Without(open, k) == Without(open[..n], k) + [open[n]];
      CountSnoc(Without(open[..n], k), open[n], id);
    }
  }

  lemma {:induction false} CountZero(open: seq<Adapter>, id: Id)
    ensures Count(open, id) == 0 <==> forall i :: 0 <= i < |open| ==> open[i].id != id
  {
    if open != [] {
      CountZero(open[..|open| - 1], id);
    }
  }

  // ---------- what is true of every reachable cache ----------

  /** The open adapters are what the entries count, readers only of unlocked resources and writers
  only of locked ones (or ones that wait for their writers to be unlocked). */
  ghost predicate Guarded(entries: map<Id, Entry>, open: seq<Adapter>) {
    && (forall id :: id in entries ==>
         entries[id].accessors == Count(open, id) && (entries[id].lock == Unlocking ==> entries[id].accessors > 0))
    && (forall i :: 0 <= i < |open| ==>
         open[i].id in entries && (open[i].writing <==> entries[open[i].id].lock != Unlocked))
  }

  /** Readers and writers never coexist on a resource. */
  lemma NoReaderBesideWriter(entries: map<Id, Entry>, open: seq<Adapter>, i: nat, j: nat)
    requires Guarded(entries, open) && i < |open| && j < |open| && open[i].id == open[j].id
    ensures open[i].writing == open[j].writing
  {
    assert open[i].id in entries && open[j].id in entries;
  }

  /** Entries can disappear, but only idle ones, and the others stay as they are. */
  ghost predicate OnlyIdleGone(before: map<Id, Entry>, after: map<Id, Entry>) {
    && (forall id :: id in after ==> id in before && after[id] == before[id])
    && (forall id :: id in before && id !in after ==> Idle(before[id]))
  }

  lemma EvictionIsGuarded(entries: map<Id, Entry>, open: seq<Adapter>, id: Id)
    requires Guarded(entries, open) && id in entries && Idle(entries[id])
    ensures Guarded(entries - {id}, open)
  {
    CountZero(open, id);
  }

  lemma OpenIsGuarded(entries: map<Id, Entry>, open: seq<Adapter>, a: Adapter, e: Entry)
    requires Guarded(entries, open) && a.id in entries
    requires e.lock == entries[a.id].lock && e.accessors == entries[a.id].accessors + 1
    requires a.writing <==> e.lock != Unlocked
    ensures Guarded(entries[a.id := e], open + [a])
  {
    forall id | id in entries[a.id := e]
      ensures entries[a.id := e][id].accessors == Count(open + [a], id)
    {
      CountSnoc(open, a, id);
    }
  }

  lemma RelockIsGuarded(entries: map<Id, Entry>, open: seq<Adapter>, id: Id, lock: LockState)
    requires Guarded(entries, open) && id in entries
    requires entries[id].lock != Unlocked || entries[id].accessors == 0
    requires lock == Unlocked ==> entries[id].accessors == 0
    requires lock == Unlocking ==> entries[id].accessors > 0
    ensures Guarded(entries[id := entries[id].(lock := lock)], open)
  {
    CountZero(open, id);
  }

  lemma CloseIsGuarded(entries: map<Id, Entry>, open: seq<Adapter>, k: nat, e: Entry)
    requires Guarded(entries, open) && k < |open|
    requires open[k].id in entries ==>
      e.accessors == entries[open[k].id].accessors - 1
      && (if entries[open[k].id].lock == Unlocking && e.accessors == 0 then e.lock == Unlocked
          else e.lock == entries[open[k].id].lock)
    ensures open[k].id in entries && entries[open[k].id].accessors > 0
    ensures Guarded(entries[open[k].id := e], Without(open, k))
  {
    var id, rest := open[k].id, Without(open, k);
    CountZero(open, id);
    forall i | i in entries[id := e]
      ensures entries[id := e][i].accessors == Count(rest, i)
    {
      CountWithout(open, k, i);
    }
    CountZero(rest, id);
    forall i | 0 <= i < |rest|
      ensures rest[i].id in entries && (rest[i].writing <==> entries[id := e][rest[i].id].lock != Unlocked)
    {
      assert rest[i] == open[if i < k then i else i + 1];
    }
  }

  // ---------- eviction ----------

  function Created(entries: map<Id, Entry>, id: Id): (r: map<Id, Entry>)
    ensures id in r
  {
    if id in entries then entries else entries[id := NEW_ENTRY]
  }

  function Left(entries: map<Id, Entry>, victims: seq<Id>): map<Id, Entry> {
    entries - (set v | v in victims)
  }

  function InUse(entries: map<Id, Entry>): map<Id, Entry> {
    map k | k in entries && !Idle(entries[k]) :: entries[k]
  }

  ghost predicate AllInUse(entries: map<Id, Entry>) {
    forall id :: id in entries ==> entries[id].lock != Unlocked || entries[id].accessors > 0
  }

  /** Idle resources are evicted one by one, each while the cache is overfull. */
  ghost predicate Eviction(entries: map<Id, Entry>, maxCache: nat, victims: seq<Id>) {
    && (forall i, j :: 0 <= i < j < |victims| ==> victims[i] != victims[j])
    && (forall i :: 0 <= i < |victims| ==> victims[i] in entries && Idle(entries[victims[i]]))
    && (forall i :: 0 <= i < |victims| ==> Sum(Left(entries, victims[..i]), SizeOf) > maxCache)
  }

  /** ... until it is not. */
  ghost predicate Relief(entries: map<Id, Entry>, maxCache: nat, victims: seq<Id>) {
    Eviction(entries, maxCache, victims) && Sum(Left(entries, victims), SizeOf) <= maxCache
  }

  lemma EvictionSnoc(entries: map<Id, Entry>, maxCache: nat, victims: seq<Id>, v: Id)
    requires Eviction(entries, maxCache, victims) && Sum(Left(entries, victims), SizeOf) > maxCache
    requires v in Left(entries, victims) && Idle(entries[v])
    ensures Eviction(entries, maxCache, victims + [v])
    ensures Left(entries, victims + [v]) == Left(entries, victims) - {v}
  {
    var longer := victims + [v];
    forall i | 0 <= i < |longer|
      ensures Sum(Left(entries, longer[..i]), SizeOf) > maxCache
    {
      assert longer[..i] == victims[..i];
      assert victims[..|victims|] == victims;
    }
  }

  lemma {:induction false} SumOfPart(part: map<Id, Entry>, m: map<Id, Entry>, f: Entry -> nat)
    requires forall k :: k in part ==> k in m && m[k] == part[k]
    ensures Sum(part, f) <= Sum(m, f)
    decreases |part|
  {
    if part != map[] {
      var k :| k in part;
      SumWithout(part, f, k);
      SumWithout(m, f, k);
      OneFewer(part, k);
      SumOfPart(part - {k}, m - {k}, f);
    }
  }

  /** An eviction that has begun can go on until the limit is met, if what is in use fits. */
  lemma {:induction false} GoOn(entries: map<Id, Entry>, maxCache: nat, victims: seq<Id>) returns (all: seq<Id>)
    requires Eviction(entries, maxCache, victims) && Sum(InUse(entries), SizeOf) <= maxCache
    ensures Relief(entries, maxCache, all) && victims <= all
    decreases |Left(entries, victims)|
  {
    var left := Left(entries, victims);
    if Sum(left, SizeOf) <= maxCache {
      return victims;
    }
    if forall k :: k in left ==> !Idle(left[k]) {
      SumOfPart(left, InUse(entries), SizeOf);
      assert false;
    }
    var v :| v in left && Idle(left[v]);
    EvictionSnoc(entries, maxCache, victims, v);
    OneFewer(left, v);
    all := GoOn(entries, maxCache, victims + [v]);
  }

  /** Which resource can be evicted while it is being locked: exactly when the cache is overfull, the
  resource is new or idle, and the resources in use leave the cache within its limit. */
  lemma CanDangle(entries: map<Id, Entry>, maxCache: nat, id: Id)
    ensures (exists victims :: Relief(Created(entries, id), maxCache, victims) && id in victims)
            <==> && Sum(entries, SizeOf) > maxCache
                 && (id in entries ==> Idle(entries[id]))
                 && Sum(InUse(entries), SizeOf) <= maxCache
  {
    var created := Created(entries, id);
    SumWith(entries, SizeOf, id, NEW_ENTRY);
    assert Sum(created, SizeOf) == Sum(entries, SizeOf);
    assert InUse(created) == InUse(entries);
    assert Left(created, []) == created;
    if victims :| Relief(created, maxCache, victims) && id in victims {
      assert victims[..0] == [];
      SumOfPart(InUse(created), Left(created, victims), SizeOf);
    }
    if Sum(created, SizeOf) > maxCache && Idle(created[id]) && Sum(InUse(created), SizeOf) <= maxCache {
      assert Eviction(created, maxCache, []);
      EvictionSnoc(created, maxCache, [], id);
      assert [] + [id] == [id];
      var victims := GoOn(created, maxCache, [id]);
      assert victims[0] == id;
    }
  }

  datatype LockResult = GotLock | Refused | Dangling

  class DiskCache {
    const maxCache: nat
    var entries: map<Id, Entry>
    var totalSize: nat
    var totalAccessors: nat
    ghost var open: seq<Adapter>

    /** A cache over the idle entries that InitializeEntries finds (they come with no open adapter). */
    constructor (maxCache: nat, entries: map<Id, Entry>, totalSize: nat)
      requires forall id :: id in entries ==> Idle(entries[id])
      requires totalSize == Sum(entries, SizeOf)
      ensures Valid() && open == [] && this.entries == entries && this.maxCache == maxCache
      ensures this.totalSize == totalSize && totalAccessors == 0
    {
      this.maxCache, this.entries, this.totalSize := maxCache, entries, totalSize;
      totalAccessors, open := 0, [];
      IdleSum(entries);
    }

    ghost predicate Valid()
      reads this
    {
      && Guarded(entries, open)
      && totalSize == Sum(entries, SizeOf)
      && totalAccessors == Sum(entries, AccessorsOf) == |open|
    }

    /** `LockResource`.  It fails on a locked resource and on one that is being read.  When the cache
    is overfull it evicts `victims` first, and if the resource itself is among them, the source goes
    on with a pointer to the removed entry (the result Dangling). */
    method LockResource(id: Id) returns (result: LockResult, ghost victims: seq<Id>, ghost gaveUp: bool)
      requires Valid()
      modifies this
      ensures Valid() && open == old(open)
      ensures var created := Created(old(entries), id);
        var e := created[id];
        var taken := e.lock == Locked || (e.lock == Unlocked && e.accessors > 0);
        && Eviction(created, maxCache, victims)
        && entries == (if result == GotLock then Left(created, victims)[id := e.(lock := Locked)]
                       else Left(created, victims))
        && (taken ==> result == Refused && victims == [])
        && (!taken && old(totalSize) <= maxCache ==> result == GotLock && victims == [])
        && (!taken && result == Refused ==> old(totalSize) > maxCache && (gaveUp || AllInUse(entries)))
        && (result == GotLock ==> id !in victims)
        && (result == Dangling ==> Idle(e) && id in victims && old(totalSize) > maxCache)
        && (result != Refused ==> totalSize <= maxCache)
        && (victims == [] ==> totalSize == old(totalSize))
      ensures result == GotLock ==> forall i :: 0 <= i < |open| && open[i].id == id ==> open[i].writing
    {
      hide Guarded, Sum, Count, Eviction, OnlyIdleGone;
      victims, gaveUp := [], false;
      NothingEvicted(Created(entries, id), maxCache);
      GetOrCreateEntry(id);
      var entry := entries[id];
      if entry.lock == Locked {
        return Refused, victims, gaveUp;
      }
      if entry.lock == Unlocked && entry.accessors > 0 {
        return Refused, victims, gaveUp;
      }
      if totalSize > maxCache {
        var ok;
        ok, victims, gaveUp := CheckLimit();
        if !ok {
          return Refused, victims, gaveUp;
        }
        if id !in entries {
          return Dangling, victims, gaveUp;
        }
      }
      SetLock(id, Locked);
      LockedHasWriters(entries, open, id);
      return GotLock, victims, gaveUp;
    }

    /** `GetOrCreateEntry` with `create`. */
    method GetOrCreateEntry(id: Id)
      requires Valid()
      modifies this`entries
      ensures Valid()
      ensures entries == Created(old(entries), id)
    {
      if id !in entries {
        CreateIsGuarded(entries, open, id);
        SumsWith(entries, id, NEW_ENTRY);
        hide Guarded, Sum;
        entries := entries[id := NEW_ENTRY];
      }
    }

    /** A change of the lock state alone. */
    method SetLock(id: Id, lock: LockState)
      requires Valid() && id in entries
      requires entries[id].lock != Unlocked || entries[id].accessors == 0
      requires lock == Unlocked ==> entries[id].accessors == 0
      requires lock == Unlocking ==> entries[id].accessors > 0
      modifies this`entries
      ensures Valid() && entries == old(entries)[id := old(entries)[id].(lock := lock)]
    {
      RelockIsGuarded(entries, open, id, lock);
      SumsWith(entries, id, entries[id].(lock := lock));
      hide Guarded, Sum;
      entries := entries[id := entries[id].(lock := lock)];
    }

    /** The accounts when an adapter is opened on an entry that becomes `e`. */
    method OpenAdapter(a: Adapter, e: Entry)
      requires Valid() && a.id in entries
      requires e.lock == entries[a.id].lock && e.accessors == entries[a.id].accessors + 1
      requires e.size <= entries[a.id].size && (a.writing <==> e.lock != Unlocked)
      modifies this
      ensures Valid()
      ensures entries == old(entries)[a.id := e] && open == old(open) + [a]
      ensures totalSize == old(totalSize) - (old(entries)[a.id].size - e.size)
    {
      OpenIsGuarded(entries, open, a, e);
      SumsWith(entries, a.id, e);
      hide Guarded, Sum;
      totalSize := totalSize - (entries[a.id].size - e.size);
      entries := entries[a.id := e];
      totalAccessors := totalAccessors + 1;
      open := open + [a];
    }

    /** The accounts when the adapter `open[k]` is closed and its entry becomes `e`. */
    method CloseAdapter(ghost k: nat, id: Id, e: Entry)
      requires Valid() && k < |open| && id == open[k].id
      requires id in entries ==>
        && e.accessors == entries[id].accessors - 1
        && (if entries[id].lock == Unlocking && e.accessors == 0 then e.lock == Unlocked
            else e.lock == entries[id].lock)
        && e.size >= entries[id].size
      modifies this
      ensures Valid() && id in old(entries)
      ensures entries == old(entries)[id := e] && open == Without(old(open), k)
      ensures totalSize == old(totalSize) + e.size - old(entries)[id].size
    {
      CloseAccounts(entries, open, k);
      CloseIsGuarded(entries, open, k, e);
      SumsWith(entries, id, e);
      hide Guarded, Sum;
      totalSize := totalSize + e.size - entries[id].size;
      entries := entries[id := e];
      totalAccessors := totalAccessors - 1;
      open := Without(open, k);
    }

    /** `WriteResource`: `fileSize` is the size of the file that is overwritten, `opens` whether it
    can be. */
    method WriteResource(id: Id, index: nat, fileSize: nat, opens: bool) returns (ok: bool)
      requires Valid() && id in entries
      modifies this
      ensures Valid()
      ensures ok <==> old(entries)[id].lock == Locked && opens
      ensures open == if ok then old(open) + [Adapter(id, index, true)] else old(open)
      ensures ok ==> var e := old(entries)[id];
        var previous := if fileSize > e.size then e.size else fileSize;
        && entries == old(entries)[id := e.(streams := if e.streams > index + 1 then e.streams else index + 1,
                                            size := e.size - previous, accessors := e.accessors + 1)]
        && totalSize == old(totalSize) - previous
      ensures !ok ==> entries == old(entries) && totalSize == old(totalSize)
    {
      var entry := entries[id];
      if entry.lock != Locked {
        return false;
      }
      var previousSize := if fileSize > entry.size then entry.size else fileSize;
      if !opens {
        return false;
      }
      var e := entry.(streams := if entry.streams > index + 1 then entry.streams else index + 1,
                      size := entry.size - previousSize, accessors := entry.accessors + 1);
      OpenAdapter(Adapter(id, index, true), e);
      return true;
    }

    /** `ReadResource`. */
    method ReadResource(id: Id, index: nat, opens: bool) returns (ok: bool)
      requires Valid() && id in entries
      modifies this
      ensures Valid() && totalSize == old(totalSize)
      ensures ok <==> old(entries)[id].lock == Unlocked && index < old(entries)[id].streams && opens
      ensures open == if ok then old(open) + [Adapter(id, index, false)] else old(open)
      ensures entries == if ok then old(entries)[id := old(entries)[id].(accessors := old(entries)[id].accessors + 1)]
                         else old(entries)
    {
      var entry := entries[id];
      if entry.lock != Unlocked || index >= entry.streams || !opens {
        return false;
      }
      var e := entry.(accessors := entry.accessors + 1);
      OpenAdapter(Adapter(id, index, false), e);
      return true;
    }

    /** `UnlockResource`: with writers still open the lock waits for them. */
    method UnlockResource(id: Id) returns (ok: bool)
      requires Valid() && id in entries
      modifies this
      ensures Valid() && open == old(open)
      ensures ok <==> old(entries)[id].lock == Locked
      ensures !ok ==> entries == old(entries)
      ensures ok && old(entries)[id].accessors > 0 ==>
        entries == old(entries)[id := old(entries)[id].(lock := Unlocking)]
      ensures ok && old(entries)[id].accessors == 0 ==>
        OnlyIdleGone(old(entries)[id := old(entries)[id].(lock := Unlocked)], entries)
    {
      if entries[id].lock != Locked {
        return false;
      }
      if entries[id].accessors > 0 {
        SetLock(id, Unlocking);
      } else {
        SetLock(id, Unlocked);
        var _, _, _ := CheckLimit();
      }
      return true;
    }

    /** `DeleteResource`: a resource in use is not deleted; otherwise the entry goes, even when its
    files stay (`filesGone` false). */
    method DeleteResource(id: Id, filesGone: bool) returns (ok: bool)
      requires Valid()
      modifies this`entries, this`totalSize
      ensures Valid()
      ensures id !in old(entries) ==> ok && entries == old(entries)
      ensures id in old(entries) && !Idle(old(entries)[id]) ==> !ok && entries == old(entries)
      ensures id in old(entries) && Idle(old(entries)[id]) ==> ok == filesGone && entries == old(entries) - {id}
      ensures id !in old(entries) || !Idle(old(entries)[id]) ==> totalSize == old(totalSize)
      ensures totalSize <= old(totalSize)
    {
      if id !in entries {
        return true;
      }
      if entries[id].lock != Unlocked || entries[id].accessors > 0 {
        return false;
      }
      EvictionIsGuarded(entries, open, id);
      SumWithout(entries, SizeOf, id);
      SumWithout(entries, AccessorsOf, id);
      totalSize := totalSize - entries[id].size;
      entries := entries - {id};
      return filesGone;
    }

    /** `CheckLimit`.  Which resource the scan picks is left open (any one, idle or not); a resource
    in use is never evicted.  It gives up when everything is in use, or on a resource that is, or whose
    files stay (`failed`). */
    method CheckLimit() returns (ok: bool, ghost victims: seq<Id>, ghost failed: bool)
      requires Valid()
      modifies this`entries, this`totalSize
      ensures Valid() && OnlyIdleGone(old(entries), entries)
      ensures Eviction(old(entries), maxCache, victims) && entries == Left(old(entries), victims)
      ensures ok ==> totalSize <= maxCache
      ensures old(totalSize) <= maxCache ==> ok && victims == []
      ensures victims == [] ==> totalSize == old(totalSize)
      ensures !ok ==> failed || (totalSize > maxCache && AllInUse(entries))
    {
      victims, failed := [], false;
      NothingEvicted(entries, maxCache);
      while totalSize > maxCache
        invariant Valid() && Eviction(old(entries), maxCache, victims) && entries == Left(old(entries), victims)
        invariant old(totalSize) <= maxCache ==> victims == []
        invariant victims == [] ==> totalSize == old(totalSize)
        decreases |entries|
      {
        if forall id :: id in entries ==> !Idle(entries[id]) {
          return false, victims, failed;  // all resources are locked
        }
        var victim :| victim in entries;
        var filesGone: bool := *;
        ghost var before := entries;
        ok := DeleteResource(victim, filesGone);
        if Idle(before[victim]) {
          EvictionSnoc(old(entries), maxCache, victims, victim);
          victims := victims + [victim];
        }
        if !ok {
          failed := true;
          return;
        }
        OneFewer(before, victim);
      }
      ok := true;
    }

    /** `ReleaseResource`, when the adapter `open[k]` is closed; `fileSize` is the size of its file.
    Its entry is always there. */
    method ReleaseResource(ghost k: nat, id: Id, fileSize: nat)
      requires Valid() && k < |open| && open[k].id == id
      modifies this
      ensures Valid() && open == Without(old(open), k)
      ensures id in old(entries) && old(entries)[id].accessors > 0
      ensures var e := old(entries)[id];
        var left := e.(accessors := e.accessors - 1);
        if e.lock == Unlocked then entries == old(entries)[id := left] && totalSize == old(totalSize)
        else if e.lock == Unlocking && left.accessors == 0 then
          OnlyIdleGone(old(entries)[id := left.(size := e.size + fileSize, lock := Unlocked)], entries)
        else entries == old(entries)[id := left.(size := e.size + fileSize)] && totalSize == old(totalSize) + fileSize
    {
      CloseAccounts(entries, open, k);
      var entry := entries[id];
      var e := entry.(accessors := entry.accessors - 1);
      if entry.lock != Unlocked {
        e := e.(size := e.size + fileSize);
      }
      var unlocks := e.lock == Unlocking && e.accessors == 0;
      if unlocks {
        e := e.(lock := Unlocked);
      }
      CloseAdapter(k, id, e);
      if unlocks {
        var _, _, _ := CheckLimit();
      }
    }

    /** `Purge`, once the files are gone: it forgets the entries but not their size, so the account is
    right afterwards exactly if it was empty. */
    method Purge(filesGone: bool) returns (ok: bool)
      requires Valid()
      modifies this`entries
      ensures ok <==> totalAccessors == 0 && filesGone
      ensures ok ==> entries == map[] && (Valid() <==> totalSize == 0)
      ensures !ok ==> entries == old(entries)
    {
      if totalAccessors > 0 || !filesGone {
        return false;
      }
      entries := map[];
      return true;
    }
  }

  lemma NothingEvicted(entries: map<Id, Entry>, maxCache: nat)
    ensures Left(entries, []) == entries && Eviction(entries, maxCache, [])
  {
  }

  lemma LockedHasWriters(entries: map<Id, Entry>, open: seq<Adapter>, id: Id)
    requires Guarded(entries, open) && id in entries && entries[id].lock != Unlocked
    ensures forall i :: 0 <= i < |open| && open[i].id == id ==> open[i].writing
  {
  }

  lemma OneFewer(m: map<Id, Entry>, id: Id)
    requires id in m
    ensures |m - {id}| < |m|
  {
    assert m == (m - {id})[id := m[id]];
  }

  lemma CreateIsGuarded(entries: map<Id, Entry>, open: seq<Adapter>, id: Id)
    requires Guarded(entries, open) && id !in entries
    ensures Guarded(entries[id := NEW_ENTRY], open)
  {
    CountZero(open, id);
  }

  lemma CloseAccounts(entries: map<Id, Entry>, open: seq<Adapter>, k: nat)
    requires Guarded(entries, open) && k < |open|
    ensures open[k].id in entries && entries[open[k].id].accessors > 0
    ensures Sum(entries, AccessorsOf) > 0
  {
    CountZero(open, open[k].id);
    SumWithout(entries, AccessorsOf, open[k].id);
  }

  lemma {:induction false} IdleSum(entries: map<Id, Entry>)
    requires forall id :: id in entries ==> Idle(entries[id])
    ensures Sum(entries, AccessorsOf) == 0
  {
    if entries != map[] {
      var k :| k in entries;
      SumWithout(entries, AccessorsOf, k);
      IdleSum(entries - {k});
    }
  }

  // ---------- where it goes wrong ----------

  const IDLE_A: Entry := Entry(Unlocked, 0, 5, 1)
  const GROWN_B: Entry := Entry(Locked, 0, 10, 1)

  /** A cache of 12 bytes reaches 15 by writing to "b", which stays locked, while "a" is idle. */
  method Overfill() returns (cache: DiskCache)
    ensures cache.Valid() && cache.maxCache == 12 && cache.open == []
    ensures cache.entries == map["a" := IDLE_A, "b" := GROWN_B] && cache.totalSize == 15
  {
    SumsOfA();
    hide Sum, Guarded, Count, Eviction, DiskCache.Valid;
    cache := new DiskCache(12, map["a" := IDLE_A], 5);
    var result, _, _ := cache.LockResource("b");
    assert cache.entries == Left(map["a" := IDLE_A, "b" := NEW_ENTRY], [])["b" := NEW_ENTRY.(lock := Locked)];
    var _ := cache.WriteResource("b", 0, 0, true);
    assert cache.open == [Adapter("b", 0, true)];
    cache.ReleaseResource(0, "b", 10);
  }

  lemma SumsOfA()
    ensures Sum(map["a" := IDLE_A], SizeOf) == 5 && Sum(map["a" := IDLE_A], AccessorsOf) == 0
  {
    SumsWith(map[], "a", IDLE_A);
    assert map[]["a" := IDLE_A] == map["a" := IDLE_A];
  }

  /** Locking "a" can then evict "a" itself (as the scan does if "a" is the older one). */
  lemma DanglingHappens()
    ensures var entries := map["a" := IDLE_A, "b" := GROWN_B];
      Relief(Created(entries, "a"), 12, ["a"])
  {
    var entries := map["a" := IDLE_A, "b" := GROWN_B];
    SumsOfA();
    SumsWith(map["a" := IDLE_A], "b", GROWN_B);
    assert map["a" := IDLE_A]["b" := GROWN_B] == entries;
    SumWithout(entries, SizeOf, "a");
    assert Left(entries, ["a"]) == entries - {"a"};
    NothingEvicted(entries, 12);
    EvictionSnoc(entries, 12, [], "a");
    assert [] + ["a"] == ["a"];
  }

  /** A quiet cache that is purged keeps counting what it no longer has. */
  method PurgeMiscounts() returns (cache: DiskCache)
    ensures cache.entries == map[] && cache.totalSize == 5 && !cache.Valid()
  {
    SumsOfA();
    cache := new DiskCache(12, map["a" := IDLE_A], 5);
    assert cache.totalAccessors == 0;
    var _ := cache.Purge(true);
  }
}
