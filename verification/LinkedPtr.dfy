/** `linked_ptr`: shared ownership without a counter.  The pointers to one object are linked into a
ring, and the one that finds itself alone deletes the object. */
module LinkedPtrs {

  class Managed {}

  class LinkedPtr {
    var ptr: Managed?
    var prev: LinkedPtr?
    var next: LinkedPtr?

    constructor ()
      ensures ptr == null && prev == null && next == null
    {
      ptr, prev, next := null, null, null;
    }

    predicate Unique()
      reads this
    {
      prev == null || prev == this
    }
  }

  ghost predicate Linked(a: LinkedPtr, b: LinkedPtr)
    reads a, b
  {
    a.next == b && b.prev == a
  }

  /** The members of `ring`, in this order, form one circular doubly linked list, and all point to
  the same object. */
  ghost predicate RingOk(ring: seq<LinkedPtr>)
    reads ring
  {
    && ring != []
    && (forall i, j :: 0 <= i < j < |ring| ==> ring[i] != ring[j])
    && (forall i :: 0 <= i < |ring| - 1 ==> Linked(ring[i], ring[i + 1]))
    && Linked(ring[|ring| - 1], ring[0])
    && (forall i :: 0 <= i < |ring| ==> ring[i].ptr == ring[0].ptr)
  }

  /** A ring has no first member: it can be turned so that any member comes first. */
  lemma Turn(ring: seq<LinkedPtr>, k: nat) returns (turned: seq<LinkedPtr>)
    requires RingOk(ring) && k < |ring|
    ensures RingOk(turned) && turned[0] == ring[k] && |turned| == |ring|
    ensures forall x :: x in turned <==> x in ring
    decreases k
  {
    if k == 0 {
      turned := ring;
    } else {
      var n := |ring|;
      var once := ring[1..] + [ring[0]];
      assert forall i :: 0 <= i < n - 1 ==> once[i] == ring[i + 1];
      forall i | 0 <= i < n - 1
        ensures Linked(once[i], once[i + 1])
      {
        if i < n - 2 { assert Linked(ring[i + 1], ring[i + 1 + 1]); }
      }
      assert Linked(ring[0], ring[0 + 1]);
      assert ring == [ring[0]] + ring[1..];
      turned := Turn(once, k - 1);
    }
  }

  lemma SingleRing(x: LinkedPtr)
    requires x.prev == x && x.next == x
    ensures RingOk([x])
  {
  }

  lemma Rest(ring: seq<LinkedPtr>)
    requires RingOk(ring)
    ensures forall y :: y in ring[1..] <==> y in ring && y != ring[0]
  {
    assert ring == [ring[0]] + ring[1..];
    assert forall i :: 0 < i < |ring| ==> ring[i] != ring[0];
  }

  /** The pointer surgery of `release`, for a pointer that is not alone. */
  method Unlink(x: LinkedPtr, ghost ring: seq<LinkedPtr>)
    requires RingOk(ring) && x == ring[0] && |ring| > 1
    modifies ring
    ensures RingOk(ring[1..]) && x.prev == null && x.next == null
    ensures forall y :: y in ring ==> y.ptr == old(y.ptr)
  {
    ghost var n := |ring|;
    assert Linked(ring[0], ring[0 + 1]) && Linked(ring[n - 1], ring[0]);
    x.prev.next := x.next;
    x.next.prev := x.prev;
    x.prev, x.next := null, null;
    ghost var rest := ring[1..];
    forall i | 0 <= i < n - 2
      ensures Linked(rest[i], rest[i + 1])
    {
      assert old(Linked(ring[i + 1], ring[i + 1 + 1]));
    }
  }

  /** The pointer surgery of `acquire`. */
  method LinkAfter(x: LinkedPtr, r: LinkedPtr, ghost ring: seq<LinkedPtr>)
    requires RingOk(ring) && r == ring[0] && x !in ring
    modifies x, ring
    ensures RingOk([r, x] + ring[1..]) && x.ptr == r.ptr && x.prev == r && r.next == x
    ensures forall y :: y in ring ==> y.ptr == old(y.ptr)
  {
    ghost var n := |ring|;
    assert n > 1 ==> Linked(ring[0], ring[0 + 1]);
    x.ptr := r.ptr;
    x.next := r.next;
    x.next.prev := x;
    x.prev := r;
    r.next := x;
    ghost var longer := [r, x] + ring[1..];
    forall i | 0 <= i < n
      ensures Linked(longer[i], longer[i + 1])
    {
      if i >= 2 {
        assert old(Linked(ring[i - 1], ring[i - 1 + 1]));
      }
    }
  }

  /** Rings whose members have not changed are still rings. */
  twostate lemma StillRings(rings: set<seq<LinkedPtr>>)
    requires forall s :: s in rings ==> old(RingOk(s))
    requires forall s, y :: s in rings && y in s ==>
      y.ptr == old(y.ptr) && y.prev == old(y.prev) && y.next == old(y.next)
    ensures forall s :: s in rings ==> RingOk(s)
  {
    forall s | s in rings
      ensures RingOk(s)
    {
      assert forall i :: 0 <= i < |s| ==> s[i] in s;
      forall i | 0 <= i < |s| - 1
        ensures Linked(s[i], s[i + 1])
      {
        assert old(Linked(s[i], s[i + 1]));
      }
    }
  }

  /** `live` is partitioned into `rings`. */
  ghost predicate Partition(live: set<LinkedPtr>, rings: set<seq<LinkedPtr>>) {
    && (forall r :: r in rings ==> r != [])
    && (forall r, x :: r in rings && x in r ==> x in live)
    && (forall x :: x in live ==> exists r :: r in rings && x in r)
    && (forall r, s, x :: r in rings && s in rings && x in r && x in s ==> r == s)
  }

  lemma PartitionWithout(live: set<LinkedPtr>, rings: set<seq<LinkedPtr>>, ring: seq<LinkedPtr>, x: LinkedPtr,
                         rest: seq<LinkedPtr>)
    requires Partition(live, rings) && ring in rings && x in ring
    requires forall y :: y in rest <==> y in ring && y != x
    ensures Partition(live - {x}, if rest == [] then rings - {ring} else rings - {ring} + {rest})
  {
    var rings' := if rest == [] then rings - {ring} else rings - {ring} + {rest};
    forall y | y in live - {x}
      ensures exists r :: r in rings' && y in r
    {
      var r :| r in rings && y in r;
      if r == ring {
        assert y in rest && rest in rings';
      } else {
        assert r in rings';
      }
    }
  }

  lemma PartitionWith(live: set<LinkedPtr>, rings: set<seq<LinkedPtr>>, ring: seq<LinkedPtr>, x: LinkedPtr,
                      longer: seq<LinkedPtr>)
    requires Partition(live, rings) && (ring == [] || ring in rings) && x !in live
    requires forall y :: y in longer <==> y in ring || y == x
    ensures Partition(live + {x}, rings - {ring} + {longer})
    ensures ring == [] ==> rings - {ring} == rings
  {
    var rings' := rings - {ring} + {longer};
    assert x in longer;
    forall y | y in live + {x}
      ensures exists r :: r in rings' && y in r
    {
      if y in longer {
        assert longer in rings';
      } else {
        var r :| r in rings && y in r;
        assert r in rings';
      }
    }
  }

  /** Pointers to the same object are in the same ring. */
  ghost predicate OneRing(rings: set<seq<LinkedPtr>>, holds: map<LinkedPtr, Managed?>) {
    forall r, x, y :: r in rings && x in r && x in holds && y in holds && holds[x] != null && holds[x] == holds[y]
      ==> y in r
  }

  /** An object that was handed over is held by a live pointer until it is deleted, and it is
  deleted at most once. */
  ghost predicate Ownership(holds: map<LinkedPtr, Managed?>, adopted: set<Managed>, deleted: seq<Managed>) {
    && (forall i, j :: 0 <= i < j < |deleted| ==> deleted[i] != deleted[j])
    && (forall p :: p in deleted ==> p in adopted)
    && (forall p :: p in adopted && p !in deleted ==> exists x :: x in holds && holds[x] == p)
    && (forall x :: x in holds && holds[x] != null ==> holds[x] in adopted && holds[x] !in deleted)
  }

  lemma OneRingWithout(rings: set<seq<LinkedPtr>>, holds: map<LinkedPtr, Managed?>, ring: seq<LinkedPtr>,
                       x: LinkedPtr, rest: seq<LinkedPtr>)
    requires OneRing(rings, holds) && ring in rings && x in ring
    requires forall y :: y in rest <==> y in ring && y != x
    ensures OneRing(rings - {ring} + {rest}, holds - {x})
  {
  }

  lemma OneRingWith(live: set<LinkedPtr>, rings: set<seq<LinkedPtr>>, holds: map<LinkedPtr, Managed?>,
                    ring: seq<LinkedPtr>, r: LinkedPtr, x: LinkedPtr, longer: seq<LinkedPtr>)
    requires Partition(live, rings) && holds.Keys == live && OneRing(rings, holds)
    requires ring in rings && r in ring && x !in live
    requires forall y :: y in longer <==> y in ring || y == x
    ensures OneRing(rings - {ring} + {longer}, holds[x := holds[r]])
  {
    var holds' := holds[x := holds[r]];
    forall s, y, z | s in rings - {ring} + {longer} && y in s && y in holds' && z in holds'
                     && holds'[y] != null && holds'[y] == holds'[z]
      ensures z in s
    {
      var y0, z0 := if y == x then r else y, if z == x then r else z;
      if s == longer {
        assert y0 in ring && z0 in ring;
      } else {
        assert y0 in s && z0 in s;
      }
    }
  }

  lemma OwnershipWithout(holds: map<LinkedPtr, Managed?>, adopted: set<Managed>, deleted: seq<Managed>, x: LinkedPtr)
    requires Ownership(holds, adopted, deleted) && x in holds
    requires exists y :: y in holds && y != x && holds[y] == holds[x]
    ensures Ownership(holds - {x}, adopted, deleted)
  {
    var other :| other in holds && other != x && holds[other] == holds[x];
    var holds' := holds - {x};
    forall p | p in adopted && p !in deleted
      ensures exists y :: y in holds' && holds'[y] == p
    {
      var y :| y in holds && holds[y] == p;
      assert (if y == x then other else y) in holds';
    }
  }

  lemma OwnershipWith(holds: map<LinkedPtr, Managed?>, adopted: set<Managed>, deleted: seq<Managed>,
                      x: LinkedPtr, r: LinkedPtr)
    requires Ownership(holds, adopted, deleted) && x !in holds && r in holds
    ensures Ownership(holds[x := holds[r]], adopted, deleted)
  {
    var holds' := holds[x := holds[r]];
    forall p | p in adopted && p !in deleted
      ensures exists y :: y in holds' && holds'[y] == p
    {
      var y :| y in holds && holds[y] == p;
      assert y in holds';
    }
  }

  lemma OneRingAlone(rings: set<seq<LinkedPtr>>, holds: map<LinkedPtr, Managed?>, ring: seq<LinkedPtr>, x: LinkedPtr)
    requires OneRing(rings, holds)
    ensures OneRing(rings - {ring}, holds - {x})
  {
  }

  lemma OneRingNew(live: set<LinkedPtr>, rings: set<seq<LinkedPtr>>, holds: map<LinkedPtr, Managed?>,
                   adopted: set<Managed>, deleted: seq<Managed>, x: LinkedPtr, p: Managed?)
    requires Partition(live, rings) && holds.Keys == live && OneRing(rings, holds)
    requires Ownership(holds, adopted, deleted) && x !in live && p !in adopted
    ensures OneRing(rings + {[x]}, holds[x := p])
  {
  }

  lemma OwnershipAlone(holds: map<LinkedPtr, Managed?>, adopted: set<Managed>, deleted: seq<Managed>, x: LinkedPtr)
    requires Ownership(holds, adopted, deleted) && x in holds
    requires holds[x] != null ==> forall y :: y in holds && y != x ==> holds[y] != holds[x]
    ensures Ownership(holds - {x}, adopted, if holds[x] != null then deleted + [holds[x]] else deleted)
  {
    var holds' := holds - {x};
    forall p | p in adopted && p !in deleted && p != holds[x]
      ensures exists y :: y in holds' && holds'[y] == p
    {
      var y :| y in holds && holds[y] == p;
      assert y in holds';
    }
  }

  lemma OwnershipNew(holds: map<LinkedPtr, Managed?>, adopted: set<Managed>, deleted: seq<Managed>,
                     x: LinkedPtr, p: Managed?)
    requires Ownership(holds, adopted, deleted) && x !in holds && p !in adopted
    ensures Ownership(holds[x := p], if p == null then adopted else adopted + {p}, deleted)
  {
    var holds' := holds[x := p];
    assert x in holds' && holds'[x] == p;
    forall q | q in adopted && q !in deleted
      ensures exists y :: y in holds' && holds'[y] == q
    {
      var y :| y in holds && holds[y] == q;
      assert y in holds';
    }
  }

  /** All the linked_ptrs of a program, and the objects they have deleted. */
  class Pointers {
    ghost var live: set<LinkedPtr>
    ghost var rings: set<seq<LinkedPtr>>
    ghost var holds: map<LinkedPtr, Managed?>
    // Every object ever handed over, and the deletions in order.
    ghost var adopted: set<Managed>
    ghost var deleted: seq<Managed>

    constructor ()
      ensures Valid() && live == {} && adopted == {} && deleted == []
    {
      live, rings, holds, adopted, deleted := {}, {}, map[], {}, [];
    }

    ghost predicate AllRings()
      reads this, live
      requires Partition(live, rings)
    {
      forall r :: r in rings ==> RingOk(r)
    }

    /** `holds` is what each live pointer holds. */
    ghost predicate InStep()
      reads this, live
    {
      holds.Keys == live && forall x :: x in live ==> holds[x] == x.ptr
    }

    ghost predicate Valid()
      reads this, live
    {
      Partition(live, rings) && AllRings() && InStep() && OneRing(rings, holds) && Ownership(holds, adopted, deleted)
    }

    /** Somebody else holds what `x` holds. */
    ghost predicate Shared(x: LinkedPtr)
      reads this, live, x
    {
      exists y :: y in live && y != x && y.ptr == x.ptr
    }

    /** The ring of a live pointer, turned so that the pointer comes first. */
    lemma RingAt(x: LinkedPtr) returns (ring: seq<LinkedPtr>, turned: seq<LinkedPtr>)
      requires Valid() && x in live
      ensures ring in rings && x in ring
      ensures RingOk(turned) && turned[0] == x && |turned| == |ring|
      ensures forall y :: y in turned <==> y in ring
      ensures x.Unique() <==> |ring| == 1
    {
      ring :| ring in rings && x in ring;
      var k :| 0 <= k < |ring| && ring[k] == x;
      turned := Turn(ring, k);
    }

    /** Sharing an object is being in a ring with others. */
    lemma SharedIsRing(x: LinkedPtr, ring: seq<LinkedPtr>)
      requires Valid() && x in live && ring in rings && x in ring
      ensures |ring| > 1 ==> Shared(x)
      ensures |ring| == 1 && x.ptr != null ==> !Shared(x)
    {
      var k :| 0 <= k < |ring| && ring[k] == x;
      if |ring| > 1 {
        var y := ring[if k == 0 then 1 else 0];
        assert y in ring && y != x && y.ptr == x.ptr;
      }
      if x.ptr != null && Shared(x) {
        var y :| y in live && y != x && y.ptr == x.ptr;
        var s :| s in rings && y in s;
        assert s == ring;
      }
    }

    /** The members of one ring, and those of the others, are different live pointers. */
    lemma Apart(ring: seq<LinkedPtr>)
      requires Valid() && ring in rings
      ensures forall y :: y in ring ==> y in live
      ensures forall s, y :: s in rings - {ring} && y in s ==> y !in ring && y in live
      ensures forall s :: s in rings - {ring} ==> RingOk(s)
    {
      hide RingOk;
    }

    /** `release` of a pointer that is alone. */
    method ReleaseAlone(x: LinkedPtr, ghost ring: seq<LinkedPtr>)
      requires Valid() && x in live && ring in rings && x in ring && |ring| == 1
      modifies this`live, this`rings, this`holds, this`deleted, x
      ensures Valid() && live == old(live) - {x} && x.ptr == null
      ensures deleted == if old(x.ptr) != null then old(deleted) + [old(x.ptr)] else old(deleted)
    {
      hide RingOk, Partition, OneRing, Ownership;
      SharedIsRing(x, ring);
      Apart(ring);
      PartitionWithout(live, rings, ring, x, []);
      OwnershipAlone(holds, adopted, deleted, x);
      OneRingAlone(rings, holds, ring, x);
      if x.ptr != null {
        deleted := deleted + [x.ptr];
      }
      live, rings, holds := live - {x}, rings - {ring}, holds - {x};
      x.ptr := null;
    }

    /** `release` of a pointer that has company. */
    method ReleaseShared(x: LinkedPtr, ghost ring: seq<LinkedPtr>, ghost turned: seq<LinkedPtr>)
      requires Valid() && x in live && ring in rings && x in ring && |ring| > 1
      requires RingOk(turned) && turned[0] == x && |turned| == |ring| && (forall y :: y in turned <==> y in ring)
      modifies this`live, this`rings, this`holds, live
      ensures Valid() && live == old(live) - {x} && x.ptr == null
      ensures forall y :: y in live ==> y.ptr == old(y.ptr)
    {
      hide RingOk, Partition, OneRing, Ownership;
      ghost var rest := turned[1..];
      Rest(turned);
      SharedIsRing(x, ring);
      Apart(ring);
      ghost var others := rings - {ring};
      PartitionWithout(live, rings, ring, x, rest);
      OneRingWithout(rings, holds, ring, x, rest);
      OwnershipWithout(holds, adopted, deleted, x);
      label Apart2:
      Unlink(x, turned);
      StillRings@Apart2(others);
      live, rings, holds := live - {x}, others + {rest}, holds - {x};
      x.ptr := null;
    }

    /** `release`: leaves the ring, and deletes the object if there was no one else in it. */
    method Release(x: LinkedPtr)
      requires Valid() && x in live
      modifies this`live, this`rings, this`holds, this`deleted, live
      ensures Valid() && live == old(live) - {x} && x.ptr == null
      ensures forall y :: y in live ==> y.ptr == old(y.ptr)
      ensures deleted == if old(x.ptr != null && !Shared(x)) then old(deleted) + [old(x.ptr)] else old(deleted)
    {
      ghost var ring, turned := RingAt(x);
      SharedIsRing(x, ring);
      if x.Unique() {
        ReleaseAlone(x, ring);
      } else {
        ReleaseShared(x, ring, turned);
      }
    }

    /** The books once `x` has joined the ring of `r`. */
    lemma JoinBooks(x: LinkedPtr, r: LinkedPtr, ring: seq<LinkedPtr>, longer: seq<LinkedPtr>)
      requires Valid() && x !in live && r in live && ring in rings && r in ring
      requires forall y :: y in longer <==> y in ring || y == x
      ensures Partition(live + {x}, rings - {ring} + {longer})
      ensures OneRing(rings - {ring} + {longer}, holds[x := r.ptr])
      ensures Ownership(holds[x := r.ptr], adopted, deleted)
    {
      hide RingOk, Partition, OneRing, Ownership;
      PartitionWith(live, rings, ring, x, longer);
      OneRingWith(live, rings, holds, ring, r, x, longer);
      OwnershipWith(holds, adopted, deleted, x, r);
    }

    /** `acquire`: joins the ring of `r`. */
    method Acquire(x: LinkedPtr, r: LinkedPtr)
      requires Valid() && x !in live && r in live
      modifies this`live, this`rings, this`holds, live, x
      ensures Valid() && live == old(live) + {x} && x.ptr == r.ptr && x.prev == r && r.next == x
      ensures forall y :: y in old(live) ==> y.ptr == old(y.ptr)
    {
      hide RingOk, Partition, OneRing, Ownership;
      ghost var ring, turned := RingAt(r);
      ghost var longer := [r, x] + turned[1..];
      assert turned == [r] + turned[1..];
      Apart(ring);
      ghost var others := rings - {ring};
      JoinBooks(x, r, ring, longer);
      label Apart1:
      LinkAfter(x, r, turned);
      StillRings@Apart1(others);
      live, rings, holds := live + {x}, others + {longer}, holds[x := r.ptr];
    }

    /** `linked_ptr(X* p)`: takes over an object that no linked_ptr ever had. */
    method Construct(p: Managed?) returns (x: LinkedPtr)
      requires Valid() && p !in adopted
      modifies this`live, this`rings, this`holds, this`adopted
      ensures Valid() && fresh(x) && live == old(live) + {x} && x.ptr == p && x.prev == x && x.next == x
      ensures deleted == old(deleted) && adopted == if p == null then old(adopted) else old(adopted) + {p}
    {
      hide RingOk, Partition, OneRing, Ownership;
      x := new LinkedPtr();
      PartitionWith(live, rings, [], x, [x]);
      OneRingNew(live, rings, holds, adopted, deleted, x, p);
      OwnershipNew(holds, adopted, deleted, x, p);
      x.ptr, x.prev, x.next := p, x, x;
      SingleRing(x);
      live, rings, holds := live + {x}, rings + {[x]}, holds[x := p];
      if p != null { adopted := adopted + {p}; }
    }

    /** `linked_ptr(const linked_ptr& r)`. */
    method Copy(r: LinkedPtr) returns (x: LinkedPtr)
      requires Valid() && r in live
      modifies this`live, this`rings, this`holds, live
      ensures Valid() && fresh(x) && live == old(live) + {x} && x.ptr == r.ptr && x.prev == r && r.next == x
      ensures forall y :: y in old(live) ==> y.ptr == old(y.ptr)
    {
      x := new LinkedPtr();
      Acquire(x, r);
    }

    /** `operator=`: `x` now holds what `r` holds, and what `x` held is deleted if it was alone with it. */
    method Assign(x: LinkedPtr, r: LinkedPtr)
      requires Valid() && x in live && r in live
      modifies this`live, this`rings, this`holds, this`deleted, live
      ensures Valid() && live == old(live) && x.ptr == old(r.ptr)
      ensures forall y :: y in live && y != x ==> y.ptr == old(y.ptr)
      ensures deleted == if old(x != r && x.ptr != null && !Shared(x)) then old(deleted) + [old(x.ptr)]
                         else old(deleted)
    {
      hide Pointers.Valid, Partition;
      if x != r {
        Release(x);
        Acquire(x, r);
      }
    }

    /** The destructor. */
    method Destroy(x: LinkedPtr)
      requires Valid() && x in live
      modifies this`live, this`rings, this`holds, this`deleted, live
      ensures Valid() && live == old(live) - {x}
      ensures forall y :: y in live ==> y.ptr == old(y.ptr)
      ensures deleted == if old(x.ptr != null && !Shared(x)) then old(deleted) + [old(x.ptr)] else old(deleted)
    {
      Release(x);
    }
  }

  /** The live pointers to one object form a single circular doubly linked list, starting anywhere. */
  lemma HoldersFormOneRing(all: Pointers, x: LinkedPtr) returns (ring: seq<LinkedPtr>)
    requires all.Valid() && x in all.live
    ensures RingOk(ring) && ring[0] == x
    ensures x.ptr != null ==> forall y :: y in ring <==> y in all.live && y.ptr == x.ptr
  {
    var member;
    member, ring := all.RingAt(x);
    forall y | y in all.live && x.ptr != null && y.ptr == x.ptr
      ensures y in ring
    {
      assert all.holds[x] == x.ptr && all.holds[y] == y.ptr;
    }
    forall y | y in ring
      ensures y in all.live && y.ptr == x.ptr
    {
      assert y in member;
    }
  }

  /** `unique()` tells the truth about a pointer that holds something. */
  lemma UniqueMeansAlone(all: Pointers, x: LinkedPtr)
    requires all.Valid() && x in all.live && x.ptr != null
    ensures x.Unique() <==> !all.Shared(x)
  {
    var ring, turned := all.RingAt(x);
    all.SharedIsRing(x, ring);
  }

  /** An object that was handed over has been deleted exactly when no live pointer holds it, and
  then it has been deleted once. */
  lemma DeletedWhenLastIsGone(all: Pointers, p: Managed)
    requires all.Valid() && p in all.adopted
    ensures p in all.deleted <==> forall x :: x in all.live ==> x.ptr != p
    ensures multiset(all.deleted)[p] == if p in all.deleted then 1 else 0
  {
    if p in all.deleted {
      forall x | x in all.live
        ensures x.ptr != p
      {
        assert all.holds[x] == x.ptr;
      }
    } else {
      var x :| x in all.holds && all.holds[x] == p;
      assert x in all.live && x.ptr == p;
    }
    CountDistinct(all.deleted, p);
  }

  lemma {:induction false} CountDistinct<T>(s: seq<T>, x: T)
    requires forall i, j :: 0 <= i < j < |s| ==> s[i] != s[j]
    ensures multiset(s)[x] == if x in s then 1 else 0
  {
    if s != [] {
      CountDistinct(s[1..], x);
      assert s == [s[0]] + s[1..];
      assert multiset(s) == multiset{s[0]} + multiset(s[1..]);
    }
  }
}
