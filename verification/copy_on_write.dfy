/**
 * `CopyOnWriteSet<T>`: a set that copies its backing collection only when a
 * mutation follows a call that handed that collection out.
 *
 * The backing collection is a heap object (`Backing`), so that "the object
 * handed out earlier" and "the object the set now mutates" can be told apart
 * by reference, exactly as in the Java code. Every method runs as one atomic
 * step; the monitor and the `volatile` field are not modelled.
 */
module CopyOnWrite {

  import opened Results
  import opened ObjectSets

  /** The backing collection: a `HashSet` (equality mode) or an `IdentityHashSet` (identity mode). */
  class Backing<V(==)> {
    const identity: bool
    var elems: set<Obj<V>>

    /** A hash set never stores two elements it considers equal. */
    ghost predicate Valid()
      reads this
    {
      KeysUnique(identity, elems)
    }

    /** The members as the collection tells them apart. */
    ghost function Members(): set<Key<V>>
      reads this
    {
      Keys(identity, elems)
    }

    /** `new HashSet<T>()` / `new IdentityHashSet<T>()`. */
    constructor Empty(identity: bool)
      ensures this.identity == identity && elems == {}
      ensures Valid()
    {
      this.identity := identity;
      elems := {};
    }

    /** `new HashSet<T>(source)` / `new IdentityHashSet<T>(source)`: a new object holding the same elements. */
    constructor CopyOf(identity: bool, source: Backing<V>)
      ensures this.identity == identity && elems == source.elems
      ensures source.identity == identity && source.Valid() ==> Valid()
    {
      this.identity := identity;
      elems := source.elems;
    }

    method Add(o: Obj<V>)
      modifies this
      ensures elems == Insert(identity, old(elems), o)
      ensures old(Valid()) ==> Valid()
    {
      elems := Insert(identity, elems, o);
    }

    method Remove(o: Obj<V>) returns (present: bool)
      modifies this
      ensures present == Member(identity, old(elems), o)
      ensures elems == Delete(identity, old(elems), o)
      ensures old(Valid()) ==> Valid()
    {
      present := Member(identity, elems, o);
      elems := Delete(identity, elems, o);
    }

    method Contains(o: Obj<V>) returns (present: bool)
      ensures present <==> KeyOf(identity, o) in Members()
    {
      present := Member(identity, elems, o);
    }

    method Size() returns (n: nat)
      requires Valid()
      ensures n == |Members()| == |elems|
    {
      SizeCountsKeys(identity, elems);
      n := |elems|;
    }

    /** `iterator()`: every element exactly once, in an order nobody relies on. */
    method Enumerate() returns (xs: seq<Obj<V>>)
      ensures forall x :: x in xs <==> x in elems
      ensures Distinct(xs)
      ensures |xs| == |elems|
    {
      xs := [];
      var rest := elems;
      while rest != {}
        invariant rest <= elems
        invariant forall x :: x in elems <==> x in rest || x in xs
        invariant forall x :: x in xs ==> x !in rest
        invariant Distinct(xs)
        invariant |xs| + |rest| == |elems|
        decreases |rest|
      {
        var x :| x in rest;
        xs := xs + [x];
        rest := rest - {x};
      }
    }
  }

  predicate Distinct<T(==)>(xs: seq<T>) {
    forall i, j :: 0 <= i < j < |xs| ==> xs[i] != xs[j]
  }

  datatype IteratorError = IllegalState | NoSuchElement

  class CopyOnWriteSet<V(==)> {
    /** `is_identify`: identity or equality membership, fixed at construction. */
    const identity: bool
    /** `set`: the current backing object. */
    var backing: Backing<V>
    /** `visible`: the current backing object has been handed out since it was last replaced. */
    var visible: bool

    ghost predicate Valid()
      reads this, backing
    {
      backing.identity == identity && backing.Valid()
    }

    /** What the set holds, as its membership mode tells elements apart. */
    ghost function Contents(): set<Key<V>>
      reads this, backing
    {
      backing.Members()
    }

    /** `b`, handed out earlier, is not the object the next `add`/`remove` would change in place. */
    ghost predicate Shields(b: Backing<V>)
      reads this
    {
      b == backing ==> visible
    }

    /** `new CopyOnWriteSet<T>(is_identify)`: empty, not yet handed out, mode fixed for good. */
    constructor Empty(identity: bool)
      ensures Valid() && fresh(backing)
      ensures this.identity == identity
      ensures backing.identity == identity && backing.elems == {}
      ensures !visible
    {
      this.identity := identity;
      backing := new Backing.Empty(identity);
      visible := false;
    }

    method Add(o: Obj<V>)
      requires Valid()
      modifies this, backing
      ensures Valid()
      ensures Contents() == old(Contents()) + {KeyOf(identity, o)}
      ensures backing.elems == Insert(identity, old(backing.elems), o)
      ensures !visible
      ensures old(visible) ==> fresh(backing) && unchanged(old(backing))
      ensures !old(visible) ==> backing == old(backing)
    {
      if visible {
        var copy := new Backing.CopyOf(identity, backing);
        copy.Add(o);
        backing := copy;
        visible := false;
      } else {
        backing.Add(o);
      }
    }

    method Remove(o: Obj<V>) returns (removed: bool)
      requires Valid()
      modifies this, backing
      ensures Valid()
      ensures removed <==> KeyOf(identity, o) in old(Contents())
      ensures Contents() == old(Contents()) - {KeyOf(identity, o)}
      ensures backing.elems == Delete(identity, old(backing.elems), o)
      ensures !visible
      ensures old(visible) ==> fresh(backing) && unchanged(old(backing))
      ensures !old(visible) ==> backing == old(backing)
    {
      if visible {
        var copy := new Backing.CopyOf(identity, backing);
        removed := copy.Remove(o);
        backing := copy;
        visible := false;
      } else {
        removed := backing.Remove(o);
      }
    }

    method Contains(o: Obj<V>) returns (present: bool)
      requires Valid()
      ensures present <==> KeyOf(identity, o) in Contents()
    {
      present := backing.Contains(o);
    }

    method Size() returns (n: nat)
      requires Valid()
      ensures n == |Contents()|
    {
      n := backing.Size();
    }

    /** `getSet()`: the live backing object itself, not a copy. */
    method GetSet() returns (b: Backing<V>)
      modifies this
      ensures b == backing && backing == old(backing)
      ensures visible
    {
      visible := true;
      b := backing;
    }

    /** `iterator()`: a walk over the live backing object as it stands now. */
    method Iterator() returns (it: CopyOnWriteSetIterator<V>)
      requires Valid()
      modifies this
      ensures backing == old(backing) && visible
      ensures fresh(it) && it.owner == this && it.source == backing
      ensures it.last == None
      ensures forall x :: x in it.remaining <==> x in backing.elems
      ensures Distinct(it.remaining) && |it.remaining| == |backing.elems|
      ensures it.Valid()
    {
      visible := true;
      var xs := backing.Enumerate();
      it := new CopyOnWriteSetIterator(this, backing, xs);
    }
  }

  /**
   * `CopyOnWriteSetIterator`: wraps the iterator of a live backing object.
   * The wrapped iterator is represented by the elements it has yet to
   * yield, listed when it is created. A `HashSet` iterator is only good
   * while its set is not changed, so `Valid()` demands that the walked
   * object still holds exactly what it held then: it is the copy-on-write
   * rule of `add` and `remove` that keeps this true.
   */
  class CopyOnWriteSetIterator<V(==)> {
    const owner: CopyOnWriteSet<V>
    /** The backing object the wrapped `set.iterator()` walks. */
    const source: Backing<V>
    /** What `source` held when the walk began. */
    ghost const frozen: set<Obj<V>>
    /** What the wrapped iterator has yet to yield. */
    var remaining: seq<Obj<V>>
    /** `last`: the element the latest `next()` returned; never cleared. */
    var last: Option<Obj<V>>

    ghost predicate Valid()
      reads this, owner, owner.backing, source
    {
      && owner.Valid() && owner.Shields(source)
      && source.elems == frozen
      && (forall x :: x in remaining ==> x in frozen)
    }

    constructor(owner: CopyOnWriteSet<V>, source: Backing<V>, walk: seq<Obj<V>>)
      ensures this.owner == owner && this.source == source && frozen == source.elems
      ensures remaining == walk && last == None
    {
      this.owner := owner;
      this.source := source;
      frozen := source.elems;
      remaining := walk;
      last := None;
    }

    method HasNext() returns (more: bool)
      ensures more <==> remaining != []
    {
      more := remaining != [];
    }

    method Next() returns (r: Result<Obj<V>, IteratorError>)
      requires Valid()
      modifies this
      ensures Valid()
      ensures old(remaining) == [] ==> r == Err(NoSuchElement) && remaining == [] && last == old(last)
      ensures old(remaining) != [] ==>
        r == Ok(old(remaining)[0]) && remaining == old(remaining)[1..] && last == Some(old(remaining)[0])
      ensures r.Ok? ==> r.value in source.elems
    {
      if remaining == [] {
        r := Err(NoSuchElement);
      } else {
        r := Ok(remaining[0]);
        last := Some(remaining[0]);
        remaining := remaining[1..];
      }
    }

    /**
     * `remove()`: removes the last yielded element from the owning set, not
     * from this walk. Only "never advanced" is rejected: `last` is not
     * cleared, so a second call without `next()` is accepted.
     */
    method Remove() returns (r: Outcome<IteratorError>)
      requires Valid()
      modifies owner, owner.backing
      ensures Valid()
      ensures last == None ==> r == Fail(IllegalState) && unchanged(owner) && unchanged(owner.backing)
      ensures last != None ==> r == Done
      ensures last != None ==> owner.Contents() == old(owner.Contents()) - {KeyOf(owner.identity, last.value)}
      ensures last != None ==> owner.backing.elems == Delete(owner.identity, old(owner.backing.elems), last.value)
      ensures last != None ==> !owner.visible
      ensures last != None && old(owner.visible) ==> fresh(owner.backing) && unchanged(old(owner.backing))
      ensures last != None && !old(owner.visible) ==> owner.backing == old(owner.backing)
      ensures unchanged(source)
    {
      if last == None {
        r := Fail(IllegalState);
      } else {
        var _ := owner.Remove(last.value);
        r := Done;
      }
    }
  }

  // ---------------------------------------------------------------------
  // Snapshot stability over any run of calls

  datatype Call<V> =
    | CallAdd(o: Obj<V>)
    | CallRemove(o: Obj<V>)
    | CallContains(o: Obj<V>)
    | CallSize
    | CallGetSet
    | CallIterator

  /** The add/remove calls of a run, in order. */
  function Mutations<V>(calls: seq<Call<V>>): seq<SetOp<V>> {
    if calls == [] then []
    else
      var c := calls[|calls| - 1];
      Mutations(calls[..|calls| - 1]) +
        match c
        case CallAdd(o) => [AddOp(o)]
        case CallRemove(o) => [RemoveOp(o)]
        case _ => []
  }

  lemma ApplyOpsStep<V>(identity: bool, s: set<Obj<V>>, ops: seq<SetOp<V>>, op: SetOp<V>)
    ensures ApplyOps(identity, s, ops + [op]) == ApplyOp(identity, ApplyOps(identity, s, ops), op)
  {
    assert (ops + [op])[..|ops|] == ops;
  }

  lemma MutationsStep<V>(calls: seq<Call<V>>, i: nat)
    requires i < |calls|
    ensures Mutations(calls[..i + 1]) == Mutations(calls[..i]) +
      match calls[i]
      case CallAdd(o) => [AddOp(o)]
      case CallRemove(o) => [RemoveOp(o)]
      case _ => []
  {
    assert calls[..i + 1][..i] == calls[..i];
  }

  /**
   * A backing object returned by `getSet()` keeps its contents through any
   * later run of calls on the set, while the set itself ends up holding
   * exactly what the run's add/remove calls leave.
   */
  method SnapshotSurvives<V(==)>(s: CopyOnWriteSet<V>, calls: seq<Call<V>>) returns (snap: Backing<V>)
    requires s.Valid()
    modifies s, s.backing
    ensures snap == old(s.backing)
    ensures snap.elems == old(s.backing.elems)
    ensures s.Valid() && s.Shields(snap)
    ensures s.backing.elems == ApplyOps(s.identity, snap.elems, Mutations(calls))
  {
    snap := s.GetSet();
    var i := 0;
    while i < |calls|
      invariant 0 <= i <= |calls|
      invariant s.Valid()
      invariant snap.elems == old(s.backing.elems)
      invariant s.Shields(snap)
      invariant s.backing == snap || fresh(s.backing)
      invariant s.backing.elems == ApplyOps(s.identity, snap.elems, Mutations(calls[..i]))
      decreases |calls| - i
    {
      ghost var before := Mutations(calls[..i]);
      MutationsStep(calls, i);
      match calls[i] {
        case CallAdd(o) =>
          s.Add(o);
          ApplyOpsStep(s.identity, snap.elems, before, AddOp(o));
        case CallRemove(o) =>
          var _ := s.Remove(o);
          ApplyOpsStep(s.identity, snap.elems, before, RemoveOp(o));
        case CallContains(o) =>
          var _ := s.Contains(o);
          assert before + [] == before;
        case CallSize =>
          var _ := s.Size();
          assert before + [] == before;
        case CallGetSet =>
          var _ := s.GetSet();
          assert before + [] == before;
        case CallIterator =>
          var _ := s.Iterator();
          assert before + [] == before;
      }
      i := i + 1;
    }
    assert calls[..|calls|] == calls;
  }

  /**
   * An open iterator stays valid through any `add` or `remove` on its set:
   * the object it walks was handed out, so the set copies it rather than
   * changing it.
   */
  method MutationKeepsIteratorValid<V(==)>(it: CopyOnWriteSetIterator<V>, op: SetOp<V>)
    requires it.Valid()
    modifies it.owner, it.owner.backing
    ensures it.Valid()
    ensures it.source.elems == it.frozen && it.remaining == old(it.remaining)
    ensures it.owner.backing.elems == ApplyOp(it.owner.identity, old(it.owner.backing.elems), op)
  {
    match op {
      case AddOp(o) =>
        it.owner.Add(o);
      case RemoveOp(o) =>
        var _ := it.owner.Remove(o);
    }
  }

  /**
   * Removing through an iterator also spares a backing object handed out
   * earlier: `it.next(); it.remove()` takes the first element out of the
   * set, while the `getSet()` result still holds it. On an empty set the
   * `remove()` is rejected and nothing changes.
   */
  method IteratorRemoveSparesSnapshot<V(==)>(s: CopyOnWriteSet<V>) returns (snap: Backing<V>, r: Outcome<IteratorError>)
    requires s.Valid()
    modifies s, s.backing
    ensures snap == old(s.backing) && snap.elems == old(s.backing.elems)
    ensures s.Valid() && s.Shields(snap)
    ensures old(s.backing.elems) == {} ==> r == Fail(IllegalState) && s.Contents() == old(s.Contents())
    ensures old(s.backing.elems) != {} ==> r == Done && |s.Contents()| == |old(s.Contents())| - 1
  {
    snap := s.GetSet();
    var it := s.Iterator();
    var first := it.Next();
    r := it.Remove();
  }

  /**
   * An iterator taken before an `add` yields only what the set held when the
   * iterator was taken.
   */
  method IteratorSeesFrozenView<V(==)>(identity: bool, a: Obj<V>, b: Obj<V>)
    returns (first: Result<Obj<V>, IteratorError>, more: bool)
    ensures first == Ok(a) && !more
  {
    var s := new CopyOnWriteSet.Empty(identity);
    s.Add(a);
    assert s.backing.elems == {a};
    var it := s.Iterator();
    assert it.remaining == [a] by {
      assert a in it.remaining;
      assert |it.remaining| == 1;
    }
    s.Add(b);
    assert it.Valid();
    first := it.Next();
    more := it.HasNext();
  }

  /** The set itself sees an element added while an iterator over it is open. */
  method AddWhileIteratingIsSeen<V(==)>(identity: bool, a: Obj<V>, b: Obj<V>)
    returns (hasB: bool, size: nat)
    requires KeyOf(identity, a) != KeyOf(identity, b)
    ensures hasB && size == 2
  {
    var s := new CopyOnWriteSet.Empty(identity);
    ghost var k0 := s.Contents();
    KeysOfNothing<V>(identity);
    s.Add(a);
    ghost var k1 := s.Contents();
    var it := s.Iterator();
    assert s.Contents() == k1;
    s.Add(b);
    TwoKeys(k0, k1, s.Contents(), KeyOf(identity, a), KeyOf(identity, b));
    hasB := s.Contains(b);
    size := s.Size();
  }

  /** An empty collection has no keys. */
  lemma KeysOfNothing<V>(identity: bool)
    ensures Keys<V>(identity, {}) == {}
  {
  }

  /** Two different keys added to nothing make two keys. */
  lemma TwoKeys<K>(k0: set<K>, k1: set<K>, k2: set<K>, x: K, y: K)
    requires k0 == {} && k1 == k0 + {x} && k2 == k1 + {y} && x != y
    ensures y in k2 && |k2| == 2
  {
    assert k2 == {x, y};
  }
}
