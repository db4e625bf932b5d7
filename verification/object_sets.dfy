/**
 * The membership rules of the two backing collections a `CopyOnWriteSet`
 * can use: `java.util.HashSet`, which compares elements with `equals`, and
 * `IdentityHashSet`, which compares them with `==`. An element is a Java
 * object given by its reference and the value its `equals` looks at; a
 * backing collection files each element under a key taken from one or the
 * other, and never holds two elements with the same key.
 */
module ObjectSets {

  import opened Results

  /** A Java object: its reference and the value that `equals` compares. */
  datatype Obj<V> = Obj(ref: nat, value: V)

  /** What the backing collection compares: the reference, or the value. */
  datatype Key<V> = ByRef(ref: nat) | ByValue(value: V)

  function KeyOf<V(==)>(identity: bool, o: Obj<V>): Key<V> {
    if identity then ByRef(o.ref) else ByValue(o.value)
  }

  /** The members of a backing collection, as the collection tells them apart. */
  function Keys<V(==)>(identity: bool, s: set<Obj<V>>): set<Key<V>> {
    set o | o in s :: KeyOf(identity, o)
  }

  /** No two stored elements share a key: what `add` keeps true of a hash set. */
  ghost predicate KeysUnique<V>(identity: bool, s: set<Obj<V>>) {
    forall a, b :: a in s && b in s && KeyOf(identity, a) == KeyOf(identity, b) ==> a == b
  }

  /** `contains(o)`. */
  predicate Member<V(==)>(identity: bool, s: set<Obj<V>>, o: Obj<V>) {
    KeyOf(identity, o) in Keys(identity, s)
  }

  /** `add(o)`: a no-op when an element with the same key is already stored. */
  function Insert<V(==)>(identity: bool, s: set<Obj<V>>, o: Obj<V>): (r: set<Obj<V>>)
    ensures Keys(identity, r) == Keys(identity, s) + {KeyOf(identity, o)}
    ensures s <= r && r - s <= {o}
    ensures KeysUnique(identity, s) ==> KeysUnique(identity, r)
  {
    if Member(identity, s, o) then s else s + {o}
  }

  /** `remove(o)`: drops the element stored under the key of `o`, if any. */
  function Delete<V(==)>(identity: bool, s: set<Obj<V>>, o: Obj<V>): (r: set<Obj<V>>)
    ensures Keys(identity, r) == Keys(identity, s) - {KeyOf(identity, o)}
    ensures r <= s
    ensures KeysUnique(identity, s) ==> KeysUnique(identity, r)
    ensures KeysUnique(identity, s) && Member(identity, s, o) ==> |r| == |s| - 1
    ensures !Member(identity, s, o) ==> r == s
  {
    var r := set e | e in s && KeyOf(identity, e) != KeyOf(identity, o);
    assert !Member(identity, s, o) ==> r == s by {
      if !Member(identity, s, o) {
        forall e | e in s ensures e in r {
          assert KeyOf(identity, e) in Keys(identity, s);
        }
      }
    }
    assert KeysUnique(identity, s) && Member(identity, s, o) ==> |r| == |s| - 1 by {
      if KeysUnique(identity, s) && Member(identity, s, o) {
        var w :| w in s && KeyOf(identity, w) == KeyOf(identity, o);
        assert s - r == {w};
        assert s == r + {w};
      }
    }
    r
  }

  /** A hash set's size counts its distinct keys. */
  lemma {:induction false} SizeCountsKeys<V>(identity: bool, s: set<Obj<V>>)
    requires KeysUnique(identity, s)
    ensures |Keys(identity, s)| == |s|
    decreases |s|
  {
    if s != {} {
      var x :| x in s;
      var t := s - {x};
      SizeCountsKeys(identity, t);
      assert Keys(identity, s) == Keys(identity, t) + {KeyOf(identity, x)};
      assert KeyOf(identity, x) !in Keys(identity, t);
    }
  }

  /** Adding the same object twice in a row leaves what adding it once leaves. */
  lemma InsertIdempotent<V>(identity: bool, s: set<Obj<V>>, o: Obj<V>)
    ensures Insert(identity, Insert(identity, s, o), o) == Insert(identity, s, o)
  {
    assert Member(identity, Insert(identity, s, o), o);
  }

  /** In identity mode two distinct objects are both kept, even when their values are equal. */
  lemma IdentityKeepsEqualValues<V>(a: Obj<V>, b: Obj<V>)
    requires a.ref != b.ref
    ensures Insert(true, Insert(true, {}, a), b) == {a, b}
  {
    assert Keys(true, {a}) == {ByRef(a.ref)};
  }

  /** In equality mode an object equal to a stored one is not added: the first one stays. */
  lemma EqualityMergesEqualValues<V>(a: Obj<V>, b: Obj<V>)
    requires a.value == b.value
    ensures Insert(false, Insert(false, {}, a), b) == {a}
  {
    assert Keys(false, {a}) == {ByValue(a.value)};
  }

  // ---------------------------------------------------------------------
  // Net effect of a run of add/remove calls

  datatype SetOp<V> = AddOp(o: Obj<V>) | RemoveOp(o: Obj<V>)

  function ApplyOp<V(==)>(identity: bool, s: set<Obj<V>>, op: SetOp<V>): set<Obj<V>> {
    match op
    case AddOp(o) => Insert(identity, s, o)
    case RemoveOp(o) => Delete(identity, s, o)
  }

  /** The collection after the calls `ops`, in order, starting from `s`. */
  function ApplyOps<V(==)>(identity: bool, s: set<Obj<V>>, ops: seq<SetOp<V>>): set<Obj<V>> {
    if ops == [] then s
    else ApplyOp(identity, ApplyOps(identity, s, ops[..|ops| - 1]), ops[|ops| - 1])
  }

  /** Whether the last call in `ops` about `x`'s key was an add (`Some(true)`) or a remove. */
  function LastTouch<V(==)>(identity: bool, ops: seq<SetOp<V>>, x: Obj<V>): Option<bool> {
    if ops == [] then None
    else if KeyOf(identity, ops[|ops| - 1].o) == KeyOf(identity, x) then Some(ops[|ops| - 1].AddOp?)
    else LastTouch(identity, ops[..|ops| - 1], x)
  }

  /**
   * Membership after a run of calls is decided by the last call about the
   * element: present after an add, absent after a remove, as before when no
   * call touched it.
   */
  lemma {:induction false} NetMembership<V>(identity: bool, s: set<Obj<V>>, ops: seq<SetOp<V>>, x: Obj<V>)
    ensures Member(identity, ApplyOps(identity, s, ops), x) <==>
      match LastTouch(identity, ops, x)
      case None => Member(identity, s, x)
      case Some(added) => added
  {
    if ops != [] {
      NetMembership(identity, s, ops[..|ops| - 1], x);
    }
  }
}
