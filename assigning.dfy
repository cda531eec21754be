/** The assignment step both change operations run on one object of a prototype chain:
    `keys.forEach(key => current[key] = selection[key])` over keys that are own keys of the
    selection and assignable own keys of `current`. */
module Assigning {
  import opened Objects

  /** `current[k] = selection[k]` is one of the assignments the change operations make: `k` is
      an own key of both objects, and the property on `current` is writable data or has a setter. */
  ghost predicate CanAssign(objects: map<Ref, JsObject>, c: Ref, s: Ref, k: Key)
  {
    c in objects && s in objects && k in objects[c].props && k in objects[s].props &&
    Assignable(objects[c].props[k])
  }

  /** `current[k] = selection[k]`: the selection's own property is read (a getter runs), then
      assigned on `current` (a setter runs, or the data value is replaced). */
  function AssignOne(st: Store, host: Host, c: Ref, s: Ref, k: Key): (st': Store)
    requires CanAssign(st.objects, c, s, k)
  {
    var (v, st1) := ReadOwn(st, host, s, k);
    Assign(st1, c, k, v)
  }

  /** The assignments for the keys `ks`, in order. */
  ghost function AssignAll(st: Store, host: Host, c: Ref, s: Ref, ks: seq<Key>): Store
    requires forall k :: k in ks ==> CanAssign(st.objects, c, s, k)
    decreases |ks|
  {
    if ks == [] then st
    else
      var st1 := AssignOne(st, host, c, s, ks[0]);
      AssignOneShape(st, host, c, s, ks[0]);
      ShapeKeepsCanAssign(st.objects, st1.objects, c, s, ks[1..]);
      AssignAll(st1, host, c, s, ks[1..])
  }

  /** One assignment changes no key, prototype, descriptor kind or flag, and allocates nothing. */
  lemma AssignOneShape(st: Store, host: Host, c: Ref, s: Ref, k: Key)
    requires CanAssign(st.objects, c, s, k)
    ensures var st' := AssignOne(st, host, c, s, k);
      SameShape(st.objects, st'.objects) && st'.next == st.next
  {
  }

  lemma ShapeKeepsCanAssign(a: map<Ref, JsObject>, b: map<Ref, JsObject>, c: Ref, s: Ref, ks: seq<Key>)
    requires SameShape(a, b) && forall k :: k in ks ==> CanAssign(a, c, s, k)
    ensures forall k :: k in ks ==> CanAssign(b, c, s, k)
  {
    forall k | k in ks ensures CanAssign(b, c, s, k) {
      assert SameKind(a[c].props[k], b[c].props[k]);
    }
  }

  /** A heap of the same shape keeps its prototype ranking and its key lists. */
  lemma ShapeKeepsValid(a: map<Ref, JsObject>, b: map<Ref, JsObject>, depth: map<Ref, nat>)
    requires SameShape(a, b)
    ensures ChainRanked(a, depth) ==> ChainRanked(b, depth)
    ensures forall r :: r in a && KeysListed(a[r]) ==> r in b && KeysListed(b[r])
    ensures forall r :: r in a && Distinct(a[r].keys) ==> r in b && Distinct(b[r].keys)
  {
  }

  /** The assignments change only data values: the heap keeps its shape, nothing is allocated. */
  lemma {:induction false} AssignAllShape(st: Store, host: Host, c: Ref, s: Ref, ks: seq<Key>)
    requires forall k :: k in ks ==> CanAssign(st.objects, c, s, k)
    ensures var st' := AssignAll(st, host, c, s, ks);
      SameShape(st.objects, st'.objects) && st'.next == st.next
    decreases |ks|
  {
    if ks != [] {
      var st1 := AssignOne(st, host, c, s, ks[0]);
      AssignOneShape(st, host, c, s, ks[0]);
      ShapeKeepsCanAssign(st.objects, st1.objects, c, s, ks[1..]);
      AssignAllShape(st1, host, c, s, ks[1..]);
      SameShapeTrans(st.objects, st1.objects, AssignAll(st1, host, c, s, ks[1..]).objects);
    }
  }

  /** Only `current` changes, and on it only the properties of the keys `ks`. */
  lemma {:induction false} AssignAllFrame(st: Store, host: Host, c: Ref, s: Ref, ks: seq<Key>)
    requires forall k :: k in ks ==> CanAssign(st.objects, c, s, k)
    ensures var st' := AssignAll(st, host, c, s, ks);
      (forall r :: r in st.objects && r != c ==> r in st'.objects && st'.objects[r] == st.objects[r]) &&
      (c in st.objects ==> forall k :: k in st.objects[c].props && k !in ks ==>
         c in st'.objects && k in st'.objects[c].props &&
         st'.objects[c].props[k] == st.objects[c].props[k])
    decreases |ks|
  {
    if ks != [] {
      var st1 := AssignOne(st, host, c, s, ks[0]);
      AssignOneShape(st, host, c, s, ks[0]);
      ShapeKeepsCanAssign(st.objects, st1.objects, c, s, ks[1..]);
      AssignAllFrame(st1, host, c, s, ks[1..]);
      forall k | k in st.objects[c].props && k !in ks
        ensures k in st1.objects[c].props && st1.objects[c].props[k] == st.objects[c].props[k]
      {
        assert k != ks[0];
      }
    }
  }

  /** What `selection[k]` reads for an own key `k` of the selection. */
  function SelectionValue(st: Store, host: Host, s: Ref, k: Key): Value
    requires s in st.objects && k in st.objects[s].props
  {
    ReadOwn(st, host, s, k).0
  }

  /** `selection[k]` reads the same in two heaps where the selection's property `k` is the same. */
  lemma SelectionValueFrame(a: Store, b: Store, host: Host, s: Ref, k: Key)
    requires s in a.objects && s in b.objects && k in a.objects[s].props && k in b.objects[s].props
    requires a.objects[s].props[k] == b.objects[s].props[k]
    ensures SelectionValue(a, host, s, k) == SelectionValue(b, host, s, k)
  {
  }

  /** When no key repeats, each data property of `current` named in `ks` ends up holding what
      the selection had under that key before the assignments began; this holds even when the
      selection is `current` itself, since each key is read just before it is written. */
  lemma {:induction false} AssignAllValues(st: Store, host: Host, c: Ref, s: Ref, ks: seq<Key>)
    requires forall k :: k in ks ==> CanAssign(st.objects, c, s, k)
    requires Distinct(ks)
    ensures var st' := AssignAll(st, host, c, s, ks);
      forall k :: k in ks && st.objects[c].props[k].Data? ==>
        c in st'.objects && k in st'.objects[c].props &&
        st'.objects[c].props[k] == st.objects[c].props[k].(value := SelectionValue(st, host, s, k))
    decreases |ks|
  {
    if ks != [] {
      var k0 := ks[0];
      var st1 := AssignOne(st, host, c, s, k0);
      AssignOneShape(st, host, c, s, k0);
      ShapeKeepsCanAssign(st.objects, st1.objects, c, s, ks[1..]);
      assert Distinct(ks[1..]) by {
        forall i, j | 0 <= i < j < |ks[1..]| ensures ks[1..][i] != ks[1..][j] {
          assert ks[1..][i] == ks[i + 1] && ks[1..][j] == ks[j + 1];
        }
      }
      assert k0 !in ks[1..] by {
        forall i | 0 <= i < |ks[1..]| ensures ks[1..][i] != k0 {
          assert ks[1..][i] == ks[i + 1];
        }
      }
      AssignAllValues(st1, host, c, s, ks[1..]);
      AssignAllFrame(st1, host, c, s, ks[1..]);
      forall k | k in ks[1..]
        ensures SelectionValue(st1, host, s, k) == SelectionValue(st, host, s, k)
        ensures st1.objects[c].props[k] == st.objects[c].props[k]
      {
        assert k != k0;
        SelectionValueFrame(st1, st, host, s, k);
      }
    }
  }

  /** `keys.forEach(key => current[key] = selection[key])`. */
  method AssignKeys(h: Heap, c: Ref, s: Ref, ks: seq<Key>)
    requires h.Valid() && forall k :: k in ks ==> CanAssign(h.objects, c, s, k)
    modifies h
    ensures h.Valid() && h.depth == old(h.depth)
    ensures h.State() == AssignAll(old(h.State()), h.host, c, s, ks)
  {
    ghost var st0 := h.State();
    var i := 0;
    while i < |ks|
      invariant 0 <= i <= |ks|
      invariant h.Valid() && h.depth == old(h.depth)
      invariant forall k :: k in ks[i..] ==> CanAssign(h.objects, c, s, k)
      invariant AssignAll(h.State(), h.host, c, s, ks[i..]) == AssignAll(st0, h.host, c, s, ks)
    {
      ghost var before := h.State();
      assert ks[i] in ks[i..];
      var v := h.GetOwn(s, ks[i]);
      h.Set(c, ks[i], v);
      AssignOneShape(before, h.host, c, s, ks[i]);
      assert ks[i..][1..] == ks[i + 1..];
      ShapeKeepsCanAssign(before.objects, h.objects, c, s, ks[i + 1..]);
      i := i + 1;
    }
  }
}
