/** `copyObject` and `cloneObject`: a shallow copy and a deep clone of an object, built
    descriptor by descriptor on a fresh object with the original's prototype. The two are
    written out identically in both source files; this module models them once. */
module Copying {
  import opened Objects

  /** The descriptor `copyObject` defines on the copy for an own property `p` of the original:
      an accessor when `p` has a getter or a setter, otherwise data holding `p.value`; writable
      and configurable are forced to true, enumerable is kept. */
  function CopiedProperty(p: Property): Property
  {
    if HasAccessorFunctions(p) then Accessor(p.getter, p.setter, p.enumerable, true)
    else Data(DescriptorValue(p), true, p.enumerable, true)
  }

  /** The copy of `o` once `copyObject` has defined the keys `ks` on it. */
  function PartialCopy(o: JsObject, ks: seq<Key>): JsObject
    requires forall k :: k in ks ==> k in o.props
  {
    JsObject(ks, map k | k in ks :: CopiedProperty(o.props[k]), o.proto, true)
  }

  lemma PartialCopyStep(o: JsObject, ks: seq<Key>, k: Key)
    requires forall j :: j in ks ==> j in o.props
    requires k in o.props && k !in ks
    ensures Define(PartialCopy(o, ks), k, CopiedProperty(o.props[k])) == PartialCopy(o, ks + [k])
  {
    var m := map j | j in ks + [k] :: CopiedProperty(o.props[j]);
    assert (map j | j in ks :: CopiedProperty(o.props[j]))[k := CopiedProperty(o.props[k])] == m;
  }

  /** The object `copyObject` returns for `o`. */
  function CopyOf(o: JsObject): JsObject
    requires WellFormed(o)
  {
    PartialCopy(o, ObjectKeys(o))
  }

  /** The heap after `copyObject` of object `r`: the copy is the fresh object `st.next`. */
  function Copied(st: Store, r: Ref): Store
    requires r in st.objects && WellFormed(st.objects[r])
  {
    st.(objects := st.objects[st.next := CopyOf(st.objects[r])], next := st.next + 1)
  }

  /** The copy lists its own keys once each, keeps the prototype, is extensible, and holds
      for each own key of the original the descriptor `copyObject` defines for it. */
  lemma CopyOfShape(o: JsObject)
    requires WellFormed(o)
    ensures var c := CopyOf(o);
      WellFormed(c) && c.keys == ObjectKeys(o) && c.proto == o.proto && c.extensible &&
      c.props.Keys == o.props.Keys &&
      forall k :: k in o.props ==> c.props[k] == CopiedProperty(o.props[k])
  {
    ObjectKeysDistinct(o);
  }

  /** What a copy is: same prototype, the same own keys in `getObjectKeys` order (listing the
      copy's keys gives that order again), extensible and so not frozen; each data property has
      the original's value and enumerable flag and is writable and configurable; a property is
      an accessor in the copy exactly when the original has a getter or a setter, and then it
      keeps both and the enumerable flag, with configurable set. */
  lemma CopyOfMeaning(o: JsObject)
    requires WellFormed(o)
    ensures var c := CopyOf(o);
      WellFormed(c) && c.proto == o.proto && c.extensible && !IsFrozen(c) &&
      c.keys == ObjectKeys(o) && ObjectKeys(c) == ObjectKeys(o) &&
      c.props.Keys == o.props.Keys &&
      forall k :: k in o.props ==>
        var p, q := o.props[k], c.props[k];
        q.configurable && q.enumerable == p.enumerable &&
        (q.Accessor? <==> HasAccessorFunctions(p)) &&
        (q.Accessor? ==> q.getter == p.getter && q.setter == p.setter) &&
        (q.Data? ==> q.writable && q.value == DescriptorValue(p))
  {
    ObjectKeysDistinct(o);
    ObjectKeysStable(o);
    assert CopyOf(o) == o.(keys := ObjectKeys(o)).(props := CopyOf(o).props, extensible := true);
    assert ObjectKeys(CopyOf(o)) == ObjectKeys(o.(keys := ObjectKeys(o)));
  }

  /** `copyObject(original)`. */
  method CopyObject(h: Heap, original: Value) returns (copy: Value)
    requires h.Valid() && ValueIn(h.objects, original)
    modifies h
    ensures h.Valid() && ValueIn(h.objects, copy)
    ensures !original.ObjectRef? ==> copy == original && h.State() == old(h.State())
    ensures original.ObjectRef? ==>
      copy == ObjectRef(old(h.next)) && h.State() == Copied(old(h.State()), original.ref)
  {
    if TypeOf(original) != "object" || original == Null {
      return original;
    }
    ghost var st0 := h.State();
    var o := h.objects[original.ref];
    var c := h.NewObject(o.proto);
    var keys := ObjectKeys(o);
    ObjectKeysDistinct(o);
    var i := 0;
    while i < |keys|
      invariant 0 <= i <= |keys|
      invariant h.Valid() && c == st0.next
      invariant h.objects == st0.objects[c := PartialCopy(o, keys[..i])]
      invariant h.calls == st0.calls && h.next == c + 1
    {
      var key := keys[i];
      assert key !in keys[..i];
      assert keys[..i + 1] == keys[..i] + [key];
      PartialCopyStep(o, keys[..i], key);
      assert Define(PartialCopy(o, keys[..i]), key, CopiedProperty(o.props[key])) == PartialCopy(o, keys[..i + 1]);
      h.DefineProperty(c, key, CopiedProperty(o.props[key]));
      UpdateTwice(st0.objects, c, PartialCopy(o, keys[..i]), PartialCopy(o, keys[..i + 1]));
      i := i + 1;
    }
    assert keys[..i] == keys;
    copy := ObjectRef(c);
  }

  /** `rank` witnesses that the data values reachable from the ranked objects contain no
      cycle: a ranked object lists its own keys, and its data values are ranked objects of lower rank, or not objects. */
  ghost predicate DataRanked(objects: map<Ref, JsObject>, rank: map<Ref, nat>)
  {
    forall r :: r in rank ==>
      r in objects && KeysListed(objects[r]) &&
      forall k :: k in objects[r].props && DescriptorValue(objects[r].props[k]).ObjectRef? ==>
        DescriptorValue(objects[r].props[k]).ref in rank &&
        rank[DescriptorValue(objects[r].props[k]).ref] < rank[r]
  }

  ghost predicate ValueRanked(rank: map<Ref, nat>, v: Value)
  {
    v.ObjectRef? ==> v.ref in rank
  }

  function Measure(rank: map<Ref, nat>, v: Value): nat
  {
    if v.ObjectRef? && v.ref in rank then rank[v.ref] + 1 else 0
  }

  /** The objects of `a` with references in `lo .. hi - 1` are still in `b`, unchanged. */
  ghost predicate KeptBetween(a: map<Ref, JsObject>, b: map<Ref, JsObject>, lo: Ref, hi: Ref)
  {
    forall x :: x in a && lo <= x < hi ==> x in b && b[x] == a[x]
  }

  /** The ranked objects of the heap are those of `src`. */
  ghost predicate Agrees(objects: map<Ref, JsObject>, src: map<Ref, JsObject>, rank: map<Ref, nat>)
  {
    forall r :: r in rank ==> r in objects && r in src && objects[r] == src[r]
  }

  /** What `cloneObject(v)` returns, and the heap it leaves, starting from `st`. The originals
      are read from `src`, the heap as it was when the outermost clone started: cloning only
      allocates objects and defines properties on them, so the originals never change. */
  ghost function CloneValue(src: map<Ref, JsObject>, rank: map<Ref, nat>, v: Value, st: Store): (r: (Value, Store))
    requires DataRanked(src, rank) && ValueRanked(rank, v)
    ensures st.next <= r.1.next && r.1.calls == st.calls
    ensures !v.ObjectRef? ==> r == (v, st)
    ensures v.ObjectRef? ==> r.0 == ObjectRef(st.next) && st.next in r.1.objects && st.next < r.1.next
    decreases Measure(rank, v), 1, 0, 0
  {
    if !v.ObjectRef? then (v, st)
    else
      var o := src[v.ref];
      (ObjectRef(st.next), CloneKeys(src, rank, v.ref, Allocate(st, o.proto), st.next, |ObjectKeys(o)|))
  }

  /** The heap after the first `n` own keys of original `r`, in `getObjectKeys` order, have
      been cloned onto the clone `c`. */
  ghost function CloneKeys(src: map<Ref, JsObject>, rank: map<Ref, nat>, r: Ref, st: Store, c: Ref, n: nat): (st': Store)
    requires DataRanked(src, rank) && r in rank && n <= |ObjectKeys(src[r])|
    requires c in st.objects && c < st.next
    ensures st.next <= st'.next && st'.calls == st.calls && c in st'.objects
    decreases rank[r] + 1, 0, n, 0
  {
    if n == 0 then st
    else
      var ks := ObjectKeys(src[r]);
      CloneKeyStep(src, rank, r, CloneKeys(src, rank, r, st, c, n - 1), c, ks[n - 1])
  }

  /** The heap after one iteration of the loop over the original's keys: the descriptor for key
      `k` of original `r` is defined on the clone `c`. An accessor with a getter or a setter is
      carried over; anything else becomes writable data holding the clone of its value
      (`undefined` for an accessor with neither), cloned first. Configurable is forced,
      enumerable kept. */
  ghost function CloneKeyStep(src: map<Ref, JsObject>, rank: map<Ref, nat>, r: Ref, st: Store, c: Ref, k: Key): (st': Store)
    requires DataRanked(src, rank) && r in rank && k in src[r].props
    requires c in st.objects && c < st.next
    ensures st.next <= st'.next && st'.calls == st.calls
    ensures c in st'.objects && k in st'.objects[c].props && st'.objects[c] == Define(st.objects[c], k, st'.objects[c].props[k])
    decreases rank[r] + 1, 0, 0, 0
  {
    var p := src[r].props[k];
    if HasAccessorFunctions(p) then Defined(st, c, k, Accessor(p.getter, p.setter, p.enumerable, true))
    else
      var (v, st') := CloneValue(src, rank, DescriptorValue(p), st);
      CloneValueKeepsAt(src, rank, DescriptorValue(p), st, c);
      Defined(st', c, k, Data(v, true, p.enumerable, true))
  }

  /** `w` is a clone of `v` made of objects at references `lo .. hi - 1` of `objects`, the
      originals being those of `src`: a value that is not an object (including `null` and
      functions) is its own clone; the clone of an object is an extensible object with the same
      prototype and the same own keys in `getObjectKeys` order, each holding a clone of the
      original's property. */
  ghost predicate Cloned(src: map<Ref, JsObject>, objects: map<Ref, JsObject>, rank: map<Ref, nat>,
                         v: Value, w: Value, lo: Ref, hi: Ref)
    requires DataRanked(src, rank) && ValueRanked(rank, v)
    decreases Measure(rank, v), 0
  {
    if !v.ObjectRef? then w == v
    else
      var o := src[v.ref];
      w.ObjectRef? && lo <= w.ref < hi && w.ref in objects &&
      var c := objects[w.ref];
      ShapedAfter(o, c) &&
      forall j :: 0 <= j < |c.keys| ==> ClonedProperty(src, objects, rank, o.props[c.keys[j]], c.props[c.keys[j]], lo, hi)
  }

  /** `c` has the prototype of `o` and exactly its own keys, listed in `getObjectKeys` order, and
      is extensible. */
  ghost predicate ShapedAfter(o: JsObject, c: JsObject)
  {
    c.keys == ObjectKeys(o) && c.proto == o.proto && c.extensible && c.props.Keys == o.props.Keys
  }

  /** An accessor with a getter or a setter is carried over with the same getter and setter;
      any other property becomes writable, configurable data with the same enumerable flag,
      holding a clone of its value. */
  ghost predicate ClonedProperty(src: map<Ref, JsObject>, objects: map<Ref, JsObject>, rank: map<Ref, nat>,
                                 p: Property, q: Property, lo: Ref, hi: Ref)
    requires DataRanked(src, rank) && ValueRanked(rank, DescriptorValue(p))
    decreases Measure(rank, DescriptorValue(p)), 1
  {
    if HasAccessorFunctions(p) then q == Accessor(p.getter, p.setter, p.enumerable, true)
    else
      q.Data? && q.writable && q.configurable && q.enumerable == p.enumerable &&
      Cloned(src, objects, rank, DescriptorValue(p), q.value, lo, hi)
  }

  /** A clone stays a clone when the objects it is made of are kept, and when the range of
      references it may use is widened. */
  lemma {:induction false} ClonedFrame(src: map<Ref, JsObject>, a: map<Ref, JsObject>, b: map<Ref, JsObject>,
                                       rank: map<Ref, nat>, v: Value, w: Value, lo: Ref, hi: Ref, lo2: Ref, hi2: Ref)
    requires DataRanked(src, rank) && ValueRanked(rank, v) && lo2 <= lo && hi <= hi2
    requires KeptBetween(a, b, lo, hi) && Cloned(src, a, rank, v, w, lo, hi)
    ensures Cloned(src, b, rank, v, w, lo2, hi2)
    decreases Measure(rank, v), 0
  {
    if v.ObjectRef? {
      var o, ks := src[v.ref], a[w.ref].keys;
      forall j | 0 <= j < |ks|
        ensures ClonedProperty(src, b, rank, o.props[ks[j]], b[w.ref].props[ks[j]], lo2, hi2)
      {
        ClonedPropertyFrame(src, a, b, rank, o.props[ks[j]], a[w.ref].props[ks[j]], lo, hi, lo2, hi2);
      }
    }
  }

  lemma {:induction false} ClonedPropertyFrame(src: map<Ref, JsObject>, a: map<Ref, JsObject>, b: map<Ref, JsObject>,
                                               rank: map<Ref, nat>, p: Property, q: Property,
                                               lo: Ref, hi: Ref, lo2: Ref, hi2: Ref)
    requires DataRanked(src, rank) && ValueRanked(rank, DescriptorValue(p)) && lo2 <= lo && hi <= hi2
    requires KeptBetween(a, b, lo, hi) && ClonedProperty(src, a, rank, p, q, lo, hi)
    ensures ClonedProperty(src, b, rank, p, q, lo2, hi2)
    decreases Measure(rank, DescriptorValue(p)), 1
  {
    if !HasAccessorFunctions(p) {
      ClonedFrame(src, a, b, rank, DescriptorValue(p), q.value, lo, hi, lo2, hi2);
    }
  }

  /** `cloneObject(v)` returns a clone of `v`, made of fresh objects only. */
  lemma {:induction false} CloneValueCloned(src: map<Ref, JsObject>, rank: map<Ref, nat>, v: Value, st: Store)
    requires DataRanked(src, rank) && ValueRanked(rank, v)
    ensures var (w, st') := CloneValue(src, rank, v, st); Cloned(src, st'.objects, rank, v, w, st.next, st'.next)
    decreases Measure(rank, v), 1, 0
  {
    if v.ObjectRef? {
      var o := src[v.ref];
      var st1 := Allocate(st, o.proto);
      var ks := ObjectKeys(o);
      var st' := CloneKeys(src, rank, v.ref, st1, st.next, |ks|);
      CloneKeysShape(src, rank, v.ref, st1, st.next, |ks|);
      assert ks[..|ks|] == ks;
      var c := st'.objects[st.next];
      assert ShapedAfter(o, c);
      forall j | 0 <= j < |c.keys|
        ensures ClonedProperty(src, st'.objects, rank, o.props[c.keys[j]], c.props[c.keys[j]], st.next, st'.next)
      {
        CloneKeysCloned(src, rank, v.ref, st1, st.next, |ks|, st.next, j);
        assert c.keys[j] == ks[j];
      }
    }
  }

  /** After the first `n` keys, the clone lists exactly those keys, in order, and keeps its
      prototype and extensibility. */
  lemma {:induction false} CloneKeysShape(src: map<Ref, JsObject>, rank: map<Ref, nat>, r: Ref, st: Store, c: Ref, n: nat)
    requires DataRanked(src, rank) && r in rank && n <= |ObjectKeys(src[r])|
    requires c in st.objects && c < st.next
    ensures var a, b, ks := st.objects[c], CloneKeys(src, rank, r, st, c, n).objects[c], ObjectKeys(src[r])[..n];
      b.keys == a.keys + ks && b.proto == a.proto && b.extensible == a.extensible &&
      b.props.Keys == a.props.Keys + set k | k in ks
  {
    if n != 0 {
      var ks := ObjectKeys(src[r]);
      CloneKeysShape(src, rank, r, st, c, n - 1);
      assert ks[..n] == ks[..n - 1] + [ks[n - 1]];
    }
  }

  /** Cloning a value leaves every object that existed before as it was. */
  lemma {:induction false} CloneValueKeeps(src: map<Ref, JsObject>, rank: map<Ref, nat>, v: Value, st: Store)
    requires DataRanked(src, rank) && ValueRanked(rank, v)
    ensures KeptBetween(st.objects, CloneValue(src, rank, v, st).1.objects, 0, st.next)
    decreases Measure(rank, v), 1, 0, 1
  {
    if v.ObjectRef? {
      var o := src[v.ref];
      CloneKeysKeeps(src, rank, v.ref, Allocate(st, o.proto), st.next, |ObjectKeys(o)|);
    }
  }

  /** The same for one object `x` that existed before. */
  lemma CloneValueKeepsAt(src: map<Ref, JsObject>, rank: map<Ref, nat>, v: Value, st: Store, x: Ref)
    requires DataRanked(src, rank) && ValueRanked(rank, v) && x in st.objects && x < st.next
    ensures var st' := CloneValue(src, rank, v, st).1; x in st'.objects && st'.objects[x] == st.objects[x]
    decreases Measure(rank, v), 1, 0, 2
  {
    CloneValueKeeps(src, rank, v, st);
  }

  /** Cloning keys onto `c` changes no object that existed before, except `c`. */
  lemma {:induction false} CloneKeysKeeps(src: map<Ref, JsObject>, rank: map<Ref, nat>, r: Ref, st: Store, c: Ref, n: nat)
    requires DataRanked(src, rank) && r in rank && n <= |ObjectKeys(src[r])|
    requires c in st.objects && c < st.next
    ensures var st' := CloneKeys(src, rank, r, st, c, n);
      KeptBetween(st.objects, st'.objects, 0, c) && KeptBetween(st.objects, st'.objects, c + 1, st.next)
    decreases rank[r] + 1, 0, n, 1
  {
    if n != 0 {
      var st1 := CloneKeys(src, rank, r, st, c, n - 1);
      CloneKeysKeeps(src, rank, r, st, c, n - 1);
      CloneKeyStepKeeps(src, rank, r, st1, c, ObjectKeys(src[r])[n - 1]);
    }
  }

  lemma {:induction false} CloneKeyStepKeeps(src: map<Ref, JsObject>, rank: map<Ref, nat>, r: Ref, st: Store, c: Ref, k: Key)
    requires DataRanked(src, rank) && r in rank && k in src[r].props
    requires c in st.objects && c < st.next
    ensures var st' := CloneKeyStep(src, rank, r, st, c, k);
      KeptBetween(st.objects, st'.objects, 0, c) && KeptBetween(st.objects, st'.objects, c + 1, st.next)
    decreases rank[r] + 1, 0, 0, 1
  {
    var p := src[r].props[k];
    if !HasAccessorFunctions(p) {
      CloneValueKeeps(src, rank, DescriptorValue(p), st);
    }
  }

  /** One iteration defines on the clone a clone of the original's property, made of objects
      allocated meanwhile. */
  lemma {:induction false} CloneKeyStepCloned(src: map<Ref, JsObject>, rank: map<Ref, nat>, r: Ref, st: Store, c: Ref, k: Key)
    requires DataRanked(src, rank) && r in rank && k in src[r].props
    requires c in st.objects && c < st.next
    ensures var st' := CloneKeyStep(src, rank, r, st, c, k);
      ClonedProperty(src, st'.objects, rank, src[r].props[k], st'.objects[c].props[k], st.next, st'.next)
    decreases rank[r] + 1, 0, 0
  {
    var p := src[r].props[k];
    if !HasAccessorFunctions(p) {
      var (v, st1) := CloneValue(src, rank, DescriptorValue(p), st);
      var st' := CloneKeyStep(src, rank, r, st, c, k);
      CloneValueCloned(src, rank, DescriptorValue(p), st);
      assert KeptBetween(st1.objects, st'.objects, st.next, st1.next);
      ClonedFrame(src, st1.objects, st'.objects, rank, DescriptorValue(p), v, st.next, st1.next, st.next, st'.next);
    }
  }

  /** After cloning the first `n` keys onto `c`, the `j`-th of them holds a clone of the
      original's property, made of objects allocated meanwhile. */
  lemma {:induction false} CloneKeysCloned(src: map<Ref, JsObject>, rank: map<Ref, nat>, r: Ref, st: Store, c: Ref,
                                           n: nat, lo: Ref, j: nat)
    requires DataRanked(src, rank) && r in rank && j < n <= |ObjectKeys(src[r])|
    requires c in st.objects && c < st.next && lo <= st.next
    ensures var st', k := CloneKeys(src, rank, r, st, c, n), ObjectKeys(src[r])[j];
      k in st'.objects[c].props &&
      ClonedProperty(src, st'.objects, rank, src[r].props[k], st'.objects[c].props[k], lo, st'.next)
    decreases rank[r] + 1, 0, n
  {
    var ks := ObjectKeys(src[r]);
    var k := ks[n - 1];
    var st1 := CloneKeys(src, rank, r, st, c, n - 1);
    var st' := CloneKeyStep(src, rank, r, st1, c, k);
    if ks[j] == k {
      CloneKeyStepCloned(src, rank, r, st1, c, k);
      ClonedPropertyFrame(src, st'.objects, st'.objects, rank, src[r].props[k], st'.objects[c].props[k],
                          st1.next, st'.next, lo, st'.next);
    } else {
      CloneKeysCloned(src, rank, r, st, c, n - 1, st.next, j);
      CloneKeyStepKeeps(src, rank, r, st1, c, k);
      assert st'.objects[c].props[ks[j]] == st1.objects[c].props[ks[j]];
      ClonedPropertyFrame(src, st1.objects, st'.objects, rank, src[r].props[ks[j]], st1.objects[c].props[ks[j]],
                          st.next, st1.next, lo, st'.next);
    }
  }

  /** `cloneObject(original)`. Data values are cloned by the recursive call; `rank` shows that
      no data value leads back to an object being cloned, and `src` holds the originals. */
  method CloneObject(h: Heap, original: Value, ghost src: map<Ref, JsObject>, ghost rank: map<Ref, nat>)
    returns (clone: Value)
    requires h.Valid() && ValueIn(h.objects, original)
    requires DataRanked(src, rank) && ValueRanked(rank, original) && Agrees(h.objects, src, rank)
    modifies h
    ensures h.Valid() && ValueIn(h.objects, clone) && Agrees(h.objects, src, rank)
    ensures (clone, h.State()) == CloneValue(src, rank, original, old(h.State()))
    decreases Measure(rank, original), 2
  {
    if TypeOf(original) != "object" || original == Null {
      return original;
    }
    var o := h.objects[original.ref];
    var c := h.NewObject(o.proto);
    CloneKeysInto(h, original.ref, c, src, rank);
    clone := ObjectRef(c);
  }

  /** The loop over the own keys of original `r`, defining each cloned property on the new
      object `c`. */
  method CloneKeysInto(h: Heap, r: Ref, c: Ref, ghost src: map<Ref, JsObject>, ghost rank: map<Ref, nat>)
    requires h.Valid() && DataRanked(src, rank) && Agrees(h.objects, src, rank) && r in rank
    requires c in h.objects && c < h.next && c !in rank && h.objects[c] == JsObject([], map[], src[r].proto, true)
    modifies h
    ensures h.Valid() && Agrees(h.objects, src, rank)
    ensures h.State() == CloneKeys(src, rank, r, old(h.State()), c, |ObjectKeys(src[r])|)
    decreases rank[r] + 1, 1
  {
    ghost var st1 := h.State();
    var keys := ObjectKeys(h.objects[r]);
    ObjectKeysDistinct(src[r]);
    var i := 0;
    while i < |keys|
      invariant 0 <= i <= |keys|
      invariant h.Valid() && Agrees(h.objects, src, rank)
      invariant h.State() == CloneKeys(src, rank, r, st1, c, i)
    {
      CloneKeysShape(src, rank, r, st1, c, i);
      assert keys[i] !in keys[..i];
      CloneKey(h, r, c, keys[i], src, rank);
      i := i + 1;
    }
  }

  /** The body of the loop over the original's keys: defines on the clone `c` the descriptor
      cloned from own property `key` of original `r`, cloning a data value first. */
  method CloneKey(h: Heap, r: Ref, c: Ref, key: Key, ghost src: map<Ref, JsObject>, ghost rank: map<Ref, nat>)
    requires h.Valid() && DataRanked(src, rank) && Agrees(h.objects, src, rank)
    requires r in rank && key in src[r].props
    requires c in h.objects && c !in rank && key !in h.objects[c].props && h.objects[c].extensible
    modifies h
    ensures h.Valid() && Agrees(h.objects, src, rank)
    ensures h.State() == CloneKeyStep(src, rank, r, old(h.State()), c, key)
    decreases rank[r] + 1, 0
  {
    var d := h.objects[r].props[key];
    if HasAccessorFunctions(d) {
      h.DefineProperty(c, key, Accessor(d.getter, d.setter, d.enumerable, true));
    } else {
      ghost var before := h.State();
      var v := CloneObject(h, DescriptorValue(d), src, rank);
      CloneValueKeepsAt(src, rank, DescriptorValue(d), before, c);
      h.DefineProperty(c, key, Data(v, true, d.enumerable, true));
    }
  }
}
