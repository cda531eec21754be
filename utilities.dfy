/** `src/utilities.ts`: the in-place `changeObject`. It collects the `for...in` keys of the
    selection as the keys still to set, walks the prototype chain from the original, and at each
    object assigns the pending keys it owns assignably and the selection owns, until none is
    pending. (`copyObject` and `cloneObject` there are the same text as in `src/freezable.ts` and
    are modelled once, in `Copying`.) */
module Utilities {
  import opened Objects
  import opened Assigning

  /** The keys of `current` a pass assigns: `getObjectKeys(current)` filtered by
      `selection.hasOwnProperty(key)`, by `unsetted.has(key)`, and by the property of `current`
      being assignable. */
  function Selected(o: JsObject, sel: JsObject, pending: set<Key>, ks: seq<Key>): seq<Key>
    requires forall k :: k in ks ==> k in o.props
  {
    if ks == [] then []
    else
      (if ks[0] in sel.props && ks[0] in pending && Assignable(o.props[ks[0]]) then [ks[0]] else []) +
      Selected(o, sel, pending, ks[1..])
  }

  /** A key is selected exactly when it is listed, an own key of the selection, pending, and
      assignable on `current`. */
  lemma {:induction false} SelectedMembers(o: JsObject, sel: JsObject, pending: set<Key>, ks: seq<Key>)
    requires forall k :: k in ks ==> k in o.props
    ensures forall k :: k in Selected(o, sel, pending, ks) <==>
      k in ks && k in sel.props && k in pending && Assignable(o.props[k])
  {
    if ks != [] {
      SelectedMembers(o, sel, pending, ks[1..]);
      assert forall k :: k in ks <==> k == ks[0] || k in ks[1..];
    }
  }

  lemma {:induction false} SelectedDistinct(o: JsObject, sel: JsObject, pending: set<Key>, ks: seq<Key>)
    requires forall k :: k in ks ==> k in o.props
    requires Distinct(ks)
    ensures Distinct(Selected(o, sel, pending, ks))
  {
    if ks != [] {
      assert Distinct(ks[1..]) by {
        forall i, j | 0 <= i < j < |ks[1..]| ensures ks[1..][i] != ks[1..][j] {
          assert ks[1..][i] == ks[i + 1] && ks[1..][j] == ks[j + 1];
        }
      }
      assert ks[0] !in ks[1..] by {
        forall i | 0 <= i < |ks[1..]| ensures ks[1..][i] != ks[0] {
          assert ks[1..][i] == ks[i + 1];
        }
      }
      SelectedDistinct(o, sel, pending, ks[1..]);
      SelectedMembers(o, sel, pending, ks[1..]);
      if ks[0] in sel.props && ks[0] in pending && Assignable(o.props[ks[0]]) {
        ConsDistinct(ks[0], Selected(o, sel, pending, ks[1..]));
      }
    }
  }

  /** `for (const key in selection) unsetted.add(key)`: nothing for a `null` selection. */
  function PendingKeys(objects: map<Ref, JsObject>, ghost depth: map<Ref, nat>, sel: Value): (ks: set<Key>)
    requires ChainRanked(objects, depth) && (sel.ObjectRef? ==> sel.ref in objects)
    ensures sel.Null? ==> ks == {}
    ensures forall k :: k in ks ==>
              k.Name? && sel.ObjectRef? &&
              (k in objects[sel.ref].props ==> objects[sel.ref].props[k].enumerable)
    ensures sel.ObjectRef? ==> forall k :: k in objects[sel.ref].props && k.Name? && objects[sel.ref].props[k].enumerable ==> k in ks
    ensures sel.ObjectRef? ==> forall k :: k in ks <==>
      k.Name? && FirstOwner(objects, depth, sel.ref, k).Some? &&
      objects[FirstOwner(objects, depth, sel.ref, k).value].props[k].enumerable
  {
    if sel.ObjectRef? then ForInKeys(objects, depth, sel.ref, {}) else {}
  }

  /** What the walk needs of the heap: finite prototype chains and duplicate-free key lists
      naming the own properties. */
  ghost predicate Walkable(objects: map<Ref, JsObject>, depth: map<Ref, nat>)
  {
    ChainRanked(objects, depth) && forall r :: r in objects ==> WellFormed(objects[r])
  }

  lemma WalkableShape(a: map<Ref, JsObject>, b: map<Ref, JsObject>, depth: map<Ref, nat>)
    requires SameShape(a, b) && Walkable(a, depth)
    ensures Walkable(b, depth)
  {
    ShapeKeepsValid(a, b, depth);
  }

  /** The keys one pass over object `c` assigns with selection `s`: the pending keys `c` owns
      assignably and `s` owns, without repeats. */
  function PassKeys(objects: map<Ref, JsObject>, c: Ref, s: Ref, pending: set<Key>): (ks: seq<Key>)
    requires c in objects && s in objects && WellFormed(objects[c])
    ensures Distinct(ks)
    ensures forall k :: k in ks <==> k in pending && CanAssign(objects, c, s, k)
  {
    var o := objects[c];
    SelectedMembers(o, objects[s], pending, ObjectKeys(o));
    ObjectKeysDistinct(o);
    SelectedDistinct(o, objects[s], pending, ObjectKeys(o));
    Selected(o, objects[s], pending, ObjectKeys(o))
  }

  /** `unsetted` after the pass: the keys the pass could not assign. */
  function Left(objects: map<Ref, JsObject>, c: Ref, s: Ref, pending: set<Key>): (left: set<Key>)
    requires c in objects && s in objects && WellFormed(objects[c])
    ensures forall k :: k in left <==> k in pending && !CanAssign(objects, c, s, k)
  {
    var ks := PassKeys(objects, c, s, pending);
    pending - set k | k in ks
  }

  /** The store after the pass over `c`. */
  ghost function After(st: Store, host: Host, c: Ref, s: Ref, pending: set<Key>): (st': Store)
    requires c in st.objects && s in st.objects && WellFormed(st.objects[c])
    ensures SameShape(st.objects, st'.objects) && st'.next == st.next
  {
    var ks := PassKeys(st.objects, c, s, pending);
    AssignAllShape(st, host, c, s, ks);
    AssignAll(st, host, c, s, ks)
  }

  /** A pass changes only the properties of `c` it assigns. */
  lemma AfterFrame(st: Store, host: Host, c: Ref, s: Ref, pending: set<Key>)
    requires c in st.objects && s in st.objects && WellFormed(st.objects[c])
    ensures forall x: Ref, k: Key :: !Kept(st.objects, After(st, host, c, s, pending).objects, x, k) ==>
      x == c && k in pending && CanAssign(st.objects, c, s, k)
  {
    AssignAllFrame(st, host, c, s, PassKeys(st.objects, c, s, pending));
  }

  /** A pass gives every data property it assigns the value the selection had before the pass. */
  lemma AfterValues(st: Store, host: Host, c: Ref, s: Ref, pending: set<Key>)
    requires c in st.objects && s in st.objects && WellFormed(st.objects[c])
    ensures var st' := After(st, host, c, s, pending);
      forall k :: k in pending && CanAssign(st.objects, c, s, k) && st.objects[c].props[k].Data? ==>
        c in st'.objects && k in st'.objects[c].props &&
        st'.objects[c].props[k] == st.objects[c].props[k].(value := SelectionValue(st, host, s, k))
  {
    AssignAllValues(st, host, c, s, PassKeys(st.objects, c, s, pending));
  }

  /** The walk from object `current` (or `null`) with the keys `pending` still to set. At
      `null`, `getObjectKeys` throws; with a `null` selection the first `hasOwnProperty` throws;
      otherwise the selected keys are assigned and dropped from `pending`, and the walk stops
      with the original once nothing is pending, or goes on to the prototype. */
  ghost function Walk(st: Store, host: Host, depth: map<Ref, nat>, original: Value,
                      current: Value, sel: Value, pending: set<Key>): Run
    requires Walkable(st.objects, depth)
    requires current.Null? || (current.ObjectRef? && current.ref in st.objects)
    requires sel.Null? || (sel.ObjectRef? && sel.ref in st.objects)
    decreases if current.ObjectRef? then depth[current.ref] + 1 else 0
  {
    if current.Null? then Run(st, Throw(NullToObject))
    else
      var o := st.objects[current.ref];
      if sel.Null? then
        if ObjectKeys(o) != [] then Run(st, Throw(NullSelection))
        else if pending == {} then Run(st, Normal(original))
        else Walk(st, host, depth, original, PrototypeOf(o), sel, pending)
      else
        var st' := After(st, host, current.ref, sel.ref, pending);
        WalkableShape(st.objects, st'.objects, depth);
        var left := Left(st.objects, current.ref, sel.ref, pending);
        if left == {} then Run(st', Normal(original))
        else Walk(st', host, depth, original, PrototypeOf(o), sel, left)
  }

  /** One step of the walk from an object with an object selection. */
  lemma WalkUnfold(st: Store, host: Host, depth: map<Ref, nat>, original: Value, c: Ref, s: Ref, pending: set<Key>)
    requires Walkable(st.objects, depth) && c in st.objects && s in st.objects
    ensures var st' := After(st, host, c, s, pending);
      var up := PrototypeOf(st.objects[c]);
      Walkable(st'.objects, depth) && s in st'.objects &&
      (up.Null? || (up.ObjectRef? && up.ref in st'.objects && depth[up.ref] < depth[c]))
    ensures var st' := After(st, host, c, s, pending);
      var left := Left(st.objects, c, s, pending);
      Walk(st, host, depth, original, ObjectRef(c), ObjectRef(s), pending) ==
        if left == {} then Run(st', Normal(original))
        else Walk(st', host, depth, original, PrototypeOf(st.objects[c]), ObjectRef(s), left)
  {
    WalkableShape(st.objects, After(st, host, c, s, pending).objects, depth);
  }

  /** Where a pending key `k` gets assigned: the first object on the chain from `current` that
      owns `k` as writable data or with a setter. Objects below it that own `k` otherwise (read-only
      data, getter-only accessor) are passed over. */
  ghost function Target(objects: map<Ref, JsObject>, depth: map<Ref, nat>, current: Value, k: Key): (x: Option<Ref>)
    requires ChainRanked(objects, depth)
    requires current.Null? || (current.ObjectRef? && current.ref in objects)
    ensures x.Some? ==> x.value in objects && k in objects[x.value].props && Assignable(objects[x.value].props[k])
    ensures current.ObjectRef? && k in objects[current.ref].props && Assignable(objects[current.ref].props[k]) ==>
      x == Some(current.ref)
    decreases if current.ObjectRef? then depth[current.ref] + 1 else 0
  {
    if current.Null? then None
    else if k in objects[current.ref].props && Assignable(objects[current.ref].props[k]) then Some(current.ref)
    else Target(objects, depth, PrototypeOf(objects[current.ref]), k)
  }

  lemma {:induction false} TargetShape(a: map<Ref, JsObject>, b: map<Ref, JsObject>, depth: map<Ref, nat>, current: Value, k: Key)
    requires SameShape(a, b) && ChainRanked(a, depth)
    requires current.Null? || (current.ObjectRef? && current.ref in a)
    ensures ChainRanked(b, depth) && Target(a, depth, current, k) == Target(b, depth, current, k)
    decreases if current.ObjectRef? then depth[current.ref] + 1 else 0
  {
    ShapeKeepsValid(a, b, depth);
    if current.ObjectRef? {
      if k in a[current.ref].props {
        assert SameKind(a[current.ref].props[k], b[current.ref].props[k]);
      }
      TargetShape(a, b, depth, PrototypeOf(a[current.ref]), k);
    }
  }

  /** The walk changes no key, prototype or descriptor kind, allocates nothing, and returns the
      original when it completes; with an object selection it can only complete or throw at
      `getObjectKeys(null)`. */
  lemma {:induction false} WalkShape(st: Store, host: Host, depth: map<Ref, nat>, original: Value,
                                     current: Value, sel: Value, pending: set<Key>)
    requires Walkable(st.objects, depth)
    requires current.Null? || (current.ObjectRef? && current.ref in st.objects)
    requires sel.Null? || (sel.ObjectRef? && sel.ref in st.objects)
    ensures var r := Walk(st, host, depth, original, current, sel, pending);
      SameShape(st.objects, r.store.objects) && r.store.next == st.next &&
      (r.completion.Normal? ==> r.completion.value == original) &&
      (r.completion.Throw? ==> r.completion.error == NullToObject || r.completion.error == NullSelection) &&
      (sel.ObjectRef? ==> r.completion.Normal? || r.completion == Throw(NullToObject))
    decreases if current.ObjectRef? then depth[current.ref] + 1 else 0
  {
    if current.ObjectRef? {
      var o := st.objects[current.ref];
      if sel.Null? {
        if ObjectKeys(o) == [] && pending != {} {
          WalkShape(st, host, depth, original, PrototypeOf(o), sel, pending);
        }
      } else {
        var st' := After(st, host, current.ref, sel.ref, pending);
        var left := Left(st.objects, current.ref, sel.ref, pending);
        WalkUnfold(st, host, depth, original, current.ref, sel.ref, pending);
        if left != {} {
          WalkShape(st', host, depth, original, PrototypeOf(o), sel, left);
          SameShapeTrans(st.objects, st'.objects, Walk(st', host, depth, original, PrototypeOf(o), sel, left).store.objects);
        }
      }
    }
  }

  /** With an object selection `s`, the walk completes exactly when every pending key is an own
      key of `s` and has a target on the chain; otherwise it runs off the end of the chain. */
  lemma {:induction false} WalkCompletes(st: Store, host: Host, depth: map<Ref, nat>, original: Value,
                                         current: Value, s: Ref, pending: set<Key>)
    requires Walkable(st.objects, depth) && s in st.objects
    requires current.Null? || (current.ObjectRef? && current.ref in st.objects)
    requires current.Null? ==> pending != {}
    ensures Walk(st, host, depth, original, current, ObjectRef(s), pending).completion.Normal? <==>
      forall k :: k in pending ==> k in st.objects[s].props && Target(st.objects, depth, current, k).Some?
    decreases if current.ObjectRef? then depth[current.ref] + 1 else 0
  {
    if current.ObjectRef? {
      var c := current.ref;
      var st' := After(st, host, c, s, pending);
      var left := Left(st.objects, c, s, pending);
      var up := PrototypeOf(st.objects[c]);
      WalkUnfold(st, host, depth, original, c, s, pending);
      if left != {} {
        WalkCompletes(st', host, depth, original, up, s, left);
        forall k | k in left
          ensures (k in st'.objects[s].props && Target(st'.objects, depth, up, k).Some?) <==>
                  (k in st.objects[s].props && Target(st.objects, depth, current, k).Some?)
        {
          TargetShape(st.objects, st'.objects, depth, up, k);
        }
      }
    }
  }

  /** With an object selection `s`, the walk changes a property only at a pending key `k` the
      selection owns, and only on `k`'s target. */
  lemma {:induction false} WalkAssignsAtTargets(st: Store, host: Host, depth: map<Ref, nat>, original: Value,
                                                current: Value, s: Ref, pending: set<Key>)
    requires Walkable(st.objects, depth) && s in st.objects
    requires current.Null? || (current.ObjectRef? && current.ref in st.objects)
    ensures var r := Walk(st, host, depth, original, current, ObjectRef(s), pending);
      forall x: Ref, k: Key :: !Kept(st.objects, r.store.objects, x, k) ==>
        k in pending && k in st.objects[s].props && Target(st.objects, depth, current, k) == Some(x)
    decreases if current.ObjectRef? then depth[current.ref] + 1 else 0
  {
    if current.ObjectRef? {
      var c := current.ref;
      var st' := After(st, host, c, s, pending);
      var left := Left(st.objects, c, s, pending);
      var up := PrototypeOf(st.objects[c]);
      WalkUnfold(st, host, depth, original, c, s, pending);
      AfterFrame(st, host, c, s, pending);
      if left != {} {
        var r := Walk(st', host, depth, original, up, ObjectRef(s), left);
        WalkAssignsAtTargets(st', host, depth, original, up, s, left);
        forall x: Ref, k: Key | !Kept(st.objects, r.store.objects, x, k)
          ensures k in pending && k in st.objects[s].props && Target(st.objects, depth, current, k) == Some(x)
        {
          if Kept(st.objects, st'.objects, x, k) {
            assert !Kept(st'.objects, r.store.objects, x, k);
            TargetShape(st.objects, st'.objects, depth, up, k);
          }
        }
      }
    }
  }

  /** With an object selection `s`, the target of every pending key `s` owns ends up, if it
      holds data, holding what `s` had under that key when the walk began. This holds whether the
      walk completes or throws further up the chain: an assignment once made stays. */
  lemma {:induction false} WalkValues(st: Store, host: Host, depth: map<Ref, nat>, original: Value,
                                      current: Value, s: Ref, pending: set<Key>, k: Key)
    requires Walkable(st.objects, depth) && s in st.objects
    requires current.Null? || (current.ObjectRef? && current.ref in st.objects)
    requires k in pending && k in st.objects[s].props
    requires Target(st.objects, depth, current, k).Some?
    ensures var x := Target(st.objects, depth, current, k).value;
      var r := Walk(st, host, depth, original, current, ObjectRef(s), pending);
      x in st.objects && k in st.objects[x].props &&
      (st.objects[x].props[k].Data? ==>
         x in r.store.objects && k in r.store.objects[x].props &&
         r.store.objects[x].props[k] == st.objects[x].props[k].(value := SelectionValue(st, host, s, k)))
    decreases if current.ObjectRef? then depth[current.ref] + 1 else 0
  {
    assert current.ObjectRef?;
    var c := current.ref;
    var st' := After(st, host, c, s, pending);
    var left := Left(st.objects, c, s, pending);
    var up := PrototypeOf(st.objects[c]);
    WalkUnfold(st, host, depth, original, c, s, pending);
    if CanAssign(st.objects, c, s, k) {
      assert Target(st.objects, depth, current, k) == Some(c);
      AfterValues(st, host, c, s, pending);
      if left != {} {
        WalkAssignsAtTargets(st', host, depth, original, up, s, left);
        assert Kept(st'.objects, Walk(st', host, depth, original, up, ObjectRef(s), left).store.objects, c, k);
      }
    } else {
      assert k in left;
      assert Target(st.objects, depth, current, k) == Target(st.objects, depth, up, k);
      TargetShape(st.objects, st'.objects, depth, up, k);
      AfterFrame(st, host, c, s, pending);
      var x := Target(st.objects, depth, current, k).value;
      assert Kept(st.objects, st'.objects, x, k) && Kept(st.objects, st'.objects, s, k);
      WalkValues(st', host, depth, original, up, s, left, k);
      SelectionValueFrame(st', st, host, s, k);
    }
  }

  /** `changeObject(original, arg)` of `src/utilities.ts`: the same guards as the copying
      version, then the walk from the original itself with the `for...in` keys of the
      selection pending. */
  ghost function Changed(st: Store, host: Host, depth: map<Ref, nat>, original: Value, arg: Value): Run
    requires Walkable(st.objects, depth) && HostClosed(host, st.objects)
    requires ValueIn(st.objects, original) && ValueIn(st.objects, arg)
  {
    if TypeOf(arg) != "object" && TypeOf(arg) != "function" then Run(st, Throw(NotObjectOrFunction))
    else if TypeOf(original) != "object" || original == Null then Run(st, Normal(original))
    else
      var (sel, st1) := SelectionOf(st, host, original, arg);
      if TypeOf(sel) != "object" then Run(st1, Throw(SelectorResultNotObject))
      else Walk(st1, host, depth, original, original, sel, PendingKeys(st1.objects, depth, sel))
  }

  /** The guards of `changeObject`, in order, and the `null` selection: an argument that is
      neither an object nor a function throws; a primitive or `null` original comes back as it
      is; a selector result whose `typeof` is not 'object' throws; a `null` selection throws at
      the first `hasOwnProperty` unless the original has no own keys, and changes nothing. */
  lemma ChangedGuards(st: Store, host: Host, depth: map<Ref, nat>, original: Value, arg: Value)
    requires Walkable(st.objects, depth) && HostClosed(host, st.objects)
    requires ValueIn(st.objects, original) && ValueIn(st.objects, arg)
    ensures var r := Changed(st, host, depth, original, arg);
      (!(arg.ObjectRef? || arg.Null? || arg.Function?) ==> r == Run(st, Throw(NotObjectOrFunction))) &&
      ((arg.ObjectRef? || arg.Null? || arg.Function?) && !original.ObjectRef? ==> r == Run(st, Normal(original))) &&
      (arg.Function? && original.ObjectRef? ==>
         var v := host.result(arg.fn, Undefined, [original]);
         (!(v.ObjectRef? || v.Null?) <==> r.completion == Throw(SelectorResultNotObject)) &&
         (!(v.ObjectRef? || v.Null?) ==>
            r.store == st.(calls := st.calls + [Call(arg.fn, Undefined, [original])])))
    ensures var (sel, st1) := SelectionOf(st, host, original, arg);
      original.ObjectRef? && (arg.Null? || arg.Function?) && sel.Null? ==>
        Changed(st, host, depth, original, arg) ==
          if ObjectKeys(st.objects[original.ref]) == [] then Run(st1, Normal(original))
          else Run(st1, Throw(NullSelection))
  {
    if (arg.ObjectRef? || arg.Null? || arg.Function?) && original.ObjectRef? {
      var (sel, st1) := SelectionOf(st, host, original, arg);
      if sel.ObjectRef? || sel.Null? {
        WalkShape(st1, host, depth, original, original, sel, PendingKeys(st1.objects, depth, sel));
      }
    }
  }

  /** `changeObject` works in place: it allocates nothing, changes no key, prototype or kind of
      property, and when it returns normally it returns the original itself. */
  lemma ChangedInPlace(st: Store, host: Host, depth: map<Ref, nat>, original: Value, arg: Value)
    requires Walkable(st.objects, depth) && HostClosed(host, st.objects)
    requires ValueIn(st.objects, original) && ValueIn(st.objects, arg)
    ensures var r := Changed(st, host, depth, original, arg);
      r.store.next == st.next && SameShape(st.objects, r.store.objects) &&
      (r.completion.Normal? ==> r.completion.value == original)
  {
    if (arg.ObjectRef? || arg.Null? || arg.Function?) && original.ObjectRef? {
      var (sel, st1) := SelectionOf(st, host, original, arg);
      if sel.ObjectRef? || sel.Null? {
        WalkShape(st1, host, depth, original, original, sel, PendingKeys(st1.objects, depth, sel));
      }
    }
  }

  /** With an object selection `s`: the call returns the original exactly when every `for...in`
      key of `s` is an own key of `s` with a target on the original's chain, and otherwise throws
      at the end of the chain; the only properties it changes are targets of such keys. */
  lemma ChangedSelection(st: Store, host: Host, depth: map<Ref, nat>, original: Value, arg: Value)
    requires Walkable(st.objects, depth) && HostClosed(host, st.objects)
    requires ValueIn(st.objects, original) && ValueIn(st.objects, arg)
    requires original.ObjectRef? && (arg.ObjectRef? || arg.Function?)
    requires SelectionOf(st, host, original, arg).0.ObjectRef?
    ensures var s := SelectionOf(st, host, original, arg).0.ref;
      var pending := PendingKeys(st.objects, depth, ObjectRef(s));
      var r := Changed(st, host, depth, original, arg);
      (r.completion.Normal? <==>
         forall k :: k in pending ==> k in st.objects[s].props && Target(st.objects, depth, original, k).Some?) &&
      (r.completion.Throw? ==> r.completion.error == NullToObject) &&
      (forall x: Ref, k: Key :: !Kept(st.objects, r.store.objects, x, k) ==>
         k in pending && k in st.objects[s].props && Target(st.objects, depth, original, k) == Some(x))
  {
    var (sel, st1) := SelectionOf(st, host, original, arg);
    var pending := PendingKeys(st1.objects, depth, sel);
    WalkShape(st1, host, depth, original, original, sel, pending);
    WalkCompletes(st1, host, depth, original, original, sel.ref, pending);
    WalkAssignsAtTargets(st1, host, depth, original, original, sel.ref, pending);
  }

  /** With an object selection `s`, every `for...in` key `k` that `s` owns and that has a
      target on the original's chain ends up there, if the target is data, as what `s` had under
      `k` before the call; whether the call returns or throws at the end of the chain. */
  lemma ChangedValues(st: Store, host: Host, depth: map<Ref, nat>, original: Value, arg: Value, k: Key)
    requires Walkable(st.objects, depth) && HostClosed(host, st.objects)
    requires ValueIn(st.objects, original) && ValueIn(st.objects, arg)
    requires original.ObjectRef? && (arg.ObjectRef? || arg.Function?)
    requires SelectionOf(st, host, original, arg).0.ObjectRef?
    requires var s := SelectionOf(st, host, original, arg).0;
      k in PendingKeys(st.objects, depth, s) && k in st.objects[s.ref].props &&
      Target(st.objects, depth, original, k).Some?
    ensures var s := SelectionOf(st, host, original, arg).0.ref;
      var target := Target(st.objects, depth, original, k);
      var r := Changed(st, host, depth, original, arg);
      (st.objects[target.value].props[k].Data? ==>
         target.value in r.store.objects && k in r.store.objects[target.value].props &&
         r.store.objects[target.value].props[k] ==
           st.objects[target.value].props[k].(value := SelectionValue(st, host, s, k)))
  {
    var (sel, st1) := SelectionOf(st, host, original, arg);
    var pending := PendingKeys(st1.objects, depth, sel);
    WalkValues(st1, host, depth, original, original, sel.ref, pending, k);
    SelectionValueFrame(st1, st, host, sel.ref, k);
  }

  /** `changeObject(original, arg)`. */
  method ChangeObject(h: Heap, original: Value, arg: Value) returns (result: Completion)
    requires h.Valid() && ValueIn(h.objects, original) && ValueIn(h.objects, arg)
    modifies h
    ensures h.Valid() && h.depth == old(h.depth)
    ensures Run(h.State(), result) == Changed(old(h.State()), h.host, old(h.depth), original, arg)
  {
    if TypeOf(arg) != "object" && TypeOf(arg) != "function" {
      return Throw(NotObjectOrFunction);
    }
    if TypeOf(original) != "object" || original == Null {
      return Normal(original);
    }
    var selection := arg;
    if TypeOf(arg) == "function" {
      selection := h.Invoke(arg.fn, Undefined, [original]);
    }
    if TypeOf(selection) != "object" {
      return Throw(SelectorResultNotObject);
    }
    var unsetted := PendingKeys(h.objects, h.depth, selection);
    result := WalkChain(h, original, selection, unsetted);
  }

  /** The `for` loop of `changeObject`: `previous` trails `current` up the chain. */
  method WalkChain(h: Heap, original: Value, selection: Value, unsetted: set<Key>) returns (result: Completion)
    requires h.Valid() && original.ObjectRef? && original.ref in h.objects
    requires selection.Null? || (selection.ObjectRef? && selection.ref in h.objects)
    modifies h
    ensures h.Valid() && h.depth == old(h.depth)
    ensures Run(h.State(), result) == Walk(old(h.State()), h.host, old(h.depth), original, original, selection, unsetted)
  {
    var pending := unsetted;
    var previous := Null;
    var current := original;
    while current != previous
      invariant h.Valid() && h.depth == old(h.depth)
      invariant current.Null? || (current.ObjectRef? && current.ref in h.objects)
      invariant selection.Null? || (selection.ObjectRef? && selection.ref in h.objects)
      invariant current != previous
      invariant Walk(h.State(), h.host, h.depth, original, current, selection, pending) ==
                Walk(old(h.State()), h.host, old(h.depth), original, original, selection, unsetted)
      decreases if current.ObjectRef? then h.depth[current.ref] + 1 else 0
    {
      if current == Null {
        return Throw(NullToObject);
      }
      var o := h.objects[current.ref];
      var keys := ObjectKeys(o);
      if selection == Null {
        if keys != [] {
          return Throw(NullSelection);
        }
      } else {
        var selected := PassKeys(h.objects, current.ref, selection.ref, pending);
        var left := Left(h.objects, current.ref, selection.ref, pending);
        ghost var before := h.State();
        AssignKeys(h, current.ref, selection.ref, selected);
        WalkUnfold(before, h.host, h.depth, original, current.ref, selection.ref, pending);
        pending := left;
      }
      if |pending| == 0 {
        break;
      }
      previous := current;
      current := PrototypeOf(h.objects[current.ref]);
    }
    return Normal(original);
  }
}
