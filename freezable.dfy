/** `src/freezable.ts`: the copy-then-mutate `changeObject` and the `Freezable` class, whose
    `frozen`, `freeze`, `copy`, `clone` and `with` delegate to `Object.isFrozen`,
    `Object.freeze`, `copyObject`, `cloneObject` and `changeObject`. */
module Freezable {
  import opened Objects
  import opened Copying
  import opened Assigning

  /** The keys of `current` the level assigns: `getObjectKeys(current)` filtered by
      `selection.hasOwnProperty(key)`, then by the property of `current` being assignable. */
  function Selected(o: JsObject, sel: JsObject, ks: seq<Key>): seq<Key>
    requires forall k :: k in ks ==> k in o.props
  {
    if ks == [] then []
    else (if ks[0] in sel.props && Assignable(o.props[ks[0]]) then [ks[0]] else []) + Selected(o, sel, ks[1..])
  }

  /** A key is selected exactly when it is listed, an own key of the selection and assignable
      on `current`; no key is selected twice. */
  lemma {:induction false} SelectedMembers(o: JsObject, sel: JsObject, ks: seq<Key>)
    requires forall k :: k in ks ==> k in o.props
    ensures forall k :: k in Selected(o, sel, ks) <==> k in ks && k in sel.props && Assignable(o.props[k])
    ensures Distinct(ks) ==> Distinct(Selected(o, sel, ks))
  {
    if ks != [] {
      SelectedMembers(o, sel, ks[1..]);
      assert forall k :: k in ks <==> k == ks[0] || k in ks[1..];
      if Distinct(ks) {
        assert Distinct(ks[1..]) by {
          forall i, j | 0 <= i < j < |ks[1..]| ensures ks[1..][i] != ks[1..][j] {
            assert ks[1..][i] == ks[i + 1] && ks[1..][j] == ks[j + 1];
          }
        }
        assert ks[0] !in ks[1..] by {
          forall i | 0 <= i < |ks[1..]| ensures ks[1..][i] != ks[0] {
            assert ks[1..][i] == ks[i + 1];
          }
        }
        if ks[0] in sel.props && Assignable(o.props[ks[0]]) {
          ConsDistinct(ks[0], Selected(o, sel, ks[1..]));
        }
      }
    }
  }

  /** One pass of the loop body on object `c`: with a `null` selection the first
      `hasOwnProperty` call throws, so a level with own keys throws; otherwise the selected keys
      are assigned. A level that finishes evaluates to `undefined`, as `forEach` does. */
  ghost function Level(st: Store, host: Host, c: Ref, sel: Value): Run
    requires c in st.objects && KeysListed(st.objects[c])
    requires sel.Null? || (sel.ObjectRef? && sel.ref in st.objects)
  {
    var o := st.objects[c];
    var keys := ObjectKeys(o);
    if sel.Null? then
      if keys == [] then Run(st, Normal(Undefined)) else Run(st, Throw(NullSelection))
    else
      var ks := Selected(o, st.objects[sel.ref], keys);
      SelectedMembers(o, st.objects[sel.ref], keys);
      Run(AssignAll(st, host, c, sel.ref, ks), Normal(Undefined))
  }

  /** A level keeps the heap's shape, changes no object but `c`, and allocates nothing; on `c`
      it changes only properties the selection owns and that are writable data or have a setter. */
  lemma LevelShape(st: Store, host: Host, c: Ref, sel: Value)
    requires c in st.objects && KeysListed(st.objects[c])
    requires sel.Null? || (sel.ObjectRef? && sel.ref in st.objects)
    ensures var r := Level(st, host, c, sel);
      SameShape(st.objects, r.store.objects) && r.store.next == st.next &&
      (forall x :: x in st.objects && x != c ==> x in r.store.objects && r.store.objects[x] == st.objects[x]) &&
      (forall x: Ref, k: Key :: !Kept(st.objects, r.store.objects, x, k) ==>
         x == c && sel.ObjectRef? && k in st.objects[sel.ref].props && Assignable(st.objects[c].props[k]))
  {
    if sel.ObjectRef? {
      var o := st.objects[c];
      var ks := Selected(o, st.objects[sel.ref], ObjectKeys(o));
      SelectedMembers(o, st.objects[sel.ref], ObjectKeys(o));
      AssignAllShape(st, host, c, sel.ref, ks);
      AssignAllFrame(st, host, c, sel.ref, ks);
    }
  }

  /** What the change needs of the heap: the next reference is fresh, user functions return
      values of the heap, the argument is a value of the heap, and an object original lists its own keys once each and
      has a prototype in the heap, other than itself, that lists its own keys. */
  ghost predicate Ready(st: Store, host: Host, original: Value, arg: Value)
  {
    st.next !in st.objects && HostClosed(host, st.objects) && ValueIn(st.objects, arg) &&
    (original.ObjectRef? ==>
       var r := original.ref;
       r in st.objects && WellFormed(st.objects[r]) &&
       (st.objects[r].proto.Some? ==>
          st.objects[r].proto.value in st.objects && st.objects[r].proto.value != r &&
          KeysListed(st.objects[st.objects[r].proto.value])))
  }

  /** The loop of `changeObject` once the copy `c` exists: it visits the copy, then
      `Object.getPrototypeOf(copy)`; the next step reads the copy's prototype again, so the walk
      ends there, or throws at `getObjectKeys(null)` when that prototype is `null`. */
  ghost function ChangeCopy(st: Store, host: Host, c: Ref, sel: Value): Run
    requires c in st.objects && KeysListed(st.objects[c])
    requires st.objects[c].proto.Some? ==>
      st.objects[c].proto.value in st.objects && st.objects[c].proto.value != c &&
      KeysListed(st.objects[st.objects[c].proto.value])
    requires sel.Null? || (sel.ObjectRef? && sel.ref in st.objects)
  {
    var r1 := Level(st, host, c, sel);
    if r1.completion.Throw? then r1
    else
      LevelShape(st, host, c, sel);
      var proto := PrototypeOf(r1.store.objects[c]);
      if proto.Null? then Run(r1.store, Throw(NullToObject))
      else
        var r2 := Level(r1.store, host, proto.ref, sel);
        if r2.completion.Throw? then r2 else Run(r2.store, Normal(ObjectRef(c)))
  }

  /** The loop changes only the copy and its prototype, keeps every key, prototype and
      descriptor kind, and returns the copy. */
  lemma ChangeCopyEffect(st: Store, host: Host, c: Ref, sel: Value)
    requires c in st.objects && KeysListed(st.objects[c])
    requires st.objects[c].proto.Some? ==>
      st.objects[c].proto.value in st.objects && st.objects[c].proto.value != c &&
      KeysListed(st.objects[st.objects[c].proto.value])
    requires sel.Null? || (sel.ObjectRef? && sel.ref in st.objects)
    ensures var r := ChangeCopy(st, host, c, sel);
      SameShape(st.objects, r.store.objects) && r.store.next == st.next &&
      (forall x :: x in st.objects && x != c && st.objects[c].proto != Some(x) ==>
         x in r.store.objects && r.store.objects[x] == st.objects[x]) &&
      (r.completion.Normal? ==> r.completion.value == ObjectRef(c))
  {
    LevelShape(st, host, c, sel);
    var r1 := Level(st, host, c, sel);
    var proto := PrototypeOf(st.objects[c]);
    if r1.completion.Normal? && proto.ObjectRef? {
      LevelShape(r1.store, host, proto.ref, sel);
      SameShapeTrans(st.objects, r1.store.objects, Level(r1.store, host, proto.ref, sel).store.objects);
    }
  }

  /** The loop changes a property only on the copy or on its prototype, only at a key the
      selection owns, and only where that property is writable data or has a setter. */
  lemma ChangeCopyFrame(st: Store, host: Host, c: Ref, sel: Value)
    requires c in st.objects && KeysListed(st.objects[c])
    requires st.objects[c].proto.Some? ==>
      st.objects[c].proto.value in st.objects && st.objects[c].proto.value != c &&
      KeysListed(st.objects[st.objects[c].proto.value])
    requires sel.Null? || (sel.ObjectRef? && sel.ref in st.objects)
    ensures var r := ChangeCopy(st, host, c, sel);
      forall x: Ref, k: Key :: !Kept(st.objects, r.store.objects, x, k) ==>
        (x == c || st.objects[c].proto == Some(x)) && sel.ObjectRef? &&
        k in st.objects[sel.ref].props && Assignable(st.objects[x].props[k])
  {
    LevelShape(st, host, c, sel);
    var r1 := Level(st, host, c, sel);
    var proto := PrototypeOf(st.objects[c]);
    if r1.completion.Normal? && proto.ObjectRef? {
      LevelShape(r1.store, host, proto.ref, sel);
      var r2 := Level(r1.store, host, proto.ref, sel);
      assert ChangeCopy(st, host, c, sel).store == r2.store;
      forall x: Ref, k: Key | !Kept(st.objects, r2.store.objects, x, k)
        ensures (x == c || st.objects[c].proto == Some(x)) && sel.ObjectRef? &&
          k in st.objects[sel.ref].props && Assignable(st.objects[x].props[k])
      {
        if Kept(st.objects, r1.store.objects, x, k) {
          assert !Kept(r1.store.objects, r2.store.objects, x, k);
          assert SameKind(st.objects[x].props[k], r1.store.objects[x].props[k]);
        }
      }
    }
  }

  /** When the selection is an object other than the copy, each writable data property of the
      copy's prototype that the selection also owns ends up holding what the selection had under
      that key: the walk assigns there too, even when the copy has the same key. */
  lemma ChangeCopyProtoValues(st: Store, host: Host, c: Ref, sel: Ref, k: Key)
    requires c in st.objects && KeysListed(st.objects[c])
    requires st.objects[c].proto.Some?
    requires var p := st.objects[c].proto.value; p in st.objects && p != c && WellFormed(st.objects[p])
    requires sel in st.objects && sel != c
    requires var p := st.objects[c].proto.value;
      k in st.objects[p].props && k in st.objects[sel].props &&
      st.objects[p].props[k].Data? && st.objects[p].props[k].writable
    ensures var p := st.objects[c].proto.value; var r := ChangeCopy(st, host, c, ObjectRef(sel));
      p in r.store.objects && k in r.store.objects[p].props &&
      r.store.objects[p].props[k] == st.objects[p].props[k].(value := SelectionValue(st, host, sel, k))
  {
    var p := st.objects[c].proto.value;
    LevelShape(st, host, c, ObjectRef(sel));
    var r1 := Level(st, host, c, ObjectRef(sel));
    assert r1.store.objects[p] == st.objects[p] && r1.store.objects[sel] == st.objects[sel];
    LevelValues(r1.store, host, p, sel, k);
    SelectionValueFrame(r1.store, st, host, sel, k);
    assert ChangeCopy(st, host, c, ObjectRef(sel)).store == Level(r1.store, host, p, ObjectRef(sel)).store;
  }

  /** When the selection is an object other than the copy, each writable data property of the
      copy that the selection also owns ends up holding what the selection had under that key. */
  lemma ChangeCopyValues(st: Store, host: Host, c: Ref, sel: Ref, k: Key)
    requires c in st.objects && WellFormed(st.objects[c])
    requires st.objects[c].proto.Some? ==>
      st.objects[c].proto.value in st.objects && st.objects[c].proto.value != c &&
      KeysListed(st.objects[st.objects[c].proto.value])
    requires sel in st.objects && sel != c
    requires k in st.objects[c].props && k in st.objects[sel].props
    requires st.objects[c].props[k].Data? && st.objects[c].props[k].writable
    ensures var r := ChangeCopy(st, host, c, ObjectRef(sel));
      c in r.store.objects && k in r.store.objects[c].props &&
      r.store.objects[c].props[k] == st.objects[c].props[k].(value := SelectionValue(st, host, sel, k))
  {
    var r1 := Level(st, host, c, ObjectRef(sel));
    LevelValues(st, host, c, sel, k);
    LevelShape(st, host, c, ObjectRef(sel));
    var proto := PrototypeOf(r1.store.objects[c]);
    if proto.Null? {
      assert ChangeCopy(st, host, c, ObjectRef(sel)).store == r1.store;
    } else {
      LevelShape(r1.store, host, proto.ref, ObjectRef(sel));
      var r2 := Level(r1.store, host, proto.ref, ObjectRef(sel));
      assert ChangeCopy(st, host, c, ObjectRef(sel)).store == r2.store;
      assert r2.store.objects[c] == r1.store.objects[c];
    }
  }

  /** A level leaves each writable data property the selection also owns holding what the
      selection had under that key before the level. */
  lemma LevelValues(st: Store, host: Host, c: Ref, sel: Ref, k: Key)
    requires c in st.objects && WellFormed(st.objects[c])
    requires sel in st.objects
    requires k in st.objects[c].props && k in st.objects[sel].props
    requires st.objects[c].props[k].Data? && st.objects[c].props[k].writable
    ensures var r := Level(st, host, c, ObjectRef(sel));
      c in r.store.objects && k in r.store.objects[c].props &&
      r.store.objects[c].props[k] == st.objects[c].props[k].(value := SelectionValue(st, host, sel, k))
  {
    var o := st.objects[c];
    var ks := Selected(o, st.objects[sel], ObjectKeys(o));
    SelectedMembers(o, st.objects[sel], ObjectKeys(o));
    ObjectKeysDistinct(o);
    AssignAllValues(st, host, c, sel, ks);
  }

  /** With an object selection the walk returns the copy when the copy has a prototype, and
      throws at `getObjectKeys(null)` when it has none. With a `null` selection it throws at the first `hasOwnProperty` as soon as the
      copy has an own key; otherwise it goes on to the prototype, where it throws at
      `getObjectKeys(null)` for a `null` prototype or at `hasOwnProperty` for one with own keys. */
  lemma ChangeCopyThrows(st: Store, host: Host, c: Ref, sel: Value)
    requires c in st.objects && KeysListed(st.objects[c])
    requires st.objects[c].proto.Some? ==>
      st.objects[c].proto.value in st.objects && st.objects[c].proto.value != c &&
      KeysListed(st.objects[st.objects[c].proto.value])
    requires sel.Null? || (sel.ObjectRef? && sel.ref in st.objects)
    ensures st.objects[c].proto.None? && sel.ObjectRef? ==>
      ChangeCopy(st, host, c, sel).completion == Throw(NullToObject)
    ensures st.objects[c].proto.Some? && sel.ObjectRef? ==>
      ChangeCopy(st, host, c, sel).completion == Normal(ObjectRef(c))
    ensures sel.Null? && st.objects[c].keys != [] ==>
      ChangeCopy(st, host, c, sel).completion == Throw(NullSelection)
    ensures sel.Null? && st.objects[c].keys == [] ==>
      ChangeCopy(st, host, c, sel).completion ==
        if st.objects[c].proto.None? then Throw(NullToObject)
        else if st.objects[st.objects[c].proto.value].keys != [] then Throw(NullSelection)
        else Normal(ObjectRef(c))
  {
    LevelShape(st, host, c, sel);
    if sel.Null? && st.objects[c].keys != [] {
      assert st.objects[c].keys[0] in ObjectKeys(st.objects[c]);
    }
    if sel.Null? && st.objects[c].keys == [] && st.objects[c].proto.Some? {
      var p := st.objects[c].proto.value;
      if st.objects[p].keys != [] {
        assert st.objects[p].keys[0] in ObjectKeys(st.objects[p]);
      }
    }
  }

  /** `changeObject(original, arg)` of `src/freezable.ts`: the argument is checked first, then
      a primitive or `null` original is returned as is; the selection is `arg` or, for a
      function, what it returns for `original`, and must have `typeof` 'object'. The original
      is then copied and the copy changed. */
  ghost function Changed(st: Store, host: Host, original: Value, arg: Value): Run
    requires Ready(st, host, original, arg)
  {
    if TypeOf(arg) != "object" && TypeOf(arg) != "function" then Run(st, Throw(NotObjectOrFunction))
    else if TypeOf(original) != "object" || original == Null then Run(st, Normal(original))
    else
      var (sel, st1) := SelectionOf(st, host, original, arg);
      if TypeOf(sel) != "object" then Run(st1, Throw(SelectorResultNotObject))
      else
        CopyOfShape(st1.objects[original.ref]);
        ChangeCopy(Copied(st1, original.ref), host, st1.next, sel)
  }

  /** The guards, in source order: an argument that is neither an object nor a function
      throws even for a primitive original; otherwise a primitive or `null` original comes back
      unchanged with nothing called; a selector whose result's `typeof` is not 'object' throws,
      after the one call to the selector, and a `null` result passes. */
  lemma ChangedGuards(st: Store, host: Host, original: Value, arg: Value)
    requires Ready(st, host, original, arg)
    ensures var r := Changed(st, host, original, arg);
      (!(arg.ObjectRef? || arg.Null? || arg.Function?) ==> r == Run(st, Throw(NotObjectOrFunction))) &&
      ((arg.ObjectRef? || arg.Null? || arg.Function?) && !original.ObjectRef? ==> r == Run(st, Normal(original))) &&
      (arg.Function? && original.ObjectRef? ==>
         var v := host.result(arg.fn, Undefined, [original]);
         (!(v.ObjectRef? || v.Null?) <==> r.completion == Throw(SelectorResultNotObject)) &&
         (!(v.ObjectRef? || v.Null?) ==>
            r.store == st.(calls := st.calls + [Call(arg.fn, Undefined, [original])])))
  {
    if arg.Function? && original.ObjectRef? {
      var (sel, st1) := SelectionOf(st, host, original, arg);
      if sel.ObjectRef? || sel.Null? {
        CopyOfShape(st1.objects[original.ref]);
        var st2 := Copied(st1, original.ref);
        ChangeCopyEffect(st2, host, st1.next, sel);
        LevelShape(st2, host, st1.next, sel);
      }
    }
  }

  /** Past the guards, the change is the walk over a fresh copy of the original. */
  lemma ChangedUnfold(st: Store, host: Host, original: Value, arg: Value)
    requires Ready(st, host, original, arg)
    requires original.ObjectRef? && (arg.ObjectRef? || arg.Null? || arg.Function?)
    requires var sel := SelectionOf(st, host, original, arg).0; sel.ObjectRef? || sel.Null?
    ensures var (sel, st1) := SelectionOf(st, host, original, arg);
      var st2 := Copied(st1, original.ref);
      st1.next == st.next && st2.objects == st.objects[st.next := CopyOf(st.objects[original.ref])] &&
      Changed(st, host, original, arg) == ChangeCopy(st2, host, st.next, sel)
  {
    CopyOfShape(st.objects[original.ref]);
  }

  /** What a change that gets past the guards does: it allocates exactly one object, the copy,
      and returns it when it completes; the original object is left as it was, and so is every
      object other than the copy and the original's prototype; no key, prototype or descriptor
      kind changes, so keys the two visited objects lack are never created. */
  lemma ChangedEffect(st: Store, host: Host, original: Value, arg: Value)
    requires Ready(st, host, original, arg)
    requires original.ObjectRef? && (arg.ObjectRef? || arg.Null? || arg.Function?)
    ensures var sel := SelectionOf(st, host, original, arg).0;
      var r := Changed(st, host, original, arg);
      var o := st.objects[original.ref];
      (sel.ObjectRef? || sel.Null?) ==>
        r.store.next == st.next + 1 &&
        (r.completion.Normal? ==> r.completion.value == ObjectRef(st.next)) &&
        SameShape(st.objects[st.next := CopyOf(o)], r.store.objects) &&
        r.store.objects[original.ref] == o &&
        (forall x :: x in st.objects && o.proto != Some(x) ==> r.store.objects[x] == st.objects[x])
  {
    var (sel, st1) := SelectionOf(st, host, original, arg);
    if sel.ObjectRef? || sel.Null? {
      var o := st.objects[original.ref];
      CopyOfShape(o);
      ChangedUnfold(st, host, original, arg);
      var st2 := Copied(st1, original.ref);
      assert st2.objects == st.objects[st.next := CopyOf(o)] && st2.next == st.next + 1;
      assert st2.objects[st.next].proto == o.proto && original.ref != st.next;
      ChangeCopyEffect(st2, host, st.next, sel);
      var r := ChangeCopy(st2, host, st.next, sel);
      forall x | x in st.objects && o.proto != Some(x)
        ensures r.store.objects[x] == st.objects[x]
      {
        assert x != st.next && st2.objects[x] == st.objects[x];
      }
    }
  }

  /** What a change that gets past the guards leaves alone: a property changes only on the copy
      or on the original's prototype, only at a key the selection owns, and only where it is
      writable data or has a setter. So every other property of the copy keeps the descriptor
      `copyObject` gave it, and a `null` selection changes no property. */
  lemma ChangedFrame(st: Store, host: Host, original: Value, arg: Value)
    requires Ready(st, host, original, arg)
    requires original.ObjectRef? && (arg.ObjectRef? || arg.Null? || arg.Function?)
    ensures var sel := SelectionOf(st, host, original, arg).0;
      var r := Changed(st, host, original, arg);
      var o := st.objects[original.ref];
      var before := st.objects[st.next := CopyOf(o)];
      (sel.ObjectRef? || sel.Null?) ==>
        forall x: Ref, k: Key :: !Kept(before, r.store.objects, x, k) ==>
          (x == st.next || o.proto == Some(x)) && sel.ObjectRef? &&
          k in st.objects[sel.ref].props && Assignable(before[x].props[k])
    ensures var sel := SelectionOf(st, host, original, arg).0;
      var r := Changed(st, host, original, arg);
      var o := st.objects[original.ref];
      (sel.ObjectRef? || sel.Null?) ==>
        forall k ::
          (k in o.props && !(sel.ObjectRef? && k in st.objects[sel.ref].props && Assignable(CopiedProperty(o.props[k])))) ==>
          st.next in r.store.objects && k in r.store.objects[st.next].props &&
          r.store.objects[st.next].props[k] == CopiedProperty(o.props[k])
  {
    var (sel, st1) := SelectionOf(st, host, original, arg);
    if sel.ObjectRef? || sel.Null? {
      var o := st.objects[original.ref];
      CopyOfShape(o);
      ChangedUnfold(st, host, original, arg);
      var st2 := Copied(st1, original.ref);
      assert st2.objects[st.next].proto == o.proto && original.ref != st.next;
      ChangeCopyFrame(st2, host, st.next, sel);
      var r := ChangeCopy(st2, host, st.next, sel);
      forall k | k in o.props &&
          !(sel.ObjectRef? && k in st.objects[sel.ref].props && Assignable(CopiedProperty(o.props[k])))
        ensures st.next in r.store.objects && k in r.store.objects[st.next].props &&
          r.store.objects[st.next].props[k] == CopiedProperty(o.props[k])
      {
        assert Kept(st2.objects, r.store.objects, st.next, k);
      }
    }
  }

  /** Each writable data property of the original's prototype that the selection owns ends up
      holding what the selection has under that key: the change reaches past the copy into an
      object it shares with the original. */
  lemma ChangedProtoValues(st: Store, host: Host, original: Value, arg: Value, k: Key)
    requires Ready(st, host, original, arg)
    requires original.ObjectRef? && (arg.ObjectRef? || arg.Null? || arg.Function?)
    requires var sel := SelectionOf(st, host, original, arg).0; var o := st.objects[original.ref];
      sel.ObjectRef? && o.proto.Some? && WellFormed(st.objects[o.proto.value]) &&
      k in st.objects[o.proto.value].props && k in st.objects[sel.ref].props &&
      st.objects[o.proto.value].props[k].Data? && st.objects[o.proto.value].props[k].writable
    ensures var sel := SelectionOf(st, host, original, arg).0;
      var r := Changed(st, host, original, arg);
      var p := st.objects[original.ref].proto.value;
      p in r.store.objects && k in r.store.objects[p].props &&
      r.store.objects[p].props[k] == st.objects[p].props[k].(value := SelectionValue(st, host, sel.ref, k))
  {
    var (sel, st1) := SelectionOf(st, host, original, arg);
    var o := st.objects[original.ref];
    var p := o.proto.value;
    var st2 := Copied(st1, original.ref);
    var r := ChangeCopy(st2, host, st.next, sel);
    assert Changed(st, host, original, arg) == r by {
      ChangedUnfold(st, host, original, arg);
    }
    assert st2.objects[p] == st.objects[p] && st2.objects[sel.ref] == st.objects[sel.ref] by {
      assert p != st.next && sel.ref != st.next;
    }
    assert SelectionValue(st2, host, sel.ref, k) == SelectionValue(st, host, sel.ref, k) by {
      SelectionValueFrame(st2, st, host, sel.ref, k);
    }
    CopyOfShape(o);
    assert st2.objects[st.next].proto == o.proto && p != st.next && sel.ref != st.next;
    ChangeCopyProtoValues(st2, host, st.next, sel.ref, k);
  }

  /** Each own key of the selection that the original holds as data (or as an accessor with
      neither getter nor setter) ends up on the copy as writable, configurable data with the
      original's enumerable flag, holding what the selection has under that key. */
  lemma ChangedValues(st: Store, host: Host, original: Value, arg: Value, k: Key)
    requires Ready(st, host, original, arg)
    requires original.ObjectRef? && (arg.ObjectRef? || arg.Null? || arg.Function?)
    requires var sel := SelectionOf(st, host, original, arg).0; var o := st.objects[original.ref];
      sel.ObjectRef? && k in o.props && k in st.objects[sel.ref].props && !HasAccessorFunctions(o.props[k])
    ensures var sel := SelectionOf(st, host, original, arg).0;
      var r := Changed(st, host, original, arg);
      var o := st.objects[original.ref];
      st.next in r.store.objects && k in r.store.objects[st.next].props &&
      r.store.objects[st.next].props[k] == Data(SelectionValue(st, host, sel.ref, k), true, o.props[k].enumerable, true)
  {
    var (sel, st1) := SelectionOf(st, host, original, arg);
    var o := st.objects[original.ref];
    CopyOfShape(o);
    ChangedUnfold(st, host, original, arg);
    var st2 := Copied(st1, original.ref);
    var cp := CopyOf(o);
    assert st2.objects[st.next] == cp && cp.props[k] == CopiedProperty(o.props[k]);
    assert sel.ref in st2.objects && st2.objects[sel.ref] == st.objects[sel.ref] && sel.ref != st.next;
    assert cp.proto.Some? ==> st2.objects[cp.proto.value] == st.objects[cp.proto.value];
    ChangeCopyValues(st2, host, st.next, sel.ref, k);
    SelectionValueFrame(st2, st, host, sel.ref, k);
  }

  /** The walk's ends: with an object selection, the change returns the copy when the original
      has a prototype, and throws at `getObjectKeys(null)` when it has none. With a `null` selection, the first own key met on the
      copy or then on the original's prototype makes it throw at `selection.hasOwnProperty`; with
      no key on the copy, it throws at `getObjectKeys(null)` when there is no prototype, and returns
      the copy when the prototype has no key either. */
  lemma ChangedThrows(st: Store, host: Host, original: Value, arg: Value)
    requires Ready(st, host, original, arg)
    requires original.ObjectRef? && (arg.ObjectRef? || arg.Null? || arg.Function?)
    ensures var sel := SelectionOf(st, host, original, arg).0;
      var r := Changed(st, host, original, arg);
      var o := st.objects[original.ref];
      (sel.ObjectRef? && o.proto.None? ==> r.completion == Throw(NullToObject)) &&
      (sel.ObjectRef? && o.proto.Some? ==> r.completion == Normal(ObjectRef(st.next))) &&
      (sel.Null? && o.keys != [] ==> r.completion == Throw(NullSelection)) &&
      (sel.Null? && o.keys == [] ==>
         r.completion ==
           if o.proto.None? then Throw(NullToObject)
           else if st.objects[o.proto.value].keys != [] then Throw(NullSelection)
           else Normal(ObjectRef(st.next)))
  {
    var (sel, st1) := SelectionOf(st, host, original, arg);
    if sel.ObjectRef? || sel.Null? {
      var o := st.objects[original.ref];
      var st2 := Copied(st1, original.ref);
      var r := ChangeCopy(st2, host, st.next, sel);
      assert Changed(st, host, original, arg) == r by {
        ChangedUnfold(st, host, original, arg);
      }
      assert st2.objects[st.next].proto == o.proto && st2.objects[st.next].keys == ObjectKeys(o) &&
        (o.proto.Some? ==> st2.objects[o.proto.value] == st.objects[o.proto.value]) by {
        CopyOfShape(o);
      }
      ChangeCopyThrows(st2, host, st.next, sel);
      if o.keys != [] {
        assert o.keys[0] in ObjectKeys(o);
      }
    }
  }

  /** `changeObject(original, arg)`. */
  method ChangeObject(h: Heap, original: Value, arg: Value) returns (result: Completion)
    requires h.Valid() && ValueIn(h.objects, original) && ValueIn(h.objects, arg)
    modifies h
    ensures h.Valid()
    ensures Run(h.State(), result) == Changed(old(h.State()), h.host, original, arg)
  {
    if TypeOf(arg) != "object" && TypeOf(arg) != "function" {
      return Throw(NotObjectOrFunction);
    }
    if TypeOf(original) != "object" || original == Null {
      return Normal(original);
    }
    var selection := arg;
    if TypeOf(arg) == "function" {
      selection := h.Invoke(arg.fn, Undefined, [original]);
    }
    if TypeOf(selection) != "object" {
      return Throw(SelectorResultNotObject);
    }
    ghost var st1 := h.State();
    var copy := CopyObject(h, original);
    CopyOfShape(st1.objects[original.ref]);
    result := ChangeLevels(h, copy.ref, selection);
  }

  /** The `for` loop of `changeObject` over the copy `c` and its prototype. */
  method ChangeLevels(h: Heap, c: Ref, selection: Value) returns (result: Completion)
    requires h.Valid() && c in h.objects
    requires h.objects[c].proto.Some? ==> h.objects[c].proto.value != c
    requires selection.Null? || (selection.ObjectRef? && selection.ref in h.objects)
    modifies h
    ensures h.Valid()
    ensures Run(h.State(), result) == ChangeCopy(old(h.State()), h.host, c, selection)
  {
    ghost var st := h.State();
    ghost var r1 := Level(st, h.host, c, selection);
    LevelShape(st, h.host, c, selection);
    ghost var proto := PrototypeOf(st.objects[c]);
    var copy := ObjectRef(c);
    var previous := Null;
    var current := copy;
    ghost var phase := 0;
    while current != previous
      invariant h.Valid() && phase <= 2
      invariant phase == 0 ==> previous == Null && current == copy && h.State() == st
      invariant phase == 1 ==>
        previous == copy && current == proto && r1.completion.Normal? && h.State() == r1.store
      invariant phase == 2 ==>
        r1.completion.Normal? && proto.ObjectRef? && previous == current == proto &&
        var r2 := Level(r1.store, h.host, proto.ref, selection);
        r2.completion.Normal? && h.State() == r2.store
      decreases 2 - phase
    {
      if current == Null {
        return Throw(NullToObject);
      }
      ghost var before := h.State();
      var keys := ObjectKeys(h.objects[current.ref]);
      if selection == Null {
        if keys != [] {
          return Throw(NullSelection);
        }
      } else {
        var selected := Selected(h.objects[current.ref], h.objects[selection.ref], keys);
        SelectedMembers(h.objects[current.ref], h.objects[selection.ref], keys);
        AssignKeys(h, current.ref, selection.ref, selected);
      }
      LevelShape(before, h.host, current.ref, selection);
      previous := current;
      current := PrototypeOf(h.objects[c]);
      phase := phase + 1;
    }
    return Normal(copy);
  }

  /** A `Freezable` instance: the object `self` of the heap. */
  class Freezable {
    const heap: Heap
    const self: Ref

    constructor (heap: Heap, self: Ref)
      requires heap.Valid() && self in heap.objects
      ensures Valid() && this.heap == heap && this.self == self
    {
      this.heap := heap;
      this.self := self;
    }

    ghost predicate Valid()
      reads this, heap
    {
      heap.Valid() && self in heap.objects
    }

    /** `frozen`: `Object.isFrozen(this)`, which holds exactly when freezing would change nothing. */
    function Frozen(): (b: bool)
      reads this, heap
      requires self in heap.objects
      ensures b <==> FreezeObject(heap.objects[self]) == heap.objects[self]
    {
      FrozenIsFreezeFixpoint(heap.objects[self]);
      IsFrozen(heap.objects[self])
    }

    /** `freeze()`: `Object.freeze(this)`, which returns `this`, now frozen; nothing else changes. */
    method Freeze() returns (r: Value)
      requires Valid()
      modifies heap
      ensures Valid() && r == ObjectRef(self) && Frozen()
      ensures heap.State() == old(heap.State()).(objects := old(heap.objects)[self := FreezeObject(old(heap.objects)[self])])
    {
      heap.Freeze(self);
      r := ObjectRef(self);
    }

    /** `copy()`: `copyObject(this)`, a fresh object that is not frozen even when `this` is. */
    method Copy() returns (r: Value)
      requires Valid()
      modifies heap
      ensures Valid() && r == ObjectRef(old(heap.next)) && r.ref in heap.objects
      ensures heap.State() == Copied(old(heap.State()), self)
      ensures !IsFrozen(heap.objects[r.ref])
    {
      r := CopyObject(heap, ObjectRef(self));
      CopyOfShape(old(heap.objects)[self]);
    }

    /** `clone()`: `cloneObject(this)`; `rank` witnesses that no cycle of data values is
      reachable from `this`, without which `cloneObject` does not return. */
    method Clone(ghost rank: map<Ref, nat>) returns (r: Value)
      requires Valid() && DataRanked(heap.objects, rank) && self in rank
      modifies heap
      ensures Valid()
      ensures (r, heap.State()) == CloneValue(old(heap.objects), rank, ObjectRef(self), old(heap.State()))
    {
      r := CloneObject(heap, ObjectRef(self), heap.objects, rank);
    }

    /** `with(arg)`: `changeObject(this, arg)`. */
    method With(arg: Value) returns (result: Completion)
      requires Valid() && ValueIn(heap.objects, arg)
      modifies heap
      ensures Valid()
      ensures Run(heap.State(), result) == Changed(old(heap.State()), heap.host, ObjectRef(self), arg)
    {
      ghost var st := heap.State();
      result := ChangeObject(heap, ObjectRef(self), arg);
      ChangedGuards(st, heap.host, ObjectRef(self), arg);
      if arg.ObjectRef? || arg.Null? || arg.Function? {
        ChangedEffect(st, heap.host, ObjectRef(self), arg);
      }
    }
  }
}
