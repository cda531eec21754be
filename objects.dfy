/** The part of a JavaScript heap that the object utilities work on: values, property
    descriptors, objects with ordered own keys and a prototype link, and the host operations
    the utilities call (`Object.getOwnPropertyNames` / `getOwnPropertySymbols`, `Object.create`,
    `Object.defineProperty`, property reads and assignments, `Object.freeze`, `Object.isFrozen`,
    `for...in`). User functions (getters, setters, selectors) are opaque: what they return is
    given by a `Host`, and every call the utilities make to one is recorded in the heap. */
module Objects {

  datatype Option<+T> = None | Some(value: T)

  /** The identity of an object in the heap. */
  type Ref = nat

  /** The identity of a user function: a getter, a setter or a selector. */
  type Fn = nat

  /** A property key: a string name or a symbol. */
  datatype Key = Name(name: string) | Symbol(id: nat)

  /** A JavaScript value. Numbers, strings and the other primitives are only ever compared. */
  datatype Value =
    | Undefined
    | Null
    | Boolean(b: bool)
    | Number(n: int)
    | Text(s: string)
    | SymbolValue(id: nat)
    | Function(fn: Fn)
    | ObjectRef(ref: Ref)

  /** The `typeof` operator; `typeof null` is `'object'`. */
  function TypeOf(v: Value): (t: string)
    ensures t == "object" <==> v.Null? || v.ObjectRef?
    ensures t == "function" <==> v.Function?
  {
    match v
    case Undefined => "undefined"
    case Null => "object"
    case Boolean(_) => "boolean"
    case Number(_) => "number"
    case Text(_) => "string"
    case SymbolValue(_) => "symbol"
    case Function(_) => "function"
    case ObjectRef(_) => "object"
  }

  /** An own property descriptor: a data property or an accessor property. */
  datatype Property =
    | Data(value: Value, writable: bool, enumerable: bool, configurable: bool)
    | Accessor(getter: Option<Fn>, setter: Option<Fn>, enumerable: bool, configurable: bool)

  /** What `descriptor.value` reads: the stored value of a data property, `undefined` otherwise. */
  function DescriptorValue(p: Property): Value
  {
    if p.Data? then p.value else Undefined
  }

  /** `typeof d.get !== 'undefined' || typeof d.set !== 'undefined'`. */
  predicate HasAccessorFunctions(p: Property)
  {
    p.Accessor? && (p.getter.Some? || p.setter.Some?)
  }

  /** The filter both change operations apply to a property of the object they assign on:
      `(d.hasOwnProperty('set') && typeof d.set !== 'undefined') || d.writable`. */
  predicate Assignable(p: Property)
  {
    (p.Accessor? && p.setter.Some?) || (p.Data? && p.writable)
  }

  /** An object: its own keys in insertion order, a descriptor per key, its prototype
      (`None` is `null`) and whether it is extensible. */
  datatype JsObject = JsObject(keys: seq<Key>, props: map<Key, Property>, proto: Option<Ref>, extensible: bool)

  ghost predicate Distinct(ks: seq<Key>)
  {
    forall i, j :: 0 <= i < j < |ks| ==> ks[i] != ks[j]
  }

  /** The key list names exactly the own properties. */
  ghost predicate KeysListed(o: JsObject)
  {
    forall k :: k in o.props <==> k in o.keys
  }

  /** Own keys are listed once each, and exactly the keys that have a descriptor. */
  ghost predicate WellFormed(o: JsObject)
  {
    Distinct(o.keys) && KeysListed(o)
  }

  /** The string keys of `ks`, in order: `Object.getOwnPropertyNames`. */
  function Names(ks: seq<Key>): seq<Key>
  {
    if ks == [] then []
    else if ks[0].Name? then [ks[0]] + Names(ks[1..])
    else Names(ks[1..])
  }

  /** The symbol keys of `ks`, in order: `Object.getOwnPropertySymbols`. */
  function Symbols(ks: seq<Key>): seq<Key>
  {
    if ks == [] then []
    else if ks[0].Symbol? then [ks[0]] + Symbols(ks[1..])
    else Symbols(ks[1..])
  }

  /** `getObjectKeys`: the own string keys followed by the own symbol keys. */
  function ObjectKeys(o: JsObject): (r: seq<Key>)
    ensures forall k :: k in r <==> k in o.keys
  {
    NamesMembers(o.keys);
    Names(o.keys) + Symbols(o.keys)
  }

  /** Every string key comes before every symbol key. */
  lemma ObjectKeysOrder(o: JsObject)
    ensures var r := ObjectKeys(o); forall i, j :: 0 <= i < j < |r| && r[i].Symbol? ==> r[j].Symbol?
  {
    NamesMembers(o.keys);
    var names, symbols := Names(o.keys), Symbols(o.keys);
    assert forall i :: 0 <= i < |names| ==> names[i] in names && names[i].Name?;
    assert forall i :: 0 <= i < |symbols| ==> symbols[i] in symbols && symbols[i].Symbol?;
  }

  /** The names are exactly the string keys, the symbols exactly the symbol keys. */
  lemma {:induction false} NamesMembers(ks: seq<Key>)
    ensures forall k :: k in Names(ks) <==> k in ks && k.Name?
    ensures forall k :: k in Symbols(ks) <==> k in ks && k.Symbol?
  {
    if ks != [] {
      NamesMembers(ks[1..]);
      assert forall k :: k in ks <==> k == ks[0] || k in ks[1..];
    }
  }

  lemma {:induction false} NamesAppend(a: seq<Key>, b: seq<Key>)
    ensures Names(a + b) == Names(a) + Names(b)
    ensures Symbols(a + b) == Symbols(a) + Symbols(b)
  {
    if a == [] {
      assert a + b == b;
    } else {
      var ab := a + b;
      assert ab != [] && ab[0] == a[0] && ab[1..] == a[1..] + b;
      NamesAppend(a[1..], b);
      if a[0].Name? {
        calc {
          Names(ab);
          [a[0]] + Names(a[1..] + b);
          [a[0]] + (Names(a[1..]) + Names(b));
          ([a[0]] + Names(a[1..])) + Names(b);
        }
        assert Symbols(ab) == Symbols(a[1..] + b);
      } else {
        assert Names(ab) == Names(a[1..] + b);
        calc {
          Symbols(ab);
          [a[0]] + Symbols(a[1..] + b);
          [a[0]] + (Symbols(a[1..]) + Symbols(b));
          ([a[0]] + Symbols(a[1..])) + Symbols(b);
        }
      }
    }
  }

  lemma {:induction false} NamesIdempotent(ks: seq<Key>)
    ensures Names(Names(ks)) == Names(ks) && Symbols(Symbols(ks)) == Symbols(ks)
    ensures Names(Symbols(ks)) == [] && Symbols(Names(ks)) == []
  {
    if ks != [] {
      NamesIdempotent(ks[1..]);
      var k := ks[0];
      if k.Name? {
        assert Names(ks) == [k] + Names(ks[1..]);
        assert ([k] + Names(ks[1..]))[1..] == Names(ks[1..]);
      } else {
        assert Symbols(ks) == [k] + Symbols(ks[1..]);
        assert ([k] + Symbols(ks[1..]))[1..] == Symbols(ks[1..]);
      }
    }
  }

  /** Listing the keys of an object whose insertion order already is `getObjectKeys` order
      gives that same order back: copies and clones list their keys like the original. */
  lemma ObjectKeysStable(o: JsObject)
    ensures ObjectKeys(o.(keys := ObjectKeys(o))) == ObjectKeys(o)
  {
    var ks := Names(o.keys) + Symbols(o.keys);
    ListingStable(o.keys);
    assert ObjectKeys(o.(keys := ks)) == Names(ks) + Symbols(ks);
  }

  lemma ListingStable(ks: seq<Key>)
    ensures var l := Names(ks) + Symbols(ks); Names(l) + Symbols(l) == l
  {
    var names, symbols := Names(ks), Symbols(ks);
    NamesAppend(names, symbols);
    NamesIdempotent(ks);
    assert Names(names + symbols) == names + [];
    assert Symbols(names + symbols) == [] + symbols;
  }

  lemma {:induction false} NamesDistinct(ks: seq<Key>)
    requires Distinct(ks)
    ensures Distinct(Names(ks)) && Distinct(Symbols(ks))
  {
    if ks != [] {
      var k := ks[0];
      assert Distinct(ks[1..]) by {
        forall i, j | 0 <= i < j < |ks[1..]| ensures ks[1..][i] != ks[1..][j] {
          assert ks[1..][i] == ks[i + 1] && ks[1..][j] == ks[j + 1];
        }
      }
      NamesDistinct(ks[1..]);
      assert k !in ks[1..] by {
        forall i | 0 <= i < |ks[1..]| ensures ks[1..][i] != k {
          assert ks[1..][i] == ks[i + 1];
        }
      }
      NamesMembers(ks[1..]);
      ConsDistinct(k, Names(ks[1..]));
      ConsDistinct(k, Symbols(ks[1..]));
    }
  }

  lemma ConsDistinct(k: Key, ks: seq<Key>)
    requires Distinct(ks) && k !in ks
    ensures Distinct([k] + ks)
  {
    forall i, j | 0 <= i < j < |[k] + ks| ensures ([k] + ks)[i] != ([k] + ks)[j] {
      if i == 0 {
        assert ([k] + ks)[j] == ks[j - 1];
      } else {
        assert ([k] + ks)[i] == ks[i - 1] && ([k] + ks)[j] == ks[j - 1];
      }
    }
  }

  /** `getObjectKeys` lists every own key exactly once. */
  lemma ObjectKeysDistinct(o: JsObject)
    requires Distinct(o.keys)
    ensures Distinct(ObjectKeys(o))
  {
    NamesDistinct(o.keys);
    NamesMembers(o.keys);
    var names, symbols := Names(o.keys), Symbols(o.keys);
    forall i, j | 0 <= i < j < |names + symbols| ensures (names + symbols)[i] != (names + symbols)[j] {
      if j < |names| {
        assert (names + symbols)[i] == names[i] && (names + symbols)[j] == names[j];
      } else if i >= |names| {
        assert (names + symbols)[i] == symbols[i - |names|] && (names + symbols)[j] == symbols[j - |names|];
      } else {
        assert (names + symbols)[i] == names[i] && names[i] in names;
        assert (names + symbols)[j] == symbols[j - |names|] && symbols[j - |names|] in symbols;
      }
    }
  }

  /** A call the utilities made to a user function: the function, `this`, and the arguments. */
  datatype Call = Call(fn: Fn, receiver: Value, args: seq<Value>)

  /** The heap as a value: the objects, the user-function calls made so far (oldest first),
      and the next fresh reference. */
  datatype Store = Store(objects: map<Ref, JsObject>, calls: seq<Call>, next: Ref)

  /** What each user function returns when called with a given `this` and arguments. */
  datatype Host = Host(result: (Fn, Value, seq<Value>) -> Value)

  ghost predicate ValueIn(objects: map<Ref, JsObject>, v: Value)
  {
    v.ObjectRef? ==> v.ref in objects
  }

  /** Prototype chains are finite: each prototype sits strictly lower in `depth`. The host
      refuses to create a prototype cycle, so every heap has such a ranking. */
  ghost predicate ChainRanked(objects: map<Ref, JsObject>, depth: map<Ref, nat>)
  {
    forall r :: r in objects ==>
      r in depth &&
      (objects[r].proto.Some? ==>
         objects[r].proto.value in objects &&
         objects[r].proto.value in depth &&
         depth[objects[r].proto.value] < depth[r])
  }

  ghost predicate StoreValid(st: Store, depth: map<Ref, nat>)
  {
    (forall r :: r in st.objects ==> r < st.next && WellFormed(st.objects[r])) &&
    ChainRanked(st.objects, depth)
  }

  /** User functions return only values that already exist in the heap. */
  ghost predicate HostClosed(host: Host, objects: map<Ref, JsObject>)
  {
    forall f, t, a :: ValueIn(objects, host.result(f, t, a))
  }

  /** Two heaps that differ at most in the values of data properties and in nothing else:
      same objects, same keys in the same order, same prototypes, same descriptor kinds and flags. */
  ghost predicate SameShape(a: map<Ref, JsObject>, b: map<Ref, JsObject>)
  {
    a.Keys == b.Keys &&
    forall r :: r in a ==>
      a[r].keys == b[r].keys && a[r].proto == b[r].proto && a[r].extensible == b[r].extensible &&
      a[r].props.Keys == b[r].props.Keys &&
      forall k :: k in a[r].props ==> SameKind(a[r].props[k], b[r].props[k])
  }

  ghost predicate SameKind(p: Property, q: Property)
  {
    (p.Accessor? ==> q == p) && (p.Data? ==> q.Data? && q == p.(value := q.value))
  }

  lemma SameShapeTrans(a: map<Ref, JsObject>, b: map<Ref, JsObject>, c: map<Ref, JsObject>)
    requires SameShape(a, b) && SameShape(b, c)
    ensures SameShape(a, c)
  {
    forall r | r in a
      ensures forall k :: k in a[r].props ==> SameKind(a[r].props[k], c[r].props[k])
    {
      forall k | k in a[r].props
        ensures SameKind(a[r].props[k], c[r].props[k])
      {
        assert SameKind(a[r].props[k], b[r].props[k]);
        assert SameKind(b[r].props[k], c[r].props[k]);
      }
    }
  }

  lemma UpdateTwice(m: map<Ref, JsObject>, r: Ref, a: JsObject, b: JsObject)
    ensures m[r := a][r := b] == m[r := b]
  {
  }

  /** `Object.create(proto)`: a fresh, empty, extensible object at `st.next`. */
  function Allocate(st: Store, proto: Option<Ref>): Store
  {
    st.(objects := st.objects[st.next := JsObject([], map[], proto, true)], next := st.next + 1)
  }

  /** `Object.defineProperty` of a key the object does not have yet: the key goes last. */
  function Define(o: JsObject, k: Key, p: Property): JsObject
  {
    o.(keys := o.keys + [k], props := o.props[k := p])
  }

  /** The heap after `Object.defineProperty(r, k, p)` for a key `r` does not have yet. */
  function Defined(st: Store, r: Ref, k: Key, p: Property): Store
    requires r in st.objects
  {
    st.(objects := st.objects[r := Define(st.objects[r], k, p)])
  }

  /** Calling user function `f` with `this` and arguments `a`. */
  function Invoked(st: Store, host: Host, f: Fn, t: Value, a: seq<Value>): (Value, Store)
  {
    (host.result(f, t, a), st.(calls := st.calls + [Call(f, t, a)]))
  }

  /** `o[k]` for an own property `k` of object `s`: the value of a data property, the getter's
      result for an accessor with a getter, `undefined` for one without. */
  function ReadOwn(st: Store, host: Host, s: Ref, k: Key): (r: (Value, Store))
    requires s in st.objects && k in st.objects[s].props
    ensures r.1.objects == st.objects && r.1.next == st.next
    ensures st.objects[s].props[k].Data? ==> r == (st.objects[s].props[k].value, st)
  {
    var p := st.objects[s].props[k];
    if p.Data? then (p.value, st)
    else if p.getter.Some? then Invoked(st, host, p.getter.value, ObjectRef(s), [])
    else (Undefined, st)
  }

  /** `o[k] = v` for an own property `k` of object `r` that is writable data or has a setter:
      the data value is replaced, or the setter is called with `this` = `r`. */
  function Assign(st: Store, r: Ref, k: Key, v: Value): (st': Store)
    requires r in st.objects && k in st.objects[r].props && Assignable(st.objects[r].props[k])
    ensures SameShape(st.objects, st'.objects) && st'.next == st.next
    ensures st.objects[r].props[k].Data? ==> st'.objects[r].props[k].value == v
  {
    var o := st.objects[r];
    var p := o.props[k];
    if p.Data? then st.(objects := st.objects[r := o.(props := o.props[k := p.(value := v)])])
    else st.(calls := st.calls + [Call(p.setter.value, ObjectRef(r), [v])])
  }

  /** `Object.isFrozen`. */
  predicate IsFrozen(o: JsObject)
  {
    !o.extensible &&
    forall k :: k in o.props ==> !o.props[k].configurable && !(o.props[k].Data? && o.props[k].writable)
  }

  function FrozenProperty(p: Property): Property
  {
    match p
    case Data(v, _, e, _) => Data(v, false, e, false)
    case Accessor(g, s, e, _) => Accessor(g, s, e, false)
  }

  /** `Object.isFrozen(o)` holds exactly when `Object.freeze(o)` would change nothing. */
  lemma FrozenIsFreezeFixpoint(o: JsObject)
    ensures IsFrozen(o) <==> FreezeObject(o) == o
  {
    if IsFrozen(o) {
      var f := FreezeObject(o);
      forall k | k in o.props ensures f.props[k] == o.props[k] {
        assert !o.props[k].configurable;
      }
      assert f.props == o.props;
    }
  }

  /** `Object.freeze`: the object stops being extensible and every property becomes
      non-configurable, data properties also non-writable. Values and accessors are kept. */
  function FreezeObject(o: JsObject): (f: JsObject)
    ensures IsFrozen(f)
    ensures f.keys == o.keys && f.proto == o.proto && f.props.Keys == o.props.Keys
    ensures forall k :: k in o.props ==>
      f.props[k].Data? == o.props[k].Data? &&
      DescriptorValue(f.props[k]) == DescriptorValue(o.props[k]) &&
      f.props[k].enumerable == o.props[k].enumerable &&
      (o.props[k].Accessor? ==> f.props[k].getter == o.props[k].getter && f.props[k].setter == o.props[k].setter)
  {
    o.(extensible := false, props := map k | k in o.props :: FrozenProperty(o.props[k]))
  }

  /** The keys a `for...in` loop over object `r` visits: the enumerable string keys of `r` and
      of its prototypes, where a key met lower in the chain (enumerable or not) hides the same
      key further up. Only membership matters to the utilities, so the result is a set. */
  function ForInKeys(objects: map<Ref, JsObject>, ghost depth: map<Ref, nat>, r: Ref, shadowed: set<Key>): (ks: set<Key>)
    requires ChainRanked(objects, depth) && r in objects
    ensures forall k :: k in ks ==> k.Name? && k !in shadowed
    ensures forall k :: k in ks && k in objects[r].props ==> objects[r].props[k].enumerable
    ensures forall k :: k in objects[r].props && k.Name? && k !in shadowed && objects[r].props[k].enumerable ==> k in ks
    ensures forall k :: k in ks <==>
      k.Name? && k !in shadowed && FirstOwner(objects, depth, r, k).Some? &&
      objects[FirstOwner(objects, depth, r, k).value].props[k].enumerable
    decreases depth[r]
  {
    var o := objects[r];
    var own := set k | k in o.props && k.Name? && k !in shadowed && o.props[k].enumerable;
    if o.proto.None? then own
    else own + ForInKeys(objects, depth, o.proto.value, shadowed + o.props.Keys)
  }

  /** The object whose own property `k` a lookup from `r` finds: the first object on the
      prototype chain from `r` that owns `k`, if any. */
  ghost function FirstOwner(objects: map<Ref, JsObject>, depth: map<Ref, nat>, r: Ref, k: Key): (x: Option<Ref>)
    requires ChainRanked(objects, depth) && r in objects
    ensures x.Some? ==> x.value in objects && k in objects[x.value].props
    decreases depth[r]
  {
    if k in objects[r].props then Some(r)
    else if objects[r].proto.None? then None
    else FirstOwner(objects, depth, objects[r].proto.value, k)
  }

  /** The property `k` of object `x` is the same in `b` as in `a`. */
  ghost predicate Kept(a: map<Ref, JsObject>, b: map<Ref, JsObject>, x: Ref, k: Key)
  {
    x in a && k in a[x].props ==> x in b && k in b[x].props && b[x].props[k] == a[x].props[k]
  }

  /** `Object.getPrototypeOf`: the prototype as a value, `null` at the end of a chain. */
  function PrototypeOf(o: JsObject): (v: Value)
    ensures v.Null? <==> o.proto.None?
    ensures v.ObjectRef? <==> o.proto.Some?
    ensures o.proto.Some? ==> v.ref == o.proto.value
  {
    if o.proto.Some? then ObjectRef(o.proto.value) else Null
  }

  /** `typeof arg === 'function' ? arg.call(undefined, original) : arg`. */
  function SelectionOf(st: Store, host: Host, original: Value, arg: Value): (Value, Store)
  {
    if TypeOf(arg) == "function" then Invoked(st, host, arg.fn, Undefined, [original]) else (arg, st)
  }

  /** The `TypeError`s the change operations throw. */
  datatype TypeError =
    | NotObjectOrFunction      // the selection/selector argument is neither an object nor a function
    | SelectorResultNotObject  // the selector returned something whose `typeof` is not 'object'
    | NullToObject             // `getObjectKeys(null)`: the walk reached the end of a prototype chain
    | NullSelection            // `selection.hasOwnProperty(key)` with a `null` selection

  /** How a call ends: with a returned value or a thrown `TypeError`. */
  datatype Completion = Normal(value: Value) | Throw(error: TypeError)

  /** The heap a call leaves behind, and how the call ended. */
  datatype Run = Run(store: Store, completion: Completion)

  /** The heap, updated in place by the host operations below. */
  class Heap {
    var objects: map<Ref, JsObject>
    var calls: seq<Call>
    var next: Ref
    ghost var depth: map<Ref, nat>
    const host: Host

    function State(): Store
      reads this
    {
      Store(objects, calls, next)
    }

    ghost predicate Valid()
      reads this
    {
      StoreValid(State(), depth) && HostClosed(host, objects)
    }

    /** A heap holding `objects`, with no calls made yet; user functions may return any of them. */
    constructor (host: Host, objects: map<Ref, JsObject>, next: Ref, ghost depth: map<Ref, nat>)
      requires StoreValid(Store(objects, [], next), depth) && HostClosed(host, objects)
      ensures Valid() && State() == Store(objects, [], next) && this.depth == depth
    {
      this.host := host;
      this.objects, calls, this.next := objects, [], next;
      this.depth := depth;
    }

    /** `Object.create(proto)`. */
    method NewObject(proto: Option<Ref>) returns (r: Ref)
      requires Valid() && (proto.Some? ==> proto.value in objects)
      modifies this
      ensures Valid() && r == old(next) && r !in old(objects)
      ensures State() == Allocate(old(State()), proto)
    {
      r := next;
      objects := objects[r := JsObject([], map[], proto, true)];
      depth := depth[r := if proto.Some? then depth[proto.value] + 1 else 0];
      next := next + 1;
    }

    /** `Object.defineProperty(r, k, p)` for a key `r` does not have yet. */
    method DefineProperty(r: Ref, k: Key, p: Property)
      requires Valid() && r in objects && k !in objects[r].props
      requires objects[r].extensible
      modifies this
      ensures Valid() && depth == old(depth)
      ensures State() == Defined(old(State()), r, k, p)
    {
      var o := objects[r];
      objects := objects[r := Define(o, k, p)];
    }

    /** `s[k]` for an own property `k` of `s`. */
    method GetOwn(s: Ref, k: Key) returns (v: Value)
      requires Valid() && s in objects && k in objects[s].props
      modifies this
      ensures Valid() && depth == old(depth)
      ensures (v, State()) == ReadOwn(old(State()), host, s, k)
    {
      var p := objects[s].props[k];
      if p.Data? {
        v := p.value;
      } else if p.getter.Some? {
        v := Invoke(p.getter.value, ObjectRef(s), []);
      } else {
        v := Undefined;
      }
    }

    /** `r[k] = v` for an own property `k` of `r` that is writable data or has a setter. */
    method Set(r: Ref, k: Key, v: Value)
      requires Valid() && r in objects && k in objects[r].props && Assignable(objects[r].props[k])
      modifies this
      ensures Valid() && depth == old(depth)
      ensures State() == Assign(old(State()), r, k, v)
    {
      var o := objects[r];
      var p := o.props[k];
      if p.Data? {
        objects := objects[r := o.(props := o.props[k := p.(value := v)])];
      } else {
        calls := calls + [Call(p.setter.value, ObjectRef(r), [v])];
      }
    }

    /** Calls user function `f`; only the call itself is recorded. */
    method Invoke(f: Fn, t: Value, a: seq<Value>) returns (v: Value)
      requires Valid()
      modifies this
      ensures Valid() && depth == old(depth) && ValueIn(objects, v)
      ensures (v, State()) == Invoked(old(State()), host, f, t, a)
    {
      v := host.result(f, t, a);
      calls := calls + [Call(f, t, a)];
    }

    /** `Object.freeze(r)`. */
    method Freeze(r: Ref)
      requires Valid() && r in objects
      modifies this
      ensures Valid() && depth == old(depth)
      ensures State() == old(State()).(objects := old(objects)[r := FreezeObject(old(objects)[r])])
    {
      objects := objects[r := FreezeObject(objects[r])];
    }
  }
}
