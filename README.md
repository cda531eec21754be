# node-freezable in Dafny

This project models the object utilities of node-freezable over an explicit JavaScript heap:

- `copyObject`, a shallow copy descriptor by descriptor;
- `cloneObject`, a deep clone of data values that shares accessors;
- the two `changeObject` variants:
  - the copy-then-mutate one of `src/freezable.ts`;
  - the in-place one of `src/utilities.ts`, which walks the prototype chain with a set of keys still to assign;
- the `Freezable` class, whose `frozen`, `freeze`, `copy`, `clone` and `with` delegate to `Object.isFrozen`, `Object.freeze` and the functions above.

The modules are:

- `Objects` (`objects.dfy`) holds the heap.
  - Values include `null`, functions and object references.
  - A property is either data (value, writable) or an accessor (optional getter and setter); both kinds carry enumerable and configurable flags.
  - An object has its own keys in insertion order, one descriptor per key, a nullable prototype and an extensible flag.
  - `getObjectKeys` lists the string keys, then the symbol keys.
  - The class `Heap` starts from a given set of objects and holds the objects, a log of calls into user code, the next free reference and a ghost rank of prototype chains. Its methods are the host built-ins the source uses: `Object.create`, `Object.defineProperty`, property read, property assignment, a call of user code and `Object.freeze`.
- `Copying` (`copying.dfy`) holds `copyObject` and `cloneObject`. Both source files contain the same text for these two functions, so they are modelled once. Each method is proved against a specification function (`Copied`, `CloneValue`), and lemmas state what that function means.
- `Assigning` (`assigning.dfy`) holds the `forEach` that assigns `current[key] = selection[key]` key by key. Both `changeObject` variants use it.
- `Freezable` (`freezable.dfy`) holds `changeObject` of `src/freezable.ts` and the `Freezable` class.
- `Utilities` (`utilities.dfy`) holds `changeObject` of `src/utilities.ts`.

Some oddities of the code are modelled as written:

- The copy-then-mutate loop steps to `Object.getPrototypeOf(copy)` every time. It therefore visits the copy and the copy's prototype, which is also the original's prototype, and stops there. When that prototype is `null`, it throws at `getObjectKeys(null)`. Its assignments on the prototype are visible through the original.
- The in-place walk throws at `getObjectKeys(null)` when keys are still pending at the end of the chain. Assignments it already made stay in place.
- `typeof null` is `'object'`, so a `null` selection passes both guards.
  - In `src/utilities.ts` it then throws at the first `selection.hasOwnProperty` call on the original, or returns the original when the original has no own keys, since `for...in` over `null` leaves nothing pending.
  - In `src/freezable.ts` the loop visits the copy, then the copy's prototype. It throws at `hasOwnProperty` when the copy has an own key. Otherwise it throws at `getObjectKeys(null)` when the prototype is `null`, at `hasOwnProperty` when the prototype has an own key, and returns the copy when the prototype has none.

## Model

| member | source | states |
|---|---|---|
| Objects.TypeOf | src/freezable.ts:145-147 | `typeof` is 'object' exactly for `null` and objects, 'function' exactly for functions |
| Objects.ObjectKeys | src/freezable.ts:74-77 | `getObjectKeys` lists exactly the own keys |
| Objects.ObjectKeysOrder | src/freezable.ts:74-77 | every string key comes before every symbol key |
| Objects.ObjectKeysDistinct | src/freezable.ts:74-77 | an object whose keys are distinct has each own key listed once |
| Objects.ObjectKeysStable | src/freezable.ts:74-77 | listing again the keys of an object whose keys are already in `getObjectKeys` order gives the same order, so copies list keys like the original |
| Objects.NamesAppend | src/freezable.ts:74-77 | splitting keys into names and symbols distributes over concatenation |
| Objects.ReadOwn | src/freezable.ts:169 | reading an own property allocates and changes no object; a data property yields its value |
| Objects.Assign | src/freezable.ts:169 | assigning keeps every key, prototype and descriptor kind; a data property gets the new value |
| Objects.FreezeObject | src/freezable.ts:47-49 | `Object.freeze` leaves the object frozen and keeps keys, prototype, values, accessors and enumerable flags |
| Objects.FirstOwner | src/utilities.ts:88-89 | the object a property lookup finds is on the chain and owns the key |
| Objects.ForInKeys | src/utilities.ts:88-89 | `for...in` yields a key exactly when it is a string key whose first owner on the chain has it enumerable; every enumerable own string key is yielded |
| Objects.FrozenIsFreezeFixpoint | src/freezable.ts:40-49 | `Object.isFrozen(o)` holds exactly when `Object.freeze(o)` would change nothing |
| Objects.PrototypeOf | src/utilities.ts:91 | `Object.getPrototypeOf` is `null` exactly when there is no prototype, else the prototype |
| Objects.Heap.NewObject | src/freezable.ts:111 | `Object.create(proto)` allocates one fresh, empty, extensible object and changes nothing else |
| Objects.Heap.DefineProperty | src/freezable.ts:131 | `Object.defineProperty` of a new key appends that key and its descriptor and changes nothing else |
| Objects.Heap.GetOwn | src/freezable.ts:169 | `selection[key]` returns the data value, or the getter's result after logging its call |
| Objects.Heap.Set | src/freezable.ts:169 | `current[key] = v` replaces a data value or logs the setter call |
| Objects.Heap.Invoke | src/freezable.ts:149-151 | a call into user code is logged and returns a value of the heap |
| Objects.Heap.Freeze | src/freezable.ts:47-49 | `Object.freeze` replaces the object with its frozen form and changes nothing else |
| Copying.PartialCopyStep | src/freezable.ts:86-101 | defining the next key's copied descriptor extends the partial copy by that key |
| Copying.CopyOfShape | src/freezable.ts:84-101 | the copy keeps the prototype, is extensible, lists the own keys once each in `getObjectKeys` order and holds each copied descriptor |
| Copying.CopyOfMeaning | src/utilities.ts:10-33 | the copy is not frozen; data keeps value and enumerable and becomes writable and configurable; an accessor is kept exactly when it has a getter or a setter, with both and enumerable kept |
| Copying.CopyObject | src/freezable.ts:81-104 | a non-object or `null` comes back with nothing allocated; an object gets a fresh copy and no existing object changes |
| Copying.CloneValue | src/freezable.ts:108-111 | a non-object or `null` clones to itself with nothing allocated; an object clones to a fresh reference; no user code runs |
| Copying.CloneKeyStep | src/freezable.ts:115-131 | one iteration appends exactly one key to the clone |
| Copying.CloneValueCloned | src/freezable.ts:108-135 | the result is a clone: the same prototype and own keys in order, accessors with the same getter and setter, data values cloned recursively, all made of fresh objects |
| Copying.CloneKeysShape | src/freezable.ts:112-132 | after `n` iterations the clone lists the first `n` keys in order and keeps prototype and extensibility |
| Copying.CloneKeysCloned | src/freezable.ts:114-132 | after `n` iterations each of those keys holds a clone of the original's property |
| Copying.CloneKeyStepCloned | src/freezable.ts:115-131 | one iteration defines a clone of the original's property |
| Copying.CloneValueKeeps | src/utilities.ts:37-64 | cloning changes no object that existed before |
| Copying.CloneKeysKeeps | src/freezable.ts:114-132 | the loop changes no existing object other than the clone |
| Copying.CloneKeyStepKeeps | src/freezable.ts:115-131 | one iteration changes no existing object other than the clone |
| Copying.ClonedFrame | src/freezable.ts:125 | a clone stays a clone while the objects it is made of are kept |
| Copying.CloneObject | src/freezable.ts:108-135 | `cloneObject` returns and leaves the heap as `CloneValue` describes |
| Copying.CloneKeysInto | src/freezable.ts:112-132 | the loop over the original's keys leaves the heap as the first `n` clone steps describe |
| Copying.CloneKey | src/freezable.ts:115-131 | the loop body shares an accessor with a getter or setter and clones any other value first |
| Assigning.AssignOneShape | src/freezable.ts:169 | one assignment keeps the heap's shape and allocates nothing |
| Assigning.AssignAllShape | src/freezable.ts:160-169 | the `forEach` keeps every key, prototype and descriptor kind and allocates nothing |
| Assigning.AssignAllFrame | src/freezable.ts:160-169 | the `forEach` changes no other object and no unlisted key of `current` |
| Assigning.AssignAllValues | src/utilities.ts:102-105 | each listed data key of `current` ends up holding what the selection had under it before the pass |
| Assigning.SelectionValueFrame | src/freezable.ts:169 | `selection[key]` depends only on the selection's own property `key` |
| Assigning.AssignKeys | src/freezable.ts:169 | the `forEach` loop leaves the heap as the key-by-key assignments describe |
| Freezable.SelectedMembers | src/freezable.ts:160-168 | a key passes both filters exactly when it is an own key of the selection and writable data or has a setter on `current`; none passes twice |
| Freezable.LevelShape | src/freezable.ts:160-169 | one level keeps the heap's shape, changes no object other than `current`, and on `current` changes only properties the selection owns that are writable data or have a setter |
| Freezable.LevelValues | src/freezable.ts:169 | one level gives each writable data key the selection owns the selection's value |
| Freezable.ChangeCopyFrame | src/freezable.ts:159-169 | the loop changes a property only on the copy or its prototype, only at a key the selection owns, and only where it is writable data or has a setter |
| Freezable.ChangeCopyProtoValues | src/freezable.ts:159-169 | after the loop each writable data key of the copy's prototype that the selection owns holds the selection's value |
| Freezable.ChangeCopyEffect | src/freezable.ts:159-171 | the loop changes only the copy and its prototype, keeps every key, prototype and kind, and returns the copy |
| Freezable.ChangeCopyValues | src/freezable.ts:159-169 | after the loop each writable data key of the copy that the selection owns holds the selection's value |
| Freezable.ChangeCopyThrows | src/freezable.ts:159-171 | with an object selection the loop returns the copy exactly when the copy has a prototype, and otherwise throws at `getObjectKeys(null)`; a `null` selection throws at the first own key of the copy, then of its prototype, at a `null` prototype, and otherwise returns the copy |
| Freezable.ChangedGuards | src/freezable.ts:145-154 | the argument check comes first, then a primitive or `null` original returns unchanged; a selector result whose `typeof` is not 'object' throws after one call, and `null` passes |
| Freezable.ChangedUnfold | src/freezable.ts:156 | past the guards, the change is the loop over a fresh copy of the original |
| Freezable.ChangedEffect | src/freezable.ts:156-171 | exactly one object, the copy, is allocated and returned; the original is untouched; only the original's prototype may change otherwise; no key is created |
| Freezable.ChangedFrame | src/freezable.ts:156-171 | a property changes only on the copy or the original's prototype, only at a key the selection owns, and only where it is writable data or has a setter; every other property of the copy keeps the descriptor `copyObject` gave it |
| Freezable.ChangedValues | src/freezable.ts:156-169 | each data property of the original the selection owns ends up on the copy as writable, configurable data holding the selection's value |
| Freezable.ChangedProtoValues | src/freezable.ts:159-169 | each writable data property of the original's prototype that the selection owns ends up holding the selection's value |
| Freezable.ChangedThrows | src/freezable.ts:156-171 | with an object selection the change returns the copy exactly when the original has a prototype, and otherwise throws at `getObjectKeys(null)`; a `null` selection throws at the first own key of the copy or the prototype, throws at a `null` prototype, and otherwise returns the copy |
| Freezable.ChangeObject | src/freezable.ts:144-172 | `changeObject` leaves the heap and completes as `Changed` describes |
| Freezable.ChangeLevels | src/freezable.ts:157-171 | the `for` loop over the copy and `getPrototypeOf(copy)` leaves the heap and completes as `ChangeCopy` describes |
| Freezable.Freezable.Frozen | src/freezable.ts:40-42 | `frozen` holds exactly when freezing `this` would change nothing |
| Freezable.Freezable.Freeze | src/freezable.ts:47-49 | `freeze()` returns `this`, now frozen, and changes nothing else |
| Freezable.Freezable.Copy | src/freezable.ts:53-55 | `copy()` returns a fresh copy that is not frozen |
| Freezable.Freezable.Clone | src/freezable.ts:59-61 | `clone()` is `cloneObject(this)` |
| Freezable.Freezable.With | src/freezable.ts:70-72 | `with(arg)` is `changeObject(this, arg)` |
| Utilities.SelectedMembers | src/utilities.ts:92-101 | a key passes the three filters exactly when the selection owns it, it is pending and it is writable data or has a setter on `current` |
| Utilities.SelectedDistinct | src/utilities.ts:92-101 | filtering a duplicate-free key list keeps it duplicate-free |
| Utilities.PendingKeys | src/utilities.ts:86-89 | `unsetted` starts empty for a `null` selection; otherwise it holds exactly the string keys whose first owner on the selection's chain has them enumerable, so every enumerable own string key of the selection |
| Utilities.PassKeys | src/utilities.ts:92-101 | one pass assigns exactly the pending keys that `current` owns assignably and the selection owns, each once |
| Utilities.Left | src/utilities.ts:102-105 | after a pass the pending keys are exactly those the pass could not assign |
| Utilities.After | src/utilities.ts:102-105 | a pass keeps the heap's shape and allocates nothing |
| Utilities.AfterFrame | src/utilities.ts:102-105 | a pass changes only the properties of `current` it assigns |
| Utilities.AfterValues | src/utilities.ts:102-105 | a pass gives each data property it assigns the selection's value |
| Utilities.WalkUnfold | src/utilities.ts:91-108 | a step assigns on `current` and either stops when nothing is pending or moves on to the prototype |
| Utilities.Target | src/utilities.ts:95-101 | a key's target is on the chain and owns the key as writable data or with a setter; an object that owns it so is its own target |
| Utilities.TargetShape | src/utilities.ts:95-101 | where a key gets assigned does not depend on data values |
| Utilities.WalkShape | src/utilities.ts:91-110 | the walk allocates nothing, keeps every key, prototype and kind, returns the original when it completes, and throws only at `getObjectKeys(null)` or `hasOwnProperty` on `null` |
| Utilities.WalkCompletes | src/utilities.ts:91-108 | with an object selection the walk completes exactly when every pending key is an own key of the selection with a target on the chain |
| Utilities.WalkAssignsAtTargets | src/utilities.ts:91-108 | a property changes only at a pending key the selection owns, and only on that key's target, the lowest object owning it as writable data or with a setter |
| Utilities.WalkValues | src/utilities.ts:91-108 | the target of each pending key the selection owns holds the selection's value if it is data, whether the walk completes or throws further up |
| Utilities.ChangedGuards | src/utilities.ts:74-83 | the guards come in source order; a `null` selection throws unless the original has no own keys, and changes nothing |
| Utilities.ChangedInPlace | src/utilities.ts:85-110 | no object is allocated, no key, prototype or kind changes, and a normal return is the original itself |
| Utilities.ChangedSelection | src/utilities.ts:86-108 | with an object selection the call returns exactly when each `for...in` key is owned by the selection and has a target, else it throws at `getObjectKeys(null)`; only targets of those keys change |
| Utilities.ChangedValues | src/utilities.ts:88-105 | each `for...in` key the selection owns that has a target leaves a data target holding the selection's value, whether the call returns or throws at the end of the chain |
| Utilities.ChangeObject | src/utilities.ts:73-111 | `changeObject` leaves the heap and completes as `Changed` describes |
| Utilities.WalkChain | src/utilities.ts:91-110 | the `for` loop with its early `break` leaves the heap and completes as `Walk` describes |

## Left out

- `src/injection.ts` is not part of this model. It installs the same functions as properties of other objects.
- The `composite-types` types are compile-time only.
- The bodies of getters, setters and selector functions are user code. A `Host` gives what each call returns, and the heap logs the call. Effects of getters, setters and selectors on the heap are not modelled.
- Objects.ObjectKeys: the host lists integer-like keys first in ascending order. The model keeps insertion order within the string keys.
- User functions return only objects that exist when the `Heap` is set up; what they return does not depend on the heap. A selector that builds a fresh object for its result, as `o => ({ x: 1 })` does, is modelled by that object already being in the heap.
- `hasOwnProperty` missing from a selection, as with `Object.create(null)`, would throw. The model treats every object selection as having it.
- Proxies, and objects whose built-ins were replaced, are left out.
- Numbers carry no arithmetic; they are only copied.
- Copying.CloneObject: the source recurses without cycle detection and does not return on a cyclic graph of data values. The model requires a ghost `rank` showing that the data values reachable from the original are acyclic.
- Freezable.Freezable.Clone: the same `rank` requirement, for the same reason.
- Objects.Heap.DefineProperty: models only keys the object does not have yet. Copies and clones are fresh and `getObjectKeys` lists each key once, so no other case arises.
- Strict versus sloppy assignment is left out. Only writable data and setters are ever assigned, so the two never differ.
- Freezable.ChangedValues: states the new value only for data properties. For an accessor with a setter, the setter call is recorded in the log, whose contents no lemma spells out.
- Utilities.ChangedValues: the same as Freezable.ChangedValues.
- Objects.ForInKeys: yields a set, not the visiting order. The walk only tests membership, so order does not matter.
- `copyObject` and `cloneObject` of `src/utilities.ts` are the same text as in `src/freezable.ts` and are modelled once, in `Copying`.
