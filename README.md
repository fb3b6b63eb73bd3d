# ComponentKit scope reconciliation, in Dafny

This project models the scope engine of ComponentKit (`ComponentKit/Core/Scope/`). The engine lets a component tree that is rebuilt many times keep each component's state, controller and identity from one build to the next.

- **Scope handle.** A component's persistent identity: a global identifier, its state, a lazily created controller, and the flags `acquired` and `resolved`.
- **Scope frame.** A node of the scope tree. It holds one handle and a map of children keyed by `(componentClass, identifier)`.
- **Scope root.** A build's tree. It also holds two registries, multimaps from a lifecycle-event selector to components or to component controllers.
- **Build context.** The thread-local context of a build in progress: the new root, a stack of frame pairs and the build's state updates.
- **Scope.** The RAII object a component opens while it is constructed.

Opening a scope runs `CKComponentScopeFrameChildPairForPair`. It looks the scope's key up under the frame on top of the build stack:
- **Collision.** The key is already taken in this build. A new frame holds a reacquirable copy of the existing handle and shares the existing child's subtree. Nothing is inserted into the parent.
- **No collision.** The handle found under the same key in the previous build is carried forward with its pending state updates. Without one, a brand-new handle is created with a fresh global identifier. The new frame is inserted under the key.

Modules, one per source header:
- `ScopeTypes`: opaque Objective-C values and the runtime's answers.
- `ScopeHandles`: `CKComponentScopeHandle.h`.
- `ScopeFrames`: `CKComponentScopeFrame.h`.
- `ScopeRoots`: `CKComponentScopeRoot.h`.
- `ThreadLocalScopes`: `CKThreadLocalComponentScope.h`.
- `ScopeReconciliation`: `CKComponentScopeRootInternal.h`.
- `ComponentScopes`: `CKComponentScope.h`.
- `HandleAcquisition`: `handleForComponent`.

State changes in place, as in the source:
- Frames, handles, roots, the build context and the global identifier counter are classes.
- A frame's children map is a `map` value whose entries are shared frame references. A collision copy therefore shares its grandchildren with the frame it copies, as the by-value copy of a map of `shared_ptr`s does, while later insertions into one map stay invisible in the other.
- A ghost set of frames (`FramesClosed`) records that every child frame has a handle whose class is the class in its key.
- Opaque values (state, identifiers, listeners) are `Ref`s. Foreign calls (`respondsToSelector:`, `+initialState`, the controller class of a component class, `isEqual:`, `hash`) are function values passed in a `Runtime` or as parameters.

## Model

| member | source | states |
|---|---|---|
| ScopeHandles.Increment32 | ComponentKit/Core/Scope/CKComponentScopeHandle.h:67-68 | the atomic increment yields an int32, is congruent to the successor modulo 2^32, and grows unless it wraps |
| ScopeHandles.IdentifierCounter.Next | ComponentKit/Core/Scope/CKComponentScopeHandle.h:67-68 | the counter becomes the int32 successor of its old value and the wrap flag records passing the largest int32; the issued identifier is recorded and, before any wrap-around, exceeds every identifier issued earlier |
| ScopeHandles.ScopeHandle.constructor | ComponentKit/Core/Scope/CKComponentScopeHandle.h:56-69 | state from the creator block, else the class's initial state; no controller, not acquired, not resolved; the given listener and root identifier; a freshly issued global identifier |
| ScopeHandles.FreshHandlesAreDistinct | ComponentKit/Core/Scope/CKComponentScopeHandle.h:67-68 | two handles constructed in turn get strictly increasing identifiers that were never issued before, as long as the counter has not wrapped |
| ScopeHandles.ScopeHandle.NewHandle | ComponentKit/Core/Scope/CKComponentScopeHandle.h:108-110 | a new handle equal to this one carried forward with the updates queued for its global identifier |
| ScopeHandles.ApplyUpdatesAppend | ComponentKit/Core/Scope/CKComponentScopeHandle.h:108-110 | applying two batches of updates in turn equals applying their concatenation, so updates apply in enqueue order |
| ScopeHandles.ApplyUpdatesEnqueue | ComponentKit/Core/Scope/CKComponentScopeHandle.h:115-116 | enqueuing one more update applies it last, on top of the state the earlier updates produce |
| ScopeHandles.CarriedForwardKeepsIdentity | ComponentKit/Core/Scope/CKComponentScopeHandle.h:108-110 | carrying forward keeps the global and root identifiers, class, listener and controller, and clears `acquired` |
| ScopeHandles.SingleUpdateCarriesOver | ComponentKit/Core/Scope/CKComponentScopeHandle.h:108-110 | a single queued update `f` turns the carried-forward state `s` into `f(s)` |
| ScopeHandles.CarriedForwardWithoutUpdatesIsCopy | ComponentKit/Core/Scope/CKComponentScopeHandle.h:108-113 | with no updates queued for the handle, carrying it forward yields the reacquirable copy |
| ScopeHandles.ScopeHandle.NewHandleToBeReacquiredDueToScopeCollision | ComponentKit/Core/Scope/CKComponentScopeHandle.h:112-113 | a new handle identical to this one except that it is not acquired or resolved, so it can be claimed again |
| ScopeHandles.ReacquireAfterCollision | ComponentKit/Core/Scope/CKComponentScopeHandle.h:112-113 | a component of the handle's class always acquires the collision copy, which keeps the original's state and identifier |
| ScopeHandles.ScopeHandle.AcquireFromComponent | ComponentKit/Core/Scope/CKComponentScopeHandle.h:45-48 | acquisition succeeds iff the handle is not yet acquired and the component is of the handle's class; on success the component is recorded |
| ScopeHandles.ScopeHandle.UpdateState | ComponentKit/Core/Scope/CKComponentScopeHandle.h:115-116 | the listener, when there is one, is told the handle's global and root identifiers, the update and its mode (the arguments of the listener protocol, CKComponentScopeRoot.h:26-29); with no listener nothing is announced |
| ScopeHandles.ScopeHandle.Resolve | ComponentKit/Core/Scope/CKComponentScopeHandle.h:118-119 | marks the handle resolved; creates a controller for the acquired component iff there is none yet and the class declares a controller class; keeps an existing one |
| ScopeHandles.ScopeHandle.Controller | ComponentKit/Core/Scope/CKComponentScopeHandle.h:121-125 | nil until the handle is resolved, then the handle's controller |
| ScopeHandles.ResolveIsIdempotent | ComponentKit/Core/Scope/CKComponentScopeHandle.h:118-119 | resolving twice leaves the controller the first resolve produced |
| HandleAcquisition.HandleForComponent | ComponentKit/Core/Scope/CKComponentScopeHandle.h:37-54 | no handle outside a build; otherwise the top frame's handle iff the component acquires it, and the component is then registered with the new root; the handle's controller and `resolved` flag are untouched, and the controller registry never changes; on failure the registry and handle are unchanged and the assertion flag is set iff the class has a controller class |
| HandleAcquisition.BuildScopedComponent | ComponentKit/Core/Scope/CKComponentScopeHandle.h:45-48 | a component constructed inside a scope opened for its class always acquires that scope's handle, is registered, gets a controller on close when its class declares one, and leaves the stack as it was |
| ScopeFrames.KeysEqualIffComponents | ComponentKit/Core/Scope/CKComponentScopeFrame.h:23-25 | keys are equal iff their classes and identifiers are equal (with identity `isEqual:`), which is equality of key values |
| ScopeFrames.EqualKeysHashEqually | ComponentKit/Core/Scope/CKComponentScopeFrame.h:28-36 | equal keys hash equally whatever the combining function, given `hash` agrees with `isEqual:` |
| ScopeFrames.ScopeFrame.constructor | ComponentKit/Core/Scope/CKComponentScopeFrame.h:43 | a new frame holds exactly the given handle and no children |
| ScopeRoots.ScopeRoot.constructor | ComponentKit/Core/Scope/CKComponentScopeRoot.h:46-47 | the listener is the argument, nil when omitted; empty registries; a fresh root frame with no handle and no children |
| ScopeRoots.ScopeRoot.RegisterComponent | ComponentKit/Core/Scope/CKComponentScopeRoot.h:67-74 | appends an entry for each announceable component event the component responds to, in list order |
| ScopeRoots.ScopeRoot.RegisterComponentController | ComponentKit/Core/Scope/CKComponentScopeRoot.h:76-83 | the same over the controller events and the controller registry |
| ScopeRoots.RegistrationsCount | ComponentKit/Core/Scope/CKComponentScopeRoot.h:67-74 | registration adds `(s, y)` as many times as `s` is announceable when `y` is the registrant and responds to `s`, and never otherwise; with no announceable events it adds nothing |
| ScopeRoots.RegistrationsMembership | ComponentKit/Core/Scope/CKComponentScopeRoot.h:67-74 | an entry is added iff the selector is announceable and the registrant responds to it |
| ScopeRoots.RegisteringTwiceRecordsTwice | ComponentKit/Core/Scope/CKComponentScopeRoot.h:40-43 | the registries are multimaps: registering again adds every entry again |
| ScopeRoots.ScopeRoot.EnumerateRegisteredComponentsForEvent | ComponentKit/Core/Scope/CKComponentScopeRoot.h:53-58 | the block sees exactly the components registered under the selector, in registration order |
| ScopeRoots.ScopeRoot.EnumerateRegisteredComponentControllersForEvent | ComponentKit/Core/Scope/CKComponentScopeRoot.h:60-65 | the block sees exactly the controllers registered under the selector, in registration order |
| ScopeRoots.ForEventCount | ComponentKit/Core/Scope/CKComponentScopeRoot.h:53-58 | enumeration visits each object once per entry it has under the selector, and nothing registered under another selector |
| ThreadLocalScopes.ThreadLocalScope.constructor | ComponentKit/Core/Scope/CKThreadLocalComponentScope.h:25-26 | the stack holds the pair of the new root's frame and the previous root's frame; the update map is the one given; the context becomes current |
| ThreadLocalScopes.ThreadLocalScope.Close | ComponentKit/Core/Scope/CKThreadLocalComponentScope.h:27 | pops the root pair, reports whether the stack was balanced, and clears the current context |
| ThreadLocalScopes.CurrentScopeSlot.constructor | ComponentKit/Core/Scope/CKThreadLocalComponentScope.h:29-30 | no context is current until one is installed |
| ThreadLocalScopes.ScopeOverride.constructor | ComponentKit/Core/Scope/CKThreadLocalComponentScope.h:46 | installs the given context and remembers the one that was current |
| ThreadLocalScopes.ScopeOverride.Restore | ComponentKit/Core/Scope/CKThreadLocalComponentScope.h:47 | puts back the remembered context |
| ThreadLocalScopes.WithOverride | ComponentKit/Core/Scope/CKThreadLocalComponentScope.h:39-51 | inside the override the given context is current; afterwards the previous one is |
| ScopeReconciliation.ChildPairForPair | ComponentKit/Core/Scope/CKComponentScopeRootInternal.h:17-138 | the result satisfies `IsChildPairFor` (the pair's previous frame is the previous build's child under the key; collision: parent unchanged, copy of the existing handle, shared children; otherwise: exactly one insertion under the key, handle carried forward or brand new); the identifier counter, its record of issued identifiers and its wrap flag are unchanged unless a brand-new handle takes the counter's int32 successor; the frame arena stays closed; the child's handle is unacquired and of the key's class |
| ScopeReconciliation.CollisionChild | ComponentKit/Core/Scope/CKComponentScopeRootInternal.h:51-54 | a fresh frame with a reacquirable copy of the existing child's handle, paired with the previous child |
| ScopeReconciliation.ChildHandle | ComponentKit/Core/Scope/CKComponentScopeRootInternal.h:127-133 | the previous child's handle carried forward with the updates, with the counter and its wrap flag unchanged, or a brand-new handle with the new root's listener and identifier whose global identifier is the counter's int32 successor, fresh unless the counter wraps |
| ScopeReconciliation.OpenScopeTwice | ComponentKit/Core/Scope/CKComponentScopeRootInternal.h:34-124 | two siblings opening the same key in turn: the parent keeps the first frame under the key (inserted by the first opening when the key was new), and the second sibling gets a different frame sharing that frame's children and a reacquirable copy of its handle, hence its state and global identifier |
| ScopeReconciliation.OpenTwoScopes | ComponentKit/Core/Scope/CKComponentScopeRootInternal.h:126-137 | two siblings with different keys new to the parent are inserted under their own keys as distinct frames; in a first build their brand-new handles get increasing, never-issued global identifiers unless the counter wraps |
| ScopeReconciliation.InsertChild | ComponentKit/Core/Scope/CKComponentScopeRootInternal.h:135-136 | the parent gains exactly the new childless frame under the key; every other entry is unchanged |
| ComponentScopes.Scope.constructor | ComponentKit/Core/Scope/CKComponentScope.h:53-66 | without a current context nothing happens: there is no handle and the identifier counter is untouched; otherwise exactly the child pair for the top pair is pushed and its handle becomes the scope's; identifier and creator default to nil |
| ComponentScopes.Scope.Close | ComponentKit/Core/Scope/CKComponentScope.h:68-74 | inside a build, resolves the scope's handle and pops exactly one pair, keeping the context well formed |
| ComponentScopes.Scope.CurrentState | ComponentKit/Core/Scope/CKComponentScope.h:77-80 | the state of the scope's handle; nil without a handle |
| ComponentScopes.Scope.StateUpdater | ComponentKit/Core/Scope/CKComponentScope.h:89-95 | a no-op without a handle; otherwise forwards the update and mode to that handle's `updateState` |
| ComponentScopes.ScopedConstruction | ComponentKit/Core/Scope/CKComponentScope.h:53-74 | outside a build nothing changes, the counter included; inside one, opening and closing a scope restores the stack and leaves a child under the key in the parent frame, with its handle resolved |

## Left out

- Thread-locality and atomicity. The current context is an explicit `CurrentScopeSlot` object, and `OSAtomicIncrement32` is a sequential counter object passed to whoever creates handles. Main-thread delivery of announcements is not modelled.
- Weak references. The listener, acquired components and registry entries never become nil through deallocation.
- Foreign behaviour is abstract. `respondsToSelector:`, `+initialState`, the controller class of a component class and `isSubclassOfClass:` are fields of `Runtime`. `isEqual:`, `hash` and `CKIntegerArrayHash` are parameters of the key lemmas.
- Children are keyed by `ScopeKey` values. This is the source's key equality only when `isEqual:` is identity, as `KeysEqualIffComponents` shows.
- `hash`'s `NSUInteger` width is not modelled: hashes are unbounded integers.
- Members declared in the headers without a body follow their declarations and doc comments:
  - `newHandle` applies the queued updates in enqueue order. The update map holds no modes; `updateState` passes the mode to the listener uninterpreted.
  - The collision copy is identical except that it is neither acquired nor resolved.
  - `updateState` reports an announcement to the listener. The shared pending-update set it also enqueues into is not modelled.
  - `resolve` and `acquireFromComponent` are specified as in the table.
  - The build context's constructor, destructor and override.
- Mixed C++/Objective-C syntax is modelled as evidently intended:
  - messages sent to `shared_ptr` handles (`acquireFromComponent:` in `handleForComponent`, `resolve` in the scope's destructor) are calls on the handle, and a nil handle does not acquire;
  - `.state` on the scope's handle is the handle's state, nil when there is no handle;
  - `->handle` in `CKComponentScopeFrameChildPairForPair` is the frame's `scopeHandle()`;
  - `find(selector)` in the enumeration methods is the range `equal_range` returns, visited in registration order. The multimap's own iteration order within one key is unspecified.
- ScopeRoots.ScopeRoot.constructor: the header's constructors (CKComponentScopeRoot.h:46-47) set only the listener. As written, the root frame stays null, the global identifier is uninitialised and the announceable-event lists stay empty, so registration would record nothing and the first stack pair's frame would be null, which the assertion at CKComponentScopeRootInternal.h:25 rejects. The model reads the evident intent: the root identifier and the two event lists are constructor arguments and the constructor creates a root frame with no handle.
- ThreadLocalScopes.ThreadLocalScope.constructor: the new scope root is a parameter. Creating it from the previous root is not part of this model.
- ScopeHandles.ScopeHandle.constructor: the handle stores `componentClass`, which `componentClass()` reports and acquisition compares against. The header's constructor (CKComponentScopeHandle.h:56-69) never stores the class.
- ScopeHandles.ScopeHandle.Controller: asking before `resolve` returns nil; the debug assertion the doc comment (CKComponentScopeHandle.h:121-124) promises for that call is not modelled.
- ScopeHandles.IdentifierCounter.Next: identifiers are only fresh while the int32 counter has not wrapped around. After a wrap, only the wrap-around arithmetic is stated.
- HandleAcquisition.BuildScopedComponent: a handle carried forward may already hold a controller, so the contract states only that a class with a controller class ends up with one, not the converse.
- ScopeReconciliation.ChildPairForPair: the debug assertions (a component class, a non-null frame) and well-formedness of the frame arena are preconditions. Release builds would instead run on with undefined behaviour.
- "No cross-talk" across a whole build is not stated as one property. `OpenTwoScopes` shows it for two siblings in a first build. Handles carried forward from a previous build keep that build's identifiers, and the model does not state that distinct previous frames hold distinct handles.
- `responder()` (CKComponentScopeHandle.h:88) is not part of this model. It is declared in the header without a body.
- The `CKBuildComponent` driver (CKComponentScopeRoot.h:96-100) is not part of this model. It is declared only.
