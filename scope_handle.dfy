/**
 Scope handles (CKComponentScopeHandle.h): the persistent identity of one
 scoped component, its state and its lazily created controller, carried from
 one build of the component tree to the next.
 */
module ScopeHandles {
  import opened ScopeTypes

  const Int32Min: int := -0x8000_0000
  const Int32Max: int := 0x7fff_ffff

  /** `OSAtomicIncrement32`'s arithmetic: the int32 successor, wrapping from the largest value to the smallest. */
  function Increment32(x: int): (r: int)
    requires Int32Min <= x <= Int32Max
    ensures Int32Min <= r <= Int32Max
    ensures (r - x - 1) % 0x1_0000_0000 == 0
    ensures x < Int32Max ==> r > x
  {
    if x == Int32Max then Int32Min else x + 1
  }

  /**
   The process-wide `static int32_t nextGlobalIdentifier` from which every
   freshly constructed handle takes its global identifier. `issued` records
   every identifier handed out; `wrapped` records whether the counter has
   ever passed the largest int32.
   */
  class IdentifierCounter {
    var value: int
    ghost var issued: set<HandleIdentifier>
    ghost var wrapped: bool

    ghost predicate Valid()
      reads this
    {
      && Int32Min <= value <= Int32Max
      && (!wrapped ==> 0 <= value && forall i | i in issued :: 1 <= i <= value)
    }

    constructor ()
      ensures Valid() && value == 0 && issued == {} && !wrapped
    {
      value, issued, wrapped := 0, {}, false;
    }

    /** Atomically increments the counter and returns the new value. */
    method Next() returns (id: HandleIdentifier)
      requires Valid()
      modifies this
      ensures Valid()
      ensures id == value && value == Increment32(old(value)) && issued == old(issued) + {id}
      ensures (id - old(value) - 1) % 0x1_0000_0000 == 0
      ensures wrapped == (old(wrapped) || old(value) == Int32Max)
      ensures !wrapped ==> id > old(value) && forall i | i in old(issued) :: i < id
    {
      wrapped := wrapped || value == Int32Max;
      value := Increment32(value);
      issued := issued + {value};
      id := value;
    }
  }

  /** Everything a handle holds, as one value. */
  datatype HandleView = HandleView(
    listener: Ref,
    state: State,
    controller: ComponentController?,
    rootIdentifier: RootIdentifier,
    globalIdentifier: HandleIdentifier,
    componentClass: ClassId,
    acquired: bool,
    resolved: bool,
    acquiredComponent: Option<Component>)

  /** The updates queued for the handle with identifier `id`, in enqueue order. */
  function UpdatesFor(updates: StateUpdateMap, id: HandleIdentifier): seq<StateUpdate>
  {
    if id in updates then updates[id] else []
  }

  /** Applies the updates in enqueue order: the first update sees `state`, each later one its predecessor's result. */
  function ApplyUpdates(state: State, updates: seq<StateUpdate>): State
    decreases |updates|
  {
    if updates == [] then state else ApplyUpdates(updates[0](state), updates[1..])
  }

  /** Applying a concatenation applies the first part, then the second. */
  lemma {:induction false} ApplyUpdatesAppend(state: State, first: seq<StateUpdate>, second: seq<StateUpdate>)
    ensures ApplyUpdates(state, first + second) == ApplyUpdates(ApplyUpdates(state, first), second)
    decreases |first|
  {
    if first == [] {
      assert first + second == second;
    } else {
      var both := first + second;
      assert both != [] && both[0] == first[0] && both[1..] == first[1..] + second;
      calc {
        ApplyUpdates(state, both);
        ApplyUpdates(first[0](state), first[1..] + second);
        { ApplyUpdatesAppend(first[0](state), first[1..], second); }
        ApplyUpdates(ApplyUpdates(first[0](state), first[1..]), second);
        ApplyUpdates(ApplyUpdates(state, first), second);
      }
    }
  }

  /** Enqueueing one more update applies it last, to the result of the earlier ones. */
  lemma ApplyUpdatesEnqueue(state: State, queued: seq<StateUpdate>, update: StateUpdate)
    ensures ApplyUpdates(state, queued + [update]) == update(ApplyUpdates(state, queued))
  {
    ApplyUpdatesAppend(state, queued, [update]);
  }

  /** The new handle made for a handle whose scope is opened again in the next build (`newHandle`). */
  function CarriedForward(v: HandleView, updates: StateUpdateMap): HandleView
  {
    v.(state := ApplyUpdates(v.state, UpdatesFor(updates, v.globalIdentifier)),
       acquired := false, resolved := false, acquiredComponent := None)
  }

  /** The identical handle made for a second component opening the same scope (`newHandleToBeReacquiredDueToScopeCollision`). */
  function ReacquirableCopy(v: HandleView): HandleView
  {
    v.(acquired := false, resolved := false, acquiredComponent := None)
  }

  /**
   Carrying a handle forward keeps its identity (global and root identifier,
   class, listener and controller) and applies exactly the updates queued for it.
   */
  lemma CarriedForwardKeepsIdentity(v: HandleView, updates: StateUpdateMap)
    ensures CarriedForward(v, updates).globalIdentifier == v.globalIdentifier
    ensures CarriedForward(v, updates).rootIdentifier == v.rootIdentifier
    ensures CarriedForward(v, updates).componentClass == v.componentClass
    ensures CarriedForward(v, updates).controller == v.controller
    ensures CarriedForward(v, updates).listener == v.listener
    ensures !CarriedForward(v, updates).acquired
    ensures v.globalIdentifier !in updates ==> CarriedForward(v, updates).state == v.state
  {
  }

  /** A single update `f` queued for a handle shows up in the next build as state `f(old state)`. */
  lemma {:induction false} SingleUpdateCarriesOver(v: HandleView, updates: StateUpdateMap, f: StateUpdate)
    requires v.globalIdentifier in updates && updates[v.globalIdentifier] == [f]
    ensures CarriedForward(v, updates).state == f(v.state)
  {
    assert ApplyUpdates(v.state, [f]) == ApplyUpdates(f(v.state), []) by {
      assert [f][1..] == [];
    }
  }

  /** With no updates queued for it, carrying a handle forward gives exactly its collision copy. */
  lemma CarriedForwardWithoutUpdatesIsCopy(v: HandleView, updates: StateUpdateMap)
    requires v.globalIdentifier !in updates
    ensures CarriedForward(v, updates) == ReacquirableCopy(v)
  {
  }

  /** What a handle reports to its listener when a state update is enqueued. */
  datatype StateUpdateAnnouncement = Announcement(
    listener: nat,
    globalIdentifier: HandleIdentifier,
    rootIdentifier: RootIdentifier,
    update: StateUpdate,
    mode: UpdateMode)

  class ScopeHandle {
    /** Held weakly: `Nil` once no listener exists. */
    const listener: Ref
    const state: State
    var controller: ComponentController?
    const rootIdentifier: RootIdentifier
    const globalIdentifier: HandleIdentifier
    const componentClass: ClassId
    var acquired: bool
    var resolved: bool
    /** Held weakly. */
    var acquiredComponent: Option<Component>

    function View(): HandleView
      reads this
    {
      HandleView(listener, state, controller, rootIdentifier, globalIdentifier, componentClass,
                 acquired, resolved, acquiredComponent)
    }

    /**
     A brand-new handle: state from the creator block when one is given, else
     from the class's `+initialState`; no controller, not acquired, not resolved;
     a global identifier freshly taken from `counter`.
     */
    constructor (listener: Ref, rootIdentifier: RootIdentifier, componentClass: ClassId,
                 initialStateCreator: Option<() -> State>, rt: Runtime, counter: IdentifierCounter)
      requires counter.Valid()
      modifies counter
      ensures counter.Valid() && globalIdentifier == counter.value
      ensures counter.value == Increment32(old(counter.value))
      ensures counter.issued == old(counter.issued) + {globalIdentifier}
      ensures counter.wrapped == (old(counter.wrapped) || old(counter.value) == Int32Max)
      ensures !counter.wrapped ==> globalIdentifier > old(counter.value) && globalIdentifier !in old(counter.issued)
      ensures initialStateCreator.Some? ==> state == initialStateCreator.value()
      ensures initialStateCreator.None? ==> state == rt.initialState(componentClass)
      ensures this.listener == listener && this.rootIdentifier == rootIdentifier && this.componentClass == componentClass
      ensures controller == null && !acquired && !resolved && acquiredComponent == None
    {
      this.listener := listener;
      state := if initialStateCreator.Some? then initialStateCreator.value() else rt.initialState(componentClass);
      controller := null;
      this.rootIdentifier := rootIdentifier;
      acquired := false;
      resolved := false;
      this.componentClass := componentClass;
      acquiredComponent := None;
      var id := counter.Next();
      globalIdentifier := id;
    }

    /** A handle holding exactly `v`; used to derive one handle from another. */
    constructor FromView(v: HandleView)
      ensures View() == v
    {
      listener, state, controller := v.listener, v.state, v.controller;
      rootIdentifier, globalIdentifier, componentClass := v.rootIdentifier, v.globalIdentifier, v.componentClass;
      acquired, resolved, acquiredComponent := v.acquired, v.resolved, v.acquiredComponent;
    }

    /** A new handle that incorporates the given state updates. */
    method NewHandle(stateUpdates: StateUpdateMap) returns (h: ScopeHandle)
      ensures fresh(h) && h.View() == CarriedForward(View(), stateUpdates)
    {
      h := new ScopeHandle.FromView(CarriedForward(View(), stateUpdates));
    }

    /** A new, but identical, handle that will be reacquired due to a scope collision. */
    method NewHandleToBeReacquiredDueToScopeCollision() returns (h: ScopeHandle)
      ensures fresh(h) && h.View() == ReacquirableCopy(View())
    {
      h := new ScopeHandle.FromView(ReacquirableCopy(View()));
    }

    /**
     Claims this handle for `component`: succeeds only when no component has
     claimed it yet and the component is of the handle's class.
     */
    method AcquireFromComponent(component: Component) returns (ok: bool)
      modifies this
      ensures ok == (!old(acquired) && component.componentClass == componentClass)
      ensures ok ==> acquired && acquiredComponent == Some(component)
      ensures !ok ==> acquired == old(acquired) && acquiredComponent == old(acquiredComponent)
      ensures controller == old(controller) && resolved == old(resolved)
    {
      ok := !acquired && component.componentClass == componentClass;
      if ok {
        acquired := true;
        acquiredComponent := Some(component);
      }
    }

    /**
     Enqueues a state update: the listener, when there still is one, is told
     this handle's identifiers, the update and its mode. The handle itself does
     not change.
     */
    method UpdateState(update: StateUpdate, mode: UpdateMode) returns (delivered: Option<StateUpdateAnnouncement>)
      ensures delivered.None? <==> listener == Nil
      ensures delivered.Some? ==>
                delivered.value == Announcement(listener.id, globalIdentifier, rootIdentifier, update, mode)
    {
      if listener == Nil {
        delivered := None;
      } else {
        delivered := Some(Announcement(listener.id, globalIdentifier, rootIdentifier, update, mode));
      }
    }

    /**
     Completes the handle's configuration: when it has no controller yet, has
     been acquired by a component and that component's class declares a
     controller class, a new controller is created for the component.
     */
    method Resolve(rt: Runtime)
      modifies this
      ensures resolved
      ensures acquired == old(acquired) && acquiredComponent == old(acquiredComponent)
      ensures old(controller) != null ==> controller == old(controller)
      ensures old(controller) == null && acquiredComponent.Some? && rt.controllerClassOf(componentClass).Some? ==>
                controller != null && fresh(controller)
                && controller.controllerClass == rt.controllerClassOf(componentClass).value
                && controller.component == acquiredComponent.value
      ensures old(controller) == null && (acquiredComponent.None? || rt.controllerClassOf(componentClass).None?) ==>
                controller == null
    {
      if controller == null && acquiredComponent.Some? {
        var controllerClass := rt.controllerClassOf(componentClass);
        if controllerClass.Some? {
          controller := new ComponentController(controllerClass.value, acquiredComponent.value);
        }
      }
      resolved := true;
    }

    /** The controller; nil until the handle has been resolved. */
    function Controller(): (c: ComponentController?)
      reads this
      ensures !resolved ==> c == null
      ensures resolved ==> c == controller
    {
      if resolved then controller else null
    }
  }

  /** Resolving twice creates at most one controller: the second call changes nothing. */
  method ResolveIsIdempotent(h: ScopeHandle, rt: Runtime) returns (first: ComponentController?)
    modifies h
    ensures h.resolved && h.Controller() == first
    ensures first != null ==> first == old(h.controller) || fresh(first)
  {
    h.Resolve(rt);
    first := h.controller;
    h.Resolve(rt);
  }

  /**
   The point of the collision copy: even when the original handle is already
   acquired, a second component of the same class can claim the copy, and it
   then sees the same state and identity.
   */
  method ReacquireAfterCollision(h: ScopeHandle, component: Component) returns (copy: ScopeHandle, ok: bool)
    requires component.componentClass == h.componentClass
    ensures ok && copy.acquiredComponent == Some(component)
    ensures copy.state == h.state && copy.globalIdentifier == h.globalIdentifier
    ensures copy != h
  {
    copy := h.NewHandleToBeReacquiredDueToScopeCollision();
    ok := copy.AcquireFromComponent(component);
  }

  /**
   Handles constructed one after the other take increasing global
   identifiers, so they never share one, as long as the counter has not
   wrapped around.
   */
  method FreshHandlesAreDistinct(listener: Ref, rootIdentifier: RootIdentifier, componentClass: ClassId,
                                 rt: Runtime, counter: IdentifierCounter)
    returns (first: ScopeHandle, second: ScopeHandle)
    requires counter.Valid()
    modifies counter
    ensures counter.Valid()
    ensures first.globalIdentifier in counter.issued && second.globalIdentifier in counter.issued
    ensures !counter.wrapped ==>
              && old(counter.value) < first.globalIdentifier < second.globalIdentifier
              && first.globalIdentifier !in old(counter.issued) && second.globalIdentifier !in old(counter.issued)
  {
    first := new ScopeHandle(listener, rootIdentifier, componentClass, None, rt, counter);
    second := new ScopeHandle(listener, rootIdentifier, componentClass, None, rt, counter);
  }
}
