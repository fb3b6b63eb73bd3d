/**
 Component scopes (CKComponentScope.h): a component opens a scope at the top
 of its construction to reach its state. Opening reconciles the scope's key
 against the frame on top of the build stack and pushes the resulting pair;
 closing resolves the scope's handle and pops. Outside a build the scope is
 inert and holds no handle.
 */
module ComponentScopes {
  import opened ScopeTypes
  import opened ScopeHandles
  import opened ScopeFrames
  import opened ThreadLocalScopes
  import opened ScopeReconciliation

  /** `CKTypedComponentScope`. */
  class Scope {
    /** The build context current when the scope was opened, if any. */
    const threadLocalScope: ThreadLocalScope?
    const scopeHandle: ScopeHandle?

    /** Inside a build the scope has a handle; outside one it has none. */
    ghost predicate Valid()
      reads this
    {
      threadLocalScope == null <==> scopeHandle == null
    }

    /**
     Opens the scope `(componentClass, identifier)`. Without a current build
     context nothing happens. Otherwise the child pair for the key under the
     stack's top pair is found or created, pushed, and its frame's handle
     becomes this scope's handle.
     */
    constructor (slot: CurrentScopeSlot, componentClass: ClassId, rt: Runtime, counter: IdentifierCounter,
                 identifier: Ref := Nil, initialStateCreator: Option<() -> State> := None)
      requires rt.isComponentClass(componentClass)
      requires slot.current != null ==> slot.current.Valid() && |slot.current.stack| > 0 && counter.Valid()
      modifies slot.current, counter
      modifies if slot.current != null && |slot.current.stack| > 0 then {slot.current.Top().frame} else {}
      ensures Valid() && threadLocalScope == old(slot.current) && slot.current == old(slot.current)
      ensures old(slot.current) == null ==> scopeHandle == null && unchanged(counter)
      ensures var tls := old(slot.current);
              tls != null ==>
                && tls.Valid() && counter.Valid()
                && |tls.stack| > 0 && tls.stack == old(tls.stack) + [tls.Top()]
                && IsChildPairFor(old(tls.Top()), tls.newScopeRoot, componentClass, identifier, initialStateCreator,
                                  tls.stateUpdates, rt, counter, tls.Top())
                && scopeHandle == tls.Top().frame.handle
                && scopeHandle.componentClass == componentClass && !scopeHandle.acquired
    {
      var tls := slot.current;
      threadLocalScope := tls;
      if tls != null {
        var childPair := ChildPairForPair(tls.Top(), tls.newScopeRoot, componentClass, identifier,
                                          initialStateCreator, tls.stateUpdates, rt, counter, tls.frames);
        tls.stack := tls.stack + [childPair];
        tls.frames := tls.frames + {childPair.frame};
        scopeHandle := childPair.frame.handle;
      } else {
        scopeHandle := null;
      }
    }

    /**
     The destructor: inside a build, resolves the scope's handle and pops the
     top pair off the stack; the build context stays well formed.
     */
    method Close(rt: Runtime)
      requires Valid()
      requires threadLocalScope != null ==> |threadLocalScope.stack| > 0
      modifies threadLocalScope, scopeHandle
      ensures threadLocalScope != null ==>
                && threadLocalScope.stack == old(threadLocalScope.stack)[..|old(threadLocalScope.stack)| - 1]
                && threadLocalScope.frames == old(threadLocalScope.frames)
                && (old(threadLocalScope.Valid()) ==> threadLocalScope.Valid())
      ensures scopeHandle != null ==>
                && scopeHandle.resolved
                && scopeHandle.acquired == old(scopeHandle.acquired)
                && scopeHandle.acquiredComponent == old(scopeHandle.acquiredComponent)
                && (old(scopeHandle.controller) != null ==> scopeHandle.controller == old(scopeHandle.controller))
                && (scopeHandle.controller != null
                    <==> old(scopeHandle.controller) != null
                         || (scopeHandle.acquiredComponent.Some?
                             && rt.controllerClassOf(scopeHandle.componentClass).Some?))
    {
      if threadLocalScope != null {
        scopeHandle.Resolve(rt);
        threadLocalScope.stack := threadLocalScope.stack[..|threadLocalScope.stack| - 1];
      }
    }

    /** The state of the component being built; nil outside a build, as a message to a nil handle answers. */
    function CurrentState(): (s: State)
      reads this
      ensures scopeHandle != null ==> s == scopeHandle.state
      ensures scopeHandle == null ==> s == Nil
    {
      if scopeHandle != null then scopeHandle.state else Nil
    }

    /**
     Invokes the block `stateUpdater()` returns: the scope's handle, when
     there is one, enqueues the update; outside a build the block does nothing.
     */
    method StateUpdater(update: StateUpdate, mode: UpdateMode) returns (delivered: Option<StateUpdateAnnouncement>)
      ensures delivered.Some? <==> scopeHandle != null && scopeHandle.listener != Nil
      ensures delivered.Some? ==>
                delivered.value
                == Announcement(scopeHandle.listener.id, scopeHandle.globalIdentifier, scopeHandle.rootIdentifier,
                                update, mode)
    {
      delivered := None;
      var handle := scopeHandle;
      if handle != null {
        delivered := handle.UpdateState(update, mode);
      }
    }
  }

  /**
   A component construction that opens a scope and closes it when done
   leaves the build stack as it found it, and leaves the parent frame with a
   child under the scope's key, whose handle has been resolved.
   */
  method ScopedConstruction(slot: CurrentScopeSlot, componentClass: ClassId, identifier: Ref, rt: Runtime,
                            counter: IdentifierCounter)
    returns (state: State, handle: ScopeHandle?)
    requires rt.isComponentClass(componentClass)
    requires slot.current != null ==> slot.current.Valid() && |slot.current.stack| > 0 && counter.Valid()
    modifies slot.current, counter
    modifies if slot.current != null && |slot.current.stack| > 0 then {slot.current.Top().frame} else {}
    ensures slot.current == old(slot.current)
    ensures slot.current == null ==> handle == null && state == Nil && unchanged(counter)
    ensures slot.current != null ==>
              && slot.current.Valid()
              && slot.current.stack == old(slot.current.stack)
              && ScopeKey(componentClass, identifier) in slot.current.Top().frame.children
              && handle != null && handle.resolved && state == handle.state
  {
    var scope := new Scope(slot, componentClass, rt, counter, identifier);
    state := scope.CurrentState();
    handle := scope.scopeHandle;
    scope.Close(rt);
  }
}
