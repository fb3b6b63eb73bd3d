/**
 Scope reconciliation (CKComponentScopeRootInternal.h): when a component
 opens a scope, find or create the child frame for its key under the frame
 on top of the build stack, carrying state forward from the equivalent frame
 of the previous build and handling scope collisions.
 */
module ScopeReconciliation {
  import opened ScopeTypes
  import opened ScopeHandles
  import opened ScopeFrames
  import opened ScopeRoots

  /** The child under `key` of the previous build's frame, or null when there is no such frame or no such child. */
  function PreviousChild(previous: ScopeFrame?, key: ScopeKey): ScopeFrame?
    reads previous
  {
    if previous != null && key in previous.children then previous.children[key] else null
  }

  /** The state of a brand-new handle: the creator block's result, or the class's initial state. */
  function InitialState(initialStateCreator: Option<() -> State>, componentClass: ClassId, rt: Runtime): State
  {
    if initialStateCreator.Some? then initialStateCreator.value() else rt.initialState(componentClass)
  }

  /**
   `child` is the pair that opening the scope `(componentClass, identifier)`
   under `pair` yields, and the heap changed accordingly:
   - the pair's previous frame is always the previous build's child under the
     key, never a collision copy;
   - collision (the key is already among the current frame's children): the
     parent is left as it was; the new frame holds a reacquirable copy of the
     existing child's handle and the existing child's children (the very same
     grandchild frames);
   - otherwise the new frame, with no children, is inserted under the key and
     nothing else in the parent changes; its handle carries the previous
     child's handle forward with the pending updates, or, without a previous
     child, is brand new with the new root's listener and identifier and a
     fresh global identifier.
   */
  twostate predicate IsChildPairFor(pair: FramePair, newRoot: ScopeRoot, componentClass: ClassId, identifier: Ref,
                                    initialStateCreator: Option<() -> State>, stateUpdates: StateUpdateMap,
                                    rt: Runtime, counter: IdentifierCounter, new child: FramePair)
    requires pair.frame != null
    reads pair.frame, child.frame, counter
    reads if child.frame != null && child.frame.handle != null then {child.frame.handle} else {}
  {
    var key := ScopeKey(componentClass, identifier);
    var previousChild := old(PreviousChild(pair.equivalentPreviousFrame, key));
    && child.frame != null && fresh(child.frame)
    && child.frame.handle != null && fresh(child.frame.handle)
    && child.equivalentPreviousFrame == previousChild
    && if key in old(pair.frame.children) then
         && pair.frame.children == old(pair.frame.children)
         && child.frame.children == old(pair.frame.children[key].children)
         && old(pair.frame.children[key].handle) != null
         && child.frame.handle.View() == ReacquirableCopy(old(pair.frame.children[key].handle.View()))
         && counter.value == old(counter.value) && counter.issued == old(counter.issued)
         && counter.wrapped == old(counter.wrapped)
       else
         && pair.frame.children == old(pair.frame.children)[key := child.frame]
         && child.frame.children == map[]
         && if previousChild != null then
              && previousChild.handle != null
              && child.frame.handle.View() == CarriedForward(old(previousChild.handle.View()), stateUpdates)
              && counter.value == old(counter.value) && counter.issued == old(counter.issued)
              && counter.wrapped == old(counter.wrapped)
            else
              && child.frame.handle.View()
                 == HandleView(newRoot.listener, InitialState(initialStateCreator, componentClass, rt), null,
                               newRoot.globalIdentifier, counter.value, componentClass, false, false, None)
              && counter.issued == old(counter.issued) + {counter.value}
              && Int32Min <= old(counter.value) <= Int32Max && counter.value == Increment32(old(counter.value))
              && counter.wrapped == (old(counter.wrapped) || old(counter.value) == Int32Max)
              && (!counter.wrapped ==> counter.value !in old(counter.issued))
  }

  /**
   The inputs of one `ChildPairForPair` call, bundled into a single value so
   that the two-state lemmas below take one ordinary parameter: the verifier
   fails on two-state lemmas with several ordinary parameters when it checks
   for contradictory assumptions.
   */
  datatype ChildRequest = ChildRequest(pair: FramePair, newRoot: ScopeRoot, componentClass: ClassId, identifier: Ref,
                                       initialStateCreator: Option<() -> State>, stateUpdates: StateUpdateMap,
                                       rt: Runtime, counter: IdentifierCounter)
  {
    function Key(): ScopeKey { ScopeKey(componentClass, identifier) }
  }

  /** The collision branch's effect, stated fact by fact, is what `IsChildPairFor` asks of a collision. */
  twostate lemma CollisionIsChildPair(r: ChildRequest, new child: FramePair, new newHandle: ScopeHandle)
    requires r.pair.frame != null && r.Key() in old(r.pair.frame.children)
    requires old(r.pair.frame.children[r.Key()].handle) != null
    requires child.equivalentPreviousFrame == old(PreviousChild(r.pair.equivalentPreviousFrame, r.Key()))
    requires child.frame != null && fresh(child.frame) && child.frame.handle == newHandle && fresh(newHandle)
    requires r.pair.frame.children == old(r.pair.frame.children)
    requires child.frame.children == old(r.pair.frame.children[r.Key()].children)
    requires newHandle.View() == ReacquirableCopy(old(r.pair.frame.children[r.Key()].handle.View()))
    requires r.counter.value == old(r.counter.value) && r.counter.issued == old(r.counter.issued)
    requires r.counter.wrapped == old(r.counter.wrapped)
    ensures IsChildPairFor(r.pair, r.newRoot, r.componentClass, r.identifier, r.initialStateCreator, r.stateUpdates,
                           r.rt, r.counter, child)
  {
  }

  /** The insertion branch's effect, stated fact by fact, is what `IsChildPairFor` asks when there is no collision. */
  twostate lemma InsertionIsChildPair(r: ChildRequest, new child: FramePair, new newHandle: ScopeHandle)
    requires r.pair.frame != null && r.Key() !in old(r.pair.frame.children)
    requires child.equivalentPreviousFrame == old(PreviousChild(r.pair.equivalentPreviousFrame, r.Key()))
    requires child.frame != null && fresh(child.frame) && child.frame.handle == newHandle && fresh(newHandle)
    requires r.pair.frame.children == old(r.pair.frame.children)[r.Key() := child.frame]
    requires child.frame.children == map[]
    requires old(PreviousChild(r.pair.equivalentPreviousFrame, r.Key())) != null ==>
               && old(PreviousChild(r.pair.equivalentPreviousFrame, r.Key()).handle) != null
               && newHandle.View()
                  == CarriedForward(old(PreviousChild(r.pair.equivalentPreviousFrame, r.Key()).handle.View()), r.stateUpdates)
               && r.counter.value == old(r.counter.value) && r.counter.issued == old(r.counter.issued)
               && r.counter.wrapped == old(r.counter.wrapped)
    requires old(PreviousChild(r.pair.equivalentPreviousFrame, r.Key())) == null ==>
               && newHandle.View()
                  == HandleView(r.newRoot.listener, InitialState(r.initialStateCreator, r.componentClass, r.rt), null,
                                r.newRoot.globalIdentifier, r.counter.value, r.componentClass, false, false, None)
               && r.counter.issued == old(r.counter.issued) + {r.counter.value}
               && Int32Min <= old(r.counter.value) <= Int32Max && r.counter.value == Increment32(old(r.counter.value))
               && r.counter.wrapped == (old(r.counter.wrapped) || old(r.counter.value) == Int32Max)
               && (!r.counter.wrapped ==> r.counter.value !in old(r.counter.issued))
    ensures IsChildPairFor(r.pair, r.newRoot, r.componentClass, r.identifier, r.initialStateCreator, r.stateUpdates,
                           r.rt, r.counter, child)
  {
  }

  /**
   The collision branch's new child: a new frame holding a reacquirable copy
   of the existing child's handle and sharing its children, paired with the
   previous build's child.
   */
  method CollisionChild(existingChild: ScopeFrame, previousChild: ScopeFrame?, ghost frames: set<ScopeFrame>)
    returns (child: FramePair)
    requires existingChild.handle != null
    requires FramesClosed(frames) && existingChild in frames
    ensures child.frame != null && fresh(child.frame) && child.frame.handle != null && fresh(child.frame.handle)
    ensures child.equivalentPreviousFrame == previousChild
    ensures child.frame.children == existingChild.children
    ensures child.frame.handle.View() == ReacquirableCopy(existingChild.handle.View())
    ensures child.frame.handle.componentClass == existingChild.handle.componentClass && !child.frame.handle.acquired
    ensures FramesClosed(frames + {child.frame})
  {
    var newHandle := existingChild.handle.NewHandleToBeReacquiredDueToScopeCollision();
    var newChild := new ScopeFrame(newHandle);
    // A copy of the existing child's map, whose entries are the very same frames.
    newChild.children := existingChild.children;
    child := FramePair(newChild, previousChild);
    forall f, k | f in frames + {newChild} && k in f.children
      ensures f.children[k] in frames && f.children[k].handle != null
      ensures f.children[k].handle.componentClass == k.componentClass
    {
      if f == newChild {
        assert f.children[k] == existingChild.children[k];
      }
    }
  }

  /**
   The handle of a child that does not collide: the previous build's handle
   carried forward with the pending updates, or, without a previous child, a
   brand-new handle for the new root.
   */
  method ChildHandle(previousChild: ScopeFrame?, newRoot: ScopeRoot, componentClass: ClassId,
                     initialStateCreator: Option<() -> State>, stateUpdates: StateUpdateMap,
                     rt: Runtime, counter: IdentifierCounter)
    returns (newHandle: ScopeHandle)
    requires previousChild != null ==>
               previousChild.handle != null && previousChild.handle.componentClass == componentClass
    requires counter.Valid()
    modifies counter
    ensures counter.Valid() && fresh(newHandle)
    ensures newHandle.componentClass == componentClass && !newHandle.acquired
    ensures previousChild != null ==>
              && newHandle.View() == CarriedForward(previousChild.handle.View(), stateUpdates)
              && counter.value == old(counter.value) && counter.issued == old(counter.issued)
              && counter.wrapped == old(counter.wrapped)
    ensures previousChild == null ==>
              && newHandle.View()
                 == HandleView(newRoot.listener, InitialState(initialStateCreator, componentClass, rt), null,
                               newRoot.globalIdentifier, counter.value, componentClass, false, false, None)
              && counter.issued == old(counter.issued) + {counter.value}
              && counter.value == Increment32(old(counter.value))
              && counter.wrapped == (old(counter.wrapped) || old(counter.value) == Int32Max)
              && (!counter.wrapped ==> counter.value !in old(counter.issued))
  {
    if previousChild != null {
      newHandle := previousChild.handle.NewHandle(stateUpdates);
      CarriedForwardKeepsIdentity(previousChild.handle.View(), stateUpdates);
    } else {
      newHandle := new ScopeHandle(newRoot.listener, newRoot.globalIdentifier, componentClass,
                                   initialStateCreator, rt, counter);
    }
  }

  /** Inserts a new childless frame holding `handle` under `key`; no other child of `parent` changes. */
  method InsertChild(parent: ScopeFrame, key: ScopeKey, handle: ScopeHandle, ghost frames: set<ScopeFrame>)
    returns (newChild: ScopeFrame)
    requires FramesClosed(frames) && parent in frames
    requires handle.componentClass == key.componentClass
    modifies parent
    ensures fresh(newChild) && newChild.handle == handle && newChild.children == map[]
    ensures parent.children == old(parent.children)[key := newChild]
    ensures FramesClosed(frames + {newChild})
  {
    newChild := new ScopeFrame(handle);
    parent.children := parent.children[key := newChild];
    forall f, k | f in frames + {newChild} && k in f.children
      ensures f.children[k] in frames + {newChild} && f.children[k].handle != null
      ensures f.children[k].handle.componentClass == k.componentClass
    {
      if f != newChild && f != parent {
        assert f.children == old(f.children);
      }
    }
  }

  /** `CKComponentScopeFrameChildPairForPair`. */
  method ChildPairForPair(pair: FramePair, newRoot: ScopeRoot, componentClass: ClassId, identifier: Ref,
                          initialStateCreator: Option<() -> State>, stateUpdates: StateUpdateMap,
                          rt: Runtime, counter: IdentifierCounter, ghost frames: set<ScopeFrame>)
    returns (child: FramePair)
    requires rt.isComponentClass(componentClass)
    requires pair.frame != null
    requires FramesClosed(frames) && pair.frame in frames
    requires pair.equivalentPreviousFrame != null ==> pair.equivalentPreviousFrame in frames
    requires counter.Valid()
    modifies pair.frame, counter
    ensures counter.Valid() && child.frame != null
    ensures IsChildPairFor(pair, newRoot, componentClass, identifier, initialStateCreator, stateUpdates, rt, counter, child)
    ensures FramesClosed(frames + {child.frame})
    ensures child.equivalentPreviousFrame != null ==> child.equivalentPreviousFrame in frames
    ensures child.frame.handle != null && child.frame.handle.componentClass == componentClass
    ensures !child.frame.handle.acquired
  {
    ghost var request := ChildRequest(pair, newRoot, componentClass, identifier, initialStateCreator, stateUpdates,
                                      rt, counter);
    var key := ScopeKey(componentClass, identifier);
    var previousChild := PreviousChild(pair.equivalentPreviousFrame, key);

    if pair.frame.children != map[] && key in pair.frame.children {
      // Scope collision: a sibling with the same key was already opened in this build.
      child := CollisionChild(pair.frame.children[key], previousChild, frames);
      CollisionIsChildPair(request, child, child.frame.handle);
    } else {
      var newHandle := ChildHandle(previousChild, newRoot, componentClass, initialStateCreator, stateUpdates,
                                   rt, counter);
      var newChild := InsertChild(pair.frame, key, newHandle, frames);
      child := FramePair(newChild, previousChild);
      InsertionIsChildPair(request, child, newHandle);
    }
  }

  /**
   Two siblings that open the same scope under one parent, one after the
   other (a scope collision): the parent keeps the frame the first opening
   left under the key, and the second sibling gets a different frame that
   shares that frame's children and a reacquirable copy of its handle, so both
   read the same state under the same global identifier. Unless the previous
   build's frame is the current one, both pairs name the same previous frame.
   */
  method OpenScopeTwice(pair: FramePair, newRoot: ScopeRoot, componentClass: ClassId, identifier: Ref,
                        stateUpdates: StateUpdateMap, rt: Runtime, counter: IdentifierCounter,
                        ghost frames: set<ScopeFrame>)
    returns (first: FramePair, second: FramePair)
    requires rt.isComponentClass(componentClass)
    requires pair.frame != null
    requires FramesClosed(frames) && pair.frame in frames
    requires pair.equivalentPreviousFrame != null ==> pair.equivalentPreviousFrame in frames
    requires counter.Valid()
    modifies pair.frame, counter
    ensures counter.Valid() && first.frame != null
    ensures var key := ScopeKey(componentClass, identifier);
            && key in pair.frame.children
            && (key !in old(pair.frame.children) ==> pair.frame.children == old(pair.frame.children)[key := first.frame])
            && (key in old(pair.frame.children) ==> pair.frame.children == old(pair.frame.children))
            && second.frame != null && second.frame != pair.frame.children[key]
            && second.frame.children == pair.frame.children[key].children
            && pair.frame.children[key].handle != null && second.frame.handle != null
            && second.frame.handle.View() == ReacquirableCopy(pair.frame.children[key].handle.View())
    ensures pair.equivalentPreviousFrame != pair.frame ==>
              first.equivalentPreviousFrame == second.equivalentPreviousFrame
  {
    first := ChildPairForPair(pair, newRoot, componentClass, identifier, None, stateUpdates, rt, counter, frames);
    second := ChildPairForPair(pair, newRoot, componentClass, identifier, None, stateUpdates, rt, counter,
                               frames + {first.frame});
  }

  /**
   Two siblings with different keys, opened in turn under a parent that has
   neither key yet: each is inserted under its own key. In a first build
   (no previous frame), both handles are brand new and, unless the
   identifier counter wrapped, get distinct, increasing, never-issued global
   identifiers, so the siblings share no state.
   */
  method OpenTwoScopes(pair: FramePair, newRoot: ScopeRoot, class1: ClassId, identifier1: Ref,
                       class2: ClassId, identifier2: Ref, stateUpdates: StateUpdateMap, rt: Runtime,
                       counter: IdentifierCounter, ghost frames: set<ScopeFrame>)
    returns (first: FramePair, second: FramePair)
    requires rt.isComponentClass(class1) && rt.isComponentClass(class2)
    requires pair.frame != null
    requires FramesClosed(frames) && pair.frame in frames
    requires pair.equivalentPreviousFrame != null ==> pair.equivalentPreviousFrame in frames
    requires counter.Valid()
    modifies pair.frame, counter
    ensures counter.Valid() && first.frame != null && second.frame != null
    ensures first.frame.handle != null && second.frame.handle != null
    ensures var key1, key2 := ScopeKey(class1, identifier1), ScopeKey(class2, identifier2);
            key1 != key2 && key1 !in old(pair.frame.children) && key2 !in old(pair.frame.children) ==>
              && first.frame != second.frame
              && pair.frame.children == old(pair.frame.children)[key1 := first.frame][key2 := second.frame]
    ensures var key1, key2 := ScopeKey(class1, identifier1), ScopeKey(class2, identifier2);
            && key1 != key2 && key1 !in old(pair.frame.children) && key2 !in old(pair.frame.children)
            && pair.equivalentPreviousFrame == null && !counter.wrapped
            ==>
              && old(counter.value) < first.frame.handle.globalIdentifier < second.frame.handle.globalIdentifier
              && first.frame.handle.globalIdentifier !in old(counter.issued)
              && second.frame.handle.globalIdentifier !in old(counter.issued)
  {
    first := ChildPairForPair(pair, newRoot, class1, identifier1, None, stateUpdates, rt, counter, frames);
    second := ChildPairForPair(pair, newRoot, class2, identifier2, None, stateUpdates, rt, counter,
                               frames + {first.frame});
  }
}
