/**
 The build context (CKThreadLocalComponentScope.h): while a component tree is
 built, the scope root being built, the build's pending state updates and a
 stack of frame pairs that follows the nesting of component constructions.
 The thread-local variable that makes the context reachable is modelled as an
 explicit `CurrentScopeSlot` object.
 */
module ThreadLocalScopes {
  import opened ScopeTypes
  import opened ScopeFrames
  import opened ScopeRoots

  /** `CKTypedThreadLocalComponentScope`. */
  class ThreadLocalScope {
    const newScopeRoot: ScopeRoot
    /** Fixed for the whole build. */
    const stateUpdates: StateUpdateMap
    /** Last-in, first-out: the top of the stack is the last element. */
    var stack: seq<FramePair>
    /** The frames of the previous tree and of the tree being built. */
    ghost var frames: set<ScopeFrame>

    ghost predicate Valid()
      reads this, frames
    {
      && FramesClosed(frames)
      && forall i | 0 <= i < |stack| ::
           && stack[i].frame != null && stack[i].frame in frames
           && (stack[i].equivalentPreviousFrame != null ==> stack[i].equivalentPreviousFrame in frames)
    }

    function Top(): FramePair
      reads this
      requires |stack| > 0
    {
      stack[|stack| - 1]
    }

    /**
     Opens a build: the stack holds the pair of the new root's frame and the
     previous root's frame (null when there is no previous root), and the
     context becomes the current one.
     */
    constructor (previousScopeRoot: ScopeRoot?, newScopeRoot: ScopeRoot, updates: StateUpdateMap,
                 slot: CurrentScopeSlot, ghost previousFrames: set<ScopeFrame>)
      requires FramesClosed(previousFrames)
      requires previousScopeRoot != null ==> previousScopeRoot.rootFrame in previousFrames
      requires newScopeRoot.rootFrame.children == map[]
      modifies slot
      ensures Valid() && slot.current == this
      ensures this.newScopeRoot == newScopeRoot && stateUpdates == updates
      ensures stack == [FramePair(newScopeRoot.rootFrame,
                                  if previousScopeRoot == null then null else previousScopeRoot.rootFrame)]
    {
      this.newScopeRoot := newScopeRoot;
      stateUpdates := updates;
      stack := [FramePair(newScopeRoot.rootFrame,
                          if previousScopeRoot == null then null else previousScopeRoot.rootFrame)];
      frames := previousFrames + {newScopeRoot.rootFrame};
      new;
      slot.current := this;
    }

    /**
     Closes the build: pops the root pair and clears the current context.
     `balanced` says whether the root pair was the only one left, that is,
     whether every scope opened during the build was closed.
     */
    method Close(slot: CurrentScopeSlot) returns (balanced: bool)
      requires |stack| > 0
      modifies this, slot
      ensures balanced == (|old(stack)| == 1)
      ensures stack == old(stack)[..|old(stack)| - 1] && frames == old(frames)
      ensures slot.current == null
    {
      balanced := |stack| == 1;
      stack := stack[..|stack| - 1];
      slot.current := null;
    }
  }

  /** The thread-local variable holding the current build context, if any. */
  class CurrentScopeSlot {
    var current: ThreadLocalScope?

    /** No build context is installed until a build opens one. */
    constructor ()
      ensures current == null
    {
      current := null;
    }
  }

  /** `CKTypedThreadLocalComponentScopeOverride`: installs a context temporarily. */
  class ScopeOverride {
    const slot: CurrentScopeSlot
    const previousScope: ThreadLocalScope?

    constructor (slot: CurrentScopeSlot, scope: ThreadLocalScope?)
      modifies slot
      ensures this.slot == slot && previousScope == old(slot.current) && slot.current == scope
    {
      this.slot := slot;
      previousScope := slot.current;
      new;
      slot.current := scope;
    }

    /** The destructor: puts back the context that was current before the override. */
    method Restore()
      modifies slot
      ensures slot.current == previousScope
    {
      slot.current := previousScope;
    }
  }

  /** An override used as a scoped guard leaves the current context as it found it. */
  method WithOverride(slot: CurrentScopeSlot, scope: ThreadLocalScope?) returns (seenInside: ThreadLocalScope?)
    modifies slot
    ensures seenInside == scope
    ensures slot.current == old(slot.current)
  {
    var guard := new ScopeOverride(slot, scope);
    seenInside := slot.current;
    guard.Restore();
  }
}
