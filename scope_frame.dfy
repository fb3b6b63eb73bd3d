/**
 Scope frames (CKComponentScopeFrame.h): the nodes of the scope tree. A frame
 holds one scope handle and its children, keyed by component class and
 identifier. The children map is a value whose entries are shared frame
 references, as the source's map of `shared_ptr`s is.
 */
module ScopeFrames {
  import opened ScopeTypes
  import opened ScopeHandles

  /** `_CKStateScopeKey`. */
  datatype ScopeKey = ScopeKey(componentClass: ClassId, identifier: Ref)

  /**
   `CKObjectIsEqual`: identical references are equal; otherwise two non-nil
   objects are equal when `isEqual:` says so, and nil equals only nil.
   */
  function ObjectIsEqual(a: Ref, b: Ref, isEqual: (nat, nat) -> bool): bool
  {
    a == b || (a.Obj? && b.Obj? && isEqual(a.id, b.id))
  }

  /**
   `_CKStateScopeKey::operator==`: equal classes and equal identifiers. A
   class object is equal only to itself, so classes compare by identity.
   */
  function KeysEqual(k: ScopeKey, k': ScopeKey, isEqual: (nat, nat) -> bool): bool
  {
    && k.componentClass == k'.componentClass
    && ObjectIsEqual(k.identifier, k'.identifier, isEqual)
  }

  /** `[obj hash]`, where a message to nil answers 0. */
  function MessageHash(r: Ref, hash: nat -> int): int
  {
    if r.Nil? then 0 else hash(r.id)
  }

  /** `std::hash<_CKStateScopeKey>`: the combined hash of the class's hash and the identifier's hash. */
  function KeyHash(k: ScopeKey, hash: nat -> int, integerArrayHash: seq<int> -> int): int
  {
    integerArrayHash([MessageHash(Obj(k.componentClass), hash), MessageHash(k.identifier, hash)])
  }

  /** `isEqual:` that is object identity. */
  ghost predicate IsIdentity(isEqual: (nat, nat) -> bool)
  {
    forall x, y :: isEqual(x, y) <==> x == y
  }

  /** `isEqual:` and `hash` obeying NSObject's contract: equal objects have equal hashes. */
  ghost predicate HashRespectsEquality(isEqual: (nat, nat) -> bool, hash: nat -> int)
  {
    forall x, y :: isEqual(x, y) ==> hash(x) == hash(y)
  }

  /**
   Two keys are equal iff their classes are equal and their identifiers are
   equal; when `isEqual:` is identity this is equality of key values, which is
   why this model keys children by `ScopeKey` itself.
   */
  lemma KeysEqualIffComponents(k: ScopeKey, k': ScopeKey, isEqual: (nat, nat) -> bool)
    requires IsIdentity(isEqual)
    ensures KeysEqual(k, k', isEqual) <==> k.componentClass == k'.componentClass && k.identifier == k'.identifier
    ensures KeysEqual(k, k', isEqual) <==> k == k'
  {
  }

  /** Equal keys hash equally, whatever the combining function, as long as `hash` agrees with `isEqual:`. */
  lemma EqualKeysHashEqually(k: ScopeKey, k': ScopeKey, isEqual: (nat, nat) -> bool,
                             hash: nat -> int, integerArrayHash: seq<int> -> int)
    requires HashRespectsEquality(isEqual, hash)
    requires KeysEqual(k, k', isEqual)
    ensures KeyHash(k, hash, integerArrayHash) == KeyHash(k', hash, integerArrayHash)
  {
  }

  /** `CKTypedComponentScopeFrame`. */
  class ScopeFrame {
    /** Fixed at construction; the root frame of a scope root has none. */
    const handle: ScopeHandle?
    /** At most one child per key; `children()` hands out this very map for in-place change. */
    var children: map<ScopeKey, ScopeFrame>

    constructor (handle: ScopeHandle?)
      ensures this.handle == handle && children == map[]
    {
      this.handle := handle;
      children := map[];
    }
  }

  /** `CKTypedComponentScopeFramePair`: a frame of the tree being built and its counterpart in the previous tree. */
  datatype FramePair = FramePair(frame: ScopeFrame?, equivalentPreviousFrame: ScopeFrame?)

  /**
   A set of frames that contains the children of each of its frames, every one
   of which holds a handle of the component class in its key: the scope trees
   of the previous and the current build, seen as one arena of frames.
   */
  ghost predicate FramesClosed(frames: set<ScopeFrame>)
    reads frames
  {
    forall f, k | f in frames && k in f.children ::
      && f.children[k] in frames
      && f.children[k].handle != null
      && f.children[k].handle.componentClass == k.componentClass
  }
}
