/**
 The values the scope engine handles without looking inside them: Objective-C
 object references (state, identifiers, listeners), classes, selectors,
 component instances, state-update blocks, and the facts about classes and
 objects that the engine asks the Objective-C runtime for.
 */
module ScopeTypes {

  datatype Option<T> = None | Some(value: T)

  /** An Objective-C object reference that may be nil, identified by an opaque number. */
  datatype Ref = Nil | Obj(id: nat)

  /** A `Class` object; never nil where the engine uses one. */
  type ClassId = nat

  /** A `SEL`, such as a lifecycle-event method name. */
  type Selector = nat

  /** A component's state: any object, possibly nil. */
  type State = Ref

  /** A state update block `id (^)(id)`: old state to new state. */
  type StateUpdate = State -> State

  /** `CKUpdateMode`: when the rebuild that applies an update is scheduled. */
  datatype UpdateMode = Synchronous | Asynchronous

  /** A component instance: its object identity and its class. */
  datatype Component = Component(object: nat, componentClass: ClassId)

  /** `CKComponentScopeHandleIdentifier`, a 32-bit signed integer. */
  type HandleIdentifier = int

  /** `CKComponentScopeRootIdentifier`. */
  type RootIdentifier = int

  /**
   The pending state updates of one build (`CKComponentStateUpdateMap`): for a
   handle's global identifier, the update blocks queued for it, in order.
   */
  type StateUpdateMap = map<HandleIdentifier, seq<StateUpdate>>

  /** A component controller, created by a scope handle when it is resolved. */
  class ComponentController {
    const controllerClass: ClassId
    const component: Component

    constructor (controllerClass: ClassId, component: Component)
      ensures this.controllerClass == controllerClass && this.component == component
    {
      this.controllerClass := controllerClass;
      this.component := component;
    }
  }

  /**
   What the engine learns from the Objective-C runtime and from component
   classes, none of which is part of this model:
   - isComponentClass: `[cls isSubclassOfClass:[CKComponent class]]`;
   - initialState: `+[cls initialState]`;
   - controllerClassOf: `CKComponentControllerClassFromComponentClass`;
   - componentResponds / controllerResponds: `respondsToSelector:`.
   */
  datatype Runtime = Runtime(
    isComponentClass: ClassId -> bool,
    initialState: ClassId -> State,
    controllerClassOf: ClassId -> Option<ClassId>,
    componentResponds: (Component, Selector) -> bool,
    controllerResponds: (ComponentController, Selector) -> bool)
}
