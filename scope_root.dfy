/**
 Scope roots (CKComponentScopeRoot.h): one per build of the component tree.
 A root holds its tree's root frame, the listener that state updates are
 reported to, and two registries (multimaps from a lifecycle-event selector
 to the components, or component controllers, that implement it).
 */
module ScopeRoots {
  import opened ScopeTypes
  import opened ScopeFrames

  /**
   The entries that registering `x` adds: `(s, x)` for each announceable
   selector `s` that `x` responds to, in the order of the list.
   */
  function Registrations<T>(events: seq<Selector>, x: T, responds: (T, Selector) -> bool): seq<(Selector, T)>
    decreases |events|
  {
    if events == [] then []
    else
      var last := events[|events| - 1];
      Registrations(events[..|events| - 1], x, responds) + (if responds(x, last) then [(last, x)] else [])
  }

  /**
   Registering `x` adds `(s, y)` exactly as often as `s` occurs among the
   announceable selectors when `y` is `x` and `x` responds to `s`, and never
   otherwise.
   */
  lemma {:induction false} RegistrationsCount<T>(events: seq<Selector>, x: T, responds: (T, Selector) -> bool,
                                                 s: Selector, y: T)
    ensures multiset(Registrations(events, x, responds))[(s, y)]
            == if y == x && responds(x, s) then multiset(events)[s] else 0
    decreases |events|
  {
    if events != [] {
      var init, last := events[..|events| - 1], events[|events| - 1];
      assert events == init + [last];
      RegistrationsCount(init, x, responds, s, y);
    }
  }

  /** Registration adds an entry for exactly the announceable selectors the registrant responds to, and for no others. */
  lemma RegistrationsMembership<T>(events: seq<Selector>, x: T, responds: (T, Selector) -> bool, s: Selector, y: T)
    ensures (s, y) in Registrations(events, x, responds) <==> y == x && s in events && responds(x, s)
  {
  }

  /**
   The registries are multimaps: registering the same object twice records
   each of its selectors twice.
   */
  lemma RegisteringTwiceRecordsTwice<T>(registry: seq<(Selector, T)>, events: seq<Selector>, x: T,
                                        responds: (T, Selector) -> bool, s: Selector)
    requires s in events && responds(x, s)
    ensures var once := registry + Registrations(events, x, responds);
            var twice := once + Registrations(events, x, responds);
            multiset(twice)[(s, x)] == multiset(once)[(s, x)] + multiset(events)[s]
            && multiset(twice)[(s, x)] >= multiset(registry)[(s, x)] + 2
  {
    RegistrationsCount(events, x, responds, s, x);
  }

  /** The objects registered under selector `s`, in registration order. */
  function ForEvent<T>(registry: seq<(Selector, T)>, s: Selector): seq<T>
    decreases |registry|
  {
    if registry == [] then []
    else
      var last := registry[|registry| - 1];
      ForEvent(registry[..|registry| - 1], s) + (if last.0 == s then [last.1] else [])
  }

  /** Enumerating selector `s` visits each object once per entry it has under `s`, and nothing registered under another selector. */
  lemma {:induction false} ForEventCount<T>(registry: seq<(Selector, T)>, s: Selector, y: T)
    ensures multiset(ForEvent(registry, s))[y] == multiset(registry)[(s, y)]
    decreases |registry|
  {
    if registry != [] {
      var init, last := registry[..|registry| - 1], registry[|registry| - 1];
      assert registry == init + [last];
      ForEventCount(init, s, y);
    }
  }

  /** `CKTypedComponentScopeRoot`. */
  class ScopeRoot {
    /** Held weakly: `Nil` once no listener exists. */
    const listener: Ref
    const globalIdentifier: RootIdentifier
    const rootFrame: ScopeFrame
    const announceableComponentEvents: seq<Selector>
    const announceableComponentControllerEvents: seq<Selector>
    var registeredComponents: seq<(Selector, Component)>
    var registeredComponentControllers: seq<(Selector, ComponentController)>

    /** A root with the given listener, or with a nil listener when none is passed; its registries start empty. */
    constructor (globalIdentifier: RootIdentifier, componentEvents: seq<Selector>, controllerEvents: seq<Selector>,
                 listener: Ref := Nil)
      ensures this.listener == listener && this.globalIdentifier == globalIdentifier
      ensures announceableComponentEvents == componentEvents
      ensures announceableComponentControllerEvents == controllerEvents
      ensures fresh(rootFrame) && rootFrame.handle == null && rootFrame.children == map[]
      ensures registeredComponents == [] && registeredComponentControllers == []
    {
      this.listener := listener;
      this.globalIdentifier := globalIdentifier;
      rootFrame := new ScopeFrame(null);
      announceableComponentEvents := componentEvents;
      announceableComponentControllerEvents := controllerEvents;
      registeredComponents := [];
      registeredComponentControllers := [];
    }

    /** Registers `component` under every announceable component event it responds to. */
    method RegisterComponent(component: Component, rt: Runtime)
      modifies this`registeredComponents
      ensures registeredComponents
              == old(registeredComponents) + Registrations(announceableComponentEvents, component, rt.componentResponds)
    {
      var events := announceableComponentEvents;
      var i := 0;
      while i < |events|
        invariant 0 <= i <= |events|
        invariant registeredComponents
                  == old(registeredComponents) + Registrations(events[..i], component, rt.componentResponds)
      {
        assert events[..i + 1][..i] == events[..i];
        var selector := events[i];
        if rt.componentResponds(component, selector) {
          registeredComponents := registeredComponents + [(selector, component)];
        }
        i := i + 1;
      }
      assert events[..i] == events;
    }

    /** Registers `controller` under every announceable controller event it responds to. */
    method RegisterComponentController(controller: ComponentController, rt: Runtime)
      modifies this`registeredComponentControllers
      ensures registeredComponentControllers
              == old(registeredComponentControllers)
                 + Registrations(announceableComponentControllerEvents, controller, rt.controllerResponds)
    {
      var events := announceableComponentControllerEvents;
      var i := 0;
      while i < |events|
        invariant 0 <= i <= |events|
        invariant registeredComponentControllers
                  == old(registeredComponentControllers) + Registrations(events[..i], controller, rt.controllerResponds)
      {
        assert events[..i + 1][..i] == events[..i];
        var selector := events[i];
        if rt.controllerResponds(controller, selector) {
          registeredComponentControllers := registeredComponentControllers + [(selector, controller)];
        }
        i := i + 1;
      }
      assert events[..i] == events;
    }

    /** The components the callback block is invoked with, in order, when enumerating `selector`. */
    method EnumerateRegisteredComponentsForEvent(selector: Selector) returns (visited: seq<Component>)
      ensures visited == ForEvent(registeredComponents, selector)
    {
      visited := [];
      var i := 0;
      while i < |registeredComponents|
        invariant 0 <= i <= |registeredComponents|
        invariant visited == ForEvent(registeredComponents[..i], selector)
      {
        assert registeredComponents[..i + 1][..i] == registeredComponents[..i];
        if registeredComponents[i].0 == selector {
          visited := visited + [registeredComponents[i].1];
        }
        i := i + 1;
      }
      assert registeredComponents[..i] == registeredComponents;
    }

    /** The controllers the callback block is invoked with, in order, when enumerating `selector`. */
    method EnumerateRegisteredComponentControllersForEvent(selector: Selector) returns (visited: seq<ComponentController>)
      ensures visited == ForEvent(registeredComponentControllers, selector)
    {
      visited := [];
      var i := 0;
      while i < |registeredComponentControllers|
        invariant 0 <= i <= |registeredComponentControllers|
        invariant visited == ForEvent(registeredComponentControllers[..i], selector)
      {
        assert registeredComponentControllers[..i + 1][..i] == registeredComponentControllers[..i];
        if registeredComponentControllers[i].0 == selector {
          visited := visited + [registeredComponentControllers[i].1];
        }
        i := i + 1;
      }
      assert registeredComponentControllers[..i] == registeredComponentControllers;
    }
  }
}
