/**
 Handle acquisition (`handleForComponent`, CKComponentScopeHandle.h): a
 component under construction claims the handle of the scope on top of the
 build stack, and is then registered with the scope root being built.
 */
module HandleAcquisition {
  import opened ScopeTypes
  import opened ScopeHandles
  import opened ScopeFrames
  import opened ScopeRoots
  import opened ThreadLocalScopes
  import opened ComponentScopes

  /** The handle of the frame on top of the build stack (null for a root frame). */
  ghost function TopHandle(tls: ThreadLocalScope): ScopeHandle?
    reads tls, tls.frames
    requires tls.Valid() && |tls.stack| > 0
  {
    tls.Top().frame.handle
  }

  /** What `HandleForComponent` may change: the top handle and the new root's registry. */
  ghost function AcquisitionFrame(slot: CurrentScopeSlot): set<object>
    reads slot, slot.current
    reads if slot.current != null then slot.current.frames else {}
  {
    if slot.current != null && slot.current.Valid() && |slot.current.stack| > 0 then
      {slot.current.newScopeRoot} + (if TopHandle(slot.current) != null then {TopHandle(slot.current)} else {})
    else {}
  }

  /**
   `handleForComponent`: outside a build there is no handle. Inside one, the
   top frame's handle is returned when `component` acquires it, and the
   component is then registered with the new root; otherwise there is no
   handle, and `controllerWithoutScope` reports the debug assertion that
   fires when the component's class has a controller but no scope of its own.
   */
  method HandleForComponent(slot: CurrentScopeSlot, component: Component, rt: Runtime)
    returns (handle: ScopeHandle?, controllerWithoutScope: bool)
    requires slot.current != null ==> slot.current.Valid() && |slot.current.stack| > 0
    modifies AcquisitionFrame(slot)
    ensures slot.current == null ==> handle == null && !controllerWithoutScope
    ensures slot.current != null ==>
              var top := TopHandle(slot.current);
              var root := slot.current.newScopeRoot;
              && (handle != null
                  <==> top != null && !old(top.acquired) && component.componentClass == top.componentClass)
              && root.registeredComponentControllers == old(root.registeredComponentControllers)
              && (handle != null ==>
                    && handle == top && handle.acquired && handle.acquiredComponent == Some(component)
                    && handle.resolved == old(handle.resolved) && handle.controller == old(handle.controller)
                    && !controllerWithoutScope
                    && root.registeredComponents
                       == old(root.registeredComponents)
                          + Registrations(root.announceableComponentEvents, component, rt.componentResponds))
              && (handle == null ==>
                    && root.registeredComponents == old(root.registeredComponents)
                    && (top != null ==> top.View() == old(top.View()))
                    && controllerWithoutScope == rt.controllerClassOf(component.componentClass).Some?)
  {
    var currentScope := slot.current;
    if currentScope == null {
      return null, false;
    }
    var top := currentScope.Top().frame.handle;
    var acquired := false;
    if top != null {
      acquired := top.AcquireFromComponent(component);
    }
    if acquired {
      currentScope.newScopeRoot.RegisterComponent(component, rt);
      return top, false;
    }
    handle := null;
    controllerWithoutScope := rt.controllerClassOf(component.componentClass).Some?;
  }

  /**
   A component built inside a scope opened for its own class acquires that
   scope's handle and is registered with the root being built; closing the
   scope then gives it a controller when its class declares one.
   */
  method BuildScopedComponent(slot: CurrentScopeSlot, component: Component, identifier: Ref, rt: Runtime,
                              counter: IdentifierCounter)
    returns (handle: ScopeHandle?)
    requires rt.isComponentClass(component.componentClass)
    requires slot.current != null ==> slot.current.Valid() && |slot.current.stack| > 0 && counter.Valid()
    modifies slot.current, counter
    modifies if slot.current != null then {slot.current.newScopeRoot} else {}
    modifies if slot.current != null && |slot.current.stack| > 0 then {slot.current.Top().frame} else {}
    ensures slot.current == null ==> handle == null
    ensures slot.current != null ==>
              var root := slot.current.newScopeRoot;
              && slot.current.stack == old(slot.current.stack)
              && handle != null && handle.acquiredComponent == Some(component) && handle.resolved
              && (rt.controllerClassOf(component.componentClass).Some? ==> handle.controller != null)
              && root.registeredComponents
                 == old(root.registeredComponents)
                    + Registrations(root.announceableComponentEvents, component, rt.componentResponds)
  {
    var scope := new Scope(slot, component.componentClass, rt, counter, identifier);
    var controllerWithoutScope;
    handle, controllerWithoutScope := HandleForComponent(slot, component, rt);
    scope.Close(rt);
  }
}
