/**
 * The `HotkeysProvider` component of src/hotkeys_provider.rs: the scope
 * callbacks and the `key`-based pressed-key map of the hotkeys-provider
 * context, with the component's prop defaults.
 */
module LegacyProvider {
  import opened Wrappers
  import opened Text
  import opened KeyState
  import Scopes
  import Provider

  /** The default of `initially_active_scopes`: `scopes!()`. */
  function DefaultScopes(): (r: set<string>)
    ensures r == {Scopes.Wildcard}
  {
    Scopes.ScopeSet([])
  }

  /** A host event target, by identity. */
  type EventTarget = nat

  class HotkeysProvider {
    const allowBlurEvent: bool
    var activeScopes: set<string>
    var keyMap: map<string, KeyboardEvent>
    var activeRefTarget: Option<EventTarget>

    function State(): Provider.World
      reads this
    {
      Provider.World(activeScopes, keyMap)
    }

    /**
     * The component with its props; `allow_blur_event` defaults to false and
     * `initially_active_scopes` to `{"*"}`.
     */
    constructor (allowBlurEvent: bool := false, initiallyActiveScopes: set<string> := DefaultScopes())
      ensures this.allowBlurEvent == allowBlurEvent
      ensures State() == Provider.Initial(initiallyActiveScopes) && activeRefTarget == None
    {
      this.allowBlurEvent := allowBlurEvent;
      activeScopes := initiallyActiveScopes;
      keyMap := map[];
      activeRefTarget := None;
    }

    /** `set_ref_target`. */
    method SetRefTarget(target: Option<EventTarget>)
      modifies this
      ensures activeRefTarget == target && State() == old(State())
    {
      activeRefTarget := target;
    }

    /** `enable_scope`. */
    method EnableScope(scope: string)
      modifies this
      ensures State() == Provider.Step(allowBlurEvent, old(State()), Input.EnableScope(scope))
      ensures activeRefTarget == old(activeRefTarget)
    {
      if scope !in activeScopes {
        activeScopes := activeScopes + {scope};
      }
    }

    /** `disable_scope`. */
    method DisableScope(scope: string)
      modifies this
      ensures State() == Provider.Step(allowBlurEvent, old(State()), Input.DisableScope(scope))
      ensures activeRefTarget == old(activeRefTarget)
    {
      activeScopes := activeScopes - {scope};
    }

    /** `toggle_scope`. */
    method ToggleScope(scope: string)
      modifies this
      ensures State() == Provider.Step(allowBlurEvent, old(State()), Input.ToggleScope(scope))
      ensures activeRefTarget == old(activeRefTarget)
    {
      if scope in activeScopes {
        activeScopes := activeScopes - {scope};
      } else {
        activeScopes := activeScopes + {scope};
      }
    }

    /** The keydown listener. */
    method OnKeyDown(ev: KeyboardEvent)
      modifies this
      ensures State() == Provider.Step(allowBlurEvent, old(State()), KeyDown(ev))
      ensures activeRefTarget == old(activeRefTarget)
    {
      keyMap := keyMap[Lower(ev.key) := ev];
    }

    /** The keyup listener. */
    method OnKeyUp(ev: KeyboardEvent)
      modifies this
      ensures State() == Provider.Step(allowBlurEvent, old(State()), KeyUp(ev))
      ensures activeRefTarget == old(activeRefTarget)
    {
      keyMap := keyMap - {Lower(ev.key)};
    }

    /** The window's blur event; its listener exists only while `allow_blur_event` is false. */
    method OnBlur()
      modifies this
      ensures State() == Provider.Step(allowBlurEvent, old(State()), WindowBlur)
      ensures activeRefTarget == old(activeRefTarget)
    {
      if !allowBlurEvent {
        keyMap := map[];
      }
    }
  }

  /** A provider built with no props starts with only the wildcard scope active and no key held. */
  method DefaultProvider() returns (p: HotkeysProvider)
    ensures fresh(p) && !p.allowBlurEvent
    ensures p.State() == Provider.World({Scopes.Wildcard}, map[])
  {
    p := new HotkeysProvider();
  }
}
