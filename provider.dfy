/**
 * The hotkeys context of leptos_hotkeys/src/hotkeys_provider.rs: the same
 * scope callbacks as the current context, and a pressed-key map whose ids
 * are the lowercased `key` of each event.
 */
module Provider {
  import opened Wrappers
  import opened Text
  import opened KeyState
  import Scopes
  import Context

  /** The active scopes and the held keys; this tracker keeps no last key. */
  datatype World = World(activeScopes: set<string>, keyMap: map<string, KeyboardEvent>)

  /** The id an event is tracked under: its lowercased `key`, for every key including the space bar. */
  function KeyId(ev: KeyboardEvent): (id: string)
    ensures IsLower(id) && |id| == |ev.key|
  {
    Lower(ev.key)
  }

  function Initial(initiallyActiveScopes: set<string>): (w: World)
    ensures w.activeScopes == initiallyActiveScopes && w.keyMap == map[]
  {
    World(initiallyActiveScopes, map[])
  }

  /** The effect of one input. Blur resets only when its listener was installed. */
  function Step(allowBlurEvent: bool, w: World, input: Input): World {
    match input
    case KeyDown(ev) => w.(keyMap := Insert(w.keyMap, KeyId(ev), ev))
    case KeyUp(ev) => w.(keyMap := Remove(w.keyMap, KeyId(ev)))
    case WindowBlur => if allowBlurEvent then w else w.(keyMap := map[])
    case EnableScope(s) => w.(activeScopes := Scopes.Enable(w.activeScopes, s))
    case DisableScope(s) => w.(activeScopes := Scopes.Disable(w.activeScopes, s))
    case ToggleScope(s) => w.(activeScopes := Scopes.Toggle(w.activeScopes, s))
  }

  /** The state after a run of inputs, applied from the first to the last. */
  function Steps(allowBlurEvent: bool, w: World, inputs: seq<Input>): World
    decreases |inputs|
  {
    if |inputs| == 0 then w
    else Step(allowBlurEvent, Steps(allowBlurEvent, w, inputs[..|inputs| - 1]), inputs[|inputs| - 1])
  }

  /** The state after one more input. */
  lemma StepsSnoc(allowBlurEvent: bool, w: World, inputs: seq<Input>, input: Input)
    ensures Steps(allowBlurEvent, w, inputs + [input]) == Step(allowBlurEvent, Steps(allowBlurEvent, w, inputs), input)
  {
    assert (inputs + [input])[..|inputs|] == inputs;
  }

  /** Scope operations never touch the held keys; key events and blur never touch the scopes. */
  lemma StepsAreIndependent(allowBlurEvent: bool, w: World, input: Input)
    ensures IsScopeInput(input) ==> Step(allowBlurEvent, w, input).keyMap == w.keyMap
    ensures !IsScopeInput(input) ==> Step(allowBlurEvent, w, input).activeScopes == w.activeScopes
  {
  }

  /** A keydown and a keyup of the same key, where it was not held, restore the held keys. */
  lemma PressRelease(allowBlurEvent: bool, w: World, down: KeyboardEvent, up: KeyboardEvent)
    requires down.key == up.key && KeyId(down) !in w.keyMap
    ensures Step(allowBlurEvent, Step(allowBlurEvent, w, KeyDown(down)), KeyUp(up)).keyMap == w.keyMap
  {
    InsertThenRemove(w.keyMap, KeyId(down), down);
  }

  /** Blur empties the held keys when `allow_blur_event` is false, and changes nothing otherwise. */
  lemma BlurResets(allowBlurEvent: bool, w: World)
    ensures Step(allowBlurEvent, w, WindowBlur) == (if allowBlurEvent then w else World(w.activeScopes, map[]))
  {
  }

  /**
   * No space bar remapping: the space key is held under `" "`, where the
   * current context under `use_key` holds it under `spacebar`.
   */
  lemma SpaceNotRemapped(ev: KeyboardEvent)
    requires ev.key == " "
    ensures KeyId(ev) == " "
    ensures KeyId(ev) != Context.KeyId(ev, true)
  {
  }

  /** The event's `code` plays no part: two events with the same `key` are the same key. */
  lemma KeyIdIgnoresCode(a: KeyboardEvent, b: KeyboardEvent)
    requires a.key == b.key
    ensures KeyId(a) == KeyId(b)
  {
  }

  /** A host event target, by identity. */
  type EventTarget = nat

  class HotkeysContext {
    const allowBlurEvent: bool
    var activeScopes: set<string>
    var keyMap: map<string, KeyboardEvent>
    var activeRefTarget: Option<EventTarget>

    function State(): World
      reads this
    {
      World(activeScopes, keyMap)
    }

    /** `provide_hotkeys_context(node_ref, allow_blur_event, initially_active_scopes)`. */
    constructor (allowBlurEvent: bool, initiallyActiveScopes: set<string>)
      ensures this.allowBlurEvent == allowBlurEvent
      ensures State() == Initial(initiallyActiveScopes) && activeRefTarget == None
    {
      this.allowBlurEvent := allowBlurEvent;
      activeScopes := initiallyActiveScopes;
      keyMap := map[];
      activeRefTarget := None;
    }

    /** `set_ref_target`. */
    method SetRefTarget(target: Option<EventTarget>)
      modifies this
      ensures activeRefTarget == target && State() == old(State())
    {
      activeRefTarget := target;
    }

    /** `enable_scope`. */
    method EnableScope(scope: string)
      modifies this
      ensures State() == Step(allowBlurEvent, old(State()), Input.EnableScope(scope))
      ensures activeRefTarget == old(activeRefTarget)
    {
      if scope !in activeScopes {
        activeScopes := activeScopes + {scope};
      }
    }

    /** `disable_scope`. */
    method DisableScope(scope: string)
      modifies this
      ensures State() == Step(allowBlurEvent, old(State()), Input.DisableScope(scope))
      ensures activeRefTarget == old(activeRefTarget)
    {
      activeScopes := activeScopes - {scope};
    }

    /** `toggle_scope`. */
    method ToggleScope(scope: string)
      modifies this
      ensures State() == Step(allowBlurEvent, old(State()), Input.ToggleScope(scope))
      ensures activeRefTarget == old(activeRefTarget)
    {
      if scope in activeScopes {
        activeScopes := activeScopes - {scope};
      } else {
        activeScopes := activeScopes + {scope};
      }
    }

    /** The keydown listener. */
    method OnKeyDown(ev: KeyboardEvent)
      modifies this
      ensures State() == Step(allowBlurEvent, old(State()), KeyDown(ev))
      ensures activeRefTarget == old(activeRefTarget)
    {
      keyMap := keyMap[Lower(ev.key) := ev];
    }

    /** The keyup listener. */
    method OnKeyUp(ev: KeyboardEvent)
      modifies this
      ensures State() == Step(allowBlurEvent, old(State()), KeyUp(ev))
      ensures activeRefTarget == old(activeRefTarget)
    {
      keyMap := keyMap - {Lower(ev.key)};
    }

    /** The window's blur event; its listener exists only while `allow_blur_event` is false. */
    method OnBlur()
      modifies this
      ensures State() == Step(allowBlurEvent, old(State()), WindowBlur)
      ensures activeRefTarget == old(activeRefTarget)
    {
      if !allowBlurEvent {
        keyMap := map[];
      }
    }
  }
}
