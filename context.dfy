/**
 * The hotkeys context of leptos_hotkeys/src/context.rs: the active scopes, the
 * pressed-key tracker fed by the document's keydown and keyup listeners and
 * the window's blur listener, and the scope callbacks.
 */
module Context {
  import opened Wrappers
  import opened Text
  import opened KeyState
  import Scopes

  /**
   * What is fixed when the context is provided: `allow_blur_event`, and
   * whether the crate is built with the `use_key` feature.
   */
  datatype Config = Config(allowBlurEvent: bool, useKey: bool)

  /** Everything an input can change: the active scopes and the pressed keys. */
  datatype World = World(activeScopes: set<string>, presses: KeyPresses)

  /**
   * The id an event is tracked under: the lowercased `code` by default; with
   * `use_key`, the lowercased `key`, except that the space key becomes
   * `spacebar`.
   */
  function KeyId(ev: KeyboardEvent, useKey: bool): (id: string)
    ensures IsLower(id)
  {
    if useKey then
      if ev.key == " " then "spacebar" else Lower(ev.key)
    else
      Lower(ev.code)
  }

  /** `provide_hotkeys_context`: the given scopes, and no key held. */
  function Initial(initiallyActiveScopes: set<string>): (w: World)
    ensures w.activeScopes == initiallyActiveScopes && w.presses.keyMap == map[] && Valid(w.presses)
  {
    World(initiallyActiveScopes, NoPresses())
  }

  /** The effect of one input. Blur resets only when its listener was installed. */
  function Step(cfg: Config, w: World, input: Input): World {
    match input
    case KeyDown(ev) => w.(presses := Press(w.presses, KeyId(ev, cfg.useKey), ev))
    case KeyUp(ev) => w.(presses := Release(w.presses, KeyId(ev, cfg.useKey)))
    case WindowBlur => if cfg.allowBlurEvent then w else w.(presses := NoPresses())
    case EnableScope(s) => w.(activeScopes := Scopes.Enable(w.activeScopes, s))
    case DisableScope(s) => w.(activeScopes := Scopes.Disable(w.activeScopes, s))
    case ToggleScope(s) => w.(activeScopes := Scopes.Toggle(w.activeScopes, s))
  }

  /** The state after a run of inputs, one `Step` per input in order. */
  function Steps(cfg: Config, w: World, inputs: seq<Input>): World
    decreases |inputs|
  {
    if |inputs| == 0 then w else Step(cfg, Steps(cfg, w, inputs[..|inputs| - 1]), inputs[|inputs| - 1])
  }

  // ---------------------------------------------------------------------
  // What the steps keep and change

  /** Every input keeps the last key among the held keys. */
  lemma StepKeepsValid(cfg: Config, w: World, input: Input)
    requires Valid(w.presses)
    ensures Valid(Step(cfg, w, input).presses)
  {
  }

  /** So does any run of inputs from the initial state. */
  lemma {:induction false} StepsKeepValid(cfg: Config, w: World, inputs: seq<Input>)
    requires Valid(w.presses)
    ensures Valid(Steps(cfg, w, inputs).presses)
    decreases |inputs|
  {
    if |inputs| > 0 {
      var before := inputs[..|inputs| - 1];
      StepsKeepValid(cfg, w, before);
      StepKeepsValid(cfg, Steps(cfg, w, before), inputs[|inputs| - 1]);
    }
  }

  /** Scope operations never touch the pressed keys; key events and blur never touch the scopes. */
  lemma StepsAreIndependent(cfg: Config, w: World, input: Input)
    ensures IsScopeInput(input) ==> Step(cfg, w, input).presses == w.presses
    ensures !IsScopeInput(input) ==> Step(cfg, w, input).activeScopes == w.activeScopes
  {
  }

  /** A keydown holds its id with its event, overwriting an earlier one, and leaves the other ids alone. */
  lemma KeyDownInserts(cfg: Config, w: World, ev: KeyboardEvent, id: string)
    ensures var m := Step(cfg, w, KeyDown(ev)).presses.keyMap;
      var own := KeyId(ev, cfg.useKey);
      own in m && m[own] == ev &&
      (id != own ==> (id in m <==> id in w.presses.keyMap) && (id in m ==> m[id] == w.presses.keyMap[id]))
  {
  }

  /** A keyup releases the id its event normalises to, and leaves the other ids alone. */
  lemma KeyUpRemoves(cfg: Config, w: World, ev: KeyboardEvent, id: string)
    ensures var m := Step(cfg, w, KeyUp(ev)).presses.keyMap;
      var own := KeyId(ev, cfg.useKey);
      own !in m &&
      (id != own ==> (id in m <==> id in w.presses.keyMap) && (id in m ==> m[id] == w.presses.keyMap[id]))
  {
  }

  /** Pressing and releasing a key that was not held restores the held keys. */
  lemma PressRelease(cfg: Config, w: World, down: KeyboardEvent, up: KeyboardEvent)
    requires KeyId(down, cfg.useKey) == KeyId(up, cfg.useKey)
    requires KeyId(down, cfg.useKey) !in w.presses.keyMap
    ensures Steps(cfg, w, [KeyDown(down), KeyUp(up)]).presses.keyMap == w.presses.keyMap
  {
    var inputs := [KeyDown(down), KeyUp(up)];
    assert inputs[..1] == [KeyDown(down)];
    assert [KeyDown(down)][..0] == [];
    var w1 := Step(cfg, w, KeyDown(down));
    assert Steps(cfg, w, [KeyDown(down)]) == w1;
    assert Steps(cfg, w, inputs) == Step(cfg, w1, KeyUp(up));
    InsertThenRemove(w.presses.keyMap, KeyId(down, cfg.useKey), down);
  }

  /** Blur empties the held keys when `allow_blur_event` is false, and changes nothing otherwise. */
  lemma BlurResets(cfg: Config, w: World)
    ensures Step(cfg, w, WindowBlur).presses.keyMap == (if cfg.allowBlurEvent then w.presses.keyMap else map[])
    ensures Step(cfg, w, WindowBlur).activeScopes == w.activeScopes
  {
  }

  /** The space key: `spacebar` under `use_key`, but `space` (its lowercased code) by default. */
  lemma SpaceKeyId(ev: KeyboardEvent)
    requires ev.key == " " && ev.code == "Space"
    ensures KeyId(ev, true) == "spacebar"
    ensures KeyId(ev, false) == "space"
  {
  }

  // ---------------------------------------------------------------------
  // The context as the source keeps it: signals updated in place

  /** A host event target, by identity. */
  type EventTarget = nat

  class HotkeysContext {
    const allowBlurEvent: bool
    const useKey: bool
    var activeScopes: set<string>
    var keyMap: map<string, KeyboardEvent>
    var lastKey: Option<string>
    var activeRefTarget: Option<EventTarget>

    function Cfg(): Config {
      Config(allowBlurEvent, useKey)
    }

    function State(): World
      reads this
    {
      World(activeScopes, KeyPresses(keyMap, lastKey))
    }

    predicate Valid()
      reads this
    {
      KeyState.Valid(State().presses)
    }

    /** `provide_hotkeys_context(node_ref, allow_blur_event, initially_active_scopes)`. */
    constructor (allowBlurEvent: bool, useKey: bool, initiallyActiveScopes: set<string>)
      ensures this.allowBlurEvent == allowBlurEvent && this.useKey == useKey
      ensures State() == Initial(initiallyActiveScopes) && activeRefTarget == None
      ensures Valid()
    {
      this.allowBlurEvent := allowBlurEvent;
      this.useKey := useKey;
      activeScopes := initiallyActiveScopes;
      keyMap := map[];
      lastKey := None;
      activeRefTarget := None;
    }

    /** `set_ref_target`. */
    method SetRefTarget(target: Option<EventTarget>)
      modifies this
      ensures activeRefTarget == target && State() == old(State())
    {
      activeRefTarget := target;
    }

    /** `enable_scope`. */
    method EnableScope(scope: string)
      modifies this
      ensures State() == Step(Cfg(), old(State()), Input.EnableScope(scope))
      ensures activeRefTarget == old(activeRefTarget)
    {
      if scope !in activeScopes {
        activeScopes := activeScopes + {scope};
      }
    }

    /** `disable_scope`. */
    method DisableScope(scope: string)
      modifies this
      ensures State() == Step(Cfg(), old(State()), Input.DisableScope(scope))
      ensures activeRefTarget == old(activeRefTarget)
    {
      activeScopes := activeScopes - {scope};
    }

    /** `toggle_scope`. */
    method ToggleScope(scope: string)
      modifies this
      ensures State() == Step(Cfg(), old(State()), Input.ToggleScope(scope))
      ensures activeRefTarget == old(activeRefTarget)
    {
      if scope in activeScopes {
        activeScopes := activeScopes - {scope};
      } else {
        activeScopes := activeScopes + {scope};
      }
    }

    /** The keydown listener. */
    method OnKeyDown(ev: KeyboardEvent)
      requires Valid()
      modifies this
      ensures Valid()
      ensures State() == Step(Cfg(), old(State()), KeyDown(ev))
      ensures activeRefTarget == old(activeRefTarget)
    {
      var id: string;
      if useKey {
        if ev.key == " " {
          id := "spacebar";
        } else {
          id := Lower(ev.key);
        }
      } else {
        id := Lower(ev.code);
      }
      keyMap := keyMap[id := ev];
      lastKey := Some(id);
    }

    /** The keyup listener. */
    method OnKeyUp(ev: KeyboardEvent)
      requires Valid()
      modifies this
      ensures Valid()
      ensures State() == Step(Cfg(), old(State()), KeyUp(ev))
      ensures activeRefTarget == old(activeRefTarget)
    {
      var id := KeyId(ev, useKey);
      keyMap := keyMap - {id};
      if lastKey == Some(id) {
        lastKey := None;
      }
    }

    /** The window's blur event; its listener exists only while `allow_blur_event` is false. */
    method OnBlur()
      requires Valid()
      modifies this
      ensures Valid()
      ensures State() == Step(Cfg(), old(State()), WindowBlur)
      ensures activeRefTarget == old(activeRefTarget)
    {
      if !allowBlurEvent {
        keyMap := map[];
        lastKey := None;
      }
    }

    /** Any input, through the callback or listener that handles it. */
    method Apply(input: Input)
      requires Valid()
      modifies this
      ensures Valid()
      ensures State() == Step(Cfg(), old(State()), input)
      ensures activeRefTarget == old(activeRefTarget)
    {
      match input
      case KeyDown(ev) => OnKeyDown(ev);
      case KeyUp(ev) => OnKeyUp(ev);
      case WindowBlur => OnBlur();
      case EnableScope(s) => EnableScope(s);
      case DisableScope(s) => DisableScope(s);
      case ToggleScope(s) => ToggleScope(s);
    }
  }
}
