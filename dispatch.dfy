/**
 * The dispatch of leptos_hotkeys/src/use_hotkeys.rs: a binding is a set of
 * parsed alternatives and a list of scopes; each evaluation runs the scope
 * gate, then the last-key gate, then looks for the first alternative that
 * matches, and runs the callback at most once.
 */
module Dispatch {
  import opened Wrappers
  import opened Text
  import opened KeyState
  import Types
  import Hotkeys
  import Context

  type Hotkey = Types.Hotkey

  /** `key_combination.split(',').map(Hotkey::new).collect()` into a `HashSet`. */
  function ParseAlternatives(combination: string): (parsed: set<Hotkey>)
    ensures forall part :: part in Split(combination, ',') ==> Hotkeys.Parse(part) in parsed
    ensures forall h :: h in parsed ==> exists part :: part in Split(combination, ',') && h == Hotkeys.Parse(part)
  {
    set part | part in Split(combination, ',') :: Hotkeys.Parse(part)
  }

  /** What a registration keeps: the parsed alternatives and the scopes it is active in. */
  datatype Binding = Binding(parsedKeys: set<Hotkey>, scopes: seq<string>)

  /** `use_hotkeys_scoped(key_combination, on_triggered, scopes)`, apart from the callback. */
  function UseHotkeysScoped(combination: string, scopes: seq<string>): Binding {
    Binding(ParseAlternatives(combination), scopes)
  }

  /** `scopes.iter().any(|scope| active_scopes.contains(scope))`. */
  predicate WithinScope(scopes: seq<string>, activeScopes: set<string>) {
    exists i :: 0 <= i < |scopes| && scopes[i] in activeScopes
  }

  /** Whether an evaluation runs the callback: both gates pass and some alternative matches. */
  predicate Fires(b: Binding, activeScopes: set<string>, keysPressed: KeyPresses) {
    WithinScope(b.scopes, activeScopes) &&
    Hotkeys.IsLastKeyMatch(b.parsedKeys, keysPressed) &&
    exists h :: h in b.parsedKeys && Hotkeys.Matches(h, keysPressed.keyMap)
  }

  /** Whether `find` succeeds on the alternatives in this order. */
  predicate FindSucceeds(order: seq<Hotkey>, pressed: map<string, KeyboardEvent>)
    decreases |order|
  {
    |order| > 0 && (Hotkeys.Matches(order[0], pressed) || FindSucceeds(order[1..], pressed))
  }

  /**
   * The events `find` hands to `prevent_default`: those of each alternative
   * it tests, in order, up to and including the first that matches.
   */
  function FindPrevented(order: seq<Hotkey>, pressed: map<string, KeyboardEvent>): seq<KeyboardEvent>
    decreases |order|
  {
    if |order| == 0 then []
    else
      Hotkeys.MatchPrevented(order[0], pressed) +
      (if Hotkeys.Matches(order[0], pressed) then [] else FindPrevented(order[1..], pressed))
  }

  /** The events of the first `k` alternatives, each checked in turn. */
  function PreventedUpTo(order: seq<Hotkey>, k: nat, pressed: map<string, KeyboardEvent>): seq<KeyboardEvent>
    requires k <= |order|
  {
    if k == 0 then [] else PreventedUpTo(order, k - 1, pressed) + Hotkeys.MatchPrevented(order[k - 1], pressed)
  }

  /** None of the first `k` alternatives matches. */
  predicate NoneMatchUpTo(order: seq<Hotkey>, k: nat, pressed: map<string, KeyboardEvent>)
    requires k <= |order|
  {
    k == 0 || (NoneMatchUpTo(order, k - 1, pressed) && !Hotkeys.Matches(order[k - 1], pressed))
  }

  /** A failing alternative passes `find` on to the next one. */
  lemma FindPast(order: seq<Hotkey>, k: nat, pressed: map<string, KeyboardEvent>)
    requires k < |order| && !Hotkeys.Matches(order[k], pressed)
    ensures FindPrevented(order[k..], pressed) == Hotkeys.MatchPrevented(order[k], pressed) + FindPrevented(order[k + 1..], pressed)
    ensures FindSucceeds(order[k..], pressed) == FindSucceeds(order[k + 1..], pressed)
  {
    assert order[k..][1..] == order[k + 1..];
  }

  /** At a matching alternative, `find` stops. */
  lemma FindStops(order: seq<Hotkey>, k: nat, pressed: map<string, KeyboardEvent>)
    requires k < |order| && Hotkeys.Matches(order[k], pressed)
    ensures FindPrevented(order[k..], pressed) == Hotkeys.MatchPrevented(order[k], pressed)
    ensures FindSucceeds(order[k..], pressed)
  {
    assert order[k..][0] == order[k];
  }

  /** Past alternatives that all failed, `find` goes on from where it stands. */
  lemma {:induction false} FindPreventedSplit(order: seq<Hotkey>, k: nat, pressed: map<string, KeyboardEvent>)
    requires k <= |order| && NoneMatchUpTo(order, k, pressed)
    ensures FindPrevented(order, pressed) == PreventedUpTo(order, k, pressed) + FindPrevented(order[k..], pressed)
  {
    if k == 0 {
      assert order[0..] == order;
    } else {
      var before := PreventedUpTo(order, k - 1, pressed);
      var here := Hotkeys.MatchPrevented(order[k - 1], pressed);
      var rest := FindPrevented(order[k..], pressed);
      FindPreventedSplit(order, k - 1, pressed);
      FindPast(order, k - 1, pressed);
      ConcatAssociates(before, here, rest);
      assert PreventedUpTo(order, k, pressed) == before + here;
    }
  }

  /** Past alternatives that all fail, `find` succeeds where it would from there. */
  lemma {:induction false} AnyMatchPastFailures(order: seq<Hotkey>, k: nat, pressed: map<string, KeyboardEvent>)
    requires k <= |order| && NoneMatchUpTo(order, k, pressed)
    ensures FindSucceeds(order, pressed) == FindSucceeds(order[k..], pressed)
  {
    if k == 0 {
      assert order[0..] == order;
    } else {
      AnyMatchPastFailures(order, k - 1, pressed);
      FindPast(order, k - 1, pressed);
    }
  }

  /** `find` succeeds exactly when some alternative in the order matches. */
  lemma {:induction false} FindSucceedsExists(order: seq<Hotkey>, pressed: map<string, KeyboardEvent>)
    ensures FindSucceeds(order, pressed) <==> exists j :: 0 <= j < |order| && Hotkeys.Matches(order[j], pressed)
    decreases |order|
  {
    if |order| > 0 {
      FindSucceedsExists(order[1..], pressed);
      if exists j :: 0 <= j < |order| && Hotkeys.Matches(order[j], pressed) {
        var j :| 0 <= j < |order| && Hotkeys.Matches(order[j], pressed);
        if j > 0 {
          assert order[1..][j - 1] == order[j];
        }
      }
    }
  }

  /** The `any` over the binding's scopes. */
  method AnyScopeActive(scopes: seq<string>, activeScopes: set<string>) returns (withinScope: bool)
    ensures withinScope == WithinScope(scopes, activeScopes)
  {
    withinScope := false;
    var i := 0;
    while i < |scopes| && !withinScope
      invariant 0 <= i <= |scopes|
      invariant withinScope <==> exists j :: 0 <= j < i && scopes[j] in activeScopes
    {
      withinScope := scopes[i] in activeScopes;
      i := i + 1;
    }
  }

  /** One test of `find`: it stops at a match, and goes on past a failure. */
  lemma FindStep(order: seq<Hotkey>, k: nat, pressed: map<string, KeyboardEvent>, prevented: seq<KeyboardEvent>, matched: bool)
    requires k < |order| && matched == Hotkeys.Matches(order[k], pressed)
    requires FindSucceeds(order[k..], pressed) == FindSucceeds(order, pressed)
    requires prevented + FindPrevented(order[k..], pressed) == FindPrevented(order, pressed)
    ensures matched ==> FindSucceeds(order, pressed) && prevented + Hotkeys.MatchPrevented(order[k], pressed) == FindPrevented(order, pressed)
    ensures !matched ==> FindSucceeds(order[k + 1..], pressed) == FindSucceeds(order, pressed)
    ensures !matched ==> (prevented + Hotkeys.MatchPrevented(order[k], pressed)) + FindPrevented(order[k + 1..], pressed) == FindPrevented(order, pressed)
  {
    if matched {
      FindStops(order, k, pressed);
    } else {
      FindPast(order, k, pressed);
      ConcatAssociates(prevented, Hotkeys.MatchPrevented(order[k], pressed), FindPrevented(order[k + 1..], pressed));
    }
  }

  /** The `find` over the alternatives, in iteration order, testing each with `is_hotkey_match`. */
  method FindMatch(order: seq<Hotkey>, pressed: map<string, KeyboardEvent>) returns (found: bool, prevented: seq<KeyboardEvent>)
    ensures found == FindSucceeds(order, pressed)
    ensures prevented == FindPrevented(order, pressed)
  {
    found, prevented := false, [];
    var k := 0;
    while k < |order| && !found
      invariant 0 <= k <= |order|
      invariant !found ==> FindSucceeds(order[k..], pressed) == FindSucceeds(order, pressed)
      invariant !found ==> prevented + FindPrevented(order[k..], pressed) == FindPrevented(order, pressed)
      invariant found ==> FindSucceeds(order, pressed) && prevented == FindPrevented(order, pressed)
    {
      var matched, p := Hotkeys.IsHotkeyMatch(order[k], pressed);
      FindStep(order, k, pressed, prevented, matched);
      prevented := prevented + p;
      found := matched;
      k := k + 1;
    }
    if !found {
      assert order[k..] == [];
    }
  }

  /** Some alternative in iteration order matches exactly when some alternative of the set does. */
  lemma OrderCoversAlternatives(order: seq<Hotkey>, parsed: set<Hotkey>, pressed: map<string, KeyboardEvent>)
    requires forall h :: h in order <==> h in parsed
    ensures (exists j :: 0 <= j < |order| && Hotkeys.Matches(order[j], pressed)) <==>
            (exists h :: h in parsed && Hotkeys.Matches(h, pressed))
  {
    if exists h :: h in parsed && Hotkeys.Matches(h, pressed) {
      var h :| h in parsed && Hotkeys.Matches(h, pressed);
      var j :| 0 <= j < |order| && order[j] == h;
    }
  }

  /**
   * One run of the effect of `use_hotkeys_scoped`. `order` is the iteration
   * order of the `HashSet` of alternatives, which the source leaves unspecified.
   */
  method Evaluate(b: Binding, order: seq<Hotkey>, activeScopes: set<string>, keysPressed: KeyPresses)
    returns (fired: bool, prevented: seq<KeyboardEvent>)
    requires forall h :: h in order <==> h in b.parsedKeys
    ensures fired == Fires(b, activeScopes, keysPressed)
    ensures prevented ==
      if WithinScope(b.scopes, activeScopes) && Hotkeys.IsLastKeyMatch(b.parsedKeys, keysPressed)
      then FindPrevented(order, keysPressed.keyMap) else []
  {
    fired, prevented := false, [];
    var withinScope := AnyScopeActive(b.scopes, activeScopes);
    if !withinScope {
      return;
    }
    if !Hotkeys.IsLastKeyMatch(b.parsedKeys, keysPressed) {
      return;
    }
    fired, prevented := FindMatch(order, keysPressed.keyMap);
    FindSucceedsExists(order, keysPressed.keyMap);
    OrderCoversAlternatives(order, b.parsedKeys, keysPressed.keyMap);
  }

  // ---------------------------------------------------------------------
  // What one evaluation does

  /** Identical alternatives collapse: `"a,a"` is the one alternative `"a"`. */
  lemma DuplicateAlternativesCollapse(a: string)
    requires ',' !in a
    ensures ParseAlternatives(a + [','] + a) == ParseAlternatives(a) == {Hotkeys.Parse(a)}
  {
    SplitAtSeparator(a, ',', a);
    SplitNoSeparator(a, ',');
  }

  /** A combination without a comma is one alternative. */
  lemma OneAlternative(combination: string)
    requires ',' !in combination
    ensures ParseAlternatives(combination) == {Hotkeys.Parse(combination)}
  {
    SplitNoSeparator(combination, ',');
  }

  /** A combination that is one key name is the one alternative holding that key. */
  lemma SingleKeyAlternatives(k: string)
    requires Hotkeys.IsKeyName(k) && ',' !in k
    ensures ParseAlternatives(k) == {Types.Hotkey(Types.Default(), [k])}
  {
    OneAlternative(k);
    Hotkeys.SingleKeyParse(k);
  }

  /** Every key of every alternative is a key name, never a modifier synonym. */
  lemma AlternativesHoldKeyNames(combination: string)
    ensures forall h :: h in ParseAlternatives(combination) ==> forall k :: k in h.keys ==> Hotkeys.IsKeyName(k)
  {
    forall h | h in ParseAlternatives(combination)
      ensures forall k :: k in h.keys ==> Hotkeys.IsKeyName(k)
    {
      var part :| part in Split(combination, ',') && h == Hotkeys.Parse(part);
      Hotkeys.ParsedKeysAreKeyNames(part);
    }
  }

  /**
   * When `find` stops at alternative `j`, it has prevented the events of the
   * alternatives before it and then the event of every key of `j`, in order.
   */
  lemma FindPreventsMatch(order: seq<Hotkey>, pressed: map<string, KeyboardEvent>, j: nat)
    requires j < |order| && NoneMatchUpTo(order, j, pressed) && Hotkeys.Matches(order[j], pressed)
    ensures FindPrevented(order, pressed) == PreventedUpTo(order, j + 1, pressed)
    ensures var p := Hotkeys.MatchPrevented(order[j], pressed);
      |p| == |order[j].keys| && forall i :: 0 <= i < |p| ==> p[i] == pressed[order[j].keys[i]]
  {
    FindPreventedSplit(order, j, pressed);
    Hotkeys.PreventedOnMatch(order[j], pressed);
  }

  /** Out of scope nothing happens: no callback and no `prevent_default`. */
  lemma OutOfScopeIsSilent(b: Binding, activeScopes: set<string>, keysPressed: KeyPresses)
    requires !WithinScope(b.scopes, activeScopes)
    ensures !Fires(b, activeScopes, keysPressed)
  {
  }

  /** A fully held chord does not fire when the last key pressed is none of its keys. */
  lemma LastKeyGateBlocksHeldChord(b: Binding, activeScopes: set<string>, keysPressed: KeyPresses, h: Hotkey)
    requires h in b.parsedKeys && Hotkeys.Matches(h, keysPressed.keyMap) && WithinScope(b.scopes, activeScopes)
    ensures Fires(b, activeScopes, keysPressed) <==> Hotkeys.IsLastKeyMatch(b.parsedKeys, keysPressed)
  {
  }

  /** Pressing a modifier last never fires a binding, however its chord is held. */
  lemma ModifierPressedLastNeverFires(combination: string, scopes: seq<string>, activeScopes: set<string>, keysPressed: KeyPresses)
    requires keysPressed.lastKey.Some?
    requires var k := keysPressed.lastKey.value;
      k in Hotkeys.CtrlSynonyms || k in Hotkeys.AltSynonyms || k in Hotkeys.MetaSynonyms || k in Hotkeys.ShiftSynonyms
    ensures !Fires(UseHotkeysScoped(combination, scopes), activeScopes, keysPressed)
  {
    AlternativesHoldKeyNames(combination);
    Hotkeys.ModifierLastClosesGate(ParseAlternatives(combination), keysPressed);
  }

  // ---------------------------------------------------------------------
  // Evaluations over a run of inputs

  /**
   * Which inputs make the effect run again: it reads the pressed keys tracked
   * and the scopes untracked, and blur resets the keys untracked, so only
   * keydown and keyup do.
   */
  predicate Notifies(input: Input) {
    input.KeyDown? || input.KeyUp?
  }

  predicate FiresIn(b: Binding, w: Context.World) {
    Fires(b, w.activeScopes, w.presses)
  }

  /** How many times the callback runs during `inputs`, from state `w`, not counting the first run. */
  function Calls(cfg: Context.Config, b: Binding, w: Context.World, inputs: seq<Input>): nat
    decreases |inputs|
  {
    if |inputs| == 0 then 0
    else
      var last := inputs[|inputs| - 1];
      Calls(cfg, b, w, inputs[..|inputs| - 1]) +
      (if Notifies(last) && FiresIn(b, Context.Steps(cfg, w, inputs)) then 1 else 0)
  }

  /** The first run, when the effect is created, and then one run per notifying input. */
  function Triggered(cfg: Context.Config, b: Binding, w: Context.World, inputs: seq<Input>): nat {
    (if FiresIn(b, w) then 1 else 0) + Calls(cfg, b, w, inputs)
  }

  /** Nothing fires on the first run from a fresh context: no key is held. */
  lemma FreshContextIsSilent(b: Binding, initiallyActiveScopes: set<string>)
    ensures !FiresIn(b, Context.Initial(initiallyActiveScopes))
  {
  }

  /** A scope change or a blur never runs the callback, even when it brings a held chord into scope. */
  lemma QuietInputsNeverFire(cfg: Context.Config, b: Binding, w: Context.World, inputs: seq<Input>, input: Input)
    requires !input.KeyDown? && !input.KeyUp?
    ensures Calls(cfg, b, w, inputs + [input]) == Calls(cfg, b, w, inputs)
  {
    assert (inputs + [input])[..|inputs|] == inputs;
  }

  /** The state after one more input. */
  lemma StepsSnoc(cfg: Context.Config, w: Context.World, inputs: seq<Input>, input: Input)
    ensures Context.Steps(cfg, w, inputs + [input]) == Context.Step(cfg, Context.Steps(cfg, w, inputs), input)
  {
    assert (inputs + [input])[..|inputs|] == inputs;
  }

  lemma CallsSnoc(cfg: Context.Config, b: Binding, w: Context.World, inputs: seq<Input>, input: Input)
    ensures Calls(cfg, b, w, inputs + [input]) ==
      Calls(cfg, b, w, inputs) +
      (if Notifies(input) && FiresIn(b, Context.Step(cfg, Context.Steps(cfg, w, inputs), input)) then 1 else 0)
  {
    assert (inputs + [input])[..|inputs|] == inputs;
    StepsSnoc(cfg, w, inputs, input);
  }

  /** One evaluation's contribution to the count: 1 when the input notifies and the binding fires after it. */
  function Count(b: Binding, input: Input, after: Context.World): nat {
    if Notifies(input) && FiresIn(b, after) then 1 else 0
  }

  lemma CallsOfTwo(cfg: Context.Config, b: Binding, w: Context.World, x: Input, y: Input)
    ensures var w1 := Context.Step(cfg, w, x);
      Calls(cfg, b, w, [x, y]) == Count(b, x, w1) + Count(b, y, Context.Step(cfg, w1, y))
  {
    assert [x] == [] + [x];
    CallsSnoc(cfg, b, w, [], x);
    assert [x, y] == [x] + [y];
    CallsSnoc(cfg, b, w, [x], y);
  }

  lemma CallsOfThree(cfg: Context.Config, b: Binding, w: Context.World, x: Input, y: Input, z: Input)
    ensures var w1 := Context.Step(cfg, w, x);
      var w2 := Context.Step(cfg, w1, y);
      Calls(cfg, b, w, [x, y, z]) == Count(b, x, w1) + Count(b, y, w2) + Count(b, z, Context.Step(cfg, w2, z))
  {
    CallsOfTwo(cfg, b, w, x, y);
    assert [x, y, z] == [x, y] + [z];
    CallsSnoc(cfg, b, w, [x, y], z);
    assert [x] == [] + [x];
    StepsSnoc(cfg, w, [], x);
    assert [x, y] == [x] + [y];
    StepsSnoc(cfg, w, [x], y);
  }

  /** Releasing the key pressed last closes the gate. */
  lemma KeyUpOfLastKeyIsSilent(cfg: Context.Config, b: Binding, w: Context.World, ev: KeyboardEvent)
    requires w.presses.lastKey == Some(Context.KeyId(ev, cfg.useKey))
    ensures !FiresIn(b, Context.Step(cfg, w, KeyUp(ev)))
  {
  }

  /** A binding whose only alternative is the single key `k`, with no modifier. */
  predicate SingleKeyBinding(b: Binding, k: string) {
    b.parsedKeys == {Types.Hotkey(Types.Default(), [k])}
  }

  /** Such a binding fires exactly when it is in scope, `k` was pressed last and is still held. */
  lemma SingleKeyFires(b: Binding, k: string, w: Context.World)
    requires SingleKeyBinding(b, k)
    ensures FiresIn(b, w) <==> WithinScope(b.scopes, w.activeScopes) && w.presses.lastKey == Some(k) && k in w.presses.keyMap
  {
    var h := Types.Hotkey(Types.Default(), [k]);
    assert Hotkeys.IncludesKey(h, k);
    Hotkeys.NoModifiersMatchKeys([k], w.presses.keyMap);
  }

  /** Pressing the key of a single-key binding in scope fires it. */
  lemma KeyDownFires(cfg: Context.Config, b: Binding, k: string, w: Context.World, ev: KeyboardEvent)
    requires SingleKeyBinding(b, k) && WithinScope(b.scopes, w.activeScopes)
    requires Context.KeyId(ev, cfg.useKey) == k
    ensures FiresIn(b, Context.Step(cfg, w, KeyDown(ev)))
  {
    SingleKeyFires(b, k, Context.Step(cfg, w, KeyDown(ev)));
  }

  /** With the key of a single-key binding held and pressed last, the keyup of any other key fires it. */
  lemma OtherKeyUpFires(cfg: Context.Config, b: Binding, k: string, w: Context.World, other: KeyboardEvent)
    requires SingleKeyBinding(b, k) && WithinScope(b.scopes, w.activeScopes)
    requires w.presses.lastKey == Some(k) && k in w.presses.keyMap
    requires Context.KeyId(other, cfg.useKey) != k
    ensures FiresIn(b, Context.Step(cfg, w, KeyUp(other)))
  {
    SingleKeyFires(b, k, Context.Step(cfg, w, KeyUp(other)));
  }

  /**
   * A single-key binding pressed, released and pressed again fires twice,
   * once per press.
   */
  lemma PressReleasePress(cfg: Context.Config, b: Binding, k: string, initiallyActiveScopes: set<string>, ev: KeyboardEvent)
    requires SingleKeyBinding(b, k) && WithinScope(b.scopes, initiallyActiveScopes)
    requires Context.KeyId(ev, cfg.useKey) == k
    ensures Triggered(cfg, b, Context.Initial(initiallyActiveScopes), [KeyDown(ev), KeyUp(ev), KeyDown(ev)]) == 2
  {
    var w0 := Context.Initial(initiallyActiveScopes);
    var w1 := Context.Step(cfg, w0, KeyDown(ev));
    var w2 := Context.Step(cfg, w1, KeyUp(ev));
    var w3 := Context.Step(cfg, w2, KeyDown(ev));
    CallsOfThree(cfg, b, w0, KeyDown(ev), KeyUp(ev), KeyDown(ev));
    assert Count(b, KeyDown(ev), w1) == 1 by {
      KeyDownFires(cfg, b, k, w0, ev);
    }
    assert Count(b, KeyUp(ev), w2) == 0 by {
      KeyUpOfLastKeyIsSilent(cfg, b, w1, ev);
    }
    assert Count(b, KeyDown(ev), w3) == 1 by {
      KeyDownFires(cfg, b, k, w2, ev);
    }
  }

  /**
   * A key held down sends repeated keydown events, and each one runs the
   * effect with the same last key, so the binding fires once per repeat.
   */
  lemma AutoRepeatRefires(cfg: Context.Config, b: Binding, k: string, initiallyActiveScopes: set<string>, ev: KeyboardEvent, repeat: KeyboardEvent)
    requires SingleKeyBinding(b, k) && WithinScope(b.scopes, initiallyActiveScopes)
    requires Context.KeyId(ev, cfg.useKey) == k && Context.KeyId(repeat, cfg.useKey) == k
    ensures Triggered(cfg, b, Context.Initial(initiallyActiveScopes), [KeyDown(ev), KeyDown(repeat)]) == 2
  {
    var w0 := Context.Initial(initiallyActiveScopes);
    var w1 := Context.Step(cfg, w0, KeyDown(ev));
    var w2 := Context.Step(cfg, w1, KeyDown(repeat));
    CallsOfTwo(cfg, b, w0, KeyDown(ev), KeyDown(repeat));
    assert Count(b, KeyDown(ev), w1) == 1 by {
      KeyDownFires(cfg, b, k, w0, ev);
    }
    assert Count(b, KeyDown(repeat), w2) == 1 by {
      KeyDownFires(cfg, b, k, w1, repeat);
    }
  }

  /**
   * Releasing another key while the binding's key is still held and was
   * pressed last runs the effect with the gate open, so the binding fires
   * again on that release.
   */
  lemma OtherKeyReleaseRefires(cfg: Context.Config, b: Binding, k: string, initiallyActiveScopes: set<string>, other: KeyboardEvent, ev: KeyboardEvent)
    requires SingleKeyBinding(b, k) && WithinScope(b.scopes, initiallyActiveScopes)
    requires Context.KeyId(ev, cfg.useKey) == k && Context.KeyId(other, cfg.useKey) != k
    ensures Triggered(cfg, b, Context.Initial(initiallyActiveScopes), [KeyDown(other), KeyDown(ev), KeyUp(other)]) == 2
  {
    var w0 := Context.Initial(initiallyActiveScopes);
    var w1 := Context.Step(cfg, w0, KeyDown(other));
    var w2 := Context.Step(cfg, w1, KeyDown(ev));
    var w3 := Context.Step(cfg, w2, KeyUp(other));
    CallsOfThree(cfg, b, w0, KeyDown(other), KeyDown(ev), KeyUp(other));
    assert Count(b, KeyDown(other), w1) == 0 by {
      SingleKeyFires(b, k, w1);
    }
    assert Count(b, KeyDown(ev), w2) == 1 by {
      KeyDownFires(cfg, b, k, w1, ev);
    }
    assert Count(b, KeyUp(other), w3) == 1 by {
      OtherKeyUpFires(cfg, b, k, w2, other);
    }
  }

  /** A run over which the binding never fires after any input fires it zero times. */
  lemma {:induction false} NeverFiresNoCalls(cfg: Context.Config, b: Binding, w: Context.World, inputs: seq<Input>)
    requires forall n :: 0 < n <= |inputs| ==> !FiresIn(b, Context.Steps(cfg, w, inputs[..n]))
    ensures Calls(cfg, b, w, inputs) == 0
    decreases |inputs|
  {
    if |inputs| > 0 {
      var before := inputs[..|inputs| - 1];
      forall n | 0 < n <= |before|
        ensures !FiresIn(b, Context.Steps(cfg, w, before[..n]))
      {
        assert before[..n] == inputs[..n];
      }
      NeverFiresNoCalls(cfg, b, w, before);
      assert inputs[..|inputs|] == inputs;
    }
  }

  /** In code mode no keydown whose code is not `spacebar` ever holds the id `spacebar`. */
  lemma {:induction false} SpacebarNeverHeldByCode(cfg: Context.Config, w: Context.World, inputs: seq<Input>)
    requires !cfg.useKey && Hotkeys.Spacebar !in w.presses.keyMap
    requires forall i :: 0 <= i < |inputs| && inputs[i].KeyDown? ==> Lower(inputs[i].ev.code) != Hotkeys.Spacebar
    ensures Hotkeys.Spacebar !in Context.Steps(cfg, w, inputs).presses.keyMap
    decreases |inputs|
  {
    if |inputs| > 0 {
      SpacebarNeverHeldByCode(cfg, w, inputs[..|inputs| - 1]);
    }
  }

  /** Each spelling of the space bar is the one alternative holding `spacebar`. */
  lemma SpaceAlternatives(combination: string)
    requires combination in Hotkeys.SpaceNames
    ensures ParseAlternatives(combination) == {Types.Hotkey(Types.Default(), [Hotkeys.Spacebar])}
  {
    assert ',' !in combination by {
      if combination == " " {
      } else if combination == "space" {
      } else {
        assert combination == "spacebar";
      }
    }
    OneAlternative(combination);
    Hotkeys.SpaceIsSpacebar(combination);
  }

  /**
   * The spellings `" "`, `space` and `spacebar` all bind the key `spacebar`,
   * but in code mode the space bar is held as `space` (its code lowercased):
   * such a binding never fires, whatever the inputs, when no keydown's code
   * lowercases to `spacebar`.
   */
  lemma SpaceBindingNeverFiresByCode(cfg: Context.Config, combination: string, scopes: seq<string>, initiallyActiveScopes: set<string>, inputs: seq<Input>)
    requires combination in Hotkeys.SpaceNames && !cfg.useKey
    requires forall i :: 0 <= i < |inputs| && inputs[i].KeyDown? ==> Lower(inputs[i].ev.code) != Hotkeys.Spacebar
    ensures Triggered(cfg, UseHotkeysScoped(combination, scopes), Context.Initial(initiallyActiveScopes), inputs) == 0
  {
    var b := UseHotkeysScoped(combination, scopes);
    var w0 := Context.Initial(initiallyActiveScopes);
    SpaceAlternatives(combination);
    SingleKeyFires(b, Hotkeys.Spacebar, w0);
    forall n | 0 < n <= |inputs|
      ensures !FiresIn(b, Context.Steps(cfg, w0, inputs[..n]))
    {
      SpacebarNeverHeldByCode(cfg, w0, inputs[..n]);
      SingleKeyFires(b, Hotkeys.Spacebar, Context.Steps(cfg, w0, inputs[..n]));
    }
    NeverFiresNoCalls(cfg, b, w0, inputs);
  }

  /** Under `use_key` the space bar is held as `spacebar`, so the same binding fires on its keydown. */
  lemma SpaceBindingFiresByKey(cfg: Context.Config, combination: string, scopes: seq<string>, w: Context.World, ev: KeyboardEvent)
    requires combination in Hotkeys.SpaceNames && cfg.useKey && ev.key == " "
    requires WithinScope(scopes, w.activeScopes)
    ensures FiresIn(UseHotkeysScoped(combination, scopes), Context.Step(cfg, w, KeyDown(ev)))
  {
    var b := UseHotkeysScoped(combination, scopes);
    SpaceAlternatives(combination);
    KeyDownFires(cfg, b, Hotkeys.Spacebar, w, ev);
  }

  lemma EscapeAlternatives()
    ensures ParseAlternatives("escape") == {Types.Hotkey(Types.Default(), ["escape"])}
  {
    assert Hotkeys.IsKeyName("escape") by {
      assert !Hotkeys.IsReserved("escape");
    }
    assert ',' !in "escape";
    SingleKeyAlternatives("escape");
  }

  lemma EscapeKeyId(cfg: Context.Config, ev: KeyboardEvent)
    requires ev.key == "Escape" && ev.code == "Escape"
    ensures Context.KeyId(ev, cfg.useKey) == "escape"
  {
    assert Lower("Escape") == "escape";
  }

  /**
   * `"escape"` bound in the wildcard scope: keydown, keyup and keydown of
   * the Escape key run the callback twice.
   */
  lemma EscapeScenario(cfg: Context.Config, ev: KeyboardEvent)
    requires ev.key == "Escape" && ev.code == "Escape"
    ensures Triggered(cfg, UseHotkeysScoped("escape", ["*"]), Context.Initial({"*"}),
                      [KeyDown(ev), KeyUp(ev), KeyDown(ev)]) == 2
  {
    var b := UseHotkeysScoped("escape", ["*"]);
    EscapeAlternatives();
    EscapeKeyId(cfg, ev);
    assert WithinScope(b.scopes, {"*"}) by {
      assert b.scopes[0] in {"*"};
    }
    PressReleasePress(cfg, b, "escape", {"*"}, ev);
  }

  // ---------------------------------------------------------------------
  // The element-scoped variant, `use_hotkeys_ref`

  /** A DOM element, by identity. */
  type Element = nat

  /**
   * `use_hotkeys_ref(node_ref, key_combination, on_triggered, scopes)`: the
   * binding, and the shared cell that holds the element's keyup handler once
   * it is attached.
   */
  class HotkeyRef {
    const binding: Binding
    var handler: Option<Element>

    constructor (combination: string, scopes: seq<string>)
      ensures binding == UseHotkeysScoped(combination, scopes) && handler == None
    {
      binding := UseHotkeysScoped(combination, scopes);
      handler := None;
    }

    /**
     * One run of the effect, given what `node_ref.get()` yields: nothing
     * happens until there is an element, and the handler is attached at most
     * once, to the first element seen.
     */
    method RunEffect(node: Option<Element>)
      modifies this
      ensures handler == if old(handler).None? then node else old(handler)
    {
      if node.Some? {
        if handler.None? {
          handler := node;
        }
      }
    }

    /**
     * A keyup inside the element. The element's handler runs first, on the
     * pressed keys as they stand with the released key still held; then the
     * event reaches the document's keyup listener of the context.
     */
    method DeliverKeyUp(ctx: Context.HotkeysContext, order: seq<Hotkey>, ev: KeyboardEvent)
      returns (fired: bool, prevented: seq<KeyboardEvent>)
      requires ctx.Valid()
      requires forall h :: h in order <==> h in binding.parsedKeys
      modifies ctx
      ensures ctx.Valid() && ctx.State() == Context.Step(ctx.Cfg(), old(ctx.State()), KeyUp(ev))
      ensures fired == (handler.Some? && FiresIn(binding, old(ctx.State())))
      ensures prevented ==
        if handler.Some? && WithinScope(binding.scopes, old(ctx.activeScopes)) &&
           Hotkeys.IsLastKeyMatch(binding.parsedKeys, old(ctx.State()).presses)
        then FindPrevented(order, old(ctx.keyMap)) else []
    {
      fired, prevented := false, [];
      if handler.Some? {
        fired, prevented := Evaluate(binding, order, ctx.activeScopes, KeyPresses(ctx.keyMap, ctx.lastKey));
      }
      ctx.OnKeyUp(ev);
    }
  }

  /**
   * The element variant fires on release: with the handler attached, the
   * keyup of a single-key binding's key, pressed in scope, fires it, where
   * the global variant stays silent on that keyup.
   */
  lemma RefFiresOnRelease(cfg: Context.Config, b: Binding, k: string, w: Context.World, ev: KeyboardEvent)
    requires SingleKeyBinding(b, k) && WithinScope(b.scopes, w.activeScopes)
    requires Context.KeyId(ev, cfg.useKey) == k
    ensures var held := Context.Step(cfg, w, KeyDown(ev));
      FiresIn(b, held) && !FiresIn(b, Context.Step(cfg, held, KeyUp(ev)))
  {
    var held := Context.Step(cfg, w, KeyDown(ev));
    KeyDownFires(cfg, b, k, w, ev);
    KeyUpOfLastKeyIsSilent(cfg, b, held, ev);
  }
}
