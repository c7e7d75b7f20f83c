/**
 * The dispatch of src/use_hotkeys.rs, the older crate's hook: its own
 * parser (`parse_key`), which knows only four modifier words, its own chord
 * test, with one pressed id per modifier, and an effect with a scope gate
 * but no last-key gate. The pressed keys are those of the older provider
 * (`Provider.World`), held under their lowercased `key`.
 */
module LegacyDispatch {
  import opened Wrappers
  import opened Text
  import opened KeyState
  import Types
  import Hotkeys
  import Provider
  import Dispatch

  type Hotkey = Types.Hotkey

  // ---------------------------------------------------------------------
  // Parsing (`parse_key`)

  /** The four modifier words; `control`, `cmd`, `option` and the rest are plain keys here. */
  const ModifierWords: set<string> := {"ctrl", "alt", "meta", "shift"}

  /** The `match` on the lowercased, trimmed part. */
  function Classify(part: string): Types.Token {
    var lower := Lower(part);
    if lower == "ctrl" then Types.Modifier(Types.Ctrl)
    else if lower == "alt" then Types.Modifier(Types.Alt)
    else if lower == "meta" then Types.Modifier(Types.Meta)
    else if lower == "shift" then Types.Modifier(Types.Shift)
    else Types.Key(lower)
  }

  /** Split on `+`, trim every part, classify. */
  function Tokens(combination: string): seq<Types.Token> {
    var parts := Split(combination, '+');
    seq(|parts|, i requires 0 <= i < |parts| => Classify(Trim(parts[i])))
  }

  function Parse(combination: string): Hotkey {
    Types.Assemble(Tokens(combination))
  }

  /** `parse_key`: the loop over the trimmed parts. */
  method ParseKey(combination: string) returns (h: Hotkey)
    ensures h == Parse(combination)
  {
    var parts := Split(combination, '+');
    ghost var tokens := Tokens(combination);
    var modifiers := Types.Default();
    var keys: seq<string> := [];
    for i := 0 to |parts|
      invariant modifiers == Types.ModifiersOf(tokens[..i])
      invariant keys == Types.KeysOf(tokens[..i])
    {
      var lower := Lower(Trim(parts[i]));
      assert tokens[i] == Classify(Trim(parts[i]));
      if lower == "ctrl" {
        modifiers := modifiers.(ctrl := true);
      } else if lower == "alt" {
        modifiers := modifiers.(alt := true);
      } else if lower == "meta" {
        modifiers := modifiers.(meta := true);
      } else if lower == "shift" {
        modifiers := modifiers.(shift := true);
      } else {
        keys := keys + [Lower(lower)];
        LowerIdempotent(Trim(parts[i]));
      }
      Types.AssembleStep(tokens[..i], tokens[i]);
      assert tokens[..i + 1] == tokens[..i] + [tokens[i]];
    }
    assert tokens[..|parts|] == tokens;
    h := Types.Hotkey(modifiers, keys);
  }

  /** The word that sets each flag. */
  function ModifierWord(f: Types.Flag): string {
    match f
    case Ctrl => "ctrl"
    case Alt => "alt"
    case Meta => "meta"
    case Shift => "shift"
  }

  /** A part that gives a key gives a lowercase, trimmed word free of `+` that is no modifier word. */
  lemma PartKey(part: string, k: string)
    requires '+' !in part
    requires Classify(Trim(part)) == Types.Key(k)
    ensures IsLower(k) && IsTrimmed(k) && '+' !in k && k !in ModifierWords
  {
    var x := Trim(part);
    assert k == Lower(x);
    TrimIsTrimmed(part);
    TrimKeepsOut(part, '+');
    LowerTrimmed(x);
    LowerKeepsOut(x, '+');
    LowerIsLower(x);
  }

  /** Every key of a parsed Hotkey is a lowercase, trimmed word that is no modifier word. */
  lemma ParsedKeysAreWords(combination: string)
    ensures forall k :: k in Parse(combination).keys ==> IsLower(k) && IsTrimmed(k) && '+' !in k && k !in ModifierWords
  {
    var parts := Split(combination, '+');
    var tokens := Tokens(combination);
    SplitPiecesFree(combination, '+');
    forall k | k in Parse(combination).keys
      ensures IsLower(k) && IsTrimmed(k) && '+' !in k && k !in ModifierWords
    {
      Types.KeysOfMembers(tokens, k);
      var i :| 0 <= i < |tokens| && tokens[i] == Types.Key(k);
      PartKey(parts[i], k);
    }
  }

  /** The flag of a part, as the tokens record it. */
  lemma TokenFlag(combination: string, i: nat, f: Types.Flag)
    requires i < |Split(combination, '+')|
    ensures Tokens(combination)[i] == Types.Modifier(f) <==> Lower(Trim(Split(combination, '+')[i])) == ModifierWord(f)
  {
  }

  /** A flag is set exactly when some part, trimmed and lowercased, is its word. */
  lemma ParseFlags(combination: string, f: Types.Flag)
    ensures Types.IsSet(Parse(combination).modifiers, f) <==>
      exists part :: part in Split(combination, '+') && Lower(Trim(part)) == ModifierWord(f)
  {
    var parts := Split(combination, '+');
    var tokens := Tokens(combination);
    assert Types.IsSet(Parse(combination).modifiers, f) <==> Types.Modifier(f) in tokens;
    if Types.Modifier(f) in tokens {
      var i :| 0 <= i < |tokens| && tokens[i] == Types.Modifier(f);
      TokenFlag(combination, i, f);
      assert parts[i] in parts;
    }
    if exists part :: part in parts && Lower(Trim(part)) == ModifierWord(f) {
      var part :| part in parts && Lower(Trim(part)) == ModifierWord(f);
      var i :| 0 <= i < |parts| && parts[i] == part;
      TokenFlag(combination, i, f);
      assert tokens[i] in tokens;
    }
  }

  /** Parsing parts joined by `+` whose classifications are known. */
  lemma JoinedParts(parts: seq<string>, tokens: seq<Types.Token>)
    requires |parts| >= 1 && |tokens| == |parts|
    requires forall i :: 0 <= i < |parts| ==> '+' !in parts[i]
    requires forall i :: 0 <= i < |parts| ==> Classify(Trim(parts[i])) == tokens[i]
    ensures Parse(Join(parts, '+')) == Types.Assemble(tokens)
  {
    SplitJoin(parts, '+');
    assert seq(|parts|, i requires 0 <= i < |parts| => Classify(Trim(parts[i]))) == tokens;
  }

  /** A lowercase part free of whitespace at its ends that is no modifier word is a key. */
  lemma WordClassify(w: string)
    requires IsLower(w) && IsTrimmed(w) && w !in ModifierWords
    ensures Classify(Trim(w)) == Types.Key(w)
  {
    TrimOfTrimmed(w);
    LowerOfLower(w);
  }

  /** A modifier word classifies as its flag. */
  lemma ModifierWordClassify(f: Types.Flag)
    ensures Classify(Trim(ModifierWord(f))) == Types.Modifier(f)
  {
    var w := ModifierWord(f);
    TrimOfTrimmed(w);
    LowerOfLower(w);
  }

  /** `control+k` is two plain keys to this parser: `control` is not one of its modifier words. */
  lemma ExampleControlK()
    ensures Parse("control+k") == Types.Hotkey(Types.Default(), ["control", "k"])
  {
    WordClassify("control");
    WordClassify("k");
    assert Join(["control", "k"], '+') == "control+k";
    JoinedParts(["control", "k"], [Types.Key("control"), Types.Key("k")]);
    ControlKAssemble();
  }

  lemma ControlKAssemble()
    ensures Types.Assemble([Types.Key("control"), Types.Key("k")]) == Types.Hotkey(Types.Default(), ["control", "k"])
  {
    Types.KeysOfCons(Types.Key("control"), [Types.Key("k")]);
    Types.KeysOfCons(Types.Key("k"), []);
    assert [Types.Key("k")] + [] == [Types.Key("k")];
    assert [Types.Key("control")] + [Types.Key("k")] == [Types.Key("control"), Types.Key("k")];
  }

  lemma CtrlKAssemble()
    ensures Types.Assemble([Types.Modifier(Types.Ctrl), Types.Key("k")]) ==
            Types.Hotkey(Types.KeyboardModifiers(false, true, false, false), ["k"])
  {
    Types.KeysOfCons(Types.Modifier(Types.Ctrl), [Types.Key("k")]);
    Types.KeysOfCons(Types.Key("k"), []);
    assert [Types.Key("k")] + [] == [Types.Key("k")];
    assert [Types.Modifier(Types.Ctrl)] + [Types.Key("k")] == [Types.Modifier(Types.Ctrl), Types.Key("k")];
  }

  /** `ctrl+k` is the ctrl flag and the key `k`. */
  lemma ExampleCtrlK()
    ensures Parse("ctrl+k") == Types.Hotkey(Types.KeyboardModifiers(false, true, false, false), ["k"])
  {
    ModifierWordClassify(Types.Ctrl);
    WordClassify("k");
    assert Join(["ctrl", "k"], '+') == "ctrl+k";
    JoinedParts(["ctrl", "k"], [Types.Modifier(Types.Ctrl), Types.Key("k")]);
    CtrlKAssemble();
  }

  /** `split(',').map(parse_key).collect()` into a `HashSet`. */
  function ParseAlternatives(combination: string): (parsed: set<Hotkey>)
    ensures forall part :: part in Split(combination, ',') ==> Parse(part) in parsed
    ensures forall h :: h in parsed ==> exists part :: part in Split(combination, ',') && h == Parse(part)
  {
    set part | part in Split(combination, ',') :: Parse(part)
  }

  /** `use_hotkeys_scoped(key_combination, on_triggered, scopes)`, apart from the callback. */
  function UseHotkeysScoped(combination: string, scopes: seq<string>): Dispatch.Binding {
    Dispatch.Binding(ParseAlternatives(combination), scopes)
  }

  // ---------------------------------------------------------------------
  // The chord test (`is_hotkey_match`)

  /** The one pressed id each flag looks for: the lowercased `key` of that modifier. */
  function MatchName(f: Types.Flag): string {
    match f
    case Ctrl => "control"
    case Shift => "shift"
    case Meta => "meta"
    case Alt => "alt"
  }

  predicate ModifiersMatch(m: Types.KeyboardModifiers, pressed: map<string, KeyboardEvent>) {
    forall f: Types.Flag :: Types.IsSet(m, f) ==> MatchName(f) in pressed
  }

  predicate Matches(h: Hotkey, pressed: map<string, KeyboardEvent>) {
    ModifiersMatch(h.modifiers, pressed) && Hotkeys.KeysHeld(h.keys, pressed)
  }

  /**
   * The events `prevent_default` is called on: none when the modifiers do not
   * match, otherwise those of the keys `all` visits and finds held.
   */
  function MatchPrevented(h: Hotkey, pressed: map<string, KeyboardEvent>): seq<KeyboardEvent> {
    if ModifiersMatch(h.modifiers, pressed) then Hotkeys.EventsOf(h.keys, pressed, Hotkeys.HeldPrefix(h.keys, pressed)) else []
  }

  /** The four flag tests folded with `&=`, then the `all` over the keys. */
  method IsHotkeyMatch(h: Hotkey, pressed: map<string, KeyboardEvent>) returns (matched: bool, prevented: seq<KeyboardEvent>)
    ensures matched == Matches(h, pressed)
    ensures prevented == MatchPrevented(h, pressed)
  {
    var modifiersMatch := true;
    if h.modifiers.ctrl {
      modifiersMatch := modifiersMatch && "control" in pressed;
    }
    if h.modifiers.shift {
      modifiersMatch := modifiersMatch && "shift" in pressed;
    }
    if h.modifiers.meta {
      modifiersMatch := modifiersMatch && "meta" in pressed;
    }
    if h.modifiers.alt {
      modifiersMatch := modifiersMatch && "alt" in pressed;
    }
    assert modifiersMatch == ModifiersMatch(h.modifiers, pressed) by {
      assert Types.IsSet(h.modifiers, Types.Ctrl) == h.modifiers.ctrl;
      assert Types.IsSet(h.modifiers, Types.Shift) == h.modifiers.shift;
      assert Types.IsSet(h.modifiers, Types.Meta) == h.modifiers.meta;
      assert Types.IsSet(h.modifiers, Types.Alt) == h.modifiers.alt;
    }
    prevented := [];
    if modifiersMatch {
      var keysMatch := true;
      var i := 0;
      while i < |h.keys| && keysMatch
        invariant 0 <= i <= |h.keys|
        invariant keysMatch ==> i <= Hotkeys.HeldPrefix(h.keys, pressed) && prevented == Hotkeys.EventsOf(h.keys, pressed, i)
        invariant !keysMatch ==> 0 < i && Hotkeys.HeldPrefix(h.keys, pressed) == i - 1 &&
                                 prevented == Hotkeys.EventsOf(h.keys, pressed, i - 1)
      {
        var key := h.keys[i];
        if key in pressed {
          prevented := prevented + [pressed[key]];
        } else {
          keysMatch := false;
        }
        i := i + 1;
      }
      Hotkeys.HeldPrefixFull(h.keys, pressed);
      matched := keysMatch;
    } else {
      matched := false;
    }
  }

  /** Holding more keys never breaks a match. */
  lemma MatchIgnoresExtraKeys(h: Hotkey, pressed: map<string, KeyboardEvent>, more: map<string, KeyboardEvent>)
    requires pressed.Keys <= more.Keys
    requires Matches(h, pressed)
    ensures Matches(h, more)
  {
  }

  /** With nothing held, only an alternative without modifiers and keys matches. */
  lemma NothingHeldMatchesOnlyEmpty(h: Hotkey)
    ensures Matches(h, map[]) <==> h.modifiers == Types.Default() && h.keys == []
  {
    var none: map<string, KeyboardEvent> := map[];
    if h.keys != [] {
      assert !Hotkeys.KeysHeld(h.keys, none) by {
        assert h.keys[0] !in none;
      }
    }
    if h.modifiers != Types.Default() {
      var f: Types.Flag :| Types.IsSet(h.modifiers, f) by {
        if h.modifiers.ctrl {
          assert Types.IsSet(h.modifiers, Types.Ctrl);
        } else if h.modifiers.alt {
          assert Types.IsSet(h.modifiers, Types.Alt);
        } else if h.modifiers.meta {
          assert Types.IsSet(h.modifiers, Types.Meta);
        } else {
          assert Types.IsSet(h.modifiers, Types.Shift);
        }
      }
      assert MatchName(f) !in none;
    }
  }

  /** The chord `ctrl` with `k` needs `control` and `k` held. */
  lemma CtrlKChordMatches(pressed: map<string, KeyboardEvent>)
    ensures Matches(Types.Hotkey(Types.KeyboardModifiers(false, true, false, false), ["k"]), pressed) <==>
            "control" in pressed && "k" in pressed
  {
    var m := Types.KeyboardModifiers(false, true, false, false);
    assert ModifiersMatch(m, pressed) <==> "control" in pressed by {
      assert Types.IsSet(m, Types.Ctrl);
      assert forall f: Types.Flag :: Types.IsSet(m, f) ==> f == Types.Ctrl;
    }
    assert Hotkeys.KeysHeld(["k"], pressed) <==> "k" in pressed by {
      assert ["k"][0] == "k";
    }
  }

  /** The plain keys `control` and `k` need `control` and `k` held. */
  lemma ControlKChordMatches(pressed: map<string, KeyboardEvent>)
    ensures Matches(Types.Hotkey(Types.Default(), ["control", "k"]), pressed) <==> "control" in pressed && "k" in pressed
  {
    assert Hotkeys.KeysHeld(["control", "k"], pressed) <==> "control" in pressed && "k" in pressed by {
      assert ["control", "k"][0] == "control" && ["control", "k"][1] == "k";
    }
  }

  /**
   * `control+k` matches on the same keys as `ctrl+k`, `control` and `k`:
   * the plain key `control` is held under the same id the ctrl flag looks for.
   */
  lemma ControlSpellingsAgree(pressed: map<string, KeyboardEvent>)
    ensures Matches(Parse("ctrl+k"), pressed) <==> "control" in pressed && "k" in pressed
    ensures Matches(Parse("control+k"), pressed) <==> "control" in pressed && "k" in pressed
  {
    ExampleCtrlK();
    ExampleControlK();
    CtrlKChordMatches(pressed);
    ControlKChordMatches(pressed);
  }

  // ---------------------------------------------------------------------
  // One run of the effect

  /** Whether a run calls the callback: the scope gate passes and some alternative matches. */
  predicate Fires(b: Dispatch.Binding, activeScopes: set<string>, pressed: map<string, KeyboardEvent>) {
    Dispatch.WithinScope(b.scopes, activeScopes) && exists h :: h in b.parsedKeys && Matches(h, pressed)
  }

  /**
   * The events `any` hands to `prevent_default`: those of each alternative it
   * tests, in order, up to and including the first that matches.
   */
  function AnyPrevented(order: seq<Hotkey>, pressed: map<string, KeyboardEvent>): seq<KeyboardEvent>
    decreases |order|
  {
    if |order| == 0 then []
    else MatchPrevented(order[0], pressed) + (if Matches(order[0], pressed) then [] else AnyPrevented(order[1..], pressed))
  }

  /** Whether `any` succeeds on the alternatives in this order. */
  predicate AnyMatchIn(order: seq<Hotkey>, pressed: map<string, KeyboardEvent>)
    decreases |order|
  {
    |order| > 0 && (Matches(order[0], pressed) || AnyMatchIn(order[1..], pressed))
  }

  /** `any` succeeds exactly when some alternative matches. */
  lemma {:induction false} AnyMatchInExists(order: seq<Hotkey>, pressed: map<string, KeyboardEvent>)
    ensures AnyMatchIn(order, pressed) <==> exists j :: 0 <= j < |order| && Matches(order[j], pressed)
    decreases |order|
  {
    if |order| > 0 {
      AnyMatchInExists(order[1..], pressed);
      if exists j :: 0 <= j < |order| && Matches(order[j], pressed) {
        var j :| 0 <= j < |order| && Matches(order[j], pressed);
        if j > 0 {
          assert order[1..][j - 1] == order[j];
        }
      }
    }
  }

  /** Past a failing alternative, `any` goes on with the rest. */
  lemma AnyPast(order: seq<Hotkey>, k: nat, pressed: map<string, KeyboardEvent>)
    requires k < |order| && !Matches(order[k], pressed)
    ensures AnyPrevented(order[k..], pressed) == MatchPrevented(order[k], pressed) + AnyPrevented(order[k + 1..], pressed)
    ensures AnyMatchIn(order[k..], pressed) == AnyMatchIn(order[k + 1..], pressed)
  {
    assert order[k..][1..] == order[k + 1..];
  }

  /** At a matching alternative, `any` stops. */
  lemma AnyStops(order: seq<Hotkey>, k: nat, pressed: map<string, KeyboardEvent>)
    requires k < |order| && Matches(order[k], pressed)
    ensures AnyPrevented(order[k..], pressed) == MatchPrevented(order[k], pressed)
    ensures AnyMatchIn(order[k..], pressed)
  {
    assert order[k..][0] == order[k];
  }

  /** One test of `any`: it stops at a match, and goes on past a failure. */
  lemma AnyStep(order: seq<Hotkey>, k: nat, pressed: map<string, KeyboardEvent>, prevented: seq<KeyboardEvent>, matched: bool)
    requires k < |order| && matched == Matches(order[k], pressed)
    requires AnyMatchIn(order[k..], pressed) == AnyMatchIn(order, pressed)
    requires prevented + AnyPrevented(order[k..], pressed) == AnyPrevented(order, pressed)
    ensures matched ==> AnyMatchIn(order, pressed) && prevented + MatchPrevented(order[k], pressed) == AnyPrevented(order, pressed)
    ensures !matched ==> AnyMatchIn(order[k + 1..], pressed) == AnyMatchIn(order, pressed)
    ensures !matched ==> (prevented + MatchPrevented(order[k], pressed)) + AnyPrevented(order[k + 1..], pressed) == AnyPrevented(order, pressed)
  {
    if matched {
      AnyStops(order, k, pressed);
    } else {
      AnyPast(order, k, pressed);
      ConcatAssociates(prevented, MatchPrevented(order[k], pressed), AnyPrevented(order[k + 1..], pressed));
    }
  }

  /** The `any` over the alternatives, in iteration order, testing each with `is_hotkey_match`. */
  method AnyMatch(order: seq<Hotkey>, pressed: map<string, KeyboardEvent>) returns (found: bool, prevented: seq<KeyboardEvent>)
    ensures found == AnyMatchIn(order, pressed)
    ensures prevented == AnyPrevented(order, pressed)
  {
    found, prevented := false, [];
    var k := 0;
    while k < |order| && !found
      invariant 0 <= k <= |order|
      invariant !found ==> AnyMatchIn(order[k..], pressed) == AnyMatchIn(order, pressed)
      invariant !found ==> prevented + AnyPrevented(order[k..], pressed) == AnyPrevented(order, pressed)
      invariant found ==> AnyMatchIn(order, pressed) && prevented == AnyPrevented(order, pressed)
    {
      var matched, p := IsHotkeyMatch(order[k], pressed);
      AnyStep(order, k, pressed, prevented, matched);
      prevented := prevented + p;
      found := matched;
      k := k + 1;
    }
    if !found {
      assert order[k..] == [];
    }
  }

  /**
   * One run of the effect of `use_hotkeys_scoped`. `order` is the iteration
   * order of the `HashSet` of alternatives, which the source leaves unspecified.
   */
  method Evaluate(b: Dispatch.Binding, order: seq<Hotkey>, activeScopes: set<string>, pressed: map<string, KeyboardEvent>)
    returns (fired: bool, prevented: seq<KeyboardEvent>)
    requires forall h :: h in order <==> h in b.parsedKeys
    ensures fired == Fires(b, activeScopes, pressed)
    ensures prevented == if Dispatch.WithinScope(b.scopes, activeScopes) then AnyPrevented(order, pressed) else []
  {
    fired, prevented := false, [];
    var withinScope := Dispatch.AnyScopeActive(b.scopes, activeScopes);
    if withinScope {
      fired, prevented := AnyMatch(order, pressed);
      AnyMatchInExists(order, pressed);
      if fired {
        var j :| 0 <= j < |order| && Matches(order[j], pressed);
        assert order[j] in b.parsedKeys;
      }
    }
  }

  /** Out of scope nothing happens: no callback and no `prevent_default`. */
  lemma OutOfScopeIsSilent(b: Dispatch.Binding, activeScopes: set<string>, pressed: map<string, KeyboardEvent>)
    requires !Dispatch.WithinScope(b.scopes, activeScopes)
    ensures !Fires(b, activeScopes, pressed)
  {
  }

  // ---------------------------------------------------------------------
  // Runs over a run of inputs

  /**
   * Which inputs make the effect run again. It reads the scopes tracked on
   * every run, and the pressed keys tracked only on a run that found itself
   * in scope; every update of either signal notifies, blur included (its
   * listener exists only while `allow_blur_event` is false).
   */
  predicate Notifies(allowBlurEvent: bool, b: Dispatch.Binding, before: Provider.World, input: Input) {
    IsScopeInput(input) ||
    (Dispatch.WithinScope(b.scopes, before.activeScopes) &&
     (input.KeyDown? || input.KeyUp? || (input.WindowBlur? && !allowBlurEvent)))
  }

  predicate FiresIn(b: Dispatch.Binding, w: Provider.World) {
    Fires(b, w.activeScopes, w.keyMap)
  }

  /** One input's contribution to the count, from the state before it. */
  function Count(allowBlurEvent: bool, b: Dispatch.Binding, before: Provider.World, input: Input): nat {
    if Notifies(allowBlurEvent, b, before, input) && FiresIn(b, Provider.Step(allowBlurEvent, before, input)) then 1 else 0
  }

  /** How many times the callback runs during `inputs`, from state `w`, not counting the first run. */
  function Calls(allowBlurEvent: bool, b: Dispatch.Binding, w: Provider.World, inputs: seq<Input>): nat
    decreases |inputs|
  {
    if |inputs| == 0 then 0
    else
      var init := inputs[..|inputs| - 1];
      Calls(allowBlurEvent, b, w, init) +
      Count(allowBlurEvent, b, Provider.Steps(allowBlurEvent, w, init), inputs[|inputs| - 1])
  }

  /** The first run, when the effect is created, and then one run per notifying input. */
  function Triggered(allowBlurEvent: bool, b: Dispatch.Binding, w: Provider.World, inputs: seq<Input>): nat {
    (if FiresIn(b, w) then 1 else 0) + Calls(allowBlurEvent, b, w, inputs)
  }

  lemma CallsSnoc(allowBlurEvent: bool, b: Dispatch.Binding, w: Provider.World, inputs: seq<Input>, input: Input)
    ensures Calls(allowBlurEvent, b, w, inputs + [input]) ==
      Calls(allowBlurEvent, b, w, inputs) + Count(allowBlurEvent, b, Provider.Steps(allowBlurEvent, w, inputs), input)
  {
    assert (inputs + [input])[..|inputs|] == inputs;
  }

  /** Out of scope, key events and blur do not even re-run the effect: the pressed keys are not tracked. */
  lemma OutOfScopeKeysDoNotNotify(allowBlurEvent: bool, b: Dispatch.Binding, before: Provider.World, input: Input)
    requires !Dispatch.WithinScope(b.scopes, before.activeScopes) && !IsScopeInput(input)
    ensures !Notifies(allowBlurEvent, b, before, input)
  {
  }

  /**
   * With no last-key gate, every keydown while a chord is held in scope runs
   * the callback again, whatever key it is: an unrelated key, or the
   * auto-repeat of a held one.
   */
  lemma KeyDownWhileHeldRefires(allowBlurEvent: bool, b: Dispatch.Binding, w: Provider.World, ev: KeyboardEvent)
    requires FiresIn(b, w)
    ensures Count(allowBlurEvent, b, w, KeyDown(ev)) == 1
  {
    var h :| h in b.parsedKeys && Matches(h, w.keyMap);
    var after := Provider.Step(allowBlurEvent, w, KeyDown(ev));
    assert w.keyMap.Keys <= after.keyMap.Keys;
    MatchIgnoresExtraKeys(h, w.keyMap, after.keyMap);
  }

  /**
   * Any scope change runs the effect, so enabling a scope re-runs the callback
   * while the chord is held, and brings a held chord that was out of scope in.
   */
  lemma EnableScopeFiresHeldChord(allowBlurEvent: bool, b: Dispatch.Binding, w: Provider.World, s: string, h: Hotkey)
    requires h in b.parsedKeys && Matches(h, w.keyMap)
    requires Dispatch.WithinScope(b.scopes, w.activeScopes) || s in b.scopes
    ensures Count(allowBlurEvent, b, w, Input.EnableScope(s)) == 1
  {
    var after := Provider.Step(allowBlurEvent, w, Input.EnableScope(s));
    if !Dispatch.WithinScope(b.scopes, w.activeScopes) {
      var i :| 0 <= i < |b.scopes| && b.scopes[i] == s;
      assert b.scopes[i] in after.activeScopes;
    } else {
      var i :| 0 <= i < |b.scopes| && b.scopes[i] in w.activeScopes;
      assert b.scopes[i] in after.activeScopes;
    }
  }

  /** A blur that resets the keys silences every alternative that needs a modifier or a key. */
  lemma BlurSilences(b: Dispatch.Binding, w: Provider.World)
    requires forall h :: h in b.parsedKeys ==> h.modifiers != Types.Default() || h.keys != []
    ensures Count(false, b, w, WindowBlur) == 0
  {
    forall h | h in b.parsedKeys
      ensures !Matches(h, map[])
    {
      NothingHeldMatchesOnlyEmpty(h);
    }
  }

  // ---------------------------------------------------------------------
  // The element-scoped variant (`use_hotkeys_ref_scoped`)

  /** A DOM element, by identity. */
  type Element = nat

  /** How many listeners are attached to one element. */
  function Attached(listeners: seq<Element>, e: Element): nat {
    multiset(listeners)[e]
  }

  /**
   * The node reference of `use_hotkeys_ref_scoped`. Every run of its effect
   * that finds the node attaches one more `keypress` listener; none is ever
   * removed.
   */
  class HotkeyRef {
    const binding: Dispatch.Binding
    var listeners: seq<Element>

    constructor (combination: string, scopes: seq<string>)
      ensures binding == UseHotkeysScoped(combination, scopes) && listeners == []
    {
      binding := UseHotkeysScoped(combination, scopes);
      listeners := [];
    }

    /** One run of the effect: `node_ref.get()` gives the node, or nothing before it is mounted. */
    method RunEffect(node: Option<Element>)
      modifies this
      ensures listeners == old(listeners) + (if node.Some? then [node.value] else [])
    {
      if node.Some? {
        listeners := listeners + [node.value];
      }
    }

    /**
     * A `keypress` on `target`: each listener attached to it evaluates the
     * binding against the provider's current state, and the callback runs
     * once for each of them that fires.
     */
    method DeliverKeyPress(p: Provider.World, order: seq<Hotkey>, target: Element) returns (calls: nat)
      requires forall h :: h in order <==> h in binding.parsedKeys
      ensures calls == if FiresIn(binding, p) then Attached(listeners, target) else 0
    {
      calls := 0;
      for i := 0 to |listeners|
        invariant calls == if FiresIn(binding, p) then Attached(listeners[..i], target) else 0
      {
        assert listeners[..i + 1] == listeners[..i] + [listeners[i]];
        if listeners[i] == target {
          var fired, _ := Evaluate(binding, order, p.activeScopes, p.keyMap);
          if fired {
            calls := calls + 1;
          }
        }
      }
      assert listeners[..|listeners|] == listeners;
    }
  }
}
