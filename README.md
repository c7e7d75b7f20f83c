# leptos-hotkeys, modelled in Dafny

This project models the keyboard-shortcut engine of leptos-hotkeys, a Leptos
library that binds key combinations such as `"control+shift+k"` to callbacks.
The engine has four parts, and the model keeps them apart.

- **Combo parser.**
  - A combination string is split on `,` into a set of alternatives.
  - Each alternative is split on `+` into parts, and each part is trimmed and lowercased.
  - A part is either a modifier synonym, which sets one of four flags, or a literal key.
  - The parser never fails.
  - The current parser is `Hotkey::from_str` in hotkey.rs. Two older ones are kept as separate modules: `Hotkey::new` in types.rs and `parse_key` in the older crate's use_hotkeys.rs.
- **Pressed-key tracker.**
  - The context keeps a map from normalised key id to the last keyboard event for it.
  - Keydown inserts into the map, keyup removes from it, and window blur clears it, unless `allow_blur_event` is set.
  - The current context (context.rs) normalises by the event's `code`, or by its `key` under the `use_key` feature. The two provider files normalise by `key`.
- **Scope manager.** This is a set of active scope names with `enable_scope`, `disable_scope` and `toggle_scope`. The wildcard `"*"` is the default scope that the macros supply.
- **Matcher and dispatcher.** Each binding is evaluated on every state change the Leptos effect tracks. An evaluation runs three steps:
  1. the scope gate;
  2. in the current crate only, the last-key gate: the key pressed last must be one of the binding's keys;
  3. a search for a matching alternative, which runs the callback at most once.

  Matching calls `prevent_default` on the events of the keys it visits.

The module layout follows the source files:

| module | file | models |
|---|---|---|
| `Types` | types.dfy | `KeyboardModifiers`, `Hotkey`, their `Display`, the older `Hotkey::new` parser (leptos_hotkeys/src/types.rs) |
| `Hotkeys` | hotkey.dfy | `from_str`, `new`, `includes_key`, `is_last_key_match`, `is_hotkey_match` (leptos_hotkeys/src/hotkey.rs) |
| `KeyState` | keystate.dfy | the keyboard event, the pressed-key state `KeyPresses` (map and last key), the inputs |
| `Context` | context.dfy | `provide_hotkeys_context` (leptos_hotkeys/src/context.rs) as a class updated in place, and its step function |
| `Provider` | provider.dfy | the hotkeys provider of leptos_hotkeys/src/hotkeys_provider.rs |
| `LegacyProvider` | legacy_provider.dfy | `HotkeysProvider` of src/hotkeys_provider.rs, with its prop defaults |
| `Dispatch` | dispatch.dfy | `use_hotkeys_scoped` and `use_hotkeys_ref` (leptos_hotkeys/src/use_hotkeys.rs) |
| `LegacyDispatch` | legacy_dispatch.dfy | `parse_key`, `is_hotkey_match`, `use_hotkeys_scoped`, `use_hotkeys_ref_scoped` (src/use_hotkeys.rs) |
| `Macros` | macros.dfy | `scopes!`, `use_hotkeys!`, `use_hotkeys_ref!` (leptos_hotkeys/src/macros.rs) |
| `LegacyMacros` | legacy_macros.dfy | the same macros of src/macros.rs |
| `Scopes`, `Text`, `Wrappers` | scopes.dfy, text.dfy, wrappers.dfy | set operations on scopes, ASCII string helpers, `Option`/`Result` |

### Modelling choices

- **Pressed-key state.**
  - Matching in hotkey.rs reads a `KeyPresses { key_map, last_key }`, but context.rs keeps only the map. The model therefore defines `KeyState.KeyPresses` itself.
  - Keydown sets `lastKey` to the pressed id.
  - Keyup removes the id, and clears `lastKey` only when it equals that id. So `lastKey`, when present, is always held (`KeyState.Valid`, preserved by every step).
- **Reactivity.**
  - Each binding's effect becomes an explicit evaluation after each input.
  - `Dispatch.Notifies` and `LegacyDispatch.Notifies` say which inputs re-run it.
    - Current crate: only keydown and keyup. The scopes are read untracked and blur resets the keys untracked.
    - Older crate: every scope change; and when the previous run was in scope, every keydown, keyup and reset by blur.
  - The callback counts are `Calls` and `Triggered`.
- **Side effects.**
  - `prevent_default` becomes a returned sequence of the events it was called on, in call order.
  - The iteration order of a `HashSet` of alternatives is a parameter, `order`, that lists exactly the set's elements.
- **Behaviour the code implies.** Lemmas state these consequences, some of which a user might not expect:
  - Under this model's `KeyPresses` rule (keydown makes the pressed id the last key), holding a key sends repeated keydowns, and each repeat fires a single-key binding again (`Dispatch.AutoRepeatRefires`). The binding does not fire once per press.
  - Under the same rule (keyup clears the last key only for the released id), releasing another key while a binding's key is held and was pressed last fires the binding again (`Dispatch.OtherKeyReleaseRefires`, `Dispatch.OtherKeyUpFires`).
  - In the default `code` mode, the space bar is held as `space`, while every spelling of the space bar in a combination parses to `spacebar`. Such a binding never fires in that mode (`Dispatch.SpaceBindingNeverFiresByCode`); it does fire under `use_key` (`Dispatch.SpaceBindingFiresByKey`).
  - Hotkey equality is structural over a sequence of keys, so key order and duplicates count.
- **The older chord test.** Lines 54-63 of src/use_hotkeys.rs do not type-check as written. The model takes their evident intent, which is `all` over the keys with `prevent_default` on each key visited. Both readings call the callback under exactly the same conditions.
- **Case folding and trimming** are ASCII only (`Text.Lower`, `Text.Trim`).

## Model

| member | source | states |
|---|---|---|
| Types.ModifiersOf | leptos_hotkeys/src/types.rs:80-95 | the flags set by a run of classified parts: a flag is set exactly when some part is that modifier (Types.ParseFlags) |
| Types.KeysOf | leptos_hotkeys/src/types.rs:96 | the keys pushed by a run of classified parts, in part order, duplicates kept |
| Types.Assemble | leptos_hotkeys/src/types.rs:77-100 | the Hotkey a loop over classified parts builds from the default modifiers and no keys |
| Types.HotkeyDisplay | leptos_hotkeys/src/types.rs:54-68 | the `Display` of a Hotkey: its keys joined by `+`, then the modifier string; only the modifier string when there is no key |
| Types.Classify | leptos_hotkeys/src/types.rs:81-97 | the older match: the ten synonyms set their flag, and any other lowercased part is a key |
| Types.Tokens | leptos_hotkeys/src/types.rs:72-75 | the parts of `split('+')`, each trimmed and classified, in order |
| Types.Parse | leptos_hotkeys/src/types.rs:70-101 | the Hotkey that `Hotkey::new` of this file returns: the assembled, trimmed, classified parts |
| Types.Default | leptos_hotkeys/src/types.rs:37-46 | the default modifiers have all four flags unset |
| Types.SetFlags | leptos_hotkeys/src/types.rs:13-35 | the set flags, each once, in the fixed order Alt, Ctrl, Meta, Shift; empty exactly for the default modifiers |
| Types.ModifiersDisplay | leptos_hotkeys/src/types.rs:13-35 | the modifier string is empty exactly when no flag is set, and otherwise starts with `+` |
| Types.NamesOfSetFlags | leptos_hotkeys/src/types.rs:15-30 | the displayed names are those of the flags the `if` chain pushes, in push order |
| Types.FormatModifiers | leptos_hotkeys/src/types.rs:13-35 | the push loop of `fmt` computes the modifier string |
| Types.HotkeyDisplayParts | leptos_hotkeys/src/types.rs:54-68 | with keys, a Hotkey displays as its keys then its modifier names, all joined by `+` |
| Types.AssembleStep | leptos_hotkeys/src/types.rs:80-98 | one more part either sets its flag or pushes its key at the end |
| Types.KeysOfMembers | leptos_hotkeys/src/types.rs:96 | a key is in the result exactly when some part produced it |
| Types.KeysOfAppend | leptos_hotkeys/src/types.rs:96 | keys from consecutive runs of parts are concatenated, in order |
| Types.KeysOfModifiersOnly | leptos_hotkeys/src/types.rs:82-94 | parts that are all modifiers contribute no key |
| Types.KeysOfKeysOnly | leptos_hotkeys/src/types.rs:96 | parts that are all keys contribute exactly their names, in order, duplicates kept |
| Types.New | leptos_hotkeys/src/types.rs:70-101 | the older parser's loop computes the Hotkey that the part-by-part classification assembles |
| Types.ParseFlags | leptos_hotkeys/src/types.rs:80-98 | a flag is set exactly when some trimmed part classifies as that flag's modifier |
| Types.ParseKeys | leptos_hotkeys/src/types.rs:96 | a key is present exactly when some trimmed part was kept as that key |
| Types.JoinedParts | leptos_hotkeys/src/types.rs:71-101 | parsing `+`-joined parts gives what their classifications assemble to |
| Types.ExampleShiftRMeta | leptos_hotkeys/src/types.rs:112-122 | `shift+r+meta` gives shift, meta and the key `r` |
| Types.PlainKeyClassify | leptos_hotkeys/src/types.rs:96 | a trimmed lowercase part naming no modifier is kept as itself |
| Types.SideNamesAreKeys | leptos_hotkeys/src/types.rs:82-94 | the older parser keeps `controlleft` and the other side names as keys |
| Types.LoneSpaceIsEmptyKey | leptos_hotkeys/src/types.rs:71-79 | the older parser has no space bar case: a lone space becomes the empty key |
| Hotkeys.Prepare | leptos_hotkeys/src/hotkey.rs:45 | a part that is exactly one space becomes `spacebar`; any other part is trimmed |
| Hotkeys.Classify | leptos_hotkeys/src/hotkey.rs:52-77 | the arm of the match a prepared part takes, by its lowercase form |
| Hotkeys.Tokens | leptos_hotkeys/src/hotkey.rs:43-52 | the parts of `split('+')`, each prepared and classified, in order |
| Hotkeys.Parse | leptos_hotkeys/src/hotkey.rs:42-82 | the Hotkey that `from_str` returns inside its `Ok` |
| Hotkeys.MatchNames | leptos_hotkeys/src/hotkey.rs:101-127 | the pressed ids that satisfy each flag |
| Hotkeys.ModifiersMatch | leptos_hotkeys/src/hotkey.rs:101-127 | every set flag has one of its ids held; an unset flag is not looked at |
| Hotkeys.KeysHeld | leptos_hotkeys/src/hotkey.rs:129-142 | every key of the Hotkey is held |
| Hotkeys.Matches | leptos_hotkeys/src/hotkey.rs:95-143 | the result of `is_hotkey_match`: the modifiers match and every key is held |
| Hotkeys.MatchPrevented | leptos_hotkeys/src/hotkey.rs:129-142 | the events `prevent_default` is called on: none unless the modifiers match, then those of the held keys up to the first one not held |
| Hotkeys.FromStr | leptos_hotkeys/src/hotkey.rs:42-82 | `from_str` always returns `Ok`, holding the Hotkey the classified parts assemble to |
| Hotkeys.MatchPart | leptos_hotkeys/src/hotkey.rs:52-77 | one part sets the flag of the modifier it classifies as, or appends the key it classifies as, and changes nothing else |
| Hotkeys.New | leptos_hotkeys/src/hotkey.rs:30-32 | `Hotkey::new` never panics and returns the parse |
| Hotkeys.ParseJoin | leptos_hotkeys/src/hotkey.rs:42-82 | parsing `+`-joined parts classifies each part on its own |
| Hotkeys.JoinedParts | leptos_hotkeys/src/hotkey.rs:42-82 | parsing `+`-joined parts gives what their known classifications assemble to |
| Hotkeys.ClassifyLower | leptos_hotkeys/src/hotkey.rs:52-77 | a lowercase part is a modifier exactly when it is a synonym, a space bar name exactly when it is one of `space`, `spacebar`, and otherwise a key of its own spelling |
| Hotkeys.CtrlSynonymsClassify | leptos_hotkeys/src/hotkey.rs:53-56 | each ctrl synonym sets ctrl and adds no key |
| Hotkeys.AltSynonymsClassify | leptos_hotkeys/src/hotkey.rs:58-61 | each alt synonym sets alt and adds no key |
| Hotkeys.MetaSynonymsClassify | leptos_hotkeys/src/hotkey.rs:63-69 | each meta synonym sets meta and adds no key |
| Hotkeys.ShiftSynonymsClassify | leptos_hotkeys/src/hotkey.rs:71-73 | each shift synonym sets shift and adds no key |
| Hotkeys.SpaceNamesClassify | leptos_hotkeys/src/hotkey.rs:43-75 | a lone space, `space` and `spacebar` each give the key `spacebar` |
| Hotkeys.SynonymSwap | leptos_hotkeys/src/hotkey.rs:53-73 | replacing one part by another synonym of the same modifier never changes the parse |
| Hotkeys.PartSwap | leptos_hotkeys/src/hotkey.rs:51-79 | replacing a part by one that classifies the same never changes the parse |
| Hotkeys.ExampleShiftRMeta | leptos_hotkeys/src/hotkey.rs:151-162 | `shift+r+meta` gives shift, meta and the key `r` |
| Hotkeys.ExampleAltOT | leptos_hotkeys/src/hotkey.rs:163-174 | `alt + o + T` gives alt and the keys `o`, `t`: parts trimmed, case folded |
| Hotkeys.ExampleControlL88 | leptos_hotkeys/src/hotkey.rs:175-186 | `control+L+ 8 + 8` gives ctrl and the keys `l`, `8`, `8`: the duplicate is kept |
| Hotkeys.ExampleShiftCtrlAltT | leptos_hotkeys/src/hotkey.rs:187-198 | `shift+ctrl+alt+t` gives shift, ctrl, alt and the key `t` |
| Hotkeys.ExampleCommandK | leptos_hotkeys/src/hotkey.rs:199-210 | `command+k` gives meta and the key `k` |
| Hotkeys.ExampleCmdK | leptos_hotkeys/src/hotkey.rs:211-222 | `cmd+k` gives the same Hotkey as `command+k` |
| Hotkeys.SpaceIsSpacebar | leptos_hotkeys/src/hotkey.rs:42-82 | a lone space, `space` and `spacebar` all parse to the one key `spacebar` and no modifier |
| Hotkeys.ParseIgnoresCase | leptos_hotkeys/src/hotkey.rs:52 | a combination and its lowercase form parse to the same Hotkey |
| Hotkeys.ClassifyKey | leptos_hotkeys/src/hotkey.rs:75-77 | a key is `spacebar` or the lowercased part itself, which is then no reserved word |
| Hotkeys.ParsedKeysAreKeyNames | leptos_hotkeys/src/hotkey.rs:42-82 | every key of a parse is lowercase, trimmed, free of `+` and no modifier synonym or space name, unless it is `spacebar` |
| Hotkeys.SingleKeyParse | leptos_hotkeys/src/hotkey.rs:42-82 | a combination that is one key name parses to that key and no modifier |
| Hotkeys.FlagNameClassify | leptos_hotkeys/src/hotkey.rs:53-73 | each displayed modifier name reads back as its flag |
| Hotkeys.AssembleKeysThenFlags | leptos_hotkeys/src/hotkey.rs:51-79 | the keys as keys followed by the flags as modifiers assemble to exactly those keys and flags |
| Hotkeys.DisplayRoundTrip | leptos_hotkeys/src/hotkey.rs:13-27 | displaying a Hotkey whose keys are non-empty key names, then parsing, gives the Hotkey back |
| Hotkeys.ParseDisplayParse | leptos_hotkeys/src/hotkey.rs:13-27 | a parse with a key survives display and a second parse unchanged |
| Hotkeys.ModifierOnlyDisplay | leptos_hotkeys/src/hotkey.rs:13-27 | a Hotkey with modifiers and no key displays with a leading `+`, which parses back with one empty key |
| Hotkeys.AnyEqual | leptos_hotkeys/src/hotkey.rs:35 | the `any` holds exactly when the key is in the list |
| Hotkeys.IncludesKey | leptos_hotkeys/src/hotkey.rs:34-36 | true exactly when the key is one of the literal keys; modifiers do not count |
| Hotkeys.IsLastKeyMatch | leptos_hotkeys/src/hotkey.rs:86-92 | true exactly when there is a last key and it is a literal key of some parsed alternative |
| Hotkeys.ModifierLastClosesGate | leptos_hotkeys/src/hotkey.rs:86-92 | when the last key is a modifier synonym that no key name equals, the gate is closed |
| Hotkeys.HeldPrefix | leptos_hotkeys/src/hotkey.rs:129-142 | how far the short-circuiting `all` gets: every key before it is held, the key at it is not |
| Hotkeys.IsHotkeyMatch | leptos_hotkeys/src/hotkey.rs:95-143 | the `&=` fold and `all` compute the match, and `prevent_default` is called on the keys visited |
| Hotkeys.ModifierTests | leptos_hotkeys/src/hotkey.rs:101-127 | each set flag needs one of its pressed ids: ctrl `controlleft`/`controlright`/`control`, shift `shiftleft`/`shiftright`/`shift`, meta `metaleft`/`metaright`/`meta`/`command`/`cmd`/`super`/`win`, alt `altleft`/`altright`/`alt` (so `ctrl` and `option` held satisfy nothing); unset flags are ignored |
| Hotkeys.HeldPrefixFull | leptos_hotkeys/src/hotkey.rs:129-142 | the `all` reaches the end exactly when every key is held |
| Hotkeys.PreventedOnMatch | leptos_hotkeys/src/hotkey.rs:129-142 | with matching modifiers, every key's event is prevented exactly on a full match, and the events are those of the keys in order |
| Hotkeys.MatchIgnoresExtraKeys | leptos_hotkeys/src/hotkey.rs:95-143 | holding more keys never breaks a match |
| Hotkeys.NoModifiersMatchKeys | leptos_hotkeys/src/hotkey.rs:95-143 | with no flags set, a Hotkey matches exactly when all its keys are held |
| KeyState.Valid | leptos_hotkeys/src/context.rs:97-128 | the last key, when there is one, is held; every step keeps this (Context.StepKeepsValid) |
| KeyState.NoPresses | leptos_hotkeys/src/context.rs:41-42 | the initial state holds no key and no last key |
| KeyState.Insert | leptos_hotkeys/src/context.rs:102-109 | the id maps to the new event, and every other entry is unchanged |
| KeyState.Remove | leptos_hotkeys/src/context.rs:118-125 | the id is gone, and every other entry is unchanged |
| KeyState.RemoveAbsent | leptos_hotkeys/src/context.rs:118-125 | removing an id that is not held changes nothing |
| KeyState.InsertThenRemove | leptos_hotkeys/src/context.rs:97-128 | pressing and releasing an id that was not held restores the map |
| KeyState.Press | leptos_hotkeys/src/context.rs:97-111 | a keydown inserts the id and makes it the last key, keeping the last key held; the last key is what the test at leptos_hotkeys/src/hotkey.rs:86-92 reads |
| KeyState.Release | leptos_hotkeys/src/context.rs:112-126 | a keyup removes the id and clears the last key exactly when it was that id, keeping the last key held; the last key is what the test at leptos_hotkeys/src/hotkey.rs:86-92 reads |
| Scopes.Enable | leptos_hotkeys/src/context.rs:46-55 | the new set is the old one with the scope added |
| Scopes.Disable | leptos_hotkeys/src/context.rs:57-64 | the scope is gone, and every other scope keeps its membership |
| Scopes.Toggle | leptos_hotkeys/src/context.rs:66-80 | the scope's membership flips, and every other scope keeps its membership |
| Scopes.EnableIdempotent | leptos_hotkeys/src/context.rs:46-55 | enabling twice is enabling once |
| Scopes.DisableAbsent | leptos_hotkeys/src/context.rs:57-64 | disabling an inactive scope is a no-op |
| Scopes.DisableIdempotent | leptos_hotkeys/src/context.rs:57-64 | disabling twice is disabling once |
| Scopes.ToggleInvolution | leptos_hotkeys/src/context.rs:66-80 | toggling twice restores the set |
| Scopes.ToggleIsEnableOrDisable | leptos_hotkeys/src/context.rs:66-80 | a toggle disables an active scope and enables an inactive one |
| Scopes.ScopeSet | leptos_hotkeys/src/macros.rs:1-32 | `scopes!` contains the wildcard, every argument, and nothing else |
| Scopes.ScopeSetIgnoresOrder | leptos_hotkeys/src/macros.rs:11-31 | duplicate and reordered arguments give the same set |
| Context.Step | leptos_hotkeys/src/context.rs:46-141 | one input applied to the context: a scope callback, a keydown, a keyup, or a blur that resets the keys only while `allow_blur_event` is false |
| Context.Steps | leptos_hotkeys/src/context.rs:46-141 | a run of inputs applied one by one, in order |
| Context.KeyId | leptos_hotkeys/src/context.rs:99-110 | every normalised id is lowercase |
| Context.SpaceKeyId | leptos_hotkeys/src/context.rs:99-110 | the space bar is `spacebar` under `use_key`, but `space` (its lowercased code) by default |
| Context.Initial | leptos_hotkeys/src/context.rs:41-44 | the context starts with the given scopes and no key held |
| Context.StepKeepsValid | leptos_hotkeys/src/context.rs:89-128 | every input keeps the last key among the held keys |
| Context.StepsKeepValid | leptos_hotkeys/src/context.rs:89-128 | so does every run of inputs |
| Context.StepsAreIndependent | leptos_hotkeys/src/context.rs:46-128 | scope operations never touch the pressed keys; key events and blur never touch the scopes |
| Context.KeyDownInserts | leptos_hotkeys/src/context.rs:97-112 | keydown maps its normalised id to its event, overwriting, and leaves other ids alone |
| Context.KeyUpRemoves | leptos_hotkeys/src/context.rs:113-128 | keyup removes the id normalised the same way, and leaves other ids alone |
| Context.PressRelease | leptos_hotkeys/src/context.rs:97-128 | a keydown then keyup of a key not held restores the held keys |
| Context.BlurResets | leptos_hotkeys/src/context.rs:130-134 | blur empties the keys when `allow_blur_event` is false, else changes nothing; it never changes the scopes |
| Context.HotkeysContext.constructor | leptos_hotkeys/src/context.rs:24-44 | the context starts in the initial state with no ref target |
| Context.HotkeysContext.SetRefTarget | leptos_hotkeys/src/context.rs:36-38 | sets the ref target and nothing else |
| Context.HotkeysContext.EnableScope | leptos_hotkeys/src/context.rs:46-55 | the in-place insert takes one enable step |
| Context.HotkeysContext.DisableScope | leptos_hotkeys/src/context.rs:57-64 | the in-place remove takes one disable step |
| Context.HotkeysContext.ToggleScope | leptos_hotkeys/src/context.rs:66-80 | the in-place toggle takes one toggle step |
| Context.HotkeysContext.OnKeyDown | leptos_hotkeys/src/context.rs:97-112 | the keydown listener takes one keydown step and keeps the state valid |
| Context.HotkeysContext.OnKeyUp | leptos_hotkeys/src/context.rs:113-128 | the keyup listener takes one keyup step and keeps the state valid |
| Context.HotkeysContext.OnBlur | leptos_hotkeys/src/context.rs:90-95 | the blur event takes one blur step: a reset only while the listener is installed |
| Context.HotkeysContext.Apply | leptos_hotkeys/src/context.rs:46-141 | each input, through its callback or listener, takes one step |
| Provider.Step | leptos_hotkeys/src/hotkeys_provider.rs:58-120 | one input applied to the provider, keyed by lowercased `key` |
| Provider.Steps | leptos_hotkeys/src/hotkeys_provider.rs:58-133 | a run of inputs applied one by one, in order |
| Provider.KeyId | leptos_hotkeys/src/hotkeys_provider.rs:111-120 | the id is the lowercased `key`, with the `key`'s length |
| Provider.Initial | leptos_hotkeys/src/hotkeys_provider.rs:54-56 | the given scopes and no key held |
| Provider.StepsAreIndependent | leptos_hotkeys/src/hotkeys_provider.rs:58-120 | scope operations never touch the held keys; key events and blur never touch the scopes |
| Provider.PressRelease | leptos_hotkeys/src/hotkeys_provider.rs:111-120 | keydown then keyup of the same `key` not held restores the held keys |
| Provider.BlurResets | leptos_hotkeys/src/hotkeys_provider.rs:104-109 | blur empties the keys only while `allow_blur_event` is false |
| Provider.SpaceNotRemapped | leptos_hotkeys/src/hotkeys_provider.rs:111-115 | the space bar is held as `" "`, not as the current context's `spacebar` |
| Provider.KeyIdIgnoresCode | leptos_hotkeys/src/hotkeys_provider.rs:111-120 | the event's `code` plays no part in the id |
| Provider.StepsSnoc | leptos_hotkeys/src/hotkeys_provider.rs:104-133 | a run of inputs followed by one more is one more step |
| Provider.HotkeysContext.constructor | leptos_hotkeys/src/hotkeys_provider.rs:49-56 | the provider starts with the given scopes, no key held and no ref target |
| Provider.HotkeysContext.SetRefTarget | leptos_hotkeys/src/hotkeys_provider.rs:49-51 | sets the ref target and nothing else |
| Provider.HotkeysContext.EnableScope | leptos_hotkeys/src/hotkeys_provider.rs:58-67 | one enable step |
| Provider.HotkeysContext.DisableScope | leptos_hotkeys/src/hotkeys_provider.rs:69-76 | one disable step |
| Provider.HotkeysContext.ToggleScope | leptos_hotkeys/src/hotkeys_provider.rs:78-92 | one toggle step |
| Provider.HotkeysContext.OnKeyDown | leptos_hotkeys/src/hotkeys_provider.rs:111-115 | one keydown step, by lowercased `key` |
| Provider.HotkeysContext.OnKeyUp | leptos_hotkeys/src/hotkeys_provider.rs:116-120 | one keyup step, by lowercased `key` |
| Provider.HotkeysContext.OnBlur | leptos_hotkeys/src/hotkeys_provider.rs:104-109 | one blur step |
| LegacyProvider.DefaultScopes | src/hotkeys_provider.rs:33-39 | the default initial scopes are exactly the wildcard |
| LegacyProvider.DefaultProvider | src/hotkeys_provider.rs:33-39 | a provider with no props has blur reset on, only the wildcard active and no key held |
| LegacyProvider.HotkeysProvider.constructor | src/hotkeys_provider.rs:33-49 | the provider starts with the given scopes and no key held |
| LegacyProvider.HotkeysProvider.SetRefTarget | src/hotkeys_provider.rs:44-46 | sets the ref target and nothing else |
| LegacyProvider.HotkeysProvider.EnableScope | src/hotkeys_provider.rs:51-57 | one enable step |
| LegacyProvider.HotkeysProvider.DisableScope | src/hotkeys_provider.rs:59-63 | one disable step |
| LegacyProvider.HotkeysProvider.ToggleScope | src/hotkeys_provider.rs:65-73 | one toggle step |
| LegacyProvider.HotkeysProvider.OnKeyDown | src/hotkeys_provider.rs:94-99 | one keydown step, by lowercased `key` |
| LegacyProvider.HotkeysProvider.OnKeyUp | src/hotkeys_provider.rs:100-105 | one keyup step, by lowercased `key` |
| LegacyProvider.HotkeysProvider.OnBlur | src/hotkeys_provider.rs:89-92 | one blur step: a reset only while `allow_blur_event` is false |
| Dispatch.UseHotkeysScoped | leptos_hotkeys/src/use_hotkeys.rs:13-24 | a registration keeps the parsed `,` alternatives and the scopes it is given |
| Dispatch.WithinScope | leptos_hotkeys/src/use_hotkeys.rs:31 | some scope of the binding is active |
| Dispatch.Fires | leptos_hotkeys/src/use_hotkeys.rs:28-54 | whether one run calls the callback: in scope, the last-key gate open, and some alternative matching |
| Dispatch.FindSucceeds | leptos_hotkeys/src/use_hotkeys.rs:41-44 | whether `find` finds a matching alternative when it goes through them in this order; true exactly when one matches (Dispatch.FindSucceedsExists) |
| Dispatch.FindPrevented | leptos_hotkeys/src/use_hotkeys.rs:41-44 | the events `find` hands to `prevent_default`: those of each alternative it tests, up to and including the first match |
| Dispatch.Notifies | leptos_hotkeys/src/use_hotkeys.rs:28-30 | only keydown and keyup re-run the effect: the scopes are read untracked and blur resets the keys untracked |
| Dispatch.FiresIn | leptos_hotkeys/src/use_hotkeys.rs:28-54 | the binding fires on a context state |
| Dispatch.Calls | leptos_hotkeys/src/use_hotkeys.rs:28-54 | how often the callback runs during a run of inputs: once per notifying input after which the binding fires |
| Dispatch.Triggered | leptos_hotkeys/src/use_hotkeys.rs:28-54 | the first run of the effect, then Calls |
| Dispatch.Count | leptos_hotkeys/src/use_hotkeys.rs:28-54 | one run's contribution: one when the input notifies and the binding fires after it |
| Dispatch.ParseAlternatives | leptos_hotkeys/src/use_hotkeys.rs:24 | the alternatives are exactly the parses of the `,`-separated segments |
| Dispatch.DuplicateAlternativesCollapse | leptos_hotkeys/src/use_hotkeys.rs:24 | `a,a` is the one alternative `a` |
| Dispatch.OneAlternative | leptos_hotkeys/src/use_hotkeys.rs:24 | a combination without a comma is one alternative |
| Dispatch.SingleKeyAlternatives | leptos_hotkeys/src/use_hotkeys.rs:24 | a key name binds the one Hotkey of that key |
| Dispatch.AlternativesHoldKeyNames | leptos_hotkeys/src/use_hotkeys.rs:24 | every key of every alternative is a key name |
| Dispatch.AnyScopeActive | leptos_hotkeys/src/use_hotkeys.rs:31 | the `any` over the scopes holds exactly when some binding scope is active |
| Dispatch.FindMatch | leptos_hotkeys/src/use_hotkeys.rs:41-44 | `find` succeeds exactly when some alternative from the start matches, preventing the events of the alternatives it tests |
| Dispatch.FindSucceedsExists | leptos_hotkeys/src/use_hotkeys.rs:41-44 | `find` succeeds exactly when some alternative in the order matches |
| Dispatch.AnyMatchPastFailures | leptos_hotkeys/src/use_hotkeys.rs:41-44 | failing alternatives do not change whether `find` succeeds |
| Dispatch.FindPreventedSplit | leptos_hotkeys/src/use_hotkeys.rs:41-44 | past failing alternatives, the prevented events are theirs followed by the rest of the search's |
| Dispatch.FindPreventsMatch | leptos_hotkeys/src/use_hotkeys.rs:41-44 | `find` stops at the first match, which prevents every event of its keys |
| Dispatch.OrderCoversAlternatives | leptos_hotkeys/src/use_hotkeys.rs:41-43 | searching any order of the set finds a match exactly when the set has one |
| Dispatch.Evaluate | leptos_hotkeys/src/use_hotkeys.rs:28-54 | one run fires exactly when in scope, the last key is a binding key and some alternative matches; it prevents events only past both gates |
| Dispatch.OutOfScopeIsSilent | leptos_hotkeys/src/use_hotkeys.rs:31-35 | out of scope nothing fires |
| Dispatch.LastKeyGateBlocksHeldChord | leptos_hotkeys/src/use_hotkeys.rs:37-39 | a fully held chord in scope fires exactly when the last-key gate is open |
| Dispatch.ModifierPressedLastNeverFires | leptos_hotkeys/src/use_hotkeys.rs:37-39 | pressing a modifier last never fires a binding |
| Dispatch.FreshContextIsSilent | leptos_hotkeys/src/use_hotkeys.rs:28-54 | the first run, on a fresh context, never fires |
| Dispatch.QuietInputsNeverFire | leptos_hotkeys/src/use_hotkeys.rs:29-30 | a scope change or blur never runs the callback, even when it brings a held chord into scope |
| Dispatch.StepsSnoc | leptos_hotkeys/src/context.rs:89-141 | a run of inputs followed by one more is one more step |
| Dispatch.CallsSnoc | leptos_hotkeys/src/use_hotkeys.rs:28-54 | one more input adds one call exactly when it notifies and the binding fires after it |
| Dispatch.CallsOfTwo | leptos_hotkeys/src/use_hotkeys.rs:28-54 | the calls over two inputs, one per evaluation |
| Dispatch.CallsOfThree | leptos_hotkeys/src/use_hotkeys.rs:28-54 | the calls over three inputs, one per evaluation |
| Dispatch.KeyUpOfLastKeyIsSilent | leptos_hotkeys/src/use_hotkeys.rs:37-39 | releasing the last key closes the gate |
| Dispatch.SingleKeyFires | leptos_hotkeys/src/use_hotkeys.rs:28-54 | a single-key binding fires exactly when in scope and its key was pressed last and is held |
| Dispatch.KeyDownFires | leptos_hotkeys/src/use_hotkeys.rs:28-54 | pressing the key of a single-key binding in scope fires it |
| Dispatch.OtherKeyUpFires | leptos_hotkeys/src/use_hotkeys.rs:37-44 | with the binding's key held and last, releasing another key fires it |
| Dispatch.PressReleasePress | leptos_hotkeys/src/use_hotkeys.rs:28-54 | press, release, press of a single-key binding fires twice |
| Dispatch.AutoRepeatRefires | leptos_hotkeys/src/use_hotkeys.rs:28-54 | a repeated keydown of a held key fires the binding again |
| Dispatch.OtherKeyReleaseRefires | leptos_hotkeys/src/use_hotkeys.rs:28-54 | press another key, press the binding's key, release the other: two calls |
| Dispatch.NeverFiresNoCalls | leptos_hotkeys/src/use_hotkeys.rs:28-54 | a run in which the binding never fires after any input calls it zero times |
| Dispatch.SpacebarNeverHeldByCode | leptos_hotkeys/src/context.rs:108-110 | in code mode, no keydown whose code does not lowercase to `spacebar` ever holds `spacebar` |
| Dispatch.SpaceAlternatives | leptos_hotkeys/src/use_hotkeys.rs:24 | every space bar spelling binds the one key `spacebar` |
| Dispatch.SpaceBindingNeverFiresByCode | leptos_hotkeys/src/use_hotkeys.rs:28-54 | in code mode a space bar binding never fires |
| Dispatch.SpaceBindingFiresByKey | leptos_hotkeys/src/use_hotkeys.rs:28-54 | under `use_key` a space bar binding fires on the space bar's keydown |
| Dispatch.EscapeAlternatives | leptos_hotkeys/src/use_hotkeys.rs:24 | `escape` binds the one key `escape` |
| Dispatch.EscapeKeyId | leptos_hotkeys/src/context.rs:99-110 | the Escape key is held as `escape` in both modes |
| Dispatch.EscapeScenario | leptos_hotkeys/src/use_hotkeys.rs:13-56 | `escape` in the wildcard scope: keydown, keyup, keydown call the callback twice |
| Dispatch.HotkeyRef.constructor | leptos_hotkeys/src/use_hotkeys.rs:69-80 | the binding of the combination and scopes, with no handler attached |
| Dispatch.HotkeyRef.RunEffect | leptos_hotkeys/src/use_hotkeys.rs:82-117 | nothing happens until there is an element; the handler is attached once, to the first element seen |
| Dispatch.HotkeyRef.DeliverKeyUp | leptos_hotkeys/src/use_hotkeys.rs:83-109 | an element keyup fires exactly when the handler is attached and the binding fires on the state before the release; then the context takes its keyup step |
| Dispatch.RefFiresOnRelease | leptos_hotkeys/src/use_hotkeys.rs:83-109 | a single-key binding fires on the state its keyup handler sees, while the global effect is silent after that keyup |
| LegacyDispatch.Classify | src/use_hotkeys.rs:18-30 | the `parse_key` match: only `ctrl`, `alt`, `meta` and `shift` are modifiers, and any other lowercased part is a key |
| LegacyDispatch.Tokens | src/use_hotkeys.rs:14-17 | the parts of `split('+')`, each trimmed and classified, in order |
| LegacyDispatch.Parse | src/use_hotkeys.rs:13-33 | the Hotkey `parse_key` returns |
| LegacyDispatch.UseHotkeysScoped | src/use_hotkeys.rs:68-76 | a registration keeps the parsed `,` alternatives and the scopes it is given |
| LegacyDispatch.MatchName | src/use_hotkeys.rs:38-52 | the one pressed id each flag looks for |
| LegacyDispatch.ModifiersMatch | src/use_hotkeys.rs:36-52 | every set flag has its one id held |
| LegacyDispatch.Matches | src/use_hotkeys.rs:35-66 | the result of `is_hotkey_match`: the modifiers match and every key is held |
| LegacyDispatch.MatchPrevented | src/use_hotkeys.rs:54-63 | the events `prevent_default` is called on: none unless the modifiers match, then those of the held keys up to the first one not held |
| LegacyDispatch.Fires | src/use_hotkeys.rs:81-96 | whether one run calls the callback: in scope and some alternative matching, with no last-key gate |
| LegacyDispatch.AnyPrevented | src/use_hotkeys.rs:89-91 | the events `any` hands to `prevent_default`: those of each alternative it tests, up to and including the first match |
| LegacyDispatch.AnyMatchIn | src/use_hotkeys.rs:89-91 | whether `any` succeeds in this order; true exactly when some alternative matches (LegacyDispatch.AnyMatchInExists) |
| LegacyDispatch.Notifies | src/use_hotkeys.rs:81-88 | every scope change re-runs the effect, and key events and a resetting blur do too when the previous run was in scope |
| LegacyDispatch.Count | src/use_hotkeys.rs:81-96 | one run's contribution: one when the input notifies and the binding fires after it |
| LegacyDispatch.Calls | src/use_hotkeys.rs:81-96 | how often the callback runs during a run of inputs |
| LegacyDispatch.Triggered | src/use_hotkeys.rs:81-96 | the first run of the effect, then Calls |
| LegacyDispatch.Attached | src/use_hotkeys.rs:109-134 | how many `keypress` listeners an element carries; each effect run that finds the element adds one |
| LegacyDispatch.ParseKey | src/use_hotkeys.rs:13-33 | the `parse_key` loop computes the Hotkey the trimmed parts assemble to |
| LegacyDispatch.PartKey | src/use_hotkeys.rs:18-30 | a part kept as a key is lowercase, trimmed, free of `+` and no modifier word |
| LegacyDispatch.ParsedKeysAreWords | src/use_hotkeys.rs:13-33 | every key of a parse is lowercase, trimmed, free of `+` and no modifier word |
| LegacyDispatch.TokenFlag | src/use_hotkeys.rs:18-30 | a part is a modifier exactly when it is, trimmed and lowercased, that flag's word |
| LegacyDispatch.ParseFlags | src/use_hotkeys.rs:13-33 | a flag is set exactly when some part, trimmed and lowercased, is its one word |
| LegacyDispatch.JoinedParts | src/use_hotkeys.rs:13-33 | parsing `+`-joined parts gives what their classifications assemble to |
| LegacyDispatch.WordClassify | src/use_hotkeys.rs:28-30 | a lowercase trimmed word that is no modifier word is kept as a key |
| LegacyDispatch.ModifierWordClassify | src/use_hotkeys.rs:20-27 | each modifier word sets its flag |
| LegacyDispatch.ExampleControlK | src/use_hotkeys.rs:13-33 | `control+k` is the two keys `control` and `k`, no modifier |
| LegacyDispatch.ExampleCtrlK | src/use_hotkeys.rs:13-33 | `ctrl+k` is the ctrl flag and the key `k` |
| LegacyDispatch.ParseAlternatives | src/use_hotkeys.rs:73-76 | the alternatives are exactly the parses of the `,`-separated segments |
| LegacyDispatch.IsHotkeyMatch | src/use_hotkeys.rs:35-66 | the `&=` fold and `all` compute the match, preventing the events of the keys visited |
| LegacyDispatch.MatchIgnoresExtraKeys | src/use_hotkeys.rs:35-66 | holding more keys never breaks a match |
| LegacyDispatch.NothingHeldMatchesOnlyEmpty | src/use_hotkeys.rs:35-66 | with nothing held, only a Hotkey with no flag and no key matches |
| LegacyDispatch.CtrlKChordMatches | src/use_hotkeys.rs:38-52 | ctrl with `k` needs the ids `control` and `k` held |
| LegacyDispatch.ControlKChordMatches | src/use_hotkeys.rs:54-63 | the keys `control` and `k` need `control` and `k` held |
| LegacyDispatch.ControlSpellingsAgree | src/use_hotkeys.rs:13-66 | `ctrl+k` and `control+k` parse differently but match exactly the same pressed keys |
| LegacyDispatch.AnyMatchInExists | src/use_hotkeys.rs:89-91 | `any` succeeds exactly when some alternative matches |
| LegacyDispatch.AnyPast | src/use_hotkeys.rs:89-91 | a failing alternative passes `any` on to the rest, with its prevented events first |
| LegacyDispatch.AnyStops | src/use_hotkeys.rs:89-91 | `any` stops at a match |
| LegacyDispatch.AnyMatch | src/use_hotkeys.rs:89-91 | the `any` loop succeeds exactly when some alternative matches, preventing the events of those it tests |
| LegacyDispatch.Evaluate | src/use_hotkeys.rs:81-96 | one run fires exactly when in scope and some alternative matches, with no last-key gate |
| LegacyDispatch.OutOfScopeIsSilent | src/use_hotkeys.rs:85-87 | out of scope nothing fires |
| LegacyDispatch.CallsSnoc | src/use_hotkeys.rs:81-96 | one more input adds one call exactly when it notifies and the binding fires after it |
| LegacyDispatch.OutOfScopeKeysDoNotNotify | src/use_hotkeys.rs:82-88 | out of scope, key events and blur do not re-run the effect |
| LegacyDispatch.KeyDownWhileHeldRefires | src/use_hotkeys.rs:81-96 | while a chord fires, every further keydown calls the callback again |
| LegacyDispatch.EnableScopeFiresHeldChord | src/use_hotkeys.rs:82-91 | enabling a scope while a chord is held calls the callback |
| LegacyDispatch.BlurSilences | src/hotkeys_provider.rs:89-92 | a resetting blur never calls a binding that needs a modifier or a key |
| LegacyDispatch.HotkeyRef.constructor | src/use_hotkeys.rs:99-108 | the binding of the combination and scopes, with no listener |
| LegacyDispatch.HotkeyRef.RunEffect | src/use_hotkeys.rs:109-134 | each run that finds the node adds one more `keypress` listener |
| LegacyDispatch.HotkeyRef.DeliverKeyPress | src/use_hotkeys.rs:116-130 | a keypress calls the callback once per listener attached to the target when the binding fires, else never |
| Macros.ScopeArgs | leptos_hotkeys/src/macros.rs:36-106 | the scope list a `use_hotkeys!` arm passes: `["*"]` when no scope is named, the named scopes otherwise |
| Macros.UseHotkeys | leptos_hotkeys/src/macros.rs:36-106 | `use_hotkeys!` registers the combination with that scope list |
| Macros.ScopesMacro | leptos_hotkeys/src/macros.rs:1-32 | the insert loop builds the wildcard plus every argument |
| Macros.UseHotkeysRef | leptos_hotkeys/src/macros.rs:109-161 | the reference binding passes `["*"]` without scopes and exactly the given list otherwise |
| Macros.DefaultScopeFollowsWildcard | leptos_hotkeys/src/macros.rs:36-58 | a binding without scopes is in scope exactly when the wildcard is active |
| Macros.NamedScopesExactly | leptos_hotkeys/src/macros.rs:60-106 | a binding with scopes is in scope exactly when one of them is active; the wildcard is not added |
| Macros.InitialScopes | leptos_hotkeys/src/macros.rs:1-106 | under any `scopes!` set, a default binding starts in scope and one naming other scopes starts out of it |
| LegacyMacros.UseHotkeys | src/macros.rs:35-110 | `use_hotkeys!` registers the combination with the older hook and the same scope list |
| LegacyMacros.UseHotkeysRef | src/macros.rs:112-187 | the reference binding passes `["*"]` without scopes and exactly the given list otherwise |
| LegacyMacros.DefaultProviderScopes | src/macros.rs:35-110 | under the provider's default scopes, a default binding is in scope and one naming only other scopes is not |
| Text.Lower | leptos_hotkeys/src/hotkey.rs:52 | ASCII lowercasing: every other character is kept |
| Text.Trim | leptos_hotkeys/src/hotkey.rs:45 | ASCII whitespace removed from both ends (Text.TrimIsTrimmed) |
| Text.Split | leptos_hotkeys/src/hotkey.rs:43-44 | the pieces between separators, as Rust's `split` yields them: at least one, empty pieces included, none holding the separator (Text.SplitPiecesFree) |
| Text.Join | leptos_hotkeys/src/types.rs:56-61 | pieces joined with the separator between them |
| Text.SplitJoin | leptos_hotkeys/src/types.rs:54-68 | splitting undoes joining when no piece holds the separator |
| Text.TrimLower | leptos_hotkeys/src/hotkey.rs:43-52 | trimming and ASCII case folding commute |
| Text.TrimIsTrimmed | leptos_hotkeys/src/hotkey.rs:43-46 | a trimmed part has no whitespace at either end |

## Left out

- Listener plumbing is host I/O and is not modelled. This covers `add_event_listener`, `remove_event_listener`, `Closure::wrap`, `on_load`, `on_cleanup`, `element.on`, and what happens when an element or context is torn down. Only the effect of each event on the state is modelled.
- Leptos reactivity is not modelled. Signals, effects and tracked or untracked reads become the explicit `Notifies` predicates and the `Calls` and `Triggered` counts.
- The callback is not modelled, so neither is the re-entrancy of a callback that changes scopes.
- Debug logging and console output (`cfg(feature = "debug")`) have no effect on state and are left out.
- The `use_hotkeys_context` panic when no context is provided is not modelled. Every model operation takes its context explicitly.
- The `ssr` feature, which compiles the engine out, is not modelled.
- The `web_sys::KeyboardEvent` value is reduced to its `key`, its `code` and an identity handle.
- Text.Lower: folds ASCII letters only, not full Unicode `to_lowercase`.
- Text.Trim: strips ASCII whitespace only, not every Unicode White_Space character.
- The older crate's `Hotkey` (src/types.rs:22-28) is modelled by the newer `Types.Hotkey`, without its `description` field: `parse_key` never sets that field (src/use_hotkeys.rs:32), so the older crate does not type-check there either, and every parse would carry the same description.
- The rest of src/types.rs, the lib.rs and prelude.rs re-exports, the demo applications and tailwind.config.js are not part of this model.
- KeyState.Release: the shown context.rs keeps no last key, so the rule that keyup clears the last key only when it is the released id is this model's choice.
- LegacyDispatch.IsHotkeyMatch: src/use_hotkeys.rs:54-63 does not type-check as written. The model gives the evident intent: `all` over the keys, with `prevent_default` on each key visited.
- LegacyDispatch.HotkeyRef.DeliverKeyPress: counts callback runs only, and does not return the prevented events of each listener's run.
- The node-less arms of `use_hotkeys_ref!` (leptos_hotkeys/src/macros.rs:163-185) call `use_hotkeys_ref` without a node reference, which does not match its signature. Only the arms with a node reference are modelled.
- `scopes!` of src/macros.rs builds a `HashSet` where leptos_hotkeys/src/macros.rs builds a `BTreeSet`. Both are the same set of strings, modelled once by `Macros.ScopesMacro`.
- The iteration order of the `HashSet` of alternatives is not modelled: it is the parameter `order`.
