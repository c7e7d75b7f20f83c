/**
 * The data model shared by every parser and matcher (leptos_hotkeys/src/types.rs):
 * modifier flags, the Hotkey value, their textual display, and the older
 * `Hotkey::new` parser that this file still carries.
 */
module Types {
  import opened Text

  /** Which modifiers a hotkey requires; an unset flag means "don't care". */
  datatype KeyboardModifiers = KeyboardModifiers(alt: bool, ctrl: bool, meta: bool, shift: bool)

  /**
   * One parsed alternative of a key combination. `keys` is a vector: order
   * and duplicates are part of the value, and equality is structural.
   */
  datatype Hotkey = Hotkey(modifiers: KeyboardModifiers, keys: seq<string>)

  datatype Flag = Alt | Ctrl | Meta | Shift

  /** What one `+`-separated part of a combination contributes. */
  datatype Token = Modifier(flag: Flag) | Key(name: string)

  /** `KeyboardModifiers::default()`. */
  function Default(): (m: KeyboardModifiers)
    ensures !m.alt && !m.ctrl && !m.meta && !m.shift
  {
    KeyboardModifiers(false, false, false, false)
  }

  function SetFlag(m: KeyboardModifiers, f: Flag): KeyboardModifiers {
    match f
    case Alt => m.(alt := true)
    case Ctrl => m.(ctrl := true)
    case Meta => m.(meta := true)
    case Shift => m.(shift := true)
  }

  // ---------------------------------------------------------------------
  // What a parser loop builds from its parts

  /** A flag is set exactly when some part named it. */
  function ModifiersOf(tokens: seq<Token>): KeyboardModifiers {
    KeyboardModifiers(Modifier(Alt) in tokens, Modifier(Ctrl) in tokens,
                      Modifier(Meta) in tokens, Modifier(Shift) in tokens)
  }

  /** A flag is set exactly when some part is that modifier. */
  lemma ModifiersOfFlag(tokens: seq<Token>, f: Flag)
    ensures IsSet(ModifiersOf(tokens), f) <==> Modifier(f) in tokens
  {
  }

  /** The literal keys, in the order the parts gave them. */
  function KeysOf(tokens: seq<Token>): seq<string>
    decreases |tokens|
  {
    if tokens == [] then []
    else
      var last := tokens[|tokens| - 1];
      KeysOf(tokens[..|tokens| - 1]) + (if last.Key? then [last.name] else [])
  }

  function Assemble(tokens: seq<Token>): Hotkey {
    Hotkey(ModifiersOf(tokens), KeysOf(tokens))
  }

  /** One more part: a modifier sets its flag, a key is pushed at the end. */
  lemma AssembleStep(tokens: seq<Token>, t: Token)
    ensures ModifiersOf(tokens + [t]) ==
            (if t.Modifier? then SetFlag(ModifiersOf(tokens), t.flag) else ModifiersOf(tokens))
    ensures KeysOf(tokens + [t]) == KeysOf(tokens) + (if t.Key? then [t.name] else [])
  {
    assert (tokens + [t])[..|tokens|] == tokens;
  }

  lemma {:induction false} KeysOfAppend(a: seq<Token>, b: seq<Token>)
    ensures KeysOf(a + b) == KeysOf(a) + KeysOf(b)
    decreases |b|
  {
    if b == [] {
      assert a + b == a;
    } else {
      var b' := b[..|b| - 1];
      assert (a + b)[..|a + b| - 1] == a + b';
      KeysOfAppend(a, b');
    }
  }

  /** The first part, then the rest: the form the parts are read in. */
  lemma KeysOfCons(t: Token, rest: seq<Token>)
    ensures KeysOf([t] + rest) == (if t.Key? then [t.name] else []) + KeysOf(rest)
  {
    KeysOfAppend([t], rest);
    assert [t][..0] == [];
  }

  /** Every key comes from a key part, and every key part gives a key. */
  lemma {:induction false} KeysOfMembers(tokens: seq<Token>, k: string)
    ensures k in KeysOf(tokens) <==> Key(k) in tokens
    decreases |tokens|
  {
    if tokens != [] {
      var init := tokens[..|tokens| - 1];
      KeysOfMembers(init, k);
      assert tokens == init + [tokens[|tokens| - 1]];
    }
  }

  /** Parts that are all modifiers contribute no keys. */
  lemma {:induction false} KeysOfModifiersOnly(tokens: seq<Token>)
    requires forall i :: 0 <= i < |tokens| ==> tokens[i].Modifier?
    ensures KeysOf(tokens) == []
    decreases |tokens|
  {
    if tokens != [] {
      KeysOfModifiersOnly(tokens[..|tokens| - 1]);
    }
  }

  /** Parts that are all keys contribute exactly their names. */
  lemma {:induction false} KeysOfKeysOnly(tokens: seq<Token>, names: seq<string>)
    requires |tokens| == |names|
    requires forall i :: 0 <= i < |tokens| ==> tokens[i] == Key(names[i])
    ensures KeysOf(tokens) == names
    decreases |tokens|
  {
    if tokens != [] {
      var n := |tokens| - 1;
      KeysOfKeysOnly(tokens[..n], names[..n]);
      assert names == names[..n] + [names[n]];
    }
  }

  /** What the tokens of `shift+r+meta` assemble to, in either parser. */
  lemma ShiftRMetaAssemble()
    ensures Assemble([Modifier(Shift), Key("r"), Modifier(Meta)]) == Hotkey(KeyboardModifiers(false, false, true, true), ["r"])
  {
    KeysOfCons(Modifier(Shift), [Key("r"), Modifier(Meta)]);
    KeysOfCons(Key("r"), [Modifier(Meta)]);
    KeysOfCons(Modifier(Meta), []);
    assert [Modifier(Meta)] + [] == [Modifier(Meta)];
    assert [Key("r")] + [Modifier(Meta)] == [Key("r"), Modifier(Meta)];
    assert [Modifier(Shift)] + [Key("r"), Modifier(Meta)] == [Modifier(Shift), Key("r"), Modifier(Meta)];
  }

  // ---------------------------------------------------------------------
  // Display (types.rs:13-35 and types.rs:54-68; hotkey.rs:13-27 is the same code)

  /** Position of a flag in the fixed display order Alt, Ctrl, Meta, Shift. */
  function Rank(f: Flag): nat {
    match f
    case Alt => 0
    case Ctrl => 1
    case Meta => 2
    case Shift => 3
  }

  predicate IsSet(m: KeyboardModifiers, f: Flag) {
    match f
    case Alt => m.alt
    case Ctrl => m.ctrl
    case Meta => m.meta
    case Shift => m.shift
  }

  function FlagName(f: Flag): string {
    match f
    case Alt => "Alt"
    case Ctrl => "Ctrl"
    case Meta => "Meta"
    case Shift => "Shift"
  }

  /** The set flags, each once, in the fixed order Alt, Ctrl, Meta, Shift. */
  function SetFlags(m: KeyboardModifiers): (flags: seq<Flag>)
    ensures forall f :: f in flags <==> IsSet(m, f)
    ensures forall i, j :: 0 <= i < j < |flags| ==> Rank(flags[i]) < Rank(flags[j])
    ensures |flags| == 0 <==> m == Default()
  {
    (if m.alt then [Alt] else []) + (if m.ctrl then [Ctrl] else []) +
    (if m.meta then [Meta] else []) + (if m.shift then [Shift] else [])
  }

  function Names(flags: seq<Flag>): (names: seq<string>)
    ensures |names| == |flags|
  {
    seq(|flags|, i requires 0 <= i < |flags| => FlagName(flags[i]))
  }

  lemma NamesAppend(a: seq<Flag>, b: seq<Flag>)
    ensures Names(a + b) == Names(a) + Names(b)
  {
  }

  /** The modifier string: empty when no flag is set, otherwise `+` and the set names joined by `+`. */
  function ModifiersDisplay(m: KeyboardModifiers): (s: string)
    ensures s == "" <==> m == Default()
    ensures s != "" ==> s[0] == '+'
  {
    var names := Names(SetFlags(m));
    if |names| == 0 then "" else "+" + Join(names, '+')
  }

  /** The names of the set flags, spelled out one flag at a time. */
  lemma NamesOfSetFlags(m: KeyboardModifiers)
    ensures Names(SetFlags(m)) == PushedNames(m)
  {
    var a := if m.alt then [Alt] else [];
    var c := if m.ctrl then [Ctrl] else [];
    var e := if m.meta then [Meta] else [];
    var h := if m.shift then [Shift] else [];
    assert Names(a) == (if m.alt then ["Alt"] else []);
    assert Names(c) == (if m.ctrl then ["Ctrl"] else []);
    assert Names(e) == (if m.meta then ["Meta"] else []);
    assert Names(h) == (if m.shift then ["Shift"] else []);
    NamesAppend(a, c);
    NamesAppend(a + c, e);
    NamesAppend(a + c + e, h);
  }

  function PushedNames(m: KeyboardModifiers): seq<string> {
    (if m.alt then ["Alt"] else []) + (if m.ctrl then ["Ctrl"] else []) +
    (if m.meta then ["Meta"] else []) + (if m.shift then ["Shift"] else [])
  }

  /** `impl Display for KeyboardModifiers`: pushes the set names, then joins them. */
  method FormatModifiers(m: KeyboardModifiers) returns (s: string)
    ensures s == ModifiersDisplay(m)
  {
    var modifiers: seq<string> := [];
    if m.alt {
      modifiers := modifiers + ["Alt"];
    }
    if m.ctrl {
      modifiers := modifiers + ["Ctrl"];
    }
    if m.meta {
      modifiers := modifiers + ["Meta"];
    }
    if m.shift {
      modifiers := modifiers + ["Shift"];
    }
    assert modifiers == PushedNames(m);
    NamesOfSetFlags(m);
    s := if |modifiers| == 0 then "" else "+" + Join(modifiers, '+');
  }

  /** `impl Display for Hotkey`: the keys joined by `+`, then the modifier string. */
  function HotkeyDisplay(h: Hotkey): string {
    var keys := Join(h.keys, '+');
    if |keys| == 0 then ModifiersDisplay(h.modifiers) else keys + ModifiersDisplay(h.modifiers)
  }

  /** With at least one key, the display is every key and then every modifier name, joined by `+`. */
  lemma HotkeyDisplayParts(h: Hotkey)
    requires |h.keys| >= 1
    ensures HotkeyDisplay(h) == Join(h.keys + Names(SetFlags(h.modifiers)), '+')
  {
    var names := Names(SetFlags(h.modifiers));
    if |names| == 0 {
      assert h.keys + names == h.keys;
    } else {
      JoinAppend(h.keys, names, '+');
    }
  }

  // ---------------------------------------------------------------------
  // The older parser, `Hotkey::new` in types.rs:70-101

  /** The only synonyms this parser knows; `controlleft` and the other side-specific names are not among them. */
  const LegacyCtrlNames: set<string> := {"control", "ctrl"}
  const LegacyAltNames: set<string> := {"alt", "option"}
  const LegacyMetaNames: set<string> := {"meta", "command", "cmd", "super", "win"}
  const LegacyShiftNames: set<string> := {"shift"}

  /** The match in the loop body, applied to a part that is already trimmed. */
  function Classify(part: string): Token {
    var lower := Lower(part);
    if lower in LegacyCtrlNames then Modifier(Ctrl)
    else if lower in LegacyAltNames then Modifier(Alt)
    else if lower in LegacyMetaNames then Modifier(Meta)
    else if lower in LegacyShiftNames then Modifier(Shift)
    else Key(lower)
  }

  /** Split on `+`, trim every part (a lone space becomes the empty key), classify. */
  function Tokens(combination: string): seq<Token> {
    var parts := Split(combination, '+');
    seq(|parts|, i requires 0 <= i < |parts| => Classify(Trim(parts[i])))
  }

  function Parse(combination: string): Hotkey {
    Assemble(Tokens(combination))
  }

  /** `Hotkey::new`: the loop over the parts, setting flags and pushing keys. */
  method New(combination: string) returns (h: Hotkey)
    ensures h == Parse(combination)
  {
    var parts := Split(combination, '+');
    ghost var tokens := Tokens(combination);
    var modifiers := Default();
    var keys: seq<string> := [];
    for i := 0 to |parts|
      invariant modifiers == ModifiersOf(tokens[..i])
      invariant keys == KeysOf(tokens[..i])
    {
      var part := Trim(parts[i]);
      var lower := Lower(part);
      if lower in LegacyCtrlNames {
        modifiers := modifiers.(ctrl := true);
      } else if lower in LegacyAltNames {
        modifiers := modifiers.(alt := true);
      } else if lower in LegacyMetaNames {
        modifiers := modifiers.(meta := true);
      } else if lower in LegacyShiftNames {
        modifiers := modifiers.(shift := true);
      } else {
        keys := keys + [lower];
      }
      AssembleStep(tokens[..i], tokens[i]);
      assert tokens[..i + 1] == tokens[..i] + [tokens[i]];
    }
    assert tokens[..|parts|] == tokens;
    h := Hotkey(modifiers, keys);
  }

  /** A flag is set exactly when some part was classified as that modifier. */
  lemma ParseFlags(combination: string, f: Flag)
    ensures IsSet(Parse(combination).modifiers, f) <==>
      exists i :: 0 <= i < |Split(combination, '+')| && Classify(Trim(Split(combination, '+')[i])) == Modifier(f)
  {
    var parts := Split(combination, '+');
    var tokens := Tokens(combination);
    ModifiersOfFlag(tokens, f);
    if Modifier(f) in tokens {
      var i :| 0 <= i < |tokens| && tokens[i] == Modifier(f);
      assert Classify(Trim(parts[i])) == Modifier(f);
    } else {
      forall i | 0 <= i < |parts|
        ensures Classify(Trim(parts[i])) != Modifier(f)
      {
        assert tokens[i] == Classify(Trim(parts[i]));
      }
    }
  }

  /** A key is in the result exactly when some part was classified as that key. */
  lemma ParseKeys(combination: string, k: string)
    ensures k in Parse(combination).keys <==>
      exists i :: 0 <= i < |Split(combination, '+')| && Classify(Trim(Split(combination, '+')[i])) == Key(k)
  {
    var parts := Split(combination, '+');
    var tokens := Tokens(combination);
    assert forall i :: 0 <= i < |parts| ==> tokens[i] == Classify(Trim(parts[i]));
    KeysOfMembers(tokens, k);
  }

  /** Parsing parts joined by `+` whose classifications are known. */
  lemma JoinedParts(parts: seq<string>, tokens: seq<Token>)
    requires |parts| >= 1 && |tokens| == |parts|
    requires forall i :: 0 <= i < |parts| ==> '+' !in parts[i]
    requires forall i :: 0 <= i < |parts| ==> Classify(Trim(parts[i])) == tokens[i]
    ensures Parse(Join(parts, '+')) == Assemble(tokens)
  {
    SplitJoin(parts, '+');
    assert seq(|parts|, i requires 0 <= i < |parts| => Classify(Trim(parts[i]))) == tokens;
  }

  lemma ShiftRMetaClassify()
    ensures Classify(Trim("shift")) == Modifier(Shift)
    ensures Classify(Trim("r")) == Key("r")
    ensures Classify(Trim("meta")) == Modifier(Meta)
  {
    assert Classify(Trim("shift")) == Modifier(Shift) by {
      TrimOfTrimmed("shift");
      assert Lower("shift") == "shift";
    }
    assert Classify(Trim("r")) == Key("r") by {
      TrimOfTrimmed("r");
      assert Lower("r") == "r";
    }
    assert Classify(Trim("meta")) == Modifier(Meta) by {
      TrimOfTrimmed("meta");
      assert Lower("meta") == "meta";
    }
  }

  /** `shift+r+meta`: shift and meta, and the one key `r`. */
  lemma ExampleShiftRMeta()
    ensures Parse("shift+r+meta") == Hotkey(KeyboardModifiers(false, false, true, true), ["r"])
  {
    ShiftRMetaClassify();
    ShiftRMetaAssemble();
    assert Join(["shift", "r", "meta"], '+') == "shift+r+meta";
    JoinedParts(["shift", "r", "meta"], [Modifier(Shift), Key("r"), Modifier(Meta)]);
  }

  /** A trimmed lowercase part that names no modifier is kept as a key. */
  lemma PlainKeyClassify(s: string)
    requires IsTrimmed(s) && IsLower(s)
    requires s !in LegacyCtrlNames && s !in LegacyAltNames && s !in LegacyMetaNames && s !in LegacyShiftNames
    ensures Classify(Trim(s)) == Key(s)
  {
    TrimOfTrimmed(s);
    LowerOfLower(s);
  }

  /** The side-specific names are no modifiers to this parser: each is kept as a key. */
  lemma SideNamesAreKeys(s: string)
    requires s in {"controlleft", "controlright", "altleft", "altright", "metaleft", "metaright", "shiftleft", "shiftright"}
    ensures Classify(Trim(s)) == Key(s)
  {
    assert |s| >= 7 && s[|s| - 4..] in {"left", "ight"};
    assert s !in LegacyCtrlNames && s !in LegacyAltNames && s !in LegacyMetaNames && s !in LegacyShiftNames;
    PlainKeyClassify(s);
  }

  /** There is no space bar case: a part that is one space trims to the empty key. */
  lemma LoneSpaceIsEmptyKey()
    ensures Parse(" ") == Hotkey(Default(), [""])
  {
    SplitNoSeparator(" ", '+');
    assert Trim(" ") == "" by {
      assert TrimStart(" ") == TrimStart(""); 
    }
    assert Tokens(" ") == [Key("")];
    assert [Key("")][..0] == [];
  }
}
