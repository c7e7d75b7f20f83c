/**
 * The combination parser and the matcher of leptos_hotkeys/src/hotkey.rs.
 */
module Hotkeys {
  import opened Wrappers
  import opened Text
  import opened Types
  import opened KeyState

  // ---------------------------------------------------------------------
  // Parsing (`impl FromStr for Hotkey`)

  /** The synonyms the parser maps to each modifier flag. */
  const CtrlSynonyms: set<string> := {"controlleft", "controlright", "ctrl", "control"}
  const AltSynonyms: set<string> := {"alt", "altleft", "altright", "option"}
  const MetaSynonyms: set<string> := {"metaleft", "metaright", "meta", "command", "cmd", "super", "win"}
  const ShiftSynonyms: set<string> := {"shiftleft", "shiftright", "shift"}

  /** The tokens that name the space bar, and the key id they all become. */
  const SpaceNames: set<string> := {"spacebar", "space", " "}
  const Spacebar: string := "spacebar"

  /** Every token the parser does not keep as a key of its own spelling. */
  predicate IsReserved(token: string) {
    token in CtrlSynonyms || token in AltSynonyms || token in MetaSynonyms ||
    token in ShiftSynonyms || token in SpaceNames
  }

  /** The `map` over the split parts: a part that is exactly one space is the space bar, any other is trimmed. */
  function Prepare(v: string): string {
    if v == " " then Spacebar else Trim(v)
  }

  /** The `match` on the lowercased part. */
  function Classify(part: string): Token {
    var lower := Lower(part);
    if lower in CtrlSynonyms then Modifier(Ctrl)
    else if lower in AltSynonyms then Modifier(Alt)
    else if lower in MetaSynonyms then Modifier(Meta)
    else if lower in ShiftSynonyms then Modifier(Shift)
    else if lower in SpaceNames then Key(Spacebar)
    else Key(lower)
  }

  function Tokens(combination: string): seq<Token> {
    var parts := Split(combination, '+');
    seq(|parts|, i requires 0 <= i < |parts| => Classify(Prepare(parts[i])))
  }

  /** The Hotkey that `from_str` builds. */
  function Parse(combination: string): Hotkey {
    Assemble(Tokens(combination))
  }

  /** One arm of the `match`: a synonym sets its flag, anything else is pushed as a key. */
  method MatchPart(modifiers: KeyboardModifiers, keys: seq<string>, part: string)
    returns (m: KeyboardModifiers, k: seq<string>)
    ensures var t := Classify(part);
      m == (if t.Modifier? then SetFlag(modifiers, t.flag) else modifiers) &&
      k == keys + (if t.Key? then [t.name] else [])
  {
    m, k := modifiers, keys;
    var lower := Lower(part);
    if lower in CtrlSynonyms {
      m := m.(ctrl := true);
    } else if lower in AltSynonyms {
      m := m.(alt := true);
    } else if lower in MetaSynonyms {
      m := m.(meta := true);
    } else if lower in ShiftSynonyms {
      m := m.(shift := true);
    } else if lower in SpaceNames {
      k := k + [Spacebar];
    } else {
      k := k + [Lower(lower)];
      LowerIdempotent(part);
    }
  }

  /** `from_str`: the loop over the parts; it has no error path. */
  method FromStr(combination: string) returns (r: Result<Hotkey, ()>)
    ensures r == Ok(Parse(combination))
  {
    var parts := Split(combination, '+');
    ghost var tokens := Tokens(combination);
    var modifiers := Default();
    var keys: seq<string> := [];
    for i := 0 to |parts|
      invariant modifiers == ModifiersOf(tokens[..i])
      invariant keys == KeysOf(tokens[..i])
    {
      var part := Prepare(parts[i]);
      assert tokens[i] == Classify(part);
      AssembleStep(tokens[..i], tokens[i]);
      modifiers, keys := MatchPart(modifiers, keys, part);
      assert tokens[..i + 1] == tokens[..i] + [tokens[i]];
    }
    assert tokens[..|parts|] == tokens;
    r := Ok(Hotkey(modifiers, keys));
  }

  /** `Hotkey::new`: unwraps `from_str`, which never fails, so it never panics. */
  method New(combination: string) returns (h: Hotkey)
    ensures h == Parse(combination)
  {
    var r := FromStr(combination);
    h := r.value;
  }

  // ---------------------------------------------------------------------
  // What parsing means

  /** The Hotkey built from parts that hold no `+`, given one by one. */
  function FromParts(parts: seq<string>): Hotkey {
    Assemble(seq(|parts|, i requires 0 <= i < |parts| => Classify(Prepare(parts[i]))))
  }

  predicate NoPlus(parts: seq<string>) {
    forall i :: 0 <= i < |parts| ==> '+' !in parts[i]
  }

  /** Parsing parts joined with `+` classifies each part on its own. */
  lemma ParseJoin(parts: seq<string>)
    requires |parts| >= 1 && NoPlus(parts)
    ensures Parse(Join(parts, '+')) == FromParts(parts)
  {
    SplitJoin(parts, '+');
  }

  /** A token already in lower case classifies as itself. */
  lemma ClassifyLower(token: string)
    requires IsLower(token)
    ensures Classify(token) ==
      if token in CtrlSynonyms then Modifier(Ctrl)
      else if token in AltSynonyms then Modifier(Alt)
      else if token in MetaSynonyms then Modifier(Meta)
      else if token in ShiftSynonyms then Modifier(Shift)
      else if token in SpaceNames then Key(Spacebar)
      else Key(token)
  {
    LowerOfLower(token);
  }

  /** Every synonym of a modifier sets that modifier's flag and contributes no key. */
  lemma CtrlSynonymsClassify(s: string)
    requires s in CtrlSynonyms
    ensures Classify(s) == Modifier(Ctrl)
  {
    ClassifyLower(s);
  }

  lemma AltSynonymsClassify(s: string)
    requires s in AltSynonyms
    ensures Classify(s) == Modifier(Alt)
  {
    ClassifyLower(s);
  }

  lemma MetaSynonymsClassify(s: string)
    requires s in MetaSynonyms
    ensures Classify(s) == Modifier(Meta)
  {
    ClassifyLower(s);
  }

  lemma ShiftSynonymsClassify(s: string)
    requires s in ShiftSynonyms
    ensures Classify(s) == Modifier(Shift)
  {
    ClassifyLower(s);
  }

  /** Every name of the space bar gives the one key `spacebar`. */
  lemma SpaceNamesClassify(s: string)
    requires s in SpaceNames
    ensures Classify(s) == Key(Spacebar)
  {
    ClassifyLower(s);
  }

  /**
   * Two parts that classify alike are interchangeable anywhere in a
   * combination, whatever the other parts are.
   */
  lemma PartSwap(parts: seq<string>, i: nat, a: string, b: string)
    requires |parts| >= 1 && NoPlus(parts) && i < |parts|
    requires '+' !in a && '+' !in b
    requires Classify(Prepare(a)) == Classify(Prepare(b))
    ensures Parse(Join(parts[i := a], '+')) == Parse(Join(parts[i := b], '+'))
  {
    ParseJoin(parts[i := a]);
    ParseJoin(parts[i := b]);
    var ta := seq(|parts|, j requires 0 <= j < |parts| => Classify(Prepare(parts[i := a][j])));
    var tb := seq(|parts|, j requires 0 <= j < |parts| => Classify(Prepare(parts[i := b][j])));
    assert ta == tb;
  }

  /** A modifier synonym is a plain word: no `+`, no surrounding space. */
  lemma SynonymIsWord(s: string)
    requires s in CtrlSynonyms || s in AltSynonyms || s in MetaSynonyms || s in ShiftSynonyms
    ensures '+' !in s && s != " " && IsTrimmed(s)
  {
  }

  /**
   * Two synonyms of the same modifier are interchangeable anywhere in a
   * combination: `cmd+k` and `command+k` are the same Hotkey.
   */
  lemma SynonymSwap(parts: seq<string>, i: nat, a: string, b: string)
    requires |parts| >= 1 && NoPlus(parts) && i < |parts|
    requires (a in CtrlSynonyms && b in CtrlSynonyms) || (a in AltSynonyms && b in AltSynonyms) ||
             (a in MetaSynonyms && b in MetaSynonyms) || (a in ShiftSynonyms && b in ShiftSynonyms)
    ensures Parse(Join(parts[i := a], '+')) == Parse(Join(parts[i := b], '+'))
  {
    SynonymIsWord(a);
    SynonymIsWord(b);
    TrimOfTrimmed(a);
    TrimOfTrimmed(b);
    if a in CtrlSynonyms && b in CtrlSynonyms {
      CtrlSynonymsClassify(a);
      CtrlSynonymsClassify(b);
    } else if a in AltSynonyms && b in AltSynonyms {
      AltSynonymsClassify(a);
      AltSynonymsClassify(b);
    } else if a in MetaSynonyms && b in MetaSynonyms {
      MetaSynonymsClassify(a);
      MetaSynonymsClassify(b);
    } else {
      ShiftSynonymsClassify(a);
      ShiftSynonymsClassify(b);
    }
    PartSwap(parts, i, a, b);
  }

  // ---------------------------------------------------------------------
  // The cases of the test table at the end of hotkey.rs

  /** Parsing parts joined by `+` whose classifications are known. */
  lemma JoinedParts(parts: seq<string>, tokens: seq<Token>)
    requires |parts| >= 1 && NoPlus(parts) && |tokens| == |parts|
    requires forall i :: 0 <= i < |parts| ==> Classify(Prepare(parts[i])) == tokens[i]
    ensures Parse(Join(parts, '+')) == Assemble(tokens)
  {
    ParseJoin(parts);
    assert seq(|parts|, i requires 0 <= i < |parts| => Classify(Prepare(parts[i]))) == tokens;
  }

  // Each case of the table is proved in three steps: how each literal part
  // classifies, what the resulting tokens assemble to, and the parse itself.

  lemma ShiftRMetaClassify()
    ensures Classify(Prepare("shift")) == Modifier(Shift)
    ensures Classify(Prepare("r")) == Key("r")
    ensures Classify(Prepare("meta")) == Modifier(Meta)
  {
    assert Classify(Prepare("shift")) == Modifier(Shift) by {
      TrimOfTrimmed("shift");
      ShiftSynonymsClassify("shift");
    }
    assert Classify(Prepare("r")) == Key("r") by {
      TrimOfTrimmed("r");
      ClassifyLower("r");
    }
    assert Classify(Prepare("meta")) == Modifier(Meta) by {
      TrimOfTrimmed("meta");
      MetaSynonymsClassify("meta");
    }
  }

  lemma ShiftRMetaJoin()
    ensures Join(["shift", "r", "meta"], '+') == "shift+r+meta"
    ensures NoPlus(["shift", "r", "meta"])
  {
    assert Join(["r", "meta"], '+') == "r+meta";
  }

  /** `shift+r+meta`: shift and meta, and the one key `r`. */
  lemma ExampleShiftRMeta()
    ensures Parse("shift+r+meta") == Hotkey(KeyboardModifiers(false, false, true, true), ["r"])
  {
    ShiftRMetaClassify();
    ShiftRMetaAssemble();
    ShiftRMetaJoin();
    JoinedParts(["shift", "r", "meta"], [Modifier(Shift), Key("r"), Modifier(Meta)]);
  }

  lemma AltOTClassify()
    ensures Classify(Prepare("alt ")) == Modifier(Alt)
    ensures Classify(Prepare(" o ")) == Key("o")
    ensures Classify(Prepare(" T")) == Key("t")
  {
    assert Classify(Prepare("alt ")) == Modifier(Alt) by {
      assert Prepare("alt ") == "alt";
      AltSynonymsClassify("alt");
    }
    assert Classify(Prepare(" o ")) == Key("o") by {
      assert Prepare(" o ") == "o";
      ClassifyLower("o");
    }
    assert Classify(Prepare(" T")) == Key("t") by {
      assert Prepare(" T") == "T";
      assert Lower("T") == "t";
      ClassifyLower("t");
    }
  }

  lemma AltOTAssemble()
    ensures Assemble([Modifier(Alt), Key("o"), Key("t")]) == Hotkey(KeyboardModifiers(true, false, false, false), ["o", "t"])
  {
    KeysOfCons(Modifier(Alt), [Key("o"), Key("t")]);
    KeysOfCons(Key("o"), [Key("t")]);
    KeysOfCons(Key("t"), []);
    assert [Key("t")] + [] == [Key("t")];
    assert [Key("o")] + [Key("t")] == [Key("o"), Key("t")];
    assert [Modifier(Alt)] + [Key("o"), Key("t")] == [Modifier(Alt), Key("o"), Key("t")];
  }

  lemma AltOTJoin()
    ensures Join(["alt ", " o ", " T"], '+') == "alt + o + T"
    ensures NoPlus(["alt ", " o ", " T"])
  {
    assert Join([" o ", " T"], '+') == " o + T";
  }

  /** `alt + o + T`: spaces around the parts are trimmed and `T` is folded to `t`. */
  lemma ExampleAltOT()
    ensures Parse("alt + o + T") == Hotkey(KeyboardModifiers(true, false, false, false), ["o", "t"])
  {
    AltOTClassify();
    AltOTAssemble();
    AltOTJoin();
    JoinedParts(["alt ", " o ", " T"], [Modifier(Alt), Key("o"), Key("t")]);
  }

  lemma ControlL88Classify()
    ensures Classify(Prepare("control")) == Modifier(Ctrl)
    ensures Classify(Prepare("L")) == Key("l")
    ensures Classify(Prepare(" 8 ")) == Key("8")
    ensures Classify(Prepare(" 8")) == Key("8")
  {
    assert Classify(Prepare("control")) == Modifier(Ctrl) by {
      TrimOfTrimmed("control");
      CtrlSynonymsClassify("control");
    }
    assert Classify(Prepare("L")) == Key("l") by {
      TrimOfTrimmed("L");
      assert Lower("L") == "l";
      ClassifyLower("l");
    }
    assert Classify(Prepare(" 8 ")) == Key("8") by {
      assert Prepare(" 8 ") == "8";
      ClassifyLower("8");
    }
    assert Classify(Prepare(" 8")) == Key("8") by {
      assert Prepare(" 8") == "8";
      ClassifyLower("8");
    }
  }

  lemma ControlL88Assemble()
    ensures Assemble([Modifier(Ctrl), Key("l"), Key("8"), Key("8")]) == Hotkey(KeyboardModifiers(false, true, false, false), ["l", "8", "8"])
  {
    KeysOfCons(Modifier(Ctrl), [Key("l"), Key("8"), Key("8")]);
    KeysOfCons(Key("l"), [Key("8"), Key("8")]);
    KeysOfCons(Key("8"), [Key("8")]);
    KeysOfCons(Key("8"), []);
    assert [Key("8")] + [] == [Key("8")];
    assert [Key("8")] + [Key("8")] == [Key("8"), Key("8")];
    assert [Key("l")] + [Key("8"), Key("8")] == [Key("l"), Key("8"), Key("8")];
    assert [Modifier(Ctrl)] + [Key("l"), Key("8"), Key("8")] == [Modifier(Ctrl), Key("l"), Key("8"), Key("8")];
  }

  lemma ControlL88Join()
    ensures Join(["control", "L", " 8 ", " 8"], '+') == "control+L+ 8 + 8"
    ensures NoPlus(["control", "L", " 8 ", " 8"])
  {
    assert Join([" 8 ", " 8"], '+') == " 8 + 8";
    assert Join(["L", " 8 ", " 8"], '+') == "L+ 8 + 8";
  }

  /** `control+L+ 8 + 8`: the repeated key is kept twice, in order. */
  lemma ExampleControlL88()
    ensures Parse("control+L+ 8 + 8") == Hotkey(KeyboardModifiers(false, true, false, false), ["l", "8", "8"])
  {
    ControlL88Classify();
    ControlL88Assemble();
    ControlL88Join();
    JoinedParts(["control", "L", " 8 ", " 8"], [Modifier(Ctrl), Key("l"), Key("8"), Key("8")]);
  }

  lemma ShiftCtrlAltTClassify()
    ensures Classify(Prepare("shift")) == Modifier(Shift)
    ensures Classify(Prepare("ctrl")) == Modifier(Ctrl)
    ensures Classify(Prepare("alt")) == Modifier(Alt)
    ensures Classify(Prepare("t")) == Key("t")
  {
    assert Classify(Prepare("shift")) == Modifier(Shift) by {
      TrimOfTrimmed("shift");
      ShiftSynonymsClassify("shift");
    }
    assert Classify(Prepare("ctrl")) == Modifier(Ctrl) by {
      TrimOfTrimmed("ctrl");
      CtrlSynonymsClassify("ctrl");
    }
    assert Classify(Prepare("alt")) == Modifier(Alt) by {
      TrimOfTrimmed("alt");
      AltSynonymsClassify("alt");
    }
    assert Classify(Prepare("t")) == Key("t") by {
      TrimOfTrimmed("t");
      ClassifyLower("t");
    }
  }

  lemma ShiftCtrlAltTAssemble()
    ensures Assemble([Modifier(Shift), Modifier(Ctrl), Modifier(Alt), Key("t")]) == Hotkey(KeyboardModifiers(true, true, false, true), ["t"])
  {
    KeysOfCons(Modifier(Shift), [Modifier(Ctrl), Modifier(Alt), Key("t")]);
    KeysOfCons(Modifier(Ctrl), [Modifier(Alt), Key("t")]);
    KeysOfCons(Modifier(Alt), [Key("t")]);
    KeysOfCons(Key("t"), []);
    assert [Key("t")] + [] == [Key("t")];
    assert [Modifier(Alt)] + [Key("t")] == [Modifier(Alt), Key("t")];
    assert [Modifier(Ctrl)] + [Modifier(Alt), Key("t")] == [Modifier(Ctrl), Modifier(Alt), Key("t")];
    assert [Modifier(Shift)] + [Modifier(Ctrl), Modifier(Alt), Key("t")] == [Modifier(Shift), Modifier(Ctrl), Modifier(Alt), Key("t")];
  }

  lemma ShiftCtrlAltTJoin()
    ensures Join(["shift", "ctrl", "alt", "t"], '+') == "shift+ctrl+alt+t"
    ensures NoPlus(["shift", "ctrl", "alt", "t"])
  {
    assert Join(["alt", "t"], '+') == "alt+t";
    assert Join(["ctrl", "alt", "t"], '+') == "ctrl+alt+t";
  }

  lemma ShiftCtrlAltTTokens()
    ensures Parse("shift+ctrl+alt+t") == Assemble([Modifier(Shift), Modifier(Ctrl), Modifier(Alt), Key("t")])
  {
    ShiftCtrlAltTClassify();
    ShiftCtrlAltTJoin();
    JoinedParts(["shift", "ctrl", "alt", "t"], [Modifier(Shift), Modifier(Ctrl), Modifier(Alt), Key("t")]);
  }

  /** `shift+ctrl+alt+t`: three modifiers and one key. */
  lemma ExampleShiftCtrlAltT()
    ensures Parse("shift+ctrl+alt+t") == Hotkey(KeyboardModifiers(true, true, false, true), ["t"])
  {
    ShiftCtrlAltTTokens();
    ShiftCtrlAltTAssemble();
  }

  lemma MetaKParts(meta: string)
    requires meta == "command" || meta == "cmd"
    ensures Join([meta, "k"], '+') == meta + "+k"
    ensures Classify(Prepare(meta)) == Modifier(Meta)
    ensures Classify(Prepare("k")) == Key("k")
  {
    assert Classify(Prepare(meta)) == Modifier(Meta) by {
      TrimOfTrimmed(meta);
      MetaSynonymsClassify(meta);
    }
    assert Classify(Prepare("k")) == Key("k") by {
      TrimOfTrimmed("k");
      ClassifyLower("k");
    }
  }

  lemma MetaKAssemble()
    ensures Assemble([Modifier(Meta), Key("k")]) == Hotkey(KeyboardModifiers(false, false, true, false), ["k"])
  {
    KeysOfCons(Modifier(Meta), [Key("k")]);
    KeysOfCons(Key("k"), []);
    assert [Key("k")] + [] == [Key("k")];
    assert [Modifier(Meta)] + [Key("k")] == [Modifier(Meta), Key("k")];
  }

  /** `command+k`: the macOS spelling sets meta. */
  lemma ExampleCommandK()
    ensures Parse("command+k") == Hotkey(KeyboardModifiers(false, false, true, false), ["k"])
  {
    MetaKParts("command");
    MetaKAssemble();
    assert "command" + "+k" == "command+k";
    JoinedParts(["command", "k"], [Modifier(Meta), Key("k")]);
  }

  /** `cmd+k`: the short macOS spelling gives the same Hotkey. */
  lemma ExampleCmdK()
    ensures Parse("cmd+k") == Hotkey(KeyboardModifiers(false, false, true, false), ["k"])
  {
    MetaKParts("cmd");
    MetaKAssemble();
    assert "cmd" + "+k" == "cmd+k";
    JoinedParts(["cmd", "k"], [Modifier(Meta), Key("k")]);
  }

  // ---------------------------------------------------------------------
  // The space bar

  lemma SpaceParts(v: string)
    requires v == " " || v == "space" || v == "spacebar"
    ensures Split(v, '+') == [v]
    ensures Classify(Prepare(v)) == Key(Spacebar)
  {
    SplitNoSeparator(v, '+');
    if v == " " {
      assert Prepare(v) == Spacebar;
      SpaceNamesClassify(Spacebar);
    } else {
      TrimOfTrimmed(v);
      SpaceNamesClassify(v);
    }
  }

  /** A lone space, `space` and `spacebar` all give the one key `spacebar`. */
  lemma SpaceIsSpacebar(v: string)
    requires v == " " || v == "space" || v == "spacebar"
    ensures Parse(v) == Hotkey(Default(), [Spacebar])
  {
    SpaceParts(v);
    assert Tokens(v) == [Key(Spacebar)];
    KeysOfCons(Key(Spacebar), []);
    assert [Key(Spacebar)] + [] == [Key(Spacebar)];
  }

  // ---------------------------------------------------------------------
  // Case folding

  /** Classification only looks at the lowercased part. */
  lemma ClassifyByLower(part: string)
    ensures Classify(Lower(part)) == Classify(part)
  {
    LowerIdempotent(part);
  }

  lemma PrepareLower(part: string)
    ensures Classify(Prepare(Lower(part))) == Classify(Prepare(part))
  {
    LowerIsSpace(part);
    if part != " " {
      TrimLower(part);
      ClassifyByLower(Trim(part));
    }
  }

  /** Parsing ignores case: a combination and its lowercase form are the same Hotkey. */
  lemma ParseIgnoresCase(combination: string)
    ensures Parse(Lower(combination)) == Parse(combination)
  {
    SplitLower(combination, '+');
    var parts := Split(combination, '+');
    var lowered := Split(Lower(combination), '+');
    forall i | 0 <= i < |parts|
      ensures Classify(Prepare(lowered[i])) == Classify(Prepare(parts[i]))
    {
      PrepareLower(parts[i]);
    }
    assert Tokens(Lower(combination)) == Tokens(combination);
  }

  // ---------------------------------------------------------------------
  // The keys a parse produces

  /**
   * A key as the parser leaves it: lowercase, trimmed, free of `+`, and not a
   * modifier synonym or another spelling of the space bar.
   */
  predicate IsKeyName(k: string) {
    IsLower(k) && IsTrimmed(k) && '+' !in k && (k == Spacebar || !IsReserved(k))
  }

  lemma SpacebarIsKeyName()
    ensures IsKeyName(Spacebar)
  {
  }

  /** Where a key token comes from: the space bar, or the lowercased part itself. */
  lemma ClassifyKey(part: string, k: string)
    requires Classify(part) == Key(k)
    ensures k == Spacebar || (k == Lower(part) && !IsReserved(k))
  {
  }

  /** Every part of a combination gives a key name or a modifier. */
  lemma PartKeyName(part: string, k: string)
    requires '+' !in part
    requires Classify(Prepare(part)) == Key(k)
    ensures IsKeyName(k)
  {
    var x := Prepare(part);
    ClassifyKey(x, k);
    if k != Spacebar {
      assert part != " ";
      TrimIsTrimmed(part);
      TrimKeepsOut(part, '+');
      LowerTrimmed(x);
      LowerKeepsOut(x, '+');
      LowerIsLower(x);
    }
  }

  /** Every key of a parsed Hotkey is a key name. */
  lemma ParsedKeysAreKeyNames(combination: string)
    ensures forall k :: k in Parse(combination).keys ==> IsKeyName(k)
  {
    var parts := Split(combination, '+');
    var tokens := Tokens(combination);
    SplitPiecesFree(combination, '+');
    forall k | k in Parse(combination).keys
      ensures IsKeyName(k)
    {
      KeysOfMembers(tokens, k);
      var i :| 0 <= i < |tokens| && tokens[i] == Key(k);
      PartKeyName(parts[i], k);
    }
  }

  // ---------------------------------------------------------------------
  // Display, then parse

  /** A key name reads back as itself. */
  lemma KeyNameClassify(k: string)
    requires IsKeyName(k)
    ensures Classify(Prepare(k)) == Key(k)
  {
    assert k != " ";
    TrimOfTrimmed(k);
    ClassifyLower(k);
    if k == Spacebar {
      SpaceNamesClassify(k);
    }
  }

  /** A combination without `+` is one part. */
  lemma TokensOfOne(v: string)
    requires '+' !in v
    ensures Tokens(v) == [Classify(Prepare(v))]
  {
    SplitNoSeparator(v, '+');
  }

  /** A lone key token assembles to that key and no modifier. */
  lemma AssembleOneKey(k: string)
    ensures Assemble([Key(k)]) == Hotkey(Default(), [k])
  {
    KeysOfCons(Key(k), []);
    assert [Key(k)] == [Key(k)] + [];
  }

  /** A combination that is one key name parses to that key and no modifier. */
  lemma SingleKeyParse(k: string)
    requires IsKeyName(k)
    ensures Parse(k) == Hotkey(Default(), [k])
  {
    TokensOfOne(k);
    KeyNameClassify(k);
    AssembleOneKey(k);
  }

  /** A displayed modifier name reads back as its modifier. */
  lemma FlagNameClassify(f: Flag)
    ensures Classify(Prepare(FlagName(f))) == Modifier(f)
  {
    var name := FlagName(f);
    TrimOfTrimmed(name);
    match f
    case Alt => assert Lower(name) == "alt";
    case Ctrl => assert Lower(name) == "ctrl";
    case Meta => assert Lower(name) == "meta";
    case Shift => assert Lower(name) == "shift";
  }

  function KeyTokens(keys: seq<string>): (tokens: seq<Token>)
    ensures |tokens| == |keys|
  {
    seq(|keys|, i requires 0 <= i < |keys| => Key(keys[i]))
  }

  function FlagTokens(flags: seq<Flag>): (tokens: seq<Token>)
    ensures |tokens| == |flags|
  {
    seq(|flags|, i requires 0 <= i < |flags| => Modifier(flags[i]))
  }

  /** The keys once each as keys, then the flags as modifiers, assemble to those keys and flags. */
  lemma AssembleKeysThenFlags(keys: seq<string>, flags: seq<Flag>)
    ensures Assemble(KeyTokens(keys) + FlagTokens(flags)) ==
            Hotkey(KeyboardModifiers(Alt in flags, Ctrl in flags, Meta in flags, Shift in flags), keys)
  {
    var kt := KeyTokens(keys);
    var ft := FlagTokens(flags);
    KeysOfAppend(kt, ft);
    KeysOfKeysOnly(kt, keys);
    KeysOfModifiersOnly(ft);
    forall f: Flag
      ensures Modifier(f) in kt + ft <==> f in flags
    {
      if f in flags {
        var j :| 0 <= j < |flags| && flags[j] == f;
        assert (kt + ft)[|kt| + j] == Modifier(f);
      }
    }
  }

  /** The parts of a display hold no `+`. */
  lemma DisplayPartsFree(keys: seq<string>, flags: seq<Flag>)
    requires forall i :: 0 <= i < |keys| ==> IsKeyName(keys[i])
    ensures forall i :: 0 <= i < |keys + Names(flags)| ==> '+' !in (keys + Names(flags))[i]
  {
    var parts := keys + Names(flags);
    forall i | 0 <= i < |parts|
      ensures '+' !in parts[i]
    {
      if i >= |keys| {
        assert parts[i] == FlagName(flags[i - |keys|]);
      }
    }
  }

  /** The parts of a display classify as the keys, then the flags. */
  lemma DisplayPartsClassify(keys: seq<string>, flags: seq<Flag>)
    requires forall i :: 0 <= i < |keys| ==> IsKeyName(keys[i])
    ensures var parts := keys + Names(flags);
      seq(|parts|, i requires 0 <= i < |parts| => Classify(Prepare(parts[i]))) == KeyTokens(keys) + FlagTokens(flags)
  {
    var parts := keys + Names(flags);
    var tokens := seq(|parts|, i requires 0 <= i < |parts| => Classify(Prepare(parts[i])));
    var expected := KeyTokens(keys) + FlagTokens(flags);
    forall i | 0 <= i < |parts|
      ensures tokens[i] == expected[i]
    {
      if i < |keys| {
        KeyNameClassify(keys[i]);
      } else {
        FlagNameClassify(flags[i - |keys|]);
      }
    }
  }

  /** The display of a Hotkey with keys, read part by part. */
  lemma DisplayTokens(h: Hotkey)
    requires |h.keys| >= 1
    requires forall i :: 0 <= i < |h.keys| ==> IsKeyName(h.keys[i])
    ensures Parse(HotkeyDisplay(h)) == Assemble(KeyTokens(h.keys) + FlagTokens(SetFlags(h.modifiers)))
  {
    var flags := SetFlags(h.modifiers);
    HotkeyDisplayParts(h);
    DisplayPartsFree(h.keys, flags);
    ParseJoin(h.keys + Names(flags));
    DisplayPartsClassify(h.keys, flags);
  }

  /**
   * The display of a Hotkey parses back to it, when it has at least one key and
   * every key is a key name (a modifier-only Hotkey does not: see
   * `ModifierOnlyDisplay`).
   */
  lemma DisplayRoundTrip(h: Hotkey)
    requires |h.keys| >= 1
    requires forall i :: 0 <= i < |h.keys| ==> IsKeyName(h.keys[i])
    ensures Parse(HotkeyDisplay(h)) == h
  {
    var flags := SetFlags(h.modifiers);
    DisplayTokens(h);
    AssembleKeysThenFlags(h.keys, flags);
    assert IsSet(h.modifiers, Alt) == (Alt in flags);
    assert IsSet(h.modifiers, Ctrl) == (Ctrl in flags);
    assert IsSet(h.modifiers, Meta) == (Meta in flags);
    assert IsSet(h.modifiers, Shift) == (Shift in flags);
  }

  /** Displaying a parsed Hotkey and parsing again gives it back, when it has a key. */
  lemma ParseDisplayParse(combination: string)
    requires |Parse(combination).keys| >= 1
    ensures Parse(HotkeyDisplay(Parse(combination))) == Parse(combination)
  {
    ParsedKeysAreKeyNames(combination);
    DisplayRoundTrip(Parse(combination));
  }

  /**
   * A Hotkey with modifiers and no keys displays as `+Ctrl` and the like,
   * which parses back with one empty key.
   */
  lemma ModifierOnlyDisplay(m: KeyboardModifiers)
    requires m != Default()
    ensures Parse(HotkeyDisplay(Hotkey(m, []))) == Hotkey(m, [""])
  {
    assert Join([], '+') == "";
    DisplayRoundTrip(Hotkey(m, [""]));
    assert Join([""], '+') == "";
  }

  // ---------------------------------------------------------------------
  // The last-key gate (`includes_key`, `is_last_key_match`)

  /** `iter().any(|k| k == key)`. */
  function AnyEqual(keys: seq<string>, key: string): (r: bool)
    ensures r <==> key in keys
    decreases |keys|
  {
    |keys| > 0 && (keys[0] == key || AnyEqual(keys[1..], key))
  }

  /** Whether the key is one of the Hotkey's literal keys; its modifiers do not count. */
  function IncludesKey(h: Hotkey, key: string): (r: bool)
    ensures r <==> key in h.keys
  {
    AnyEqual(h.keys, key)
  }

  /**
   * Whether the most recent keydown that is still held names a key, not a
   * modifier, of some alternative.
   */
  function IsLastKeyMatch(parsed: set<Hotkey>, presses: KeyPresses): (r: bool)
    ensures r <==> presses.lastKey.Some? && exists h :: h in parsed && presses.lastKey.value in h.keys
  {
    presses.lastKey.Some? && exists h :: h in parsed && IncludesKey(h, presses.lastKey.value)
  }

  /**
   * Pressing a modifier last never opens the gate for alternatives that came
   * out of the parser: their keys are never modifier synonyms.
   */
  lemma ModifierLastClosesGate(parsed: set<Hotkey>, presses: KeyPresses)
    requires forall h :: h in parsed ==> forall k :: k in h.keys ==> IsKeyName(k)
    requires presses.lastKey.Some?
    requires var k := presses.lastKey.value;
      k in CtrlSynonyms || k in AltSynonyms || k in MetaSynonyms || k in ShiftSynonyms
    ensures !IsLastKeyMatch(parsed, presses)
  {
    var k := presses.lastKey.value;
    assert k != Spacebar;
  }

  // ---------------------------------------------------------------------
  // The chord test (`is_hotkey_match`)

  /**
   * The pressed ids that satisfy each modifier flag. These are not the parser's
   * synonym sets: `ctrl` and `option` are missing.
   */
  const CtrlIds: set<string> := {"controlleft", "controlright", "control"}
  const ShiftIds: set<string> := {"shiftleft", "shiftright", "shift"}
  const MetaIds: set<string> := {"metaleft", "metaright", "meta", "command", "cmd", "super", "win"}
  const AltIds: set<string> := {"altleft", "altright", "alt"}
  function MatchNames(f: Flag): set<string> {
    match f
    case Ctrl => CtrlIds
    case Shift => ShiftIds
    case Meta => MetaIds
    case Alt => AltIds
  }

  predicate AnyHeld(names: set<string>, pressed: map<string, KeyboardEvent>) {
    names * pressed.Keys != {}
  }

  /** Some of the names is held. */
  lemma AnyHeldSome(names: set<string>, pressed: map<string, KeyboardEvent>)
    ensures AnyHeld(names, pressed) <==> exists n :: n in names && n in pressed
  {
    if exists n :: n in names && n in pressed {
      var n :| n in names && n in pressed;
      assert n in names * pressed.Keys;
    }
  }

  /** Every flag the Hotkey sets has one of its ids held; unset flags are not looked at. */
  predicate ModifiersMatch(m: KeyboardModifiers, pressed: map<string, KeyboardEvent>) {
    forall f: Flag :: IsSet(m, f) ==> AnyHeld(MatchNames(f), pressed)
  }

  predicate KeysHeld(keys: seq<string>, pressed: map<string, KeyboardEvent>) {
    forall i :: 0 <= i < |keys| ==> keys[i] in pressed
  }

  predicate Matches(h: Hotkey, pressed: map<string, KeyboardEvent>) {
    ModifiersMatch(h.modifiers, pressed) && KeysHeld(h.keys, pressed)
  }

  /** How many keys, from the front, are held before the first one that is not. */
  function HeldPrefix(keys: seq<string>, pressed: map<string, KeyboardEvent>): (n: nat)
    ensures n <= |keys|
    ensures forall i :: 0 <= i < n ==> keys[i] in pressed
    ensures n < |keys| ==> keys[n] !in pressed
    decreases |keys|
  {
    if |keys| == 0 || keys[0] !in pressed then 0 else 1 + HeldPrefix(keys[1..], pressed)
  }

  /** The events of the first `n` keys, all held. */
  function EventsOf(keys: seq<string>, pressed: map<string, KeyboardEvent>, n: nat): (evs: seq<KeyboardEvent>)
    requires n <= |keys| && forall i :: 0 <= i < n ==> keys[i] in pressed
    ensures |evs| == n
  {
    seq(n, i requires 0 <= i < n => pressed[keys[i]])
  }

  /**
   * The events `prevent_default` is called on: none when the modifiers do not
   * match, otherwise those of the keys the short-circuiting `all` visits and
   * finds held.
   */
  function MatchPrevented(h: Hotkey, pressed: map<string, KeyboardEvent>): seq<KeyboardEvent> {
    if ModifiersMatch(h.modifiers, pressed) then EventsOf(h.keys, pressed, HeldPrefix(h.keys, pressed)) else []
  }

  /** The flag tests folded with `&=`, then the `all` over the keys. */
  method IsHotkeyMatch(h: Hotkey, pressed: map<string, KeyboardEvent>) returns (matched: bool, prevented: seq<KeyboardEvent>)
    ensures matched == Matches(h, pressed)
    ensures prevented == MatchPrevented(h, pressed)
  {
    var modifiersMatch := true;
    if h.modifiers.ctrl {
      modifiersMatch := modifiersMatch && ("controlleft" in pressed || "controlright" in pressed || "control" in pressed);
    }
    if h.modifiers.shift {
      modifiersMatch := modifiersMatch && ("shiftleft" in pressed || "shiftright" in pressed || "shift" in pressed);
    }
    if h.modifiers.meta {
      modifiersMatch := modifiersMatch &&
        ("metaleft" in pressed || "metaright" in pressed || "meta" in pressed || "command" in pressed ||
         "cmd" in pressed || "super" in pressed || "win" in pressed);
    }
    if h.modifiers.alt {
      modifiersMatch := modifiersMatch && ("altleft" in pressed || "altright" in pressed || "alt" in pressed);
    }
    ModifierTests(h.modifiers, pressed);
    prevented := [];
    if modifiersMatch {
      var keysMatch := true;
      var i := 0;
      while i < |h.keys| && keysMatch
        invariant 0 <= i <= |h.keys|
        invariant keysMatch ==> i <= HeldPrefix(h.keys, pressed) && prevented == EventsOf(h.keys, pressed, i)
        invariant !keysMatch ==> 0 < i && HeldPrefix(h.keys, pressed) == i - 1 &&
                                 prevented == EventsOf(h.keys, pressed, i - 1)
      {
        var key := h.keys[i];
        if key in pressed {
          prevented := prevented + [pressed[key]];
        } else {
          keysMatch := false;
        }
        i := i + 1;
      }
      matched := modifiersMatch && keysMatch;
    } else {
      matched := false;
    }
  }

  /** The four flag tests, written out, are `ModifiersMatch`. */
  lemma ModifierTests(m: KeyboardModifiers, pressed: map<string, KeyboardEvent>)
    ensures ModifiersMatch(m, pressed) <==>
      (m.ctrl ==> "controlleft" in pressed || "controlright" in pressed || "control" in pressed) &&
      (m.shift ==> "shiftleft" in pressed || "shiftright" in pressed || "shift" in pressed) &&
      (m.meta ==> "metaleft" in pressed || "metaright" in pressed || "meta" in pressed || "command" in pressed ||
                  "cmd" in pressed || "super" in pressed || "win" in pressed) &&
      (m.alt ==> "altleft" in pressed || "altright" in pressed || "alt" in pressed)
  {
    assert IsSet(m, Ctrl) == m.ctrl && IsSet(m, Shift) == m.shift;
    assert IsSet(m, Meta) == m.meta && IsSet(m, Alt) == m.alt;
    AnyHeldSome(CtrlIds, pressed);
    AnyHeldSome(ShiftIds, pressed);
    AnyHeldSome(MetaIds, pressed);
    AnyHeldSome(AltIds, pressed);
  }

  /** HeldPrefix reaches the end exactly when every key is held. */
  lemma HeldPrefixFull(keys: seq<string>, pressed: map<string, KeyboardEvent>)
    ensures HeldPrefix(keys, pressed) == |keys| <==> KeysHeld(keys, pressed)
  {
  }

  /**
   * Once the modifiers match, every key's event is prevented, in order, exactly
   * when all keys are held; a missing key stops the prevention before it.
   */
  lemma PreventedOnMatch(h: Hotkey, pressed: map<string, KeyboardEvent>)
    requires ModifiersMatch(h.modifiers, pressed)
    ensures |MatchPrevented(h, pressed)| == |h.keys| <==> Matches(h, pressed)
    ensures forall i :: 0 <= i < |MatchPrevented(h, pressed)| ==>
      h.keys[i] in pressed && MatchPrevented(h, pressed)[i] == pressed[h.keys[i]]
  {
    HeldPrefixFull(h.keys, pressed);
  }

  /** Holding more keys never breaks a match: unset flags and extra keys are ignored. */
  lemma MatchIgnoresExtraKeys(h: Hotkey, pressed: map<string, KeyboardEvent>, more: map<string, KeyboardEvent>)
    requires pressed.Keys <= more.Keys
    requires Matches(h, pressed)
    ensures Matches(h, more)
  {
    forall f: Flag | IsSet(h.modifiers, f)
      ensures AnyHeld(MatchNames(f), more)
    {
      var n :| n in MatchNames(f) * pressed.Keys;
      assert n in MatchNames(f) * more.Keys;
    }
  }

  /** A Hotkey with no modifiers matches exactly when all its keys are held. */
  lemma NoModifiersMatchKeys(keys: seq<string>, pressed: map<string, KeyboardEvent>)
    ensures Matches(Hotkey(Default(), keys), pressed) <==> KeysHeld(keys, pressed)
  {
  }
}
