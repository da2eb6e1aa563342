/** The patched pyglet integration of `codememo/_patches.py`: modifier-key
    flags, the `keys_down` table, the extra TAB symbol and the renderer choice
    by pyglet version. */
module Patches {
  import opened Wrappers
  import Text

  // Key symbols and modifier bits of pyglet's `pyglet.window.key`.
  const LSHIFT: int := 0xffe1
  const RSHIFT: int := 0xffe2
  const LCTRL: int := 0xffe3
  const RCTRL: int := 0xffe4
  const LALT: int := 0xffe9
  const RALT: int := 0xffea
  const LCOMMAND: int := 0xffed
  const RCOMMAND: int := 0xffee
  const TAB: int := 0xff09
  // Bit positions of MOD_SHIFT, MOD_CTRL, MOD_ALT and MOD_COMMAND.
  const SHIFT_BIT: nat := 0
  const CTRL_BIT: nat := 1
  const ALT_BIT: nat := 2
  const COMMAND_BIT: nat := 6

  /** The additional key symbol the patch maps to the same imgui key as TAB. */
  const EXTRA_TAB_SYMBOL: int := 98784247808

  function Pow2(n: nat): (p: nat)
    ensures p >= 1
  {
    if n == 0 then 1 else 2 * Pow2(n - 1)
  }

  /** `mods & (1 << bit)` is non-zero. */
  predicate HasBit(mods: nat, bit: nat) {
    (mods / Pow2(bit)) % 2 == 1
  }

  /** The four modifier flags of imgui's IO. */
  datatype Modifiers = Modifiers(ctrl: bool, super: bool, alt: bool, shift: bool)

  /** Names for the four flags, so that one formula covers all of them. */
  datatype Flag = Ctrl | Super | Alt | Shift

  function Get(m: Modifiers, f: Flag): bool {
    match f
    case Ctrl => m.ctrl
    case Super => m.super
    case Alt => m.alt
    case Shift => m.shift
  }

  /** The symbol is the left or right key of the flag's modifier. */
  predicate IsKeyOf(symbol: int, f: Flag) {
    match f
    case Ctrl => symbol == LCTRL || symbol == RCTRL
    case Super => symbol == LCOMMAND || symbol == RCOMMAND
    case Alt => symbol == LALT || symbol == RALT
    case Shift => symbol == LSHIFT || symbol == RSHIFT
  }

  function BitOf(f: Flag): nat {
    match f
    case Ctrl => CTRL_BIT
    case Super => COMMAND_BIT
    case Alt => ALT_BIT
    case Shift => SHIFT_BIT
  }

  /** New value of one flag on key press: "Y OR Z" (the previous state X is not used). */
  function PressFlag(isModifierKey: bool, inMods: bool): bool {
    isModifierKey || inMods
  }

  /** New value of one flag on key release: "(NOT Y) AND (X OR Z)". */
  function ReleaseFlag(prev: bool, isModifierKey: bool, inMods: bool): bool {
    !isModifierKey && (inMods || prev)
  }

  function PressOne(f: Flag, symbol: int, mods: nat): bool {
    PressFlag(IsKeyOf(symbol, f), HasBit(mods, BitOf(f)))
  }

  function ReleaseOne(m: Modifiers, f: Flag, symbol: int, mods: nat): bool {
    ReleaseFlag(Get(m, f), IsKeyOf(symbol, f), HasBit(mods, BitOf(f)))
  }

  /** `_on_mods_press(symbol, mods)`. */
  function PressUpdate(symbol: int, mods: nat): (r: Modifiers)
    ensures forall f :: Get(r, f) == PressOne(f, symbol, mods)
  {
    Modifiers(PressOne(Ctrl, symbol, mods), PressOne(Super, symbol, mods),
              PressOne(Alt, symbol, mods), PressOne(Shift, symbol, mods))
  }

  /** `_on_mods_release(symbol, mods)`. */
  function ReleaseUpdate(m: Modifiers, symbol: int, mods: nat): (r: Modifiers)
    ensures forall f :: Get(r, f) == ReleaseOne(m, f, symbol, mods)
  {
    Modifiers(ReleaseOne(m, Ctrl, symbol, mods), ReleaseOne(m, Super, symbol, mods),
              ReleaseOne(m, Alt, symbol, mods), ReleaseOne(m, Shift, symbol, mods))
  }

  /** The truth table in the doc comment of `_on_mods_press`, rows (X, Y, Z, X'). */
  const PRESS_TABLE: seq<(bool, bool, bool, bool)> := [
    (false, false, false, false), (false, false, true, true),
    (false, true, false, true),   (false, true, true, true),
    (true, false, false, false),  (true, false, true, true),
    (true, true, false, true),    (true, true, true, true)]

  /** The boolean table in the doc comment of `_on_mods_release`, rows (X, Y, Z, X'). */
  const RELEASE_TABLE: seq<(bool, bool, bool, bool)> := [
    (false, false, false, false), (false, false, true, true),
    (false, true, false, false),  (false, true, true, false),
    (true, false, false, true),   (true, false, true, true),
    (true, true, false, false),   (true, true, true, false)]

  /** The row of both tables that holds the inputs (X, Y, Z). */
  function Row(x: bool, y: bool, z: bool): (k: nat)
    ensures k < 8
  {
    (if x then 4 else 0) + (if y then 2 else 0) + (if z then 1 else 0)
  }

  /** Every combination (X, Y, Z) has its row in both documented tables, and
      the flag formulas give the row's X'. */
  lemma FlagsMatchDocumentedTables(x: bool, y: bool, z: bool)
    ensures PRESS_TABLE[Row(x, y, z)].0 == x && PRESS_TABLE[Row(x, y, z)].1 == y && PRESS_TABLE[Row(x, y, z)].2 == z
    ensures RELEASE_TABLE[Row(x, y, z)].0 == x && RELEASE_TABLE[Row(x, y, z)].1 == y && RELEASE_TABLE[Row(x, y, z)].2 == z
    ensures PressFlag(y, z) == PRESS_TABLE[Row(x, y, z)].3
    ensures ReleaseFlag(x, y, z) == RELEASE_TABLE[Row(x, y, z)].3
  {
  }

  /** Pressing a modifier's own key, or holding its bit in `mods`, sets its
      flag; otherwise the flag is cleared, whatever it was before. */
  lemma PressSetsFlag(symbol: int, mods: nat, f: Flag)
    ensures Get(PressUpdate(symbol, mods), f) <==> IsKeyOf(symbol, f) || HasBit(mods, BitOf(f))
  {
  }

  /** Releasing a modifier's own key always clears its flag, whatever `mods` says;
      releasing any other key keeps a set flag and sets a cleared one whose bit
      is in `mods`. */
  lemma ReleaseClearsOwnFlag(m: Modifiers, symbol: int, mods: nat, f: Flag)
    ensures IsKeyOf(symbol, f) ==> !Get(ReleaseUpdate(m, symbol, mods), f)
    ensures !IsKeyOf(symbol, f) ==> Get(ReleaseUpdate(m, symbol, mods), f) == (Get(m, f) || HasBit(mods, BitOf(f)))
  {
  }

  /** Each flag's release update reads only that flag, its own two keys and
      its own bit: two states agreeing on those give the same new flag. */
  lemma ReleaseFlagsIndependent(m1: Modifiers, m2: Modifiers, s1: int, s2: int, mods1: nat, mods2: nat, f: Flag)
    requires Get(m1, f) == Get(m2, f)
    requires IsKeyOf(s1, f) <==> IsKeyOf(s2, f)
    requires HasBit(mods1, BitOf(f)) <==> HasBit(mods2, BitOf(f))
    ensures Get(ReleaseUpdate(m1, s1, mods1), f) == Get(ReleaseUpdate(m2, s2, mods2), f)
  {
  }

  /** The left and right keys of different modifiers are different symbols,
      and the four modifier bits are different, so a key event touches only
      its own modifier's flag. */
  lemma ModifierKeysDisjoint(symbol: int, f: Flag, g: Flag)
    requires IsKeyOf(symbol, f) && IsKeyOf(symbol, g)
    ensures f == g
  {
  }

  /** `REVERSE_KEY_MAP.update({98784247808: REVERSE_KEY_MAP[key.TAB]})`;
      `None` stands for the `KeyError` raised when TAB is not mapped. */
  function ExtendReverseKeyMap(base: map<int, int>): (r: Option<map<int, int>>)
    ensures r.Some? <==> TAB in base
    ensures r.Some? ==> EXTRA_TAB_SYMBOL in r.value && r.value[EXTRA_TAB_SYMBOL] == base[TAB]
    ensures r.Some? ==> r.value.Keys == base.Keys + {EXTRA_TAB_SYMBOL}
    ensures r.Some? ==> forall s :: s in base && s != EXTRA_TAB_SYMBOL ==> r.value[s] == base[s]
  {
    if TAB in base then Some(base[EXTRA_TAB_SYMBOL := base[TAB]]) else None
  }

  /** The part of imgui's IO object the patch writes. */
  class ImguiIO {
    var keyCtrl: bool
    var keySuper: bool
    var keyAlt: bool
    var keyShift: bool
    var keysDown: map<int, bool>

    function Mods(): Modifiers
      reads this
    {
      Modifiers(keyCtrl, keySuper, keyAlt, keyShift)
    }

    constructor (keysDown: map<int, bool>)
      ensures Mods() == Modifiers(false, false, false, false) && this.keysDown == keysDown
    {
      keyCtrl, keySuper, keyAlt, keyShift := false, false, false, false;
      this.keysDown := keysDown;
    }
  }

  class PygletMixin {
    const io: ImguiIO
    const reverseKeyMap: map<int, int>

    constructor (io: ImguiIO, reverseKeyMap: map<int, int>)
      ensures this.io == io && this.reverseKeyMap == reverseKeyMap
    {
      this.io := io;
      this.reverseKeyMap := reverseKeyMap;
    }

    /** `_on_mods_press`: each flag becomes the formula of `PressOne`. */
    method OnModsPress(symbol: int, mods: nat)
      modifies io`keyCtrl, io`keySuper, io`keyAlt, io`keyShift
      ensures io.Mods() == PressUpdate(symbol, mods)
    {
      var m := PressUpdate(symbol, mods);
      io.keyCtrl, io.keySuper, io.keyAlt, io.keyShift := m.ctrl, m.super, m.alt, m.shift;
    }

    /** `_on_mods_release`: each flag becomes the formula of `ReleaseOne` on its old value. */
    method OnModsRelease(symbol: int, mods: nat)
      modifies io`keyCtrl, io`keySuper, io`keyAlt, io`keyShift
      ensures io.Mods() == ReleaseUpdate(old(io.Mods()), symbol, mods)
    {
      var m := ReleaseUpdate(io.Mods(), symbol, mods);
      io.keyCtrl, io.keySuper, io.keyAlt, io.keyShift := m.ctrl, m.super, m.alt, m.shift;
    }

    /** `on_key_press`: marks the mapped imgui key as down, then updates the flags. */
    method OnKeyPress(symbol: int, mods: nat)
      modifies io
      ensures symbol in reverseKeyMap ==> io.keysDown == old(io.keysDown)[reverseKeyMap[symbol] := true]
      ensures symbol !in reverseKeyMap ==> io.keysDown == old(io.keysDown)
      ensures io.Mods() == PressUpdate(symbol, mods)
    {
      if symbol in reverseKeyMap {
        io.keysDown := io.keysDown[reverseKeyMap[symbol] := true];
      }
      OnModsPress(symbol, mods);
    }

    /** `on_key_release`: marks the mapped imgui key as up, then updates the flags. */
    method OnKeyRelease(symbol: int, mods: nat)
      modifies io
      ensures symbol in reverseKeyMap ==> io.keysDown == old(io.keysDown)[reverseKeyMap[symbol] := false]
      ensures symbol !in reverseKeyMap ==> io.keysDown == old(io.keysDown)
      ensures io.Mods() == ReleaseUpdate(old(io.Mods()), symbol, mods)
    {
      if symbol in reverseKeyMap {
        io.keysDown := io.keysDown[reverseKeyMap[symbol] := false];
      }
      OnModsRelease(symbol, mods);
    }
  }

  // Version test of `create_renderer` -------------------------------------

  datatype Pipeline = FixedPipeline | ProgrammablePipeline

  /** `[int(v) for v in parts]`; `None` when some part is not an integer. */
  function ParseAll(parts: seq<string>): (r: Option<seq<int>>)
    ensures r.Some? ==> |r.value| == |parts|
    ensures r.Some? ==> forall k :: 0 <= k < |parts| ==> Text.ParseInt(parts[k]) == Some(r.value[k])
    ensures r.None? ==> exists k :: 0 <= k < |parts| && Text.ParseInt(parts[k]).None?
  {
    if parts == [] then Some([])
    else
      match (Text.ParseInt(parts[0]), ParseAll(parts[1..]))
      case (Some(v), Some(vs)) => Some([v] + vs)
      case (None, _) => None
      case (_, None) =>
        assert exists k :: 0 <= k < |parts[1..]| && Text.ParseInt(parts[1..][k]).None?;
        var k :| 0 <= k < |parts[1..]| && Text.ParseInt(parts[1..][k]).None?;
        assert Text.ParseInt(parts[k + 1]).None?;
        None
  }

  /** `_convert_version_string_to_tuple(ver)`; `None` stands for the `ValueError`. */
  function ConvertVersionStringToTuple(ver: string): Option<seq<int>> {
    ParseAll(Text.Split(ver, '.'))
  }

  /** Python's lexicographic `<` on tuples of integers. */
  predicate TupleLess(a: seq<int>, b: seq<int>)
    decreases |a|
  {
    if a == [] then b != []
    else if b == [] then false
    else if a[0] != b[0] then a[0] < b[0]
    else TupleLess(a[1..], b[1..])
  }

  /** The renderer `create_renderer` picks for a pyglet version string. */
  function ChooseRenderer(ver: string): Option<Pipeline> {
    match ConvertVersionStringToTuple(ver)
    case None => None
    case Some(t) => Some(if TupleLess(t, [2, 0]) then FixedPipeline else ProgrammablePipeline)
  }

  /** Three dot-free pieces joined by dots split back into those pieces. */
  lemma SplitThree(x: string, y: string, z: string)
    requires '.' !in x && '.' !in y && '.' !in z
    ensures Text.Split(x + "." + y + "." + z, '.') == [x, y, z]
  {
    assert x + "." + y + "." + z == x + ['.'] + (y + ['.'] + z);
    Text.SplitConcat(x, '.', y + ['.'] + z);
    Text.SplitConcat(y, '.', z);
    Text.SplitWithoutSeparator(z, '.');
  }

  /** Three decimal components separated by dots convert to the tuple of their values. */
  lemma ConvertThreeComponents(a: nat, b: nat, c: nat)
    ensures ConvertVersionStringToTuple(Text.NatToString(a) + "." + Text.NatToString(b) + "." + Text.NatToString(c)) == Some([a, b, c])
  {
    var sa, sb, sc := Text.NatToString(a), Text.NatToString(b), Text.NatToString(c);
    Text.ParseNatToString(a);
    Text.ParseNatToString(b);
    Text.ParseNatToString(c);
    Text.ParsedHasNoDot(sa);
    Text.ParsedHasNoDot(sb);
    Text.ParsedHasNoDot(sc);
    SplitThree(sa, sb, sc);
    ParseAllOfParsed([sa, sb, sc], [a, b, c]);
  }

  /** A list of pieces that each parse converts to the list of their values. */
  lemma {:induction false} ParseAllOfParsed(parts: seq<string>, vs: seq<int>)
    requires |parts| == |vs|
    requires forall k :: 0 <= k < |parts| ==> Text.ParseInt(parts[k]) == Some(vs[k])
    ensures ParseAll(parts) == Some(vs)
  {
    if parts != [] {
      ParseAllOfParsed(parts[1..], vs[1..]);
      assert vs == [vs[0]] + vs[1..];
    }
  }

  /** A version tuple is below `(2, 0)` exactly when its major number is
      below 2, or it is `(2,)`, or its minor number is negative. */
  lemma TupleLessTwoZero(t: seq<int>)
    requires |t| >= 1
    ensures TupleLess(t, [2, 0]) <==> t[0] < 2 || (t[0] == 2 && (|t| == 1 || t[1] < 0))
  {
    if t[0] == 2 {
      assert t[1..] != [] ==> TupleLess(t[1..], [0]) == (t[1] < 0 || (t[1] == 0 && TupleLess(t[2..], [])));
    }
  }

  /** For a version `a.b.c` the fixed-function pipeline is chosen exactly when `a < 2`. */
  lemma FixedPipelineIffMajorBelowTwo(a: nat, b: nat, c: nat)
    ensures ChooseRenderer(Text.NatToString(a) + "." + Text.NatToString(b) + "." + Text.NatToString(c))
      == Some(if a < 2 then FixedPipeline else ProgrammablePipeline)
  {
    ConvertThreeComponents(a, b, c);
    TupleLessTwoZero([a, b, c]);
  }

  /** The tuple order is irreflexive and total on distinct tuples. */
  lemma {:induction false} TupleLessStrictTotal(a: seq<int>, b: seq<int>)
    ensures !TupleLess(a, a)
    ensures a != b ==> TupleLess(a, b) || TupleLess(b, a)
    ensures !(TupleLess(a, b) && TupleLess(b, a))
    decreases |a|
  {
    if a != [] && b != [] {
      TupleLessStrictTotal(a[1..], b[1..]);
      if a[0] == b[0] && a != b {
        assert a == [a[0]] + a[1..] && b == [b[0]] + b[1..];
      }
    } else if a != [] {
      TupleLessStrictTotal(a[1..], a[1..]);
    }
  }
}
