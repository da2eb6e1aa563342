/** Configuration sections of `codememo/config.py`: the recursive key check
    used when a configuration file is loaded, keyword arguments merged with
    defaults, and the dictionary written back. */
module Config {
  import opened Wrappers
  import Text

  /** A JSON value as `json.load` returns it; a dict keeps its items in order. */
  datatype Value =
    | Bool(b: bool)
    | Int(i: int)
    | Real(r: real)
    | Str(s: string)
    | List(elems: seq<Value>)
    | Dict(items: seq<(string, Value)>)

  datatype ConfigError = TypeError

  function Keys(items: seq<(string, Value)>): set<string> {
    if items == [] then {} else {items[0].0} + Keys(items[1..])
  }

  /** `d[k]` on a dict given by its items; `None` when `k` is missing. */
  function Lookup(items: seq<(string, Value)>, k: string): (r: Option<Value>)
    ensures r.Some? <==> k in Keys(items)
  {
    if items == [] then None
    else if items[0].0 == k then Some(items[0].1)
    else Lookup(items[1..], k)
  }

  /** Appending items never changes what an existing key looks up to. */
  lemma {:induction false} LookupAppend(items: seq<(string, Value)>, extra: seq<(string, Value)>, k: string)
    requires k in Keys(items)
    ensures Lookup(items + extra, k) == Lookup(items, k)
  {
    if items[0].0 != k {
      assert (items + extra)[1..] == items[1..] + extra;
      LookupAppend(items[1..], extra, k);
    }
  }

  // check_all_keys_exist ---------------------------------------------------

  /** `check_all_keys_exist(template, target)`; `Err(TypeError)` when either
      argument, or a nested target reached by the recursion, is not a dict. */
  function CheckAllKeysExist(template: Value, target: Value): Result<bool, ConfigError>
    decreases template, if template.Dict? then |template.items| + 1 else 0
  {
    if !template.Dict? || !target.Dict? then Err(TypeError)
    else CheckItemsFrom(template, target, 0)
  }

  /** The `for k, v in template.items()` loop, from the `i`-th item on. */
  function CheckItemsFrom(template: Value, target: Value, i: nat): Result<bool, ConfigError>
    requires template.Dict? && target.Dict? && i <= |template.items|
    decreases template, |template.items| - i
  {
    if i == |template.items| then Ok(true)
    else
      var (k, v) := template.items[i];
      match Lookup(target.items, k)
      case None => Ok(false)
      case Some(sub) =>
        if v.Dict? then
          match CheckAllKeysExist(v, sub)
          case Err(e) => Err(e)
          case Ok(found) => if !found then Ok(false) else CheckItemsFrom(template, target, i + 1)
        else CheckItemsFrom(template, target, i + 1)
  }

  /** The `j`-th template key is in the target, and a dict under it is covered in turn. */
  predicate EntryCovered(template: Value, target: Value, j: nat)
    requires template.Dict? && target.Dict? && j < |template.items|
    decreases template, 0
  {
    var (k, v) := template.items[j];
    k in Keys(target.items) && (v.Dict? ==> Covered(v, Lookup(target.items, k).value))
  }

  /** Every template entry from the `i`-th on is covered. */
  predicate EntriesFrom(template: Value, target: Value, i: nat)
    requires template.Dict? && target.Dict?
    decreases template, 1
  {
    forall j :: i <= j < |template.items| ==> EntryCovered(template, target, j)
  }

  /** Declarative reading of the check: both are dicts, and every entry of the
      template is covered by the target. */
  predicate Covered(template: Value, target: Value)
    decreases template, 2
  {
    template.Dict? && target.Dict? && EntriesFrom(template, target, 0)
  }

  /** The check returns `True` exactly when the template is covered. */
  lemma {:induction false} CheckIffCovered(template: Value, target: Value)
    ensures CheckAllKeysExist(template, target) == Ok(true) <==> Covered(template, target)
    decreases template, if template.Dict? then |template.items| + 1 else 0
  {
    if template.Dict? && target.Dict? {
      CheckFromIffCovered(template, target, 0);
    }
  }

  lemma {:induction false} CheckFromIffCovered(template: Value, target: Value, i: nat)
    requires template.Dict? && target.Dict? && i <= |template.items|
    ensures CheckItemsFrom(template, target, i) == Ok(true) <==> EntriesFrom(template, target, i)
    decreases template, |template.items| - i
  {
    if i < |template.items| {
      assert EntriesFrom(template, target, i) <==> EntryCovered(template, target, i) && EntriesFrom(template, target, i + 1);
      var k, v := template.items[i].0, template.items[i].1;
      CheckFromIffCovered(template, target, i + 1);
      if k in Keys(target.items) {
        var sub := Lookup(target.items, k).value;
        if v.Dict? {
          CheckIffCovered(v, sub);
          assert EntryCovered(template, target, i) <==> Covered(v, sub);
        } else {
          assert EntryCovered(template, target, i);
          assert CheckItemsFrom(template, target, i) == CheckItemsFrom(template, target, i + 1);
        }
      } else {
        assert !EntryCovered(template, target, i);
      }
    }
  }

  /** Keys the target has beyond the template's never make the check fail. */
  lemma ExtraKeysHarmless(template: Value, target: Value, extra: seq<(string, Value)>)
    requires target.Dict?
    requires CheckAllKeysExist(template, target) == Ok(true)
    ensures CheckAllKeysExist(template, Dict(target.items + extra)) == Ok(true)
  {
    CheckIffCovered(template, target);
    var bigger := Dict(target.items + extra);
    assert EntriesFrom(template, target, 0);
    forall j | 0 <= j < |template.items|
      ensures EntryCovered(template, bigger, j)
    {
      var k := template.items[j].0;
      assert EntryCovered(template, target, j);
      LookupAppend(target.items, extra, k);
    }
    assert EntriesFrom(template, bigger, 0);
    CheckIffCovered(template, bigger);
  }

  /** Template entries before `j` that are covered are passed over without changing the result. */
  lemma {:induction false} SkipCoveredEntries(template: Value, target: Value, i: nat, j: nat)
    requires template.Dict? && target.Dict? && i <= j <= |template.items|
    requires forall m :: i <= m < j ==> EntryCovered(template, target, m)
    ensures CheckItemsFrom(template, target, i) == CheckItemsFrom(template, target, j)
    decreases j - i
  {
    if i < j {
      var (k, v) := template.items[i];
      assert EntryCovered(template, target, i);
      if v.Dict? {
        CheckIffCovered(v, Lookup(target.items, k).value);
      }
      SkipCoveredEntries(template, target, i + 1, j);
    }
  }

  /** A template key whose value is a dict, met after covered entries, whose
      target value is not a dict raises `TypeError`; a missing key instead gives `False`. */
  lemma FirstFailingEntry(template: Value, target: Value, j: nat)
    requires template.Dict? && target.Dict? && j < |template.items|
    requires forall m :: 0 <= m < j ==> EntryCovered(template, target, m)
    ensures template.items[j].0 !in Keys(target.items) ==> CheckAllKeysExist(template, target) == Ok(false)
    ensures template.items[j].0 in Keys(target.items) && template.items[j].1.Dict?
      && !Lookup(target.items, template.items[j].0).value.Dict?
      ==> CheckAllKeysExist(template, target) == Err(TypeError)
  {
    SkipCoveredEntries(template, target, 0, j);
  }

  /** A template or a target that is not a dict raises `TypeError`. */
  lemma NonDictIsTypeError(template: Value, target: Value)
    requires !template.Dict? || !target.Dict?
    ensures CheckAllKeysExist(template, target) == Err(TypeError)
  {
  }

  /** No key occurs twice in an item list. */
  predicate DistinctKeys(items: seq<(string, Value)>) {
    forall i, j :: 0 <= i < j < |items| ==> items[i].0 != items[j].0
  }

  /** Every dict inside the value has distinct keys, as every dict `json.load` returns does. */
  predicate UniqueKeys(v: Value) {
    v.Dict? ==> DistinctKeys(v.items) && forall i :: 0 <= i < |v.items| ==> UniqueKeys(v.items[i].1)
  }

  /** With distinct keys each item is what its key looks up to. */
  lemma {:induction false} LookupDistinct(items: seq<(string, Value)>, i: nat)
    requires DistinctKeys(items) && i < |items|
    ensures Lookup(items, items[i].0) == Some(items[i].1)
  {
    if i > 0 {
      assert items[i].0 != items[0].0;
      assert items[1..][i - 1] == items[i];
      LookupDistinct(items[1..], i - 1);
    }
  }

  /** A well-formed dict is covered by itself. */
  lemma {:induction false} CoveredReflexive(v: Value)
    requires v.Dict? && UniqueKeys(v)
    ensures Covered(v, v)
    decreases v
  {
    forall j | 0 <= j < |v.items|
      ensures EntryCovered(v, v, j)
    {
      LookupDistinct(v.items, j);
      var w := v.items[j].1;
      if w.Dict? {
        CoveredReflexive(w);
      }
    }
    assert EntriesFrom(v, v, 0);
  }

  // keyword arguments with defaults -----------------------------------------

  /** `dict(items)` as `**` keyword arguments; the first item with a key wins,
      as `Lookup` reads it. */
  function ToMap(items: seq<(string, Value)>): (m: map<string, Value>)
    ensures m.Keys == Keys(items)
    ensures forall k :: k in m ==> Lookup(items, k) == Some(m[k])
  {
    if items == [] then map[] else ToMap(items[1..])[items[0].0 := items[0].1]
  }

  /** `kwargs.pop(k, default)`: the value and what remains of `kwargs`. */
  function Pop(kwargs: map<string, Value>, k: string, default: Value): (Value, map<string, Value>) {
    if k in kwargs then (kwargs[k], kwargs - {k}) else (default, kwargs)
  }

  /** One pop of the loop below: the key is still there exactly when no
      earlier key of the same name took it, and popping it removes it. */
  lemma ConsumeStep(keys: seq<string>, i: nat, default: Value, kwargs: map<string, Value>, rest: map<string, Value>)
    requires i < |keys| && rest == kwargs - Text.ToSet(keys[..i])
    ensures keys[i] in rest <==> keys[i] in kwargs && keys[i] !in keys[..i]
    ensures Pop(rest, keys[i], default).0 ==
      (if keys[i] in kwargs && keys[i] !in keys[..i] then kwargs[keys[i]] else default)
    ensures Pop(rest, keys[i], default).1 == kwargs - Text.ToSet(keys[..i + 1])
  {
    assert keys[..i + 1] == keys[..i] + [keys[i]];
    assert Text.ToSet(keys[..i + 1]) == Text.ToSet(keys[..i]) + {keys[i]};
  }

  /** The `for k in self.keys: setattr(self, k, kwargs.pop(k, default))` loop:
      each key takes its keyword argument unless an earlier key of the same
      name already took it, and every listed key is removed from `kwargs`. */
  method ConsumeKwargs(keys: seq<string>, defaults: map<string, Value>, kwargs: map<string, Value>)
    returns (values: seq<Value>, rest: map<string, Value>)
    requires forall i :: 0 <= i < |keys| ==> keys[i] in defaults
    ensures |values| == |keys|
    ensures forall i :: 0 <= i < |keys| ==>
      values[i] == (if keys[i] in kwargs && keys[i] !in keys[..i] then kwargs[keys[i]] else defaults[keys[i]])
    ensures rest == kwargs - Text.ToSet(keys)
  {
    values, rest := [], kwargs;
    var i := 0;
    while i < |keys|
      invariant 0 <= i <= |keys|
      invariant |values| == i
      invariant forall j :: 0 <= j < i ==>
        values[j] == (if keys[j] in kwargs && keys[j] !in keys[..j] then kwargs[keys[j]] else defaults[keys[j]])
      invariant rest == kwargs - Text.ToSet(keys[..i])
    {
      ConsumeStep(keys, i, defaults[keys[i]], kwargs, rest);
      var popped := Pop(rest, keys[i], defaults[keys[i]]);
      values := values + [popped.0];
      rest := popped.1;
      i := i + 1;
    }
    assert keys[..i] == keys;
  }

  /** The `RuntimeWarning` about unknown configuration values: which
      configuration, and which keys were left over. */
  datatype Warning = UnknownValues(config: string, keys: set<string>)

  /** `_check_remaining_kwargs(**kwargs)`: a warning exactly when something is left. */
  function RemainingWarning(name: string, rest: map<string, Value>): (w: Option<Warning>)
    ensures w.Some? <==> rest != map[]
    ensures w.Some? ==> w.value == UnknownValues(name, rest.Keys)
  {
    if |rest| != 0 then Some(UnknownValues(name, rest.Keys)) else None
  }

  function WarningList(w: Option<Warning>): seq<Warning> {
    if w.Some? then [w.value] else []
  }

  // TextInputConfig ----------------------------------------------------------

  const CONVERT_TAB: string := "convert_tab_to_spaces"
  const TAB_SPACES: string := "tab_to_spaces_number"
  const TEXT_INPUT_NAME: string := "text_input"
  const TEXT_INPUT_KEYS: seq<string> := [CONVERT_TAB, TAB_SPACES]
  const TEXT_INPUT_DEFAULTS: map<string, Value> := map[CONVERT_TAB := Bool(true), TAB_SPACES := Int(4)]

  datatype TextInputConfig = TextInputConfig(convertTabToSpaces: Value, tabToSpacesNumber: Value)

  /** The configuration `TextInputConfig(**kwargs)` builds. */
  function TextInputOf(kwargs: map<string, Value>): TextInputConfig {
    TextInputConfig(Pop(kwargs, CONVERT_TAB, Bool(true)).0, Pop(kwargs, TAB_SPACES, Int(4)).0)
  }

  /** The warning `TextInputConfig(**kwargs)` issues. */
  function TextInputWarning(kwargs: map<string, Value>): Option<Warning> {
    RemainingWarning(TEXT_INPUT_NAME, kwargs - {CONVERT_TAB, TAB_SPACES})
  }

  /** `TextInputConfig.__init__`. */
  method NewTextInputConfig(kwargs: map<string, Value>) returns (c: TextInputConfig, w: Option<Warning>)
    ensures c == TextInputOf(kwargs) && w == TextInputWarning(kwargs)
  {
    var values, rest := ConsumeKwargs(TEXT_INPUT_KEYS, TEXT_INPUT_DEFAULTS, kwargs);
    c := TextInputConfig(values[0], values[1]);
    assert Text.ToSet(TEXT_INPUT_KEYS) == {CONVERT_TAB, TAB_SPACES};
    w := RemainingWarning(TEXT_INPUT_NAME, rest);
  }

  /** `TextInputConfig.to_dict`: exactly the listed keys, in order. */
  function TextInputToDict(c: TextInputConfig): (d: Value)
    ensures d.Dict? && |d.items| == |TEXT_INPUT_KEYS|
    ensures forall i :: 0 <= i < |TEXT_INPUT_KEYS| ==> d.items[i].0 == TEXT_INPUT_KEYS[i]
  {
    Dict([(CONVERT_TAB, c.convertTabToSpaces), (TAB_SPACES, c.tabToSpacesNumber)])
  }

  /** With no keyword arguments the defaults `True` and 4 are used, silently. */
  lemma TextInputDefaults()
    ensures TextInputOf(map[]) == TextInputConfig(Bool(true), Int(4))
    ensures TextInputWarning(map[]) == None
  {
  }

  /** A key the configuration does not know is ignored, but warned about. */
  lemma UnknownKeyWarns(kwargs: map<string, Value>, k: string, v: Value)
    requires k != CONVERT_TAB && k != TAB_SPACES
    ensures TextInputOf(kwargs[k := v]) == TextInputOf(kwargs)
    ensures TextInputWarning(kwargs[k := v]).Some?
    ensures k in TextInputWarning(kwargs[k := v]).value.keys
  {
    assert k in kwargs[k := v] - {CONVERT_TAB, TAB_SPACES};
  }

  /** Writing a configuration and reading it back gives it back, without a warning. */
  lemma TextInputRoundTrip(c: TextInputConfig)
    ensures TextInputOf(ToMap(TextInputToDict(c).items)) == c
    ensures TextInputWarning(ToMap(TextInputToDict(c).items)) == None
  {
    var m := ToMap(TextInputToDict(c).items);
    assert m == map[CONVERT_TAB := c.convertTabToSpaces, TAB_SPACES := c.tabToSpacesNumber];
    assert m - {CONVERT_TAB, TAB_SPACES} == map[];
  }

  // AppConfig ---------------------------------------------------------------

  const DISPLAY_NAME: string := "display"
  const APP_NAME: string := "app"

  /** `DisplayConfig` ignores its keyword arguments and holds the fixed defaults. */
  datatype DisplayConfig = DisplayConfig(fps: real, frameUpdateInterval: real)

  const DEFAULT_DISPLAY: DisplayConfig := DisplayConfig(30.0, 1.0 / 30.0)

  datatype AppConfig = AppConfig(display: DisplayConfig, textInput: TextInputConfig)

  /** The configuration and the warnings, in order, of `AppConfig(**kwargs)`:
      the `display` and `text_input` sections are popped (a missing one is
      empty, one that is not a dict cannot be passed as keyword arguments) and
      whatever is left is warned about. */
  function AppConfigOf(kwargs: map<string, Value>): Result<(AppConfig, seq<Warning>), ConfigError> {
    var display := Pop(kwargs, DISPLAY_NAME, Dict([]));
    var textInput := Pop(display.1, TEXT_INPUT_NAME, Dict([]));
    if !display.0.Dict? || !textInput.0.Dict? then Err(TypeError)
    else
      var section := ToMap(textInput.0.items);
      Ok((AppConfig(DEFAULT_DISPLAY, TextInputOf(section)),
          WarningList(TextInputWarning(section)) + WarningList(RemainingWarning(APP_NAME, textInput.1))))
  }

  /** `AppConfig.__init__`. */
  method NewAppConfig(kwargs: map<string, Value>) returns (r: Result<(AppConfig, seq<Warning>), ConfigError>)
    ensures r == AppConfigOf(kwargs)
  {
    var rest := kwargs;
    var display := Pop(rest, DISPLAY_NAME, Dict([]));
    rest := display.1;
    if !display.0.Dict? {
      return Err(TypeError);
    }
    var textInput := Pop(rest, TEXT_INPUT_NAME, Dict([]));
    rest := textInput.1;
    if !textInput.0.Dict? {
      return Err(TypeError);
    }
    var tc, w := NewTextInputConfig(ToMap(textInput.0.items));
    r := Ok((AppConfig(DEFAULT_DISPLAY, tc), WarningList(w) + WarningList(RemainingWarning(APP_NAME, rest))));
  }

  /** What remains after both sections are popped. */
  lemma PoppedRest(kwargs: map<string, Value>)
    ensures Pop(Pop(kwargs, DISPLAY_NAME, Dict([])).1, TEXT_INPUT_NAME, Dict([])).1 == kwargs - {DISPLAY_NAME, TEXT_INPUT_NAME}
  {
  }

  /** `AppConfig.to_dict`: only the `text_input` section is written. */
  function AppConfigToDict(c: AppConfig): (d: Value)
    ensures d.Dict? && Keys(d.items) == {TEXT_INPUT_NAME}
    ensures Lookup(d.items, TEXT_INPUT_NAME) == Some(TextInputToDict(c.textInput))
  {
    Dict([(TEXT_INPUT_NAME, TextInputToDict(c.textInput))])
  }

  /** The check accepts a written configuration against itself. */
  lemma WrittenFileComplete(c: AppConfig)
    requires UniqueKeys(c.textInput.convertTabToSpaces) && UniqueKeys(c.textInput.tabToSpacesNumber)
    ensures CheckAllKeysExist(AppConfigToDict(c), AppConfigToDict(c)) == Ok(true)
  {
    var d := AppConfigToDict(c);
    assert UniqueKeys(TextInputToDict(c.textInput));
    assert UniqueKeys(d);
    CoveredReflexive(d);
    CheckIffCovered(d, d);
  }

  /** A written file holds only the `text_input` section, so loading it
      pops exactly that section and leaves nothing over. */
  lemma PopsOfWrittenFile(c: AppConfig)
    ensures var m := ToMap(AppConfigToDict(c).items);
      && Pop(m, DISPLAY_NAME, Dict([])) == (Dict([]), m)
      && Pop(m, TEXT_INPUT_NAME, Dict([])) == (TextInputToDict(c.textInput), map[])
  {
    var m := ToMap(AppConfigToDict(c).items);
    assert m == map[TEXT_INPUT_NAME := TextInputToDict(c.textInput)];
  }

  /** Writing a configuration and loading the file again gives the same
      configuration and no warning. */
  lemma WriteThenLoad(c: AppConfig)
    ensures AppConfigOf(ToMap(AppConfigToDict(c).items)) == Ok((AppConfig(DEFAULT_DISPLAY, c.textInput), []))
  {
    var m := ToMap(AppConfigToDict(c).items);
    PopsOfWrittenFile(c);
    var section := ToMap(TextInputToDict(c.textInput).items);
    TextInputRoundTrip(c.textInput);
    var warnings := WarningList(TextInputWarning(section)) + WarningList(RemainingWarning(APP_NAME, map[]));
    assert warnings == [];
    assert AppConfigOf(m) == Ok((AppConfig(DEFAULT_DISPLAY, TextInputOf(section)), warnings));
  }

  /** A file without the `text_input` section loads as the defaults, and the
      key check then reports the missing section, so it is written again. */
  lemma MissingSectionRecovered(items: seq<(string, Value)>)
    requires TEXT_INPUT_NAME !in Keys(items)
    requires AppConfigOf(ToMap(items)).Ok?
    ensures AppConfigOf(ToMap(items)).value.0 == AppConfig(DEFAULT_DISPLAY, TextInputConfig(Bool(true), Int(4)))
    ensures CheckAllKeysExist(AppConfigToDict(AppConfigOf(ToMap(items)).value.0), Dict(items)) == Ok(false)
  {
  }

  /** Adding a top-level key other than the two sections adds it to what
      is left after both are popped, and changes nothing else. */
  lemma PopsWithRedundantKey(kwargs: map<string, Value>, k: string, v: Value)
    requires k != DISPLAY_NAME && k != TEXT_INPUT_NAME
    ensures Pop(kwargs[k := v], DISPLAY_NAME, Dict([])).0 == Pop(kwargs, DISPLAY_NAME, Dict([])).0
    ensures Pop(Pop(kwargs[k := v], DISPLAY_NAME, Dict([])).1, TEXT_INPUT_NAME, Dict([])).0
         == Pop(Pop(kwargs, DISPLAY_NAME, Dict([])).1, TEXT_INPUT_NAME, Dict([])).0
    ensures Pop(Pop(kwargs[k := v], DISPLAY_NAME, Dict([])).1, TEXT_INPUT_NAME, Dict([])).1
         == (kwargs - {DISPLAY_NAME, TEXT_INPUT_NAME})[k := v]
  {
  }

  /** An unknown top-level key leaves the configuration as it was. */
  lemma RedundantKeyIgnored(kwargs: map<string, Value>, k: string, v: Value)
    requires k != DISPLAY_NAME && k != TEXT_INPUT_NAME
    ensures AppConfigOf(kwargs[k := v]).Ok? == AppConfigOf(kwargs).Ok?
    ensures AppConfigOf(kwargs).Ok? ==> AppConfigOf(kwargs[k := v]).value.0 == AppConfigOf(kwargs).value.0
  {
    PopsWithRedundantKey(kwargs, k, v);
  }

  /** An unknown top-level key is warned about, in the last warning. */
  lemma RedundantKeyWarns(kwargs: map<string, Value>, k: string, v: Value)
    requires k != DISPLAY_NAME && k != TEXT_INPUT_NAME
    requires AppConfigOf(kwargs[k := v]).Ok?
    ensures var ws := AppConfigOf(kwargs[k := v]).value.1;
      |ws| >= 1 && ws[|ws| - 1].config == APP_NAME && k in ws[|ws| - 1].keys
  {
    PopsWithRedundantKey(kwargs, k, v);
    var rest := (kwargs - {DISPLAY_NAME, TEXT_INPUT_NAME})[k := v];
    assert k in rest;
    assert RemainingWarning(APP_NAME, rest) == Some(UnknownValues(APP_NAME, rest.Keys));
  }

  /** A `display` or `text_input` section that is not a dict raises `TypeError`. */
  lemma NonDictSectionIsTypeError(kwargs: map<string, Value>)
    requires (DISPLAY_NAME in kwargs && !kwargs[DISPLAY_NAME].Dict?)
          || (TEXT_INPUT_NAME in kwargs && !kwargs[TEXT_INPUT_NAME].Dict?)
    ensures AppConfigOf(kwargs) == Err(TypeError)
  {
  }
}
