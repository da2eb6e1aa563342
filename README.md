# codememo core in Dafny

This project models the non-graphical core of codememo, a desktop tool for
taking notes on code snippets and linking them into trees, and proves
properties of that model. The modules follow the Python package:

- `Objects`: `codememo/objects.py`. It covers code snippets (`Code`) and
  their line counts, line ranges (`LineInfo`), references (`ReferenceInfo`),
  and the single-root `Node`. A node has one root, an ordered list of
  leaves and a reference into its root's code.
- `Shortcuts`: `codememo/shortcuts.py`. It covers the keyboard-shortcut
  registry. The registry validates registrations and triggers shortcuts in
  one of three ways: while the keys are held (level), on key down (positive
  edge) or on key up (negative edge). When several shortcuts fire, the one
  with the longest key combination wins. The IO wrapper is modelled as the
  set of key names held down during a poll.
- `Patches`: `codememo/_patches.py`. It covers the patched pyglet
  integration: the modifier flags on key press and release, the `keys_down`
  table, the extra TAB symbol, and the choice of renderer from the pyglet
  version string.
- `Config`: `codememo/config.py`. It covers the recursive "template keys
  exist in target" check, keyword arguments merged with defaults, the
  warning about unknown values, and the dictionaries the configuration
  writes.
- `Internal`: `codememo/interanl.py`. It covers `GlobalState`, a key/value
  store with a stack of errors.
- `Events`: `codememo/events.py`. It covers node events and the
  subscriber list of the publisher.
- `Components`: the parts of `codememo/components.py` that do not draw.
  These are row selection in the snippet window, the name shown on a node,
  the start-line input check, and the initial layout and numbering of node
  components.
- `Text` and `Wrappers`: helpers. `Text` stands for the Python built-ins the
  core relies on (`str.count`, `str.split`, `str.lower`, `list.index`,
  `int()` on decimal text, the `len(set(xs)) < len(xs)` duplicate test).
  `Wrappers` holds `Option`, `Result` and `Outcome`.

Python exceptions are modelled as error values (`Result.Err`,
`Outcome.Fail`, or `None`). Each error datatype names the exception it
stands for.

Where the code as written cannot run, the model follows the evident
intent, as follows:

- `objects.py:102` tests an undefined name `ref_info`, so every `Node(...)`
  raises `NameError`. Lines 113 and 118 call `set_root`/`add_leaf` without
  their required line arguments. The model's constructor builds a detached
  node: no root, no reference and no leaves.
- `objects.py:131` tests against an undefined `RootNode`. The model reads
  it as `Node`, so any node may be a root.
- `objects.py:139-140` assigns `None` through the `ref_info` setter. The
  setter rejects anything but a `ReferenceInfo` (lines 126-127), so as
  written `reset_root` raises `TypeError`. The model clears both the root
  and the reference.
- `components.py:182` calls `line_info.in_range`, which `LineInfo` does not
  define. Highlighting only changes how a row is drawn, so the model leaves
  it out.
- `components.py:200` replaces `hi - lo` entries with `hi - lo + 1` entries.
  This is modelled as written (`HandleSelectableRowAsWritten`), next to a
  corrected version (see Findings).

## Model

| member | source | states |
|---|---|---|
| Objects.NewCode | codememo/objects.py:37-60 | name, content, path and url are stored as given; a missing `lang` is `"raw"` and a missing `line_start` is 1 |
| Objects.NLines | codememo/objects.py:62-64 | the line count is at least 1; it equals the number of pieces `split('\n')` gives and the number of newlines plus one |
| Objects.AbsoluteLineInfo | codememo/objects.py:66-68 | the range starts at `line_start`; its stop is present, not before the start, and `stop - start + 1` equals the line count |
| Objects.NewReferenceInfo | codememo/objects.py:73-83 | keeps the source code and the relative range `(rel_start, rel_stop)` |
| Objects.Node.constructor | codememo/objects.py:87-118 | a detached node: no root, no reference, no leaves; the code and comment are kept |
| Objects.Node.SetRoot | codememo/objects.py:130-136 | the root becomes `node` and the reference points at lines `rel_start..rel_stop` of its code |
| Objects.Node.ResetRoot | codememo/objects.py:138-140 | root and reference are both cleared |
| Objects.Node.AddLeaf | codememo/objects.py:142-150 | fails with `ValueError` exactly when the node already has a root, and then changes nothing; otherwise the node's root is this node, its reference is the given lines of this node's code, it is appended to the leaves, and "every leaf points back, none twice" is preserved |
| Objects.PopPosition | codememo/objects.py:153 | the position `list.pop(idx)` removes: a negative `idx` counts from the end; `RemoveLeaf` states its range check and effect in terms of it |
| Objects.Node.RemoveLeaf | codememo/objects.py:152-154 | `IndexError` exactly when `idx` (negative indices included) is out of range, and then nothing changes; otherwise exactly that leaf is removed, the others keep their order and state, the removed node is detached, and "every leaf points back" is preserved |
| Shortcuts.ShortcutRegistry.constructor | codememo/shortcuts.py:27-42 | empty registry, nothing triggered, well-formed |
| Shortcuts.ShortcutRegistry.Register | codememo/shortcuts.py:86-114 | an already registered name fails; bindings that, ASCII lower-cased, hold a duplicate fail; failing leaves the registry unchanged; success appends the name and stores the ASCII lower-cased bindings, adding it to exactly the edge set `edge_trigger` names; well-formedness is preserved |
| Shortcuts.ShortcutRegistry.Unregister | codememo/shortcuts.py:116-123 | corrected: fails for an unknown name and changes nothing; otherwise the name is removed from the bindings, the order and both edge sets |
| Shortcuts.ShortcutRegistry.UnregisterAsWritten | codememo/shortcuts.py:116-119 | as written: an unknown name raises `ValueError`; a known one reaches `dict.remove` and raises `AttributeError` |
| Shortcuts.UnregisterAsWrittenFailsOnRegistered | codememo/shortcuts.py:119 | as written, unregistering a shortcut just registered raises `AttributeError` |
| Shortcuts.ShortcutRegistry.IsPressed | codememo/shortcuts.py:125-128 | fails exactly for an unregistered name; otherwise true iff every bound key is held |
| Shortcuts.ShortcutRegistry.VisitName | codememo/shortcuts.py:48-68 | one loop iteration of `poll` leaves exactly the triggers and candidates of `Step` |
| Shortcuts.ShortcutRegistry.ScanNames | codememo/shortcuts.py:46-68 | the loop of `poll` leaves the triggers and candidates of `Scan` over the names in insertion order, and changes nothing else |
| Shortcuts.ShortcutRegistry.PollKeys | codememo/shortcuts.py:44-76 | the new triggers are `Poll` of the old state; the registry is unchanged |
| Shortcuts.ShortcutRegistry.ClearTriggered | codememo/shortcuts.py:78-84 | the new triggers are `Clear` of the old ones; the registry is unchanged |
| Shortcuts.Truthy | codememo/shortcuts.py:51 | Python truthiness of `prev_edge_triggered_shortcut`/`edge_triggered_shortcut`: `None` and `""` are false, every other name is true |
| Shortcuts.AllPressed | codememo/shortcuts.py:128 | `all(io.is_key_pressed(k) for k in bindings)`: every bound key is held |
| Shortcuts.Down | codememo/shortcuts.py:125-128 | `is_pressed(name)` as the `poll` loop reads it: the name is registered and all its bound keys are held |
| Shortcuts.Step | codememo/shortcuts.py:48-68 | one iteration of the `poll` loop: a held positive-edge name becomes the pending edge and a candidate unless a previous edge is recorded; a held negative-edge name becomes the pending edge if none is pending; a held level name is a candidate; a released name clears a `prev` naming it and, if it is the pending edge, becomes a candidate, is recorded as `prev` and the pending edge is dropped; `VisitName` is proved equal to it |
| Shortcuts.Scan | codememo/shortcuts.py:46-68 | the `poll` loop over the names in dict order, folding `Step`; `ScanNames` is proved equal to it and the poll lemmas below are stated over it |
| Shortcuts.Select | codememo/shortcuts.py:70-76 | the choice after the loop: with two or more candidates the first with most bindings, with one that one, with none the old trigger; `SelectLongest` proves this |
| Shortcuts.Candidates | codememo/shortcuts.py:46-68 | the candidate list one poll collects from the starting triggers, in visiting order |
| Shortcuts.Poll | codememo/shortcuts.py:44-76 | the triggers after `poll`: the loop's `edge`/`prev` updates, and `triggered` set by `Select`; `PollKeys` is proved equal to it |
| Shortcuts.Clear | codememo/shortcuts.py:78-84 | the triggers after `clear`; `ClearRemembersPositive` proves that the trigger is always dropped and a positive-edge trigger becomes `prev` with the pending edge dropped |
| Shortcuts.FirstMax | codememo/shortcuts.py:73 | `max(range(n), key=...)` picks an index of a largest value, and no earlier index holds that value |
| Shortcuts.BindingCounts | codememo/shortcuts.py:72 | one entry per candidate: the number of its key bindings |
| Shortcuts.CandidatesRegistered | codememo/shortcuts.py:47-68 | every candidate a poll collects is a registered name |
| Shortcuts.ScanExtends | codememo/shortcuts.py:53-66 | a poll only appends to the candidate list |
| Shortcuts.LevelTriggeredIsCandidate | codememo/shortcuts.py:57-59 | a level-triggered shortcut whose keys are all held is a candidate of every poll |
| Shortcuts.SelectLongest | codememo/shortcuts.py:70-76 | with candidates, the chosen one has the most key bindings and no earlier candidate has as many; with none, the trigger is kept |
| Shortcuts.ClearRemembersPositive | codememo/shortcuts.py:78-84 | `clear` always drops the trigger; a positive-edge trigger becomes the previous edge trigger and the pending edge is dropped; otherwise both are kept |
| Shortcuts.PositiveFiresWhenUnrecorded | codememo/shortcuts.py:49-53 | in any well-formed registry, a held positive-edge shortcut is a candidate when no previous edge trigger is recorded and no other shortcut's edge is pending |
| Shortcuts.PositiveHeldDoesNotRefire | codememo/shortcuts.py:49-53 | after a positive-edge shortcut is triggered and cleared, holding its keys neither makes it a candidate nor triggers it again |
| Shortcuts.PositiveReleaseResets | codememo/shortcuts.py:60-63 | once its keys are released, the record of the previous edge trigger no longer names it |
| Shortcuts.NegativeLatchedWhileHeld | codememo/shortcuts.py:54-56 | while held, a negative-edge shortcut is latched as the pending edge and is not a candidate |
| Shortcuts.NegativeFiresOnRelease | codememo/shortcuts.py:64-68 | on the first poll after release it is a candidate, it becomes the previous edge trigger, and the latch is dropped |
| Shortcuts.AddedWellFormed | codememo/shortcuts.py:109-114 | registering a new name keeps the registry well-formed |
| Shortcuts.RemoveNameProperties | codememo/shortcuts.py:119 | removing a name from the order removes exactly that name and keeps the rest distinct |
| Patches.PressUpdate | codememo/_patches.py:102-105 | every flag is "its own key, or its bit in `mods`"; the old flags are not read |
| Patches.ReleaseUpdate | codememo/_patches.py:135-138 | every flag is "not its own key, and (its bit in `mods` or its old value)" |
| Patches.FlagsMatchDocumentedTables | codememo/_patches.py:79-88 | both formulas yield, for every (X, Y, Z), the X' of the press table and of the release table (lines 113-122) |
| Patches.PressSetsFlag | codememo/_patches.py:94-96 | on press a flag is set iff the key is its own or its bit is in `mods` |
| Patches.ReleaseClearsOwnFlag | codememo/_patches.py:128-130 | releasing a modifier's own key clears its flag whatever `mods` says; any other key keeps a set flag and sets a cleared one whose bit is in `mods` |
| Patches.ReleaseFlagsIndependent | codememo/_patches.py:135-138 | a flag's new value depends only on its old value, its own keys and its own bit |
| Patches.ModifierKeysDisjoint | codememo/_patches.py:102-105 | no key symbol belongs to two modifiers |
| Patches.ExtendReverseKeyMap | codememo/_patches.py:53-56 | the extra symbol 98784247808 maps to TAB's imgui key; the other entries are kept; a missing TAB is the `KeyError` |
| Patches.PygletMixin.OnModsPress | codememo/_patches.py:102-105 | the IO flags become `PressUpdate` |
| Patches.PygletMixin.OnModsRelease | codememo/_patches.py:135-138 | the IO flags become `ReleaseUpdate` of the old flags |
| Patches.PygletMixin.OnKeyPress | codememo/_patches.py:140-143 | a mapped symbol marks its imgui key as down and nothing else in `keys_down` changes; an unmapped one changes nothing there; then the press update |
| Patches.PygletMixin.OnKeyRelease | codememo/_patches.py:145-148 | a mapped symbol marks its imgui key as up and nothing else in `keys_down` changes; then the release update |
| Patches.ParseAll | codememo/_patches.py:178 | the list of `int()` values of all pieces, one per piece; a `ValueError` exactly when some piece does not parse |
| Patches.ConvertVersionStringToTuple | codememo/_patches.py:177-178 | `tuple(int(v) for v in ver.split('.'))`, `None` for the `ValueError`; `ConvertThreeComponents` proves `"a.b.c"` gives `(a, b, c)` |
| Patches.TupleLess | codememo/_patches.py:190 | Python's lexicographic `<` on integer tuples, a shorter prefix being smaller; `TupleLessStrictTotal` proves it a strict total order |
| Patches.ChooseRenderer | codememo/_patches.py:181-193 | the pipeline `create_renderer` picks: fixed when the version tuple is below `(2, 0)`, programmable otherwise, `None` when the version does not parse; `FixedPipelineIffMajorBelowTwo` states the choice for `a.b.c` |
| Patches.ConvertThreeComponents | codememo/_patches.py:177-178 | `"a.b.c"` converts to `(a, b, c)` |
| Patches.TupleLessTwoZero | codememo/_patches.py:190 | a tuple is below `(2, 0)` iff its major number is below 2, or it is `(2,)`, or its minor number is negative |
| Patches.FixedPipelineIffMajorBelowTwo | codememo/_patches.py:190-193 | for version `a.b.c`, the fixed pipeline is chosen iff `a < 2` |
| Patches.TupleLessStrictTotal | codememo/_patches.py:190 | the tuple order is irreflexive, asymmetric and total on distinct tuples |
| Text.Split | codememo/_patches.py:178 | `str.split` always yields at least one piece |
| Text.SplitLength | codememo/objects.py:64 | splitting yields one piece more than there are separators |
| Text.SplitPiecesHaveNoSeparator | codememo/_patches.py:178 | no piece contains the separator |
| Text.JoinSplit | codememo/_patches.py:178 | joining the pieces with the separator gives back the string |
| Text.Count | codememo/objects.py:64 | `s.count(c)` for one character; `CountIsMultiplicity` proves it is the multiplicity of `c` in `s` |
| Text.CountIsMultiplicity | codememo/objects.py:64 | `str.count` of a character is its multiplicity |
| Text.Lower | codememo/shortcuts.py:105 | ASCII lower-casing keeps the length and maps each character |
| Text.LowerAll | codememo/shortcuts.py:105 | ASCII lower-cases each binding, keeping the order |
| Text.LowerIdempotent | codememo/shortcuts.py:105 | lower-casing twice changes nothing more |
| Text.IndexOf | codememo/events.py:25 | `list.index`: the first position holding the value |
| Text.DuplicateTest | codememo/shortcuts.py:106 | `len(set(xs)) < len(xs)` holds iff some element occurs twice |
| Text.ParseInt | codememo/_patches.py:178 | `int(s)` on an optional sign and ASCII digits, `None` for the `ValueError`; `ParseNatToString` and `ParsedHasNoDot` are proved about it |
| Text.ParseNatToString | codememo/components.py:607-611 | `int()` of a number's decimal text gives the number back |
| Text.ParsedHasNoDot | codememo/components.py:607-611 | text that `int()` accepts holds no `'.'` |
| Config.Lookup | codememo/config.py:15 | a key is found exactly when it is one of the dict's keys |
| Config.LookupAppend | codememo/config.py:15 | keys added later never change what an existing key finds |
| Config.CheckIffCovered | codememo/config.py:8-20 | the check returns `True` iff both are dicts and every template key is in the target, with dict values covered recursively |
| Config.CheckFromIffCovered | codememo/config.py:14-20 | the loop from item `i` returns `True` iff every later entry is covered |
| Config.ExtraKeysHarmless | codememo/config.py:14 | extra target keys never make a passing check fail |
| Config.SkipCoveredEntries | codememo/config.py:14-19 | covered entries are passed over without changing the result |
| Config.FirstFailingEntry | codememo/config.py:15-18 | the first uncovered entry decides: a missing key gives `False`; a dict template value over a non-dict target raises `TypeError` |
| Config.NonDictIsTypeError | codememo/config.py:9-12 | a non-dict template or target raises `TypeError` |
| Config.CoveredReflexive | codememo/config.py:8-20 | a dict with distinct keys, nested ones too, is covered by itself |
| Config.CheckAllKeysExist | codememo/config.py:8-20 | `check_all_keys_exist(template, target)`: `TypeError` when either is not a dict, otherwise the loop over the template's items; `CheckIffCovered` proves it returns `True` exactly when `Covered` holds |
| Config.CheckItemsFrom | codememo/config.py:14-20 | the loop from the `i`-th template item: `False` at the first missing key or failing nested dict, the nested `TypeError` passed on, `True` at the end; `CheckFromIffCovered` relates it to coverage |
| Config.Covered | codememo/config.py:8-20 | the independent reading of the check: both are dicts and every template key is in the target, a dict under it covered in turn |
| Config.ToMap | codememo/config.py:87 | `**content` as a map: the same keys, each with the value the dict gives it |
| Config.Pop | codememo/config.py:68-71 | `kwargs.pop(k, default)`: the value, or the default when `k` is missing, and `kwargs` without `k`; `ConsumeStep` and `PoppedRest` are stated over it |
| Config.ConsumeStep | codememo/config.py:139 | one `kwargs.pop(k, default)` finds `k` iff no earlier key of that name took it, and removes it |
| Config.ConsumeKwargs | codememo/config.py:138-139 | each listed key takes its keyword argument, unless an earlier key of that name took it, or else its default; what remains is `kwargs` without the listed keys |
| Config.RemainingWarning | codememo/config.py:42-50 | a `RuntimeWarning` exactly when something is left over, naming the configuration and the leftover keys |
| Config.TextInputOf | codememo/config.py:136-139 | the values `TextInputConfig(**kwargs)` sets: each key's argument or its default `True`/`4`; `TextInputDefaults`, `UnknownKeyWarns` and `TextInputRoundTrip` are proved about it |
| Config.TextInputWarning | codememo/config.py:140 | the warning of `TextInputConfig(**kwargs)`: about `kwargs` without the two known keys |
| Config.NewTextInputConfig | codememo/config.py:136-140 | builds `TextInputOf(kwargs)` and warns as `TextInputWarning(kwargs)` |
| Config.TextInputToDict | codememo/config.py:39-40 | a dict with exactly the listed keys, in order |
| Config.TextInputDefaults | codememo/config.py:128-129 | no keyword arguments give `True` and 4, with no warning |
| Config.UnknownKeyWarns | codememo/config.py:140 | an unknown key changes none of the values but is named in the warning |
| Config.TextInputRoundTrip | codememo/config.py:39-40 | reading back what `to_dict` wrote gives the same configuration, with no warning |
| Config.NewAppConfig | codememo/config.py:62-73 | gives `AppConfigOf(kwargs)`: pops both sections, builds them, and warns about the rest |
| Config.AppConfigOf | codememo/config.py:62-73 | `AppConfig(**kwargs)`: `display` then `text_input` popped with `{}` defaults, `TypeError` when one is not a dict, the section warning then the warning about what is left; `NewAppConfig` is proved equal to it and `WriteThenLoad`, `RedundantKeyIgnored` are about it |
| Config.PoppedRest | codememo/config.py:67-72 | after both pops, what remains is `kwargs` without `display` and `text_input` |
| Config.AppConfigToDict | codememo/config.py:97-100 | a dict holding only the `text_input` section |
| Config.WrittenFileComplete | codememo/config.py:88 | the key check accepts a written configuration against itself, so loading does not rewrite it |
| Config.PopsOfWrittenFile | codememo/config.py:67-72 | a written file has no `display` section, and popping `text_input` leaves nothing |
| Config.WriteThenLoad | codememo/config.py:87-100 | loading a written configuration gives the same text-input settings and no warning |
| Config.MissingSectionRecovered | codememo/config.py:86-89 | a file without `text_input` loads as the defaults, and the check then reports the section missing |
| Config.PopsWithRedundantKey | codememo/config.py:67-73 | an unknown top-level key leaves both popped sections unchanged and is left over |
| Config.RedundantKeyIgnored | codememo/config.py:67-72 | an unknown top-level key leaves the configuration unchanged |
| Config.RedundantKeyWarns | codememo/config.py:73 | an unknown top-level key is named in the last warning |
| Config.NonDictSectionIsTypeError | codememo/config.py:67-72 | a section that is not a dict cannot be passed as keyword arguments: `TypeError` |
| Internal.GlobalState.constructor | codememo/interanl.py:13-15 | an empty store and an empty error stack |
| Internal.GlobalState.Contains | codememo/interanl.py:20-21 | `key in state`: the key is in the content map; `DeleteThenContains` is stated with it |
| Internal.GlobalState.ErrorOccured | codememo/interanl.py:23-25 | `error_occured`: the error stack is not empty; `PushError` ensures it and `PushThenPopError` keeps it |
| Internal.GlobalState.Get | codememo/interanl.py:27-28 | the stored value of a present key, otherwise the default |
| Internal.GlobalState.Set | codememo/interanl.py:33-34 | stores or overwrites exactly that key |
| Internal.GlobalState.Pop | codememo/interanl.py:30-31 | a present key gives its value and is removed; a missing one gives the default, or `KeyError` without one, and changes nothing |
| Internal.GlobalState.Delete | codememo/interanl.py:36-37 | removes a present key; a missing key is a `KeyError` and changes nothing |
| Internal.GlobalState.PushError | codememo/interanl.py:39-40 | pushes onto the stack, after which an error has occurred |
| Internal.GlobalState.PopError | codememo/interanl.py:42-43 | takes the top error off; an empty stack is an `IndexError` |
| Internal.SetThenGet | codememo/interanl.py:27-34 | a set value is read back; other keys and the error stack are unchanged |
| Internal.PushThenPopError | codememo/interanl.py:39-43 | push then pop returns the error and restores the previous stack (last in, first out) |
| Internal.DeleteThenContains | codememo/interanl.py:20-21 | after `delete` the key is absent, and the delete succeeded iff it was present (lines 36-37) |
| Events.NodeEvent.Get | codememo/events.py:12-13 | the stored keyword argument if present, otherwise the default |
| Events.CallbackName | codememo/events.py:36 | the handler name `handle_event__<event name>` that `Dispatch` calls on each subscriber |
| Events.UnregisteredAsWritten | codememo/events.py:23-29 | as written: `ValueError` iff absent; otherwise the last subscriber is dropped, one fewer in all |
| Events.Unregistered | codememo/events.py:23-29 | corrected: `ValueError` iff absent; otherwise one occurrence of the subscriber is removed |
| Events.UnregisterAsWrittenRemovesWrongSubscriber | codememo/events.py:29 | with subscribers `[a, b]`, unregistering `a` keeps `a` and removes `b` |
| Events.UnregisterRemovesMatched | codememo/events.py:25 | the corrected removal takes out the matched subscriber and keeps the others in order |
| Events.UnregisterAgreesWhenLast | codememo/events.py:29 | the two agree when the matched subscriber is last, and, with distinct subscribers, only then |
| Events.RegisterThenUnregister | codememo/events.py:20-29 | unregistering the subscriber registered last restores the earlier list |
| Events.NodeEventPublisher.constructor | codememo/events.py:17-18 | no subscribers |
| Events.NodeEventPublisher.Register | codememo/events.py:20-21 | appends the subscriber |
| Events.NodeEventPublisher.UnregisterAsWritten | codememo/events.py:23-29 | as written: `ValueError` and no change when absent, otherwise the last subscriber is popped |
| Events.NodeEventPublisher.Unregister | codememo/events.py:23-29 | corrected: the subscriber found by `index` is removed |
| Events.NodeEventPublisher.Dispatch | codememo/events.py:31-43 | a non-event is a `TypeError`; otherwise one call per subscriber, in registration order, to `handle_event__<name>` |
| Components.Reverse | codememo/components.py:165 | `selected[::-1]` |
| Components.SliceAssign | codememo/components.py:200 | slice assignment with Python's clamping: the length loses the slice and gains the new items |
| Components.Cleared | codememo/components.py:157-158 | `[False] * n`: `n` unselected rows |
| Components.NoneBeforeFirst | codememo/components.py:164 | no row before the first selected one is selected |
| Components.LastTrue | codememo/components.py:165 | the last selected row is selected, not before the first, and nothing after it is |
| Components.SelectedLines | codememo/components.py:163-169 | `get_selected_lines()`: 1-based first and last selected rows, `None` for the last when it equals the first, `RuntimeError` for a gap and the `ValueError` of `index` when nothing is selected; `SelectedLinesAreTheSelection` proves the result is exactly the selection |
| Components.SelectedLinesOfRange | codememo/components.py:163-169 | the rows `lo..hi` give lines `lo + 1` and `hi + 1`, with `None` for one row |
| Components.SelectedLinesGap | codememo/components.py:167-168 | an unselected row between two selected ones raises the `RuntimeError` |
| Components.SelectedLinesAreTheSelection | codememo/components.py:163-169 | returned lines are exactly the selected rows |
| Components.SingleSelect | codememo/components.py:202-203 | clearing then selecting row `i` keeps one entry per row |
| Components.SingleSelectLines | codememo/components.py:202-203 | a single selected row is one line with no stop |
| Components.FirstClickLines | codememo/components.py:191-192 | a click with nothing selected gives just that line |
| Components.ShiftSelect | codememo/components.py:193-200 | the corrected shift-click list: cleared, then the inclusive range between the two clicks set; `ShiftSelectRange` proves exactly that range is selected and the length kept |
| Components.ShiftSelectAsWritten | codememo/components.py:193-200 | the shift-click list as written: the slice `[lo:hi]` replaced by `hi - lo + 1` entries; `ShiftSelectAsWrittenGrows` proves it is one entry longer than `ShiftSelect` |
| Components.ShiftSelectRange | codememo/components.py:193-200 | corrected shift-click: one entry per row, and exactly the rows between the two clicks are selected |
| Components.ShiftSelectAsWrittenGrows | codememo/components.py:199-200 | as written: the corrected result plus one unselected entry |
| Components.ShiftSelectAsWrittenLonger | codememo/components.py:200 | as written, the list always ends up longer than the number of rows |
| Components.ShiftSelectLines | codememo/components.py:193-200 | a shift-click selects the lines from the earlier to the later click |
| Components.ShiftSelectAsWrittenLines | codememo/components.py:193-200 | the extra entry is unselected, so the lines reported are the intended ones |
| Components.CodeSnippetWindow.constructor | codememo/components.py:117-131 | no lines give one empty row; nothing is selected |
| Components.CodeSnippetWindow.ResetSelected | codememo/components.py:157-158 | every row unselected |
| Components.CodeSnippetWindow.HandleSelectableRowAsWritten | codememo/components.py:190-203 | no click: unchanged; first click: that row; shift-click: the as-written range from the first selected row; plain click: only that row |
| Components.CodeSnippetWindow.HandleSelectableRow | codememo/components.py:190-203 | the same with the corrected slice, keeping one entry per row |
| Components.DisplayName | codememo/components.py:411-417 | at most 8 characters; short names unchanged; longer ones are their first 5 characters and `...` |
| Components.DisplayNameIdempotent | codememo/components.py:411-417 | shortening a shown name again changes nothing |
| Components.CheckInputNumber | codememo/components.py:607-614 | true iff the text parses as an integer and has at most 16 characters |
| Components.NatToStringLength | codememo/components.py:528 | numbers below `10^(k+1)` have at most `k + 1` digits |
| Components.AcceptsLineNumbers | codememo/components.py:607-614 | every number with at most 16 digits is accepted |
| Components.RejectsDecimalPoint | codememo/components.py:607-611 | text with a decimal point is rejected |
| Components.TreeWidth | codememo/components.py:807 | the widest layer: no layer is wider, and some layer is that wide |
| Components.NoEmptyTree | codememo/components.py:807 | every tree has a layer, which is when `max()` of the layer sizes does not raise |
| Components.Widths | codememo/components.py:807 | one width per tree |
| Components.WidthAt | codememo/components.py:807 | the `n`-th width is the `n`-th tree's width |
| Components.FlattenPrefix | codememo/components.py:819-820 | flattening a prefix of the layers gives a prefix of the whole |
| Components.FlattenAt | codememo/components.py:819-820 | the `j`-th node of layer `i` follows all nodes of earlier layers |
| Components.TreeGrid | codememo/components.py:809-811 | one position per node, layer by layer |
| Components.XOffset | codememo/components.py:805 | `x_offset`: one column (80) is kept for orphans when there are any, otherwise 0 |
| Components.YOffset | codememo/components.py:806-813 | `y_offset` before tree `n`: the earlier trees' widths times 80 |
| Components.OrphanPositions | codememo/components.py:814-815 | orphan `k` at `(0, 80 k)` |
| Components.TreeNodeAt | codememo/components.py:809-811 | node `j` of layer `i` is at `(80 i + x0, 80 j + y0)` |
| Components.GridMatchesNodes | codememo/components.py:808-820 | one position per node, tree by tree |
| Components.Positions | codememo/components.py:803-815 | the `positions` list: each tree's grid in turn, then the orphans' column; `LayoutOfTreeNode` and `LayoutOfOrphan` state each position |
| Components.Nodes | codememo/components.py:818-821 | the `nodes` list: each tree's nodes layer by layer, then the orphans; `PositionsMatchNodes` proves it as long as `Positions` |
| Components.PositionsMatchNodes | codememo/components.py:808-821 | as many positions as nodes |
| Components.Number | codememo/components.py:826-829 | component `k` has id `k`, the `k`-th position and the `k`-th node |
| Components.Layout | codememo/components.py:795-829 | fails iff some tree has no layers (`max()` of nothing); otherwise one component per node, numbered in order, trees first, then orphans |
| Components.LayoutAt | codememo/components.py:826-829 | component `k` shows the `k`-th node at the `k`-th position |
| Components.ForestNodeAt | codememo/components.py:808-820 | the node index of `(n, i, j)` finds the node and its position |
| Components.LayoutOfTreeNode | codememo/components.py:804-813 | node `j` of layer `i` of tree `n` is at `(80 i + x_offset, 80 j + y_offset)`, where `y_offset` is 80 times the widths of the earlier trees |
| Components.LayoutOfOrphan | codememo/components.py:814-815 | orphan `k` follows every tree node and sits at `(0, 80 k)` |
| Components.OrphanAt | codememo/components.py:814-821 | orphan `k` follows the tree nodes in both lists |
| Components.TreesDoNotOverlap | codememo/components.py:812-813 | nodes of different trees never share a row |
| Components.AppendLayer | codememo/components.py:810-811 | appends the positions of one layer |
| Components.AppendTree | codememo/components.py:809-811 | appends the positions of one tree |
| Components.PlaceTrees | codememo/components.py:806-813 | the trees' positions, `y_offset` growing by 80 times each tree's width |
| Components.PlaceOrphans | codememo/components.py:814-815 | appends the orphans' column |
| Components.CollectNodes | codememo/components.py:818-821 | the trees' nodes, layer by layer |
| Components.InitNodesAndLinks | codememo/components.py:795-829 | the loops compute exactly `Layout` |
| Components.CodeNodeViewer.constructor | codememo/components.py:740-741 | the fields `__init__` sets before its `init_nodes_and_links` call: the collection's nodes and no components yet; `New` models all of `__init__` |
| Components.CodeNodeViewer.New | codememo/components.py:720-767 | `CodeNodeViewer(app, node_collection)`: fails with `EmptyTree` iff some tree has no layers; otherwise a fresh viewer whose components are `Layout` of its trees and orphans, with ids equal to indices |
| Components.CodeNodeViewer.InitNodes | codememo/components.py:795-829 | fails iff some tree has no layers, leaving the components unchanged; otherwise the components are `Layout`, with ids equal to indices |
| Components.CodeNodeViewer.CreateNodeComponent | codememo/components.py:852-863 | the node joins the collection; its component is appended with the next id, keeping ids equal to indices |

## Left out

- Rendering, windowing and input in `codememo/components.py`, `codememo/app.py` and `docs/demo/app_pygame.py`. This includes the imgui calls, context menus, modals, splitter dragging, panning and file dialogs. `imgui.selectable` and the shift state are parameters of `HandleSelectableRow`.
- `Vec2` arithmetic and slot positions. These are floating-point geometry; layout positions are modelled as integer pairs.
- `CodeSnippetWindow.__init__` beyond `rows` and `selected`: text widths, heights and input callbacks. `str.splitlines` is not modelled; the constructor takes the rows.
- `init_nodes_and_links` computes `links` from `resolve_links_from_trees`, and `resolve_tree` supplies the trees. `NodeCollection` is not part of this model, so the trees and orphans are parameters and the links are left out. `set_container` is also left out, because it only wires the viewer into each component.
- `remove_node_component` and the other `CodeNodeViewer` handlers. They depend on `NodeCollection` or on the UI.
- `AppConfig.load` and `write`, and `AppDefaults`. These are file-system I/O. The load decision is covered by the lemmas on `CheckAllKeysExist` and `ToMap`.
- `Config.ToMap`: for a JSON object with a repeated key, the first occurrence wins, whereas `json.load` keeps the last. `Config.CheckIffCovered` has the same limitation. `UniqueKeys` states when they agree.
- `DisplayConfig` ignores its keyword arguments. It is modelled as its fixed defaults, with `30.0` and `1/30` as reals.
- The `Singleton` metaclass of `GlobalState`, which makes one shared instance. The model uses an ordinary class.
- The `getattr` lookup in `dispatch`: a subscriber without the handler raises `AttributeError`, and one whose handler attribute is `None` raises `ValueError`. Handlers are dynamic Python attributes, so `Dispatch` returns the calls it would make, in order.
- The clipboard patch, `use_patch` and the platform checks in `codememo/_patches.py`. These are foreign calls.
- The renderer classes and `create_renderer` instantiating them. `ChooseRenderer` returns which pipeline is chosen.
- `Patches.OnModsPress` and `Patches.OnModsRelease`: `(mods & MOD_CTRL)` is an integer in Python, and the flag is modelled by its truth value.
- The key symbols and modifier bits of `pyglet.window.key`. That module is not part of this model; its values are written as constants, and the proofs rely only on their being distinct.
- `Text.Lower`: only the ASCII letters `A` to `Z` are lower-cased, one character for one. Python's `str.lower` also lower-cases non-ASCII letters, and some characters lower-case to two (`'İ'`), so the length need not be kept.
- `Text.LowerAll`: inherits the ASCII-only lower-casing of `Text.Lower`.
- `Shortcuts.ShortcutRegistry.Register`: the duplicate test and the stored bindings use the ASCII-only `Text.Lower`. For `["Ä", "ä"]` Python lower-cases both to `"ä"` and raises `ValueError`, whereas the model registers the shortcut.
- `Components.CodeNodeViewer.constructor`: it stops before the `init_nodes_and_links()` call that ends `__init__` (`components.py:767`). That call is modelled by `InitNodes`, and all of `__init__` by `CodeNodeViewer.New`, which fails where the source raises `ValueError`.
- `Patches.ExtendReverseKeyMap`: it returns the extended map as a new value. In the source `PygletMixin.REVERSE_KEY_MAP` is the same dict object as `_PygletMixin.REVERSE_KEY_MAP`, so the base class's map gains the entry too. That aliasing is not modelled.
- `Text.ParseInt`: it accepts an optional sign followed by ASCII digits. Python's `int()` also allows surrounding whitespace, underscores between digits and non-ASCII digits.
- `Shortcuts.ShortcutRegistry.PollKeys`: `is_pressed` of a registered name cannot fail inside `poll`, so that branch is not modelled.
- The `isinstance` checks on `Code`, `Node`, `list` and `IOWrapper`. These are Python type errors that Dafny's types rule out.
- `NodeCollection`, `Snippet`, multi-root nodes, links, (de)serialisation, `RecentlyOpenedFilesHistory`, `AppHistory`, the graph parsers and the vendored imgui. None of them is implemented in the files of the core.

## Findings

| source | as written | input that shows it | evidently intended | confidence | as-written member | corrected member |
|---|---|---|---|---|---|---|
| codememo/shortcuts.py:119 | `self.registry.remove(name)` on a `dict` raises `AttributeError` | register `"save"`, then unregister `"save"` | remove the entry, e.g. `del self.registry[name]` | not executed | Shortcuts.UnregisterAsWrittenFailsOnRegistered | Shortcuts.ShortcutRegistry.Unregister |
| codememo/events.py:29 | `self.subscribers.pop()` removes the last subscriber, not the matched one | subscribers `[a, b]`, unregister `a`: `b` is removed and `a` stays | `self.subscribers.pop(idx)` | not executed | Events.UnregisterAsWrittenRemovesWrongSubscriber | Events.UnregisterRemovesMatched |
| codememo/components.py:200 | `selected[idx_prev:idx_curr] = [True] * len_range` replaces `len_range - 1` entries with `len_range`, so `selected` grows by one | three rows, row 0 selected, shift-click on row 2: four entries | `selected[idx_prev:idx_curr + 1] = [True] * len_range` | not executed | Components.ShiftSelectAsWrittenGrows | Components.ShiftSelectRange |
