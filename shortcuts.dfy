/** The keyboard-shortcut registry of `codememo/shortcuts.py`. The IO wrapper
    is abstracted as the set of names of the keys held down during a poll. */
module Shortcuts {
  import opened Wrappers
  import Text

  datatype ShortcutError =
    | AlreadyRegistered(name: string)  // ValueError in `register`
    | DuplicateKeys                    // ValueError in `register`
    | NotRegistered(name: string)      // ValueError in `unregister` and `is_pressed`
    | NoRemoveMethod                   // AttributeError: `dict` has no `remove`

  /** What a poll reads of the registry: names in insertion order (the
      iteration order of a Python dict), their key bindings and the two sets
      of edge-triggered names. */
  datatype Registry = Registry(
    names: seq<string>,
    bindings: map<string, seq<string>>,
    positive: set<string>,
    negative: set<string>)

  /** What the registry keeps between polls. */
  datatype Triggers = Triggers(
    triggered: Option<string>,  // `triggered_shortcut`
    edge: Option<string>,       // `edge_triggered_shortcut`
    prev: Option<string>)       // `prev_edge_triggered_shortcut`

  ghost predicate WellFormed(reg: Registry) {
    && Text.Distinct(reg.names)
    && (forall n :: n in reg.names <==> n in reg.bindings)
    && reg.positive <= reg.bindings.Keys
    && reg.negative <= reg.bindings.Keys
    && reg.positive !! reg.negative
  }

  /** Python truthiness of an optional name: `None` and `""` are false. */
  predicate Truthy(o: Option<string>) {
    o.Some? && o.value != ""
  }

  /** `all(io.is_key_pressed(k) for k in keys)`. */
  predicate AllPressed(keys: seq<string>, pressed: set<string>) {
    forall i :: 0 <= i < |keys| ==> keys[i] in pressed
  }

  predicate Down(reg: Registry, name: string, pressed: set<string>) {
    name in reg.bindings && AllPressed(reg.bindings[name], pressed)
  }

  /** One iteration of the loop in `poll`: the new triggers and candidate list. */
  function Step(reg: Registry, name: string, pressed: set<string>, t: Triggers, cands: seq<string>): (Triggers, seq<string>) {
    if Down(reg, name, pressed) then
      if name in reg.positive then
        if !Truthy(t.prev) then (t.(edge := Some(name)), cands + [name]) else (t, cands)
      else if name in reg.negative then
        if !Truthy(t.edge) then (t.(edge := Some(name)), cands) else (t, cands)
      else
        (t, cands + [name])
    else
      var t1 := if t.prev == Some(name) then t.(prev := None) else t;
      if t1.edge == Some(name) then (t1.(prev := t1.edge, edge := None), cands + [name])
      else (t1, cands)
  }

  /** The loop of `poll` over the names still to visit. */
  function Scan(reg: Registry, names: seq<string>, pressed: set<string>, t: Triggers, cands: seq<string>): (Triggers, seq<string>)
    decreases |names|
  {
    if names == [] then (t, cands)
    else
      var (t1, c1) := Step(reg, names[0], pressed, t, cands);
      Scan(reg, names[1..], pressed, t1, c1)
  }

  /** `max(range(len(lens)), key=lambda i: lens[i])`: the first index holding the largest value. */
  function FirstMax(lens: seq<nat>): (idx: nat)
    requires |lens| > 0
    ensures idx < |lens|
    ensures forall k :: 0 <= k < |lens| ==> lens[k] <= lens[idx]
    ensures forall k :: 0 <= k < idx ==> lens[k] < lens[idx]
  {
    if |lens| == 1 then 0
    else
      var m := FirstMax(lens[..|lens| - 1]);
      if lens[|lens| - 1] > lens[m] then |lens| - 1 else m
  }

  /** Every listed name is registered. */
  predicate Registered(reg: Registry, cands: seq<string>) {
    forall k :: 0 <= k < |cands| ==> cands[k] in reg.bindings
  }

  /** Number of key bindings of each candidate. */
  function BindingCounts(reg: Registry, cands: seq<string>): (lens: seq<nat>)
    requires Registered(reg, cands)
    ensures |lens| == |cands|
    ensures forall k :: 0 <= k < |cands| ==> lens[k] == |reg.bindings[cands[k]]|
  {
    seq(|cands|, k requires 0 <= k < |cands| => |reg.bindings[cands[k]]|)
  }

  /** The choice made at the end of `poll`. */
  function Select(reg: Registry, cands: seq<string>, current: Option<string>): Option<string>
    requires Registered(reg, cands)
  {
    if |cands| >= 2 then Some(cands[FirstMax(BindingCounts(reg, cands))])
    else if |cands| == 1 then Some(cands[0])
    else current
  }

  /** The candidates of a poll from triggers `t`. */
  function Candidates(reg: Registry, pressed: set<string>, t: Triggers): seq<string> {
    Scan(reg, reg.names, pressed, t, []).1
  }

  /** The triggers after `poll`. */
  function Poll(reg: Registry, pressed: set<string>, t: Triggers): Triggers
    requires WellFormed(reg)
  {
    var scanned := Scan(reg, reg.names, pressed, t, []);
    CandidatesRegistered(reg, reg.names, pressed, t, []);
    scanned.0.(triggered := Select(reg, scanned.1, t.triggered))
  }

  /** The triggers after `clear`. */
  function Clear(reg: Registry, t: Triggers): Triggers {
    if t.triggered.Some? && t.triggered.value in reg.positive then
      Triggers(None, None, t.triggered)
    else
      t.(triggered := None)
  }

  // ---------------------------------------------------------------------
  // Properties of a poll

  /** Every candidate is a registered name. */
  lemma {:induction false} CandidatesRegistered(reg: Registry, names: seq<string>, pressed: set<string>, t: Triggers, cands: seq<string>)
    requires forall n :: n in names ==> n in reg.bindings
    requires Registered(reg, cands)
    ensures Registered(reg, Scan(reg, names, pressed, t, cands).1)
    decreases |names|
  {
    if names != [] {
      var (t1, c1) := Step(reg, names[0], pressed, t, cands);
      assert names[0] in names;
      assert Registered(reg, c1);
      assert forall n :: n in names[1..] ==> n in names;
      CandidatesRegistered(reg, names[1..], pressed, t1, c1);
      assert Scan(reg, names, pressed, t, cands) == Scan(reg, names[1..], pressed, t1, c1);
    }
  }

  /** The scan only appends to the candidate list. */
  lemma {:induction false} ScanExtends(reg: Registry, names: seq<string>, pressed: set<string>, t: Triggers, cands: seq<string>)
    ensures var c := Scan(reg, names, pressed, t, cands).1;
      |c| >= |cands| && c[..|cands|] == cands
  {
    if names != [] {
      var (t1, c1) := Step(reg, names[0], pressed, t, cands);
      ScanExtends(reg, names[1..], pressed, t1, c1);
      assert c1[..|cands|] == cands;
      var c := Scan(reg, names, pressed, t, cands).1;
      assert c[..|cands|] == c[..|c1|][..|cands|];
    }
  }

  /** A level-triggered shortcut whose keys are all held is a candidate of every poll. */
  lemma LevelTriggeredIsCandidate(reg: Registry, pressed: set<string>, t: Triggers, name: string)
    requires name in reg.names
    requires name !in reg.positive && name !in reg.negative
    requires Down(reg, name, pressed)
    ensures name in Candidates(reg, pressed, t)
  {
    LevelCandidateInScan(reg, reg.names, pressed, t, [], name);
  }

  lemma {:induction false} LevelCandidateInScan(reg: Registry, names: seq<string>, pressed: set<string>, t: Triggers, cands: seq<string>, name: string)
    requires name in names || name in cands
    requires name !in reg.positive && name !in reg.negative
    requires Down(reg, name, pressed)
    ensures name in Scan(reg, names, pressed, t, cands).1
    decreases |names|
  {
    if names != [] {
      var (t1, c1) := Step(reg, names[0], pressed, t, cands);
      assert name in names[1..] || name in c1;
      LevelCandidateInScan(reg, names[1..], pressed, t1, c1, name);
    }
  }

  lemma ScanExtendsMember(reg: Registry, names: seq<string>, pressed: set<string>, t: Triggers, cands: seq<string>, name: string)
    requires name in cands
    ensures name in Scan(reg, names, pressed, t, cands).1
  {
    ScanExtends(reg, names, pressed, t, cands);
    var c := Scan(reg, names, pressed, t, cands).1;
    var i :| 0 <= i < |cands| && cands[i] == name;
    assert c[i] == name;
  }

  /** With two or more candidates the poll triggers the first one with the most
      key bindings; with exactly one, that one; with none, the trigger is kept. */
  lemma SelectLongest(reg: Registry, cands: seq<string>, current: Option<string>)
    requires Registered(reg, cands)
    ensures cands == [] ==> Select(reg, cands, current) == current
    ensures cands != [] ==> exists i :: (
      && 0 <= i < |cands|
      && Select(reg, cands, current) == Some(cands[i])
      && (forall k :: 0 <= k < |cands| ==> |reg.bindings[cands[k]]| <= |reg.bindings[cands[i]]|)
      && (forall k :: 0 <= k < i ==> |reg.bindings[cands[k]]| < |reg.bindings[cands[i]]|))
  {
    if |cands| >= 2 {
      var i := FirstMax(BindingCounts(reg, cands));
      assert Select(reg, cands, current) == Some(cands[i]);
    } else if |cands| == 1 {
      assert Select(reg, cands, current) == Some(cands[0]);
    }
  }

  /** `clear` always drops the trigger; a positive-edge trigger is remembered
      as the previous edge trigger and the pending edge is dropped. */
  lemma ClearRemembersPositive(reg: Registry, t: Triggers)
    ensures Clear(reg, t).triggered == None
    ensures t.triggered.Some? && t.triggered.value in reg.positive ==>
      Clear(reg, t).prev == t.triggered && Clear(reg, t).edge == None
    ensures !(t.triggered.Some? && t.triggered.value in reg.positive) ==>
      Clear(reg, t).prev == t.prev && Clear(reg, t).edge == t.edge
  {
  }

  // Positive edge ---------------------------------------------------------

  /** A positive-edge shortcut is a candidate when its keys are held, no
      previous edge trigger is recorded and no other shortcut's edge is pending. */
  lemma PositiveFiresWhenUnrecorded(reg: Registry, pressed: set<string>, t: Triggers, name: string)
    requires WellFormed(reg)
    requires name in reg.positive
    requires Down(reg, name, pressed)
    requires !Truthy(t.prev)
    requires t.edge == None || t.edge == Some(name)
    ensures name in Candidates(reg, pressed, t)
  {
    assert name in reg.names;
    PositiveFiresInScan(reg, reg.names, pressed, t, [], name);
  }

  lemma {:induction false} PositiveFiresInScan(reg: Registry, names: seq<string>, pressed: set<string>, t: Triggers, cands: seq<string>, name: string)
    requires name in reg.positive
    requires Down(reg, name, pressed)
    requires Text.Distinct(names)
    requires name in names
    requires !Truthy(t.prev)
    requires t.edge.Some? && t.edge.value in names ==> t.edge.value == name
    ensures name in Scan(reg, names, pressed, t, cands).1
  {
    var (t1, c1) := Step(reg, names[0], pressed, t, cands);
    if names[0] == name {
      assert name in c1;
      ScanExtendsMember(reg, names[1..], pressed, t1, c1, name);
    } else {
      forall k | 0 <= k < |names[1..]|
        ensures names[1..][k] != names[0]
      {
        assert names[1..][k] == names[k + 1];
      }
      // The pending edge never names the shortcut visited here, so `prev`
      // is at most reset, and a newly pending edge is not visited again.
      assert t.edge != Some(names[0]);
      assert !Truthy(t1.prev);
      assert name in names[1..];
      PositiveFiresInScan(reg, names[1..], pressed, t1, c1, name);
    }
  }

  /** Holding the keys of a positive-edge shortcut after it was triggered and
      cleared does not trigger it again. */
  lemma PositiveHeldDoesNotRefire(reg: Registry, pressed: set<string>, t: Triggers, name: string)
    requires WellFormed(reg)
    requires "" !in reg.bindings
    requires name in reg.positive
    requires t.triggered == Some(name)
    requires Down(reg, name, pressed)
    ensures Clear(reg, t).prev == Some(name)
    ensures name !in Candidates(reg, pressed, Clear(reg, t))
    ensures Poll(reg, pressed, Clear(reg, t)).triggered != Some(name)
  {
    var t2 := Clear(reg, t);
    HeldNoRefireInScan(reg, reg.names, pressed, t2, [], name);
    var cands := Candidates(reg, pressed, t2);
    CandidatesRegistered(reg, reg.names, pressed, t2, []);
    if cands != [] {
      SelectLongest(reg, cands, t2.triggered);
    }
  }

  lemma {:induction false} HeldNoRefireInScan(reg: Registry, names: seq<string>, pressed: set<string>, t: Triggers, cands: seq<string>, name: string)
    requires WellFormed(reg)
    requires "" !in reg.bindings
    requires Text.Distinct(names)
    requires forall k :: 0 <= k < |names| ==> names[k] in reg.bindings
    requires name in reg.positive
    requires Down(reg, name, pressed)
    requires Truthy(t.prev)
    requires t.prev.value in names ==> t.prev.value == name
    requires name !in cands
    ensures name !in Scan(reg, names, pressed, t, cands).1
  {
    if names != [] {
      var (t1, c1) := Step(reg, names[0], pressed, t, cands);
      assert Truthy(t1.prev);
      assert name !in c1;
      forall k | 0 <= k < |names[1..]|
        ensures names[1..][k] != names[0]
      {
        assert names[1..][k] == names[k + 1];
      }
      assert t1.prev.value in names[1..] ==> t1.prev.value == name;
      HeldNoRefireInScan(reg, names[1..], pressed, t1, c1, name);
    }
  }

  /** Once the keys of the remembered edge shortcut are released, the record
      no longer names it. */
  lemma PositiveReleaseResets(reg: Registry, pressed: set<string>, t: Triggers, name: string)
    requires WellFormed(reg)
    requires name in reg.names
    requires !Down(reg, name, pressed)
    requires t.edge != Some(name)
    ensures Poll(reg, pressed, t).prev != Some(name)
  {
    ReleaseResetsInScan(reg, reg.names, pressed, t, [], name);
  }

  lemma {:induction false} ReleaseResetsInScan(reg: Registry, names: seq<string>, pressed: set<string>, t: Triggers, cands: seq<string>, name: string)
    requires !Down(reg, name, pressed)
    requires t.edge != Some(name)
    requires t.prev == Some(name) ==> name in names
    ensures Scan(reg, names, pressed, t, cands).0.prev != Some(name)
    ensures Scan(reg, names, pressed, t, cands).0.edge != Some(name)
  {
    if names != [] {
      var (t1, c1) := Step(reg, names[0], pressed, t, cands);
      assert t1.edge != Some(name);
      assert t1.prev == Some(name) ==> name in names[1..];
      ReleaseResetsInScan(reg, names[1..], pressed, t1, c1, name);
    }
  }

  // Negative edge ---------------------------------------------------------

  /** While the keys of the one negative-edge shortcut are held it is latched as
      the pending edge trigger and is not a candidate. */
  lemma NegativeLatchedWhileHeld(reg: Registry, pressed: set<string>, t: Triggers, name: string)
    requires WellFormed(reg)
    requires reg.positive == {} && reg.negative == {name}
    requires Down(reg, name, pressed)
    requires t.edge == None || t.edge == Some(name)
    ensures Poll(reg, pressed, t).edge == Some(name)
    ensures name !in Candidates(reg, pressed, t)
  {
    assert name in reg.names;
    LatchInScan(reg, reg.names, pressed, t, [], name);
  }

  lemma {:induction false} LatchInScan(reg: Registry, names: seq<string>, pressed: set<string>, t: Triggers, cands: seq<string>, name: string)
    requires reg.positive == {} && reg.negative == {name}
    requires Down(reg, name, pressed)
    requires Text.Distinct(names)
    requires name !in cands
    requires name in names ==> t.edge == None || t.edge == Some(name)
    requires name !in names ==> t.edge == Some(name)
    ensures Scan(reg, names, pressed, t, cands).0.edge == Some(name)
    ensures name !in Scan(reg, names, pressed, t, cands).1
  {
    if names != [] {
      var (t1, c1) := Step(reg, names[0], pressed, t, cands);
      forall k | 0 <= k < |names[1..]|
        ensures names[1..][k] != names[0]
      {
        assert names[1..][k] == names[k + 1];
      }
      assert name !in c1;
      LatchInScan(reg, names[1..], pressed, t1, c1, name);
    }
  }

  /** The one negative-edge shortcut becomes a candidate on the first poll after
      its keys are released; it is then remembered and the latch is dropped. */
  lemma NegativeFiresOnRelease(reg: Registry, pressed: set<string>, t: Triggers, name: string)
    requires WellFormed(reg)
    requires reg.positive == {} && reg.negative == {name}
    requires !Down(reg, name, pressed)
    requires t.edge == Some(name)
    ensures name in Candidates(reg, pressed, t)
    ensures Poll(reg, pressed, t).prev == Some(name)
    ensures Poll(reg, pressed, t).edge == None
  {
    assert name in reg.names;
    ReleaseInScan(reg, reg.names, pressed, t, [], name);
  }

  lemma {:induction false} ReleaseInScan(reg: Registry, names: seq<string>, pressed: set<string>, t: Triggers, cands: seq<string>, name: string)
    requires reg.positive == {} && reg.negative == {name}
    requires !Down(reg, name, pressed)
    requires Text.Distinct(names)
    requires name in names ==> t.edge == Some(name)
    requires name !in names ==> t.edge == None && t.prev == Some(name) && name in cands
    ensures name in Scan(reg, names, pressed, t, cands).1
    ensures Scan(reg, names, pressed, t, cands).0.prev == Some(name)
    ensures Scan(reg, names, pressed, t, cands).0.edge == None
  {
    if names == [] {
    } else {
      var (t1, c1) := Step(reg, names[0], pressed, t, cands);
      forall k | 0 <= k < |names[1..]|
        ensures names[1..][k] != names[0]
      {
        assert names[1..][k] == names[k + 1];
      }
      if names[0] == name {
        assert c1 == cands + [name];
      } else {
        assert t1.edge == t.edge;
        assert Step(reg, names[0], pressed, t, cands).1[..|cands|] == cands;
        assert name in cands ==> name in c1;
      }
      ReleaseInScan(reg, names[1..], pressed, t1, c1, name);
    }
  }

  // ---------------------------------------------------------------------
  // The registry object

  class ShortcutRegistry {
    var names: seq<string>
    var registry: map<string, seq<string>>
    var positive: set<string>
    var negative: set<string>
    var triggered: Option<string>
    var edge: Option<string>
    var prev: Option<string>

    function View(): Registry
      reads this
    {
      Registry(names, registry, positive, negative)
    }

    function State(): Triggers
      reads this
    {
      Triggers(triggered, edge, prev)
    }

    ghost predicate Valid()
      reads this
    {
      WellFormed(View())
    }

    constructor ()
      ensures Valid()
      ensures names == [] && registry == map[] && positive == {} && negative == {}
      ensures State() == Triggers(None, None, None)
    {
      names, registry := [], map[];
      positive, negative := {}, {};
      triggered, edge, prev := None, None, None;
    }

    /** `register(name, key_bindings, edge_trigger)`. */
    method Register(name: string, keyBindings: seq<string>, edgeTrigger: Option<string>) returns (r: Outcome<ShortcutError>)
      requires Valid()
      modifies this
      ensures Valid()
      ensures name in old(registry) ==> r == Fail(AlreadyRegistered(name))
      ensures name !in old(registry) && !Text.Distinct(Text.LowerAll(keyBindings)) ==> r == Fail(DuplicateKeys)
      ensures r.Pass? <==> name !in old(registry) && Text.Distinct(Text.LowerAll(keyBindings))
      ensures r.Fail? ==> View() == old(View())
      ensures r.Pass? ==> View() == Added(old(View()), name, Text.LowerAll(keyBindings), edgeTrigger)
      ensures State() == old(State())
    {
      if name in registry {
        return Fail(AlreadyRegistered(name));
      }
      var lowered := Text.LowerAll(keyBindings);
      Text.DuplicateTest(lowered);
      if |Text.ToSet(lowered)| < |lowered| {
        return Fail(DuplicateKeys);
      }
      var next := Added(View(), name, lowered, edgeTrigger);
      AddedWellFormed(View(), name, lowered, edgeTrigger);
      names, registry := next.names, next.bindings;
      positive, negative := next.positive, next.negative;
      r := Pass;
    }

    /** `unregister(name)` as the code is evidently meant to work: the entry
        and any edge-trigger membership are removed. */
    method Unregister(name: string) returns (r: Outcome<ShortcutError>)
      requires Valid()
      modifies this
      ensures Valid()
      ensures r.Pass? <==> name in old(registry)
      ensures r.Fail? ==> r == Fail(NotRegistered(name)) && View() == old(View())
      ensures r.Pass? ==>
        && registry == old(registry) - {name}
        && names == RemoveName(old(names), name)
        && positive == old(positive) - {name}
        && negative == old(negative) - {name}
      ensures State() == old(State())
    {
      if name !in registry {
        return Fail(NotRegistered(name));
      }
      RemoveNameProperties(names, name);
      registry := registry - {name};
      names := RemoveName(names, name);
      positive := positive - {name};
      negative := negative - {name};
      r := Pass;
    }

    /** `unregister(name)` as written: after the membership test it calls
        `self.registry.remove(name)`, which a dict does not have. */
    method UnregisterAsWritten(name: string) returns (r: Outcome<ShortcutError>)
      requires Valid()
      ensures name !in registry ==> r == Fail(NotRegistered(name))
      ensures name in registry ==> r == Fail(NoRemoveMethod)
    {
      if name !in registry {
        return Fail(NotRegistered(name));
      }
      r := Fail(NoRemoveMethod);
    }

    /** `is_pressed(name)`: an error for an unknown name, otherwise whether
        every bound key is held. */
    function IsPressed(name: string, pressed: set<string>): (r: Result<bool, ShortcutError>)
      reads this
      ensures r.Err? <==> name !in registry
      ensures r.Err? ==> r.error == NotRegistered(name)
      ensures r.Ok? ==> (r.value <==> forall k :: k in registry[name] ==> k in pressed)
    {
      if name !in registry then Err(NotRegistered(name))
      else Ok(AllPressed(registry[name], pressed))
    }

    /** The body of the loop in `poll` for one registered `name`. */
    method VisitName(name: string, pressed: set<string>, candidates: seq<string>) returns (c: seq<string>)
      requires name in registry
      modifies this`edge, this`prev
      ensures (State(), c) == Step(View(), name, pressed, old(State()), candidates)
    {
      c := candidates;
      var down := IsPressed(name, pressed);
      if down == Ok(true) {
        if name in positive {
          // if all keys in the combination are held, do not trigger it again
          if !Truthy(prev) {
            edge := Some(name);
            c := c + [name];
          }
        } else if name in negative {
          if !Truthy(edge) {
            edge := Some(name);
          }
        } else {
          // level-triggered: a candidate on every poll while held
          c := c + [name];
        }
      } else {
        // reset the record of the edge-triggered shortcut
        if Some(name) == prev {
          prev := None;
        }
        // negative edge (key up)
        if Some(name) == edge {
          c := c + [edge.value];
          prev := edge;
          edge := None;
        }
      }
    }

    /** The loop of `poll()` over the registered names. */
    method ScanNames(pressed: set<string>) returns (candidates: seq<string>)
      requires Valid()
      modifies this`edge, this`prev
      ensures Valid() && View() == old(View()) && triggered == old(triggered)
      ensures (State(), candidates) == Scan(View(), names, pressed, old(State()), [])
    {
      ghost var reg := View();
      ghost var t0 := State();
      candidates := [];
      var i := 0;
      while i < |names|
        invariant 0 <= i <= |names|
        invariant View() == reg
        invariant triggered == t0.triggered
        invariant Scan(reg, names[i..], pressed, State(), candidates) == Scan(reg, names, pressed, t0, [])
      {
        ghost var before := State();
        ghost var beforeCands := candidates;
        assert names[i] in names;
        candidates := VisitName(names[i], pressed, candidates);
        assert (State(), candidates) == Step(reg, names[i], pressed, before, beforeCands);
        assert names[i..][1..] == names[i + 1..];
        i := i + 1;
      }
      assert names[i..] == [];
    }

    /** `poll()` with `pressed` the keys held down now. */
    method PollKeys(pressed: set<string>)
      requires Valid()
      modifies this
      ensures Valid() && View() == old(View())
      ensures State() == Poll(old(View()), pressed, old(State()))
    {
      var candidates := ScanNames(pressed);
      CandidatesRegistered(View(), names, pressed, old(State()), []);
      if |candidates| >= 2 {
        var numKeyBindings := BindingCounts(View(), candidates);
        var idx := FirstMax(numKeyBindings);
        triggered := Some(candidates[idx]);
      } else if |candidates| == 1 {
        triggered := Some(candidates[0]);
      }
    }

    /** `clear()`. */
    method ClearTriggered()
      modifies this
      ensures View() == old(View())
      ensures State() == Clear(old(View()), old(State()))
    {
      if triggered.Some? && triggered.value in positive {
        prev := triggered;
        edge := None;
      }
      triggered := None;
    }
  }

  /** As written, unregistering a shortcut that was just registered fails
      with the `AttributeError` instead of removing it. */
  method UnregisterAsWrittenFailsOnRegistered() returns (r: Outcome<ShortcutError>)
    ensures r == Fail(NoRemoveMethod)
  {
    var shortcuts := new ShortcutRegistry();
    var registered := shortcuts.Register("save", ["s"], None);
    r := shortcuts.UnregisterAsWritten("save");
  }

  /** The registry after a successful `register(name, ...)` with lower-cased
      bindings `lowered`: the name is appended to the iteration order and put
      in exactly the edge set `edgeTrigger` names, if any. */
  function Added(reg: Registry, name: string, lowered: seq<string>, edgeTrigger: Option<string>): Registry {
    Registry(
      reg.names + [name],
      reg.bindings[name := lowered],
      reg.positive + (if edgeTrigger == Some("positive") then {name} else {}),
      reg.negative + (if edgeTrigger == Some("negative") then {name} else {}))
  }

  lemma AddedWellFormed(reg: Registry, name: string, lowered: seq<string>, edgeTrigger: Option<string>)
    requires WellFormed(reg)
    requires name !in reg.bindings
    ensures WellFormed(Added(reg, name, lowered, edgeTrigger))
  {
    var names := reg.names + [name];
    assert forall k :: 0 <= k < |reg.names| ==> names[k] == reg.names[k] && reg.names[k] in reg.names;
  }

  /** `names` without `name`, order kept. */
  function RemoveName(names: seq<string>, name: string): seq<string> {
    if names == [] then []
    else if names[0] == name then RemoveName(names[1..], name)
    else [names[0]] + RemoveName(names[1..], name)
  }

  lemma {:induction false} RemoveNameProperties(names: seq<string>, name: string)
    requires Text.Distinct(names)
    ensures forall n :: n in RemoveName(names, name) <==> n in names && n != name
    ensures Text.Distinct(RemoveName(names, name))
  {
    if names != [] {
      assert Text.Distinct(names[1..]) by {
        forall i, j | 0 <= i < j < |names[1..]| ensures names[1..][i] != names[1..][j] {
          assert names[1..][i] == names[i + 1] && names[1..][j] == names[j + 1];
        }
      }
      RemoveNameProperties(names[1..], name);
      assert forall k :: 0 <= k < |names[1..]| ==> names[1..][k] != names[0] by {
        forall k | 0 <= k < |names[1..]| ensures names[1..][k] != names[0] {
          assert names[1..][k] == names[k + 1];
        }
      }
      assert forall n :: n in names <==> n == names[0] || n in names[1..] by {
        assert names == [names[0]] + names[1..];
      }
      if names[0] != name {
        var rest := RemoveName(names[1..], name);
        forall i, j | 0 <= i < j < |[names[0]] + rest|
          ensures ([names[0]] + rest)[i] != ([names[0]] + rest)[j]
        {
          assert ([names[0]] + rest)[j] == rest[j - 1];
          assert rest[j - 1] in rest;
          if i > 0 {
            assert ([names[0]] + rest)[i] == rest[i - 1];
          }
        }
      }
    }
  }
}
