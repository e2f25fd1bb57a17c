/**
 * The mod's hooks into Rewired's controller-map store and Rain World's
 * ControlSetup text, with the static state they share: the record of every
 * loaded controller map (allControllerMapData), the mouse entries of
 * keybinds not registered yet (unknownMouseButtonMappings), and whether the
 * game's options have been loaded (hasLoadedOptions).
 *
 * The keybind catalog `ks` (PlayerKeybind.keybinds) is passed to every hook
 * that reads it, and the PlayerPrefs store is an object the hooks update.
 */
module SaveAndLoadHooks {
  import opened Wrappers
  import opened Text
  import opened Host
  import opened PlayerKeybinds
  import opened ControllerRecords
  import opened MouseOverlay
  import opened LateLoad

  /** What is known of one loaded controller map: the map, and the saved entries of keybinds not registered yet. */
  class CmData {
    const cmap: ControllerMap
    var unbound: seq<string>
    var bound: seq<Mapping>

    constructor (cmap: ControllerMap)
      ensures this.cmap == cmap && unbound == [] && bound == []
    {
      this.cmap := cmap;
      unbound := [];
      bound := [];
    }
  }

  /** Rewired sometimes loads maps whose player id is not a player of the game; the late load skips those. */
  predicate ValidPlayer(d: CmData, controls: seq<ControlSetup>) {
    0 <= d.cmap.playerId < |controls|
  }

  /** The setups' mouse keys, position by position. */
  ghost function MouseKeysOf(controls: seq<ControlSetup>): (r: seq<map<string, int>>)
    reads controls
    ensures |r| == |controls| && forall i :: 0 <= i < |controls| ==> r[i] == controls[i].mouseButtonMappings
  {
    seq(|controls|, i requires 0 <= i < |controls| reads controls => controls[i].mouseButtonMappings)
  }

  /** The setups' unrecognized attributes, position by position. */
  ghost function AttrsOf(controls: seq<ControlSetup>): (r: seq<Option<seq<string>>>)
    reads controls
    ensures |r| == |controls| && forall i :: 0 <= i < |controls| ==> r[i] == controls[i].unrecognizedControlAttrs
  {
    seq(|controls|, i requires 0 <= i < |controls| reads controls => controls[i].unrecognizedControlAttrs)
  }

  /** The state the late load's loop starts from, as values: each record's lists and map by key, each setup's mouse keys and attributes by position, the unknown mouse lists. */
  datatype Snapshot = Snapshot(
    unbound: map<string, seq<string>>, bound: map<string, seq<Mapping>>, maps: map<string, seq<ElementMap>>,
    mouse: seq<map<string, int>>, attrs: seq<Option<seq<string>>>, unknowns: map<ControlSetup, seq<string>>)

  /** One pass of the late load's loop: the keybind, the setups, the key order, the index, the snapshot, and whether the pass ended without an exception. */
  datatype Pass = Pass(pk: Keybind, controls: seq<ControlSetup>, order: seq<string>, n: nat, s: Snapshot, ok: bool)

  /** Every setup still has its other mouse keys and its unrecognized attributes as in the snapshot. */
  ghost predicate ControlsSince(pk: Keybind, controls: seq<ControlSetup>, s: Snapshot)
    reads controls
  {
    && |s.mouse| == |controls| && |s.attrs| == |controls|
    && forall i :: 0 <= i < |controls| ==>
         && controls[i].mouseButtonMappings - {MouseKey(pk.gameAction, pk.axisPositive)}
            == s.mouse[i] - {MouseKey(pk.gameAction, pk.axisPositive)}
         && controls[i].unrecognizedControlAttrs == s.attrs[i]
  }

  /** A pass that changes each setup's mouse keys only at the keybind's own key keeps ControlsSince. */
  twostate lemma ControlsKept(p: Pass)
    requires old(ControlsSince(p.pk, p.controls, p.s))
    requires forall c :: c in p.controls ==>
      && c.mouseButtonMappings - {MouseKey(p.pk.gameAction, p.pk.axisPositive)}
         == old(c.mouseButtonMappings) - {MouseKey(p.pk.gameAction, p.pk.axisPositive)}
      && c.unrecognizedControlAttrs == old(c.unrecognizedControlAttrs)
    ensures ControlsSince(p.pk, p.controls, p.s)
  {
    forall i | 0 <= i < |p.controls|
      ensures p.controls[i].mouseButtonMappings - {MouseKey(p.pk.gameAction, p.pk.axisPositive)}
        == p.s.mouse[i] - {MouseKey(p.pk.gameAction, p.pk.axisPositive)}
      ensures p.controls[i].unrecognizedControlAttrs == p.s.attrs[i]
    {
      assert p.controls[i] in p.controls;
    }
  }

  /**
   * Every setup's mouse keys as the keybind's earliest pending entry would
   * leave them are the same as in the snapshot: the late load applies that
   * entry and drops the list's entries of the keybind.
   */
  ghost predicate MouseSince(pk: Keybind, controls: seq<ControlSetup>, um: map<ControlSetup, seq<string>>, s: Snapshot)
    reads controls
  {
    && |s.mouse| == |controls|
    && forall i :: 0 <= i < |controls| ==>
         MouseAfter(pk, UnknownsOf(um, controls[i]), controls[i].mouseButtonMappings)
         == MouseAfter(pk, UnknownsOf(s.unknowns, controls[i]), s.mouse[i])
  }

  /** The setup of the record's player, when it is one: the only setup a record's late load may change. */
  function PlayerSetup(d: CmData, controls: seq<ControlSetup>): set<ControlSetup> {
    if ValidPlayer(d, controls) then {controls[d.cmap.playerId]} else {}
  }

  /** The unknown mouse lists after one record's late load: a valid player's keyboard setup loses the keybind's entries. */
  function ClearedUnknowns(pk: Keybind, um: map<ControlSetup, seq<string>>, d: CmData, controls: seq<ControlSetup>)
    : map<ControlSetup, seq<string>>
  {
    if ValidPlayer(d, controls) && d.cmap.controllerType == Keyboard && controls[d.cmap.playerId] in um
    then um[controls[d.cmap.playerId] := OtherEntries(um[controls[d.cmap.playerId]], pk.id)]
    else um
  }

  /** A setup's unknown mouse entries; none when it has no list. */
  function UnknownsOf(um: map<ControlSetup, seq<string>>, c: ControlSetup): seq<string> {
    if c in um then um[c] else []
  }

  /** The load hook leaves the map as the host made it: no map, another category, the mouse, or the template player. */
  predicate LoadSkipped(cmap: ControllerMap?, identifierType: ControllerType, categoryId: int, playerName: string) {
    cmap == null || categoryId != 0 || identifierType == Mouse || playerName == "PlayerTemplate"
  }

  /**
   * AddControllerMapping on the map object: when the element id parses, the
   * map is rewritten as the AddControllerMapping function says; when it does
   * not, int.Parse throws (`threw`) before anything changes.
   */
  method AddControllerMappingTo(cmap: ControllerMap, pk: Keybind, m: Mapping) returns (threw: bool)
    modifies cmap
    ensures threw <==> AddControllerMapping(old(cmap.maps), pk, m).None?
    ensures cmap.maps == if threw then old(cmap.maps) else AddControllerMapping(old(cmap.maps), pk, m).value
  {
    var r := AddControllerMapping(cmap.maps, pk, m);
    threw := r.None?;
    if !threw {
      cmap.maps := r.value;
    }
  }

  /** AddMouseMapping on the setup: the keybind's mouse key is set to the parsed button, or int.Parse throws. */
  method AddMouseMappingTo(cs: ControlSetup, pk: Keybind, button: string) returns (threw: bool)
    modifies cs
    ensures threw <==> AddMouseMapping(old(cs.mouseButtonMappings), pk, button).None?
    ensures cs.mouseButtonMappings ==
      if threw then old(cs.mouseButtonMappings) else AddMouseMapping(old(cs.mouseButtonMappings), pk, button).value
    ensures cs.unrecognizedControlAttrs == old(cs.unrecognizedControlAttrs)
  {
    var r := AddMouseMapping(cs.mouseButtonMappings, pk, button);
    threw := r.None?;
    if !threw {
      cs.mouseButtonMappings := r.value;
    }
  }

  /** One tuple of the load loop: a registered keybind's goes into the map, any other into the pending list. */
  method LoadTuple(ks: seq<Keybind>, m: Mapping, d: CmData) returns (threw: bool)
    modifies d, d.cmap
    ensures LoadState(d.cmap.maps, d.bound, threw) == LoadStep(ks, LoadState(old(d.cmap.maps), old(d.bound), false), m)
    ensures d.unbound == old(d.unbound)
  {
    threw := false;
    match Get(ks, m.id) {
      case None =>
        d.bound := d.bound + [m];
      case Some(k) =>
        threw := AddControllerMappingTo(d.cmap, k, m);
    }
  }

  /**
   * The tuple loop of the load hook, over the fields of a stored record from
   * `offset` on: tuples of registered keybinds go into the map, the others
   * into the record's pending list; an exception ends the loop, and what was
   * done before it stays done.
   */
  method LoadTuples(ks: seq<Keybind>, data: seq<string>, offset: int, limit: int, d: CmData)
    requires IsInt32(offset)
    modifies d, d.cmap
    ensures var st := LoadFrom(data, offset, limit, ks, LoadState(old(d.cmap.maps), old(d.bound), false));
      d.cmap.maps == st.maps && d.bound == st.pending
    ensures d.unbound == old(d.unbound)
  {
    ghost var loaded := LoadFrom(data, offset, limit, ks, LoadState(d.cmap.maps, d.bound, false));
    var i := offset;
    var aborted := false;
    while !aborted && i < limit
      invariant IsInt32(i)
      invariant loaded == LoadFrom(data, i, limit, ks, LoadState(d.cmap.maps, d.bound, aborted))
      invariant d.unbound == old(d.unbound)
      decreases if aborted then 0 else if i < 0 then 1 else 2 + limit - i
    {
      ghost var st := LoadState(d.cmap.maps, d.bound, false);
      if i < 0 || i + 3 >= |data| {
        LoadFromOutOfRange(data, i, limit, ks, st, loaded);
        aborted := true;
      } else {
        aborted := LoadTuple(ks, TupleAt(data, i), d);
        LoadFromAdvance(data, i, limit, ks, st, LoadState(d.cmap.maps, d.bound, aborted), loaded);
        if !aborted {
          i := NextIndex(i);
        }
      }
    }
  }

  /** The late load's first walk: every unbound id of the keybind is removed from the record, last first. */
  method DropUnbound(d: CmData, id: string)
    modifies d
    ensures d.unbound == DropId(old(d.unbound), id)
    ensures d.bound == old(d.bound)
  {
    ghost var ids := d.unbound;
    var i := |d.unbound|;
    while i > 0
      invariant 0 <= i <= |ids|
      invariant d.unbound == ids[..i] + DropId(ids[i..], id)
      invariant d.bound == old(d.bound)
    {
      i := i - 1;
      assert ids[i..] == [ids[i]] + ids[i + 1..];
      if d.unbound[i] == id {
        d.unbound := d.unbound[..i] + d.unbound[i + 1..];
      }
    }
    assert ids[0..] == ids;
  }

  /**
   * One tuple of the late load's bound walk, once the walk has not failed: a
   * tuple of the keybind is applied to the map (`consumed`) unless
   * AddControllerMapping throws (`failed`); any other tuple is passed over.
   */
  method BoundStepOn(pk: Keybind, cmap: ControllerMap, b: Mapping, ghost rest: Consumed<seq<ElementMap>, Mapping>)
    returns (consumed: bool, failed: bool)
    requires !rest.failed && rest.state == cmap.maps
    modifies cmap
    ensures BoundStep(pk, b, rest)
         == if consumed then rest.(state := cmap.maps) else rest.(kept := [b] + rest.kept, failed := failed)
    ensures consumed ==> !failed
    ensures !consumed ==> cmap.maps == old(cmap.maps)
  {
    consumed, failed := false, false;
    if b.id == pk.id {
      failed := AddControllerMappingTo(cmap, pk, b);
      consumed := !failed;
    }
  }

  /**
   * The late load's second walk: every bound tuple of the keybind, last
   * first, is applied to the record's map and removed; an exception from
   * AddControllerMapping ends the walk (`failed`) and keeps what was done.
   */
  method ConsumeBoundOf(pk: Keybind, d: CmData) returns (failed: bool)
    modifies d, d.cmap
    ensures var b := ConsumeBound(pk, old(d.cmap.maps), old(d.bound));
      d.cmap.maps == b.state && d.bound == b.kept && failed == b.failed
    ensures d.unbound == old(d.unbound)
  {
    ghost var bs, maps := d.bound, d.cmap.maps;
    ghost var step := (b, rest) => BoundStep(pk, b, rest);
    ghost var r := Consumed(maps, [], false);
    failed := false;
    var i := |d.bound|;
    assert bs[..i] + [] == bs;
    while i > 0 && !failed
      invariant 0 <= i <= |bs|
      invariant r == Walk(step, maps, bs[i..])
      invariant d.bound == bs[..i] + r.kept && d.cmap.maps == r.state && failed == r.failed
      invariant d.unbound == old(d.unbound)
    {
      i := i - 1;
      KeptAt(bs, i, d.bound, r.kept);
      var b := d.bound[i];
      ghost var bound0 := d.bound;
      var consumed;
      consumed, failed := BoundStepOn(pk, d.cmap, b, r);
      if consumed {
        d.bound := d.bound[..i] + d.bound[i + 1..];
      }
      WalkStep(step, maps, bs, i, r, bound0, BoundStep(pk, b, r), d.bound);
      r := BoundStep(pk, b, r);
    }
    if failed {
      ConsumeBoundFailedPrefix(pk, maps, bs[..i], bs[i..]);
      assert bs[..i] + bs[i..] == bs;
    } else {
      assert bs[0..] == bs;
    }
  }

  /**
   * One entry of the late load's mouse walk, once the walk has not failed: an
   * entry of the keybind is applied to the setup (`consumed`) unless it has
   * no button part or the button does not parse (`failed`); any other entry
   * is passed over.
   */
  method MouseStepOn(pk: Keybind, cs: ControlSetup, e: string, ghost rest: Consumed<map<string, int>, string>)
    returns (consumed: bool, failed: bool)
    requires !rest.failed && rest.state == cs.mouseButtonMappings
    modifies cs
    ensures MouseStep(pk, e, rest)
         == if consumed then rest.(state := cs.mouseButtonMappings) else rest.(kept := [e] + rest.kept, failed := failed)
    ensures consumed ==> !failed
    ensures !consumed ==> cs.mouseButtonMappings == old(cs.mouseButtonMappings)
    ensures cs.unrecognizedControlAttrs == old(cs.unrecognizedControlAttrs)
  {
    consumed, failed := false, false;
    var parts := Split(e, EntrySeparator);
    if parts[0] == pk.id {
      if |parts| < 2 {
        failed := true;
      } else {
        failed := AddMouseMappingTo(cs, pk, parts[1]);
        consumed := !failed;
      }
    }
  }

  /**
   * The late load's mouse walk over a setup's unknown entries: every entry
   * of the keybind, last first, is applied to the setup and removed; a
   * missing or unparsable button ends the walk (`failed`).
   */
  method ConsumeMouseOf(pk: Keybind, cs: ControlSetup, entries: seq<string>) returns (kept: seq<string>, failed: bool)
    modifies cs
    ensures var w := ConsumeMouse(pk, old(cs.mouseButtonMappings), entries);
      cs.mouseButtonMappings == w.state && kept == w.kept && failed == w.failed
    ensures cs.unrecognizedControlAttrs == old(cs.unrecognizedControlAttrs)
  {
    ghost var mappings := cs.mouseButtonMappings;
    ghost var step := (e, rest) => MouseStep(pk, e, rest);
    ghost var r := Consumed(mappings, [], false);
    kept := entries;
    failed := false;
    var i := |entries|;
    assert entries[..i] + [] == entries;
    while i > 0 && !failed
      invariant 0 <= i <= |entries|
      invariant r == Walk(step, mappings, entries[i..])
      invariant kept == entries[..i] + r.kept && cs.mouseButtonMappings == r.state && failed == r.failed
      invariant cs.unrecognizedControlAttrs == old(cs.unrecognizedControlAttrs)
    {
      i := i - 1;
      KeptAt(entries, i, kept, r.kept);
      var e := kept[i];
      ghost var kept0 := kept;
      var consumed;
      consumed, failed := MouseStepOn(pk, cs, e, r);
      if consumed {
        kept := kept[..i] + kept[i + 1..];
      }
      WalkStep(step, mappings, entries, i, r, kept0, MouseStep(pk, e, r), kept);
      r := MouseStep(pk, e, r);
    }
    if failed {
      ConsumeMouseFailedPrefix(pk, mappings, entries[..i], entries[i..]);
      assert entries[..i] + entries[i..] == entries;
    } else {
      assert entries[0..] == entries;
    }
  }

  /**
   * The save hook's loop over the modded keybinds: each is saved as unbound
   * when its action has no element map in `maps`, and otherwise as a tuple
   * holding its action's first element map.
   */
  method CollectLive(ks: seq<Keybind>, maps: seq<ElementMap>) returns (unbound: seq<string>, bound: seq<Mapping>)
    requires |ks| >= VanillaKeybindCount
    ensures Entries(unbound, bound) == LiveEntries(ks[VanillaKeybindCount..], maps)
  {
    unbound, bound := [], [];
    var k := VanillaKeybindCount;
    while k < |ks|
      invariant VanillaKeybindCount <= k <= |ks|
      invariant Entries(unbound, bound) == LiveEntries(ks[VanillaKeybindCount..k], maps)
    {
      LiveEntriesNext(ks, maps, VanillaKeybindCount, k);
      match FirstWithAction(maps, ks[k].gameAction) {
        case None =>
          unbound := unbound + [ks[k].id];
        case Some(em) =>
          bound := bound + [MappingOf(ks[k].id, em)];
      }
      k := k + 1;
    }
    assert ks[VanillaKeybindCount..k] == ks[VanillaKeybindCount..];
  }

  /** The hooks' shared static state. */
  class Hooks {
    var allControllerMapData: map<string, CmData>
    var unknownMouseButtonMappings: map<ControlSetup, seq<string>>
    var hasLoadedOptions: bool

    constructor ()
      ensures allControllerMapData == map[] && unknownMouseButtonMappings == map[] && !hasLoadedOptions
    {
      allControllerMapData := map[];
      unknownMouseButtonMappings := map[];
      hasLoadedOptions := false;
    }

    /** The entries a save adds after the live ones: those of the record loaded under the same key, if any. */
    function Pending(key: string): (r: Entries)
      reads this, allControllerMapData.Values
      ensures key !in allControllerMapData ==> r == Entries([], [])
    {
      if key in allControllerMapData then Entries(allControllerMapData[key].unbound, allControllerMapData[key].bound)
      else Entries([], [])
    }

    /** Options.Load: once the game's options are loaded, keybinds registered later are late. */
    method OptionsLoaded()
      modifies this
      ensures hasLoadedOptions
      ensures allControllerMapData == old(allControllerMapData)
      ensures unknownMouseButtonMappings == old(unknownMouseButtonMappings)
    {
      hasLoadedOptions := true;
    }

    /**
     * The save hook, after the host has saved the map: for an enabled store,
     * category 0 and a controller other than the mouse, the record stored
     * under the map's key holds the live entries of the modded keybinds
     * followed by the pending entries of the record loaded under that key.
     */
    method SaveControllerMap(ks: seq<Keybind>, isEnabled: bool, categoryId: int, cmap: ControllerMap,
                             hostKey: string, prefs: PlayerPrefs)
      requires |ks| >= VanillaKeybindCount
      modifies prefs
      ensures !isEnabled || categoryId != 0 || cmap.controllerType == Mouse ==> prefs.store == old(prefs.store)
      ensures isEnabled && categoryId == 0 && cmap.controllerType != Mouse ==>
        var live := LiveEntries(ks[VanillaKeybindCount..], cmap.maps);
        var pending := Pending(StorageKey(hostKey));
        prefs.store == old(prefs.store)[StorageKey(hostKey) := Encode(live.unbound + pending.unbound, live.bound + pending.bound)]
    {
      if !isEnabled || categoryId != 0 || cmap.controllerType == Mouse {
        return;
      }
      var unbound, bound := CollectLive(ks, cmap.maps);
      var key := StorageKey(hostKey);
      if key in allControllerMapData {
        var d := allControllerMapData[key];
        unbound := unbound + d.unbound;
        bound := bound + d.bound;
      } else {
        assert unbound + [] == unbound && bound + [] == bound;
      }
      prefs.store := prefs.store[key := Encode(unbound, bound)];
    }

    /**
     * The load hook, after the host has loaded `cmap`: unless skipped, a new
     * record for the map replaces the one under its key, and the stored value
     * is read into the map and the record's pending list; a value of another
     * version is deleted from the store.
     */
    method LoadControllerMap(ks: seq<Keybind>, cmap: ControllerMap?, identifierType: ControllerType, categoryId: int,
                             playerName: string, hostKey: string, prefs: PlayerPrefs) returns (result: ControllerMap?)
      modifies this, cmap, prefs
      ensures result == cmap
      ensures hasLoadedOptions == old(hasLoadedOptions)
      ensures unknownMouseButtonMappings == old(unknownMouseButtonMappings)
      ensures LoadSkipped(cmap, identifierType, categoryId, playerName) ==>
        && allControllerMapData == old(allControllerMapData)
        && prefs.store == old(prefs.store)
        && (cmap != null ==> cmap.maps == old(cmap.maps))
      ensures !LoadSkipped(cmap, identifierType, categoryId, playerName) ==>
        var key := StorageKey(hostKey);
        && key in allControllerMapData
        && fresh(allControllerMapData[key])
        && allControllerMapData == old(allControllerMapData)[key := allControllerMapData[key]]
        && allControllerMapData[key].cmap == cmap
        && allControllerMapData[key].unbound == []
        && (key !in old(prefs.store) ==>
              prefs.store == old(prefs.store) && cmap.maps == old(cmap.maps) && allControllerMapData[key].bound == [])
        && (key in old(prefs.store) ==>
              match ReadRecord(old(prefs.store)[key], ks, old(cmap.maps))
              case Stale =>
                prefs.store == old(prefs.store) - {key} && cmap.maps == old(cmap.maps) && allControllerMapData[key].bound == []
              case Loaded(st) =>
                prefs.store == old(prefs.store) && cmap.maps == st.maps && allControllerMapData[key].bound == st.pending)
    {
      result := cmap;
      if LoadSkipped(cmap, identifierType, categoryId, playerName) {
        return;
      }
      var key := StorageKey(hostKey);
      var d := new CmData(cmap);
      allControllerMapData := allControllerMapData[key := d];
      if key !in prefs.store {
        return;
      }
      var value := prefs.store[key];
      var data := Split(value, Separator);
      if data[0] != Version {
        prefs.store := prefs.store - {key};
        return;
      }
      // int.Parse on a missing or malformed count throws; the hook catches it
      if |data| < 2 || ParseInt(data[1]).None? {
        return;
      }
      var offset := Wrap32(3 + ParseInt(data[1]).value);
      if |data| < 3 || ParseInt(data[2]).None? {
        return;
      }
      var limit := Wrap32(offset + Wrap32(ParseInt(data[2]).value * 4));
      ReadRecordWithHeader(value, data, ks, cmap.maps, offset, limit);
      LoadTuples(ks, data, offset, limit, d);
    }

    /**
     * The ToString hook: `written` is what the host's ToString produced with
     * the patched mouse writer. When that writer collected modded entries, or
     * the setup has unknown entries, an overlay attribute carrying them all is
     * appended; otherwise the text is the host's.
     */
    function ControlSetupToString(cs: ControlSetup, written: Written): (text: string)
      reads this
      ensures var entries := written.modded + (if cs in unknownMouseButtonMappings then unknownMouseButtonMappings[cs] else []);
        && (|entries| == 0 ==> text == written.text)
        && (|entries| > 0 ==>
              && |written.text| + |AttrSeparator| <= |text|
              && text[..|written.text|] == written.text
              && text[|written.text|..|written.text| + |AttrSeparator|] == AttrSeparator
              && IsOverlayAttr(text[|written.text| + |AttrSeparator|..])
              && (NoneContains(entries, FieldSeparator) ==>
                    ParseOverlay(text[|written.text| + |AttrSeparator|..]) == Some(entries)))
    {
      var entries := written.modded + (if cs in unknownMouseButtonMappings then unknownMouseButtonMappings[cs] else []);
      if |entries| > 0 then
        var token := OverlayToken(entries);
        var text := written.text + AttrSeparator + token;
        assert text[|written.text| + |AttrSeparator|..] == token;
        assert text[..|written.text|] == written.text;
        assert text[|written.text|..|written.text| + |AttrSeparator|] == AttrSeparator;
        assert NoneContains(entries, FieldSeparator) ==> ParseOverlay(token) == Some(entries) by {
          if NoneContains(entries, FieldSeparator) {
            OverlayRoundTrip(entries);
          }
        }
        text
      else written.text
    }

    /**
     * The FromString hook, after the host has read the setup: the last
     * overlay attribute is taken out of the unrecognized attributes (all
     * overlay attributes are dropped), its entries are applied, and on
     * success the setup's unknown entries are replaced by the ones it held.
     * An exception keeps the mappings applied before it and leaves the
     * unknown entries as they were.
     */
    method ControlSetupFromString(ks: seq<Keybind>, cs: ControlSetup)
      modifies this, cs
      ensures allControllerMapData == old(allControllerMapData) && hasLoadedOptions == old(hasLoadedOptions)
      ensures old(cs.unrecognizedControlAttrs).None? || |old(cs.unrecognizedControlAttrs).value| == 0
              || LastOverlayAttr(old(cs.unrecognizedControlAttrs).value).None? ==>
        && unknownMouseButtonMappings == old(unknownMouseButtonMappings)
        && cs.mouseButtonMappings == old(cs.mouseButtonMappings)
        && cs.unrecognizedControlAttrs == old(cs.unrecognizedControlAttrs)
      ensures old(cs.unrecognizedControlAttrs).Some? && LastOverlayAttr(old(cs.unrecognizedControlAttrs).value).Some? ==>
        var attrs := old(cs.unrecognizedControlAttrs).value;
        var token := LastOverlayAttr(attrs).value;
        && cs.unrecognizedControlAttrs == (if |OtherAttrs(attrs)| == 0 then None else Some(OtherAttrs(attrs)))
        && (ParseOverlay(token).None? ==>
              unknownMouseButtonMappings == old(unknownMouseButtonMappings)
              && cs.mouseButtonMappings == old(cs.mouseButtonMappings))
        && (ParseOverlay(token).Some? ==>
              var r := ApplyEntries(ks, MouseLoad(old(cs.mouseButtonMappings), [], false), ParseOverlay(token).value);
              && cs.mouseButtonMappings == r.mappings
              && unknownMouseButtonMappings ==
                 (if r.aborted then old(unknownMouseButtonMappings)
                  else if |r.unknowns| > 0 then (old(unknownMouseButtonMappings) - {cs})[cs := r.unknowns]
                  else old(unknownMouseButtonMappings) - {cs}))
    {
      if cs.unrecognizedControlAttrs.None? || |cs.unrecognizedControlAttrs.value| == 0 {
        return;
      }
      var kept, found := TakeOverlayAttr(cs.unrecognizedControlAttrs.value);
      if found.None? {
        return;
      }
      cs.unrecognizedControlAttrs := if |kept| == 0 then None else Some(kept);
      var entries := ParseOverlay(found.value);
      if entries.None? {
        return;
      }
      var es := entries.value;
      ghost var start := MouseLoad(cs.mouseButtonMappings, [], false);
      var unknowns: seq<string> := [];
      var aborted := false;
      var i := 0;
      while i < |es| && !aborted
        invariant 0 <= i <= |es|
        invariant ApplyEntries(ks, start, es) == ApplyEntries(ks, MouseLoad(cs.mouseButtonMappings, unknowns, aborted), es[i..])
        invariant unknownMouseButtonMappings == old(unknownMouseButtonMappings)
        invariant allControllerMapData == old(allControllerMapData) && hasLoadedOptions == old(hasLoadedOptions)
        invariant cs.unrecognizedControlAttrs == (if |kept| == 0 then None else Some(kept))
      {
        assert es[i..] == [es[i]] + es[i + 1..];
        var parts := Split(es[i], EntrySeparator);
        match Get(ks, parts[0]) {
          case None =>
            unknowns := unknowns + [es[i]];
          case Some(k) =>
            if |parts| < 2 {
              aborted := true;
            } else {
              var m := AddMouseMapping(cs.mouseButtonMappings, k, parts[1]);
              if m.None? {
                aborted := true;
              } else {
                cs.mouseButtonMappings := m.value;
              }
            }
        }
        i := i + 1;
      }
      if !aborted {
        unknownMouseButtonMappings := unknownMouseButtonMappings - {cs};
        if |unknowns| > 0 {
          unknownMouseButtonMappings := unknownMouseButtonMappings[cs := unknowns];
        }
      }
    }

    /**
     * The late load of one record for keybind `pk`: the keybind's unbound
     * ids are dropped, its bound tuples applied to the map and dropped, and
     * on a keyboard map the setup's unknown mouse entries of the keybind are
     * applied and dropped. The walks run from the last entry to the first; an
     * exception ends the record (ok is false) and keeps what was done.
     */
    method LateLoadRecord(pk: Keybind, d: CmData, controls: seq<ControlSetup>) returns (ok: bool)
      modifies this, d, d.cmap, PlayerSetup(d, controls)
      ensures allControllerMapData == old(allControllerMapData) && hasLoadedOptions == old(hasLoadedOptions)
      ensures !ValidPlayer(d, controls) ==>
        && ok && unchanged(this, d, d.cmap)
        && forall c :: c in controls ==> unchanged(c)
      ensures ValidPlayer(d, controls) ==>
        var b := ConsumeBound(pk, old(d.cmap.maps), old(d.bound));
        var cs := controls[d.cmap.playerId];
        && d.unbound == DropId(old(d.unbound), pk.id)
        && d.cmap.maps == b.state && d.bound == b.kept
        && (forall c :: c in controls && c != cs ==> unchanged(c))
        && (b.failed || d.cmap.controllerType != Keyboard || cs !in old(unknownMouseButtonMappings) ==>
              && ok == !b.failed
              && unknownMouseButtonMappings == old(unknownMouseButtonMappings)
              && cs.mouseButtonMappings == old(cs.mouseButtonMappings))
        && (!b.failed && d.cmap.controllerType == Keyboard && cs in old(unknownMouseButtonMappings) ==>
              var w := ConsumeMouse(pk, old(cs.mouseButtonMappings), old(unknownMouseButtonMappings)[cs]);
              && ok == !w.failed
              && cs.mouseButtonMappings == w.state
              && unknownMouseButtonMappings == old(unknownMouseButtonMappings)[cs := w.kept])
      ensures forall c :: c in controls ==> c.unrecognizedControlAttrs == old(c.unrecognizedControlAttrs)
    {
      ok := true;
      if !ValidPlayer(d, controls) {
        return;
      }
      DropUnbound(d, pk.id);
      var failed := ConsumeBoundOf(pk, d);
      if failed {
        ok := false;
        return;
      }
      var cs := controls[d.cmap.playerId];
      if d.cmap.controllerType == Keyboard && cs in unknownMouseButtonMappings {
        var kept;
        kept, failed := ConsumeMouseOf(pk, cs, unknownMouseButtonMappings[cs]);
        ok := !failed;
        unknownMouseButtonMappings := unknownMouseButtonMappings[cs := kept];
      }
    }

    /**
     * What the late load of one record does, between the state before it and
     * the state after: a record of an unknown player keeps its lists and map;
     * when nothing throws, the record and its keyboard setup's unknown mouse
     * list lose exactly the keybind's entries, the map binds the keybind's
     * action as the earliest of the record's pending tuples said, and every
     * setup's mouse keys are what the earliest of its pending entries would
     * leave; the unknown mouse lists only ever lose entries; the map's other
     * actions and the setups' other mouse keys stay as they were.
     */
    twostate predicate RecordCleared(pk: Keybind, d: CmData, controls: seq<ControlSetup>, ok: bool)
      reads this, d, d.cmap, controls
    {
      && unknownMouseButtonMappings.Keys == old(unknownMouseButtonMappings.Keys)
      && (!ValidPlayer(d, controls) ==>
            d.unbound == old(d.unbound) && d.bound == old(d.bound) && d.cmap.maps == old(d.cmap.maps))
      && (ok && ValidPlayer(d, controls) ==> Cleared(pk, d, controls))
      && (ok && ValidPlayer(d, controls) ==>
            d.unbound == DropId(old(d.unbound), pk.id) && d.bound == OtherBound(old(d.bound), pk.id))
      && (ok ==> unknownMouseButtonMappings == ClearedUnknowns(pk, old(unknownMouseButtonMappings), d, controls))
      && (forall c :: c in old(unknownMouseButtonMappings) && c in unknownMouseButtonMappings ==>
            forall e :: e in unknownMouseButtonMappings[c] ==> e in old(unknownMouseButtonMappings)[c])
      && WithoutAction(d.cmap.maps, pk.gameAction) == WithoutAction(old(d.cmap.maps), pk.gameAction)
      && (forall c :: c in controls ==>
            && c.mouseButtonMappings - {MouseKey(pk.gameAction, pk.axisPositive)}
               == old(c.mouseButtonMappings) - {MouseKey(pk.gameAction, pk.axisPositive)}
            && c.unrecognizedControlAttrs == old(c.unrecognizedControlAttrs))
      && (ValidPlayer(d, controls) ==> d.cmap.maps == ConsumeBound(pk, old(d.cmap.maps), old(d.bound)).state)
      && (ok && ValidPlayer(d, controls) ==>
            FirstWithAction(d.cmap.maps, pk.gameAction) == BindingAfter(pk, old(d.bound), old(d.cmap.maps)))
      && (ok ==> forall c :: c in controls ==>
            MouseAfter(pk, UnknownsOf(unknownMouseButtonMappings, c), c.mouseButtonMappings)
            == MouseAfter(pk, UnknownsOf(old(unknownMouseButtonMappings), c), old(c.mouseButtonMappings)))
    }

    /** The late load of one record, as the walk over all records relies on it (RecordCleared). */
    method ClearRecord(pk: Keybind, d: CmData, controls: seq<ControlSetup>) returns (ok: bool)
      modifies this, d, d.cmap, PlayerSetup(d, controls)
      ensures allControllerMapData == old(allControllerMapData) && hasLoadedOptions == old(hasLoadedOptions)
      ensures RecordCleared(pk, d, controls, ok)
      ensures forall e :: e in allControllerMapData.Values && e != d ==> unchanged(e)
      ensures forall e :: e in allControllerMapData.Values && e.cmap != d.cmap ==> unchanged(e.cmap)
    {
      ghost var maps0, bs0, um0 := d.cmap.maps, d.bound, unknownMouseButtonMappings;
      ghost var cs: ControlSetup? := if ValidPlayer(d, controls) then controls[d.cmap.playerId] else null;
      ghost var mm0 := if cs != null then cs.mouseButtonMappings else map[];
      ok := LateLoadRecord(pk, d, controls);
      if cs != null {
        ConsumeBoundKept(pk, maps0, bs0);
        ConsumeBoundOthers(pk, maps0, bs0);
        ConsumeBoundFirstWins(pk, maps0, bs0);
        if cs in um0 && d.cmap.controllerType == Keyboard {
          ConsumeMouseKept(pk, mm0, um0[cs]);
          ConsumeMouseKeptSome(pk, mm0, um0[cs]);
          ConsumeMouseOthers(pk, mm0, um0[cs]);
          ConsumeMouseFirstWins(pk, mm0, um0[cs]);
        }
      }
      forall c | ok && c in controls
        ensures MouseAfter(pk, UnknownsOf(unknownMouseButtonMappings, c), c.mouseButtonMappings)
          == MouseAfter(pk, UnknownsOf(um0, c), old(c.mouseButtonMappings))
      {
        if c == cs && cs in um0 && d.cmap.controllerType == Keyboard {
          assert SavedButton(pk, OtherEntries(um0[cs], pk.id)).None?;
        }
      }
    }

    /** The set of maps of the loaded records, which the late load may rewrite. */
    function Cmaps(): set<ControllerMap>
      reads this, allControllerMapData.Values
    {
      set d | d in allControllerMapData.Values :: d.cmap
    }

    /** The records' unbound lists, by key. */
    ghost function Unbounds(): (r: map<string, seq<string>>)
      reads this, allControllerMapData.Values
      ensures r.Keys == allControllerMapData.Keys
      ensures forall key :: key in r ==> r[key] == allControllerMapData[key].unbound
    {
      map key | key in allControllerMapData :: allControllerMapData[key].unbound
    }

    /** The records' bound tuples, by key. */
    ghost function Bounds(): (r: map<string, seq<Mapping>>)
      reads this, allControllerMapData.Values
      ensures r.Keys == allControllerMapData.Keys
      ensures forall key :: key in r ==> r[key] == allControllerMapData[key].bound
    {
      map key | key in allControllerMapData :: allControllerMapData[key].bound
    }

    /** The records' element maps, by key. */
    ghost function ElementMaps(): (r: map<string, seq<ElementMap>>)
      reads this, allControllerMapData.Values, Cmaps()
      ensures r.Keys == allControllerMapData.Keys
      ensures forall key :: key in r ==> r[key] == allControllerMapData[key].cmap.maps
    {
      map key | key in allControllerMapData :: allControllerMapData[key].cmap.maps
    }

    /** The state the late load's loop starts from. */
    ghost function Snap(controls: seq<ControlSetup>): Snapshot
      reads this, allControllerMapData.Values, Cmaps(), controls
    {
      Snapshot(Unbounds(), Bounds(), ElementMaps(), MouseKeysOf(controls), AttrsOf(controls), unknownMouseButtonMappings)
    }

    /**
     * What the late load keeps of the records since the snapshot: a record of
     * an unknown player is untouched; when nothing has thrown, each list is as
     * it was or has lost the keybind's entries.
     */
    ghost predicate RecordsSince(pk: Keybind, controls: seq<ControlSetup>, s: Snapshot, ok: bool)
      reads this, allControllerMapData.Values
    {
      && s.unbound.Keys == allControllerMapData.Keys && s.bound.Keys == allControllerMapData.Keys
      && forall key :: key in allControllerMapData ==>
           && (!ValidPlayer(allControllerMapData[key], controls) ==>
                 allControllerMapData[key].unbound == s.unbound[key] && allControllerMapData[key].bound == s.bound[key])
           && (ok ==>
                 && (allControllerMapData[key].unbound == s.unbound[key]
                     || allControllerMapData[key].unbound == DropId(s.unbound[key], pk.id))
                 && (allControllerMapData[key].bound == s.bound[key]
                     || allControllerMapData[key].bound == OtherBound(s.bound[key], pk.id)))
    }

    /** Every record's map still binds every other action as in the snapshot. */
    ghost predicate MapsSince(pk: Keybind, s: Snapshot)
      reads this, allControllerMapData.Values, Cmaps()
    {
      && s.maps.Keys == allControllerMapData.Keys
      && forall key :: key in allControllerMapData ==>
           WithoutAction(allControllerMapData[key].cmap.maps, pk.gameAction) == WithoutAction(s.maps[key], pk.gameAction)
    }

    /** When nothing has thrown, each unknown mouse list is as in the snapshot or has lost the keybind's entries. */
    ghost predicate UnknownsSince(pk: Keybind, s: Snapshot, ok: bool)
      reads this
    {
      && unknownMouseButtonMappings.Keys == s.unknowns.Keys
      && (ok ==> forall c :: c in unknownMouseButtonMappings ==>
            || unknownMouseButtonMappings[c] == s.unknowns[c]
            || unknownMouseButtonMappings[c] == OtherEntries(s.unknowns[c], pk.id))
    }

    /** No other record of the table holds the map of the record under `key`. */
    ghost predicate Unshared(key: string)
      requires key in allControllerMapData
      reads this
    {
      forall k :: k in allControllerMapData && allControllerMapData[k] != allControllerMapData[key] ==>
        allControllerMapData[k].cmap != allControllerMapData[key].cmap
    }

    /**
     * When nothing has thrown, each unshared record's map binds the keybind's
     * action as the snapshot's earliest pending tuple would, and the setups'
     * mouse keys are as in MouseSince.
     */
    ghost predicate BindingsSince(pk: Keybind, controls: seq<ControlSetup>, s: Snapshot, ok: bool)
      reads this, allControllerMapData.Values, Cmaps(), controls
    {
      && s.bound.Keys == allControllerMapData.Keys && s.maps.Keys == allControllerMapData.Keys
      && (ok ==> forall key :: key in allControllerMapData && Unshared(key) ==>
            BindingAfter(pk, allControllerMapData[key].bound, allControllerMapData[key].cmap.maps)
            == BindingAfter(pk, s.bound[key], s.maps[key]))
      && (ok ==> MouseSince(pk, controls, unknownMouseButtonMappings, s))
    }

    /** Everything the loop tracks since the snapshot. */
    ghost predicate Since(pk: Keybind, controls: seq<ControlSetup>, s: Snapshot, ok: bool)
      reads this, allControllerMapData.Values, Cmaps(), controls
    {
      && RecordsSince(pk, controls, s, ok) && MapsSince(pk, s)
      && ControlsSince(pk, controls, s) && UnknownsSince(pk, s, ok)
    }

    /** Before the loop every tracked fact holds of the state itself. */
    lemma SinceStart(pk: Keybind, controls: seq<ControlSetup>)
      ensures Since(pk, controls, Snap(controls), true) && BindingsSince(pk, controls, Snap(controls), true)
    {
    }

    /** The records the first `n` keys of `order` name are Cleared, when nothing has thrown. */
    ghost predicate Visited(pk: Keybind, order: seq<string>, n: nat, controls: seq<ControlSetup>, ok: bool)
      requires n <= |order| && forall j :: 0 <= j < |order| ==> order[j] in allControllerMapData
      reads this, allControllerMapData.Values
    {
      ok ==> forall j :: 0 <= j < n && ValidPlayer(allControllerMapData[order[j]], controls) ==>
        Cleared(pk, allControllerMapData[order[j]], controls)
    }

    /** One pass of the late load's loop: ClearRecord on the record under `order[n]`, keeping what is tracked since the snapshot. */
    method ClearStep(pk: Keybind, order: seq<string>, n: nat, controls: seq<ControlSetup>, ghost s: Snapshot)
      returns (ok: bool)
      requires n < |order| && forall j :: 0 <= j < |order| ==> order[j] in allControllerMapData
      requires Since(pk, controls, s, true) && Visited(pk, order, n, controls, true)
      requires BindingsSince(pk, controls, s, true)
      modifies this, allControllerMapData.Values, Cmaps(), controls
      ensures allControllerMapData == old(allControllerMapData) && hasLoadedOptions == old(hasLoadedOptions)
      ensures Since(pk, controls, s, ok) && Visited(pk, order, n + 1, controls, ok)
      ensures BindingsSince(pk, controls, s, ok)
    {
      var d := allControllerMapData[order[n]];
      assert d in allControllerMapData.Values;
      ok := ClearRecord(pk, d, controls);
      StepKept(Pass(pk, controls, order, n, s, ok));
    }

    /** What ClearRecord promises of the pass's record keeps every fact tracked since the snapshot. */
    twostate lemma StepKept(p: Pass)
      requires p.n < |p.order| && forall j :: 0 <= j < |p.order| ==> p.order[j] in allControllerMapData
      requires allControllerMapData == old(allControllerMapData)
      requires old(Since(p.pk, p.controls, p.s, true)) && old(Visited(p.pk, p.order, p.n, p.controls, true))
      requires old(BindingsSince(p.pk, p.controls, p.s, true))
      requires forall e :: e in allControllerMapData.Values && e != allControllerMapData[p.order[p.n]] ==> unchanged(e)
      requires forall e :: e in allControllerMapData.Values && e.cmap != allControllerMapData[p.order[p.n]].cmap ==> unchanged(e.cmap)
      requires RecordCleared(p.pk, allControllerMapData[p.order[p.n]], p.controls, p.ok)
      ensures Since(p.pk, p.controls, p.s, p.ok) && Visited(p.pk, p.order, p.n + 1, p.controls, p.ok)
      ensures BindingsSince(p.pk, p.controls, p.s, p.ok)
    {
      RecordsKept(p);
      MapsKept(p);
      ControlsKept(p);
      UnknownsKept(p);
      ClearedKept(p);
      BindingsKept(p);
    }

    /** ClearRecord on the pass's record keeps RecordsSince: the other records are untouched and it loses the keybind's entries once more. */
    twostate lemma RecordsKept(p: Pass)
      requires p.n < |p.order| && p.order[p.n] in allControllerMapData
      requires old(RecordsSince(p.pk, p.controls, p.s, true))
      requires allControllerMapData == old(allControllerMapData)
      requires forall e :: e in allControllerMapData.Values && e != allControllerMapData[p.order[p.n]] ==> unchanged(e)
      requires var d := allControllerMapData[p.order[p.n]];
        && (!ValidPlayer(d, p.controls) ==> d.unbound == old(d.unbound) && d.bound == old(d.bound))
        && (p.ok && ValidPlayer(d, p.controls) ==>
              d.unbound == DropId(old(d.unbound), p.pk.id) && d.bound == OtherBound(old(d.bound), p.pk.id))
      ensures RecordsSince(p.pk, p.controls, p.s, p.ok)
    {
      var d, id := allControllerMapData[p.order[p.n]], p.pk.id;
      forall key | key in allControllerMapData
        ensures !ValidPlayer(allControllerMapData[key], p.controls) ==>
          allControllerMapData[key].unbound == p.s.unbound[key] && allControllerMapData[key].bound == p.s.bound[key]
        ensures p.ok ==>
          && (allControllerMapData[key].unbound == p.s.unbound[key]
              || allControllerMapData[key].unbound == DropId(p.s.unbound[key], id))
          && (allControllerMapData[key].bound == p.s.bound[key]
              || allControllerMapData[key].bound == OtherBound(p.s.bound[key], id))
      {
        var e := allControllerMapData[key];
        if e != d {
          assert e in allControllerMapData.Values;
          assert e.unbound == old(e.unbound) && e.bound == old(e.bound);
        } else if p.ok && ValidPlayer(d, p.controls) {
          DropIdAbsent(DropId(p.s.unbound[key], id), id);
          OtherBoundAbsent(OtherBound(p.s.bound[key], id), id);
        }
      }
    }

    /** ClearRecord on the pass's record keeps MapsSince: only its map changes, and only in the keybind's action. */
    twostate lemma MapsKept(p: Pass)
      requires p.n < |p.order| && p.order[p.n] in allControllerMapData
      requires old(MapsSince(p.pk, p.s))
      requires allControllerMapData == old(allControllerMapData)
      requires var m := allControllerMapData[p.order[p.n]].cmap;
        && (forall e :: e in allControllerMapData.Values && e.cmap != m ==> unchanged(e.cmap))
        && WithoutAction(m.maps, p.pk.gameAction) == WithoutAction(old(m.maps), p.pk.gameAction)
      ensures MapsSince(p.pk, p.s)
    {
      forall key | key in allControllerMapData
        ensures WithoutAction(allControllerMapData[key].cmap.maps, p.pk.gameAction)
          == WithoutAction(p.s.maps[key], p.pk.gameAction)
      {
        assert allControllerMapData[key] in allControllerMapData.Values;
      }
    }

    /** ClearRecord on the pass's record keeps UnknownsSince: the cleared list loses the keybind's entries once more. */
    twostate lemma UnknownsKept(p: Pass)
      requires p.n < |p.order| && p.order[p.n] in allControllerMapData
      requires old(UnknownsSince(p.pk, p.s, true))
      requires unknownMouseButtonMappings.Keys == old(unknownMouseButtonMappings.Keys)
      requires p.ok ==>
        unknownMouseButtonMappings
        == ClearedUnknowns(p.pk, old(unknownMouseButtonMappings), allControllerMapData[p.order[p.n]], p.controls)
      ensures UnknownsSince(p.pk, p.s, p.ok)
    {
      var d := allControllerMapData[p.order[p.n]];
      if p.ok && ValidPlayer(d, p.controls) && p.controls[d.cmap.playerId] in p.s.unknowns {
        OtherEntriesAbsent(OtherEntries(p.s.unknowns[p.controls[d.cmap.playerId]], p.pk.id), p.pk.id);
      }
    }

    /** ClearRecord on the pass's record keeps every visited record Cleared: the others are untouched and the mouse lists only lose entries. */
    twostate lemma ClearedKept(p: Pass)
      requires p.n < |p.order| && forall j :: 0 <= j < |p.order| ==> p.order[j] in allControllerMapData
      requires allControllerMapData == old(allControllerMapData)
      requires forall e :: e in allControllerMapData.Values && e != allControllerMapData[p.order[p.n]] ==> unchanged(e)
      requires p.ok && ValidPlayer(allControllerMapData[p.order[p.n]], p.controls) ==>
        Cleared(p.pk, allControllerMapData[p.order[p.n]], p.controls)
      requires unknownMouseButtonMappings.Keys == old(unknownMouseButtonMappings.Keys)
      requires forall c :: c in old(unknownMouseButtonMappings) && c in unknownMouseButtonMappings ==>
        forall x :: x in unknownMouseButtonMappings[c] ==> x in old(unknownMouseButtonMappings)[c]
      requires old(Visited(p.pk, p.order, p.n, p.controls, true))
      ensures Visited(p.pk, p.order, p.n + 1, p.controls, p.ok)
    {
      forall j | p.ok && 0 <= j < p.n && ValidPlayer(allControllerMapData[p.order[j]], p.controls)
        ensures Cleared(p.pk, allControllerMapData[p.order[j]], p.controls)
      {
        var e := allControllerMapData[p.order[j]];
        if e != allControllerMapData[p.order[p.n]] {
          assert e in allControllerMapData.Values;
          assert e.unbound == old(e.unbound) && e.bound == old(e.bound);
        }
      }
    }

    /** ClearRecord on the pass's record keeps BindingsSince: the cleared record has no pending tuple left, and the other unshared records keep their maps. */
    twostate lemma BindingsKept(p: Pass)
      requires p.n < |p.order| && p.order[p.n] in allControllerMapData
      requires old(BindingsSince(p.pk, p.controls, p.s, true))
      requires allControllerMapData == old(allControllerMapData)
      requires forall e :: e in allControllerMapData.Values && e != allControllerMapData[p.order[p.n]] ==> unchanged(e)
      requires var d := allControllerMapData[p.order[p.n]];
        && (forall e :: e in allControllerMapData.Values && e.cmap != d.cmap ==> unchanged(e.cmap))
        && (!ValidPlayer(d, p.controls) ==> d.bound == old(d.bound) && d.cmap.maps == old(d.cmap.maps))
        && (p.ok && ValidPlayer(d, p.controls) ==>
              && (forall m :: m in d.bound ==> m.id != p.pk.id)
              && FirstWithAction(d.cmap.maps, p.pk.gameAction) == BindingAfter(p.pk, old(d.bound), old(d.cmap.maps)))
      requires p.ok ==> forall c :: c in p.controls ==>
        MouseAfter(p.pk, UnknownsOf(unknownMouseButtonMappings, c), c.mouseButtonMappings)
        == MouseAfter(p.pk, UnknownsOf(old(unknownMouseButtonMappings), c), old(c.mouseButtonMappings))
      ensures BindingsSince(p.pk, p.controls, p.s, p.ok)
    {
      var d, pk := allControllerMapData[p.order[p.n]], p.pk;
      forall key | p.ok && key in allControllerMapData && Unshared(key)
        ensures BindingAfter(pk, allControllerMapData[key].bound, allControllerMapData[key].cmap.maps)
          == BindingAfter(pk, p.s.bound[key], p.s.maps[key])
      {
        var e := allControllerMapData[key];
        assert e in allControllerMapData.Values;
        if e != d {
          assert d in allControllerMapData.Values && e.cmap != d.cmap;
        }
      }
      forall i | p.ok && 0 <= i < |p.controls|
        ensures MouseAfter(pk, UnknownsOf(unknownMouseButtonMappings, p.controls[i]), p.controls[i].mouseButtonMappings)
          == MouseAfter(pk, UnknownsOf(p.s.unknowns, p.controls[i]), p.s.mouse[i])
      {
        assert p.controls[i] in p.controls;
      }
    }

    /** The loop of LateLoadKeybindData: ClearRecord on every record in `order`, stopping at the first exception. */
    method ClearRecords(pk: Keybind, order: seq<string>, controls: seq<ControlSetup>, ghost s: Snapshot)
      returns (ok: bool)
      requires forall j :: 0 <= j < |order| ==> order[j] in allControllerMapData
      requires s == Snap(controls)
      modifies this, allControllerMapData.Values, Cmaps(), controls
      ensures allControllerMapData == old(allControllerMapData) && hasLoadedOptions == old(hasLoadedOptions)
      ensures Since(pk, controls, s, ok) && Visited(pk, order, |order|, controls, ok)
      ensures BindingsSince(pk, controls, s, ok)
    {
      SinceStart(pk, controls);
      ok := true;
      var n := 0;
      while n < |order| && ok
        invariant 0 <= n <= |order|
        invariant allControllerMapData == old(allControllerMapData) && hasLoadedOptions == old(hasLoadedOptions)
        invariant Since(pk, controls, s, ok) && Visited(pk, order, n, controls, ok)
        invariant BindingsSince(pk, controls, s, ok)
      {
        assert allControllerMapData[order[n]].cmap in Cmaps();
        ok := ClearStep(pk, order, n, controls, s);
        n := n + 1;
      }
    }

    /** What the snapshot and the facts tracked since it say, once the loop has ended, about the state before it. */
    twostate lemma LoopFinished(p: Pass)
      requires forall key :: key in allControllerMapData <==> key in p.order
      requires allControllerMapData == old(allControllerMapData)
      requires p.s == old(Snap(p.controls))
      requires Since(p.pk, p.controls, p.s, p.ok) && Visited(p.pk, p.order, |p.order|, p.controls, p.ok)
      ensures unknownMouseButtonMappings.Keys == old(unknownMouseButtonMappings.Keys)
      ensures forall key :: key in allControllerMapData && !ValidPlayer(allControllerMapData[key], p.controls) ==>
        && allControllerMapData[key].unbound == old(allControllerMapData[key].unbound)
        && allControllerMapData[key].bound == old(allControllerMapData[key].bound)
      ensures p.ok ==> forall key :: key in allControllerMapData && ValidPlayer(allControllerMapData[key], p.controls) ==>
        Cleared(p.pk, allControllerMapData[key], p.controls)
      ensures forall key :: key in allControllerMapData ==>
        WithoutAction(allControllerMapData[key].cmap.maps, p.pk.gameAction)
        == WithoutAction(old(allControllerMapData[key].cmap.maps), p.pk.gameAction)
      ensures forall c :: c in p.controls ==>
        && c.mouseButtonMappings - {MouseKey(p.pk.gameAction, p.pk.axisPositive)}
           == old(c.mouseButtonMappings) - {MouseKey(p.pk.gameAction, p.pk.axisPositive)}
        && c.unrecognizedControlAttrs == old(c.unrecognizedControlAttrs)
      ensures p.ok ==> forall key :: key in allControllerMapData && ValidPlayer(allControllerMapData[key], p.controls) ==>
        && allControllerMapData[key].unbound == DropId(old(allControllerMapData[key].unbound), p.pk.id)
        && allControllerMapData[key].bound == OtherBound(old(allControllerMapData[key].bound), p.pk.id)
      ensures p.ok ==> forall c :: c in unknownMouseButtonMappings ==>
        || unknownMouseButtonMappings[c] == old(unknownMouseButtonMappings[c])
        || unknownMouseButtonMappings[c] == OtherEntries(old(unknownMouseButtonMappings[c]), p.pk.id)
    {
      var pk, controls := p.pk, p.controls;
      forall c | c in controls
        ensures c.mouseButtonMappings - {MouseKey(pk.gameAction, pk.axisPositive)}
          == old(c.mouseButtonMappings) - {MouseKey(pk.gameAction, pk.axisPositive)}
        ensures c.unrecognizedControlAttrs == old(c.unrecognizedControlAttrs)
      {
        var i :| 0 <= i < |controls| && controls[i] == c;
      }
      forall key | p.ok && key in allControllerMapData && ValidPlayer(allControllerMapData[key], controls)
        ensures Cleared(pk, allControllerMapData[key], controls)
        ensures allControllerMapData[key].unbound == DropId(p.s.unbound[key], pk.id)
        ensures allControllerMapData[key].bound == OtherBound(p.s.bound[key], pk.id)
      {
        var j :| 0 <= j < |p.order| && p.order[j] == key;
        if allControllerMapData[key].unbound == p.s.unbound[key] {
          DropIdAbsent(p.s.unbound[key], pk.id);
        }
        if allControllerMapData[key].bound == p.s.bound[key] {
          OtherBoundAbsent(p.s.bound[key], pk.id);
        }
      }
    }

    /**
     * Once the loop has ended without an exception, every unshared record of a
     * known player binds the keybind's action as the earliest of its pending
     * tuples said.
     */
    twostate lemma MapBindingsFinished(p: Pass)
      requires allControllerMapData == old(allControllerMapData)
      requires p.s == old(Snap(p.controls))
      requires BindingsSince(p.pk, p.controls, p.s, p.ok)
      requires p.ok ==> forall key :: key in allControllerMapData && ValidPlayer(allControllerMapData[key], p.controls) ==>
        Cleared(p.pk, allControllerMapData[key], p.controls)
      ensures p.ok ==> forall key :: key in allControllerMapData && ValidPlayer(allControllerMapData[key], p.controls) && Unshared(key) ==>
        FirstWithAction(allControllerMapData[key].cmap.maps, p.pk.gameAction)
        == BindingAfter(p.pk, old(allControllerMapData[key].bound), old(allControllerMapData[key].cmap.maps))
    {
      forall key | p.ok && key in allControllerMapData && ValidPlayer(allControllerMapData[key], p.controls) && Unshared(key)
        ensures FirstWithAction(allControllerMapData[key].cmap.maps, p.pk.gameAction)
          == BindingAfter(p.pk, old(allControllerMapData[key].bound), old(allControllerMapData[key].cmap.maps))
      {
        assert SavedBinding(p.pk, allControllerMapData[key].bound).None?;
      }
    }

    /**
     * Once the loop has ended without an exception, a keyboard record's setup
     * holds, under the keybind's mouse key, the button of the earliest of its
     * pending mouse entries.
     */
    twostate lemma MouseBindingsFinished(p: Pass)
      requires allControllerMapData == old(allControllerMapData)
      requires p.s == old(Snap(p.controls))
      requires BindingsSince(p.pk, p.controls, p.s, p.ok)
      requires unknownMouseButtonMappings.Keys == old(unknownMouseButtonMappings.Keys)
      requires p.ok ==> forall key :: key in allControllerMapData && ValidPlayer(allControllerMapData[key], p.controls) ==>
        Cleared(p.pk, allControllerMapData[key], p.controls)
      ensures p.ok ==> forall key ::
        (&& key in allControllerMapData && ValidPlayer(allControllerMapData[key], p.controls)
         && allControllerMapData[key].cmap.controllerType == Keyboard
         && p.controls[allControllerMapData[key].cmap.playerId] in old(unknownMouseButtonMappings)) ==>
          p.controls[allControllerMapData[key].cmap.playerId].mouseButtonMappings
          == MouseAfter(p.pk, old(unknownMouseButtonMappings)[p.controls[allControllerMapData[key].cmap.playerId]],
                        old(p.controls[allControllerMapData[key].cmap.playerId].mouseButtonMappings))
    {
      var pk, controls := p.pk, p.controls;
      forall key | (&& p.ok && key in allControllerMapData && ValidPlayer(allControllerMapData[key], controls)
                    && allControllerMapData[key].cmap.controllerType == Keyboard
                    && controls[allControllerMapData[key].cmap.playerId] in old(unknownMouseButtonMappings))
        ensures controls[allControllerMapData[key].cmap.playerId].mouseButtonMappings
          == MouseAfter(pk, old(unknownMouseButtonMappings)[controls[allControllerMapData[key].cmap.playerId]],
                        old(controls[allControllerMapData[key].cmap.playerId].mouseButtonMappings))
      {
        var i := allControllerMapData[key].cmap.playerId;
        var cs := controls[i];
        assert cs in unknownMouseButtonMappings && Cleared(pk, allControllerMapData[key], controls);
        assert SavedButton(pk, UnknownsOf(unknownMouseButtonMappings, cs)).None?;
        assert p.s.mouse[i] == old(cs.mouseButtonMappings) && p.s.unknowns == old(unknownMouseButtonMappings);
        calc {
          cs.mouseButtonMappings;
          MouseAfter(pk, UnknownsOf(unknownMouseButtonMappings, cs), cs.mouseButtonMappings);
          MouseAfter(pk, UnknownsOf(p.s.unknowns, cs), p.s.mouse[i]);
        }
      }
    }

    /**
     * LateLoadKeybindData: for a modded keybind registered after the options
     * were loaded, every loaded record gives up the keybind's saved entries
     * (in the dictionary's enumeration order, `order`). An exception from a
     * record ends the whole load and propagates (ok is false).
     */
    method LateLoadKeybindData(pk: Keybind, order: seq<string>, controls: seq<ControlSetup>) returns (ok: bool)
      requires forall key :: key in allControllerMapData <==> key in order
      modifies this, allControllerMapData.Values, Cmaps(), controls
      ensures allControllerMapData == old(allControllerMapData) && hasLoadedOptions == old(hasLoadedOptions)
      ensures !hasLoadedOptions || IsVanilla(pk) ==>
        && ok && unknownMouseButtonMappings == old(unknownMouseButtonMappings)
        && (forall d :: d in allControllerMapData.Values ==> unchanged(d) && unchanged(d.cmap))
        && (forall c :: c in controls ==> unchanged(c))
      ensures forall key :: key in allControllerMapData && !ValidPlayer(allControllerMapData[key], controls) ==>
        && allControllerMapData[key].unbound == old(allControllerMapData[key].unbound)
        && allControllerMapData[key].bound == old(allControllerMapData[key].bound)
      ensures ok && hasLoadedOptions && IsModded(pk) ==>
        forall key :: key in allControllerMapData && ValidPlayer(allControllerMapData[key], controls) ==>
          && pk.id !in allControllerMapData[key].unbound
          && (forall m :: m in allControllerMapData[key].bound ==> m.id != pk.id)
      ensures ok && hasLoadedOptions && IsModded(pk) ==>
        forall key ::
          (&& key in allControllerMapData && ValidPlayer(allControllerMapData[key], controls)
           && allControllerMapData[key].cmap.controllerType == Keyboard
           && controls[allControllerMapData[key].cmap.playerId] in unknownMouseButtonMappings) ==>
            forall e :: e in unknownMouseButtonMappings[controls[allControllerMapData[key].cmap.playerId]] ==> EntryId(e) != pk.id
      ensures unknownMouseButtonMappings.Keys == old(unknownMouseButtonMappings.Keys)
      ensures forall key :: key in allControllerMapData ==>
        WithoutAction(allControllerMapData[key].cmap.maps, pk.gameAction)
        == WithoutAction(old(allControllerMapData[key].cmap.maps), pk.gameAction)
      ensures forall c :: c in controls ==>
        && c.mouseButtonMappings - {MouseKey(pk.gameAction, pk.axisPositive)}
           == old(c.mouseButtonMappings) - {MouseKey(pk.gameAction, pk.axisPositive)}
        && c.unrecognizedControlAttrs == old(c.unrecognizedControlAttrs)
      ensures ok && hasLoadedOptions && IsModded(pk) ==>
        forall key :: key in allControllerMapData && ValidPlayer(allControllerMapData[key], controls) ==>
          && allControllerMapData[key].unbound == DropId(old(allControllerMapData[key].unbound), pk.id)
          && allControllerMapData[key].bound == OtherBound(old(allControllerMapData[key].bound), pk.id)
      ensures ok && hasLoadedOptions && IsModded(pk) ==>
        forall c :: c in unknownMouseButtonMappings ==>
          || unknownMouseButtonMappings[c] == old(unknownMouseButtonMappings[c])
          || unknownMouseButtonMappings[c] == OtherEntries(old(unknownMouseButtonMappings[c]), pk.id)
      ensures ok && hasLoadedOptions && IsModded(pk) ==>
        forall key :: key in allControllerMapData && Unshared(key) ==>
          var d := allControllerMapData[key];
          ValidPlayer(d, controls) ==>
            FirstWithAction(d.cmap.maps, pk.gameAction) == BindingAfter(pk, old(d.bound), old(d.cmap.maps))
      ensures ok && hasLoadedOptions && IsModded(pk) ==>
        forall key :: key in allControllerMapData ==>
          var d := allControllerMapData[key];
          ValidPlayer(d, controls) && d.cmap.controllerType == Keyboard ==>
            var cs := controls[d.cmap.playerId];
            cs in old(unknownMouseButtonMappings) ==>
              cs.mouseButtonMappings == MouseAfter(pk, old(unknownMouseButtonMappings)[cs], old(cs.mouseButtonMappings))
    {
      ok := true;
      if !hasLoadedOptions || IsVanilla(pk) {
        return;
      }
      ghost var s := Snap(controls);
      ok := ClearRecords(pk, order, controls, s);
      LoopFinished(Pass(pk, controls, order, |order|, s, ok));
      MapBindingsFinished(Pass(pk, controls, order, |order|, s, ok));
      MouseBindingsFinished(Pass(pk, controls, order, |order|, s, ok));
    }

    /** The record holds no entry of `pk`, and neither does the keyboard setup's unknown mouse list. */
    ghost predicate Cleared(pk: Keybind, d: CmData, controls: seq<ControlSetup>)
      requires ValidPlayer(d, controls)
      reads this, d
    {
      && pk.id !in d.unbound
      && (forall m :: m in d.bound ==> m.id != pk.id)
      && (d.cmap.controllerType == Keyboard && controls[d.cmap.playerId] in unknownMouseButtonMappings ==>
            forall e :: e in unknownMouseButtonMappings[controls[d.cmap.playerId]] ==> EntryId(e) != pk.id)
    }

    /**
     * ClearUnloadedKeys: a keyboard setup forgets its unknown mouse entries,
     * a gamepad setup keeps them; the record under the setup's current
     * controller key is forgotten.
     */
    method ClearUnloadedKeys(cs: ControlSetup, hostKey: string)
      modifies this
      ensures unknownMouseButtonMappings == if cs.gamePad then old(unknownMouseButtonMappings) else old(unknownMouseButtonMappings) - {cs}
      ensures allControllerMapData == old(allControllerMapData) - {StorageKey(hostKey)}
      ensures hasLoadedOptions == old(hasLoadedOptions)
    {
      if !cs.gamePad {
        unknownMouseButtonMappings := unknownMouseButtonMappings - {cs};
      }
      allControllerMapData := allControllerMapData - {StorageKey(hostKey)};
    }
  }
}
