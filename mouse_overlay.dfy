/**
 * The overlay Improved Input Config adds to Rain World's saved ControlSetup
 * text for mouse bindings of modded keybinds. The host writes one attribute
 * per mouse mapping; the patched writer keeps the vanilla ones and collects
 * "id|button" entries for modded ones, which the ToString hook appends as one
 * more attribute, "iic:mousemaps<ctrlB>1.5<ctrlB>entry<ctrlB>entry...". On
 * load the FromString hook takes that attribute out of the host's
 * unrecognised attributes and applies its entries.
 */
module MouseOverlay {
  import opened Wrappers
  import opened Text
  import opened Host
  import opened PlayerKeybinds
  import ControllerRecords

  const Marker: string := "iic:mousemaps"
  const AttrSeparator: string := "<ctrlA>"
  const FieldSeparator: string := "<ctrlB>"
  const EntrySeparator: string := "|"

  // ---------------------------------------------------------------------
  // Writing
  // ---------------------------------------------------------------------

  /** The host's text so far, and the overlay entries collected for modded keybinds. */
  datatype Written = Written(text: string, modded: seq<string>)

  /** The overlay entry of a modded keybind bound to a mouse button. */
  function Entry(id: string, button: int): string {
    id + EntrySeparator + IntToString(button)
  }

  /**
   * ControlSetup_WriteMouseButtonMapping for one (key, value) pair of the
   * setup's mouseButtonMappings. None is the exception int.Parse throws on the
   * key's action part, or the index error of a key without a second part.
   */
  function WriteMouseButtonMapping(ks: seq<Keybind>, acc: Written, key: string, value: int): (r: Option<Written>)
    ensures r.None? <==> ParseInt(Split(key, ",")[0]).None? || |Split(key, ",")| < 2
    ensures r.Some? ==> r.value.modded == acc.modded || r.value.text == acc.text
  {
    var parts := Split(key, ",");
    match ParseInt(parts[0])
    case None => None
    case Some(actionId) =>
      if |parts| < 2 then None
      else
        match FindByAction(ks, actionId, parts[1] == "1")
        case None => Some(acc)
        case Some(k) =>
          if IsVanilla(k) then Some(acc.(text := acc.text + key + ":" + IntToString(value) + FieldSeparator))
          else if value != -1 then Some(acc.(modded := acc.modded + [Entry(k.id, value)]))
          else Some(acc)
  }

  /** The host's loop over mouseButtonMappings, in the dictionary's order, with the patched writer. */
  function WriteMouseMappings(ks: seq<Keybind>, acc: Written, pairs: seq<(string, int)>): (r: Option<Written>)
    ensures r.Some? ==> |r.value.modded| >= |acc.modded| && r.value.modded[..|acc.modded|] == acc.modded
    decreases |pairs|
  {
    if |pairs| == 0 then Some(acc)
    else
      match WriteMouseButtonMapping(ks, acc, pairs[0].0, pairs[0].1)
      case None => None
      case Some(next) =>
        var r := WriteMouseMappings(ks, next, pairs[1..]);
        assert r.Some? ==> r.value.modded[..|acc.modded|] == r.value.modded[..|next.modded|][..|acc.modded|];
        r
  }

  /** An entry written for a registered modded keybind with a mouse button. */
  ghost predicate IsModdedEntry(ks: seq<Keybind>, e: string) {
    exists k, v :: k in ks && IsModded(k) && v != -1 && e == Entry(k.id, v)
  }

  /** The writer collects an entry only for a modded keybind of the catalog whose button is not -1. */
  lemma {:induction false} WrittenEntriesModded(ks: seq<Keybind>, acc: Written, pairs: seq<(string, int)>)
    requires WriteMouseMappings(ks, acc, pairs).Some?
    ensures var r := WriteMouseMappings(ks, acc, pairs).value;
      forall j :: |acc.modded| <= j < |r.modded| ==> IsModdedEntry(ks, r.modded[j])
    decreases |pairs|
  {
    if |pairs| > 0 {
      var next := WriteMouseButtonMapping(ks, acc, pairs[0].0, pairs[0].1).value;
      var r := WriteMouseMappings(ks, acc, pairs).value;
      WriteOneModded(ks, acc, pairs[0].0, pairs[0].1);
      WrittenEntriesModded(ks, next, pairs[1..]);
      assert r == WriteMouseMappings(ks, next, pairs[1..]).value;
      forall j | |acc.modded| <= j < |r.modded|
        ensures IsModdedEntry(ks, r.modded[j])
      {
        if j < |next.modded| {
          assert r.modded[j] == r.modded[..|next.modded|][j] == next.modded[j];
        }
      }
    }
  }

  /** One mapping adds at most one entry, and only for a modded keybind of the catalog whose button is not -1. */
  lemma {:induction false} WriteOneModded(ks: seq<Keybind>, acc: Written, key: string, value: int)
    requires WriteMouseButtonMapping(ks, acc, key, value).Some?
    ensures var next := WriteMouseButtonMapping(ks, acc, key, value).value;
      || next.modded == acc.modded
      || (|next.modded| == |acc.modded| + 1 && next.modded[..|acc.modded|] == acc.modded
          && IsModdedEntry(ks, next.modded[|acc.modded|]))
  {
    var parts := Split(key, ",");
    var next := WriteMouseButtonMapping(ks, acc, key, value).value;
    if next.modded != acc.modded {
      var found := FindByAction(ks, ParseInt(parts[0]).value, parts[1] == "1");
      var k := found.value;
      FindByActionMembers(ks, ParseInt(parts[0]).value, parts[1] == "1");
      var i :| IsFirstWithAction(ks, ParseInt(parts[0]).value, parts[1] == "1", i) && ks[i] == k;
      assert k in ks;
      assert next.modded == acc.modded + [Entry(k.id, value)];
    }
  }

  /** The text and the overlay entry written for a modded keybind's mouse mapping under its own key. */
  lemma {:induction false} WriteModdedMapping(ks: seq<Keybind>, i: nat, acc: Written, value: int)
    requires WellFormed(ks) && VanillaKeybindCount <= i < |ks| && IsInt32(ks[i].gameAction)
    ensures WriteMouseButtonMapping(ks, acc, MouseKey(ks[i].gameAction, ks[i].axisPositive), value)
         == Some(if value == -1 then acc else acc.(modded := acc.modded + [Entry(ks[i].id, value)]))
  {
    var k := ks[i];
    RegisteredEntry(ks, i);
    MouseKeySplits(k.gameAction, k.axisPositive);
    FindByActionUnique(ks, k.gameAction, k.axisPositive, i);
  }

  /** A mouse key splits back into its action and its side. */
  lemma {:induction false} MouseKeySplits(action: int, axisPositive: bool)
    requires IsInt32(action)
    ensures var parts := Split(MouseKey(action, axisPositive), ",");
      |parts| == 2 && ParseInt(parts[0]) == Some(action) && (parts[1] == "1" <==> axisPositive)
  {
    var side := if axisPositive then "1" else "0";
    IntToStringAvoids(action, ",");
    MissingFirstCharNotContained(side, ",");
    assert Join(",", [IntToString(action), side]) == MouseKey(action, axisPositive);
    SplitJoin(",", [IntToString(action), side]);
    ParseIntToString(action);
  }

  /** ControlSetup_ToString's extra attribute, written after the version. */
  function OverlayToken(entries: seq<string>): (token: string)
    ensures StartsWith(token, Marker)
  {
    var token := Marker + FieldSeparator + ControllerRecords.Version + FieldSeparator + Join(FieldSeparator, entries);
    assert token[..|Marker|] == Marker;
    token
  }

  // ---------------------------------------------------------------------
  // Reading
  // ---------------------------------------------------------------------

  /**
   * Regex.Split of the overlay attribute by "<ctrlB>": its entries when the
   * second field is the version; None when it is another version, or when
   * there is no second field (the index error the hook catches). Either way
   * the hook stops there.
   */
  function ParseOverlay(token: string): (r: Option<seq<string>>)
    ensures r.Some? <==> |Split(token, FieldSeparator)| >= 2 && Split(token, FieldSeparator)[1] == ControllerRecords.Version
    ensures r.Some? ==> NoneContains(r.value, FieldSeparator)
  {
    var fields := Split(token, FieldSeparator);
    SplitPiecesFree(token, FieldSeparator);
    if |fields| < 2 || fields[1] != ControllerRecords.Version then None
    else
      assert forall j :: 0 <= j < |fields| - 2 ==> fields[2..][j] == fields[j + 2];
      Some(fields[2..])
  }

  /** Reading the attribute the ToString hook writes gives back its entries, when none holds "<ctrlB>". */
  lemma {:induction false} OverlayRoundTrip(entries: seq<string>)
    requires |entries| >= 1 && NoneContains(entries, FieldSeparator)
    ensures ParseOverlay(OverlayToken(entries)) == Some(entries)
  {
    var d := FieldSeparator;
    var fields := [Marker, ControllerRecords.Version] + entries;
    MissingFirstCharNotContained(Marker, d);
    MissingFirstCharNotContained(ControllerRecords.Version, d);
    forall j | 0 <= j < |fields|
      ensures !Contains(fields[j], d)
    {
      if j >= 2 {
        assert fields[j] == entries[j - 2];
      }
    }
    assert Join(d, fields) == OverlayToken(entries) by {
      assert fields[1..][1..] == entries;
    }
    SplitJoin(d, fields);
    assert fields[2..] == entries;
  }

  /** The loaded mouse mappings, the entries of unregistered keybinds, and whether an exception cut the load short. */
  datatype MouseLoad = MouseLoad(mappings: map<string, int>, unknowns: seq<string>, aborted: bool)

  /**
   * AddMouseMapping: the keybind's mouse key gets the parsed button and no
   * other key changes; None is the exception int.Parse throws.
   */
  function AddMouseMapping(mappings: map<string, int>, k: Keybind, button: string): (r: Option<map<string, int>>)
    ensures r.None? <==> ParseInt(button).None?
    ensures r.Some? ==>
      && MouseKey(k.gameAction, k.axisPositive) in r.value
      && r.value[MouseKey(k.gameAction, k.axisPositive)] == ParseInt(button).value
    ensures r.Some? ==> forall key :: key != MouseKey(k.gameAction, k.axisPositive) ==>
      (key in r.value <==> key in mappings) && (key in mappings ==> r.value[key] == mappings[key])
  {
    match ParseInt(button)
    case None => None
    case Some(b) => Some(mappings[MouseKey(k.gameAction, k.axisPositive) := b])
  }

  /**
   * One entry of the FromString hook's loop: an entry of a registered keybind
   * is applied, any other is kept as unknown; a registered entry without a
   * button part, or whose button does not parse, throws.
   */
  function ApplyEntry(ks: seq<Keybind>, st: MouseLoad, entry: string): MouseLoad
  {
    var parts := Split(entry, EntrySeparator);
    match Get(ks, parts[0])
    case None => st.(unknowns := st.unknowns + [entry])
    case Some(k) =>
      if |parts| < 2 then st.(aborted := true)
      else
        match AddMouseMapping(st.mappings, k, parts[1])
        case None => st.(aborted := true)
        case Some(m) => st.(mappings := m)
  }

  /** The entries applied in order until one throws. */
  function ApplyEntries(ks: seq<Keybind>, st: MouseLoad, entries: seq<string>): MouseLoad
    decreases |entries|
  {
    if st.aborted || |entries| == 0 then st
    else ApplyEntries(ks, ApplyEntry(ks, st, entries[0]), entries[1..])
  }

  /** The id an entry names: the part before its first "|". */
  function EntryId(entry: string): string {
    Split(entry, EntrySeparator)[0]
  }

  /** Entries of keybinds nobody has registered are all kept as unknown, in order, and nothing is bound. */
  lemma {:induction false} ApplyUnknownEntries(ks: seq<Keybind>, st: MouseLoad, entries: seq<string>)
    requires !st.aborted && forall e :: e in entries ==> Get(ks, EntryId(e)).None?
    ensures ApplyEntries(ks, st, entries) == st.(unknowns := st.unknowns + entries)
    decreases |entries|
  {
    if |entries| > 0 {
      assert entries[0] in entries;
      assert st.unknowns + [entries[0]] + entries[1..] == st.unknowns + entries;
      ApplyUnknownEntries(ks, ApplyEntry(ks, st, entries[0]), entries[1..]);
    } else {
      assert st.unknowns + entries == st.unknowns;
    }
  }

  /** The entry written for a registered keybind binds its mouse key back to the same button. */
  lemma {:induction false} ApplyWrittenEntry(ks: seq<Keybind>, i: nat, st: MouseLoad, button: int)
    requires WellFormed(ks) && i < |ks| && IsInt32(button) && !st.aborted
    ensures ApplyEntry(ks, st, Entry(ks[i].id, button))
         == st.(mappings := st.mappings[MouseKey(ks[i].gameAction, ks[i].axisPositive) := button])
  {
    var k := ks[i];
    var b := IntToString(button);
    assert ValidId(k.id);
    IntToStringAvoids(button, EntrySeparator);
    assert Join(EntrySeparator, [k.id, b]) == Entry(k.id, button);
    SplitJoin(EntrySeparator, [k.id, b]);
    GetInWellFormed(ks, i);
    ParseIntToString(button);
  }

  /**
   * Mouse bindings survive a save and a load: the entries the writer collects
   * for registered keybinds, followed by carried-over unknowns, come back out
   * of the overlay attribute; each registered entry rebinds its keybind's
   * mouse key, and the unknowns are kept in order.
   */
  lemma {:induction false} MouseSaveThenLoad(ks: seq<Keybind>, idx: seq<nat>, buttons: seq<int>,
                                             unknowns: seq<string>, mappings: map<string, int>)
    requires WellFormed(ks) && |idx| == |buttons| && |idx| + |unknowns| >= 1
    requires forall j :: 0 <= j < |idx| ==> idx[j] < |ks| && IsInt32(buttons[j])
    requires forall j :: 0 <= j < |idx| ==> !Contains(ks[idx[j]].id, FieldSeparator)
    requires forall e :: e in unknowns ==> Get(ks, EntryId(e)).None? && !Contains(e, FieldSeparator)
    ensures var entries := WrittenEntries(ks, idx, buttons) + unknowns;
      && ParseOverlay(OverlayToken(entries)) == Some(entries)
      && ApplyEntries(ks, MouseLoad(mappings, [], false), entries)
         == MouseLoad(Rebound(ks, idx, buttons, mappings), unknowns, false)
  {
    var written := WrittenEntries(ks, idx, buttons);
    forall j | 0 <= j < |written + unknowns|
      ensures !Contains((written + unknowns)[j], FieldSeparator)
    {
      if j < |written| {
        EntryAvoidsFieldSeparator(ks[idx[j]].id, buttons[j]);
      } else {
        assert (written + unknowns)[j] in unknowns;
      }
    }
    OverlayRoundTrip(written + unknowns);
    var st := MouseLoad(mappings, [], false);
    ApplyEntriesAppend(ks, st, written, unknowns);
    ApplyWrittenEntries(ks, idx, buttons, mappings);
    ApplyUnknownEntries(ks, MouseLoad(Rebound(ks, idx, buttons, mappings), [], false), unknowns);
    assert [] + unknowns == unknowns;
  }

  /** The entries for keybinds ks[idx[j]] bound to buttons[j]. */
  function WrittenEntries(ks: seq<Keybind>, idx: seq<nat>, buttons: seq<int>): (r: seq<string>)
    requires |idx| == |buttons| && forall j :: 0 <= j < |idx| ==> idx[j] < |ks|
    ensures |r| == |idx| && forall j :: 0 <= j < |idx| ==> r[j] == Entry(ks[idx[j]].id, buttons[j])
  {
    if |idx| == 0 then []
    else
      var rest := WrittenEntries(ks, idx[1..], buttons[1..]);
      assert forall j :: 1 <= j < |idx| ==> idx[1..][j - 1] == idx[j] && buttons[1..][j - 1] == buttons[j];
      [Entry(ks[idx[0]].id, buttons[0])] + rest
  }

  /** The mappings after rebinding each keybind ks[idx[j]]'s mouse key to buttons[j], in order. */
  function Rebound(ks: seq<Keybind>, idx: seq<nat>, buttons: seq<int>, mappings: map<string, int>): map<string, int>
    requires |idx| == |buttons| && forall j :: 0 <= j < |idx| ==> idx[j] < |ks|
  {
    if |idx| == 0 then mappings
    else
      var k := ks[idx[0]];
      Rebound(ks, idx[1..], buttons[1..], mappings[MouseKey(k.gameAction, k.axisPositive) := buttons[0]])
  }

  /** The (mouse key, button) pairs of keybinds ks[idx[j]] bound to buttons[j], as the setup's dictionary holds them. */
  function MousePairs(ks: seq<Keybind>, idx: seq<nat>, buttons: seq<int>): (r: seq<(string, int)>)
    requires |idx| == |buttons| && forall j :: 0 <= j < |idx| ==> idx[j] < |ks|
    ensures |r| == |idx|
    ensures forall j :: 0 <= j < |idx| ==> r[j] == (MouseKey(ks[idx[j]].gameAction, ks[idx[j]].axisPositive), buttons[j])
  {
    seq(|idx|, j requires 0 <= j < |idx| => (MouseKey(ks[idx[j]].gameAction, ks[idx[j]].axisPositive), buttons[j]))
  }

  /**
   * Writing the mouse mappings of registered modded keybinds, each bound to a
   * button, leaves the host's text alone and collects exactly their entries, in order.
   */
  lemma {:induction false} WriteRegisteredMappings(ks: seq<Keybind>, idx: seq<nat>, buttons: seq<int>, acc: Written)
    requires WellFormed(ks) && |idx| == |buttons|
    requires forall j :: 0 <= j < |idx| ==>
      VanillaKeybindCount <= idx[j] < |ks| && IsInt32(ks[idx[j]].gameAction) && buttons[j] != -1
    ensures WriteMouseMappings(ks, acc, MousePairs(ks, idx, buttons))
         == Some(acc.(modded := acc.modded + WrittenEntries(ks, idx, buttons)))
    decreases |idx|
  {
    if |idx| == 0 {
      assert acc.modded + WrittenEntries(ks, idx, buttons) == acc.modded;
    } else {
      var next := acc.(modded := acc.modded + [Entry(ks[idx[0]].id, buttons[0])]);
      WriteRegisteredFirst(ks, idx, buttons, acc);
      WriteRegisteredMappings(ks, idx[1..], buttons[1..], next);
      WrittenEntriesCons(ks, idx, buttons, acc.modded);
    }
  }

  /** Entries written after `pre`: the first keybind's entry, then the rest's. */
  lemma WrittenEntriesCons(ks: seq<Keybind>, idx: seq<nat>, buttons: seq<int>, pre: seq<string>)
    requires |idx| == |buttons| && |idx| > 0 && forall j :: 0 <= j < |idx| ==> idx[j] < |ks|
    ensures pre + [Entry(ks[idx[0]].id, buttons[0])] + WrittenEntries(ks, idx[1..], buttons[1..])
         == pre + WrittenEntries(ks, idx, buttons)
  {
    var first, rest := [Entry(ks[idx[0]].id, buttons[0])], WrittenEntries(ks, idx[1..], buttons[1..]);
    assert WrittenEntries(ks, idx, buttons) == first + rest;
    assert pre + first + rest == pre + (first + rest);
  }

  /** The first pair of a registered keybind writes its entry, and the walk goes on with the rest. */
  lemma WriteRegisteredFirst(ks: seq<Keybind>, idx: seq<nat>, buttons: seq<int>, acc: Written)
    requires WellFormed(ks) && |idx| == |buttons| && |idx| > 0
    requires forall j :: 0 <= j < |idx| ==>
      VanillaKeybindCount <= idx[j] < |ks| && IsInt32(ks[idx[j]].gameAction) && buttons[j] != -1
    ensures WriteMouseMappings(ks, acc, MousePairs(ks, idx, buttons))
         == WriteMouseMappings(ks, acc.(modded := acc.modded + [Entry(ks[idx[0]].id, buttons[0])]),
                               MousePairs(ks, idx[1..], buttons[1..]))
  {
    var pairs := MousePairs(ks, idx, buttons);
    WriteModdedMapping(ks, idx[0], acc, buttons[0]);
    assert pairs[1..] == MousePairs(ks, idx[1..], buttons[1..]);
  }

  /**
   * The whole mouse round trip: the entries the writer collects from a setup's
   * registered modded mappings, followed by carried-over unknowns, are stored
   * in the overlay attribute and loaded back into the same mouse keys and buttons.
   */
  lemma MouseMappingsRoundTrip(ks: seq<Keybind>, idx: seq<nat>, buttons: seq<int>, text: string,
                               unknowns: seq<string>, mappings: map<string, int>)
    requires WellFormed(ks) && |idx| == |buttons| && |idx| + |unknowns| >= 1
    requires forall j :: 0 <= j < |idx| ==>
      VanillaKeybindCount <= idx[j] < |ks| && IsInt32(ks[idx[j]].gameAction) && IsInt32(buttons[j]) && buttons[j] != -1
    requires forall j :: 0 <= j < |idx| ==> !Contains(ks[idx[j]].id, FieldSeparator)
    requires forall e :: e in unknowns ==> Get(ks, EntryId(e)).None? && !Contains(e, FieldSeparator)
    ensures var w := WriteMouseMappings(ks, Written(text, []), MousePairs(ks, idx, buttons));
      && w.Some? && w.value.text == text
      && ParseOverlay(OverlayToken(w.value.modded + unknowns)) == Some(w.value.modded + unknowns)
      && ApplyEntries(ks, MouseLoad(mappings, [], false), w.value.modded + unknowns)
         == MouseLoad(Rebound(ks, idx, buttons, mappings), unknowns, false)
  {
    WriteRegisteredMappings(ks, idx, buttons, Written(text, []));
    assert [] + WrittenEntries(ks, idx, buttons) == WrittenEntries(ks, idx, buttons);
    MouseSaveThenLoad(ks, idx, buttons, unknowns, mappings);
  }

  /** Loading the written entries, in order, rebinds each keybind's mouse key to its button. */
  lemma {:induction false} ApplyWrittenEntries(ks: seq<Keybind>, idx: seq<nat>, buttons: seq<int>, mappings: map<string, int>)
    requires WellFormed(ks) && |idx| == |buttons|
    requires forall j :: 0 <= j < |idx| ==> idx[j] < |ks| && IsInt32(buttons[j])
    ensures ApplyEntries(ks, MouseLoad(mappings, [], false), WrittenEntries(ks, idx, buttons))
         == MouseLoad(Rebound(ks, idx, buttons, mappings), [], false)
  {
    if |idx| > 0 {
      var es, rest := WrittenEntries(ks, idx, buttons), WrittenEntries(ks, idx[1..], buttons[1..]);
      var k := ks[idx[0]];
      ApplyWrittenEntry(ks, idx[0], MouseLoad(mappings, [], false), buttons[0]);
      var m' := mappings[MouseKey(k.gameAction, k.axisPositive) := buttons[0]];
      assert es == [Entry(k.id, buttons[0])] + rest;
      assert es[0] == Entry(k.id, buttons[0]) && es[1..] == rest;
      ApplyWrittenEntries(ks, idx[1..], buttons[1..], m');
    }
  }

  lemma {:induction false} ApplyEntriesAppend(ks: seq<Keybind>, st: MouseLoad, a: seq<string>, b: seq<string>)
    ensures ApplyEntries(ks, st, a + b) == ApplyEntries(ks, ApplyEntries(ks, st, a), b)
    decreases |a|
  {
    if |a| == 0 {
      assert a + b == b;
    } else if !st.aborted {
      assert (a + b)[1..] == a[1..] + b;
      ApplyEntriesAppend(ks, ApplyEntry(ks, st, a[0]), a[1..], b);
    }
  }

  /** An entry holds no "<ctrlB>" when its id holds none: neither "|" nor a number uses its characters. */
  lemma {:induction false} EntryAvoidsFieldSeparator(id: string, button: int)
    requires !Contains(id, FieldSeparator)
    ensures !Contains(Entry(id, button), FieldSeparator)
  {
    var tail := EntrySeparator + IntToString(button);
    IntToStringChars(button);
    forall i, k | 0 <= i < |tail| && 0 <= k < |FieldSeparator|
      ensures tail[i] != FieldSeparator[k]
    {
      if i > 0 {
        assert tail[i] == IntToString(button)[i - 1];
      }
    }
    ConcatAvoids(id, tail, FieldSeparator);
    assert Entry(id, button) == id + tail;
  }

  // ---------------------------------------------------------------------
  // The host's unrecognised attributes
  // ---------------------------------------------------------------------

  predicate IsOverlayAttr(attr: string) {
    StartsWith(attr, Marker)
  }

  /** The attributes left once every overlay attribute is removed, in order. */
  function OtherAttrs(attrs: seq<string>): seq<string>
  {
    if |attrs| == 0 then []
    else (if IsOverlayAttr(attrs[0]) then [] else [attrs[0]]) + OtherAttrs(attrs[1..])
  }

  /** OtherAttrs keeps exactly the attributes that are not overlay attributes. */
  lemma {:induction false} OtherAttrsMembers(attrs: seq<string>)
    ensures forall a :: a in OtherAttrs(attrs) <==> a in attrs && !IsOverlayAttr(a)
    ensures |OtherAttrs(attrs)| <= |attrs|
  {
    if |attrs| > 0 {
      OtherAttrsMembers(attrs[1..]);
      assert attrs == [attrs[0]] + attrs[1..];
    }
  }

  /** Position `i` holds the last overlay attribute. */
  predicate IsLastOverlayAttr(attrs: seq<string>, i: int) {
    0 <= i < |attrs| && IsOverlayAttr(attrs[i]) && forall j :: i < j < |attrs| ==> !IsOverlayAttr(attrs[j])
  }

  /** The overlay attribute the hook parses: the last one, which its backward scan meets first. */
  function LastOverlayAttr(attrs: seq<string>): Option<string>
  {
    if |attrs| == 0 then None
    else
      var rest := LastOverlayAttr(attrs[1..]);
      if rest.Some? then rest
      else if IsOverlayAttr(attrs[0]) then Some(attrs[0])
      else None
  }

  /** LastOverlayAttr finds an overlay attribute with none after it, and finds none only when there is none. */
  lemma {:induction false} LastOverlayAttrIsLast(attrs: seq<string>)
    ensures LastOverlayAttr(attrs).None? <==> forall i :: 0 <= i < |attrs| ==> !IsOverlayAttr(attrs[i])
    ensures LastOverlayAttr(attrs).Some? ==> exists i :: IsLastOverlayAttr(attrs, i) && attrs[i] == LastOverlayAttr(attrs).value
  {
    if |attrs| > 0 {
      LastOverlayAttrIsLast(attrs[1..]);
      assert forall i :: 0 < i < |attrs| ==> attrs[1..][i - 1] == attrs[i];
      assert forall i :: IsLastOverlayAttr(attrs[1..], i) ==> IsLastOverlayAttr(attrs, i + 1);
      if LastOverlayAttr(attrs[1..]).None? && IsOverlayAttr(attrs[0]) {
        assert IsLastOverlayAttr(attrs, 0);
      }
    }
  }

  /**
   * One step of the FromString hook's backward scan over the attributes: an
   * overlay attribute at `i` is removed, and it is the one found unless one
   * was found further on.
   */
  lemma TakeOverlayStep(attrs: seq<string>, i: nat, kept: seq<string>, found: Option<string>,
                        kept': seq<string>, found': Option<string>)
    requires i < |attrs|
    requires kept == attrs[..i + 1] + OtherAttrs(attrs[i + 1..]) && found == LastOverlayAttr(attrs[i + 1..])
    requires kept' == if IsOverlayAttr(attrs[i]) then kept[..i] + kept[i + 1..] else kept
    requires found' == if IsOverlayAttr(attrs[i]) && found.None? then Some(attrs[i]) else found
    ensures kept' == attrs[..i] + OtherAttrs(attrs[i..]) && found' == LastOverlayAttr(attrs[i..])
  {
    assert attrs[i..][1..] == attrs[i + 1..];
    assert attrs[..i + 1] == attrs[..i] + [attrs[i]];
    var rest := OtherAttrs(attrs[i + 1..]);
    assert kept == attrs[..i] + ([attrs[i]] + rest);
    if IsOverlayAttr(attrs[i]) {
      assert kept[..i] == attrs[..i] && kept[i + 1..] == rest;
    }
  }

  /**
   * The FromString hook's backward RemoveAt loop over the unrecognised
   * attributes: it removes every overlay attribute and keeps the first one it
   * meets, the last in order.
   */
  method TakeOverlayAttr(attrs: seq<string>) returns (kept: seq<string>, found: Option<string>)
    ensures kept == OtherAttrs(attrs) && found == LastOverlayAttr(attrs)
  {
    kept := attrs;
    found := None;
    var i := |attrs|;
    while i > 0
      invariant 0 <= i <= |attrs|
      invariant kept == attrs[..i] + OtherAttrs(attrs[i..])
      invariant found == LastOverlayAttr(attrs[i..])
    {
      i := i - 1;
      ghost var (kept0, found0) := (kept, found);
      assert kept[i] == attrs[i];
      if IsOverlayAttr(kept[i]) {
        if found.None? {
          found := Some(kept[i]);
        }
        kept := kept[..i] + kept[i + 1..];
      }
      TakeOverlayStep(attrs, i, kept0, found0, kept, found);
    }
    assert attrs[0..] == attrs;
  }

  // ---------------------------------------------------------------------
  // Ids the overlay cannot carry
  // ---------------------------------------------------------------------

  const CtrlBId: string := "x<ctrlB>"

  /** An id free of "<optA>", "<optB>" and "|" passes the id checks although it holds "<ctrlB>". */
  lemma {:induction false} CtrlBIdAccepted(ks: seq<Keybind>, mod: string, name: string)
    requires Get(ks, CtrlBId).None? && !IsBlank(mod) && !IsBlank(name)
    ensures Validate(ks, CtrlBId, mod, name).None?
  {
    var s := CtrlBId;
    assert !IsWhiteSpace(s[0]);
    forall t | t == "<optA>" || t == "<optB>"
      ensures !Contains(s, t)
    {
      forall i | 0 <= i <= |s|
        ensures !OccursAt(s, t, i)
      {
        if i + |t| <= |s| {
          assert s[i..i + |t|][0] == s[i] && s[i..i + |t|][1] == s[i + 1];
        }
      }
    }
    MissingFirstCharNotContained(s, "|");
  }

  /**
   * The overlay does not round-trip such an id: the entry written for it
   * never comes back out of the attribute, because no parsed entry holds "<ctrlB>".
   */
  lemma {:induction false} CtrlBIdBreaksOverlay(button: int)
    ensures ParseOverlay(OverlayToken([Entry(CtrlBId, button)])) != Some([Entry(CtrlBId, button)])
  {
    var e := Entry(CtrlBId, button);
    assert e[1..8] == FieldSeparator;
    assert OccursAt(e, FieldSeparator, 1);
  }
}
