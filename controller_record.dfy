/**
 * The record the save hook writes to PlayerPrefs for one controller map, and
 * the way the load hook reads it back.
 *
 * A record is the fields
 *   "1.5" | #unbound | #bound | unbound ids... | id | elementId | elementType | axisRange | ...
 * joined with '|': the version, two counts, the ids of the keybinds that had
 * no element map, then one four-field tuple per keybind that had one. It is
 * stored under "iic|" followed by the host's own key for the controller map.
 */
module ControllerRecords {
  import opened Wrappers
  import opened Text
  import opened Host
  import opened PlayerKeybinds

  const Version: string := "1.5"
  const KeyPrefix: string := "iic|"
  const Separator: string := "|"

  /** The PlayerPrefs key of the record for the host's controller-map key. */
  function StorageKey(hostKey: string): (key: string)
    ensures StartsWith(key, KeyPrefix) && key[|KeyPrefix|..] == hostKey
  {
    KeyPrefix + hostKey
  }

  /** One saved binding, as text: {keybind id, elementID, elementType, axisRange}. */
  datatype Mapping = Mapping(id: string, elementId: string, elementType: string, axisRange: string)

  function Fields(m: Mapping): seq<string> {
    [m.id, m.elementId, m.elementType, m.axisRange]
  }

  /** None of a mapping's fields holds the separator. */
  predicate Clean(m: Mapping) {
    NoneContains(Fields(m), Separator)
  }

  /** The tuples, field after field. */
  function Flatten(ms: seq<Mapping>): (r: seq<string>)
    ensures |r| == 4 * |ms|
  {
    if |ms| == 0 then [] else Fields(ms[0]) + Flatten(ms[1..])
  }

  lemma {:induction false} FlattenAppend(a: seq<Mapping>, b: seq<Mapping>)
    ensures Flatten(a + b) == Flatten(a) + Flatten(b)
  {
    if |a| == 0 {
      assert a + b == b;
    } else {
      assert (a + b)[1..] == a[1..] + b;
      FlattenAppend(a[1..], b);
    }
  }

  lemma {:induction false} FlattenClean(ms: seq<Mapping>)
    requires forall m :: m in ms ==> Clean(m)
    ensures NoneContains(Flatten(ms), Separator)
  {
    if |ms| > 0 {
      assert ms[0] in ms;
      FlattenClean(ms[1..]);
    }
  }

  /** The fields of a record, before they are joined. */
  function RecordFields(unbound: seq<string>, bound: seq<Mapping>): (r: seq<string>)
    ensures |r| == 3 + |unbound| + 4 * |bound|
  {
    [Version, IntToString(|unbound|), IntToString(|bound|)] + unbound + Flatten(bound)
  }

  /** The string the save hook stores. */
  function Encode(unbound: seq<string>, bound: seq<Mapping>): string {
    Join(Separator, RecordFields(unbound, bound))
  }

  // ---------------------------------------------------------------------
  // Saving
  // ---------------------------------------------------------------------

  /** The tuple the save hook writes for a keybind bound to an element map. */
  function MappingOf(id: string, em: ElementMap): Mapping {
    Mapping(id, IntToString(em.elementId), ElementTypeName(em.elementType), AxisRangeName(em.axisRange))
  }

  /** Unbound ids and bound tuples, as kept for a controller map and as saved. */
  datatype Entries = Entries(unbound: seq<string>, bound: seq<Mapping>)

  /**
   * The save hook's first loop, over the registered keybinds: a keybind whose
   * game action has no element map in the controller map is saved as unbound,
   * any other with its action's first element map.
   */
  function LiveEntries(ks: seq<Keybind>, maps: seq<ElementMap>): (r: Entries)
    ensures |r.unbound| + |r.bound| == |ks|
  {
    if |ks| == 0 then Entries([], [])
    else
      var n := |ks| - 1;
      var before := LiveEntries(ks[..n], maps);
      match FirstWithAction(maps, ks[n].gameAction)
      case None => before.(unbound := before.unbound + [ks[n].id])
      case Some(em) => before.(bound := before.bound + [MappingOf(ks[n].id, em)])
  }

  /** Saving one more keybind of a catalog slice appends its id or its tuple. */
  lemma LiveEntriesNext(ks: seq<Keybind>, maps: seq<ElementMap>, lo: nat, k: nat)
    requires lo <= k < |ks|
    ensures var before := LiveEntries(ks[lo..k], maps);
      LiveEntries(ks[lo..k + 1], maps)
      == match FirstWithAction(maps, ks[k].gameAction)
         case None => before.(unbound := before.unbound + [ks[k].id])
         case Some(em) => before.(bound := before.bound + [MappingOf(ks[k].id, em)])
  {
    assert ks[lo..k + 1][..k - lo] == ks[lo..k];
    assert ks[lo..k + 1][k - lo] == ks[k];
  }

  /**
   * The save hook's classification: an id is saved as unbound exactly when its
   * keybind's action has no element map, and a tuple is saved exactly for a
   * keybind whose action has one, holding that action's first map.
   */
  lemma {:induction false} LiveEntriesMembers(ks: seq<Keybind>, maps: seq<ElementMap>)
    ensures forall id :: id in LiveEntries(ks, maps).unbound <==>
      exists k :: k in ks && k.id == id && FirstWithAction(maps, k.gameAction).None?
    ensures forall m :: m in LiveEntries(ks, maps).bound <==>
      exists k :: k in ks && FirstWithAction(maps, k.gameAction).Some?
                  && m == MappingOf(k.id, FirstWithAction(maps, k.gameAction).value)
  {
    if |ks| > 0 {
      var n := |ks| - 1;
      assert ks == ks[..n] + [ks[n]];
      LiveEntriesMembers(ks[..n], maps);
    }
  }

  /** The first element maps of the keybinds' actions, for the keybinds that have one, in catalog order. */
  function FirstMaps(ks: seq<Keybind>, maps: seq<ElementMap>): (r: seq<ElementMap>)
    ensures |r| <= |ks|
  {
    if |ks| == 0 then []
    else
      var n := |ks| - 1;
      FirstMaps(ks[..n], maps)
        + (match FirstWithAction(maps, ks[n].gameAction) case None => [] case Some(em) => [em])
  }

  // ---------------------------------------------------------------------
  // Loading
  // ---------------------------------------------------------------------

  /** What the load hook makes of the fields of a stored record before it applies any tuple. */
  datatype Header =
    | WrongVersion                  // the record is deleted and the map left as the host loaded it
    | Malformed                     // a count fails to parse or is missing: the exception is caught
    | Header(offset: int, limit: int)  // the tuples lie at offset, offset + 4, ... below limit

  /** The header read, with C#'s 32-bit arithmetic on the offset and the loop bound. */
  function ReadHeader(data: seq<string>): (h: Header)
    requires |data| >= 1
    ensures h == WrongVersion <==> data[0] != Version
    ensures h.Header? ==> IsInt32(h.offset) && IsInt32(h.limit)
  {
    if data[0] != Version then WrongVersion
    else if |data| < 2 || ParseInt(data[1]).None? then Malformed
    else
      var offset := Wrap32(3 + ParseInt(data[1]).value);
      if |data| < 3 || ParseInt(data[2]).None? then Malformed
      else Header(offset, Wrap32(offset + Wrap32(ParseInt(data[2]).value * 4)))
  }

  /** The loaded element maps, the tuples of keybinds not registered yet, and whether an exception cut the load short. */
  datatype LoadState = LoadState(maps: seq<ElementMap>, pending: seq<Mapping>, aborted: bool)

  /**
   * AddControllerMapping on a map's element maps: None is the exception
   * int.Parse throws on the element id; an element type or axis range that
   * does not parse leaves the maps as they were; otherwise the keybind's
   * action is re-bound to exactly the one element given.
   */
  function AddControllerMapping(maps: seq<ElementMap>, k: Keybind, m: Mapping): (r: Option<seq<ElementMap>>)
    ensures r.None? <==> ParseInt(m.elementId).None?
  {
    match ParseInt(m.elementId)
    case None => None
    case Some(elementId) =>
      match (ParseElementType(m.elementType), ParseAxisRange(m.axisRange))
      case (Some(t), Some(a)) => Some(WithoutAction(maps, k.gameAction) + [ElementMap(k.gameAction, elementId, t, a)])
      case _ => Some(maps)
  }

  /**
   * What AddControllerMapping leaves: the other actions' maps as they were,
   * and, when the tuple is well formed, the keybind's action bound to exactly
   * the element given, which is the last map.
   */
  lemma AddControllerMappingBinds(maps: seq<ElementMap>, k: Keybind, m: Mapping, r: Option<seq<ElementMap>>)
    requires r == AddControllerMapping(maps, k, m)
    ensures r.Some? ==> WithoutAction(r.value, k.gameAction) == WithoutAction(maps, k.gameAction)
    ensures r.Some? && (ParseElementType(m.elementType).None? || ParseAxisRange(m.axisRange).None?) ==> r.value == maps
    ensures r.Some? && ParseElementType(m.elementType).Some? && ParseAxisRange(m.axisRange).Some? ==>
      && FirstWithAction(r.value, k.gameAction)
         == Some(ElementMap(k.gameAction, ParseInt(m.elementId).value,
                            ParseElementType(m.elementType).value, ParseAxisRange(m.axisRange).value))
      && forall i :: 0 <= i < |r.value| - 1 ==> r.value[i].actionId != k.gameAction
  {
    if r.Some? && ParseElementType(m.elementType).Some? && ParseAxisRange(m.axisRange).Some? {
      var kept := WithoutAction(maps, k.gameAction);
      var added := ElementMap(k.gameAction, ParseInt(m.elementId).value,
                              ParseElementType(m.elementType).value, ParseAxisRange(m.axisRange).value);
      assert r.value == kept + [added];
      WithoutActionMembers(maps, k.gameAction);
      WithoutActionAppend(kept, [added], k.gameAction);
      WithoutActionAbsent(kept, k.gameAction);
      FirstWithActionAppend(kept, [added], k.gameAction);
      FirstWithActionMembers(kept, k.gameAction);
      assert forall i :: 0 <= i < |kept| ==> kept[i] in kept;
    }
  }

  /** One tuple of the load loop: a registered id is applied to the maps, any other is kept pending. */
  function LoadStep(ks: seq<Keybind>, st: LoadState, m: Mapping): LoadState
  {
    match Get(ks, m.id)
    case None => st.(pending := st.pending + [m])
    case Some(k) =>
      match AddControllerMapping(st.maps, k, m)
      case None => st.(aborted := true)
      case Some(maps) => st.(maps := maps)
  }

  function TupleAt(data: seq<string>, i: nat): Mapping
    requires i + 3 < |data|
  {
    Mapping(data[i], data[i + 1], data[i + 2], data[i + 3])
  }

  /**
   * The load loop from position i on: one tuple every four fields while i is
   * below the limit; reading past the end of the fields is the
   * IndexOutOfRangeException the hook catches.
   */
  function LoadFrom(data: seq<string>, i: int, limit: int, ks: seq<Keybind>, st: LoadState): LoadState
    decreases limit - i
  {
    if st.aborted || i >= limit then st
    else if i < 0 || i + 3 >= |data| then st.(aborted := true)
    else
      var next := LoadStep(ks, st, TupleAt(data, i));
      if i + 4 > MaxInt32 then
        // `i += 4` wraps to a negative index, which throws unless the loop stops there
        if next.aborted || Wrap32(i + 4) >= limit then next else next.(aborted := true)
      else LoadFrom(data, i + 4, limit, ks, next)
  }

  /** What the load hook makes of a stored value, starting from the element maps the host loaded. */
  datatype LoadOutcome = Stale | Loaded(state: LoadState)

  function ReadRecord(value: string, ks: seq<Keybind>, maps: seq<ElementMap>): (r: LoadOutcome)
    ensures r.Loaded? ==> forall m :: m in r.state.pending ==> Get(ks, m.id).None?
  {
    var data := Split(value, Separator);
    match ReadHeader(data)
    case WrongVersion => Stale
    case Malformed => Loaded(LoadState(maps, [], true))
    case Header(offset, limit) =>
      var st := LoadFrom(data, offset, limit, ks, LoadState(maps, [], false));
      LoadFromPending(data, offset, limit, ks, LoadState(maps, [], false));
      Loaded(st)
  }

  /** A record whose header reads well is loaded by the load loop between its bounds. */
  lemma {:induction false} ReadRecordWithHeader(value: string, data: seq<string>, ks: seq<Keybind>, maps: seq<ElementMap>,
                                                offset: int, limit: int)
    requires Split(value, Separator) == data && ReadHeader(data) == Header(offset, limit)
    ensures ReadRecord(value, ks, maps) == Loaded(LoadFrom(data, offset, limit, ks, LoadState(maps, [], false)))
  {
  }

  /** Only unregistered tuples are ever kept pending. */
  lemma {:induction false} LoadFromPending(data: seq<string>, i: int, limit: int, ks: seq<Keybind>, st: LoadState)
    requires forall m :: m in st.pending ==> Get(ks, m.id).None?
    ensures forall m :: m in LoadFrom(data, i, limit, ks, st).pending ==> Get(ks, m.id).None?
    decreases limit - i
  {
    if !st.aborted && i < limit && 0 <= i && i + 3 < |data| && i + 4 <= MaxInt32 {
      LoadFromPending(data, i + 4, limit, ks, LoadStep(ks, st, TupleAt(data, i)));
    }
  }

  /** `i += 4` in C#'s 32-bit arithmetic. */
  function NextIndex(i: int): (j: int)
    requires IsInt32(i)
    ensures j == Wrap32(i + 4)
    ensures IsInt32(j) && (j > i || j < 0)
  {
    if i + 4 > MaxInt32 then
      Wrap32Over(i + 4);
      i + 4 - 0x1_0000_0000
    else i + 4
  }

  /** One turn of the load loop: the tuple at i is applied, and unless that throws the loop goes on at `i += 4`. */
  lemma {:induction false} LoadFromAdvance(data: seq<string>, i: int, limit: int, ks: seq<Keybind>, st: LoadState,
                                           next: LoadState, loaded: LoadState)
    requires loaded == LoadFrom(data, i, limit, ks, st)
    requires !st.aborted && 0 <= i < limit && i + 3 < |data| && IsInt32(i)
    requires next == LoadStep(ks, st, TupleAt(data, i))
    ensures loaded == LoadFrom(data, if next.aborted then i else NextIndex(i), limit, ks, next)
  {
    if i + 4 > MaxInt32 && !next.aborted {
      Wrap32Over(i + 4);
    }
  }

  /** A read past the fields, or at a negative index, is the exception that ends the load loop. */
  lemma {:induction false} LoadFromOutOfRange(data: seq<string>, i: int, limit: int, ks: seq<Keybind>, st: LoadState,
                                              loaded: LoadState)
    requires loaded == LoadFrom(data, i, limit, ks, st)
    requires !st.aborted && i < limit && (i < 0 || i + 3 >= |data|)
    ensures loaded == LoadFrom(data, i, limit, ks, st.(aborted := true))
  {
  }

  // ---------------------------------------------------------------------
  // Round trip
  // ---------------------------------------------------------------------

  /** The tuples applied in order: the load loop read at the level of mappings. */
  function LoadAll(ms: seq<Mapping>, ks: seq<Keybind>, st: LoadState): LoadState
  {
    if st.aborted || |ms| == 0 then st
    else LoadAll(ms[1..], ks, LoadStep(ks, st, ms[0]))
  }

  lemma {:induction false} LoadAllAppend(a: seq<Mapping>, b: seq<Mapping>, ks: seq<Keybind>, st: LoadState)
    ensures LoadAll(a + b, ks, st) == LoadAll(b, ks, LoadAll(a, ks, st))
  {
    if |a| == 0 {
      assert a + b == b;
    } else if !st.aborted {
      assert (a + b)[1..] == a[1..] + b;
      LoadAllAppend(a[1..], b, ks, LoadStep(ks, st, a[0]));
    }
  }

  /** The load loop over flattened tuples is LoadAll over the tuples. */
  lemma {:induction false} LoadFromFlattened(data: seq<string>, i: int, limit: int, ms: seq<Mapping>,
                                             ks: seq<Keybind>, st: LoadState)
    requires 0 <= i <= |data| && data[i..] == Flatten(ms) && limit == i + 4 * |ms| <= MaxInt32
    ensures LoadFrom(data, i, limit, ks, st) == LoadAll(ms, ks, st)
    decreases |ms|
  {
    if |ms| > 0 && !st.aborted {
      assert Flatten(ms) == Fields(ms[0]) + Flatten(ms[1..]);
      assert data[i + 4..] == data[i..][4..];
      assert TupleAt(data, i) == ms[0] by {
        assert data[i..][..4] == Fields(ms[0]);
      }
      LoadFromFlattened(data, i + 4, limit, ms[1..], ks, LoadStep(ks, st, ms[0]));
    }
  }

  /** Tuples of keybinds nobody has registered are carried over unchanged, in order. */
  lemma {:induction false} LoadAllUnregistered(ms: seq<Mapping>, ks: seq<Keybind>, st: LoadState)
    requires !st.aborted && forall m :: m in ms ==> Get(ks, m.id).None?
    ensures LoadAll(ms, ks, st) == st.(pending := st.pending + ms)
  {
    if |ms| > 0 {
      assert ms[0] in ms;
      assert st.pending + [ms[0]] + ms[1..] == st.pending + ms;
      LoadAllUnregistered(ms[1..], ks, LoadStep(ks, st, ms[0]));
    } else {
      assert st.pending + ms == st.pending;
    }
  }

  /** FirstMaps holds no map of an action none of the keybinds has. */
  lemma {:induction false} FirstMapsAvoid(mks: seq<Keybind>, saved: seq<ElementMap>, action: int)
    requires forall k :: k in mks ==> k.gameAction != action
    ensures forall j :: 0 <= j < |FirstMaps(mks, saved)| ==> FirstMaps(mks, saved)[j].actionId != action
  {
    if |mks| > 0 {
      var n := |mks| - 1;
      assert mks == mks[..n] + [mks[n]];
      assert mks[n] in mks;
      FirstMapsAvoid(mks[..n], saved, action);
      match FirstWithAction(saved, mks[n].gameAction) {
        case None =>
        case Some(em) =>
          FirstWithActionMembers(saved, mks[n].gameAction);
          var i :| IsFirstMapWithAction(saved, mks[n].gameAction, i) && saved[i] == em;
      }
    }
  }

  /** Loading the tuple saved for a registered keybind whose action has no map yet appends its map. */
  lemma {:induction false} LoadStepLive(ks: seq<Keybind>, k: Keybind, em: ElementMap, cur: seq<ElementMap>, pending: seq<Mapping>)
    requires Get(ks, k.id) == Some(k) && em.actionId == k.gameAction && IsInt32(em.elementId)
    requires forall j :: 0 <= j < |cur| ==> cur[j].actionId != k.gameAction
    ensures LoadStep(ks, LoadState(cur, pending, false), MappingOf(k.id, em)) == LoadState(cur + [em], pending, false)
  {
    ParseIntToString(em.elementId);
    forall x | x in cur
      ensures x.actionId != k.gameAction
    {
    }
    WithoutActionAbsent(cur, k.gameAction);
  }

  /** Before a modded keybind's tuple is loaded, no map yet holds its action. */
  lemma {:induction false} RestoredAvoid(pre: seq<Keybind>, saved: seq<ElementMap>, base: seq<ElementMap>, action: int)
    requires action > HighestVanillaActionId && forall k :: k in pre ==> k.gameAction != action
    requires forall em :: em in base ==> em.actionId <= HighestVanillaActionId
    ensures forall j :: 0 <= j < |base + FirstMaps(pre, saved)| ==> (base + FirstMaps(pre, saved))[j].actionId != action
  {
    var fm := FirstMaps(pre, saved);
    FirstMapsAvoid(pre, saved, action);
    forall j | 0 <= j < |base + fm|
      ensures (base + fm)[j].actionId != action
    {
      if j < |base| {
        assert base[j] in base;
      } else {
        assert (base + fm)[j] == fm[j - |base|];
      }
    }
  }

  lemma {:induction false} RegisteredModdedPrefix(ks: seq<Keybind>, mks: seq<Keybind>, n: nat)
    requires RegisteredModded(ks, mks) && n <= |mks|
    ensures RegisteredModded(ks, mks[..n])
  {
    assert forall k :: k in mks[..n] ==> k in mks;
  }

  /** Loading one more tuple after a run of tuples that did not abort. */
  lemma {:induction false} LoadAllSnoc(ms: seq<Mapping>, m: Mapping, ks: seq<Keybind>, st: LoadState, mid: LoadState)
    requires LoadAll(ms, ks, st) == mid && !mid.aborted
    ensures LoadAll(ms + [m], ks, st) == LoadStep(ks, mid, m)
  {
    LoadAllAppend(ms, [m], ks, st);
    assert [m][1..] == [];
    assert LoadAll([], ks, LoadStep(ks, mid, m)) == LoadStep(ks, mid, m);
  }

  /** A tuple that appends `em` after tuples that restored `restored` after `base`. */
  lemma LoadAllSnocMap(ms: seq<Mapping>, m: Mapping, ks: seq<Keybind>, base: seq<ElementMap>,
                       restored: seq<ElementMap>, em: ElementMap, pending: seq<Mapping>)
    requires LoadAll(ms, ks, LoadState(base, pending, false)) == LoadState(base + restored, pending, false)
    requires LoadStep(ks, LoadState(base + restored, pending, false), m) == LoadState(base + restored + [em], pending, false)
    ensures LoadAll(ms + [m], ks, LoadState(base, pending, false)) == LoadState(base + (restored + [em]), pending, false)
  {
    LoadAllSnoc(ms, m, ks, LoadState(base, pending, false), LoadState(base + restored, pending, false));
    assert base + restored + [em] == base + (restored + [em]);
  }

  /** What the last keybind adds to the saved tuples and to the restored maps. */
  lemma {:induction false} LiveEntriesLast(mks: seq<Keybind>, saved: seq<ElementMap>)
    requires |mks| > 0
    ensures var n := |mks| - 1;
      match FirstWithAction(saved, mks[n].gameAction)
      case None =>
        && LiveEntries(mks, saved).bound == LiveEntries(mks[..n], saved).bound
        && FirstMaps(mks, saved) == FirstMaps(mks[..n], saved)
      case Some(em) =>
        && LiveEntries(mks, saved).bound == LiveEntries(mks[..n], saved).bound + [MappingOf(mks[n].id, em)]
        && FirstMaps(mks, saved) == FirstMaps(mks[..n], saved) + [em]
  {
  }

  /** The last keybind's tuple, saved because its action has element map `em`, appends `em`. */
  lemma {:induction false} LoadBoundLast(ks: seq<Keybind>, mks: seq<Keybind>, saved: seq<ElementMap>,
                      base: seq<ElementMap>, pending: seq<Mapping>, em: ElementMap)
    requires |mks| > 0 && Get(ks, mks[|mks| - 1].id) == Some(mks[|mks| - 1]) && IsModded(mks[|mks| - 1])
    requires forall j :: 0 <= j < |mks| - 1 ==> mks[j].gameAction != mks[|mks| - 1].gameAction
    requires forall em :: em in base ==> em.actionId <= HighestVanillaActionId
    requires forall em :: em in saved ==> IsInt32(em.elementId)
    requires FirstWithAction(saved, mks[|mks| - 1].gameAction) == Some(em)
    ensures var cur := base + FirstMaps(mks[..|mks| - 1], saved);
      LoadStep(ks, LoadState(cur, pending, false), MappingOf(mks[|mks| - 1].id, em))
      == LoadState(cur + [em], pending, false)
  {
    var n := |mks| - 1;
    var pre, k := mks[..n], mks[n];
    var cur := base + FirstMaps(pre, saved);
    assert em.actionId == k.gameAction && IsInt32(em.elementId) by {
      FirstWithActionMembers(saved, k.gameAction);
      var i :| IsFirstMapWithAction(saved, k.gameAction, i) && saved[i] == em;
      assert saved[i] in saved;
    }
    assert forall j :: 0 <= j < |cur| ==> cur[j].actionId != k.gameAction by {
      forall k' | k' in pre
        ensures k'.gameAction != k.gameAction
      {
        var j :| 0 <= j < n && pre[j] == k';
      }
      RestoredAvoid(pre, saved, base, k.gameAction);
    }
    LoadStepLive(ks, k, em, cur, pending);
  }

  /**
   * The inductive step of LoadAllLive: the last keybind is registered, modded
   * and shares its action with no keybind before it, so its tuple (if it has
   * one) appends its first element map.
   */
  lemma {:induction false} LoadLiveLast(ks: seq<Keybind>, mks: seq<Keybind>, saved: seq<ElementMap>,
                     base: seq<ElementMap>, pending: seq<Mapping>)
    requires |mks| > 0 && Get(ks, mks[|mks| - 1].id) == Some(mks[|mks| - 1]) && IsModded(mks[|mks| - 1])
    requires forall j :: 0 <= j < |mks| - 1 ==> mks[j].gameAction != mks[|mks| - 1].gameAction
    requires forall em :: em in base ==> em.actionId <= HighestVanillaActionId
    requires forall em :: em in saved ==> IsInt32(em.elementId)
    requires LoadAll(LiveEntries(mks[..|mks| - 1], saved).bound, ks, LoadState(base, pending, false))
          == LoadState(base + FirstMaps(mks[..|mks| - 1], saved), pending, false)
    ensures LoadAll(LiveEntries(mks, saved).bound, ks, LoadState(base, pending, false))
         == LoadState(base + FirstMaps(mks, saved), pending, false)
  {
    var n := |mks| - 1;
    var pre, k := mks[..n], mks[n];
    LiveEntriesLast(mks, saved);
    match FirstWithAction(saved, k.gameAction) {
      case None =>
      case Some(em) =>
        LoadBoundLast(ks, mks, saved, base, pending, em);
        LoadAllSnocMap(LiveEntries(pre, saved).bound, MappingOf(k.id, em), ks, base, FirstMaps(pre, saved), em, pending);
    }
  }

  /**
   * Tuples saved for registered modded keybinds with distinct actions restore
   * those actions' first element maps, after the host's vanilla maps.
   */
  lemma {:induction false} LoadAllLive(ks: seq<Keybind>, mks: seq<Keybind>, saved: seq<ElementMap>,
                                       base: seq<ElementMap>, pending: seq<Mapping>)
    requires RegisteredModded(ks, mks)
    requires forall em :: em in base ==> em.actionId <= HighestVanillaActionId
    requires forall em :: em in saved ==> IsInt32(em.elementId)
    ensures LoadAll(LiveEntries(mks, saved).bound, ks, LoadState(base, pending, false))
         == LoadState(base + FirstMaps(mks, saved), pending, false)
  {
    if |mks| > 0 {
      var n := |mks| - 1;
      RegisteredModdedPrefix(ks, mks, n);
      LoadAllLive(ks, mks[..n], saved, base, pending);
      assert mks[n] in mks;
      LoadLiveLast(ks, mks, saved, base, pending);
    }
  }

  /** Each keybind's first element map among FirstMaps is its first element map in the saved map. */
  lemma {:induction false} FirstMapsFind(mks: seq<Keybind>, saved: seq<ElementMap>, i: nat)
    requires forall p, q :: 0 <= p < q < |mks| ==> mks[p].gameAction != mks[q].gameAction
    requires i < |mks|
    ensures FirstWithAction(FirstMaps(mks, saved), mks[i].gameAction) == FirstWithAction(saved, mks[i].gameAction)
  {
    var n := |mks| - 1;
    var pre, k := mks[..n], mks[n];
    assert mks == pre + [k];
    var tail := match FirstWithAction(saved, k.gameAction) case None => [] case Some(em) => [em];
    FirstWithActionAppend(FirstMaps(pre, saved), tail, mks[i].gameAction);
    if tail != [] {
      FirstWithActionMembers(saved, k.gameAction);
      var j :| IsFirstMapWithAction(saved, k.gameAction, j) && saved[j] == tail[0];
    }
    if i == n {
      forall k' | k' in pre
        ensures k'.gameAction != k.gameAction
      {
        var j :| 0 <= j < n && pre[j] == k';
      }
      FirstMapsAvoid(pre, saved, k.gameAction);
      FirstWithActionMembers(FirstMaps(pre, saved), k.gameAction);
    } else {
      FirstMapsFind(pre, saved, i);
    }
  }

  /** A record whose fields are free of the separator splits back into its fields. */
  lemma {:induction false} RecordSplits(unbound: seq<string>, bound: seq<Mapping>)
    requires NoneContains(unbound, Separator) && forall m :: m in bound ==> Clean(m)
    ensures Split(Encode(unbound, bound), Separator) == RecordFields(unbound, bound)
  {
    var fields := RecordFields(unbound, bound);
    FlattenClean(bound);
    IntToStringAvoids(|unbound|, Separator);
    IntToStringAvoids(|bound|, Separator);
    MissingFirstCharNotContained(Version, Separator);
    forall j | 0 <= j < |fields|
      ensures !Contains(fields[j], Separator)
    {
      if 3 <= j < 3 + |unbound| {
        assert fields[j] == unbound[j - 3];
      } else if 3 + |unbound| <= j {
        assert fields[j] == Flatten(bound)[j - 3 - |unbound|];
      }
    }
    SplitJoin(Separator, fields);
  }

  /** The header of a record points at its tuples, when its length fits the 32-bit arithmetic. */
  lemma {:induction false} RecordHeader(unbound: seq<string>, bound: seq<Mapping>)
    requires 3 + |unbound| + 4 * |bound| <= MaxInt32
    ensures ReadHeader(RecordFields(unbound, bound)) == Header(3 + |unbound|, 3 + |unbound| + 4 * |bound|)
  {
    ParseIntToString(|unbound|);
    ParseIntToString(|bound|);
  }

  /**
   * The modded keybinds the save hook walks: each found under its id, modded,
   * and no two sharing an action.
   */
  predicate RegisteredModded(ks: seq<Keybind>, mks: seq<Keybind>) {
    && (forall k :: k in mks ==> Get(ks, k.id) == Some(k) && IsModded(k))
    && (forall i, j :: 0 <= i < j < |mks| ==> mks[i].gameAction != mks[j].gameAction)
  }

  lemma {:induction false} ModdedPartRegistered(ks: seq<Keybind>)
    requires WellFormed(ks)
    ensures RegisteredModded(ks, ks[VanillaKeybindCount..])
    ensures forall k :: k in ks[VanillaKeybindCount..] ==> ValidId(k.id)
  {
    var mks := ks[VanillaKeybindCount..];
    forall k | k in mks
      ensures Get(ks, k.id) == Some(k) && IsModded(k) && ValidId(k.id)
    {
      var j :| 0 <= j < |mks| && mks[j] == k;
      RegisteredEntry(ks, VanillaKeybindCount + j);
    }
    forall i, j | 0 <= i < j < |mks|
      ensures mks[i].gameAction != mks[j].gameAction
    {
      RegisteredEntry(ks, VanillaKeybindCount + i);
      RegisteredEntry(ks, VanillaKeybindCount + j);
    }
  }

  /** What the save hook writes for registered keybinds is free of the separator. */
  lemma {:induction false} LiveEntriesClean(mks: seq<Keybind>, saved: seq<ElementMap>)
    requires forall k :: k in mks ==> ValidId(k.id)
    ensures NoneContains(LiveEntries(mks, saved).unbound, Separator)
    ensures forall m :: m in LiveEntries(mks, saved).bound ==> Clean(m)
  {
    var live := LiveEntries(mks, saved);
    LiveEntriesMembers(mks, saved);
    forall j | 0 <= j < |live.unbound|
      ensures !Contains(live.unbound[j], Separator)
    {
      assert live.unbound[j] in live.unbound;
    }
    forall m | m in live.bound
      ensures Clean(m)
    {
      var k :| k in mks && FirstWithAction(saved, k.gameAction).Some?
               && m == MappingOf(k.id, FirstWithAction(saved, k.gameAction).value);
      MappingOfClean(k.id, FirstWithAction(saved, k.gameAction).value);
    }
  }

  /** The tuple written for an id free of the separator is free of it in every field. */
  lemma {:induction false} MappingOfClean(id: string, em: ElementMap)
    requires !Contains(id, Separator)
    ensures Clean(MappingOf(id, em))
  {
    var m := MappingOf(id, em);
    IntToStringAvoids(em.elementId, Separator);
    MissingFirstCharNotContained(m.elementType, Separator);
    MissingFirstCharNotContained(m.axisRange, Separator);
    assert Fields(m)[0] == id;
  }

  /** The load loop over a record's tuple fields applies its tuples. */
  lemma {:induction false} LoadRecordTuples(unbound: seq<string>, bound: seq<Mapping>, ks: seq<Keybind>, st: LoadState)
    requires 3 + |unbound| + 4 * |bound| <= MaxInt32
    ensures LoadFrom(RecordFields(unbound, bound), 3 + |unbound|, 3 + |unbound| + 4 * |bound|, ks, st)
         == LoadAll(bound, ks, st)
  {
    var data := RecordFields(unbound, bound);
    assert data[3 + |unbound|..] == Flatten(bound);
    LoadFromFlattened(data, 3 + |unbound|, 3 + |unbound| + 4 * |bound|, bound, ks, st);
  }

  /**
   * Reading back an encoded record: a record whose fields are free of the
   * separator and whose length fits the 32-bit arithmetic loads exactly its
   * tuples, in order, on top of the maps the host loaded.
   */
  lemma {:induction false} ReadEncoded(unbound: seq<string>, bound: seq<Mapping>, ks: seq<Keybind>, maps: seq<ElementMap>)
    requires NoneContains(unbound, Separator) && forall m :: m in bound ==> Clean(m)
    requires 3 + |unbound| + 4 * |bound| <= MaxInt32
    ensures ReadRecord(Encode(unbound, bound), ks, maps) == Loaded(LoadAll(bound, ks, LoadState(maps, [], false)))
  {
    var value, data, st := Encode(unbound, bound), RecordFields(unbound, bound), LoadState(maps, [], false);
    var offset, limit := 3 + |unbound|, 3 + |unbound| + 4 * |bound|;
    RecordSplits(unbound, bound);
    RecordHeader(unbound, bound);
    ReadRecordWithHeader(value, data, ks, maps, offset, limit);
    LoadRecordTuples(unbound, bound, ks, st);
  }

  /** Two lists of fields free of the separator stay free of it when concatenated. */
  lemma {:induction false} NoneContainsAppend(a: seq<string>, b: seq<string>)
    requires NoneContains(a, Separator) && NoneContains(b, Separator)
    ensures NoneContains(a + b, Separator)
  {
    forall j | 0 <= j < |a + b|
      ensures !Contains((a + b)[j], Separator)
    {
      if j >= |a| {
        assert (a + b)[j] == b[j - |a|];
      } else {
        assert (a + b)[j] == a[j];
      }
    }
  }

  /**
   * Saving a controller map and loading it back with the same catalog: every
   * registered modded keybind gets back the first element map it had (or
   * none, when it was unbound), after the maps the host itself loaded, and the
   * tuples kept for unregistered keybinds stay pending in order.
   */
  lemma {:induction false} SaveThenLoad(ks: seq<Keybind>, saved: seq<ElementMap>, base: seq<ElementMap>, older: Entries)
    requires WellFormed(ks)
    requires forall em :: em in saved ==> IsInt32(em.elementId)
    requires forall em :: em in base ==> em.actionId <= HighestVanillaActionId
    requires forall m :: m in older.bound ==> Get(ks, m.id).None? && Clean(m)
    requires NoneContains(older.unbound, Separator)
    requires 3 + 4 * (|ks| + |older.unbound| + |older.bound|) <= MaxInt32
    ensures
      var live := LiveEntries(ks[VanillaKeybindCount..], saved);
      ReadRecord(Encode(live.unbound + older.unbound, live.bound + older.bound), ks, base)
      == Loaded(LoadState(base + FirstMaps(ks[VanillaKeybindCount..], saved), older.bound, false))
  {
    var mks := ks[VanillaKeybindCount..];
    var live := LiveEntries(mks, saved);
    ModdedPartRegistered(ks);
    LiveEntriesClean(mks, saved);
    NoneContainsAppend(live.unbound, older.unbound);
    var st := LoadState(base, [], false);
    ReadEncoded(live.unbound + older.unbound, live.bound + older.bound, ks, base);
    LoadAllAppend(live.bound, older.bound, ks, st);
    LoadAllLive(ks, mks, saved, base, []);
    LoadAllUnregistered(older.bound, ks, LoadState(base + FirstMaps(mks, saved), [], false));
    assert [] + older.bound == older.bound;
  }

  /**
   * After the round trip every registered modded keybind's action has the
   * same first element map as before the save.
   */
  lemma {:induction false} RestoredBindings(ks: seq<Keybind>, saved: seq<ElementMap>, base: seq<ElementMap>, i: nat)
    requires WellFormed(ks) && VanillaKeybindCount <= i < |ks|
    requires forall em :: em in base ==> em.actionId <= HighestVanillaActionId
    ensures FirstWithAction(base + FirstMaps(ks[VanillaKeybindCount..], saved), ks[i].gameAction)
         == FirstWithAction(saved, ks[i].gameAction)
  {
    var mks := ks[VanillaKeybindCount..];
    var g := ks[i].gameAction;
    ModdedPartRegistered(ks);
    assert mks[i - VanillaKeybindCount] == ks[i];
    assert ks[i] in mks;
    FirstMapsFind(mks, saved, i - VanillaKeybindCount);
    FirstWithActionAppend(base, FirstMaps(mks, saved), g);
    FirstWithActionMembers(base, g);
    forall j | 0 <= j < |base|
      ensures base[j].actionId != g
    {
      assert base[j] in base;
    }
  }
}
