/**
 * The keybind registry of Improved Input Config: the append-only catalog of
 * keybinds (ten built-ins first, then those mods register), its lookups, the
 * validation a registration must pass, and the conflict relation between two
 * (player, keybind) pairs.
 */
module PlayerKeybinds {
  import opened Wrappers
  import opened Text
  import opened Host

  /** The highest action id Rain World itself uses; modded actions start above it. */
  const HighestVanillaActionId: int := 34

  /** The number of built-in keybinds at the head of the catalog. */
  const VanillaKeybindCount: nat := 10

  /** UnityEngine.KeyCode; 0 is KeyCode.None. */
  type KeyCode = int

  const KeyCodeNone: KeyCode := 0

  /** The immutable part of a PlayerKeybind. `index` is its position in the catalog. */
  datatype Keybind = Keybind(
    index: nat,
    id: string,
    mod: string,
    name: string,
    gameAction: int,
    uiAction: int,
    axisPositive: bool,
    keyboardPreset: KeyCode,
    gamepadPreset: KeyCode,
    xboxPreset: KeyCode)

  /**
   * The settable properties of a PlayerKeybind that the core reads: HideConfig
   * and the HideConflict predicate (null when None).
   */
  datatype Settings = Settings(hideConfig: bool, hideConflict: Option<Keybind -> bool>)

  const DefaultSettings: Settings := Settings(false, None)

  predicate IsModded(k: Keybind) {
    k.gameAction > HighestVanillaActionId
  }

  predicate IsVanilla(k: Keybind) {
    !IsModded(k)
  }

  function BuiltIn(index: nat, id: string, name: string, gameAction: int, uiAction: int, invert: bool): Keybind
  {
    Keybind(index, id, "Vanilla", name, gameAction, uiAction, !invert, KeyCodeNone, KeyCodeNone, KeyCodeNone)
  }

  /** The ten built-in keybinds, in the order the input menu relies on. */
  function BuiltIns(): seq<Keybind>
  {
    [ BuiltIn(0, "vanilla:pause", "Pause", 5, -1, false),
      BuiltIn(1, "vanilla:grab", "Grab", 3, -1, false),
      BuiltIn(2, "vanilla:jump", "Jump", 0, 8, false),
      BuiltIn(3, "vanilla:throw", "Throw", 4, 9, false),
      BuiltIn(4, "vanilla:special", "Special", 34, -1, false),
      BuiltIn(5, "vanilla:map", "Map", 11, -1, false),
      BuiltIn(6, "vanilla:up", "Up", 2, 7, false),
      BuiltIn(7, "vanilla:left", "Left", 1, 6, true),
      BuiltIn(8, "vanilla:down", "Down", 2, 7, true),
      BuiltIn(9, "vanilla:right", "Right", 1, 6, false) ]
  }

  // ---------------------------------------------------------------------
  // Validation
  // ---------------------------------------------------------------------

  datatype RegistrationError = InvalidId | InvalidMod | InvalidName | DuplicateId

  /** An id Validate lets through on its own: not blank, and free of "<optA>", "<optB>" and "|". */
  predicate ValidId(id: string) {
    !IsBlank(id) && !Contains(id, "<optA>") && !Contains(id, "<optB>") && !Contains(id, "|")
  }

  /** Validate: the first failed check, in the source's order, or None when registration may go ahead. */
  function Validate(ks: seq<Keybind>, id: string, mod: string, name: string): (r: Option<RegistrationError>)
    ensures r.None? <==> ValidId(id) && !IsBlank(mod) && !IsBlank(name) && Get(ks, id).None?
    ensures r == Some(DuplicateId) <==> ValidId(id) && !IsBlank(mod) && !IsBlank(name) && Get(ks, id).Some?
    ensures r == Some(InvalidId) <==> !ValidId(id)
  {
    GetMembers(ks, id);
    if !ValidId(id) then Some(InvalidId)
    else if IsBlank(mod) then Some(InvalidMod)
    else if IsBlank(name) then Some(InvalidName)
    else if exists i :: 0 <= i < |ks| && ks[i].id == id then Some(DuplicateId)
    else None
  }

  // ---------------------------------------------------------------------
  // The catalog and its lookups
  // ---------------------------------------------------------------------

  /**
   * What every catalog the registry builds satisfies: the built-ins first,
   * positions as indices, unique valid ids, and modded action ids handed out
   * one by one from 35.
   */
  predicate WellFormed(ks: seq<Keybind>) {
    && |ks| >= VanillaKeybindCount
    && ks[..VanillaKeybindCount] == BuiltIns()
    && (forall i :: 0 <= i < |ks| ==> ks[i].index == i && ValidId(ks[i].id))
    && (forall i, j :: 0 <= i < j < |ks| ==> ks[i].id != ks[j].id)
    && (forall i :: VanillaKeybindCount <= i < |ks| ==>
          && ks[i].gameAction == HighestVanillaActionId + 1 + (i - VanillaKeybindCount)
          && ks[i].uiAction == -1
          && ks[i].axisPositive)
  }

  predicate IsFirstWithId(ks: seq<Keybind>, id: string, i: int) {
    0 <= i < |ks| && ks[i].id == id && forall j :: 0 <= j < i ==> ks[j].id != id
  }

  /** Get(string): the first keybind with the id, or None (null). */
  function Get(ks: seq<Keybind>, id: string): Option<Keybind>
  {
    if |ks| == 0 then None
    else if ks[0].id == id then Some(ks[0])
    else Get(ks[1..], id)
  }

  /** Get finds nothing exactly when no keybind has the id, and otherwise the first one that has it. */
  lemma {:induction false} GetMembers(ks: seq<Keybind>, id: string)
    ensures Get(ks, id).None? <==> forall i :: 0 <= i < |ks| ==> ks[i].id != id
    ensures Get(ks, id).Some? ==> exists i :: IsFirstWithId(ks, id, i) && ks[i] == Get(ks, id).value
  {
    if |ks| > 0 && ks[0].id != id {
      GetMembers(ks[1..], id);
      assert forall i :: 0 < i < |ks| ==> ks[i] == ks[1..][i - 1];
      assert forall i :: IsFirstWithId(ks[1..], id, i) ==> IsFirstWithId(ks, id, i + 1);
    } else if |ks| > 0 {
      assert IsFirstWithId(ks, id, 0);
    }
  }

  /** Looking an id up after appending a keybind. */
  lemma {:induction false} GetAppend(ks: seq<Keybind>, k: Keybind, id: string)
    ensures Get(ks + [k], id) == if Get(ks, id).Some? then Get(ks, id) else if k.id == id then Some(k) else None
  {
    if |ks| > 0 {
      assert (ks + [k])[1..] == ks[1..] + [k];
      GetAppend(ks[1..], k, id);
    }
  }

  /** In a well-formed catalog, Get finds the keybind at the id's one position. */
  lemma GetInWellFormed(ks: seq<Keybind>, i: nat)
    requires WellFormed(ks) && i < |ks|
    ensures Get(ks, ks[i].id) == Some(ks[i])
  {
    GetDistinct(ks, i);
  }

  /** Among keybinds with distinct ids, Get finds each one under its id. */
  lemma GetDistinct(ks: seq<Keybind>, i: nat)
    requires (forall p, q :: 0 <= p < q < |ks| ==> ks[p].id != ks[q].id) && i < |ks|
    ensures Get(ks, ks[i].id) == Some(ks[i])
  {
    GetMembers(ks, ks[i].id);
    var j :| IsFirstWithId(ks, ks[i].id, j) && ks[j] == Get(ks, ks[i].id).value;
  }

  predicate MatchesAction(k: Keybind, actionId: int, axisPositive: bool) {
    (k.gameAction == actionId || k.uiAction == actionId) && k.axisPositive == axisPositive
  }

  predicate IsFirstWithAction(ks: seq<Keybind>, actionId: int, axisPositive: bool, i: int) {
    0 <= i < |ks| && MatchesAction(ks[i], actionId, axisPositive)
    && forall j :: 0 <= j < i ==> !MatchesAction(ks[j], actionId, axisPositive)
  }

  /** Get(int, bool): None for action -1, else the first keybind whose game or UI action and axis side match. */
  function FindByAction(ks: seq<Keybind>, actionId: int, axisPositive: bool): Option<Keybind>
  {
    if actionId == -1 || |ks| == 0 then None
    else if MatchesAction(ks[0], actionId, axisPositive) then Some(ks[0])
    else FindByAction(ks[1..], actionId, axisPositive)
  }

  /**
   * Get(int, bool) finds nothing for action -1 or when no keybind matches,
   * and otherwise the first keybind that matches.
   */
  lemma {:induction false} FindByActionMembers(ks: seq<Keybind>, actionId: int, axisPositive: bool)
    ensures actionId == -1 ==> FindByAction(ks, actionId, axisPositive).None?
    ensures actionId != -1 ==> (FindByAction(ks, actionId, axisPositive).None?
                                <==> forall i :: 0 <= i < |ks| ==> !MatchesAction(ks[i], actionId, axisPositive))
    ensures FindByAction(ks, actionId, axisPositive).Some? ==>
      exists i :: IsFirstWithAction(ks, actionId, axisPositive, i) && ks[i] == FindByAction(ks, actionId, axisPositive).value
  {
    if actionId != -1 && |ks| > 0 {
      if MatchesAction(ks[0], actionId, axisPositive) {
        assert IsFirstWithAction(ks, actionId, axisPositive, 0);
      } else {
        FindByActionMembers(ks[1..], actionId, axisPositive);
        assert forall i :: 0 < i < |ks| ==> ks[i] == ks[1..][i - 1];
        assert forall i :: IsFirstWithAction(ks[1..], actionId, axisPositive, i) ==>
          IsFirstWithAction(ks, actionId, axisPositive, i + 1);
      }
    }
  }

  /** Get(int, bool) as the source writes it: a scan with an early return. */
  method GetByAction(ks: seq<Keybind>, actionId: int, axisPositive: bool) returns (r: Option<Keybind>)
    ensures r == FindByAction(ks, actionId, axisPositive)
  {
    FindByActionMembers(ks, actionId, axisPositive);
    if actionId == -1 {
      return None;
    }
    var i := 0;
    while i < |ks|
      invariant 0 <= i <= |ks|
      invariant forall j :: 0 <= j < i ==> !MatchesAction(ks[j], actionId, axisPositive)
    {
      if MatchesAction(ks[i], actionId, axisPositive) {
        return Some(ks[i]);
      }
      i := i + 1;
    }
    return None;
  }

  /** The built-ins take action ids 0..34 only, and registered keybinds everything above. */
  lemma ModdedIffRegistered(ks: seq<Keybind>, i: nat)
    requires WellFormed(ks) && i < |ks|
    ensures IsModded(ks[i]) <==> i >= VanillaKeybindCount
  {
    if i < VanillaKeybindCount {
      assert ks[i] == BuiltIns()[i];
    }
  }

  /** No two keybinds of a well-formed catalog answer to the same (action id, axis side). */
  lemma ActionPairsUnique(ks: seq<Keybind>, actionId: int, axisPositive: bool, i: nat, j: nat)
    requires WellFormed(ks) && actionId != -1 && i < j < |ks|
    requires MatchesAction(ks[i], actionId, axisPositive)
    ensures !MatchesAction(ks[j], actionId, axisPositive)
  {
    if j < VanillaKeybindCount {
      assert ks[i] == BuiltIns()[i] && ks[j] == BuiltIns()[j];
    } else if i < VanillaKeybindCount {
      assert ks[i] == BuiltIns()[i];
      assert ks[i].gameAction <= HighestVanillaActionId && ks[i].uiAction <= 9;
    }
  }

  /** A keybind after the built-ins: found under its id, modded, with its action id handed out in order. */
  lemma RegisteredEntry(ks: seq<Keybind>, i: nat)
    requires WellFormed(ks) && VanillaKeybindCount <= i < |ks|
    ensures Get(ks, ks[i].id) == Some(ks[i]) && IsModded(ks[i]) && ValidId(ks[i].id)
    ensures ks[i].gameAction == HighestVanillaActionId + 1 + (i - VanillaKeybindCount)
  {
    GetInWellFormed(ks, i);
  }

  /** Get(int, bool) returns the one keybind that matches, wherever it sits. */
  lemma FindByActionUnique(ks: seq<Keybind>, actionId: int, axisPositive: bool, i: nat)
    requires WellFormed(ks) && actionId != -1 && i < |ks|
    requires MatchesAction(ks[i], actionId, axisPositive)
    ensures FindByAction(ks, actionId, axisPositive) == Some(ks[i])
  {
    var r := FindByAction(ks, actionId, axisPositive);
    FindByActionMembers(ks, actionId, axisPositive);
    var f :| IsFirstWithAction(ks, actionId, axisPositive, f) && ks[f] == r.value;
    if f < i {
      ActionPairsUnique(ks, actionId, axisPositive, f, i);
    }
  }

  /** GuiKeybinds: the catalog without the keybinds whose HideConfig is set, in catalog order. */
  function GuiKeybinds(ks: seq<Keybind>, ss: seq<Settings>): (r: seq<Keybind>)
    requires |ks| == |ss| && forall i :: 0 <= i < |ks| ==> ks[i].index == i
    ensures forall k :: k in r <==> exists i :: 0 <= i < |ks| && ks[i] == k && !ss[i].hideConfig
    ensures forall i, j :: 0 <= i < j < |r| ==> r[i].index < r[j].index
    ensures forall i :: 0 <= i < |r| ==> r[i].index < |ks|
  {
    if |ks| == 0 then []
    else
      var n := |ks| - 1;
      GuiKeybinds(ks[..n], ss[..n]) + (if ss[n].hideConfig then [] else [ks[n]])
  }

  // ---------------------------------------------------------------------
  // The registry
  // ---------------------------------------------------------------------

  /**
   * The static catalog `keybinds` with the settable properties of its
   * entries, and `moddedActionIdCounter`.
   */
  class Registry {
    var keybinds: seq<Keybind>
    var settings: seq<Settings>
    var moddedActionIdCounter: int

    ghost predicate Valid()
      reads this
    {
      && WellFormed(keybinds)
      && |settings| == |keybinds|
      && moddedActionIdCounter == HighestVanillaActionId + 1 + (|keybinds| - VanillaKeybindCount)
    }

    /** The static initialisers: the ten built-ins, and the counter at 35. */
    constructor ()
      ensures Valid()
      ensures keybinds == BuiltIns() && moddedActionIdCounter == HighestVanillaActionId + 1
      ensures settings == seq(VanillaKeybindCount, _ => DefaultSettings)
    {
      keybinds := BuiltIns();
      settings := seq(VanillaKeybindCount, _ => DefaultSettings);
      moddedActionIdCounter := HighestVanillaActionId + 1;
      BuiltInIdsValid();
    }

    /**
     * Validate, then the private constructor with `moddedActionIdCounter++`:
     * on success exactly one keybind is appended, with the next action id; on
     * failure nothing changes.
     */
    method Create(id: string, mod: string, name: string, kb: KeyCode, gp: KeyCode, xb: KeyCode)
      returns (r: Result<Keybind, RegistrationError>)
      requires Valid()
      modifies this
      ensures Valid()
      ensures r.Failure? <==> Validate(old(keybinds), id, mod, name).Some?
      ensures r.Failure? ==> Some(r.error) == Validate(old(keybinds), id, mod, name)
      ensures r.Failure? ==> keybinds == old(keybinds) && settings == old(settings)
      ensures r.Failure? ==> moddedActionIdCounter == old(moddedActionIdCounter)
      ensures r.Success? ==>
        && r.value == Keybind(|old(keybinds)|, id, mod, name, old(moddedActionIdCounter), -1, true, kb, gp, xb)
        && keybinds == old(keybinds) + [r.value]
        && settings == old(settings) + [DefaultSettings]
        && moddedActionIdCounter == old(moddedActionIdCounter) + 1
      ensures r.Success? ==> IsModded(r.value) && Get(keybinds, id) == Some(r.value)
    {
      var err := Validate(keybinds, id, mod, name);
      if err.Some? {
        return Failure(err.value);
      }
      var k := Keybind(|keybinds|, id, mod, name, moddedActionIdCounter, -1, true, kb, gp, xb);
      GetAppend(keybinds, k, id);
      keybinds := keybinds + [k];
      settings := settings + [DefaultSettings];
      moddedActionIdCounter := moddedActionIdCounter + 1;
      r := Success(k);
    }

    /** The HideConfig property setter. */
    method SetHideConfig(index: nat, hidden: bool)
      requires Valid() && index < |keybinds|
      modifies this
      ensures Valid() && keybinds == old(keybinds) && moddedActionIdCounter == old(moddedActionIdCounter)
      ensures settings == old(settings)[index := old(settings)[index].(hideConfig := hidden)]
    {
      settings := settings[index := settings[index].(hideConfig := hidden)];
    }

    /** The HideConflict property setter; None stands for null. */
    method SetHideConflict(index: nat, hidden: Option<Keybind -> bool>)
      requires Valid() && index < |keybinds|
      modifies this
      ensures Valid() && keybinds == old(keybinds) && moddedActionIdCounter == old(moddedActionIdCounter)
      ensures settings == old(settings)[index := old(settings)[index].(hideConflict := hidden)]
    {
      settings := settings[index := settings[index].(hideConflict := hidden)];
    }
  }

  /** The built-in ids pass the id checks themselves. */
  lemma BuiltInIdsPassChecks(i: nat)
    requires i < VanillaKeybindCount
    ensures ValidId(BuiltIns()[i].id)
  {
    var id := BuiltIns()[i].id;
    assert id[0] == 'v';
    MissingFirstCharNotContained(id, "<optA>");
    MissingFirstCharNotContained(id, "<optB>");
    MissingFirstCharNotContained(id, "|");
  }

  /** The built-in ids are pairwise distinct: they differ in their ninth character. */
  lemma BuiltInIdsDistinct(i: nat, j: nat)
    requires i < j < VanillaKeybindCount
    ensures BuiltIns()[i].id != BuiltIns()[j].id
  {
    var tags := "pgjtsmuldr";
    assert forall k :: 0 <= k < VanillaKeybindCount ==> |BuiltIns()[k].id| > 8 && BuiltIns()[k].id[8] == tags[k];
    assert tags[i] != tags[j];
  }

  lemma BuiltInIdsValid()
    ensures WellFormed(BuiltIns())
  {
    forall i | 0 <= i < VanillaKeybindCount
      ensures ValidId(BuiltIns()[i].id)
    {
      BuiltInIdsPassChecks(i);
    }
    forall i, j | 0 <= i < j < VanillaKeybindCount
      ensures BuiltIns()[i].id != BuiltIns()[j].id
    {
      BuiltInIdsDistinct(i, j);
    }
  }

  // ---------------------------------------------------------------------
  // Conflicts
  // ---------------------------------------------------------------------

  /**
   * Host queries the conflict check calls and this model does not look
   * inside: ControlSetup.UsingGamepad(), ControlSetup.GetActionElement(action,
   * 0, axisPositive) and ActionElementMap.CheckForAssignmentConflict.
   */
  datatype HostQueries = HostQueries(
    usingGamepad: ControlSetup -> bool,
    actionElement: (ControlSetup, int, bool) -> Option<ElementMap>,
    assignmentConflict: (ElementMap, ElementMap) -> bool)

  /** The player a conflict check compares against: -1 stands for the same player. */
  function OtherPlayer(playerNumber: int, otherPlayerNumber: int): int {
    if otherPlayerNumber == -1 then playerNumber else otherPlayerNumber
  }

  /** The mouse button `k` uses for `cs`, read only when `gate` is not a gamepad setup; -1 otherwise. */
  function MouseButton(gate: ControlSetup, cs: ControlSetup, k: Keybind): int
    reads gate, cs
  {
    if !gate.gamePad then GetMouseMapping(cs, k.gameAction, k.axisPositive) else -1
  }

  /**
   * ConflictsWith, ignoring HideConflict. Both mouse lookups are gated on the
   * FIRST player's setup, as in the source.
   */
  function ConflictsWith(controls: seq<ControlSetup>, host: HostQueries, a: Keybind, playerNumber: int,
                         b: Keybind, otherPlayerNumber: int): (r: bool)
    requires 0 <= playerNumber < |controls|
    requires otherPlayerNumber == -1 || 0 <= otherPlayerNumber < |controls|
    reads controls
    ensures var q := OtherPlayer(playerNumber, otherPlayerNumber);
      r ==> !(playerNumber == q && a.index == b.index)
    ensures var q := OtherPlayer(playerNumber, otherPlayerNumber);
      r ==> controls[playerNumber].controlPreference == controls[q].controlPreference
    ensures var cs1, cs2 := controls[playerNumber], controls[OtherPlayer(playerNumber, otherPlayerNumber)];
      r ==> !(host.usingGamepad(cs1) && host.usingGamepad(cs2) && cs1.gamePadNumber != cs2.gamePadNumber)
    ensures var cs1, cs2 := controls[playerNumber], controls[OtherPlayer(playerNumber, otherPlayerNumber)];
      r ==> && (host.actionElement(cs1, a.gameAction, a.axisPositive).Some? || MouseButton(cs1, cs1, a) != -1)
            && (host.actionElement(cs2, b.gameAction, b.axisPositive).Some? || MouseButton(cs1, cs2, b) != -1)
    ensures var cs1, cs2 := controls[playerNumber], controls[OtherPlayer(playerNumber, otherPlayerNumber)];
      var aem1, aem2 := host.actionElement(cs1, a.gameAction, a.axisPositive), host.actionElement(cs2, b.gameAction, b.axisPositive);
      r ==> || (MouseButton(cs1, cs1, a) == MouseButton(cs1, cs2, b) != -1)
            || (aem1.Some? && aem2.Some? && host.assignmentConflict(aem1.value, aem2.value))
    ensures var cs1, cs2 := controls[playerNumber], controls[OtherPlayer(playerNumber, otherPlayerNumber)];
      var aem1, aem2 := host.actionElement(cs1, a.gameAction, a.axisPositive), host.actionElement(cs2, b.gameAction, b.axisPositive);
      r <== && !(playerNumber == OtherPlayer(playerNumber, otherPlayerNumber) && a.index == b.index)
            && cs1.controlPreference == cs2.controlPreference
            && !(host.usingGamepad(cs1) && host.usingGamepad(cs2) && cs1.gamePadNumber != cs2.gamePadNumber)
            && ((MouseButton(cs1, cs1, a) == MouseButton(cs1, cs2, b) != -1)
                || (aem1.Some? && aem2.Some? && host.assignmentConflict(aem1.value, aem2.value)))
  {
    var q := OtherPlayer(playerNumber, otherPlayerNumber);
    if playerNumber == q && a.index == b.index then false
    else
      var cs1, cs2 := controls[playerNumber], controls[q];
      if cs1.controlPreference != cs2.controlPreference then false
      else if host.usingGamepad(cs1) && host.usingGamepad(cs2) && cs1.gamePadNumber != cs2.gamePadNumber then false
      else
        var aem1 := host.actionElement(cs1, a.gameAction, a.axisPositive);
        var mouse1 := MouseButton(cs1, cs1, a);
        if aem1.None? && mouse1 == -1 then false
        else
          var aem2 := host.actionElement(cs2, b.gameAction, b.axisPositive);
          var mouse2 := MouseButton(cs1, cs2, b);
          if aem2.None? && mouse2 == -1 then false
          else (mouse1 == mouse2 && mouse1 != -1) || (aem1.Some? && aem2.Some? && host.assignmentConflict(aem1.value, aem2.value))
  }

  /** Whether a keybind's HideConflict predicate asks to hide a conflict with `other`; null counts as false. */
  predicate Suppresses(s: Settings, other: Keybind) {
    s.hideConflict.Some? && s.hideConflict.value(other)
  }

  /** VisiblyConflictsWith: a conflict that neither keybind's HideConflict hides. */
  function VisiblyConflictsWith(controls: seq<ControlSetup>, host: HostQueries, a: Keybind, sa: Settings,
                                playerNumber: int, b: Keybind, sb: Settings, otherPlayerNumber: int): (r: bool)
    requires 0 <= playerNumber < |controls|
    requires otherPlayerNumber == -1 || 0 <= otherPlayerNumber < |controls|
    reads controls
    ensures r ==> ConflictsWith(controls, host, a, playerNumber, b, otherPlayerNumber)
    ensures Suppresses(sa, b) || Suppresses(sb, a) ==> !r
    ensures ConflictsWith(controls, host, a, playerNumber, b, otherPlayerNumber) && !Suppresses(sa, b) && !Suppresses(sb, a) ==> r
  {
    ConflictsWith(controls, host, a, playerNumber, b, otherPlayerNumber)
    && !(sa.hideConflict.Some? && sa.hideConflict.value(b))
    && !(sb.hideConflict.Some? && sb.hideConflict.value(a))
  }

  /**
   * The conflict relation is not symmetric as written: with a keyboard first
   * player and a gamepad second player sharing a control preference, the
   * second player's mouse button counts in one direction and not the other.
   */
  lemma ConflictsWithNotSymmetric(controls: seq<ControlSetup>, host: HostQueries, a: Keybind, b: Keybind)
    requires |controls| == 2
    requires controls[0].controlPreference == controls[1].controlPreference
    requires !controls[0].gamePad && controls[1].gamePad && !host.usingGamepad(controls[0])
    requires host.actionElement(controls[0], a.gameAction, a.axisPositive).None?
    requires host.actionElement(controls[1], b.gameAction, b.axisPositive).None?
    requires GetMouseMapping(controls[0], a.gameAction, a.axisPositive) != -1
    requires GetMouseMapping(controls[0], a.gameAction, a.axisPositive) == GetMouseMapping(controls[1], b.gameAction, b.axisPositive)
    ensures ConflictsWith(controls, host, a, 0, b, 1)
    ensures !ConflictsWith(controls, host, b, 1, a, 0)
  {
  }
}
