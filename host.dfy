/**
 * The host side the keybind core talks to: Rewired's controller maps and
 * element maps, Rain World's per-player ControlSetup, and Unity's
 * PlayerPrefs store. Only the parts the core reads or writes are modelled.
 */
module Host {
  import opened Wrappers
  import opened Text

  /** Rewired.ControllerElementType. */
  datatype ElementType = Axis | Button

  /** Rewired.AxisRange. */
  datatype AxisRange = Full | Positive | Negative

  /** Rewired.ControllerType, as far as the hooks tell controllers apart. */
  datatype ControllerType = Keyboard | Mouse | Joystick | Custom

  /** Enum.ToString() of an element type. */
  function ElementTypeName(t: ElementType): string
  {
    match t
    case Axis => "Axis"
    case Button => "Button"
  }

  /** Enum.TryParse of an element type, by member name. */
  function ParseElementType(s: string): (r: Option<ElementType>)
    ensures r.Some? ==> ElementTypeName(r.value) == s
    ensures forall t :: ElementTypeName(t) == s ==> r == Some(t)
  {
    if s == "Axis" then Some(Axis) else if s == "Button" then Some(Button) else None
  }

  /** Enum.ToString() of an axis range. */
  function AxisRangeName(r: AxisRange): string
  {
    match r
    case Full => "Full"
    case Positive => "Positive"
    case Negative => "Negative"
  }

  /** Enum.TryParse of an axis range, by member name. */
  function ParseAxisRange(s: string): (r: Option<AxisRange>)
    ensures r.Some? ==> AxisRangeName(r.value) == s
    ensures forall a :: AxisRangeName(a) == s ==> r == Some(a)
  {
    if s == "Full" then Some(Full)
    else if s == "Positive" then Some(Positive)
    else if s == "Negative" then Some(Negative)
    else None
  }

  /** A Rewired ActionElementMap: which physical element an action is bound to. */
  datatype ElementMap = ElementMap(actionId: int, elementId: int, elementType: ElementType, axisRange: AxisRange)

  /** Position `i` holds the first element map of `action`. */
  predicate IsFirstMapWithAction(maps: seq<ElementMap>, action: int, i: int) {
    0 <= i < |maps| && maps[i].actionId == action && forall j :: 0 <= j < i ==> maps[j].actionId != action
  }

  /** ControllerMap.GetFirstElementMapWithAction. */
  function FirstWithAction(maps: seq<ElementMap>, action: int): Option<ElementMap>
  {
    if |maps| == 0 then None
    else if maps[0].actionId == action then Some(maps[0])
    else FirstWithAction(maps[1..], action)
  }

  /** FirstWithAction finds nothing exactly when no map has the action, and otherwise the first one that has it. */
  lemma {:induction false} FirstWithActionMembers(maps: seq<ElementMap>, action: int)
    ensures FirstWithAction(maps, action).None? <==> forall i :: 0 <= i < |maps| ==> maps[i].actionId != action
    ensures FirstWithAction(maps, action).Some? ==>
      exists i :: IsFirstMapWithAction(maps, action, i) && maps[i] == FirstWithAction(maps, action).value
  {
    if |maps| > 0 && maps[0].actionId != action {
      FirstWithActionMembers(maps[1..], action);
      assert forall i :: 0 < i < |maps| ==> maps[i] == maps[1..][i - 1];
      assert forall i :: IsFirstMapWithAction(maps[1..], action, i) ==> IsFirstMapWithAction(maps, action, i + 1);
    } else if |maps| > 0 {
      assert IsFirstMapWithAction(maps, action, 0);
    }
  }

  /** The element maps left after ControllerMap.DeleteElementMapsWithAction. */
  function WithoutAction(maps: seq<ElementMap>, action: int): seq<ElementMap>
  {
    if |maps| == 0 then []
    else (if maps[0].actionId == action then [] else [maps[0]]) + WithoutAction(maps[1..], action)
  }

  /** Deleting an action's maps keeps exactly the maps of other actions. */
  lemma {:induction false} WithoutActionMembers(maps: seq<ElementMap>, action: int)
    ensures forall m :: m in WithoutAction(maps, action) <==> m in maps && m.actionId != action
    ensures |WithoutAction(maps, action)| <= |maps|
  {
    if |maps| > 0 {
      WithoutActionMembers(maps[1..], action);
      assert maps == [maps[0]] + maps[1..];
    }
  }

  /** Deleting an action's maps from a concatenation deletes them from each part. */
  lemma {:induction false} WithoutActionAppend(a: seq<ElementMap>, b: seq<ElementMap>, action: int)
    ensures WithoutAction(a + b, action) == WithoutAction(a, action) + WithoutAction(b, action)
  {
    if |a| == 0 {
      assert a + b == b;
    } else {
      assert (a + b)[1..] == a[1..] + b;
      WithoutActionAppend(a[1..], b, action);
    }
  }

  /** Deleting an action nothing is bound to changes nothing. */
  lemma {:induction false} WithoutActionAbsent(maps: seq<ElementMap>, action: int)
    requires forall m :: m in maps ==> m.actionId != action
    ensures WithoutAction(maps, action) == maps
  {
    if |maps| > 0 {
      assert maps[0] in maps;
      WithoutActionAbsent(maps[1..], action);
    }
  }

  /** The first map of an action in a concatenation comes from the first part that has one. */
  lemma {:induction false} FirstWithActionAppend(a: seq<ElementMap>, b: seq<ElementMap>, action: int)
    ensures FirstWithAction(a + b, action)
         == if FirstWithAction(a, action).Some? then FirstWithAction(a, action) else FirstWithAction(b, action)
  {
    if |a| == 0 {
      assert a + b == b;
    } else {
      assert (a + b)[1..] == a[1..] + b;
      FirstWithActionAppend(a[1..], b, action);
    }
  }

  /** A Rewired ControllerMap whose element maps the hooks rewrite in place. */
  class ControllerMap {
    const playerId: int
    const controllerType: ControllerType
    var maps: seq<ElementMap>

    constructor (playerId: int, controllerType: ControllerType, maps: seq<ElementMap>)
      ensures this.playerId == playerId && this.controllerType == controllerType && this.maps == maps
    {
      this.playerId := playerId;
      this.controllerType := controllerType;
      this.maps := maps;
    }
  }

  /** Options.ControlSetup: one player's input settings in Rain World. */
  class ControlSetup {
    const controlPreference: int
    const gamePad: bool
    const gamePadNumber: int
    var mouseButtonMappings: map<string, int>
    var unrecognizedControlAttrs: Option<seq<string>>

    constructor (controlPreference: int, gamePad: bool, gamePadNumber: int)
      ensures this.controlPreference == controlPreference && this.gamePad == gamePad
      ensures this.gamePadNumber == gamePadNumber
      ensures mouseButtonMappings == map[] && unrecognizedControlAttrs == None
    {
      this.controlPreference := controlPreference;
      this.gamePad := gamePad;
      this.gamePadNumber := gamePadNumber;
      mouseButtonMappings := map[];
      unrecognizedControlAttrs := None;
    }
  }

  /** The key of a mouse-button mapping: "<action>,1" for the positive side, "<action>,0" for the negative. */
  function MouseKey(action: int, axisPositive: bool): string
  {
    IntToString(action) + "," + (if axisPositive then "1" else "0")
  }

  /** The mouse button bound to an action, or -1 when there is none. */
  function GetMouseMapping(cs: ControlSetup, action: int, axisPositive: bool): int
    reads cs
  {
    var key := MouseKey(action, axisPositive);
    if key in cs.mouseButtonMappings then cs.mouseButtonMappings[key] else -1
  }

  /** Unity's PlayerPrefs: a persistent string-to-string store. */
  class PlayerPrefs {
    var store: map<string, string>

    constructor (store: map<string, string>)
      ensures this.store == store
    {
      this.store := store;
    }
  }
}
