/**
 * PlayerKeybind.Register: validation, the private constructor that appends
 * the keybind with the next modded action id, and the late load of the
 * keybind's saved entries into every controller map already loaded.
 */
module Registration {
  import opened Wrappers
  import opened Host
  import opened PlayerKeybinds
  import opened SaveAndLoadHooks
  import opened LateLoad
  import opened MouseOverlay

  /**
   * How a registration ends: the new keybind is returned; Validate throws and
   * nothing changes; or the late load throws after the keybind was already
   * appended to the catalog (the exception reaches the caller, the keybind
   * stays registered).
   */
  datatype Outcome =
    | Registered(k: Keybind)
    | Rejected(error: RegistrationError)
    | LateLoadThrew(k: Keybind)

  /**
   * Register(id, mod, name, keyboardPreset, gamepadPreset, xboxPreset).
   * `order` is the enumeration order of the loaded records and `controls`
   * the players' control setups, which the late load reads.
   */
  method Register(reg: Registry, hooks: Hooks, id: string, mod: string, name: string,
                  kb: KeyCode, gp: KeyCode, xb: KeyCode, order: seq<string>, controls: seq<ControlSetup>)
    returns (r: Outcome)
    requires reg.Valid()
    requires forall key :: key in hooks.allControllerMapData <==> key in order
    modifies reg, hooks, hooks.allControllerMapData.Values, hooks.Cmaps(), controls
    ensures reg.Valid()
    ensures r.Rejected? <==> Validate(old(reg.keybinds), id, mod, name).Some?
    ensures r.Rejected? ==>
      && Some(r.error) == Validate(old(reg.keybinds), id, mod, name)
      && reg.keybinds == old(reg.keybinds) && reg.settings == old(reg.settings)
      && reg.moddedActionIdCounter == old(reg.moddedActionIdCounter)
      && unchanged(hooks)
      && (forall d :: d in hooks.allControllerMapData.Values ==> unchanged(d) && unchanged(d.cmap))
      && (forall c :: c in controls ==> unchanged(c))
    ensures !r.Rejected? ==>
      && r.k == Keybind(|old(reg.keybinds)|, id, mod, name, old(reg.moddedActionIdCounter), -1, true, kb, gp, xb)
      && reg.keybinds == old(reg.keybinds) + [r.k]
      && reg.settings == old(reg.settings) + [DefaultSettings]
      && reg.moddedActionIdCounter == old(reg.moddedActionIdCounter) + 1
      && IsModded(r.k) && Get(reg.keybinds, id) == Some(r.k)
    ensures r.LateLoadThrew? ==> hooks.hasLoadedOptions
    ensures hooks.allControllerMapData == old(hooks.allControllerMapData)
    ensures hooks.hasLoadedOptions == old(hooks.hasLoadedOptions)
    ensures hooks.unknownMouseButtonMappings.Keys == old(hooks.unknownMouseButtonMappings.Keys)
    ensures !r.Rejected? ==>
      forall key :: key in hooks.allControllerMapData ==>
        WithoutAction(hooks.allControllerMapData[key].cmap.maps, r.k.gameAction)
        == WithoutAction(old(hooks.allControllerMapData[key].cmap.maps), r.k.gameAction)
    ensures !r.Rejected? ==>
      forall c :: c in controls ==>
        && c.mouseButtonMappings - {MouseKey(r.k.gameAction, r.k.axisPositive)}
           == old(c.mouseButtonMappings) - {MouseKey(r.k.gameAction, r.k.axisPositive)}
        && c.unrecognizedControlAttrs == old(c.unrecognizedControlAttrs)
    ensures forall key :: key in hooks.allControllerMapData && !ValidPlayer(hooks.allControllerMapData[key], controls) ==>
      && hooks.allControllerMapData[key].unbound == old(hooks.allControllerMapData[key].unbound)
      && hooks.allControllerMapData[key].bound == old(hooks.allControllerMapData[key].bound)
    ensures r.Registered? && !hooks.hasLoadedOptions ==>
      && hooks.unknownMouseButtonMappings == old(hooks.unknownMouseButtonMappings)
      && (forall d :: d in hooks.allControllerMapData.Values ==> unchanged(d) && unchanged(d.cmap))
      && (forall c :: c in controls ==> unchanged(c))
    ensures r.Registered? && hooks.hasLoadedOptions ==>
      forall key :: key in hooks.allControllerMapData && ValidPlayer(hooks.allControllerMapData[key], controls) ==>
        && hooks.allControllerMapData[key].unbound == DropId(old(hooks.allControllerMapData[key].unbound), r.k.id)
        && hooks.allControllerMapData[key].bound == OtherBound(old(hooks.allControllerMapData[key].bound), r.k.id)
        && r.k.id !in hooks.allControllerMapData[key].unbound
        && (forall m :: m in hooks.allControllerMapData[key].bound ==> m.id != r.k.id)
    ensures r.Registered? && hooks.hasLoadedOptions ==>
      forall key ::
        (&& key in hooks.allControllerMapData && ValidPlayer(hooks.allControllerMapData[key], controls)
         && hooks.allControllerMapData[key].cmap.controllerType == Keyboard
         && controls[hooks.allControllerMapData[key].cmap.playerId] in hooks.unknownMouseButtonMappings) ==>
          forall e :: e in hooks.unknownMouseButtonMappings[controls[hooks.allControllerMapData[key].cmap.playerId]] ==>
            EntryId(e) != r.k.id
    ensures r.Registered? && hooks.hasLoadedOptions ==>
      forall c :: c in hooks.unknownMouseButtonMappings ==>
        || hooks.unknownMouseButtonMappings[c] == old(hooks.unknownMouseButtonMappings[c])
        || hooks.unknownMouseButtonMappings[c] == OtherEntries(old(hooks.unknownMouseButtonMappings[c]), r.k.id)
    ensures r.Registered? && hooks.hasLoadedOptions ==>
      forall key :: key in hooks.allControllerMapData && hooks.Unshared(key) ==>
        var d := hooks.allControllerMapData[key];
        ValidPlayer(d, controls) ==>
          FirstWithAction(d.cmap.maps, r.k.gameAction) == BindingAfter(r.k, old(d.bound), old(d.cmap.maps))
    ensures r.Registered? && hooks.hasLoadedOptions ==>
      forall key :: key in hooks.allControllerMapData ==>
        var d := hooks.allControllerMapData[key];
        ValidPlayer(d, controls) && d.cmap.controllerType == Keyboard ==>
          var cs := controls[d.cmap.playerId];
          cs in old(hooks.unknownMouseButtonMappings) ==>
            cs.mouseButtonMappings == MouseAfter(r.k, old(hooks.unknownMouseButtonMappings)[cs], old(cs.mouseButtonMappings))
  {
    var created := reg.Create(id, mod, name, kb, gp, xb);
    if created.Failure? {
      return Rejected(created.error);
    }
    var k := created.value;
    var ok := hooks.LateLoadKeybindData(k, order, controls);
    r := if ok then Registered(k) else LateLoadThrew(k);
  }

  /**
   * Register(id, mod, name, keyboardPreset, gamepadPreset): the Xbox preset
   * is the gamepad preset.
   */
  method RegisterSharedPreset(reg: Registry, hooks: Hooks, id: string, mod: string, name: string,
                              kb: KeyCode, gp: KeyCode, order: seq<string>, controls: seq<ControlSetup>)
    returns (r: Outcome)
    requires reg.Valid()
    requires forall key :: key in hooks.allControllerMapData <==> key in order
    modifies reg, hooks, hooks.allControllerMapData.Values, hooks.Cmaps(), controls
    ensures reg.Valid()
    ensures r.Rejected? <==> Validate(old(reg.keybinds), id, mod, name).Some?
    ensures r.Rejected? ==>
      && Some(r.error) == Validate(old(reg.keybinds), id, mod, name)
      && reg.keybinds == old(reg.keybinds) && reg.settings == old(reg.settings)
      && reg.moddedActionIdCounter == old(reg.moddedActionIdCounter)
      && unchanged(hooks)
      && (forall d :: d in hooks.allControllerMapData.Values ==> unchanged(d) && unchanged(d.cmap))
      && (forall c :: c in controls ==> unchanged(c))
    ensures !r.Rejected? ==>
      && r.k == Keybind(|old(reg.keybinds)|, id, mod, name, old(reg.moddedActionIdCounter), -1, true, kb, gp, gp)
      && reg.keybinds == old(reg.keybinds) + [r.k]
      && reg.settings == old(reg.settings) + [DefaultSettings]
      && reg.moddedActionIdCounter == old(reg.moddedActionIdCounter) + 1
      && IsModded(r.k) && Get(reg.keybinds, id) == Some(r.k)
    ensures r.LateLoadThrew? ==> hooks.hasLoadedOptions
    ensures hooks.allControllerMapData == old(hooks.allControllerMapData)
    ensures hooks.hasLoadedOptions == old(hooks.hasLoadedOptions)
    ensures hooks.unknownMouseButtonMappings.Keys == old(hooks.unknownMouseButtonMappings.Keys)
    ensures !r.Rejected? ==>
      forall key :: key in hooks.allControllerMapData ==>
        WithoutAction(hooks.allControllerMapData[key].cmap.maps, r.k.gameAction)
        == WithoutAction(old(hooks.allControllerMapData[key].cmap.maps), r.k.gameAction)
    ensures !r.Rejected? ==>
      forall c :: c in controls ==>
        && c.mouseButtonMappings - {MouseKey(r.k.gameAction, r.k.axisPositive)}
           == old(c.mouseButtonMappings) - {MouseKey(r.k.gameAction, r.k.axisPositive)}
        && c.unrecognizedControlAttrs == old(c.unrecognizedControlAttrs)
    ensures forall key :: key in hooks.allControllerMapData && !ValidPlayer(hooks.allControllerMapData[key], controls) ==>
      && hooks.allControllerMapData[key].unbound == old(hooks.allControllerMapData[key].unbound)
      && hooks.allControllerMapData[key].bound == old(hooks.allControllerMapData[key].bound)
    ensures r.Registered? && !hooks.hasLoadedOptions ==>
      && hooks.unknownMouseButtonMappings == old(hooks.unknownMouseButtonMappings)
      && (forall d :: d in hooks.allControllerMapData.Values ==> unchanged(d) && unchanged(d.cmap))
      && (forall c :: c in controls ==> unchanged(c))
    ensures r.Registered? && hooks.hasLoadedOptions ==>
      forall key :: key in hooks.allControllerMapData && ValidPlayer(hooks.allControllerMapData[key], controls) ==>
        && hooks.allControllerMapData[key].unbound == DropId(old(hooks.allControllerMapData[key].unbound), r.k.id)
        && hooks.allControllerMapData[key].bound == OtherBound(old(hooks.allControllerMapData[key].bound), r.k.id)
        && r.k.id !in hooks.allControllerMapData[key].unbound
        && (forall m :: m in hooks.allControllerMapData[key].bound ==> m.id != r.k.id)
    ensures r.Registered? && hooks.hasLoadedOptions ==>
      forall key ::
        (&& key in hooks.allControllerMapData && ValidPlayer(hooks.allControllerMapData[key], controls)
         && hooks.allControllerMapData[key].cmap.controllerType == Keyboard
         && controls[hooks.allControllerMapData[key].cmap.playerId] in hooks.unknownMouseButtonMappings) ==>
          forall e :: e in hooks.unknownMouseButtonMappings[controls[hooks.allControllerMapData[key].cmap.playerId]] ==>
            EntryId(e) != r.k.id
    ensures r.Registered? && hooks.hasLoadedOptions ==>
      forall c :: c in hooks.unknownMouseButtonMappings ==>
        || hooks.unknownMouseButtonMappings[c] == old(hooks.unknownMouseButtonMappings[c])
        || hooks.unknownMouseButtonMappings[c] == OtherEntries(old(hooks.unknownMouseButtonMappings[c]), r.k.id)
    ensures r.Registered? && hooks.hasLoadedOptions ==>
      forall key :: key in hooks.allControllerMapData && hooks.Unshared(key) ==>
        var d := hooks.allControllerMapData[key];
        ValidPlayer(d, controls) ==>
          FirstWithAction(d.cmap.maps, r.k.gameAction) == BindingAfter(r.k, old(d.bound), old(d.cmap.maps))
    ensures r.Registered? && hooks.hasLoadedOptions ==>
      forall key :: key in hooks.allControllerMapData ==>
        var d := hooks.allControllerMapData[key];
        ValidPlayer(d, controls) && d.cmap.controllerType == Keyboard ==>
          var cs := controls[d.cmap.playerId];
          cs in old(hooks.unknownMouseButtonMappings) ==>
            cs.mouseButtonMappings == MouseAfter(r.k, old(hooks.unknownMouseButtonMappings)[cs], old(cs.mouseButtonMappings))
  {
    r := Register(reg, hooks, id, mod, name, kb, gp, gp, order, controls);
  }

  /** The private Register(id, mod, name): no presets (KeyCode.None everywhere). */
  method RegisterWithoutPresets(reg: Registry, hooks: Hooks, id: string, mod: string, name: string,
                                order: seq<string>, controls: seq<ControlSetup>)
    returns (r: Outcome)
    requires reg.Valid()
    requires forall key :: key in hooks.allControllerMapData <==> key in order
    modifies reg, hooks, hooks.allControllerMapData.Values, hooks.Cmaps(), controls
    ensures reg.Valid()
    ensures r.Rejected? <==> Validate(old(reg.keybinds), id, mod, name).Some?
    ensures r.Rejected? ==>
      && Some(r.error) == Validate(old(reg.keybinds), id, mod, name)
      && reg.keybinds == old(reg.keybinds) && reg.settings == old(reg.settings)
      && reg.moddedActionIdCounter == old(reg.moddedActionIdCounter)
      && unchanged(hooks)
      && (forall d :: d in hooks.allControllerMapData.Values ==> unchanged(d) && unchanged(d.cmap))
      && (forall c :: c in controls ==> unchanged(c))
    ensures !r.Rejected? ==>
      && r.k == Keybind(|old(reg.keybinds)|, id, mod, name, old(reg.moddedActionIdCounter), -1, true, KeyCodeNone, KeyCodeNone, KeyCodeNone)
      && reg.keybinds == old(reg.keybinds) + [r.k]
      && reg.settings == old(reg.settings) + [DefaultSettings]
      && reg.moddedActionIdCounter == old(reg.moddedActionIdCounter) + 1
      && IsModded(r.k) && Get(reg.keybinds, id) == Some(r.k)
    ensures r.LateLoadThrew? ==> hooks.hasLoadedOptions
    ensures hooks.allControllerMapData == old(hooks.allControllerMapData)
    ensures hooks.hasLoadedOptions == old(hooks.hasLoadedOptions)
    ensures hooks.unknownMouseButtonMappings.Keys == old(hooks.unknownMouseButtonMappings.Keys)
    ensures !r.Rejected? ==>
      forall key :: key in hooks.allControllerMapData ==>
        WithoutAction(hooks.allControllerMapData[key].cmap.maps, r.k.gameAction)
        == WithoutAction(old(hooks.allControllerMapData[key].cmap.maps), r.k.gameAction)
    ensures !r.Rejected? ==>
      forall c :: c in controls ==>
        && c.mouseButtonMappings - {MouseKey(r.k.gameAction, r.k.axisPositive)}
           == old(c.mouseButtonMappings) - {MouseKey(r.k.gameAction, r.k.axisPositive)}
        && c.unrecognizedControlAttrs == old(c.unrecognizedControlAttrs)
    ensures forall key :: key in hooks.allControllerMapData && !ValidPlayer(hooks.allControllerMapData[key], controls) ==>
      && hooks.allControllerMapData[key].unbound == old(hooks.allControllerMapData[key].unbound)
      && hooks.allControllerMapData[key].bound == old(hooks.allControllerMapData[key].bound)
    ensures r.Registered? && !hooks.hasLoadedOptions ==>
      && hooks.unknownMouseButtonMappings == old(hooks.unknownMouseButtonMappings)
      && (forall d :: d in hooks.allControllerMapData.Values ==> unchanged(d) && unchanged(d.cmap))
      && (forall c :: c in controls ==> unchanged(c))
    ensures r.Registered? && hooks.hasLoadedOptions ==>
      forall key :: key in hooks.allControllerMapData && ValidPlayer(hooks.allControllerMapData[key], controls) ==>
        && hooks.allControllerMapData[key].unbound == DropId(old(hooks.allControllerMapData[key].unbound), r.k.id)
        && hooks.allControllerMapData[key].bound == OtherBound(old(hooks.allControllerMapData[key].bound), r.k.id)
        && r.k.id !in hooks.allControllerMapData[key].unbound
        && (forall m :: m in hooks.allControllerMapData[key].bound ==> m.id != r.k.id)
    ensures r.Registered? && hooks.hasLoadedOptions ==>
      forall key ::
        (&& key in hooks.allControllerMapData && ValidPlayer(hooks.allControllerMapData[key], controls)
         && hooks.allControllerMapData[key].cmap.controllerType == Keyboard
         && controls[hooks.allControllerMapData[key].cmap.playerId] in hooks.unknownMouseButtonMappings) ==>
          forall e :: e in hooks.unknownMouseButtonMappings[controls[hooks.allControllerMapData[key].cmap.playerId]] ==>
            EntryId(e) != r.k.id
    ensures r.Registered? && hooks.hasLoadedOptions ==>
      forall c :: c in hooks.unknownMouseButtonMappings ==>
        || hooks.unknownMouseButtonMappings[c] == old(hooks.unknownMouseButtonMappings[c])
        || hooks.unknownMouseButtonMappings[c] == OtherEntries(old(hooks.unknownMouseButtonMappings[c]), r.k.id)
    ensures r.Registered? && hooks.hasLoadedOptions ==>
      forall key :: key in hooks.allControllerMapData && hooks.Unshared(key) ==>
        var d := hooks.allControllerMapData[key];
        ValidPlayer(d, controls) ==>
          FirstWithAction(d.cmap.maps, r.k.gameAction) == BindingAfter(r.k, old(d.bound), old(d.cmap.maps))
    ensures r.Registered? && hooks.hasLoadedOptions ==>
      forall key :: key in hooks.allControllerMapData ==>
        var d := hooks.allControllerMapData[key];
        ValidPlayer(d, controls) && d.cmap.controllerType == Keyboard ==>
          var cs := controls[d.cmap.playerId];
          cs in old(hooks.unknownMouseButtonMappings) ==>
            cs.mouseButtonMappings == MouseAfter(r.k, old(hooks.unknownMouseButtonMappings)[cs], old(cs.mouseButtonMappings))
  {
    r := Register(reg, hooks, id, mod, name, KeyCodeNone, KeyCodeNone, KeyCodeNone, order, controls);
  }
}
