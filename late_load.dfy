/**
 * What LateLoadKeybindData does to the entries kept for keybinds that were
 * not registered yet: its backward RemoveAt loops, stated as functions over
 * the lists they walk. The walks go from the last entry to the first, so the
 * functions recurse on the tail first and then handle the head.
 */
module LateLoad {
  import opened Wrappers
  import opened Text
  import opened Host
  import opened PlayerKeybinds
  import opened ControllerRecords
  import opened MouseOverlay

  /** The unbound ids left after every occurrence of `id` is removed. */
  function DropId(ids: seq<string>, id: string): (r: seq<string>)
    ensures forall x :: x in r <==> x in ids && x != id
    ensures |r| <= |ids|
  {
    if |ids| == 0 then []
    else
      assert ids == [ids[0]] + ids[1..];
      (if ids[0] == id then [] else [ids[0]]) + DropId(ids[1..], id)
  }

  /** What a backward walk leaves: the new state, the entries it did not consume, and whether an exception stopped it. */
  datatype Consumed<S, T> = Consumed(state: S, kept: seq<T>, failed: bool)

  /**
   * A backward RemoveAt walk over `xs` with the given step: from the last
   * entry to the first, each step sees what the walk over the entries behind
   * it left.
   */
  function Walk<S, T>(step: (T, Consumed<S, T>) -> Consumed<S, T>, init: S, xs: seq<T>): Consumed<S, T>
  {
    if |xs| == 0 then Consumed(init, [], false)
    else step(xs[0], Walk(step, init, xs[1..]))
  }

  /** A step that, once an exception has stopped the walk, only keeps its entry. */
  ghost predicate StopsOnFailure<S(!new), T(!new)>(step: (T, Consumed<S, T>) -> Consumed<S, T>) {
    forall x, rest: Consumed<S, T> :: rest.failed ==> step(x, rest) == rest.(kept := [x] + rest.kept)
  }

  /** The walk over a suffix is one step taken after the walk over the shorter suffix. */
  lemma WalkBack<S, T>(step: (T, Consumed<S, T>) -> Consumed<S, T>, init: S, xs: seq<T>, i: nat)
    requires i < |xs|
    ensures Walk(step, init, xs[i..]) == step(xs[i], Walk(step, init, xs[i + 1..]))
  {
    assert xs[i..][1..] == xs[i + 1..];
  }

  /**
   * The bookkeeping of an in-place backward walk at position `i`: the list
   * holds the entries before `i`, then the ones the walk behind `i` kept;
   * removing entry `i` when the step consumes it, and leaving it otherwise,
   * keeps that shape one position earlier.
   */
  lemma WalkStep<S, T>(step: (T, Consumed<S, T>) -> Consumed<S, T>, init: S, xs: seq<T>, i: nat,
                       r: Consumed<S, T>, kept: seq<T>, next: Consumed<S, T>, kept': seq<T>)
    requires i < |xs| && r == Walk(step, init, xs[i + 1..]) && kept == xs[..i + 1] + r.kept
    requires next == step(xs[i], r)
    requires || (next.kept == r.kept && kept' == kept[..i] + kept[i + 1..])
             || (next.kept == [xs[i]] + r.kept && kept' == kept)
    ensures next == Walk(step, init, xs[i..]) && kept' == xs[..i] + next.kept
  {
    WalkBack(step, init, xs, i);
    assert xs[..i + 1] == xs[..i] + [xs[i]];
    assert kept[..i] == xs[..i] && kept[i + 1..] == r.kept;
  }

  /** In that shape, position `i` of the list still holds entry `i`. */
  lemma KeptAt<T>(xs: seq<T>, i: nat, kept: seq<T>, rest: seq<T>)
    requires i < |xs| && kept == xs[..i + 1] + rest
    ensures i < |kept| && kept[i] == xs[i]
  {
  }

  /** A walk that failed on a suffix passes over everything before it: the failure keeps the whole prefix. */
  lemma {:induction false} WalkFailedPrefix<S(!new), T(!new)>(step: (T, Consumed<S, T>) -> Consumed<S, T>, init: S, pre: seq<T>, suf: seq<T>)
    requires StopsOnFailure(step) && Walk(step, init, suf).failed
    ensures Walk(step, init, pre + suf) == Walk(step, init, suf).(kept := pre + Walk(step, init, suf).kept)
  {
    var r := Walk(step, init, suf);
    if |pre| == 0 {
      assert pre + suf == suf;
      assert pre + r.kept == r.kept;
    } else {
      WalkFailedPrefix(step, init, pre[1..], suf);
      assert (pre + suf)[1..] == pre[1..] + suf;
      assert (pre + suf)[0] == pre[0];
      assert [pre[0]] + (pre[1..] + r.kept) == pre + r.kept;
    }
  }

  /**
   * One step of the bound-tuple walk, taking tuple `b` after the ones behind
   * it: a tuple of the keybind is applied with AddControllerMapping and then
   * removed; an exception stops the walk and leaves that tuple and all before it.
   */
  function BoundStep(pk: Keybind, b: Mapping, rest: Consumed<seq<ElementMap>, Mapping>): Consumed<seq<ElementMap>, Mapping>
  {
    if rest.failed || b.id != pk.id then rest.(kept := [b] + rest.kept)
    else
      match AddControllerMapping(rest.state, pk, b)
      case None => rest.(kept := [b] + rest.kept, failed := true)
      case Some(m) => rest.(state := m)
  }

  /** The bound-tuple walk over a record's tuples, from the last to the first. */
  function ConsumeBound(pk: Keybind, maps: seq<ElementMap>, bs: seq<Mapping>): Consumed<seq<ElementMap>, Mapping>
  {
    Walk((b, rest) => BoundStep(pk, b, rest), maps, bs)
  }

  /** The tuples of other keybinds, in order. */
  function OtherBound(bs: seq<Mapping>, id: string): (r: seq<Mapping>)
    ensures forall m :: m in r <==> m in bs && m.id != id
  {
    if |bs| == 0 then []
    else
      assert bs == [bs[0]] + bs[1..];
      (if bs[0].id == id then [] else [bs[0]]) + OtherBound(bs[1..], id)
  }

  /** A walk that finishes removes exactly the keybind's tuples and keeps the others in order. */
  lemma {:induction false} ConsumeBoundKept(pk: Keybind, maps: seq<ElementMap>, bs: seq<Mapping>)
    ensures !ConsumeBound(pk, maps, bs).failed ==> ConsumeBound(pk, maps, bs).kept == OtherBound(bs, pk.id)
    ensures ConsumeBound(pk, maps, bs).failed ==> |ConsumeBound(pk, maps, bs).kept| > 0
  {
    if |bs| > 0 {
      ConsumeBoundKept(pk, maps, bs[1..]);
    }
  }

  /** A tuple of the keybind whose element id does not parse stops the walk. */
  lemma {:induction false} ConsumeBoundFails(pk: Keybind, maps: seq<ElementMap>, bs: seq<Mapping>, i: nat)
    requires i < |bs| && bs[i].id == pk.id && ParseInt(bs[i].elementId).None?
    ensures ConsumeBound(pk, maps, bs).failed
  {
    if i > 0 {
      ConsumeBoundFails(pk, maps, bs[1..], i - 1);
    }
  }

  /** With no tuple of the keybind, the walk changes nothing. */
  lemma {:induction false} ConsumeBoundNone(pk: Keybind, maps: seq<ElementMap>, bs: seq<Mapping>)
    requires forall m :: m in bs ==> m.id != pk.id
    ensures ConsumeBound(pk, maps, bs) == Consumed(maps, bs, false)
  {
    if |bs| > 0 {
      assert bs[0] in bs;
      ConsumeBoundNone(pk, maps, bs[1..]);
      assert [bs[0]] + bs[1..] == bs;
    }
  }

  /**
   * The element map the keybind's earliest tuple with a parsable element id,
   * element type and axis range describes, if it has one.
   */
  function SavedBinding(pk: Keybind, bs: seq<Mapping>): (r: Option<ElementMap>)
    ensures (forall m :: m in bs ==> m.id != pk.id) ==> r.None?
    ensures r.Some? ==> r.value.actionId == pk.gameAction
  {
    if |bs| == 0 then None
    else
      var b := bs[0];
      if b.id == pk.id && ParseInt(b.elementId).Some? && ParseElementType(b.elementType).Some? && ParseAxisRange(b.axisRange).Some?
      then Some(ElementMap(pk.gameAction, ParseInt(b.elementId).value, ParseElementType(b.elementType).value, ParseAxisRange(b.axisRange).value))
      else
        assert forall m :: m in bs[1..] ==> m in bs;
        SavedBinding(pk, bs[1..])
  }

  /** The keybind's first element map once its tuples `bs` are applied to `maps`: the saved binding, or the one it had. */
  function BindingAfter(pk: Keybind, bs: seq<Mapping>, maps: seq<ElementMap>): Option<ElementMap> {
    if SavedBinding(pk, bs).Some? then SavedBinding(pk, bs) else FirstWithAction(maps, pk.gameAction)
  }

  /**
   * The keybind ends up bound as its earliest well-formed tuple says: the
   * walk applies the tuples from last to first, so that tuple is applied
   * after every later one; a tuple whose element type or axis range does not
   * parse changes nothing, and tuples of other keybinds do not touch the action.
   */
  lemma {:induction false} ConsumeBoundFirstWins(pk: Keybind, maps: seq<ElementMap>, bs: seq<Mapping>)
    ensures !ConsumeBound(pk, maps, bs).failed ==>
      FirstWithAction(ConsumeBound(pk, maps, bs).state, pk.gameAction) == BindingAfter(pk, bs, maps)
  {
    if |bs| > 0 {
      ConsumeBoundFirstWins(pk, maps, bs[1..]);
      var rest := ConsumeBound(pk, maps, bs[1..]);
      if !rest.failed && bs[0].id == pk.id {
        AddControllerMappingBinds(rest.state, pk, bs[0], AddControllerMapping(rest.state, pk, bs[0]));
      }
    }
  }

  /** A walk that failed on a suffix passes over everything before it. */
  lemma ConsumeBoundFailedPrefix(pk: Keybind, maps: seq<ElementMap>, pre: seq<Mapping>, suf: seq<Mapping>)
    requires ConsumeBound(pk, maps, suf).failed
    ensures ConsumeBound(pk, maps, pre + suf) == ConsumeBound(pk, maps, suf).(kept := pre + ConsumeBound(pk, maps, suf).kept)
  {
    var step := (b, rest) => BoundStep(pk, b, rest);
    assert StopsOnFailure(step);
    WalkFailedPrefix(step, maps, pre, suf);
  }

  /**
   * One step of the keyboard mouse walk over the setup's unknown entries,
   * taking entry `e` after the ones behind it: an entry naming the keybind is
   * applied with AddMouseMapping and then removed; a missing or unparsable
   * button stops the walk.
   */
  function MouseStep(pk: Keybind, e: string, rest: Consumed<map<string, int>, string>): Consumed<map<string, int>, string>
  {
    var parts := Split(e, EntrySeparator);
    if rest.failed || parts[0] != pk.id then rest.(kept := [e] + rest.kept)
    else if |parts| < 2 then rest.(kept := [e] + rest.kept, failed := true)
    else
      match AddMouseMapping(rest.state, pk, parts[1])
      case None => rest.(kept := [e] + rest.kept, failed := true)
      case Some(m) => rest.(state := m)
  }

  /** The mouse walk over a setup's unknown entries, from the last to the first. */
  function ConsumeMouse(pk: Keybind, mappings: map<string, int>, es: seq<string>): Consumed<map<string, int>, string>
  {
    Walk((e, rest) => MouseStep(pk, e, rest), mappings, es)
  }

  lemma ConsumeMouseBack(pk: Keybind, mappings: map<string, int>, es: seq<string>, i: nat)
    requires i < |es|
    ensures ConsumeMouse(pk, mappings, es[i..]) == MouseStep(pk, es[i], ConsumeMouse(pk, mappings, es[i + 1..]))
  {
    WalkBack((e, rest) => MouseStep(pk, e, rest), mappings, es, i);
  }

  /** The unknown entries of other keybinds, in order. */
  function OtherEntries(es: seq<string>, id: string): (r: seq<string>)
    ensures forall e :: e in r <==> e in es && EntryId(e) != id
  {
    if |es| == 0 then []
    else
      assert es == [es[0]] + es[1..];
      (if EntryId(es[0]) == id then [] else [es[0]]) + OtherEntries(es[1..], id)
  }

  /** A mouse walk that finishes removes exactly the keybind's entries and keeps the others in order. */
  lemma {:induction false} ConsumeMouseKept(pk: Keybind, mappings: map<string, int>, es: seq<string>)
    ensures !ConsumeMouse(pk, mappings, es).failed ==> ConsumeMouse(pk, mappings, es).kept == OtherEntries(es, pk.id)
  {
    if |es| > 0 {
      ConsumeMouseKept(pk, mappings, es[1..]);
    }
  }

  /** A mouse walk, finished or not, keeps only entries it was given. */
  lemma {:induction false} ConsumeMouseKeptSome(pk: Keybind, mappings: map<string, int>, es: seq<string>)
    ensures forall e :: e in ConsumeMouse(pk, mappings, es).kept ==> e in es
  {
    if |es| > 0 {
      ConsumeMouseKeptSome(pk, mappings, es[1..]);
      ConsumeMouseBack(pk, mappings, es, 0);
      assert es[0..] == es;
      assert forall e :: e in es[1..] ==> e in es;
    }
  }

  /** The entry written for the keybind's own mouse binding is taken back by the walk. */
  lemma {:induction false} ConsumeMouseEntry(pk: Keybind, mappings: map<string, int>, button: int)
    requires !Contains(pk.id, EntrySeparator) && IsInt32(button)
    ensures ConsumeMouse(pk, mappings, [Entry(pk.id, button)])
         == Consumed(mappings[MouseKey(pk.gameAction, pk.axisPositive) := button], [], false)
  {
    var b := IntToString(button);
    IntToStringAvoids(button, EntrySeparator);
    assert Join(EntrySeparator, [pk.id, b]) == Entry(pk.id, button);
    SplitJoin(EntrySeparator, [pk.id, b]);
    ParseIntToString(button);
    var es := [Entry(pk.id, button)];
    ConsumeMouseBack(pk, mappings, es, 0);
    assert es[0..] == es && es[1..] == [];
    assert ConsumeMouse(pk, mappings, []) == Consumed(mappings, [], false);
  }

  /** The button of the keybind's earliest entry that has a parsable button part, if it has one. */
  function SavedButton(pk: Keybind, es: seq<string>): (r: Option<int>)
    ensures (forall e :: e in es ==> EntryId(e) != pk.id) ==> r.None?
  {
    if |es| == 0 then None
    else
      var parts := Split(es[0], EntrySeparator);
      if parts[0] == pk.id && |parts| >= 2 && ParseInt(parts[1]).Some? then
        assert EntryId(es[0]) == pk.id && es[0] in es;
        ParseInt(parts[1])
      else
        assert forall e :: e in es[1..] ==> e in es;
        SavedButton(pk, es[1..])
  }

  /** A setup's mouse keys once the keybind's entries `es` are applied: its key holds the saved button, if there is one. */
  function MouseAfter(pk: Keybind, es: seq<string>, mappings: map<string, int>): map<string, int> {
    if SavedButton(pk, es).Some? then mappings[MouseKey(pk.gameAction, pk.axisPositive) := SavedButton(pk, es).value]
    else mappings
  }

  /**
   * The keybind's mouse key ends up holding its earliest entry's button, and
   * nothing else changes: the walk applies the entries from last to first,
   * so that entry is applied after every later one.
   */
  lemma {:induction false} ConsumeMouseFirstWins(pk: Keybind, mappings: map<string, int>, es: seq<string>)
    ensures !ConsumeMouse(pk, mappings, es).failed ==> ConsumeMouse(pk, mappings, es).state == MouseAfter(pk, es, mappings)
  {
    if |es| > 0 {
      ConsumeMouseFirstWins(pk, mappings, es[1..]);
      ConsumeMouseBack(pk, mappings, es, 0);
      assert es[0..] == es;
      var rest := ConsumeMouse(pk, mappings, es[1..]);
      if !rest.failed {
        MouseStepAfter(pk, es, mappings, rest);
      }
    }
  }

  /** One step of the mouse walk, taken after a walk that reached MouseAfter of the later entries, reaches MouseAfter of them all. */
  lemma MouseStepAfter(pk: Keybind, es: seq<string>, mappings: map<string, int>, rest: Consumed<map<string, int>, string>)
    requires |es| > 0 && !rest.failed && rest.state == MouseAfter(pk, es[1..], mappings)
    ensures !MouseStep(pk, es[0], rest).failed ==> MouseStep(pk, es[0], rest).state == MouseAfter(pk, es, mappings)
  {
    var parts := Split(es[0], EntrySeparator);
    if parts[0] == pk.id && |parts| >= 2 && ParseInt(parts[1]).Some? {
      var key, v := MouseKey(pk.gameAction, pk.axisPositive), ParseInt(parts[1]).value;
      assert SavedButton(pk, es) == Some(v);
      assert rest.state[key := v] == mappings[key := v];
    }
  }

  /** A walk that failed on a suffix passes over everything before it. */
  lemma ConsumeMouseFailedPrefix(pk: Keybind, mappings: map<string, int>, pre: seq<string>, suf: seq<string>)
    requires ConsumeMouse(pk, mappings, suf).failed
    ensures ConsumeMouse(pk, mappings, pre + suf) == ConsumeMouse(pk, mappings, suf).(kept := pre + ConsumeMouse(pk, mappings, suf).kept)
  {
    var step := (e, rest) => MouseStep(pk, e, rest);
    assert StopsOnFailure(step);
    WalkFailedPrefix(step, mappings, pre, suf);
  }

  // ---------------------------------------------------------------------
  // What a repeated walk over the same record leaves
  // ---------------------------------------------------------------------

  /** A list without the keybind's id is what removing the id leaves of it; removing twice is removing once. */
  lemma {:induction false} DropIdAbsent(ids: seq<string>, id: string)
    requires id !in ids
    ensures DropId(ids, id) == ids
  {
    if |ids| > 0 {
      DropIdAbsent(ids[1..], id);
      assert ids == [ids[0]] + ids[1..];
    }
  }

  /** Tuples none of which is the keybind's are what OtherBound leaves of them. */
  lemma {:induction false} OtherBoundAbsent(bs: seq<Mapping>, id: string)
    requires forall m :: m in bs ==> m.id != id
    ensures OtherBound(bs, id) == bs
  {
    if |bs| > 0 {
      OtherBoundAbsent(bs[1..], id);
      assert bs == [bs[0]] + bs[1..];
    }
  }

  /** Mouse entries none of which is the keybind's are what OtherEntries leaves of them. */
  lemma {:induction false} OtherEntriesAbsent(es: seq<string>, id: string)
    requires forall e :: e in es ==> EntryId(e) != id
    ensures OtherEntries(es, id) == es
  {
    if |es| > 0 {
      OtherEntriesAbsent(es[1..], id);
      assert es == [es[0]] + es[1..];
    }
  }

  /** The bound-tuple walk, finished or not, leaves the element maps of every other action as they were. */
  lemma {:induction false} ConsumeBoundOthers(pk: Keybind, maps: seq<ElementMap>, bs: seq<Mapping>)
    ensures WithoutAction(ConsumeBound(pk, maps, bs).state, pk.gameAction) == WithoutAction(maps, pk.gameAction)
  {
    if |bs| > 0 {
      ConsumeBoundOthers(pk, maps, bs[1..]);
      var rest := ConsumeBound(pk, maps, bs[1..]);
      AddControllerMappingBinds(rest.state, pk, bs[0], AddControllerMapping(rest.state, pk, bs[0]));
    }
  }

  /** The mouse walk, finished or not, changes no mouse key other than the keybind's own. */
  lemma {:induction false} ConsumeMouseOthers(pk: Keybind, mappings: map<string, int>, es: seq<string>)
    ensures ConsumeMouse(pk, mappings, es).state - {MouseKey(pk.gameAction, pk.axisPositive)}
         == mappings - {MouseKey(pk.gameAction, pk.axisPositive)}
  {
    if |es| > 0 {
      ConsumeMouseOthers(pk, mappings, es[1..]);
    }
  }
}
