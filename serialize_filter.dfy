/**
 * The hooks on Rewired's ControllerMap serialisation: after the host has
 * serialised a map's button (or axis) element maps, the entries of modded
 * actions are taken out again, so that the host's own save never holds an
 * action it does not know.
 */
module SerializeFilter {
  import opened Wrappers
  import opened Host
  import PlayerKeybinds

  /** An element map of a modded action, which the host must not persist. */
  predicate IsModdedMap(m: ElementMap) {
    m.actionId > PlayerKeybinds.HighestVanillaActionId
  }

  /** The number of live (non-null) slots; the host serialises one entry per live slot. */
  function LiveCount(maps: seq<Option<ElementMap>>): (n: nat)
    ensures n <= |maps|
  {
    if |maps| == 0 then 0
    else (if maps[0].Some? then 1 else 0) + LiveCount(maps[1..])
  }

  /**
   * The reference filter: walk the slots and the serialised entries in step,
   * skipping null slots, and keep the entry of each live vanilla map.
   */
  function KeptEntries<S>(maps: seq<Option<ElementMap>>, serialized: seq<S>): seq<S>
    requires |serialized| == LiveCount(maps)
  {
    if |maps| == 0 then []
    else
      match maps[0]
      case None => KeptEntries(maps[1..], serialized)
      case Some(m) => (if IsModdedMap(m) then [] else [serialized[0]]) + KeptEntries(maps[1..], serialized[1..])
  }

  /** The live maps in slot order: what the host serialises. */
  function LiveMaps(maps: seq<Option<ElementMap>>): (r: seq<ElementMap>)
    ensures |r| == LiveCount(maps)
    ensures forall m :: m in r <==> Some(m) in maps
  {
    if |maps| == 0 then []
    else
      assert maps == [maps[0]] + maps[1..];
      (match maps[0] case None => [] case Some(m) => [m]) + LiveMaps(maps[1..])
  }

  /**
   * When the serialised entries are the live maps themselves, what is kept is
   * exactly the live maps of vanilla actions.
   */
  lemma {:induction false} KeptEntriesAreVanillaMaps(maps: seq<Option<ElementMap>>)
    ensures forall m :: m in KeptEntries(maps, LiveMaps(maps)) <==> Some(m) in maps && !IsModdedMap(m)
  {
    if |maps| > 0 {
      assert maps == [maps[0]] + maps[1..];
      KeptEntriesAreVanillaMaps(maps[1..]);
      var rest := KeptEntries(maps[1..], LiveMaps(maps[1..]));
      match maps[0] {
        case None =>
          assert LiveMaps(maps) == LiveMaps(maps[1..]);
        case Some(m) =>
          assert LiveMaps(maps) == [m] + LiveMaps(maps[1..]);
          assert LiveMaps(maps)[1..] == LiveMaps(maps[1..]);
          assert KeptEntries(maps, LiveMaps(maps)) == (if IsModdedMap(m) then [] else [m]) + rest;
      }
    }
  }

  /** The filter over a suffix of the slots, unfolded once at slot `i`. */
  lemma KeptEntriesBack<S>(maps: seq<Option<ElementMap>>, serialized: seq<S>, i: nat, live: nat)
    requires i < |maps| && live <= |serialized| && |serialized| - live == LiveCount(maps[i..])
    ensures LiveCount(maps[i..]) == (if maps[i].Some? then 1 else 0) + LiveCount(maps[i + 1..])
    ensures maps[i].None? ==> KeptEntries(maps[i..], serialized[live..]) == KeptEntries(maps[i + 1..], serialized[live..])
    ensures maps[i].Some? ==>
      && live < |serialized|
      && KeptEntries(maps[i..], serialized[live..])
         == (if IsModdedMap(maps[i].value) then [] else [serialized[live]]) + KeptEntries(maps[i + 1..], serialized[live + 1..])
  {
    assert maps[i..][1..] == maps[i + 1..];
    if maps[i].Some? {
      assert serialized[live..][1..] == serialized[live + 1..];
    }
  }

  /**
   * ControllerMap_Serialize_Hook and ControllerMapWithAxes_Serialize_Hook: the
   * in-place RemoveAt loop with its running offset removes exactly the entries
   * of modded maps and keeps the rest in order.
   */
  method RemoveModdedEntries<S>(maps: seq<Option<ElementMap>>, serialized: seq<S>) returns (result: seq<S>)
    requires |serialized| == LiveCount(maps)
    ensures result == KeptEntries(maps, serialized)
  {
    result := serialized;
    var offset := 0;
    var i := 0;
    ghost var live := 0;
    ghost var done: seq<S> := [];
    while i < |maps|
      invariant 0 <= i <= |maps| && 0 <= live <= |serialized|
      invariant |serialized| - live == LiveCount(maps[i..])
      invariant i + offset == |done|
      invariant result == done + serialized[live..]
      invariant KeptEntries(maps, serialized) == done + KeptEntries(maps[i..], serialized[live..])
    {
      KeptEntriesBack(maps, serialized, i, live);
      match maps[i] {
        case None =>
          offset := offset - 1;
        case Some(m) =>
          ghost var rest := KeptEntries(maps[i + 1..], serialized[live + 1..]);
          assert serialized[live..] == [serialized[live]] + serialized[live + 1..];
          if IsModdedMap(m) {
            assert result[..i + offset] == done && result[i + offset + 1..] == serialized[live + 1..];
            result := result[..i + offset] + result[i + offset + 1..];
            offset := offset - 1;
          } else {
            assert done + ([serialized[live]] + rest) == (done + [serialized[live]]) + rest;
            assert done + ([serialized[live]] + serialized[live + 1..]) == (done + [serialized[live]]) + serialized[live + 1..];
            done := done + [serialized[live]];
          }
          live := live + 1;
      }
      i := i + 1;
    }
    assert serialized[live..] == [] && maps[i..] == [];
  }
}
