/**
 * The macro-deletions protocol: the sender's per-area diff scanner and packet builder, the
 * fan-out over all areas, and the receiver that replays a packet onto its own world.
 *
 * `World` holds the globals the C code reaches for: the current course, act, level and area,
 * the area array with each area's macro-object table, the object pool, the sync-object
 * registry, the peer directory and the behaviour column of the macro-object preset table.
 * A packet handed to the transport is returned as a `Transmission` instead of being sent.
 */
module MacroDeletions {
  import opened Wrappers
  import opened Wire
  import opened MacroTable
  import opened ObjectPool
  import opened Applier

  /** Number of entries in the area array; the fan-out visits areas 0 to 7. */
  const AreaCount := 8

  /** An area: whether it is loaded (`unk04 != NULL`) and its macro-object table. */
  datatype Area = Area(loaded: bool, macroObjects: array<Int16>)

  /** A peer as the peer directory reports it. */
  datatype NetworkPlayer = NetworkPlayer(connected: bool, localIndex: UInt8)

  /** One `network_send_to` call: the destination's local index and the packet bytes. */
  datatype Transmission = Transmission(localIndex: UInt8, packet: seq<UInt8>)

  /** The message the sender builds from table `t`. */
  function AreaMessage(location: Location, areaIndex: UInt8, t: seq<Int16>, presets: seq<BehKind>): Message
    requires Terminated(t, 0) && PresetsKnown(t, presets, 0)
  {
    Message(location, areaIndex, ScanDeletions(t, 0), ScanSpecials(t, presets, 0))
  }

  /** The sender's test on its two count placeholders, which are bytes and so wrap. */
  predicate WorthSending(m: Message): (r: bool)
    ensures |m.deletions| < 0x100 && |m.specials| < 0x100 ==> (r <==> m.deletions != [] || m.specials != [])
  {
    CountByte(|m.deletions|) > 0 || CountByte(|m.specials|) > 0
  }

  /** Writes the four signed 16-bit location fields. */
  method WriteLocation(p: Packet, location: Location)
    requires p.cursor == |p.buffer|
    modifies p
    ensures p.buffer == old(p.buffer) + LocationBytes(location) && p.cursor == |p.buffer|
  {
    p.Write(S16Bytes(location.course));
    p.Write(S16Bytes(location.act));
    p.Write(S16Bytes(location.level));
    p.Write(S16Bytes(location.area));
  }

  /** Reads the four signed 16-bit location fields at the head of a packet. */
  method ReadLocation(p: Packet) returns (location: Location)
    requires p.Valid() && p.cursor + HeaderSize <= |p.buffer|
    modifies p`cursor
    ensures p.Valid() && p.cursor == old(p.cursor) + HeaderSize
    ensures location == ParseLocation(p.buffer[old(p.cursor)..])
  {
    var courseNum := p.ReadS16();
    var actNum := p.ReadS16();
    var levelNum := p.ReadS16();
    var areaIndex := p.ReadS16();
    location := Location(courseNum, actNum, levelNum, areaIndex);
  }

  /**
   * The deletions pass of `network_send_macro_deletions_area`: walks the table to its end
   * marker and, for every respawn field flagged "don't respawn", bumps the count byte at
   * `countAt` and appends the field's offset.
   */
  method WriteDeletionSection(p: Packet, t: array<Int16>, countAt: nat)
    requires Terminated(t[..], 0)
    requires p.cursor == |p.buffer| == countAt + 1 && p.buffer[countAt] == 0
    modifies p
    ensures p.buffer == old(p.buffer)[..countAt] + [CountByte(|ScanDeletions(t[..], 0)|)]
                        + OffsetBytes(ScanDeletions(t[..], 0))
    ensures p.cursor == |p.buffer|
  {
    ghost var ts := t[..];
    ghost var head := p.buffer[..countAt];
    assert p.buffer == head + [CountByte(0)] + OffsetBytes([]);
    var at: nat := 0;
    ghost var deletions: seq<UInt16> := [];
    while t[at] != ListEnd
      invariant Terminated(ts, at)
      invariant ScanDeletions(ts, 0) == deletions + ScanDeletions(ts, at)
      invariant |head| == countAt && p.cursor == |p.buffer|
      invariant p.buffer == head + [CountByte(|deletions|)] + OffsetBytes(deletions)
      decreases t.Length - at
    {
      var presetId := PresetId(t[at]);
      if presetId < 0 {
        break;
      }
      assert ts[at] == t[at];
      ScanDeletionsStep(ts, at, deletions);
      at := at + RespawnInfoSlot;
      var respawnInfo := at;
      at := at + 1;
      assert ts[respawnInfo] == t[respawnInfo];
      if DontRespawnSet(t[respawnInfo]) {
        var offset := Offset(respawnInfo);
        AppendOffset(head, deletions, offset);
        p.buffer := p.buffer[countAt := ((p.buffer[countAt] as int + 1) % 0x100) as UInt8];
        p.Write(U16Bytes(offset));
        deletions := deletions + [offset];
      }
    }
    assert ScanDeletions(ts, at) == [] by { assert ts[at] == t[at]; }
    assert deletions == ScanDeletions(ts, 0);
    assert ts == t[..];
    assert head == old(p.buffer)[..countAt];
    assert p.buffer == head + [CountByte(|ScanDeletions(t[..], 0)|)] + OffsetBytes(deletions);
  }

  /**
   * The specials pass: for every coin-formation record whose respawn field is non-zero,
   * bumps the count byte at `countAt` and appends the offset and the raw respawn info.
   */
  method WriteSpecialSection(p: Packet, t: array<Int16>, presets: seq<BehKind>, countAt: nat)
    requires Terminated(t[..], 0) && PresetsKnown(t[..], presets, 0)
    requires p.cursor == |p.buffer| == countAt + 1 && p.buffer[countAt] == 0
    modifies p
    ensures p.buffer == old(p.buffer)[..countAt] + [CountByte(|ScanSpecials(t[..], presets, 0)|)]
                        + SpecialBytes(ScanSpecials(t[..], presets, 0))
    ensures p.cursor == |p.buffer|
  {
    ghost var ts := t[..];
    ghost var head := p.buffer[..countAt];
    assert p.buffer == head + [CountByte(0)] + SpecialBytes([]);
    var at: nat := 0;
    ghost var specials: seq<Special> := [];
    while t[at] != ListEnd
      invariant Terminated(ts, at) && PresetsKnown(ts, presets, at)
      invariant ScanSpecials(ts, presets, 0) == specials + ScanSpecials(ts, presets, at)
      invariant |head| == countAt && p.cursor == |p.buffer|
      invariant p.buffer == head + [CountByte(|specials|)] + SpecialBytes(specials)
      decreases t.Length - at
    {
      var presetId := PresetId(t[at]);
      if presetId < 0 {
        break;
      }
      assert ts[at] == t[at];
      ScanSpecialsStep(ts, presets, at, specials);
      at := at + RespawnInfoSlot;
      var respawnInfo := at;
      at := at + 1;
      assert ts[respawnInfo] == t[respawnInfo];
      var behavior := presets[presetId];
      if behavior == CoinFormation && t[respawnInfo] != 0 {
        var offset := Offset(respawnInfo);
        var sp := Special(offset, t[respawnInfo]);
        AppendSpecial(head, specials, sp);
        p.buffer := p.buffer[countAt := ((p.buffer[countAt] as int + 1) % 0x100) as UInt8];
        ghost var bumped := p.buffer;
        p.Write(U16Bytes(offset));
        p.Write(S16Bytes(t[respawnInfo]));
        assert p.buffer == bumped + U16Bytes(sp.offset) + S16Bytes(sp.respawnInfo);
        specials := specials + [sp];
      }
    }
    assert ScanSpecials(ts, presets, at) == [] by { assert ts[at] == t[at]; }
    assert specials == ScanSpecials(ts, presets, 0);
    assert ts == t[..];
    assert head == old(p.buffer)[..countAt];
  }

  class World {
    var currCourseNum: Int16
    var currActNum: Int16
    var currLevelNum: Int16
    var currAreaIndex: Int16
    var areas: seq<Area>
    var pool: array<PoolObject>
    var registry: map<nat, nat>
    /** `gNetworkPlayerLocal->currAreaSyncValid`. */
    var areaSyncValid: bool
    /** `network_player_from_global_index`: a global index absent here finds no player. */
    var players: map<nat, NetworkPlayer>
    /** The behaviour each macro-object preset resolves to. */
    var presets: seq<BehKind>

    constructor (location: Location, areas: seq<Area>, pool: array<PoolObject>, registry: map<nat, nat>,
                 areaSyncValid: bool, players: map<nat, NetworkPlayer>, presets: seq<BehKind>)
      requires |areas| == AreaCount
      requires forall i, j :: 0 <= i < j < |areas| ==> areas[i].macroObjects != areas[j].macroObjects
      ensures Valid()
      ensures Location() == location && this.areas == areas && this.pool == pool
      ensures this.registry == registry && this.areaSyncValid == areaSyncValid
      ensures this.players == players && this.presets == presets
    {
      currCourseNum, currActNum := location.course, location.act;
      currLevelNum, currAreaIndex := location.level, location.area;
      this.areas, this.pool, this.registry := areas, pool, registry;
      this.areaSyncValid, this.players, this.presets := areaSyncValid, players, presets;
    }

    /** Eight areas, each with its own table. */
    ghost predicate Valid()
      reads this
    {
      && |areas| == AreaCount
      && forall i, j :: 0 <= i < j < |areas| ==> areas[i].macroObjects != areas[j].macroObjects
    }

    function Location(): Location
      reads this
    {
      Wire.Location(currCourseNum, currActNum, currLevelNum, currAreaIndex)
    }

    /** The receiver's location check compares course, act and level, not the area. */
    predicate AtLocation(loc: Location): (r: bool)
      reads this
      ensures r <==> loc.(area := currAreaIndex) == Location()
    {
      loc.course == currCourseNum && loc.act == currActNum && loc.level == currLevelNum
    }

    predicate Connected(globalIndex: nat)
      reads this
    {
      globalIndex in players && players[globalIndex].connected
    }

    ghost function Tables(): set<array<Int16>>
      reads this
    {
      set a | 0 <= a < |areas| :: areas[a].macroObjects
    }

    /** The receiver's stores for area `a`. */
    ghost function Snapshot(a: nat): State
      requires a < |areas|
      reads this, pool, areas[a].macroObjects
    {
      State(areas[a].macroObjects[..], pool[..], registry)
    }

    /** What the sender reads of area `a` lies inside its table and the preset table. */
    ghost predicate Scannable(a: nat)
      requires a < |areas|
      reads this, areas[a].macroObjects
    {
      areas[a].loaded ==>
        Terminated(areas[a].macroObjects[..], 0) && PresetsKnown(areas[a].macroObjects[..], presets, 0)
    }

    ghost predicate AllScannable()
      reads this, Tables()
    {
      forall a :: 0 <= a < |areas| ==> assert areas[a].macroObjects in Tables(); Scannable(a)
    }

    /** The packet the sender hands to the transport for area `a`, if any. */
    ghost function AreaTransmission(globalIndex: nat, a: UInt8): Option<Transmission>
      requires Valid() && a < AreaCount && Scannable(a)
      reads this, areas[a].macroObjects
    {
      if !areas[a].loaded || !Connected(globalIndex) then None
      else
        var m := AreaMessage(Location(), a, areas[a].macroObjects[..], presets);
        if WorthSending(m) then Some(Transmission(players[globalIndex].localIndex, Encode(m))) else None
    }

    /** The packets sent for areas 0 to n - 1, in area order. */
    ghost function Transmissions(globalIndex: nat, n: nat): seq<Transmission>
      requires Valid() && n <= AreaCount && AllScannable()
      reads this, Tables()
    {
      if n == 0 then []
      else
        assert areas[n - 1].macroObjects in Tables();
        Transmissions(globalIndex, n - 1) +
          match AreaTransmission(globalIndex, n - 1)
          case Some(x) => [x]
          case None => []
    }

    /** `get_object_matching_respawn_info`: a linear search of the whole pool. */
    method GetObjectMatchingRespawnInfo(slot: Slot) returns (found: Option<nat>)
      ensures found == FirstMatch(pool[..], slot)
    {
      for i := 0 to pool.Length
        invariant FirstMatch(pool[..], slot) == FirstMatch(pool[..], slot, i)
      {
        if pool[i].respawnInfo == Some(slot) {
          return Some(i);
        }
      }
      return None;
    }

    /** `network_send_macro_deletions_area`. */
    method SendMacroDeletionsArea(destGlobalIndex: nat, areaIndex: UInt8) returns (sent: Option<Transmission>)
      requires Valid() && areaIndex < AreaCount && Scannable(areaIndex)
      ensures sent == AreaTransmission(destGlobalIndex, areaIndex)
    {
      var area := areas[areaIndex];
      if !area.loaded {
        return None;
      }
      if destGlobalIndex !in players || !players[destGlobalIndex].connected {
        return None;
      }
      var t := area.macroObjects;
      ghost var m := AreaMessage(Location(), areaIndex, t[..], presets);
      assert AreaTransmission(destGlobalIndex, areaIndex) ==
        if WorthSending(m) then Some(Transmission(players[destGlobalIndex].localIndex, Encode(m))) else None;

      var p := new Packet.Init();
      WriteLocation(p, Location());
      p.Write([areaIndex]);
      ghost var head := p.buffer;

      var deletionCountAt := p.cursor;
      p.Write([0]);
      assert p.buffer[..deletionCountAt] == head;
      WriteDeletionSection(p, t, deletionCountAt);
      ghost var middle := p.buffer;

      var specialCountAt := p.cursor;
      p.Write([0]);
      assert p.buffer[..specialCountAt] == middle;
      WriteSpecialSection(p, t, presets, specialCountAt);
      EncodeSplit(m, head, middle);

      if p.buffer[deletionCountAt] > 0 || p.buffer[specialCountAt] > 0 {
        sent := Some(Transmission(players[destGlobalIndex].localIndex, p.buffer));
      } else {
        sent := None;
      }
    }

    /** `network_send_macro_deletions`: every area in turn, once the preconditions hold. */
    method SendMacroDeletions(destGlobalIndex: nat) returns (sent: seq<Transmission>)
      requires Valid() && AllScannable()
      ensures !areaSyncValid || !Connected(destGlobalIndex) ==> sent == []
      ensures areaSyncValid && Connected(destGlobalIndex) ==> sent == Transmissions(destGlobalIndex, AreaCount)
    {
      sent := [];
      if !areaSyncValid {
        return;
      }
      if destGlobalIndex !in players || !players[destGlobalIndex].connected {
        return;
      }
      for i := 0 to AreaCount
        invariant sent == Transmissions(destGlobalIndex, i)
      {
        assert Scannable(i);
        var s := SendMacroDeletionsArea(destGlobalIndex, i);
        if s.Some? {
          sent := sent + [s.value];
        }
        assert areas[i].macroObjects in Tables();
      }
    }

    /**
     * The coin-formation cascade: children of `formation` are numbered in pool order by a
     * byte-wide counter, and each one whose number has its bit set in the formation's mask is
     * marked for deletion.
     */
    method DeleteCoinChildren(formation: nat)
      requires formation < pool.Length
      modifies pool
      ensures pool[..] == MarkCoinChildren(old(pool[..]), formation, old(pool[formation].coinMask))
    {
      ghost var before := pool[..];
      var mask := pool[formation].coinMask;
      var childIndex: UInt8 := 0;
      for i := 0 to pool.Length
        invariant childIndex == ChildRank(before, formation, i) % 0x100
        invariant forall j :: 0 <= j < i ==> pool[j] == MarkCoinChildren(before, formation, mask)[j]
        invariant forall j :: i <= j < pool.Length ==> pool[j] == before[j]
      {
        var child := pool[i];
        if child.parent != Some(formation) {
          continue;
        }
        if i == formation {
          continue;
        }
        if child.behavior != CoinFormationSpawn && child.behavior != YellowCoin {
          continue;
        }
        if MaskBit(mask, childIndex) {
          pool[i] := child.(markedForDeletion := true);
        }
        childIndex := ((childIndex as int + 1) % 0x100) as UInt8;
      }
    }

    /** One deletion entry of `network_receive_macro_deletions`. */
    method ReceiveDeletion(a: nat, offset: UInt16)
      requires Valid() && a < |areas| && offset < areas[a].macroObjects.Length
      modifies areas[a].macroObjects, pool, this`registry
      ensures Snapshot(a) == DeleteAt(old(Snapshot(a)), a, offset)
    {
      var t := areas[a].macroObjects;
      t[offset] := SetDontRespawn(t[offset]);
      var found := GetObjectMatchingRespawnInfo(Slot(a, offset));
      if found.Some? {
        var o := found.value;
        var obj := pool[o];
        pool[o] := obj.(markedForDeletion := true);
        if obj.syncId != 0 {
          if obj.syncId in registry && registry[obj.syncId] == o {
            registry := registry - {obj.syncId};
          }
        }
      }
    }

    /** One special entry of `network_receive_macro_deletions`. */
    method ReceiveSpecial(a: nat, offset: UInt16, value: Int16)
      requires Valid() && a < |areas| && SpecialFits(Snapshot(a).table, presets, Special(offset, value))
      modifies areas[a].macroObjects, pool
      ensures Snapshot(a) == SpecialAt(old(Snapshot(a)), a, presets, Special(offset, value))
    {
      ghost var s0 := Snapshot(a);
      var t := areas[a].macroObjects;
      t[offset] := value;
      assert t[..] == s0.table[offset := value];
      var presetId := PresetId(t[offset - RespawnInfoSlot]);
      var behavior := presets[presetId];
      var found := GetObjectMatchingRespawnInfo(Slot(a, offset));
      if found.Some? {
        var o := found.value;
        if behavior == CoinFormation {
          ghost var formation := s0.pool[o].(behParams := value, coinMask := (value / 0x100) % 0x100);
          pool[o] := pool[o].(behParams := t[offset]);
          pool[o] := pool[o].(coinMask := (pool[o].behParams / 0x100) % 0x100);
          assert pool[..] == s0.pool[o := formation];
          DeleteCoinChildren(o);
          assert pool[..] == MarkCoinChildren(s0.pool[o := formation], o, formation.coinMask);
        }
      }
    }

    /**
     * The receiver reads only fields the packet holds, and a packet for the current course,
     * act and level names an existing area whose table and preset table the entries index
     * into.
     */
    ghost predicate Receivable(d: seq<UInt8>)
      requires Valid()
      reads this, pool, Tables()
    {
      && |d| >= HeaderSize
      && (AtLocation(ParseLocation(d)) ==>
            && Parse(d).Some?
            && Parse(d).value.areaIndex < |areas|
            && (assert areas[Parse(d).value.areaIndex].macroObjects in Tables();
                Applicable(Snapshot(Parse(d).value.areaIndex), presets, Parse(d).value)))
    }

    /** The deletion section: `count` offsets read from the packet and applied in order. */
    method ReceiveDeletions(p: Packet, a: nat, count: nat)
      requires Valid() && a < |areas| && p.Valid() && p.cursor + 2 * count <= |p.buffer|
      requires OffsetsFit(ParseOffsets(p.buffer, p.cursor, count), areas[a].macroObjects.Length)
      modifies p`cursor, areas[a].macroObjects, pool, this`registry
      ensures p.cursor == old(p.cursor) + 2 * count
      ensures Snapshot(a) == ApplyDeletions(old(Snapshot(a)), a, ParseOffsets(p.buffer, old(p.cursor), count))
    {
      ghost var goal := ApplyDeletions(Snapshot(a), a, ParseOffsets(p.buffer, p.cursor, count));
      ghost var cur := Snapshot(a);
      ghost var rest := ParseOffsets(p.buffer, p.cursor, count);
      var remaining: nat := count;
      while remaining > 0
        invariant p.Valid() && p.buffer == old(p.buffer) && p.cursor == old(p.cursor) + 2 * (count - remaining)
        invariant remaining <= count && rest == ParseOffsets(p.buffer, p.cursor, remaining)
        invariant Snapshot(a) == cur
        invariant OffsetsFit(rest, |cur.table|) && ApplyDeletions(cur, a, rest) == goal
      {
        ApplyDeletionsCons(cur, a, rest);
        ParseOffsetsCons(p.buffer, p.cursor, remaining);
        remaining := remaining - 1;
        var offset := p.ReadU16();
        ReceiveDeletion(a, offset);
        cur := DeleteAt(cur, a, rest[0]);
        rest := rest[1..];
      }
    }

    /** The special section: `count` (offset, value) pairs read from the packet and applied in order. */
    method ReceiveSpecials(p: Packet, a: nat, count: nat)
      requires Valid() && a < |areas| && p.Valid() && p.cursor + 4 * count <= |p.buffer|
      requires SpecialsSafe(areas[a].macroObjects[..], presets, ParseSpecials(p.buffer, p.cursor, count))
      modifies p`cursor, areas[a].macroObjects, pool
      ensures p.cursor == old(p.cursor) + 4 * count
      ensures Snapshot(a) == ApplySpecials(old(Snapshot(a)), a, presets, ParseSpecials(p.buffer, old(p.cursor), count))
    {
      ghost var goal := ApplySpecials(Snapshot(a), a, presets, ParseSpecials(p.buffer, p.cursor, count));
      ghost var cur := Snapshot(a);
      ghost var rest := ParseSpecials(p.buffer, p.cursor, count);
      var remaining: nat := count;
      while remaining > 0
        invariant p.Valid() && p.buffer == old(p.buffer) && p.cursor == old(p.cursor) + 4 * (count - remaining)
        invariant remaining <= count && rest == ParseSpecials(p.buffer, p.cursor, remaining)
        invariant Snapshot(a) == cur
        invariant SpecialsSafe(cur.table, presets, rest) && ApplySpecials(cur, a, presets, rest) == goal
      {
        ApplySpecialsCons(cur, a, presets, rest);
        ParseSpecialsCons(p.buffer, p.cursor, remaining);
        remaining := remaining - 1;
        var offset := p.ReadU16();
        var value := p.ReadS16();
        ReceiveSpecial(a, offset, value);
        cur := SpecialAt(cur, a, presets, rest[0]);
        rest := rest[1..];
      }
    }

    /**
     * The part of `network_receive_macro_deletions` after the location check: the area index,
     * then the deletion section, then the special section, applied to that area.
     */
    method ReceiveEntries(p: Packet, ghost m: Message)
      requires Valid() && p.Valid() && EntriesAt(p.buffer, p.cursor, m)
      requires m.areaIndex < |areas| && Applicable(Snapshot(m.areaIndex), presets, m)
      modifies p`cursor, areas[m.areaIndex].macroObjects, pool, this`registry
      ensures Snapshot(m.areaIndex) == ApplyMessage(old(Snapshot(m.areaIndex)), presets, m)
    {
      ghost var s0 := Snapshot(m.areaIndex);
      ghost var at := p.cursor;
      var thisAreaIndex := p.ReadU8();
      var deletionCount := p.ReadU8();
      assert ParseOffsets(p.buffer, p.cursor, deletionCount) == m.deletions;
      ReceiveDeletions(p, thisAreaIndex, deletionCount);
      ghost var s1 := Snapshot(m.areaIndex);
      assert s1.table == FlagTable(s0.table, m.deletions);
      var specialCount := p.ReadU8();
      assert p.cursor == at + 3 + 2 * |m.deletions| && specialCount as int == |m.specials|;
      assert ParseSpecials(p.buffer, p.cursor, specialCount) == m.specials;
      assert SpecialsSafe(areas[thisAreaIndex].macroObjects[..], presets, m.specials);
      ReceiveSpecials(p, thisAreaIndex, specialCount);
    }

    /**
     * `network_receive_macro_deletions`.  A packet for another course, act or level changes
     * nothing.  Otherwise the target area's table, the pool and the registry end up as the
     * packet's deletions and then its specials, each applied in packet order, leave them, and
     * no other area's table changes.
     */
    method ReceiveMacroDeletions(p: Packet)
      requires Valid() && p.Valid() && Receivable(p.buffer[p.cursor..])
      modifies p`cursor, this`registry, pool, Tables()
      ensures Valid()
      ensures var d := old(p.buffer[p.cursor..]);
        !AtLocation(ParseLocation(d)) ==>
          && registry == old(registry) && pool[..] == old(pool[..])
          && forall a :: 0 <= a < |areas| ==> areas[a].macroObjects[..] == old(areas[a].macroObjects[..])
      ensures var d := old(p.buffer[p.cursor..]);
        AtLocation(ParseLocation(d)) ==>
          var m := Parse(d).value;
          && Snapshot(m.areaIndex) == ApplyMessage(old(Snapshot(m.areaIndex)), presets, m)
          && forall a :: 0 <= a < |areas| && a != m.areaIndex ==>
               areas[a].macroObjects[..] == old(areas[a].macroObjects[..])
    {
      ghost var base := p.cursor;
      var location := ReadLocation(p);
      if location.course != currCourseNum || location.act != currActNum || location.level != currLevelNum {
        return;
      }
      ghost var m := Parse(p.buffer[base..]).value;
      ParseEntries(p.buffer, base);
      assert areas[m.areaIndex].macroObjects in Tables();
      ReceiveEntries(p, m);
    }
  }
}
