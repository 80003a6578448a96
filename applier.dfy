/**
 * What the receiver does to its copy of the world, as functions of the state before.
 *
 * `State` gathers the three stores the receiver mutates: the target area's macro-object table,
 * the object pool and the sync-object registry (sync id to the pool index of the object bound
 * to it).  Each packet entry is one step; a packet is the steps in order.
 */
module Applier {
  import opened Wrappers
  import opened Wire
  import opened MacroTable
  import opened ObjectPool

  datatype State = State(table: seq<Int16>, pool: seq<PoolObject>, registry: map<nat, nat>)

  /**
   * `network_forget_sync_object`, reached only when the object has a sync id and the registry
   * entry for that id still points at this very object (ids are recycled).
   */
  function ForgetIfBound(registry: map<nat, nat>, syncId: nat, o: nat): (r: map<nat, nat>)
    ensures r.Keys <= registry.Keys
    ensures forall id :: id in r ==> r[id] == registry[id]
    ensures forall id :: id in registry && id !in r ==> id == syncId != 0 && registry[id] == o
    ensures syncId != 0 && syncId in registry && registry[syncId] == o ==> syncId !in r
  {
    if syncId != 0 && syncId in registry && registry[syncId] == o then registry - {syncId} else registry
  }

  /** One deletion: flag the slot, then mark its object and release the object's sync entry. */
  function DeleteAt(s: State, area: nat, offset: nat): (r: State)
    requires offset < |s.table|
    ensures |r.table| == |s.table| && |r.pool| == |s.pool|
  {
    var table := s.table[offset := SetDontRespawn(s.table[offset])];
    match FirstMatch(s.pool, Slot(area, offset))
    case None => State(table, s.pool, s.registry)
    case Some(o) =>
      State(table, s.pool[o := s.pool[o].(markedForDeletion := true)],
            ForgetIfBound(s.registry, s.pool[o].syncId, o))
  }

  /** Every offset names a slot of a table with `size` slots. */
  predicate OffsetsFit(offsets: seq<UInt16>, size: nat)
  {
    forall o :: o in offsets ==> o < size
  }

  lemma OffsetsFitTail(offsets: seq<UInt16>, size: nat)
    requires offsets != [] && OffsetsFit(offsets, size)
    ensures offsets[0] < size && OffsetsFit(offsets[1..], size)
  {
    assert offsets[0] in offsets;
    assert forall o :: o in offsets[1..] ==> o in offsets;
  }

  /** The table alone after flagging each offset in turn. */
  function FlagTable(t: seq<Int16>, offsets: seq<UInt16>): (r: seq<Int16>)
    requires OffsetsFit(offsets, |t|)
    ensures |r| == |t|
    decreases |offsets|
  {
    if offsets == [] then t
    else
      OffsetsFitTail(offsets, |t|);
      FlagTable(t[offsets[0] := SetDontRespawn(t[offsets[0]])], offsets[1..])
  }

  /** The deletion section applied in packet order. */
  function ApplyDeletions(s: State, area: nat, offsets: seq<UInt16>): (r: State)
    requires OffsetsFit(offsets, |s.table|)
    ensures |r.pool| == |s.pool|
    ensures r.table == FlagTable(s.table, offsets)
    decreases |offsets|
  {
    if offsets == [] then s
    else
      OffsetsFitTail(offsets, |s.table|);
      ApplyDeletions(DeleteAt(s, area, offsets[0]), area, offsets[1..])
  }

  /** A special entry the receiver can apply to table `t` without reading outside it. */
  predicate SpecialFits(t: seq<Int16>, presets: seq<BehKind>, sp: Special)
  {
    RespawnInfoSlot <= sp.offset < |t| && 0 <= PresetId(t[sp.offset - RespawnInfoSlot]) < |presets|
  }

  /** Every special entry fits the table as the earlier entries leave it. */
  predicate SpecialsSafe(t: seq<Int16>, presets: seq<BehKind>, sps: seq<Special>)
    decreases |sps|
  {
    sps == [] ||
    (SpecialFits(t, presets, sps[0]) &&
     SpecialsSafe(t[sps[0].offset := sps[0].respawnInfo], presets, sps[1..]))
  }

  /**
   * One special entry: overwrite the slot; then, when the record is a coin formation and an
   * object is bound to the slot, store the value on the object and cascade to its children by
   * the mask `(value >> 8) & 0xFF`.
   */
  function SpecialAt(s: State, area: nat, presets: seq<BehKind>, sp: Special): (r: State)
    requires SpecialFits(s.table, presets, sp)
    ensures r.table == s.table[sp.offset := sp.respawnInfo]
    ensures |r.pool| == |s.pool| && r.registry == s.registry
  {
    var table := s.table[sp.offset := sp.respawnInfo];
    var behavior := presets[PresetId(table[sp.offset - RespawnInfoSlot])];
    match FirstMatch(s.pool, Slot(area, sp.offset))
    case None => State(table, s.pool, s.registry)
    case Some(o) =>
      if behavior != CoinFormation then State(table, s.pool, s.registry)
      else
        var params := sp.respawnInfo;
        var formation := s.pool[o].(behParams := params, coinMask := (params / 0x100) % 0x100);
        State(table, MarkCoinChildren(s.pool[o := formation], o, formation.coinMask), s.registry)
  }

  /** The table alone after writing each special value in turn. */
  function WriteSpecials(t: seq<Int16>, sps: seq<Special>): (r: seq<Int16>)
    requires forall k :: 0 <= k < |sps| ==> sps[k].offset < |t|
    ensures |r| == |t|
    decreases |sps|
  {
    if sps == [] then t else WriteSpecials(t[sps[0].offset := sps[0].respawnInfo], sps[1..])
  }

  /** The special section applied in packet order. */
  function ApplySpecials(s: State, area: nat, presets: seq<BehKind>, sps: seq<Special>): (r: State)
    requires SpecialsSafe(s.table, presets, sps)
    ensures |r.pool| == |s.pool| && r.registry == s.registry
    ensures forall k :: 0 <= k < |sps| ==> sps[k].offset < |s.table|
    ensures r.table == WriteSpecials(s.table, sps)
    decreases |sps|
  {
    if sps == [] then s
    else ApplySpecials(SpecialAt(s, area, presets, sps[0]), area, presets, sps[1..])
  }

  /** The receiver can apply message `m` to the target area's state `s` without faulting. */
  predicate Applicable(s: State, presets: seq<BehKind>, m: Message)
  {
    && OffsetsFit(m.deletions, |s.table|)
    && SpecialsSafe(FlagTable(s.table, m.deletions), presets, m.specials)
  }

  /** The first of a non-empty list of deletions, then the rest. */
  lemma ApplyDeletionsCons(s: State, area: nat, offsets: seq<UInt16>)
    requires offsets != [] && OffsetsFit(offsets, |s.table|)
    ensures offsets[0] < |s.table|
    ensures OffsetsFit(offsets[1..], |DeleteAt(s, area, offsets[0]).table|)
    ensures ApplyDeletions(DeleteAt(s, area, offsets[0]), area, offsets[1..]) == ApplyDeletions(s, area, offsets)
  {
    OffsetsFitTail(offsets, |s.table|);
  }

  /** The first of a non-empty list of special entries, then the rest. */
  lemma ApplySpecialsCons(s: State, area: nat, presets: seq<BehKind>, sps: seq<Special>)
    requires sps != [] && SpecialsSafe(s.table, presets, sps)
    ensures SpecialFits(s.table, presets, sps[0])
    ensures SpecialsSafe(SpecialAt(s, area, presets, sps[0]).table, presets, sps[1..])
    ensures ApplySpecials(SpecialAt(s, area, presets, sps[0]), area, presets, sps[1..]) ==
      ApplySpecials(s, area, presets, sps)
  {
  }

  /** A whole packet at a matching location: the deletions, then the specials. */
  function ApplyMessage(s: State, presets: seq<BehKind>, m: Message): (r: State)
    requires Applicable(s, presets, m)
    ensures |r.pool| == |s.pool|
    ensures forall k :: 0 <= k < |m.specials| ==> m.specials[k].offset < |s.table|
    ensures r.table == WriteSpecials(FlagTable(s.table, m.deletions), m.specials)
  {
    ApplySpecials(ApplyDeletions(s, m.areaIndex, m.deletions), m.areaIndex, presets, m.specials)
  }

  // ---------------------------------------------------------------- properties of one deletion

  /**
   * A deletion sets the flag and keeps the low byte of the slot, and changes no other slot.
   */
  lemma DeleteAtTable(s: State, area: nat, offset: nat)
    requires offset < |s.table|
    ensures var r := DeleteAt(s, area, offset);
      && DontRespawnSet(r.table[offset]) && LowByte(r.table[offset]) == LowByte(s.table[offset])
      && forall i :: 0 <= i < |s.table| && i != offset ==> r.table[i] == s.table[i]
  {
  }

  /**
   * A deletion marks the first object bound to the slot and nothing else, and changes no other
   * field.  The registry loses exactly one entry, the one under that object's own non-zero sync
   * id, and only when that entry still names the object.  With no object bound, pool and
   * registry stay as they were.
   */
  lemma DeleteAtObjects(s: State, area: nat, offset: nat)
    requires offset < |s.table|
    ensures var r := DeleteAt(s, area, offset);
      var slot := Slot(area, offset);
      && (forall j :: 0 <= j < |s.pool| ==>
            && r.pool[j].(markedForDeletion := s.pool[j].markedForDeletion) == s.pool[j]
            && (r.pool[j].markedForDeletion <==>
                 s.pool[j].markedForDeletion ||
                 (s.pool[j].respawnInfo == Some(slot) &&
                  forall i :: 0 <= i < j ==> s.pool[i].respawnInfo != Some(slot))))
      && r.registry.Keys <= s.registry.Keys
      && (forall id :: id in r.registry ==> r.registry[id] == s.registry[id])
      && (var found := FirstMatch(s.pool, slot);
          forall id :: id in s.registry ==>
            (id !in r.registry <==>
               found.Some? && id == s.pool[found.value].syncId && id != 0 && s.registry[id] == found.value))
  {
    var slot := Slot(area, offset);
    var r := DeleteAt(s, area, offset);
    match FirstMatch(s.pool, slot)
    case None =>
    case Some(o) =>
      forall j | 0 <= j < |s.pool|
        ensures r.pool[j].markedForDeletion <==>
          s.pool[j].markedForDeletion ||
          (s.pool[j].respawnInfo == Some(slot) && forall i :: 0 <= i < j ==> s.pool[i].respawnInfo != Some(slot))
      {
        if j > o && s.pool[j].respawnInfo == Some(slot) {
          assert s.pool[o].respawnInfo == Some(slot);
        }
      }
  }

  /** Applying the same deletion twice leaves the same state as applying it once. */
  lemma DeleteAtIdempotent(s: State, area: nat, offset: nat)
    requires offset < |s.table|
    ensures DeleteAt(DeleteAt(s, area, offset), area, offset) == DeleteAt(s, area, offset)
  {
    var once := DeleteAt(s, area, offset);
    FirstMatchBackRefsOnly(s.pool, once.pool, Slot(area, offset), 0);
    assert once.table[offset := SetDontRespawn(once.table[offset])] == once.table;
  }

  /**
   * After the deletion section every listed slot carries the flag with its low byte kept, a
   * slot that carried the flag before still does (deletions never clear it), and an unlisted
   * slot is unchanged.
   */
  lemma {:induction false} FlagTableFlags(t: seq<Int16>, offsets: seq<UInt16>)
    requires OffsetsFit(offsets, |t|)
    ensures forall o :: o in offsets ==> DontRespawnSet(FlagTable(t, offsets)[o])
    ensures forall i :: 0 <= i < |t| && DontRespawnSet(t[i]) ==> DontRespawnSet(FlagTable(t, offsets)[i])
    ensures forall i :: 0 <= i < |t| && i !in offsets ==> FlagTable(t, offsets)[i] == t[i]
    ensures forall i :: 0 <= i < |t| ==>
      FlagTable(t, offsets)[i] == if i in offsets then SetDontRespawn(t[i]) else t[i]
    decreases |offsets|
  {
    if offsets != [] {
      OffsetsFitTail(offsets, |t|);
      var t' := t[offsets[0] := SetDontRespawn(t[offsets[0]])];
      FlagTableFlags(t', offsets[1..]);
      assert forall o :: o in offsets ==> o == offsets[0] || o in offsets[1..];
    }
  }

  // ---------------------------------------------------------------- properties of the specials

  /**
   * The last special entry for a slot decides its value; a slot no entry names keeps its value.
   */
  lemma {:induction false} WriteSpecialsLastWins(t: seq<Int16>, sps: seq<Special>, k: nat)
    requires forall j :: 0 <= j < |sps| ==> sps[j].offset < |t|
    requires k < |sps| && forall j :: k < j < |sps| ==> sps[j].offset != sps[k].offset
    ensures WriteSpecials(t, sps)[sps[k].offset] == sps[k].respawnInfo
    decreases |sps|
  {
    var t' := t[sps[0].offset := sps[0].respawnInfo];
    if k == 0 {
      WriteSpecialsUntouched(t', sps[1..], sps[0].offset);
    } else {
      WriteSpecialsLastWins(t', sps[1..], k - 1);
    }
  }

  lemma {:induction false} WriteSpecialsUntouched(t: seq<Int16>, sps: seq<Special>, i: nat)
    requires forall j :: 0 <= j < |sps| ==> sps[j].offset < |t|
    requires i < |t| && forall j :: 0 <= j < |sps| ==> sps[j].offset != i
    ensures WriteSpecials(t, sps)[i] == t[i]
    decreases |sps|
  {
    if sps != [] {
      WriteSpecialsUntouched(t[sps[0].offset := sps[0].respawnInfo], sps[1..], i);
    }
  }

  /**
   * A special entry whose record is a coin formation with an object bound to its slot stores
   * the value on that object, derives its mask from the high byte, and marks exactly those
   * children whose number has its bit in the mask.  Without a bound object, or for another
   * behaviour, only the table changes.
   */
  lemma SpecialAtObjects(s: State, area: nat, presets: seq<BehKind>, sp: Special)
    requires SpecialFits(s.table, presets, sp)
    ensures var r := SpecialAt(s, area, presets, sp);
      var found := FirstMatch(s.pool, Slot(area, sp.offset));
      && (found.None? || !IsCoinFormation(s.table, presets, sp.offset - RespawnInfoSlot) ==> r.pool == s.pool)
      && (found.Some? && IsCoinFormation(s.table, presets, sp.offset - RespawnInfoSlot) ==>
            var o := found.value;
            && r.pool[o] == s.pool[o].(behParams := sp.respawnInfo, coinMask := HighByte(sp.respawnInfo))
            && forall j :: 0 <= j < |s.pool| && j != o ==>
                 r.pool[j].(markedForDeletion := s.pool[j].markedForDeletion) == s.pool[j] &&
                 (r.pool[j].markedForDeletion <==>
                    (s.pool[j].markedForDeletion ||
                     (IsCoinChild(s.pool, o, j) &&
                      MaskBit(HighByte(sp.respawnInfo), ChildRank(s.pool, o, j) % 0x100)))))
  {
    var table := s.table[sp.offset := sp.respawnInfo];
    assert table[sp.offset - RespawnInfoSlot] == s.table[sp.offset - RespawnInfoSlot];
    var found := FirstMatch(s.pool, Slot(area, sp.offset));
    if found.Some? && IsCoinFormation(s.table, presets, sp.offset - RespawnInfoSlot) {
      var o := found.value;
      var formation := s.pool[o].(behParams := sp.respawnInfo, coinMask := HighByte(sp.respawnInfo));
      var p := s.pool[o := formation];
      forall j | 0 <= j < |s.pool|
        ensures IsCoinChild(p, o, j) == IsCoinChild(s.pool, o, j)
        ensures ChildRank(p, o, j) == ChildRank(s.pool, o, j)
      {
        ChildRankSameFamily(p, s.pool, o, j);
      }
    }
  }

  /** Ranks depend only on parents and behaviours. */
  lemma {:induction false} ChildRankSameFamily(p: seq<PoolObject>, q: seq<PoolObject>, formation: nat, j: nat)
    requires j <= |p| == |q|
    requires forall i :: 0 <= i < |p| ==> p[i].parent == q[i].parent && p[i].behavior == q[i].behavior
    ensures ChildRank(p, formation, j) == ChildRank(q, formation, j)
    ensures j < |p| ==> IsCoinChild(p, formation, j) == IsCoinChild(q, formation, j)
  {
    if j > 0 {
      ChildRankSameFamily(p, q, formation, j - 1);
    }
  }

  // ---------------------------------------------------------------- tables with the sender's layout

  /**
   * Special entries at respawn-info positions that fit a reference table also fit, one after
   * the other, any table that agrees with the reference outside respawn-info positions.
   */
  lemma {:induction false} SpecialsSafeOnLayout(t: seq<Int16>, ref: seq<Int16>, presets: seq<BehKind>, sps: seq<Special>)
    requires AgreeOutsideRespawnInfo(t, ref)
    requires forall k :: 0 <= k < |sps| ==>
      sps[k].offset % RecordSlots == RespawnInfoSlot && SpecialFits(ref, presets, sps[k])
    ensures SpecialsSafe(t, presets, sps)
    decreases |sps|
  {
    if sps != [] {
      var sp := sps[0];
      assert (sp.offset - RespawnInfoSlot) % RecordSlots != RespawnInfoSlot;
      var t' := t[sp.offset := sp.respawnInfo];
      assert AgreeOutsideRespawnInfo(t', ref);
      SpecialsSafeOnLayout(t', ref, presets, sps[1..]);
    }
  }

  /** After the special section a slot holds its old value or the value of an entry naming it. */
  lemma {:induction false} WriteSpecialsSource(t: seq<Int16>, sps: seq<Special>, i: nat)
    requires forall j :: 0 <= j < |sps| ==> sps[j].offset < |t|
    requires i < |t|
    ensures WriteSpecials(t, sps)[i] == t[i] ||
      exists k :: 0 <= k < |sps| && sps[k].offset == i && WriteSpecials(t, sps)[i] == sps[k].respawnInfo
    decreases |sps|
  {
    if sps != [] {
      var t' := t[sps[0].offset := sps[0].respawnInfo];
      WriteSpecialsSource(t', sps[1..], i);
      if WriteSpecials(t, sps)[i] != t'[i] {
        var k :| 0 <= k < |sps[1..]| && sps[1..][k].offset == i && WriteSpecials(t', sps[1..])[i] == sps[1..][k].respawnInfo;
        assert sps[k + 1] == sps[1..][k];
      } else if t'[i] != t[i] {
        assert sps[0].offset == i;
      }
    }
  }
}
