/**
 * What the sender's message achieves.  A receiver whose copy of an area's macro-object table
 * has the sender's layout (the same records; only respawn info may differ) applies the
 * sender's message for that area.  Afterwards its table carries every deletion the sender has
 * seen, holds the sender's value for every coin formation the sender reports, and is otherwise
 * unchanged.  The packet carries that message only while each list has fewer than 256
 * entries, since the counts are single bytes; `PacketCatchUp` states the result for the
 * packet the receiver actually parses.
 */
module CatchUp {
  import opened Wrappers
  import opened Wire
  import opened MacroTable
  import opened Applier
  import opened MacroDeletions

  /** A sender table the two passes can walk, small enough that offsets fit in 16 bits. */
  ghost predicate SenderTable(ref: seq<Int16>, presets: seq<BehKind>)
  {
    Terminated(ref, 0) && PresetsKnown(ref, presets, 0) && |ref| <= 0x1_0000
  }

  /** Every offset of the deletion section is a respawn field whose flag is set. */
  lemma DeletionsOnGrid(ref: seq<Int16>)
    requires Terminated(ref, 0) && |ref| <= 0x1_0000
    ensures forall o :: o in ScanDeletions(ref, 0) ==>
      o < |ref| && o % RecordSlots == RespawnInfoSlot && FlaggedField(ref, o)
  {
    ScanDeletionsExact(ref, 0);
    RespawnFieldsOnGrid(ref);
  }

  /**
   * The special section names respawn fields of coin formations, each with the sender's
   * value, in increasing table order.
   */
  lemma SpecialsOnGrid(ref: seq<Int16>, presets: seq<BehKind>)
    requires SenderTable(ref, presets)
    ensures var sps := ScanSpecials(ref, presets, 0);
      && OffsetsIncreasing(sps)
      && forall k :: 0 <= k < |sps| ==>
           && sps[k].offset % RecordSlots == RespawnInfoSlot
           && SpecialFits(ref, presets, sps[k])
           && CoinField(ref, presets, sps[k].offset)
           && sps[k].respawnInfo == ref[sps[k].offset]
  {
    var sps := ScanSpecials(ref, presets, 0);
    ScanSpecialsExact(ref, presets, 0);
    ScanSpecialsIncreasing(ref, presets, 0);
    RespawnFieldsOnGrid(ref);
    forall k | 0 <= k < |sps|
      ensures sps[k].offset % RecordSlots == RespawnInfoSlot && SpecialFits(ref, presets, sps[k])
    {
      assert sps[k] in sps;
    }
  }

  /** Flagging respawn fields leaves every other slot alone. */
  lemma FlagTableOnGrid(t: seq<Int16>, offsets: seq<UInt16>)
    requires OffsetsFit(offsets, |t|)
    requires forall o :: o in offsets ==> o % RecordSlots == RespawnInfoSlot
    ensures AgreeOutsideRespawnInfo(FlagTable(t, offsets), t)
  {
    FlagTableFlags(t, offsets);
  }

  /**
   * The receiver can apply the sender's message without faulting, and its table ends up as
   * the deletion section flagged into it with the special section written over that.
   */
  lemma MessageApplies(location: Location, a: UInt8, ref: seq<Int16>, presets: seq<BehKind>, s: State)
    requires SenderTable(ref, presets) && AgreeOutsideRespawnInfo(s.table, ref)
    ensures var m := AreaMessage(location, a, ref, presets);
      && Applicable(s, presets, m)
      && AgreeOutsideRespawnInfo(FlagTable(s.table, m.deletions), ref)
      && ApplyMessage(s, presets, m).table == WriteSpecials(FlagTable(s.table, m.deletions), m.specials)
  {
    var m := AreaMessage(location, a, ref, presets);
    DeletionsOnGrid(ref);
    FlagTableOnGrid(s.table, m.deletions);
    var flagged := FlagTable(s.table, m.deletions);
    SpecialsOnGrid(ref, presets);
    SpecialsSafeOnLayout(flagged, ref, presets, m.specials);
  }

  /** Afterwards the receiver's table still has the sender's layout. */
  lemma ReceiverKeepsLayout(location: Location, a: UInt8, ref: seq<Int16>, presets: seq<BehKind>, s: State)
    requires SenderTable(ref, presets) && AgreeOutsideRespawnInfo(s.table, ref)
    ensures var m := AreaMessage(location, a, ref, presets);
      Applicable(s, presets, m) && AgreeOutsideRespawnInfo(ApplyMessage(s, presets, m).table, ref)
  {
    var m := AreaMessage(location, a, ref, presets);
    MessageApplies(location, a, ref, presets, s);
    SpecialsOnGrid(ref, presets);
    var flagged := FlagTable(s.table, m.deletions);
    var r := ApplyMessage(s, presets, m).table;
    forall i | 0 <= i < |r| && i % RecordSlots != RespawnInfoSlot
      ensures r[i] == ref[i]
    {
      WriteSpecialsUntouched(flagged, m.specials, i);
    }
  }

  /** Every record the sender has flagged as destroyed is flagged at the receiver too. */
  lemma ReceiverFlagsDeletions(location: Location, a: UInt8, ref: seq<Int16>, presets: seq<BehKind>, s: State)
    requires SenderTable(ref, presets) && AgreeOutsideRespawnInfo(s.table, ref)
    ensures var m := AreaMessage(location, a, ref, presets);
      && Applicable(s, presets, m)
      && forall f :: FlaggedField(ref, f) ==> DontRespawnSet(ApplyMessage(s, presets, m).table[f])
  {
    var m := AreaMessage(location, a, ref, presets);
    MessageApplies(location, a, ref, presets, s);
    SpecialsOnGrid(ref, presets);
    ScanDeletionsExact(ref, 0);
    var flagged := FlagTable(s.table, m.deletions);
    FlagTableFlags(s.table, m.deletions);
    var r := ApplyMessage(s, presets, m).table;
    forall f | FlaggedField(ref, f)
      ensures DontRespawnSet(r[f])
    {
      assert f in m.deletions;
      WriteSpecialsSource(flagged, m.specials, f);
    }
  }

  /** Every coin formation the sender reports holds the sender's value at the receiver. */
  lemma ReceiverCopiesCoinFormations(location: Location, a: UInt8, ref: seq<Int16>, presets: seq<BehKind>, s: State)
    requires SenderTable(ref, presets) && AgreeOutsideRespawnInfo(s.table, ref)
    ensures var m := AreaMessage(location, a, ref, presets);
      && Applicable(s, presets, m)
      && forall f :: CoinField(ref, presets, f) ==> ApplyMessage(s, presets, m).table[f] == ref[f]
  {
    var m := AreaMessage(location, a, ref, presets);
    MessageApplies(location, a, ref, presets, s);
    var flagged := FlagTable(s.table, m.deletions);
    forall f | CoinField(ref, presets, f)
      ensures ApplyMessage(s, presets, m).table[f] == ref[f]
    {
      CoinFieldWritten(ref, presets, flagged, f);
    }
  }

  /**
   * Writing the sender's special section over any table of the sender's size leaves each of
   * the sender's coin fields holding the sender's value.
   */
  lemma CoinFieldWritten(ref: seq<Int16>, presets: seq<BehKind>, t: seq<Int16>, f: int)
    requires SenderTable(ref, presets) && |t| == |ref| && CoinField(ref, presets, f)
    ensures forall k :: 0 <= k < |ScanSpecials(ref, presets, 0)| ==> ScanSpecials(ref, presets, 0)[k].offset < |t|
    ensures 0 <= f < |t| && WriteSpecials(t, ScanSpecials(ref, presets, 0))[f] == ref[f]
  {
    var sps := ScanSpecials(ref, presets, 0);
    SpecialsOnGrid(ref, presets);
    var sp := Special(f, ref[f]);
    assert CoinEntry(ref, presets, sp);
    ScanSpecialsMember(ref, presets, 0, sp);
    var k :| 0 <= k < |sps| && sps[k] == sp;
    WriteSpecialsLastWins(t, sps, k);
  }

  /**
   * Nothing else changes: a slot that is neither a flagged respawn field nor a reported coin
   * formation of the sender keeps the receiver's own value.
   */
  lemma ReceiverChangesNothingElse(location: Location, a: UInt8, ref: seq<Int16>, presets: seq<BehKind>, s: State)
    requires SenderTable(ref, presets) && AgreeOutsideRespawnInfo(s.table, ref)
    ensures var m := AreaMessage(location, a, ref, presets);
      && Applicable(s, presets, m)
      && forall f :: 0 <= f < |s.table| && !FlaggedField(ref, f) && !CoinField(ref, presets, f) ==>
           ApplyMessage(s, presets, m).table[f] == s.table[f]
  {
    var m := AreaMessage(location, a, ref, presets);
    MessageApplies(location, a, ref, presets, s);
    SpecialsOnGrid(ref, presets);
    DeletionsOnGrid(ref);
    var flagged := FlagTable(s.table, m.deletions);
    FlagTableFlags(s.table, m.deletions);
    var r := ApplyMessage(s, presets, m).table;
    forall f | 0 <= f < |s.table| && !FlaggedField(ref, f) && !CoinField(ref, presets, f)
      ensures r[f] == s.table[f]
    {
      WriteSpecialsSource(flagged, m.specials, f);
      assert f !in m.deletions;
    }
  }

  /**
   * The same catch-up, stated for the message the receiver parses out of the sender's packet:
   * when each list has fewer than 256 entries the packet reads back as the sender's message,
   * and applying it flags every field the sender flagged, copies every reported coin
   * formation and leaves every other slot alone.
   */
  lemma PacketCatchUp(location: Location, a: UInt8, ref: seq<Int16>, presets: seq<BehKind>, s: State)
    requires SenderTable(ref, presets) && AgreeOutsideRespawnInfo(s.table, ref)
    requires |ScanDeletions(ref, 0)| < 0x100 && |ScanSpecials(ref, presets, 0)| < 0x100
    ensures var p := Parse(Encode(AreaMessage(location, a, ref, presets)));
      && p == Some(AreaMessage(location, a, ref, presets))
      && Applicable(s, presets, p.value)
      && (forall f :: FlaggedField(ref, f) ==> DontRespawnSet(ApplyMessage(s, presets, p.value).table[f]))
      && (forall f :: CoinField(ref, presets, f) ==> ApplyMessage(s, presets, p.value).table[f] == ref[f])
      && forall f :: 0 <= f < |s.table| && !FlaggedField(ref, f) && !CoinField(ref, presets, f) ==>
           ApplyMessage(s, presets, p.value).table[f] == s.table[f]
  {
    ParseEncode(AreaMessage(location, a, ref, presets));
    ReceiverFlagsDeletions(location, a, ref, presets, s);
    ReceiverCopiesCoinFormations(location, a, ref, presets, s);
    ReceiverChangesNothingElse(location, a, ref, presets, s);
  }
}
