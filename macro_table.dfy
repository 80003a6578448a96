/**
 * An area's macro-object table and the two scans the sender makes over it.
 *
 * The table is a flat array of signed 16-bit slots holding five-slot records.  The first slot of
 * a record encodes the preset (low nine bits, biased by 31); the fifth slot is the record's
 * respawn info, whose high byte carries the "don't respawn" flag.  The list ends at a slot equal
 * to -1 or at a record whose preset id is negative.  Offsets are slot indices from the table
 * base, truncated to 16 bits as the C `u16 offset` does.
 */
module MacroTable {
  import opened Wire

  /** The behaviour a preset resolves to, as far as this protocol distinguishes them. */
  datatype BehKind = CoinFormation | CoinFormationSpawn | YellowCoin | Other

  const RecordSlots := 5
  const RespawnInfoSlot := 4
  const ListEnd: Int16 := -1
  const PresetBias := 31
  /** RESPAWN_INFO_DONT_RESPAWN, the flag value kept in the high byte of a respawn-info slot. */
  const RespawnInfoDontRespawn: UInt8 := 0xFF

  /** `(slot & 0x1FF) - 31`; `%` is Euclidean, so it keeps the low nine two's-complement bits. */
  function PresetId(slot: Int16): (r: int)
    ensures -PresetBias <= r < 0x200 - PresetBias
  {
    slot % 0x200 - PresetBias
  }

  /**
   * `(x >> 8) & 0xFF`: bits 8 to 15 of the slot's 16-bit pattern.  The arithmetic shift of a
   * signed value is a floor division.
   */
  function HighByte(x: Int16): (r: UInt8)
    ensures r == ((x + 0x1_0000) % 0x1_0000) / 0x100
  {
    (x / 0x100) % 0x100
  }

  /** `x & 0xFF`. */
  function LowByte(x: Int16): UInt8
  {
    x % 0x100
  }

  /** `((x >> 8) & RESPAWN_INFO_DONT_RESPAWN) == RESPAWN_INFO_DONT_RESPAWN`. */
  predicate DontRespawnSet(x: Int16): (r: bool)
    ensures r <==> -0x100 <= x < 0
  {
    HighByte(x) == RespawnInfoDontRespawn
  }

  /**
   * `x |= RESPAWN_INFO_DONT_RESPAWN << 8` on a signed 16-bit slot.  With the flag being 0xFF
   * the OR turns the whole high byte on and leaves the low byte.
   */
  function SetDontRespawn(x: Int16): (r: Int16)
    ensures DontRespawnSet(r) && LowByte(r) == LowByte(x)
    ensures DontRespawnSet(x) ==> r == x
  {
    S16Of(LowByte(x), RespawnInfoDontRespawn)
  }

  /** The scan stops at slot `i`: the end marker, or a record with a negative preset id. */
  predicate EndOfList(t: seq<Int16>, i: nat)
    requires i < |t|
  {
    t[i] == ListEnd || PresetId(t[i]) < 0
  }

  /** A scan from slot `i` reaches the end of the list without leaving the table. */
  predicate Terminated(t: seq<Int16>, i: nat)
    decreases |t| - i
  {
    i < |t| && (EndOfList(t, i) || (i + RecordSlots < |t| && Terminated(t, i + RecordSlots)))
  }

  /** Every record a scan from `i` visits names a preset inside `presets`. */
  predicate PresetsKnown(t: seq<Int16>, presets: seq<BehKind>, i: nat)
    requires Terminated(t, i)
    decreases |t| - i
  {
    EndOfList(t, i) || (PresetId(t[i]) < |presets| && PresetsKnown(t, presets, i + RecordSlots))
  }

  /** The slot indices of the respawn-info fields of the records a scan from `i` visits. */
  function RespawnFields(t: seq<Int16>, i: nat): seq<nat>
    requires Terminated(t, i)
    decreases |t| - i
  {
    if EndOfList(t, i) then [] else [i + RespawnInfoSlot] + RespawnFields(t, i + RecordSlots)
  }

  /** `u16 offset = respawnInfo - area->macroObjects`. */
  function Offset(field: nat): UInt16
  {
    field % 0x1_0000
  }

  /** First pass: the offsets of the respawn fields whose "don't respawn" flag is set. */
  function ScanDeletions(t: seq<Int16>, i: nat): (r: seq<UInt16>)
    requires Terminated(t, i)
    ensures |r| <= |RespawnFields(t, i)|
    decreases |t| - i
  {
    if EndOfList(t, i) then []
    else
      var field := i + RespawnInfoSlot;
      (if DontRespawnSet(t[field]) then [Offset(field)] else []) + ScanDeletions(t, i + RecordSlots)
  }

  /** The record whose preset slot is `t[i]` is a coin formation. */
  predicate IsCoinFormation(t: seq<Int16>, presets: seq<BehKind>, i: nat)
    requires i < |t| && 0 <= PresetId(t[i]) < |presets|
  {
    presets[PresetId(t[i])] == CoinFormation
  }

  /** Second pass: every coin formation whose respawn info is not zero, with that value. */
  function ScanSpecials(t: seq<Int16>, presets: seq<BehKind>, i: nat): (r: seq<Special>)
    requires Terminated(t, i) && PresetsKnown(t, presets, i)
    ensures |r| <= |RespawnFields(t, i)|
    decreases |t| - i
  {
    if EndOfList(t, i) then []
    else
      var field := i + RespawnInfoSlot;
      (if IsCoinFormation(t, presets, i) && t[field] != 0 then [Special(Offset(field), t[field])] else [])
        + ScanSpecials(t, presets, i + RecordSlots)
  }

  /**
   * One record of the first pass: behind what the scan has found so far (`acc`), the record
   * contributes its offset when the flag is set, and the scan goes on at the next record.
   */
  lemma ScanDeletionsStep(t: seq<Int16>, i: nat, acc: seq<UInt16>)
    requires Terminated(t, i) && !EndOfList(t, i)
    ensures Terminated(t, i + RecordSlots)
    ensures DontRespawnSet(t[i + RespawnInfoSlot]) ==>
      acc + ScanDeletions(t, i) == (acc + [Offset(i + RespawnInfoSlot)]) + ScanDeletions(t, i + RecordSlots)
    ensures !DontRespawnSet(t[i + RespawnInfoSlot]) ==>
      acc + ScanDeletions(t, i) == acc + ScanDeletions(t, i + RecordSlots)
  {
    var field := i + RespawnInfoSlot;
    var rest := ScanDeletions(t, i + RecordSlots);
    var own := if DontRespawnSet(t[field]) then [Offset(field)] else [];
    assert ScanDeletions(t, i) == own + rest;
    assert acc + (own + rest) == (acc + own) + rest;
    assert !DontRespawnSet(t[field]) ==> acc + own == acc;
  }

  /**
   * One record of the second pass: behind what the scan has found so far (`acc`), a coin
   * formation with non-zero respawn info contributes its entry, and the scan goes on at the
   * next record.
   */
  lemma ScanSpecialsStep(t: seq<Int16>, presets: seq<BehKind>, i: nat, acc: seq<Special>)
    requires Terminated(t, i) && PresetsKnown(t, presets, i) && !EndOfList(t, i)
    ensures Terminated(t, i + RecordSlots) && PresetsKnown(t, presets, i + RecordSlots)
    ensures 0 <= PresetId(t[i]) < |presets|
    ensures presets[PresetId(t[i])] == CoinFormation && t[i + RespawnInfoSlot] != 0 ==>
      acc + ScanSpecials(t, presets, i) ==
        (acc + [Special(Offset(i + RespawnInfoSlot), t[i + RespawnInfoSlot])]) + ScanSpecials(t, presets, i + RecordSlots)
    ensures !(presets[PresetId(t[i])] == CoinFormation && t[i + RespawnInfoSlot] != 0) ==>
      acc + ScanSpecials(t, presets, i) == acc + ScanSpecials(t, presets, i + RecordSlots)
  {
    var field := i + RespawnInfoSlot;
    var rest := ScanSpecials(t, presets, i + RecordSlots);
    var keep := IsCoinFormation(t, presets, i) && t[field] != 0;
    var own := if keep then [Special(Offset(field), t[field])] else [];
    assert ScanSpecials(t, presets, i) == own + rest;
    assert acc + (own + rest) == (acc + own) + rest;
    assert !keep ==> acc + own == acc;
  }

  predicate Increasing(s: seq<int>)
  {
    forall j, k :: 0 <= j < k < |s| ==> s[j] < s[k]
  }

  predicate OffsetsIncreasing(sps: seq<Special>)
  {
    forall j, k :: 0 <= j < k < |sps| ==> sps[j].offset < sps[k].offset
  }

  /** Putting a value below everything in an increasing list in front keeps it increasing. */
  lemma IncreasingCons(x: int, s: seq<int>)
    requires Increasing(s) && forall y :: y in s ==> x < y
    ensures Increasing([x] + s)
  {
    var r := [x] + s;
    forall j, k | 0 <= j < k < |r|
      ensures r[j] < r[k]
    {
      assert r[k] == s[k - 1] && s[k - 1] in s;
      if j > 0 {
        assert r[j] == s[j - 1];
      }
    }
  }

  /**
   * Scan range: the k-th record visited starts at `i + 5k`, its respawn field is the slot four
   * after, and the scan stops at the first record start that ends the list.
   */
  lemma RespawnFieldsShape(t: seq<Int16>, i: nat)
    requires Terminated(t, i)
    ensures var fields := RespawnFields(t, i);
      && i + RecordSlots * |fields| < |t| && EndOfList(t, i + RecordSlots * |fields|)
      && forall k :: 0 <= k < |fields| ==>
           fields[k] == i + RecordSlots * k + RespawnInfoSlot && !EndOfList(t, i + RecordSlots * k)
  {
    RespawnFieldsEnd(t, i);
    forall k | 0 <= k < |RespawnFields(t, i)|
      ensures RespawnFields(t, i)[k] == i + RecordSlots * k + RespawnInfoSlot
      ensures !EndOfList(t, i + RecordSlots * k)
    {
      RespawnFieldAt(t, i, k);
    }
  }

  /** The scan from `i` stops at the record just after the last one it visits. */
  lemma {:induction false} RespawnFieldsEnd(t: seq<Int16>, i: nat)
    requires Terminated(t, i)
    ensures i + RecordSlots * |RespawnFields(t, i)| < |t|
    ensures EndOfList(t, i + RecordSlots * |RespawnFields(t, i)|)
    decreases |t| - i
  {
    if !EndOfList(t, i) {
      var next := i + RecordSlots;
      RespawnFieldsEnd(t, next);
      assert |RespawnFields(t, i)| == |RespawnFields(t, next)| + 1;
      Stride(i, |RespawnFields(t, i)|);
    }
  }

  /** The `k`-th respawn field the scan reports is slot 4 of the `k`-th record after `i`. */
  lemma {:induction false} RespawnFieldAt(t: seq<Int16>, i: nat, k: nat)
    requires Terminated(t, i) && k < |RespawnFields(t, i)|
    ensures i + RecordSlots * k + RespawnInfoSlot < |t|
    ensures RespawnFields(t, i)[k] == i + RecordSlots * k + RespawnInfoSlot
    ensures !EndOfList(t, i + RecordSlots * k)
    decreases k
  {
    var next := i + RecordSlots;
    assert !EndOfList(t, i);
    assert RespawnFields(t, i) == [i + RespawnInfoSlot] + RespawnFields(t, next);
    if k > 0 {
      RespawnFieldAt(t, next, k - 1);
      Stride(i, k);
    }
  }

  /** Record `k` after slot `i` is record `k - 1` after the next record. */
  lemma Stride(i: nat, k: nat)
    requires 1 <= k
    ensures i + RecordSlots + RecordSlots * (k - 1) == i + RecordSlots * k
  {
  }

  lemma {:induction false} RespawnFieldsBounds(t: seq<Int16>, i: nat)
    requires Terminated(t, i)
    ensures forall f :: f in RespawnFields(t, i) ==> i + RespawnInfoSlot <= f < |t| && f >= RespawnInfoSlot
    ensures Increasing(RespawnFields(t, i))
    decreases |t| - i
  {
    if !EndOfList(t, i) {
      RespawnFieldsBounds(t, i + RecordSlots);
      IncreasingCons(i + RespawnInfoSlot, RespawnFields(t, i + RecordSlots));
    }
  }

  /**
   * Deletion section: within a table of at most 65536 slots (so that offsets do not wrap), the
   * first pass emits, in table order, exactly the respawn fields of visited records whose flag
   * is set.
   */
  lemma ScanDeletionsExact(t: seq<Int16>, i: nat)
    requires Terminated(t, i) && |t| <= 0x1_0000
    ensures Increasing(ScanDeletions(t, i))
    ensures forall f: int :: f in ScanDeletions(t, i) <==>
      (f in RespawnFields(t, i) && 0 <= f < |t| && DontRespawnSet(t[f]))
  {
    ScanDeletionsIncreasing(t, i);
    forall f: int
      ensures f in ScanDeletions(t, i) <==> (f in RespawnFields(t, i) && 0 <= f < |t| && DontRespawnSet(t[f]))
    {
      ScanDeletionsMember(t, i, f);
    }
  }

  /** One slot at a time: `f` is reported exactly when it is a visited, flagged respawn field. */
  lemma {:induction false} ScanDeletionsMember(t: seq<Int16>, i: nat, f: int)
    requires Terminated(t, i) && |t| <= 0x1_0000
    ensures f in ScanDeletions(t, i) <==> (f in RespawnFields(t, i) && 0 <= f < |t| && DontRespawnSet(t[f]))
    decreases |t| - i
  {
    if !EndOfList(t, i) {
      var next := i + RecordSlots;
      var field := i + RespawnInfoSlot;
      ScanDeletionsMember(t, next, f);
      var rest := ScanDeletions(t, next);
      var own := if DontRespawnSet(t[field]) then [field] else [];
      assert Offset(field) == field;
      assert ScanDeletions(t, i) == own + rest;
      assert f in own + rest <==> f in own || f in rest;
      assert RespawnFields(t, i) == [field] + RespawnFields(t, next);
      assert f in [field] + RespawnFields(t, next) <==> f == field || f in RespawnFields(t, next);
    }
  }

  /** The deletion offsets come out in strictly increasing table order. */
  lemma {:induction false} ScanDeletionsIncreasing(t: seq<Int16>, i: nat)
    requires Terminated(t, i) && |t| <= 0x1_0000
    ensures Increasing(ScanDeletions(t, i))
    decreases |t| - i
  {
    if !EndOfList(t, i) {
      var next := i + RecordSlots;
      var field := i + RespawnInfoSlot;
      ScanDeletionsIncreasing(t, next);
      RespawnFieldsBounds(t, next);
      var rest := ScanDeletions(t, next);
      forall f | f in rest
        ensures field < f
      {
        ScanDeletionsMember(t, next, f);
      }
      IncreasingCons(field, rest);
      assert Offset(field) == field;
      if DontRespawnSet(t[field]) {
        assert ScanDeletions(t, i) == [field] + rest;
      } else {
        assert ScanDeletions(t, i) == rest;
      }
    }
  }

  lemma OffsetsIncreasingCons(sp: Special, s: seq<Special>)
    requires OffsetsIncreasing(s) && forall x :: x in s ==> sp.offset < x.offset
    ensures OffsetsIncreasing([sp] + s)
  {
    var r := [sp] + s;
    forall j, k | 0 <= j < k < |r|
      ensures r[j].offset < r[k].offset
    {
      assert r[k] == s[k - 1] && s[k - 1] in s;
      if j > 0 {
        assert r[j] == s[j - 1];
      }
    }
  }

  lemma {:induction false} ScanSpecialsInRespawnFields(t: seq<Int16>, presets: seq<BehKind>, i: nat)
    requires Terminated(t, i) && PresetsKnown(t, presets, i) && |t| <= 0x1_0000
    ensures forall sp :: sp in ScanSpecials(t, presets, i) ==> sp.offset in RespawnFields(t, i)
    decreases |t| - i
  {
    if !EndOfList(t, i) {
      ScanSpecialsInRespawnFields(t, presets, i + RecordSlots);
      assert Offset(i + RespawnInfoSlot) == i + RespawnInfoSlot;
    }
  }

  /** The special entries come out in table order. */
  lemma {:induction false} ScanSpecialsIncreasing(t: seq<Int16>, presets: seq<BehKind>, i: nat)
    requires Terminated(t, i) && PresetsKnown(t, presets, i) && |t| <= 0x1_0000
    ensures OffsetsIncreasing(ScanSpecials(t, presets, i))
    decreases |t| - i
  {
    if !EndOfList(t, i) {
      var next := i + RecordSlots;
      ScanSpecialsIncreasing(t, presets, next);
      ScanSpecialsInRespawnFields(t, presets, next);
      RespawnFieldsBounds(t, next);
      var field := i + RespawnInfoSlot;
      if IsCoinFormation(t, presets, i) && t[field] != 0 {
        assert Offset(field) == field;
        OffsetsIncreasingCons(Special(Offset(field), t[field]), ScanSpecials(t, presets, next));
      }
    }
  }

  /** `sp` is what the second pass reports for a coin formation: its non-zero respawn info. */
  ghost predicate CoinEntry(t: seq<Int16>, presets: seq<BehKind>, sp: Special)
  {
    && RespawnInfoSlot <= sp.offset < |t|
    && 0 <= PresetId(t[sp.offset - RespawnInfoSlot]) < |presets|
    && IsCoinFormation(t, presets, sp.offset - RespawnInfoSlot)
    && t[sp.offset] != 0 && sp.respawnInfo == t[sp.offset]
  }

  /**
   * Special section: within a table of at most 65536 slots, the second pass emits exactly the
   * coin formations whose respawn info is non-zero, each with that value.
   */
  lemma ScanSpecialsExact(t: seq<Int16>, presets: seq<BehKind>, i: nat)
    requires Terminated(t, i) && PresetsKnown(t, presets, i) && |t| <= 0x1_0000
    ensures forall sp :: sp in ScanSpecials(t, presets, i) <==>
      sp.offset in RespawnFields(t, i) && CoinEntry(t, presets, sp)
  {
    forall sp
      ensures sp in ScanSpecials(t, presets, i) <==> sp.offset in RespawnFields(t, i) && CoinEntry(t, presets, sp)
    {
      ScanSpecialsMember(t, presets, i, sp);
    }
  }

  /** One entry at a time: `sp` is reported exactly when it is a visited coin formation's entry. */
  lemma {:induction false} ScanSpecialsMember(t: seq<Int16>, presets: seq<BehKind>, i: nat, sp: Special)
    requires Terminated(t, i) && PresetsKnown(t, presets, i) && |t| <= 0x1_0000
    ensures sp in ScanSpecials(t, presets, i) <==> sp.offset in RespawnFields(t, i) && CoinEntry(t, presets, sp)
    decreases |t| - i
  {
    if !EndOfList(t, i) {
      var next := i + RecordSlots;
      var field := i + RespawnInfoSlot;
      ScanSpecialsMember(t, presets, next, sp);
      RespawnFieldsBounds(t, next);
      var rest := ScanSpecials(t, presets, next);
      var keep := IsCoinFormation(t, presets, i) && t[field] != 0;
      assert Offset(field) == field;
      var own := if keep then [Special(field, t[field])] else [];
      assert ScanSpecials(t, presets, i) == own + rest;
      assert sp in own + rest <==> sp in own || sp in rest;
      assert RespawnFields(t, i) == [field] + RespawnFields(t, next);
      assert sp.offset in [field] + RespawnFields(t, next) <==>
        sp.offset == field || sp.offset in RespawnFields(t, next);
      if sp.offset == field {
        assert sp.offset !in RespawnFields(t, next);
      }
    }
  }

  // ---------------------------------------------------------------- the record grid

  /**
   * Two tables of the same length that agree everywhere except, possibly, at respawn-info
   * positions (slot 4 of each 5-slot record).
   */
  predicate AgreeOutsideRespawnInfo(t: seq<Int16>, u: seq<Int16>)
  {
    |t| == |u| && forall i :: 0 <= i < |t| && i % RecordSlots != RespawnInfoSlot ==> t[i] == u[i]
  }

  /** Every respawn field a scan from slot 0 visits sits at position 4 of a record. */
  lemma RespawnFieldsOnGrid(t: seq<Int16>)
    requires Terminated(t, 0)
    ensures forall f :: f in RespawnFields(t, 0) ==> f % RecordSlots == RespawnInfoSlot
  {
    RespawnFieldsShape(t, 0);
    var fields := RespawnFields(t, 0);
    forall f | f in fields
      ensures f % RecordSlots == RespawnInfoSlot
    {
      var k :| 0 <= k < |fields| && fields[k] == f;
      assert f == RecordSlots * k + RespawnInfoSlot;
    }
  }

  /** Slot `f` is a respawn field the first pass reports: its record is visited and flagged. */
  ghost predicate FlaggedField(t: seq<Int16>, f: int)
    requires Terminated(t, 0)
  {
    f in RespawnFields(t, 0) && 0 <= f < |t| && DontRespawnSet(t[f])
  }

  /** Slot `f` is a respawn field the second pass reports: a coin formation with non-zero info. */
  ghost predicate CoinField(t: seq<Int16>, presets: seq<BehKind>, f: int)
    requires Terminated(t, 0)
  {
    && f in RespawnFields(t, 0) && RespawnInfoSlot <= f < |t|
    && 0 <= PresetId(t[f - RespawnInfoSlot]) < |presets|
    && IsCoinFormation(t, presets, f - RespawnInfoSlot) && t[f] != 0
  }
}
