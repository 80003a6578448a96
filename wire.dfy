/**
 * Fixed-width integers and the byte layout of a macro-deletions packet.
 *
 * The packet is written with `packet_write` and read back with `packet_read`.  Both peers are
 * assumed to use the same byte order, fixed here as little-endian.  Values are plain integers
 * confined to their C ranges, so the C wrap-around of a `u8` or `u16` is written out as `%`.
 */
module Wire {
  import opened Wrappers

  type UInt8 = x: int | 0 <= x < 0x100
  type UInt16 = x: int | 0 <= x < 0x1_0000
  type Int16 = x: int | -0x8000 <= x < 0x8000

  /** The two bytes of an unsigned 16-bit value, low byte first. */
  function U16Bytes(x: UInt16): seq<UInt8>
  {
    [x % 0x100, x / 0x100]
  }

  /** The two bytes of a signed 16-bit value in two's complement, low byte first. */
  function S16Bytes(x: Int16): seq<UInt8>
  {
    [x % 0x100, (x / 0x100) % 0x100]
  }

  /** The signed 16-bit value whose two's-complement bytes are `lo` and `hi`. */
  function S16Of(lo: UInt8, hi: UInt8): Int16
  {
    if hi < 0x80 then hi * 0x100 + lo else hi * 0x100 + lo - 0x1_0000
  }

  /** Reads an unsigned 16-bit value at byte position `i`. */
  function U16At(d: seq<UInt8>, i: nat): UInt16
    requires i + 2 <= |d|
  {
    d[i] as int + 0x100 * d[i + 1] as int
  }

  /** Reads a signed 16-bit value at byte position `i`. */
  function S16At(d: seq<UInt8>, i: nat): Int16
    requires i + 2 <= |d|
  {
    S16Of(d[i], d[i + 1])
  }

  lemma U16RoundTrip(x: UInt16, pre: seq<UInt8>, post: seq<UInt8>)
    ensures U16At(pre + U16Bytes(x) + post, |pre|) == x
  {
    var d := pre + U16Bytes(x) + post;
    assert d[|pre|] == x % 0x100 && d[|pre| + 1] == x / 0x100;
  }

  lemma S16RoundTrip(x: Int16, pre: seq<UInt8>, post: seq<UInt8>)
    ensures S16At(pre + S16Bytes(x) + post, |pre|) == x
  {
    var d := pre + S16Bytes(x) + post;
    assert d[|pre|] == x % 0x100 && d[|pre| + 1] == (x / 0x100) % 0x100;
  }

  /** The current course, act, level and area: the key both peers must agree on. */
  datatype Location = Location(course: Int16, act: Int16, level: Int16, area: Int16)

  /** A coin-formation record's table offset and its full respawn-info value. */
  datatype Special = Special(offset: UInt16, respawnInfo: Int16)

  /** What one macro-deletions packet says, field by field. */
  datatype Message = Message(location: Location, areaIndex: UInt8,
                             deletions: seq<UInt16>, specials: seq<Special>)

  /** Size of the location header: four signed 16-bit values. */
  const HeaderSize := 8

  /** A `u8` count placeholder after `n` increments: it wraps past 255. */
  function CountByte(n: nat): UInt8
  {
    n % 0x100
  }

  function LocationBytes(loc: Location): (r: seq<UInt8>)
    ensures |r| == HeaderSize
  {
    S16Bytes(loc.course) + S16Bytes(loc.act) + S16Bytes(loc.level) + S16Bytes(loc.area)
  }

  /** The deletion offsets, two bytes each, in list order. */
  function OffsetBytes(offsets: seq<UInt16>): (r: seq<UInt8>)
    ensures |r| == 2 * |offsets|
  {
    if offsets == [] then []
    else OffsetBytes(offsets[..|offsets| - 1]) + U16Bytes(offsets[|offsets| - 1])
  }

  /** The special entries, an unsigned offset then a signed value each, in list order. */
  function SpecialBytes(specials: seq<Special>): (r: seq<UInt8>)
    ensures |r| == 4 * |specials|
  {
    if specials == [] then []
    else
      var last := specials[|specials| - 1];
      SpecialBytes(specials[..|specials| - 1]) + U16Bytes(last.offset) + S16Bytes(last.respawnInfo)
  }

  /** A count byte bumped in place, as the sender does with `*count += 1`, wraps like the count. */
  lemma BumpCount(head: seq<UInt8>, n: nat, tail: seq<UInt8>)
    ensures var b := head + [CountByte(n)] + tail;
      b[|head| := ((b[|head|] as int + 1) % 0x100) as UInt8] == head + [CountByte(n + 1)] + tail
  {
    var b := head + [CountByte(n)] + tail;
    assert b[|head|] == CountByte(n);
    assert (CountByte(n) as int + 1) % 0x100 == CountByte(n + 1);
  }

  /** One more deletion offset behind its count byte. */
  lemma AppendOffset(head: seq<UInt8>, offsets: seq<UInt16>, offset: UInt16)
    ensures var b := head + [CountByte(|offsets|)] + OffsetBytes(offsets);
      b[|head| := ((b[|head|] as int + 1) % 0x100) as UInt8] + U16Bytes(offset)
        == head + [CountByte(|offsets + [offset]|)] + OffsetBytes(offsets + [offset])
  {
    BumpCount(head, |offsets|, OffsetBytes(offsets));
    assert (offsets + [offset])[..|offsets|] == offsets;
  }

  /** One more special entry behind its count byte. */
  lemma AppendSpecial(head: seq<UInt8>, specials: seq<Special>, sp: Special)
    ensures var b := head + [CountByte(|specials|)] + SpecialBytes(specials);
      b[|head| := ((b[|head|] as int + 1) % 0x100) as UInt8] + U16Bytes(sp.offset) + S16Bytes(sp.respawnInfo)
        == head + [CountByte(|specials + [sp]|)] + SpecialBytes(specials + [sp])
  {
    BumpCount(head, |specials|, SpecialBytes(specials));
    assert (specials + [sp])[..|specials|] == specials;
  }

  /** The packet the sender builds for message `m`. */
  function Encode(m: Message): (r: seq<UInt8>)
    ensures |r| == HeaderSize + 3 + 2 * |m.deletions| + 4 * |m.specials|
  {
    LocationBytes(m.location) + [m.areaIndex, CountByte(|m.deletions|)] + OffsetBytes(m.deletions)
      + [CountByte(|m.specials|)] + SpecialBytes(m.specials)
  }

  /** The packet in the three stages the sender writes it: header, deletions, specials. */
  lemma EncodeSplit(m: Message, head: seq<UInt8>, middle: seq<UInt8>)
    requires head == LocationBytes(m.location) + [m.areaIndex]
    requires middle == head + [CountByte(|m.deletions|)] + OffsetBytes(m.deletions)
    ensures Encode(m) == middle + [CountByte(|m.specials|)] + SpecialBytes(m.specials)
    ensures Encode(m)[|head|] == CountByte(|m.deletions|)
    ensures Encode(m)[|middle|] == CountByte(|m.specials|)
  {
    assert middle[|head|] == CountByte(|m.deletions|);
  }

  function ParseLocation(d: seq<UInt8>): Location
    requires |d| >= HeaderSize
  {
    Location(S16At(d, 0), S16At(d, 2), S16At(d, 4), S16At(d, 6))
  }

  /**
   * The message the receiver reads from `d`: the header, the area index, a count and that many
   * offsets, then a count and that many (offset, value) pairs.  `None` when `d` is too short to
   * hold every field the counts announce.  Bytes after the last field are ignored.
   */
  function Parse(d: seq<UInt8>): (r: Option<Message>)
    ensures |d| < HeaderSize + 3 ==> r.None?
    ensures r.Some? ==>
      && |r.value.deletions| < 0x100 && |r.value.specials| < 0x100
      && HeaderSize + 3 + 2 * |r.value.deletions| + 4 * |r.value.specials| <= |d|
  {
    if |d| < HeaderSize + 2 then None
    else
      var deletionCount: nat := d[HeaderSize + 1];
      var specialsAt := HeaderSize + 2 + 2 * deletionCount;
      if |d| < specialsAt + 1 then None
      else
        var specialCount: nat := d[specialsAt];
        if |d| < specialsAt + 1 + 4 * specialCount then None
        else
          Some(Message(ParseLocation(d), d[HeaderSize],
                       ParseOffsets(d, HeaderSize + 2, deletionCount),
                       ParseSpecials(d, specialsAt + 1, specialCount)))
  }

  /** Where each field of a parsed packet sits. */
  lemma ParseFields(d: seq<UInt8>)
    requires Parse(d).Some?
    ensures var m := Parse(d).value;
      && HeaderSize + 3 + 2 * |m.deletions| + 4 * |m.specials| <= |d|
      && m.location == ParseLocation(d)
      && d[HeaderSize] == m.areaIndex
      && d[HeaderSize + 1] as int == |m.deletions|
      && d[HeaderSize + 2 + 2 * |m.deletions|] as int == |m.specials|
      && m.deletions == ParseOffsets(d, HeaderSize + 2, |m.deletions|)
      && m.specials == ParseSpecials(d, HeaderSize + 3 + 2 * |m.deletions|, |m.specials|)
  {
  }

  /**
   * The fields after the location header of message `m` start at byte `at` of `d`: the area
   * index, the deletion count and offsets, the special count and entries.
   */
  predicate EntriesAt(d: seq<UInt8>, at: nat, m: Message)
  {
    && at + 3 + 2 * |m.deletions| + 4 * |m.specials| <= |d|
    && d[at] == m.areaIndex
    && d[at + 1] as int == |m.deletions|
    && d[at + 2 + 2 * |m.deletions|] as int == |m.specials|
    && m.deletions == ParseOffsets(d, at + 2, |m.deletions|)
    && m.specials == ParseSpecials(d, at + 3 + 2 * |m.deletions|, |m.specials|)
  }

  /** A packet that parses, starting at byte `base` of a buffer, has its entries behind the header. */
  lemma ParseEntries(buf: seq<UInt8>, base: nat)
    requires base <= |buf| && Parse(buf[base..]).Some?
    ensures EntriesAt(buf, base + HeaderSize, Parse(buf[base..]).value)
  {
    var d := buf[base..];
    var m := Parse(d).value;
    ParseFields(d);
    ParseOffsetsFrom(buf, base, HeaderSize + 2, |m.deletions|);
    ParseSpecialsFrom(buf, base, HeaderSize + 3 + 2 * |m.deletions|, |m.specials|);
  }

  /** `count` unsigned 16-bit offsets starting at byte `at`. */
  function ParseOffsets(d: seq<UInt8>, at: nat, count: nat): (r: seq<UInt16>)
    requires at + 2 * count <= |d|
    ensures |r| == count
  {
    seq(count, k requires 0 <= k < count => U16At(d, at + 2 * k))
  }

  /** `count` (offset, value) pairs starting at byte `at`. */
  function ParseSpecials(d: seq<UInt8>, at: nat, count: nat): (r: seq<Special>)
    requires at + 4 * count <= |d|
    ensures |r| == count
  {
    seq(count, k requires 0 <= k < count => Special(U16At(d, at + 4 * k), S16At(d, at + 4 * k + 2)))
  }

  /** A non-empty special section is its first entry followed by the rest of the section. */
  lemma ParseSpecialsCons(d: seq<UInt8>, at: nat, count: nat)
    requires at + 4 * count <= |d| && count > 0
    ensures ParseSpecials(d, at, count) ==
      [Special(U16At(d, at), S16At(d, at + 2))] + ParseSpecials(d, at + 4, count - 1)
  {
  }

  /** A non-empty deletion section is its first offset followed by the rest of the section. */
  lemma ParseOffsetsCons(d: seq<UInt8>, at: nat, count: nat)
    requires at + 2 * count <= |d| && count > 0
    ensures ParseOffsets(d, at, count) == [U16At(d, at)] + ParseOffsets(d, at + 2, count - 1)
  {
  }

  /** Parsing a suffix of a buffer is parsing the buffer further along. */
  lemma ParseOffsetsFrom(buf: seq<UInt8>, base: nat, at: nat, count: nat)
    requires base <= |buf| && at + 2 * count <= |buf| - base
    ensures ParseOffsets(buf[base..], at, count) == ParseOffsets(buf, base + at, count)
  {
  }

  lemma ParseSpecialsFrom(buf: seq<UInt8>, base: nat, at: nat, count: nat)
    requires base <= |buf| && at + 4 * count <= |buf| - base
    ensures ParseSpecials(buf[base..], at, count) == ParseSpecials(buf, base + at, count)
  {
  }

  lemma {:induction false} OffsetBytesAt(offsets: seq<UInt16>, k: nat)
    requires k < |offsets|
    ensures U16At(OffsetBytes(offsets), 2 * k) == offsets[k]
    decreases |offsets|
  {
    var init := offsets[..|offsets| - 1];
    if k == |offsets| - 1 {
      U16RoundTrip(offsets[k], OffsetBytes(init), []);
      assert OffsetBytes(offsets) == OffsetBytes(init) + U16Bytes(offsets[k]) + [];
    } else {
      OffsetBytesAt(init, k);
      assert init[k] == offsets[k];
      var d := OffsetBytes(offsets);
      assert d[2 * k] == OffsetBytes(init)[2 * k] && d[2 * k + 1] == OffsetBytes(init)[2 * k + 1];
    }
  }

  lemma {:induction false} SpecialBytesAt(specials: seq<Special>, k: nat)
    requires k < |specials|
    ensures U16At(SpecialBytes(specials), 4 * k) == specials[k].offset
    ensures S16At(SpecialBytes(specials), 4 * k + 2) == specials[k].respawnInfo
    decreases |specials|
  {
    var init := specials[..|specials| - 1];
    var d := SpecialBytes(specials);
    if k == |specials| - 1 {
      var sp := specials[k];
      U16RoundTrip(sp.offset, SpecialBytes(init), S16Bytes(sp.respawnInfo));
      S16RoundTrip(sp.respawnInfo, SpecialBytes(init) + U16Bytes(sp.offset), []);
      assert d == SpecialBytes(init) + U16Bytes(sp.offset) + S16Bytes(sp.respawnInfo);
      assert d == (SpecialBytes(init) + U16Bytes(sp.offset)) + S16Bytes(sp.respawnInfo) + [];
    } else {
      SpecialBytesAt(init, k);
      assert init[k] == specials[k];
      assert d[4 * k..4 * k + 4] == SpecialBytes(init)[4 * k..4 * k + 4];
      assert d[4 * k] == SpecialBytes(init)[4 * k] && d[4 * k + 1] == SpecialBytes(init)[4 * k + 1];
      assert d[4 * k + 2] == SpecialBytes(init)[4 * k + 2] && d[4 * k + 3] == SpecialBytes(init)[4 * k + 3];
    }
  }

  lemma U16AtShift(a: seq<UInt8>, b: seq<UInt8>, c: seq<UInt8>, i: nat)
    requires i + 2 <= |b|
    ensures U16At(a + b + c, |a| + i) == U16At(b, i)
  {
    var d := a + b + c;
    assert d[|a| + i] == b[i] && d[|a| + i + 1] == b[i + 1];
  }

  lemma S16AtShift(a: seq<UInt8>, b: seq<UInt8>, c: seq<UInt8>, i: nat)
    requires i + 2 <= |b|
    ensures S16At(a + b + c, |a| + i) == S16At(b, i)
  {
    var d := a + b + c;
    assert d[|a| + i] == b[i] && d[|a| + i + 1] == b[i + 1];
  }

  lemma ParseLocationBytes(loc: Location, rest: seq<UInt8>)
    ensures ParseLocation(LocationBytes(loc) + rest) == loc
  {
    var b0, b1, b2, b3 := S16Bytes(loc.course), S16Bytes(loc.act), S16Bytes(loc.level), S16Bytes(loc.area);
    var d := LocationBytes(loc) + rest;
    S16RoundTrip(loc.course, [], b1 + b2 + b3 + rest);
    S16RoundTrip(loc.act, b0, b2 + b3 + rest);
    S16RoundTrip(loc.level, b0 + b1, b3 + rest);
    S16RoundTrip(loc.area, b0 + b1 + b2, rest);
    assert d == [] + b0 + (b1 + b2 + b3 + rest);
    assert d == b0 + b1 + (b2 + b3 + rest);
    assert d == (b0 + b1) + b2 + (b3 + rest);
    assert d == (b0 + b1 + b2) + b3 + rest;
  }

  /** Where the sections of an encoded message sit. */
  lemma EncodeLayout(m: Message)
    ensures var d := Encode(m);
      var specialsAt := HeaderSize + 2 + 2 * |m.deletions|;
      && |d| == specialsAt + 1 + 4 * |m.specials|
      && d == LocationBytes(m.location) + d[HeaderSize..]
      && d[HeaderSize] == m.areaIndex && d[HeaderSize + 1] == CountByte(|m.deletions|)
      && d[specialsAt] == CountByte(|m.specials|)
  {
  }

  lemma EncodeOffsetsParse(m: Message)
    ensures HeaderSize + 2 + 2 * |m.deletions| <= |Encode(m)|
    ensures ParseOffsets(Encode(m), HeaderSize + 2, |m.deletions|) == m.deletions
  {
    var d := Encode(m);
    var offs := OffsetBytes(m.deletions);
    var head := LocationBytes(m.location) + [m.areaIndex, CountByte(|m.deletions|)];
    var tail := [CountByte(|m.specials|)] + SpecialBytes(m.specials);
    assert d == head + offs + tail;
    forall k | 0 <= k < |m.deletions|
      ensures U16At(d, HeaderSize + 2 + 2 * k) == m.deletions[k]
    {
      OffsetBytesAt(m.deletions, k);
      U16AtShift(head, offs, tail, 2 * k);
    }
  }

  lemma EncodeSpecialsParse(m: Message)
    ensures HeaderSize + 3 + 2 * |m.deletions| + 4 * |m.specials| <= |Encode(m)|
    ensures ParseSpecials(Encode(m), HeaderSize + 3 + 2 * |m.deletions|, |m.specials|) == m.specials
  {
    var d := Encode(m);
    var sps := SpecialBytes(m.specials);
    var front := LocationBytes(m.location) + [m.areaIndex, CountByte(|m.deletions|)]
      + OffsetBytes(m.deletions) + [CountByte(|m.specials|)];
    assert d == front + sps + [];
    forall k | 0 <= k < |m.specials|
      ensures U16At(d, |front| + 4 * k) == m.specials[k].offset
      ensures S16At(d, |front| + 4 * k + 2) == m.specials[k].respawnInfo
    {
      SpecialBytesAt(m.specials, k);
      U16AtShift(front, sps, [], 4 * k);
      S16AtShift(front, sps, [], 4 * k + 2);
    }
  }

  /**
   * Round trip: the receiver reads back exactly what the sender wrote, provided each list fits
   * its one-byte count.
   */
  lemma ParseEncode(m: Message)
    requires |m.deletions| < 0x100 && |m.specials| < 0x100
    ensures Parse(Encode(m)) == Some(m)
  {
    var d := Encode(m);
    EncodeLayout(m);
    ParseLocationBytes(m.location, d[HeaderSize..]);
    assert ParseLocation(d) == m.location;
    EncodeOffsetsParse(m);
    EncodeSpecialsParse(m);
    ParseFromFields(d, m);
  }

  /**
   * A packet carries its message exactly when each list has fewer than 256 entries: with more,
   * a count byte has wrapped and the receiver reads a different message.
   */
  lemma PacketCarriesMessage(m: Message)
    ensures Parse(Encode(m)) == Some(m) <==> |m.deletions| < 0x100 && |m.specials| < 0x100
  {
    if |m.deletions| < 0x100 && |m.specials| < 0x100 {
      ParseEncode(m);
    }
  }

  /** A buffer whose fields each read back as the fields of `m` parses to `m`. */
  lemma ParseFromFields(d: seq<UInt8>, m: Message)
    requires |d| == HeaderSize + 3 + 2 * |m.deletions| + 4 * |m.specials|
    requires ParseLocation(d) == m.location && d[HeaderSize] == m.areaIndex
    requires d[HeaderSize + 1] as int == |m.deletions|
    requires d[HeaderSize + 2 + 2 * |m.deletions|] as int == |m.specials|
    requires ParseOffsets(d, HeaderSize + 2, |m.deletions|) == m.deletions
    requires ParseSpecials(d, HeaderSize + 3 + 2 * |m.deletions|, |m.specials|) == m.specials
    ensures Parse(d) == Some(m)
  {
  }

  /**
   * The packet buffer and its cursor.  `packet_init`, `packet_write` and `packet_read` are
   * external; they are modelled as a fresh empty buffer, an append at the cursor and a copy
   * from the cursor.  The transport header that `packet_init` stamps is not modelled.
   */
  class Packet {
    var buffer: seq<UInt8>
    var cursor: nat

    ghost predicate Valid()
      reads this
    {
      cursor <= |buffer|
    }

    constructor Init()
      ensures Valid() && buffer == [] && cursor == 0
    {
      buffer, cursor := [], 0;
    }

    /** Appends `bytes` at the cursor, which ends up past them. */
    method Write(bytes: seq<UInt8>)
      requires cursor == |buffer|
      modifies this
      ensures buffer == old(buffer) + bytes && cursor == |buffer|
    {
      buffer := buffer + bytes;
      cursor := |buffer|;
    }

    /** Reads one byte. */
    method ReadU8() returns (x: UInt8)
      requires Valid() && cursor + 1 <= |buffer|
      modifies this`cursor
      ensures Valid() && cursor == old(cursor) + 1
      ensures x == buffer[old(cursor)]
    {
      x := buffer[cursor];
      cursor := cursor + 1;
    }

    /** Reads an unsigned 16-bit little-endian value. */
    method ReadU16() returns (x: UInt16)
      requires Valid() && cursor + 2 <= |buffer|
      modifies this`cursor
      ensures Valid() && cursor == old(cursor) + 2
      ensures x == U16At(buffer, old(cursor))
    {
      x := U16At(buffer, cursor);
      cursor := cursor + 2;
    }

    /** Reads a signed 16-bit little-endian value. */
    method ReadS16() returns (x: Int16)
      requires Valid() && cursor + 2 <= |buffer|
      modifies this`cursor
      ensures Valid() && cursor == old(cursor) + 2
      ensures x == S16At(buffer, old(cursor))
    {
      x := S16At(buffer, cursor);
      cursor := cursor + 2;
    }
  }
}
