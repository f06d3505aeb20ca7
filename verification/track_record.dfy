/** The 28-byte record a segment saves and loads: its unique id and its
    successor's id as little-endian two's-complement `Int32`s (the way
    .NET's `BinaryWriter` writes them), the guide's 16 rotation bytes, the
    track type byte, and three reserved zero bytes (a byte and an
    `Int16`). */
module TrackRecord {
  import opened Base
  import opened TrackWorld
  import opened TrackSegments
  import opened SegmentLifecycle

  const RecordSize: nat := 28

  const Int16Min: int := -0x8000
  const Int16Max: int := 0x7FFF

  // ------------------------------------------------------------- integers

  /** `BinaryWriter.Write(int)`: four bytes, least significant first, of
      the value modulo 2^32. */
  function Int32Bytes(x: int): (r: seq<byte>)
    requires Int32Min <= x <= Int32Max
    ensures |r| == 4
  {
    var u := if x < 0 then x + 0x1_0000_0000 else x;
    [(u % 256) as byte, (u / 0x100 % 256) as byte, (u / 0x1_0000 % 256) as byte, (u / 0x100_0000) as byte]
  }

  /** `BinaryReader.ReadInt32` on four bytes. */
  function Int32Of(b: seq<byte>): (r: int)
    requires |b| == 4
    ensures Int32Min <= r <= Int32Max
  {
    var u := b[0] as int + 0x100 * b[1] as int + 0x1_0000 * b[2] as int + 0x100_0000 * b[3] as int;
    if u >= 0x8000_0000 then u - 0x1_0000_0000 else u
  }

  /** Reading back what was written gives the value ... */
  lemma Int32RoundTrip(x: int)
    requires Int32Min <= x <= Int32Max
    ensures Int32Of(Int32Bytes(x)) == x
  {
    var u := if x < 0 then x + 0x1_0000_0000 else x;
    DigitsRecompose(u);
  }

  /** ... and writing back what was read gives the bytes. */
  lemma Int32BytesRoundTrip(b: seq<byte>)
    requires |b| == 4
    ensures Int32Bytes(Int32Of(b)) == b
  {
    var u := b[0] as int + 0x100 * b[1] as int + 0x1_0000 * b[2] as int + 0x100_0000 * b[3] as int;
    DigitsSplit(b[0] as int, b[1] as int, b[2] as int, b[3] as int);
    assert Int32Of(b) == (if u >= 0x8000_0000 then u - 0x1_0000_0000 else u);
  }

  /** Base-256 digits recompose the number. */
  lemma DigitsRecompose(u: int)
    requires 0 <= u < 0x1_0000_0000
    ensures u % 256 + 0x100 * (u / 0x100 % 256) + 0x1_0000 * (u / 0x1_0000 % 256) + 0x100_0000 * (u / 0x100_0000) == u
    ensures u / 0x100_0000 < 256
  {
    var q1 := u / 0x100;
    var q2 := q1 / 0x100;
    var q3 := q2 / 0x100;
    var lo2 := u % 0x100 + 0x100 * (q1 % 0x100);
    assert u == lo2 + 0x1_0000 * q2;
    SplitAt(lo2, q2, 0x1_0000);
    var lo3 := lo2 + 0x1_0000 * (q2 % 0x100);
    assert u == lo3 + 0x100_0000 * q3;
    SplitAt(lo3, q3, 0x100_0000);
  }

  /** A number assembled from base-256 digits gives those digits back. */
  lemma DigitsSplit(d0: int, d1: int, d2: int, d3: int)
    requires 0 <= d0 < 256 && 0 <= d1 < 256 && 0 <= d2 < 256 && 0 <= d3 < 256
    ensures var u := d0 + 0x100 * d1 + 0x1_0000 * d2 + 0x100_0000 * d3;
            && u % 256 == d0 && u / 0x100 % 256 == d1 && u / 0x1_0000 % 256 == d2 && u / 0x100_0000 == d3
  {
    var u := d0 + 0x100 * d1 + 0x1_0000 * d2 + 0x100_0000 * d3;
    SplitAt(d0, d1 + 0x100 * d2 + 0x1_0000 * d3, 0x100);
    SplitAt(d1, d2 + 0x100 * d3, 0x100);
    SplitAt(d0 + 0x100 * d1, d2 + 0x100 * d3, 0x1_0000);
    SplitAt(d2, d3, 0x100);
    SplitAt(d0 + 0x100 * d1 + 0x1_0000 * d2, d3, 0x100_0000);
  }

  /** Division by a power of 256 separates the low part from the high. */
  lemma SplitAt(lo: int, hi: int, b: int)
    requires b == 0x100 || b == 0x1_0000 || b == 0x100_0000
    requires 0 <= lo < b
    ensures (lo + b * hi) % b == lo && (lo + b * hi) / b == hi
  {
    if b == 0x100 {
      assert (lo + 0x100 * hi) % 0x100 == lo && (lo + 0x100 * hi) / 0x100 == hi;
    } else if b == 0x1_0000 {
      assert (lo + 0x1_0000 * hi) % 0x1_0000 == lo && (lo + 0x1_0000 * hi) / 0x1_0000 == hi;
    } else {
      assert (lo + 0x100_0000 * hi) % 0x100_0000 == lo && (lo + 0x100_0000 * hi) / 0x100_0000 == hi;
    }
  }

  /** `BinaryWriter.Write(short)`: two bytes, least significant first. */
  function Int16Bytes(x: int): (r: seq<byte>)
    requires Int16Min <= x <= Int16Max
    ensures |r| == 2
  {
    var u := if x < 0 then x + 0x1_0000 else x;
    [(u % 256) as byte, (u / 256) as byte]
  }

  /** `BinaryReader.ReadInt16` on two bytes. */
  function Int16Of(b: seq<byte>): (r: int)
    requires |b| == 2
    ensures Int16Min <= r <= Int16Max
  {
    var u := b[0] as int + 256 * b[1] as int;
    if u >= 0x8000 then u - 0x1_0000 else u
  }

  lemma Int16RoundTrip(x: int)
    requires Int16Min <= x <= Int16Max
    ensures Int16Of(Int16Bytes(x)) == x
  {
  }

  // --------------------------------------------------------------- record

  /** The saved fields of one segment. */
  datatype Record = Record(id: int, nextId: int, rotation: RotationBytes, trackType: byte)

  predicate ValidRecord(rec: Record) {
    Int32Min <= rec.id <= Int32Max && Int32Min <= rec.nextId <= Int32Max
  }

  /** `OnSave`'s byte layout. */
  function Encode(rec: Record): (r: seq<byte>)
    requires ValidRecord(rec)
    ensures |r| == RecordSize
    ensures r[8..24] == rec.rotation && r[24] == rec.trackType
    ensures r[25..] == [0, 0, 0]
  {
    Int32Bytes(rec.id) + Int32Bytes(rec.nextId) + rec.rotation + [rec.trackType, 0] + Int16Bytes(0)
  }

  /** The errors loading can throw. */
  datatype LoadError = EndOfStream | Registry(cause: SegmentError)

  /** The fields `OnLoad` reads from the front of the stream, the reserved
      bytes skipped; a stream shorter than a record ends the read. */
  function Decode(data: seq<byte>): (r: Result<Record, LoadError>)
    ensures r.Err? <==> |data| < RecordSize
    ensures r.Ok? ==> ValidRecord(r.value)
  {
    if |data| < RecordSize then Err(EndOfStream)
    else Ok(Record(Int32Of(data[0..4]), Int32Of(data[4..8]), data[8..24], data[24]))
  }

  /** Loading a saved record gives back its fields, whatever follows it in
      the stream. */
  lemma DecodeEncode(rec: Record, rest: seq<byte>)
    requires ValidRecord(rec)
    ensures Decode(Encode(rec) + rest) == Ok(rec)
  {
    var b := Encode(rec) + rest;
    assert b[0..4] == Int32Bytes(rec.id);
    assert b[4..8] == Int32Bytes(rec.nextId);
    assert b[8..24] == rec.rotation && b[24] == rec.trackType;
    Int32RoundTrip(rec.id);
    Int32RoundTrip(rec.nextId);
  }

  /** A 28-byte stream with zero reserved bytes is the record it decodes
      to. */
  lemma EncodeDecode(data: seq<byte>)
    requires |data| == RecordSize && data[25..] == [0, 0, 0]
    ensures Decode(data).Ok? && Encode(Decode(data).value) == data
  {
    Int32BytesRoundTrip(data[0..4]);
    Int32BytesRoundTrip(data[4..8]);
    var e := Encode(Decode(data).value);
    assert e[0..4] == data[0..4] && e[4..8] == data[4..8] && e[8..24] == data[8..24];
    assert e[24..] == data[24..];
    assert e == e[0..4] + e[4..8] + e[8..24] + e[24..];
    assert data == data[0..4] + data[4..8] + data[8..24] + data[24..];
  }

  // ----------------------------------------------------------------- save

  /** `Next?.UniqueId ?? -1`. */
  function NextIdOf(w: World, n: Option<SegId>): (r: Result<(World, int), SegmentError>)
    requires n.Some? ==> n.value in w.segs
    requires Int32Min <= w.nextUniqueId <= Int32Max
    ensures n.None? ==> r == Ok((w, -1))
    ensures n.Some? ==> r == UniqueId(w, n.value)
    ensures r.Ok? ==> r.value.0.segs.Keys == w.segs.Keys
  {
    if n.None? then Ok((w, -1)) else UniqueId(w, n.value)
  }

  /** The record `OnSave` writes: the segment's id (assigned now if it
      has none), its successor's id (the getter resolving a pending id
      first, and the successor's id assigned now if it has none) or -1,
      the rotation and the type. */
  function SavedRecord(w: World, s: SegId): (r: Result<(World, Record), SegmentError>)
    requires s in w.segs && Closed(w) && RegistryClosed(w)
    requires Int32Min <= w.nextUniqueId <= Int32Max
    ensures r.Ok? ==> ValidRecord(r.value.1)
  {
    match UniqueId(w, s)
    case Err(e) => Err(e)
    case Ok((w1, id)) =>
      UniqueIdKeepsClosed(w, s);
      var (w2, n) := GetNext(w1, s);
      match NextIdOf(w2, n)
      case Err(e) => Err(e)
      case Ok((w3, nid)) =>
        assert s in w3.segs;
        Ok((w3, Record(id, nid, w3.segs[s].rotation, w3.segs[s].trackType)))
  }

  /** The saved record holds the id the getter gives, the rotation and
      the type, and the id of the segment the next-getter returns, or -1
      when there is none. */
  lemma SavedRecordFields(w: World, s: SegId)
    requires s in w.segs && Closed(w) && RegistryClosed(w)
    requires Int32Min <= w.nextUniqueId <= Int32Max
    requires SavedRecord(w, s).Ok?
    ensures var (u, rec) := SavedRecord(w, s).value;
            && UniqueId(w, s).Ok? && rec.id == UniqueId(w, s).value.1
            && (w.segs[s].uniqueId != -1 ==> rec.id == w.segs[s].uniqueId)
            && rec.rotation == w.segs[s].rotation && rec.trackType == w.segs[s].trackType
            && s in u.links && u.links.Keys == w.links.Keys
            && (u.links[s].next.None? ==> rec.nextId == -1)
            && (u.links[s].next.Some? ==>
                  u.links[s].next.value in u.segs && rec.nextId == u.segs[u.links[s].next.value].uniqueId)
  {
    var (w1, id) := UniqueId(w, s).value;
    UniqueIdKeepsClosed(w, s);
    var (w2, n) := GetNext(w1, s);
    assert w2.segs[s].rotation == w.segs[s].rotation && w2.segs[s].trackType == w.segs[s].trackType;
    var (u, rec) := SavedRecord(w, s).value;
    if n.Some? {
      assert n.value in w2.segs;
      var (w3, nid) := UniqueId(w2, n.value).value;
      assert u == w3;
      assert SameButIds(w2, w3);
    } else {
      assert u == w2;
    }
  }

  /** `OnSave`: the saved record's 28 bytes. */
  function OnSave(w: World, s: SegId): (r: Result<(World, seq<byte>), SegmentError>)
    requires s in w.segs && Closed(w) && RegistryClosed(w)
    requires Int32Min <= w.nextUniqueId <= Int32Max
    ensures r.Ok? <==> SavedRecord(w, s).Ok?
    ensures r.Ok? ==> |r.value.1| == RecordSize && Decode(r.value.1) == Ok(SavedRecord(w, s).value.1)
  {
    match SavedRecord(w, s)
    case Err(e) => Err(e)
    case Ok((u, rec)) =>
      DecodeEncode(rec, []);
      assert Encode(rec) + [] == Encode(rec);
      Ok((u, Encode(rec)))
  }

  // ----------------------------------------------------------------- load

  /** The fields `OnLoad` stores, the registry entry it adds and the
      counter it bumps past the loaded id (wrapping like a C# `int`). */
  function Install(w: World, s: SegId, rec: Record): (r: World)
    requires s in w.segs && Closed(w) && ValidRecord(rec)
    requires Int32Min <= w.nextUniqueId <= Int32Max
    ensures Closed(r) && Int32Min <= r.nextUniqueId <= Int32Max
    ensures r.segs.Keys == w.segs.Keys
    ensures r.segs[s] == w.segs[s].(uniqueId := rec.id, nextId := rec.nextId,
                                     rotation := rec.rotation, trackType := rec.trackType)
    ensures r.registry == w.registry[rec.id := s]
    ensures w.nextUniqueId <= rec.id < Int32Max ==> r.nextUniqueId == rec.id + 1
    ensures rec.id < w.nextUniqueId ==> r.nextUniqueId == w.nextUniqueId
  {
    w.(segs := w.segs[s := w.segs[s].(uniqueId := rec.id, nextId := rec.nextId,
                                      rotation := rec.rotation, trackType := rec.trackType)],
       registry := w.registry[rec.id := s],
       nextUniqueId := if w.nextUniqueId <= rec.id then Int32Increment(rec.id) else w.nextUniqueId)
  }

  /** `OnLoad`: read the two ids, register the segment under its id
      (throwing on a taken id), bump the counter, read the rotation, the
      type and the reserved bytes, then `UpdateTransform()`. A stream that
      ends early throws where the read runs out. */
  function OnLoad(w: World, s: SegId, data: seq<byte>): (r: Result<World, LoadError>)
    requires s in w.segs && Closed(w)
    requires Int32Min <= w.nextUniqueId <= Int32Max
    ensures |data| < 8 ==> r == Err(EndOfStream)
    ensures |data| >= 8 && Int32Of(data[0..4]) in w.registry ==> r == Err(Registry(DuplicateKey(Int32Of(data[0..4]))))
    ensures |data| >= 8 && Int32Of(data[0..4]) !in w.registry && |data| < RecordSize ==> r == Err(EndOfStream)
    ensures r.Ok? ==> Closed(r.value) && r.value.links == w.links
  {
    if |data| < 8 then Err(EndOfStream)
    else
      var id := Int32Of(data[0..4]);
      if id in w.registry then Err(Registry(DuplicateKey(id)))
      else
        match Decode(data)
        case Err(e) => Err(e)
        case Ok(rec) =>
          match UpdateTransform(Install(w, s, rec), s)
          case Err(e) => Err(Registry(e))
          case Ok(u) => Ok(u)
  }

  /** Saving a segment and loading the bytes into a segment of another
      world restores the id, the successor id, the rotation and the type,
      and registers the id, as long as the id is free there. */
  lemma SaveLoadRoundTrip(w: World, s: SegId, v: World, t: SegId)
    requires s in w.segs && Closed(w) && RegistryClosed(w)
    requires Int32Min <= w.nextUniqueId <= Int32Max
    requires SavedRecord(w, s).Ok?
    requires t in v.segs && Closed(v) && Int32Min <= v.nextUniqueId <= Int32Max
    requires SavedRecord(w, s).value.1.id !in v.registry
    requires SavedRecord(w, s).value.1.id != -1
    ensures var rec := SavedRecord(w, s).value.1;
            var bytes := OnSave(w, s).value.1;
            && OnLoad(v, t, bytes).Ok?
            && var u := OnLoad(v, t, bytes).value;
            && u.segs[t].uniqueId == rec.id
            && u.segs[t].nextId == rec.nextId
            && u.segs[t].rotation == w.segs[s].rotation
            && u.segs[t].trackType == w.segs[s].trackType
            && rec.id in u.registry && u.registry[rec.id] == t
  {
    var bytes := OnSave(w, s).value.1;
    var rec := SavedRecord(w, s).value.1;
    assert Decode(bytes) == Ok(rec);
    assert Int32Of(bytes[0..4]) == rec.id;
    var v1 := Install(v, t, rec);
    assert v1.segs[t].uniqueId == rec.id;
  }

  /** Loading keeps every registered id below the counter (the id it
      registers is below the bumped counter) and every id naming a
      segment. */
  lemma OnLoadKeepsRegistry(w: World, s: SegId, data: seq<byte>)
    requires s in w.segs && Closed(w) && RegistryBelow(w) && RegistryClosed(w)
    requires OnLoad(w, s, data).Ok?
    requires Int32Of(data[0..4]) != -1 && Int32Of(data[0..4]) < Int32Max
    ensures RegistryBelow(OnLoad(w, s, data).value) && RegistryClosed(OnLoad(w, s, data).value)
  {
    var rec := Decode(data).value;
    var v1 := Install(w, s, rec);
    assert RegistryBelow(v1);
  }
}
