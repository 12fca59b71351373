/** The control file layouts the reader knows: which version range each one covers,
    and where the four fields it extracts sit inside the record. The concrete sizes and
    offsets of ControlFileData93/94/95 depend on the compiler and platform, so a layout
    here is a descriptor supplied by the caller (a `Catalogue`). */
module Layouts {
  import opened Outcomes
  import opened Bytes
  import VersionResolver

  /** The three record structures, ControlFileData93, ControlFileData94, ControlFileData95. */
  datatype LayoutId = Pg93 | Pg94 | Pg95

  /** The first version number a layout covers. */
  function FirstVersion(id: LayoutId): int
  {
    match id
    case Pg93 => 90300
    case Pg94 => 90400
    case Pg95 => 90500
  }

  /** The first version number past a layout's range; the newest one is open-ended. */
  function EndVersion(id: LayoutId): Option<int>
  {
    match id
    case Pg93 => Some(90400)
    case Pg94 => Some(90500)
    case Pg95 => None
  }

  predicate Covers(id: LayoutId, version: int)
  {
    FirstVersion(id) <= version && (EndVersion(id).None? || version < EndVersion(id).value)
  }

  /** The layout the reader picks for a version number, testing the newest range first
      (controldata.c:200-214 and again at 230-253). For every supported version exactly
      one range covers it, and this is that one. */
  function SelectLayout(version: int): (id: LayoutId)
    requires version >= VersionResolver.OldestSupportedVersion
    ensures Covers(id, version)
    ensures forall other: LayoutId :: Covers(other, version) ==> other == id
  {
    if version >= 90500 then Pg95
    else if version >= 90400 then Pg94
    else Pg93
  }

  /** No range reaches below the oldest supported version. */
  lemma NoLayoutBelowOldest(version: int, id: LayoutId)
    requires version < VersionResolver.OldestSupportedVersion
    ensures !Covers(id, version)
  {
  }

  const SystemIdentifierWidth: nat := 8   // uint64
  const StateWidth: nat := 4              // DBState, an int-sized enum
  const CheckPointWidth: nat := 8         // XLogRecPtr, a uint64 since 9.3
  const DataChecksumVersionWidth: nat := 4 // uint32

  predicate Apart(a: nat, aWidth: nat, b: nat, bWidth: nat)
  {
    a + aWidth <= b || b + bWidth <= a
  }

  /** The byte size of one record structure and the offsets of the four fields. */
  datatype Layout = Layout(
    size: nat,
    systemIdentifierOffset: nat,
    stateOffset: nat,
    checkPointOffset: nat,
    dataChecksumVersionOffset: nat)
  {
    /** Every field lies inside the record and no two fields overlap, as in any C struct. */
    predicate Valid()
    {
      && systemIdentifierOffset + SystemIdentifierWidth <= size
      && stateOffset + StateWidth <= size
      && checkPointOffset + CheckPointWidth <= size
      && dataChecksumVersionOffset + DataChecksumVersionWidth <= size
      && Apart(systemIdentifierOffset, SystemIdentifierWidth, stateOffset, StateWidth)
      && Apart(systemIdentifierOffset, SystemIdentifierWidth, checkPointOffset, CheckPointWidth)
      && Apart(systemIdentifierOffset, SystemIdentifierWidth, dataChecksumVersionOffset, DataChecksumVersionWidth)
      && Apart(stateOffset, StateWidth, checkPointOffset, CheckPointWidth)
      && Apart(stateOffset, StateWidth, dataChecksumVersionOffset, DataChecksumVersionWidth)
      && Apart(checkPointOffset, CheckPointWidth, dataChecksumVersionOffset, DataChecksumVersionWidth)
    }

    /** Whether byte i belongs to one of the four fields. */
    predicate InField(i: nat)
    {
      || systemIdentifierOffset <= i < systemIdentifierOffset + SystemIdentifierWidth
      || stateOffset <= i < stateOffset + StateWidth
      || checkPointOffset <= i < checkPointOffset + CheckPointWidth
      || dataChecksumVersionOffset <= i < dataChecksumVersionOffset + DataChecksumVersionWidth
    }
  }

  /** The descriptors of the three structures as the reader's own compiler lays them out. */
  datatype Catalogue = Catalogue(pg93: Layout, pg94: Layout, pg95: Layout)
  {
    predicate Valid()
    {
      pg93.Valid() && pg94.Valid() && pg95.Valid()
    }

    function Get(id: LayoutId): Layout
    {
      match id
      case Pg93 => pg93
      case Pg94 => pg94
      case Pg95 => pg95
    }
  }

  /** The four values the reader copies out of a record. */
  datatype Fields = Fields(
    systemIdentifier: uint64,
    state: uint32,
    checkPoint: uint64,
    dataChecksumVersion: uint32)

  /** The four fields read at the layout's offsets (the `ptr->field` reads through the
      cast buffer pointer). Nothing else in the record is looked at; in particular its
      CRC is not checked. */
  function DecodeFields(record: seq<byte>, layout: Layout, order: ByteOrder): (f: Fields)
    requires layout.Valid() && layout.size <= |record|
    ensures StoredAt(record, layout.systemIdentifierOffset, 8, f.systemIdentifier as nat, order)
    ensures StoredAt(record, layout.stateOffset, 4, f.state as nat, order)
    ensures StoredAt(record, layout.checkPointOffset, 8, f.checkPoint as nat, order)
    ensures StoredAt(record, layout.dataChecksumVersionOffset, 4, f.dataChecksumVersion as nat, order)
  {
    Fields(
      ReadUInt64(record, layout.systemIdentifierOffset, order),
      ReadUInt32(record, layout.stateOffset, order),
      ReadUInt64(record, layout.checkPointOffset, order),
      ReadUInt32(record, layout.dataChecksumVersionOffset, order))
  }

  /** record with the 64-bit value x stored at offset. */
  function Put64(record: seq<byte>, offset: nat, x: uint64, order: ByteOrder): (r: seq<byte>)
    requires offset + 8 <= |record|
    ensures |r| == |record|
    ensures ReadUInt64(r, offset, order) == x
  {
    Power256Widths();
    var bytes := UnsignedBytes(x as nat, 8, order);
    DecodeEncode(x as nat, 8, order);
    Splice(record, offset, bytes)
  }

  /** record with the 32-bit value x stored at offset. */
  function Put32(record: seq<byte>, offset: nat, x: uint32, order: ByteOrder): (r: seq<byte>)
    requires offset + 4 <= |record|
    ensures |r| == |record|
    ensures ReadUInt32(r, offset, order) == x
  {
    Power256Widths();
    var bytes := UnsignedBytes(x as nat, 4, order);
    DecodeEncode(x as nat, 4, order);
    Splice(record, offset, bytes)
  }

  /** A record that holds the given fields at the layout's offsets and the filler's
      bytes everywhere else: what the engine writes, as far as these four fields go. */
  function EncodeFields(fields: Fields, layout: Layout, order: ByteOrder, filler: seq<byte>): (record: seq<byte>)
    requires layout.Valid() && |filler| == layout.size
    ensures |record| == layout.size
  {
    var r1 := Put64(filler, layout.systemIdentifierOffset, fields.systemIdentifier, order);
    var r2 := Put32(r1, layout.stateOffset, fields.state, order);
    var r3 := Put64(r2, layout.checkPointOffset, fields.checkPoint, order);
    Put32(r3, layout.dataChecksumVersionOffset, fields.dataChecksumVersion, order)
  }

  lemma SliceAgrees(a: seq<byte>, b: seq<byte>, lo: nat, hi: nat)
    requires lo <= hi <= |a| && hi <= |b|
    requires forall i :: lo <= i < hi ==> a[i] == b[i]
    ensures a[lo..hi] == b[lo..hi]
  {
  }

  /** Storing a 64-bit value leaves every slice apart from it as it was. */
  lemma Put64Keeps(record: seq<byte>, offset: nat, x: uint64, order: ByteOrder, lo: nat, width: nat)
    requires offset + 8 <= |record| && lo + width <= |record|
    requires Apart(offset, 8, lo, width)
    ensures Put64(record, offset, x, order)[lo..lo + width] == record[lo..lo + width]
  {
    Power256Widths();
    SpliceKeeps(record, offset, UnsignedBytes(x as nat, 8, order), lo, width);
  }

  /** Storing a 32-bit value leaves every slice apart from it as it was. */
  lemma Put32Keeps(record: seq<byte>, offset: nat, x: uint32, order: ByteOrder, lo: nat, width: nat)
    requires offset + 4 <= |record| && lo + width <= |record|
    requires Apart(offset, 4, lo, width)
    ensures Put32(record, offset, x, order)[lo..lo + width] == record[lo..lo + width]
  {
    Power256Widths();
    SpliceKeeps(record, offset, UnsignedBytes(x as nat, 4, order), lo, width);
  }

  /** A 64-bit read depends only on the eight bytes it reads. */
  lemma Read64Agrees(a: seq<byte>, b: seq<byte>, offset: nat, order: ByteOrder)
    requires offset + 8 <= |a| && offset + 8 <= |b|
    requires a[offset..offset + 8] == b[offset..offset + 8]
    ensures ReadUInt64(a, offset, order) == ReadUInt64(b, offset, order)
  {
  }

  /** A 32-bit read depends only on the four bytes it reads. */
  lemma Read32Agrees(a: seq<byte>, b: seq<byte>, offset: nat, order: ByteOrder)
    requires offset + 4 <= |a| && offset + 4 <= |b|
    requires a[offset..offset + 4] == b[offset..offset + 4]
    ensures ReadUInt32(a, offset, order) == ReadUInt32(b, offset, order)
  {
  }

  /** The system identifier survives the three stores that follow it. */
  lemma EncodedSystemIdentifier(fields: Fields, layout: Layout, order: ByteOrder, filler: seq<byte>)
    requires layout.Valid() && |filler| == layout.size
    ensures ReadUInt64(EncodeFields(fields, layout, order, filler), layout.systemIdentifierOffset, order) == fields.systemIdentifier
  {
    var o1, o2, o3, o4 := layout.systemIdentifierOffset, layout.stateOffset, layout.checkPointOffset, layout.dataChecksumVersionOffset;
    var r1 := Put64(filler, o1, fields.systemIdentifier, order);
    var r2 := Put32(r1, o2, fields.state, order);
    var r3 := Put64(r2, o3, fields.checkPoint, order);
    var r4 := Put32(r3, o4, fields.dataChecksumVersion, order);
    Put32Keeps(r3, o4, fields.dataChecksumVersion, order, o1, 8);
    Put64Keeps(r2, o3, fields.checkPoint, order, o1, 8);
    Put32Keeps(r1, o2, fields.state, order, o1, 8);
    Read64Agrees(r4, r1, o1, order);
  }

  /** The state survives the two stores that follow it. */
  lemma EncodedState(fields: Fields, layout: Layout, order: ByteOrder, filler: seq<byte>)
    requires layout.Valid() && |filler| == layout.size
    ensures ReadUInt32(EncodeFields(fields, layout, order, filler), layout.stateOffset, order) == fields.state
  {
    var o1, o2, o3, o4 := layout.systemIdentifierOffset, layout.stateOffset, layout.checkPointOffset, layout.dataChecksumVersionOffset;
    var r1 := Put64(filler, o1, fields.systemIdentifier, order);
    var r2 := Put32(r1, o2, fields.state, order);
    var r3 := Put64(r2, o3, fields.checkPoint, order);
    var r4 := Put32(r3, o4, fields.dataChecksumVersion, order);
    Put32Keeps(r3, o4, fields.dataChecksumVersion, order, o2, 4);
    Put64Keeps(r2, o3, fields.checkPoint, order, o2, 4);
    Read32Agrees(r4, r2, o2, order);
  }

  /** The checkpoint location survives the store that follows it. */
  lemma EncodedCheckPoint(fields: Fields, layout: Layout, order: ByteOrder, filler: seq<byte>)
    requires layout.Valid() && |filler| == layout.size
    ensures ReadUInt64(EncodeFields(fields, layout, order, filler), layout.checkPointOffset, order) == fields.checkPoint
  {
    var o1, o2, o3, o4 := layout.systemIdentifierOffset, layout.stateOffset, layout.checkPointOffset, layout.dataChecksumVersionOffset;
    var r1 := Put64(filler, o1, fields.systemIdentifier, order);
    var r2 := Put32(r1, o2, fields.state, order);
    var r3 := Put64(r2, o3, fields.checkPoint, order);
    var r4 := Put32(r3, o4, fields.dataChecksumVersion, order);
    Put32Keeps(r3, o4, fields.dataChecksumVersion, order, o3, 8);
    Read64Agrees(r4, r3, o3, order);
  }

  /** Decoding a record built from four values gives those values back, whatever the
      other bytes of the record hold. */
  lemma DecodeEncodeFields(fields: Fields, layout: Layout, order: ByteOrder, filler: seq<byte>)
    requires layout.Valid() && |filler| == layout.size
    ensures DecodeFields(EncodeFields(fields, layout, order, filler), layout, order) == fields
  {
    EncodedSystemIdentifier(fields, layout, order, filler);
    EncodedState(fields, layout, order, filler);
    EncodedCheckPoint(fields, layout, order, filler);
  }

  /** Only the bytes of the four fields matter: two records that agree on them decode
      alike, however much the rest (the CRC among it) differs. */
  lemma DecodeReadsOnlyFields(r1: seq<byte>, r2: seq<byte>, layout: Layout, order: ByteOrder)
    requires layout.Valid() && layout.size <= |r1| && layout.size <= |r2|
    requires forall i :: 0 <= i < layout.size && layout.InField(i) ==> r1[i] == r2[i]
    ensures DecodeFields(r1, layout, order) == DecodeFields(r2, layout, order)
  {
    var l := layout;
    var o1, o2, o3, o4 := l.systemIdentifierOffset, l.stateOffset, l.checkPointOffset, l.dataChecksumVersionOffset;
    SliceAgrees(r1, r2, o1, o1 + 8);
    Read64Agrees(r1, r2, o1, order);
    SliceAgrees(r1, r2, o2, o2 + 4);
    Read32Agrees(r1, r2, o2, order);
    SliceAgrees(r1, r2, o3, o3 + 8);
    Read64Agrees(r1, r2, o3, order);
    SliceAgrees(r1, r2, o4, o4 + 4);
    Read32Agrees(r1, r2, o4, order);
  }

  /** Bytes past the end of the layout's record never matter. */
  lemma DecodeIgnoresTail(record: seq<byte>, layout: Layout, order: ByteOrder)
    requires layout.Valid() && layout.size <= |record|
    ensures DecodeFields(record[..layout.size], layout, order) == DecodeFields(record, layout, order)
  {
    DecodeReadsOnlyFields(record[..layout.size], record, layout, order);
  }
}
