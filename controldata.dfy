/** Reading a data directory's control file across engine versions (controldata.c):
    the version in PG_VERSION picks one of three record layouts, the record is read in
    one go, and four fields are copied out; every failure yields a fixed default record.
    The two files are inputs here: `None` stands for a file that cannot be opened. */
module ControlData {
  import opened Outcomes
  import opened Bytes
  import opened VersionResolver
  import opened Layouts

  // The DBState codes, stable across every supported engine version.
  const DbStartup: uint32 := 0
  const DbShutdowned: uint32 := 1
  const DbShutdownedInRecovery: uint32 := 2
  const DbShutdowning: uint32 := 3
  const DbInCrashRecovery: uint32 := 4
  const DbInArchiveRecovery: uint32 := 5
  const DbInProduction: uint32 := 6

  const UnknownSystemIdentifier: uint64 := 0
  const InvalidXLogRecPtr: uint64 := 0

  /** The reader's result record (ControlFileInfo). The checksum version is held as the
      32-bit unsigned value of the on-disk field. */
  datatype ControlFileInfo = ControlFileInfo(
    processed: bool,
    systemIdentifier: uint64,
    state: uint32,
    checkPoint: uint64,
    dataChecksumVersion: uint32)

  /** The record every failed read hands back (controldata.c:140-144); the checksum
      version's -1 lands in its unsigned field as 0xFFFF_FFFF. */
  const Default := ControlFileInfo(false, UnknownSystemIdentifier, DbShutdowned, InvalidXLogRecPtr, Int32ToUInt32(-1))

  /** The two files the reader looks at: <dir>/PG_VERSION and <dir>/global/pg_control. */
  datatype DataDirectory = DataDirectory(pgVersion: Option<seq<char>>, pgControl: Option<seq<byte>>)

  /** The record a full read produced, and the layout it was read for. */
  datatype Record = Record(layout: Layout, bytes: seq<byte>)

  /** The result record together with the exit the reader took. */
  datatype Reading = Reading(info: ControlFileInfo, status: Status)

  /** The bytes one read of `count` bytes returns from a file of this content. */
  function ReadPrefix(file: seq<byte>, count: nat): (r: seq<byte>)
    ensures |r| == if |file| < count then |file| else count
    ensures r == file[..|r|]
  {
    if |file| < count then file else file[..count]
  }

  /** Everything the reader does before decoding: resolve the version, open the control
      file, pick the layout, read that many bytes. */
  function ReadRecord(dir: DataDirectory, cat: Catalogue): (r: Result<Record, Status>)
    requires cat.Valid()
    ensures r.Success? ==> r.value.layout.Valid() && |r.value.bytes| == r.value.layout.size
    ensures r.Success? ==> ResolveVersion(dir.pgVersion).Success?
                           && r.value.layout == cat.Get(SelectLayout(ResolveVersion(dir.pgVersion).value))
    ensures r.Success? ==> dir.pgControl.Some? && r.value.layout.size <= |dir.pgControl.value|
    ensures r.Success? ==> r.value.bytes == dir.pgControl.value[..r.value.layout.size]
    ensures r.Failure? ==> r.error != Processed
  {
    match ResolveVersion(dir.pgVersion)
    case Failure(e) => Failure(e)
    case Success(version) =>
      match dir.pgControl
      case None => Failure(ControlFileUnreadable)
      case Some(file) =>
        var layout := cat.Get(SelectLayout(version));
        var bytes := ReadPrefix(file, layout.size);
        if |bytes| != layout.size then Failure(ControlFileTruncated)
        else Success(Record(layout, bytes))
  }

  /** The result record built from a record's four fields. */
  function FromFields(fields: Fields): (info: ControlFileInfo)
    ensures info.processed
  {
    ControlFileInfo(true, fields.systemIdentifier, fields.state, fields.checkPoint, fields.dataChecksumVersion)
  }

  /** What get_controlfile hands back for a data directory: either a processed record
      with the decoded fields, or the default record and the exit that was taken. */
  function ControlFile(dir: DataDirectory, cat: Catalogue, order: ByteOrder): (r: Reading)
    requires cat.Valid()
    ensures r.info.processed <==> r.status == Processed
    ensures r.status != Processed ==> r.info == Default
  {
    match ReadRecord(dir, cat)
    case Failure(e) => Reading(Default, e)
    case Success(record) => Reading(FromFields(DecodeFields(record.bytes, record.layout, order)), Processed)
  }

  /** Every exit before the decode hands back the default record. */
  lemma EarlyExit(dir: DataDirectory, cat: Catalogue, order: ByteOrder, e: Status)
    requires cat.Valid() && ReadRecord(dir, cat) == Failure(e)
    ensures ControlFile(dir, cat, order) == Reading(Default, e)
  {
  }

  /** The full read hands back the decoded record. */
  lemma FullRead(dir: DataDirectory, cat: Catalogue, order: ByteOrder, record: Record)
    requires cat.Valid() && ReadRecord(dir, cat) == Success(record)
    ensures ControlFile(dir, cat, order) == Reading(FromFields(DecodeFields(record.bytes, record.layout, order)), Processed)
  {
  }

  /** A control file at least as long as the selected layout is read in full. */
  lemma FullRecord(dir: DataDirectory, cat: Catalogue, version: int, file: seq<byte>)
    requires cat.Valid()
    requires ResolveVersion(dir.pgVersion) == Success(version) && dir.pgControl == Some(file)
    requires |file| >= cat.Get(SelectLayout(version)).size
    ensures ReadRecord(dir, cat) == Success(Record(cat.Get(SelectLayout(version)), file[..cat.Get(SelectLayout(version)).size]))
  {
  }

  /** read(2) of count bytes into the buffer: the first min(|file|, count) bytes
      of the file land at the front of the buffer, the rest of it stays as it was. */
  method ReadInto(file: seq<byte>, buffer: array<byte>, count: nat) returns (n: nat)
    requires count <= buffer.Length
    modifies buffer
    ensures n == |ReadPrefix(file, count)|
    ensures buffer[..n] == ReadPrefix(file, count)
    ensures buffer[n..] == old(buffer[n..])
  {
    n := if |file| < count then |file| else count;
    forall i | 0 <= i < n {
      buffer[i] := file[i];
    }
  }

  /** The two strtol calls of controldata.c:174-180: the major part, then the minor part
      when the end pointer stops at '.'. */
  method ParseVersionToken(versionString: seq<char>) returns (versionNum: int)
    ensures versionNum == VersionNumber(versionString)
  {
    var major := StrToL(versionString, 0);
    var endptr := major.end;
    var minor := 0;
    if CharAt(versionString, endptr) == '.' {
      minor := StrToL(versionString, endptr + 1).value;
    }
    versionNum := major.value * 10000 + minor * 100;
  }

  /** The marker part of get_controlfile (controldata.c:146-186): open PG_VERSION, scan
      one token, parse it with strtol, and turn away versions below 9.3. */
  method ReadVersionNumber(marker: Option<seq<char>>) returns (r: Result<int, Status>)
    ensures r == ResolveVersion(marker)
  {
    if marker.None? {
      return Failure(MarkerUnreadable);
    }

    var token := ScanToken(marker.value);
    var endptr: Option<nat> := None;  // still NULL when it is tested below
    if token.None? || endptr == Some(0) {
      return Failure(VersionUnparseable);
    }

    var versionNum := ParseVersionToken(token.value);
    if versionNum < 90300 {
      return Failure(VersionUnsupported);
    }
    return Success(versionNum);
  }

  /** get_controlfile (controldata.c:123-266): fill in the defaults, then take the
      first failing exit or fill in the decoded fields. */
  method GetControlFile(dir: DataDirectory, cat: Catalogue, order: ByteOrder)
    returns (info: ControlFileInfo, status: Status)
    requires cat.Valid()
    ensures Reading(info, status) == ControlFile(dir, cat, order)
  {
    info := ControlFileInfo(false, 0, 0, 0, 0);
    info := info.(processed := false);
    info := info.(systemIdentifier := UnknownSystemIdentifier);
    info := info.(state := DbShutdowned);
    info := info.(checkPoint := InvalidXLogRecPtr);
    info := info.(dataChecksumVersion := Int32ToUInt32(-1));
    assert info == Default;

    var version := ReadVersionNumber(dir.pgVersion);
    if version.Failure? {
      status := version.error;
      EarlyExit(dir, cat, order, status);
      return;
    }
    var versionNum := version.value;

    if dir.pgControl.None? {
      status := ControlFileUnreadable;
      EarlyExit(dir, cat, order, status);
      return;
    }
    var file := dir.pgControl.value;
    ghost var layout := cat.Get(SelectLayout(versionNum));

    var expectedSize := 0;
    var buffer: array?<byte> := null;
    if versionNum >= 90500 {
      expectedSize := cat.pg95.size;
      buffer := new byte[expectedSize];
    } else if versionNum >= 90400 {
      expectedSize := cat.pg94.size;
      buffer := new byte[expectedSize];
    } else if versionNum >= 90300 {
      expectedSize := cat.pg93.size;
      buffer := new byte[expectedSize];
    }

    assert expectedSize == layout.size && buffer != null && buffer.Length == expectedSize;
    var bytesRead := ReadInto(file, buffer, expectedSize);
    if bytesRead != expectedSize {
      status := ControlFileTruncated;
      assert ReadRecord(dir, cat) == Failure(ControlFileTruncated);
      EarlyExit(dir, cat, order, status);
      return;
    }

    info := info.(processed := true);
    var record := buffer[..];
    assert record == file[..expectedSize] by {
      assert record == buffer[..bytesRead];
      assert buffer[..bytesRead] == ReadPrefix(file, expectedSize);
    }
    FullRecord(dir, cat, versionNum, file);

    // The buffer is read as the structure of the same version range as above.
    var structure :=
      if versionNum >= 90500 then cat.pg95
      else if versionNum >= 90400 then cat.pg94
      else cat.pg93;
    assert structure == layout;
    var fields := DecodeFields(record, structure, order);
    info := info.(systemIdentifier := fields.systemIdentifier);
    info := info.(state := fields.state);
    info := info.(checkPoint := fields.checkPoint);
    info := info.(dataChecksumVersion := fields.dataChecksumVersion);
    assert info == FromFields(DecodeFields(record, layout, order));
    status := Processed;
    FullRead(dir, cat, order, Record(layout, record));
  }

  // ---------------------------------------------------------------------------
  // The accessors (controldata.c:33-92): one field each of the reader's result.

  function GetSystemIdentifier(dir: DataDirectory, cat: Catalogue, order: ByteOrder): (id: uint64)
    requires cat.Valid()
    ensures ReadRecord(dir, cat).Failure? ==> id == UnknownSystemIdentifier
    ensures ReadRecord(dir, cat).Success? ==>
      var record := ReadRecord(dir, cat).value;
      id == ReadUInt64(record.bytes, record.layout.systemIdentifierOffset, order)
  {
    ControlFile(dir, cat, order).info.systemIdentifier
  }

  function GetDbState(dir: DataDirectory, cat: Catalogue, order: ByteOrder): (state: uint32)
    requires cat.Valid()
    ensures ReadRecord(dir, cat).Failure? ==> state == DbShutdowned
    ensures ReadRecord(dir, cat).Success? ==>
      var record := ReadRecord(dir, cat).value;
      state == ReadUInt32(record.bytes, record.layout.stateOffset, order)
  {
    ControlFile(dir, cat, order).info.state
  }

  function GetLatestCheckpointLocation(dir: DataDirectory, cat: Catalogue, order: ByteOrder): (location: uint64)
    requires cat.Valid()
    ensures ReadRecord(dir, cat).Failure? ==> location == InvalidXLogRecPtr
    ensures ReadRecord(dir, cat).Success? ==>
      var record := ReadRecord(dir, cat).value;
      location == ReadUInt64(record.bytes, record.layout.checkPointOffset, order)
  {
    ControlFile(dir, cat, order).info.checkPoint
  }

  /** The checksum version as a C int: -1 when nothing was read, otherwise the on-disk
      32-bit field reinterpreted as signed. */
  function GetDataChecksumVersion(dir: DataDirectory, cat: Catalogue, order: ByteOrder): (version: int32)
    requires cat.Valid()
    ensures ReadRecord(dir, cat).Failure? ==> version == -1
    ensures ReadRecord(dir, cat).Success? ==>
      var record := ReadRecord(dir, cat).value;
      version == UInt32ToInt32(ReadUInt32(record.bytes, record.layout.dataChecksumVersionOffset, order))
  {
    UInt32ToInt32(ControlFile(dir, cat, order).info.dataChecksumVersion)
  }

  // ---------------------------------------------------------------------------
  // describe_db_state (controldata.c:95-116)

  const UnrecognizedStatus := "unrecognized status code"

  predicate IsKnownState(state: uint32)
  {
    state <= DbInProduction
  }

  function DescribeDbState(state: uint32): (phrase: string)
    ensures phrase == UnrecognizedStatus <==> !IsKnownState(state)
    ensures |phrase| > 0
  {
    if state == DbStartup then "starting up"
    else if state == DbShutdowned then "shut down"
    else if state == DbShutdownedInRecovery then "shut down in recovery"
    else if state == DbShutdowning then "shutting down"
    else if state == DbInCrashRecovery then "in crash recovery"
    else if state == DbInArchiveRecovery then "in archive recovery"
    else if state == DbInProduction then "in production"
    else UnrecognizedStatus
  }

  /** Each of the seven states has a phrase of its own. */
  lemma DescribeDbStateDistinct(a: uint32, b: uint32)
    requires IsKnownState(a) && IsKnownState(b) && a != b
    ensures DescribeDbState(a) != DescribeDbState(b)
  {
  }

  // ---------------------------------------------------------------------------
  // Properties of the reader

  /** The record is processed exactly when the version resolves, the control file opens
      and the read returns the full size of the layout the version selects. */
  lemma ProcessedIffFullRead(dir: DataDirectory, cat: Catalogue, order: ByteOrder)
    requires cat.Valid()
    ensures ControlFile(dir, cat, order).info.processed <==>
      && ResolveVersion(dir.pgVersion).Success?
      && dir.pgControl.Some?
      && |dir.pgControl.value| >= cat.Get(SelectLayout(ResolveVersion(dir.pgVersion).value)).size
  {
  }

  /** A processed record holds the four fields of the selected layout read straight
      from the control file. */
  lemma ProcessedFieldsDecoded(dir: DataDirectory, cat: Catalogue, order: ByteOrder, version: int, file: seq<byte>)
    requires cat.Valid()
    requires ResolveVersion(dir.pgVersion) == Success(version) && dir.pgControl == Some(file)
    requires |file| >= cat.Get(SelectLayout(version)).size
    ensures ControlFile(dir, cat, order) == Reading(FromFields(DecodeFields(file, cat.Get(SelectLayout(version)), order)), Processed)
  {
    var layout := cat.Get(SelectLayout(version));
    DecodeIgnoresTail(file, layout, order);
  }

  /** A short control file gives the default record, never a partly decoded one. */
  lemma ShortReadGivesDefault(dir: DataDirectory, cat: Catalogue, order: ByteOrder, version: int, file: seq<byte>)
    requires cat.Valid()
    requires ResolveVersion(dir.pgVersion) == Success(version) && dir.pgControl == Some(file)
    requires |file| < cat.Get(SelectLayout(version)).size
    ensures ControlFile(dir, cat, order) == Reading(Default, ControlFileTruncated)
  {
  }

  /** A supported version with a control file that cannot be opened gives the default
      record. */
  lemma UnopenableControlFileGivesDefault(marker: Option<seq<char>>, cat: Catalogue, order: ByteOrder)
    requires cat.Valid() && ResolveVersion(marker).Success?
    ensures ControlFile(DataDirectory(marker, None), cat, order) == Reading(Default, ControlFileUnreadable)
  {
  }

  /** When the version cannot be resolved the control file plays no part: whatever it
      holds, and whether or not it opens, the result is the default record. */
  lemma UnresolvedVersionIgnoresControlFile(marker: Option<seq<char>>, c1: Option<seq<byte>>, c2: Option<seq<byte>>,
                                            cat: Catalogue, order: ByteOrder)
    requires cat.Valid() && ResolveVersion(marker).Failure?
    ensures ControlFile(DataDirectory(marker, c1), cat, order) == ControlFile(DataDirectory(marker, c2), cat, order)
    ensures ControlFile(DataDirectory(marker, c1), cat, order) == Reading(Default, ResolveVersion(marker).error)
  {
  }

  /** A token below 9.3 is rejected as unsupported and yields the default record. */
  lemma OldVersionGivesDefault(text: seq<char>, token: seq<char>, control: Option<seq<byte>>, cat: Catalogue, order: ByteOrder)
    requires cat.Valid()
    requires ScanToken(text) == Some(token) && VersionNumber(token) < OldestSupportedVersion
    ensures ControlFile(DataDirectory(Some(text), control), cat, order) == Reading(Default, VersionUnsupported)
  {
  }

  /** A token with no leading digits ("abc") passes the "no token" test, parses as
      version 0 and is turned away as unsupported, not as unparseable. */
  lemma NonNumericTokenIsUnsupported(text: seq<char>, token: seq<char>, control: Option<seq<byte>>,
                                     cat: Catalogue, order: ByteOrder)
    requires cat.Valid()
    requires ScanToken(text) == Some(token)
    requires !IsDigit(token[0]) && token[0] != '.'
    requires (token[0] == '+' || token[0] == '-') ==> |token| == 1 || !IsDigit(token[1])
    ensures ControlFile(DataDirectory(Some(text), control), cat, order) == Reading(Default, VersionUnsupported)
  {
    NoLeadingDigitsIsZero(token);
  }

  /** Marker "abc": default record, exit "unsupported". */
  lemma GarbageMarker(control: Option<seq<byte>>, cat: Catalogue, order: ByteOrder)
    requires cat.Valid()
    ensures ControlFile(DataDirectory(Some("abc"), control), cat, order) == Reading(Default, VersionUnsupported)
  {
    ScanTokenAfterSpace([], "abc", []);
    assert [] + "abc" + [] == "abc";
    NonNumericTokenIsUnsupported("abc", "abc", control, cat, order);
  }

  /** A well-formed record written for any supported version decodes to exactly the
      values written into it, whatever else the file holds around and after them. */
  lemma SyntheticRecordDecodes(marker: seq<char>, version: int, fields: Fields, filler: seq<byte>, tail: seq<byte>,
                               cat: Catalogue, order: ByteOrder)
    requires cat.Valid()
    requires ResolveVersion(Some(marker)) == Success(version)
    requires |filler| == cat.Get(SelectLayout(version)).size
    ensures
      var layout := cat.Get(SelectLayout(version));
      var file := EncodeFields(fields, layout, order, filler) + tail;
      ControlFile(DataDirectory(Some(marker), Some(file)), cat, order) == Reading(FromFields(fields), Processed)
  {
    var layout := cat.Get(SelectLayout(version));
    var record := EncodeFields(fields, layout, order, filler);
    var file := record + tail;
    assert file[..layout.size] == record;
    DecodeEncodeFields(fields, layout, order, filler);
  }

  /** Only the four fields' bytes are interpreted: two control files that agree on them
      (and are both long enough) give the same result, whatever the CRC and the other
      fields say. */
  lemma OnlyFieldBytesMatter(marker: seq<char>, version: int, f1: seq<byte>, f2: seq<byte>, cat: Catalogue, order: ByteOrder)
    requires cat.Valid()
    requires ResolveVersion(Some(marker)) == Success(version)
    requires |f1| >= cat.Get(SelectLayout(version)).size && |f2| >= cat.Get(SelectLayout(version)).size
    requires forall i :: 0 <= i < cat.Get(SelectLayout(version)).size && cat.Get(SelectLayout(version)).InField(i)
                         ==> f1[i] == f2[i]
    ensures ControlFile(DataDirectory(Some(marker), Some(f1)), cat, order)
         == ControlFile(DataDirectory(Some(marker), Some(f2)), cat, order)
  {
    var layout := cat.Get(SelectLayout(version));
    DecodeIgnoresTail(f1, layout, order);
    DecodeIgnoresTail(f2, layout, order);
    DecodeReadsOnlyFields(f1, f2, layout, order);
  }
}
