# repmgr control-data reader, modelled in Dafny

repmgr reads a few fields of a PostgreSQL data directory's control file
(`global/pg_control`) without linking against the server. The control file's
record structure changed between engine versions, so the reader first reads the
data directory's `PG_VERSION` marker, turns its first token into a version number
(`major * 10000 + minor * 100`), rejects anything older than 9.3, picks one of three
record layouts (9.3, 9.4, 9.5 and later), reads exactly that many bytes, and copies
four fields out: the system identifier, the cluster state, the latest checkpoint
location and the data checksum version. Every failure along the way hands back one
fixed default record whose `processed` flag is false. Four accessors each return one
field of that record, and `describe_db_state` names a cluster state.

The model is split by concern:

- `outcomes.dfy` (`Outcomes`): `Option`, `Result`, and `Status`, the exit the reader took.
- `bytes.dfy` (`Bytes`): fixed-width integers, bytes, little- and big-endian encoding
  and decoding with both round trips, and the C conversions between `int` and a
  32-bit unsigned field.
- `version.dfy` (`VersionResolver`): the `"%63s"` token scan, base-10 `strtol`, the
  version formula and `ResolveVersion`, the marker half of the reader as a function.
- `layouts.dfy` (`Layouts`): the three version ranges and their dispatch, layout
  descriptors (record size and field offsets), and decoding and encoding of the
  four fields.
- `controldata.dfy` (`ControlData`): the result record and its defaults, the
  specification function `ControlFile`, the imperative `GetControlFile` method
  proved equal to it, the four accessors, `DescribeDbState`, and the properties of
  the reader.

`GetControlFile` follows the C function's shape. It fills in the default record
field by field, takes the same chain of early returns, allocates a buffer of the
selected layout's size, lets a read fill it in place, and then copies the four
fields in a second dispatch on the version. Its postcondition equates its result
with `ControlFile`, and the lemmas state what `ControlFile` promises.

The two files are inputs: `DataDirectory(pgVersion, pgControl)` holds their contents,
with `None` for a file that cannot be opened. The sizes and offsets of the three
record structures come from `controldata.h` and depend on the compiler that builds
the reader. They are a `Catalogue` parameter whose layouts only need every field
inside the record and no two fields overlapping. The byte order of the machine
running the reader is a `ByteOrder` parameter. The reader decodes every file in
these host terms, whoever wrote it.

Line 167 tests `endptr == file_version_string` before `strtol` has set `endptr`,
which is still NULL. So that test never fires, and only a marker with no token at
all (fscanf returning EOF) takes the "unable to determine major version" exit. A
token with no digits after its optional sign that does not start with '.', such as
`abc`, parses as version 0 and is turned away by the `< 90300` test instead. The
model follows the code: see `ControlData.NonNumericTokenIsUnsupported` and
`ControlData.GarbageMarker`. The record handed back is the default either way; only
the exit (and the logged warning) differs. A token that starts with '.' is another
matter: the major part is 0 and ends at the '.', so the digits after it are read as
the minor part. The marker `.903` therefore gives 0 * 10000 + 903 * 100 = 90300 and
is accepted with the 9.3 layout (`VersionResolver.ResolveLeadingDot`).

`ParseVersionToken` and `ReadVersionNumber` are the imperative counterparts of the
functions `VersionNumber` and `ResolveVersion`: each method carries out the C
statements in order and is proved equal to its function, and the properties are
proved about the functions.

## Model

| member | source | states |
|---|---|---|
| ControlData.GetControlFile | controldata.c:123-266 | The method returns exactly the record and exit that `ControlFile` specifies, for every data directory: defaults, early returns, the size dispatch, the in-place read and the decode dispatch on the same layout. |
| ControlData.ReadVersionNumber | controldata.c:146-186 | The marker half of the method (open, scan one token, the line-167 test with `endptr` still NULL, parse, lower bound) yields exactly `ResolveVersion` of the marker. |
| ControlData.ParseVersionToken | controldata.c:174-180 | The two `strtol` calls, with the minor part read only after a '.', compute the version formula `VersionNumber`. |
| ControlData.ReadInto | controldata.c:203-217 | `read` into the buffer stores the first min(file length, count) bytes of the file at its front and leaves the rest of the buffer as it was. |
| ControlData.ReadPrefix | controldata.c:217 | A read of count bytes returns min(file length, count) bytes, and they are the file's first bytes. |
| ControlData.ReadRecord | controldata.c:150-224 | Everything up to the decode succeeds only with a control file at least as long as the selected layout, and then yields exactly the file's first `size` bytes of the layout selected for the resolved version; a failure is never `Processed`. |
| ControlData.ControlFile | controldata.c:123-266 | `processed` is true exactly when the exit is `Processed`, and every other exit hands back the default record. |
| ControlData.FromFields | controldata.c:228-236 | A record built from decoded fields is marked processed. |
| ControlData.FullRecord | controldata.c:217-228 | A resolved version and a control file at least as long as the selected layout give a full read of exactly the file's first `size` bytes. |
| ControlData.ProcessedIffFullRead | controldata.c:217-228 | `processed` is true if and only if the version resolves, the control file opens, and it holds at least the selected layout's size in bytes. |
| ControlData.ProcessedFieldsDecoded | controldata.c:228-253 | A processed record holds the four fields of the selected layout decoded from the control file itself; bytes past the record are ignored. |
| ControlData.ShortReadGivesDefault | controldata.c:217-224 | A control file shorter than the selected layout gives the default record with exit "truncated": no partly decoded field leaks out. |
| ControlData.UnopenableControlFileGivesDefault | controldata.c:191-196 | A supported version with a control file that cannot be opened gives the default record. |
| ControlData.UnresolvedVersionIgnoresControlFile | controldata.c:150-186 | When the marker cannot be opened, holds no token, or gives a version below 9.3, the result is the default record whatever the control file holds or whether it opens at all. |
| ControlData.OldVersionGivesDefault | controldata.c:182-186 | A token whose version number is below 90300 gives the default record with exit "unsupported". |
| ControlData.NonNumericTokenIsUnsupported | controldata.c:167-186 | A token with no digits after its optional sign (and not starting with '.') passes the vacuous line-167 test, parses as 0 and ends with the default record as "unsupported". |
| ControlData.GarbageMarker | controldata.c:164-186 | The marker `abc` gives the default record with exit "unsupported". |
| ControlData.SyntheticRecordDecodes | controldata.c:217-253 | For every supported version, a control file holding a record with four given field values (any other bytes, any tail) reads back exactly those values as a processed record. |
| ControlData.OnlyFieldBytesMatter | controldata.c:230-263 | Two control files that are both at least the selected layout's size and agree on the four fields' bytes give the same result, whatever the CRC and the other bytes hold. |
| ControlData.GetSystemIdentifier | controldata.c:33-45 | The unknown system identifier (0) when nothing was read, otherwise the 64-bit field at the selected layout's offset in the record read. |
| ControlData.GetDbState | controldata.c:47-60 | `DB_SHUTDOWNED` when nothing was read, otherwise the 32-bit state field of the record read. |
| ControlData.GetLatestCheckpointLocation | controldata.c:63-76 | `InvalidXLogRecPtr` (0) when nothing was read, otherwise the 64-bit checkpoint field of the record read. |
| ControlData.GetDataChecksumVersion | controldata.c:79-92 | -1 when nothing was read, otherwise the 32-bit checksum field of the record read, reinterpreted as a signed int. |
| ControlData.DescribeDbState | controldata.c:95-116 | The phrase is "unrecognized status code" exactly for codes outside the seven states, and is never empty. |
| ControlData.DescribeDbStateDistinct | controldata.c:98-114 | Each of the seven states has a phrase of its own. |
| VersionResolver.ScanToken | controldata.c:164 | No token exactly when the marker is all white space (fscanf returns EOF); otherwise a token of 1 to 63 characters with no white space. |
| VersionResolver.ScanTokenAfterSpace | controldata.c:164 | The token scanned from white space, a token of at most 63 non-space characters, and then white space or the end, is that token. |
| VersionResolver.TokenEnd | controldata.c:164 | A token stops at white space, at the end of the text, or after the width limit, and holds no white space. |
| VersionResolver.SpaceEnd | controldata.c:164-174 | Leading white space is skipped up to the first non-space character or the end. |
| VersionResolver.StrToL | controldata.c:174-178 | The end pointer stays at the start exactly when no digit follows the optional white space and sign, and the value is then 0. Otherwise the end pointer lies just past the maximal run of digits after the sign, and the value is that run's decimal value, negated after a '-'. |
| VersionResolver.StrToLOfSigned | controldata.c:174-178 | A sign followed by the decimal rendering of n and a non-digit parses as n, or as -n after '-', with the end pointer just past the digits. |
| VersionResolver.CharAt | controldata.c:177 | Reading the NUL-terminated token at an index gives '.' or a digit only at an index inside the token holding that character; past the end it is the terminator `'\0'`. |
| VersionResolver.VersionNumber | controldata.c:174-180 | A token with no digits after its optional sign and not starting with '.' gives version 0. |
| VersionResolver.VersionOfLeadingDot | controldata.c:174-180 | A token of '.' and digits, followed by a non-digit or the end, gives the digits' value * 100: the major part is 0 and the digits are the minor part. |
| VersionResolver.LeadingDotVersion | controldata.c:174-180 | The token `.903` has version number 90300. |
| VersionResolver.ResolveLeadingDot | controldata.c:164-186 | The marker `.903` and a newline resolves to 90300 and so passes the lower bound. |
| VersionResolver.ScanTokenTruncated | controldata.c:164 | A first word longer than 63 characters, after any white space, is cut to its first 63 characters. |
| VersionResolver.StrToLOfRun | controldata.c:174-178 | A run of digits that stands at the start and is followed by a non-digit or the end parses as its decimal value, with the end pointer just past it. |
| VersionResolver.ResolveVersion | controldata.c:150-186 | A resolved version is always at least 90300; "marker unreadable" exactly when the marker cannot be opened; "unparseable" exactly when it is all white space; every other failure is "unsupported". |
| VersionResolver.ResolveOfToken | controldata.c:164-186 | A marker whose token gives a version of at least 90300 resolves to that version. |
| VersionResolver.VersionOfRuns | controldata.c:174-180 | A token "digits.digits" followed by a non-digit or the end gives major * 10000 + minor * 100. |
| VersionResolver.VersionOfRun | controldata.c:174-180 | A token of digits followed by neither a digit nor '.' gives major * 10000: the minor part defaults to 0. |
| VersionResolver.VersionOfDigitStrings | controldata.c:174-180 | Any two non-empty digit strings joined by '.' and followed by a non-digit give the first's value * 10000 + the second's value * 100. |
| VersionResolver.VersionOfMajorMinor | controldata.c:174-180 | For all major and minor, the decimal rendering "major.minor" followed by a non-digit gives major * 10000 + minor * 100. |
| VersionResolver.VersionOfMajorOnly | controldata.c:174-180 | For all major, the rendering "major" followed by neither a digit nor '.' gives major * 10000. |
| VersionResolver.NoLeadingDigitsIsZero | controldata.c:174-180 | A token with no digits after its optional sign, not starting with '.', has version number 0. |
| VersionResolver.DecimalRoundTrip | controldata.c:174 | Parsing the decimal rendering of n gives n back. |
| VersionResolver.ResolveNineSix | controldata.c:164-186 | The marker "9.6" and a newline resolves to 90600. |
| VersionResolver.ResolveTwelve | controldata.c:164-186 | The marker "12" and a newline resolves to 120000. |
| Layouts.SelectLayout | controldata.c:200-214 | For every version of at least 90300 the chosen layout's range covers it, and no other layout's range does. |
| Layouts.NoLayoutBelowOldest | controldata.c:182-214 | No layout's range reaches below 90300. |
| Layouts.DecodeFields | controldata.c:230-253 | Each of the four decoded fields is the value whose encoding in the machine's byte order is exactly the bytes at that field's offset in the record. |
| Layouts.DecodeEncodeFields | controldata.c:230-253 | Decoding a record built from four field values gives those values back, whatever the record's other bytes hold. |
| Layouts.EncodedSystemIdentifier | controldata.c:233 | The system identifier stored in a record reads back unchanged after the other fields are stored. |
| Layouts.EncodedState | controldata.c:234 | The state stored in a record reads back unchanged after the later fields are stored. |
| Layouts.EncodedCheckPoint | controldata.c:235 | The checkpoint location stored in a record reads back unchanged after the checksum version is stored. |
| Layouts.Put64 | controldata.c:233-235 | Storing a 64-bit value at an offset keeps the record's length, and the 64-bit read at that offset returns the value. |
| Layouts.Put32 | controldata.c:234-236 | Storing a 32-bit value at an offset keeps the record's length, and the 32-bit read at that offset returns the value. |
| Layouts.DecodeReadsOnlyFields | controldata.c:230-263 | Two records that agree on the four fields' bytes decode to the same fields. |
| Layouts.DecodeIgnoresTail | controldata.c:217-253 | Bytes past the layout's size never change the decoded fields. |
| Bytes.ReadUInt64 | controldata.c:233-235 | A 64-bit field read gives the value whose eight-byte encoding in the machine's byte order is exactly the bytes at its offset. |
| Bytes.ReadUInt32 | controldata.c:234-236 | A 32-bit field read gives the value whose four-byte encoding in the machine's byte order is exactly the bytes at its offset. |
| Bytes.DecodeEncode | controldata.c:232-236 | Decoding the bytes that encode a value in either byte order gives the value back. |
| Bytes.EncodeDecode | controldata.c:232-236 | Encoding the value of some bytes gives those bytes back: distinct field bytes decode to distinct values. |
| Bytes.Int32ToUInt32 | controldata.c:144 | Storing the int -1 in the 32-bit unsigned field keeps its value modulo 2^32. |
| Bytes.UInt32ToInt32 | controldata.c:87 | The `(int)` cast of the unsigned field keeps its value modulo 2^32. |
| Bytes.SignedRoundTrip | controldata.c:83-87 | The two conversions are inverse to each other, so the default -1 comes back out of the accessor as -1. |

## Left out

- File I/O is not modelled. `fopen`, `fscanf`'s reading of the file, `open`, `read`, `close` and the `snprintf` path building are replaced by the two optional file contents in `DataDirectory`.
- Logging is not modelled: `log_warning`, `log_detail`, `strerror` and the `_()` translation of the logged messages. Only which exit was taken (`Status`) is kept.
- ControlData.DescribeDbState: returns the untranslated message ids, not the `_()` translations of lines 101-115. So the distinct-phrases and fallback properties are proved for the English text only.
- A control file written by a platform with another byte order or another structure layout is read in the reading host's terms, as the C code reads `ptr->field` natively. The model, like the source, assumes the writer and the reader match, and does not capture the byte-swapped values or the spurious "truncated" exit of a mismatch.
- The zeroing of the buffer by `palloc0` at line 203 is not modelled: the buffer starts with arbitrary contents. This makes no difference, because a short read discards the buffer and a full read overwrites all of it.
- Memory management is not modelled: `palloc0` and `pfree`. On a short read at lines 217-224, the source also leaks the file descriptor and the buffer; a value model cannot express that.
- The real sizes and offsets of `ControlFileData93/94/95`, and the host byte order, are not modelled. `controldata.h` is not part of this model, and these values depend on the platform. They are the `Catalogue` and `ByteOrder` parameters.
- The `DBState` codes 0 to 6 are taken from PostgreSQL's `pg_control.h`, which is not part of this model. The state is held as a 32-bit code.
- `ControlFileInfo.data_checksum_version` is taken to be a 32-bit unsigned field, as the `(int)` cast at line 87 suggests.
- VersionResolver.StrToL: does not clamp overflow to `LONG_MIN`/`LONG_MAX`, because values are mathematical integers.
- ControlData.ParseVersionToken: does not model the `int` overflows at line 180, because values are mathematical integers. These are the `(int)` narrowing of `file_major` and of `file_minor` from `long`, the products `file_major * 10000` and `file_minor * 100`, and their sum. A huge major or minor number gives a huge version, not a wrapped one.
- VersionResolver.VersionNumber: the same overflows at line 180 are not modelled, for the same reason.
- ControlData.ReadInto: a `read` that fails with -1 is not told apart from a short read. Both take the same exit in the source.
- VersionResolver.ScanToken: white space is C's `isspace` in the "C" locale. Locale-dependent white space is not modelled.
- Within `get_controlfile`, the marker half (lines 146-186) is a separate method, `ReadVersionNumber`, and the two `strtol` calls are `ParseVersionToken`. `GetControlFile` calls both in the place of those lines.
