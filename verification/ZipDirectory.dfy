/**
 The check a scan bundle's central directory passes before its entries are materialised. Offsets and
 sizes are machine integers, so every addition and subtraction below is proved not to overflow.
 */
module ZipDirectory {
  import opened ByteStrings
  import opened Wrappers
  import opened ZipRecords

  newtype int64 = x: int | -0x8000_0000_0000_0000 <= x < 0x8000_0000_0000_0000
  newtype uint64 = x: int | 0 <= x < 0x1_0000_0000_0000_0000

  datatype Error =
    | TooSmall | Unreadable | NoEndRecord | NoLocator | MultiDisk | Zip64OutOfRange | Zip64Truncated | Zip64Invalid
    | TooManyEntries | DirectoryTooLarge | OutsideBundle | BadOffset | AmbiguousOffset
    | DirectoryTruncated | InvalidEntry | TrailingData | CountMismatch

  /** What the end records say about the directory: its entry count, size, offset and where it ends. */
  datatype Declaration = Declaration(entries: uint64, size: uint64, offset: uint64, end: int64)

  /** The bytes a positioned read of n bytes delivers, or nothing when it would be short. */
  function ReadAtFull(file: Bytes, n: nat, off: int64): Option<Bytes> {
    if off >= 0 && off as int + n <= |file| then Some(file[off as int..off as int + n]) else None
  }

  // ---- What the end records declare ----

  /** An end record whose comment fits. */
  predicate IsEndAt(buf: Bytes, i: int) {
    0 <= i <= |buf| - 22 && Read32(buf, i) == 0x06054b50 && i + 22 + Read16(buf, i + 20) <= |buf|
  }

  /** `e` is the last such record in the last 65 KiB of the bundle. */
  ghost predicate IsLastEnd(file: Bytes, size: nat, e: int)
    requires size <= |file|
  {
    && size - 65 * 1024 <= e
    && IsEndAt(file[..size], e)
    && forall i :: e < i ==> !IsEndAt(file[..size], i)
  }

  /** A field at its all-ones value means the real one is in the zip64 records. */
  predicate NeedsZip64(file: Bytes, e: nat)
    requires e + END_LEN <= |file|
  {
    Read16(file, e + 10) == 0xffff || Read32(file, e + 12) == 0xffff_ffff || Read32(file, e + 16) == 0xffff_ffff
  }

  predicate LocatesZip64(file: Bytes, size: nat, e: nat, at: nat)
    requires e + END_LEN <= size <= |file|
  {
    && e >= 20
    && Read32(file, e - 20) == 0x07064b50
    && Read32(file, e - 16) == 0 && Read32(file, e - 4) == 1
    && Read64(file, e - 12) == at
    && at + 56 <= size
    && Read32(file, at) == 0x06064b50
    && 44 <= Read64(file, at + 4) <= size - at - 12
  }

  predicate DeclaresAt(file: Bytes, size: nat, e: nat, d: Declaration)
    requires e + END_LEN <= size <= |file|
  {
    if NeedsZip64(file, e) then
      && d.end >= 0
      && LocatesZip64(file, size, e, d.end as nat)
      && d.entries as nat == Read64(file, d.end as nat + 32)
      && d.size as nat == Read64(file, d.end as nat + 40)
      && d.offset as nat == Read64(file, d.end as nat + 48)
    else
      && d.end as int == e
      && d.entries as nat == Read16(file, e + 10)
      && d.size as nat == Read32(file, e + 12)
      && d.offset as nat == Read32(file, e + 16)
  }

  ghost predicate Declares(file: Bytes, size: nat, d: Declaration) {
    size <= |file| && exists e :: IsLastEnd(file, size, e) && e >= 0 && DeclaresAt(file, size, e, d)
  }

  ghost predicate DeclaresNothingAt(file: Bytes, size: nat, e: nat)
    requires e + END_LEN <= size <= |file|
  {
    forall d :: !DeclaresAt(file, size, e, d)
  }

  ghost predicate DeclaresNothing(file: Bytes, size: nat) {
    forall d :: !Declares(file, size, d)
  }

  lemma DeclarationIsUnique(file: Bytes, size: nat, c: Declaration, d: Declaration)
    requires Declares(file, size, c) && Declares(file, size, d)
    ensures c == d
  {
  }

  // ---- Which declarations are accepted ----

  ghost predicate WithinLimits(size: nat, d: Declaration) {
    && d.entries as nat <= 25000
    && d.size as nat <= 8 * 1024 * 1024
    && d.size as int <= d.end as int <= size
    && d.offset as int <= d.end as int - d.size as int
  }

  /** With data before the archive, the raw offset must not land on a header as well. */
  ghost predicate Ambiguous(file: Bytes, d: Declaration) {
    && d.end as int - d.size as int > d.offset as int
    && d.offset as int + 4 <= |file|
    && Read32(file, d.offset as nat) == 0x02014b50
  }

  ghost function Region(file: Bytes, d: Declaration): Bytes
    requires d.size as int <= d.end as int <= |file|
  {
    file[d.end as int - d.size as int..d.end as int]
  }

  ghost predicate Fits(file: Bytes, size: nat, d: Declaration)
    requires size <= |file|
  {
    && WithinLimits(size, d)
    && !Ambiguous(file, d)
    && CountHeaders(Region(file, d)) == Some(d.entries as nat)
  }

  ghost predicate Acceptable(file: Bytes, size: nat) {
    size <= |file| && exists d :: Declares(file, size, d) && Fits(file, size, d)
  }

  lemma OnlyDeclaration(file: Bytes, size: nat, d: Declaration)
    requires Declares(file, size, d)
    ensures Acceptable(file, size) <==> Fits(file, size, d)
  {
    forall c | Declares(file, size, c)
      ensures c == d
    {
      DeclarationIsUnique(file, size, c, d);
    }
  }

  // ---- The check ----

  method FindScanBundleZipEnd(buf: Bytes) returns (r: int)
    ensures r == -1 || IsEndAt(buf, r)
    ensures forall i :: r < i ==> !IsEndAt(buf, i)
  {
    var i := |buf| - END_LEN;
    while i >= 0
      invariant -1 <= i || |buf| < END_LEN
      invariant forall j :: i < j ==> !IsEndAt(buf, j)
    {
      if Read32(buf, i) == END_SIGNATURE && i + END_LEN + Read16(buf, i + 20) <= |buf| {
        return i;
      }
      i := i - 1;
    }
    return -1;
  }

  method ReadScanBundleZip64End(file: Bytes, size: int64, legacyEnd: int64) returns (r: Result<Declaration, Error>)
    requires 0 <= legacyEnd as int && legacyEnd as int + END_LEN <= size as int <= |file|
    requires NeedsZip64(file, legacyEnd as nat)
    ensures r.Ok? ==> DeclaresAt(file, size as nat, legacyEnd as nat, r.value)
    ensures r.Err? ==> DeclaresNothingAt(file, size as nat, legacyEnd as nat)
  {
    var locator := ReadAtFull(file, ZIP64_LOCATOR_LEN, legacyEnd - 20);
    if locator.None? {
      return Err(Unreadable);
    }
    ghost var e := legacyEnd as nat;
    LocatorFields(file, e);
    if Read32(locator.value, 0) != ZIP64_LOCATOR_SIGNATURE {
      return Err(NoLocator);
    }
    if Read32(locator.value, 4) != 0 || Read32(locator.value, 16) != 1 {
      return Err(MultiDisk);
    }
    var zip64End := Read64(locator.value, 8) as uint64;
    if zip64End > 0x7fff_ffff_ffff_ffff || zip64End > size as uint64 {
      return Err(Zip64OutOfRange);
    }
    if size as uint64 - zip64End < ZIP64_END_LEN as uint64 {
      return Err(Zip64Truncated);
    }
    r := ReadZip64End(file, size, zip64End as int64);
  }

  /** The zip64 end record at a place where there is room for one. */
  method ReadZip64End(file: Bytes, size: int64, at: int64) returns (r: Result<Declaration, Error>)
    requires 0 <= at as int && at as int + ZIP64_END_LEN <= size as int <= |file|
    ensures r.Ok? <==> Read32(file, at as nat) == 0x06064b50 && 44 <= Read64(file, at as nat + 4) <= size as int - at as int - 12
    ensures r.Ok? ==>
              && r.value.end == at && r.value.entries as nat == Read64(file, at as nat + 32)
              && r.value.size as nat == Read64(file, at as nat + 40) && r.value.offset as nat == Read64(file, at as nat + 48)
  {
    Zip64Fields(file, at as nat);
    var end := ReadAtFull(file, ZIP64_END_LEN, at);
    if end.None? {
      return Err(Unreadable);
    }
    if Read32(end.value, 0) != ZIP64_END_SIGNATURE {
      return Err(Zip64Invalid);
    }
    var recordSize := Read64(end.value, 4) as uint64;
    if recordSize < 44 || recordSize > size as uint64 - at as uint64 - 12 {
      return Err(Zip64Invalid);
    }
    return Ok(Declaration(Read64(end.value, 32) as uint64, Read64(end.value, 40) as uint64,
                          Read64(end.value, 48) as uint64, at));
  }

  lemma LocatorFields(file: Bytes, e: nat)
    requires ZIP64_LOCATOR_LEN <= e <= |file|
    ensures var locator := file[e - 20..e];
            && Read32(locator, 0) == Read32(file, e - 20)
            && Read32(locator, 4) == Read32(file, e - 16)
            && Read64(locator, 8) == Read64(file, e - 12)
            && Read32(locator, 16) == Read32(file, e - 4)
  {
    ReadsInWindow(file, e - 20, 20, 0);
    ReadsInWindow(file, e - 20, 20, 4);
    ReadsInWindow(file, e - 20, 20, 8);
    ReadsInWindow(file, e - 20, 20, 16);
  }

  lemma Zip64Fields(file: Bytes, at: nat)
    requires at + ZIP64_END_LEN <= |file|
    ensures var end := file[at..at + ZIP64_END_LEN];
            && Read32(end, 0) == Read32(file, at)
            && Read64(end, 4) == Read64(file, at + 4)
            && Read64(end, 32) == Read64(file, at + 32)
            && Read64(end, 40) == Read64(file, at + 40)
            && Read64(end, 48) == Read64(file, at + 48)
  {
    ReadsInWindow(file, at, ZIP64_END_LEN, 0);
    ReadsInWindow(file, at, ZIP64_END_LEN, 4);
    ReadsInWindow(file, at, ZIP64_END_LEN, 32);
    ReadsInWindow(file, at, ZIP64_END_LEN, 40);
    ReadsInWindow(file, at, ZIP64_END_LEN, 48);
  }

  /** Seen from the tail or from the whole bundle, the end records are the same. */
  lemma EndSeenInTail(file: Bytes, size: nat, from: nat, i: nat)
    requires from <= size <= |file|
    ensures IsEndAt(file[from..size], i) <==> IsEndAt(file[..size], from + i)
  {
    if from + i + END_LEN <= size {
      ReadsInWindow(file, from, size - from, i);
      ReadsInWindow(file, from, size - from, i + 20);
      ReadsInWindow(file, 0, size, from + i);
      ReadsInWindow(file, 0, size, from + i + 20);
    }
  }

  /** The last end record of the tail is the last one of the bundle. */
  lemma LastEndInTail(file: Bytes, size: nat, from: nat, r: int)
    requires from <= size <= |file| && size - TAIL_LEN <= from && (from == 0 || size - TAIL_LEN == from)
    requires r == -1 || IsEndAt(file[from..size], r)
    requires forall i :: r < i ==> !IsEndAt(file[from..size], i)
    ensures r == -1 ==> DeclaresNothing(file, size)
    ensures r >= 0 ==> IsLastEnd(file, size, from + r)
  {
    forall i | r < i - from && i >= from
      ensures !IsEndAt(file[..size], i)
    {
      EndSeenInTail(file, size, from, i - from);
    }
    if r >= 0 {
      EndSeenInTail(file, size, from, r);
    }
  }

  lemma EndFields(file: Bytes, size: nat, from: nat, r: nat)
    requires from + r + END_LEN <= size <= |file|
    ensures var tail := file[from..size];
            && Read16(tail, r + 10) == Read16(file, from + r + 10)
            && Read32(tail, r + 12) == Read32(file, from + r + 12)
            && Read32(tail, r + 16) == Read32(file, from + r + 16)
  {
    ReadsInWindow(file, from, size - from, r + 10);
    ReadsInWindow(file, from, size - from, r + 12);
    ReadsInWindow(file, from, size - from, r + 16);
  }

  method ReadDeclaration(file: Bytes, size: int64) returns (r: Result<Declaration, Error>)
    requires size >= 0 && |file| < 0x8000_0000_0000_0000
    ensures r.Ok? ==> Declares(file, size as nat, r.value)
    ensures r.Err? ==> DeclaresNothing(file, size as nat)
  {
    if size < END_LEN as int64 {
      return Err(TooSmall);
    }
    var tailLen := TAIL_LEN as int64;
    if tailLen > size {
      tailLen := size;
    }
    var tail := ReadAtFull(file, tailLen as nat, size - tailLen);
    if tail.None? {
      return Err(Unreadable);
    }
    ghost var from := (size - tailLen) as nat;
    var endInTail := FindScanBundleZipEnd(tail.value);
    LastEndInTail(file, size as nat, from, endInTail);
    if endInTail < 0 {
      return Err(NoEndRecord);
    }
    var legacyEnd := size - tailLen + endInTail as int64;
    EndFields(file, size as nat, from, endInTail);
    var legacyEntries := Read16(tail.value, endInTail + 10) as uint64;
    var legacySize := Read32(tail.value, endInTail + 12) as uint64;
    var legacyOffset := Read32(tail.value, endInTail + 16) as uint64;
    if legacyEntries == 0xffff || legacySize == 0xffff_ffff || legacyOffset == 0xffff_ffff {
      r := ReadScanBundleZip64End(file, size, legacyEnd);
    } else {
      r := Ok(Declaration(legacyEntries, legacySize, legacyOffset, legacyEnd));
    }
  }

  function Plus(n: nat, o: Option<nat>): Option<nat> {
    match o
    case Some(m) => Some(n + m)
    case None => None
  }

  /** The pieces read at an offset are the fields of the directory's remainder. */
  lemma EntryFields(file: Bytes, offset: nat, end: nat)
    requires offset <= end <= |file|
    ensures var rest := file[offset..end];
            && (|rest| >= 4 ==> Read32(file[offset..offset + 4], 0) == Read32(rest, 0))
            && (|rest| >= 6 ==> Read16(file[offset + 4..offset + 6], 0) == Read16(rest, 4))
            && (|rest| >= HEADER_LEN ==> FirstHeader(file[offset..offset + HEADER_LEN]) == FirstHeader(rest))
  {
  }

  lemma HeaderPassed(file: Bytes, offset: nat, end: nat, n: nat)
    requires offset <= end <= |file|
    requires var rest := file[offset..end]; StartsWithHeader(rest) && FirstHeader(rest) == n
    ensures CountHeaders(file[offset..end]) == Plus(1, CountHeaders(file[offset + n..end]))
  {
    assert file[offset..end][n..] == file[offset + n..end];
  }

  lemma NothingLeft(rest: Bytes)
    requires rest == [] || IsDigitalSignature(rest)
    ensures CountHeaders(rest) == Some(0)
  {
  }

  lemma PlusOne(n: nat, o: Option<nat>)
    ensures Plus(n, Plus(1, o)) == Plus(n + 1, o)
  {
  }

  datatype Piece = Header(size: uint64) | Signature

  /** What the remainder of the directory starts with: a header of that size, or the closing signature. */
  predicate StartsWith(rest: Bytes, piece: Piece) {
    match piece
    case Header(size) => StartsWithHeader(rest) && FirstHeader(rest) == size as nat
    case Signature => IsDigitalSignature(rest)
  }

  method ReadPiece(file: Bytes, offset: int64, end: int64) returns (r: Result<Piece, Error>)
    requires 0 <= offset as int < end as int <= |file|
    ensures r.Ok? ==> StartsWith(file[offset..end], r.value)
    ensures r.Err? ==> CountHeaders(file[offset..end]) == None && r.error != Unreadable
  {
    EntryFields(file, offset as nat, end as nat);
    var remaining := end - offset;
    if remaining < 4 {
      return Err(DirectoryTruncated);
    }
    var signatureBytes := ReadAtFull(file, 4, offset);
    if signatureBytes.None? {
      return Err(Unreadable);
    }
    var signature := Read32(signatureBytes.value, 0);
    if signature == DIGITAL_SIGNATURE {
      if remaining < 6 {
        return Err(DirectoryTruncated);
      }
      var digitalSize := ReadAtFull(file, 2, offset + 4);
      if digitalSize.None? {
        return Err(Unreadable);
      }
      if 6 + Read16(digitalSize.value, 0) as uint64 != remaining as uint64 {
        return Err(TrailingData);
      }
      return Ok(Signature);
    }
    if remaining < HEADER_LEN as int64 {
      return Err(DirectoryTruncated);
    }
    var header := ReadAtFull(file, HEADER_LEN, offset);
    if header.None? {
      return Err(Unreadable);
    }
    if signature != HEADER_SIGNATURE {
      return Err(InvalidEntry);
    }
    var entrySize := HEADER_LEN as uint64 + Read16(header.value, 28) as uint64
                     + Read16(header.value, 30) as uint64 + Read16(header.value, 32) as uint64;
    if entrySize > remaining as uint64 {
      return Err(DirectoryTruncated);
    }
    return Ok(Header(entrySize));
  }

  method WalkDirectory(file: Bytes, start: int64, end: int64, entries: uint64) returns (err: Option<Error>)
    requires 0 <= start as int <= end as int <= |file| && entries as nat <= MAX_ENTRIES
    ensures err.None? <==> CountHeaders(file[start..end]) == Some(entries as nat)
    ensures err != Some(Unreadable)
  {
    var actualEntries: uint64 := 0;
    var offset := start;
    while offset < end
      invariant start <= offset <= end && actualEntries as nat <= MAX_ENTRIES
      invariant CountHeaders(file[start..end]) == Plus(actualEntries as nat, CountHeaders(file[offset..end]))
    {
      var piece := ReadPiece(file, offset, end);
      if piece.Err? {
        return Some(piece.error);
      }
      if piece.value.Signature? {
        NothingLeft(file[offset..end]);
        break;
      }
      HeaderPassed(file, offset as nat, end as nat, piece.value.size as nat);
      PlusOne(actualEntries as nat, CountHeaders(file[offset as int + piece.value.size as int..end]));
      actualEntries := actualEntries + 1;
      if actualEntries as nat > MAX_ENTRIES {
        return Some(TooManyEntries);
      }
      offset := offset + piece.value.size as int64;
    }
    if offset >= end {
      NothingLeft(file[offset..end]);
    }
    if actualEntries != entries {
      return Some(CountMismatch);
    }
    return None;
  }

  method ScanZipBundleDirectory(file: Bytes, size: int64) returns (err: Option<Error>)
    requires size >= 0 && |file| < 0x8000_0000_0000_0000
    ensures err.None? <==> Acceptable(file, size as nat)
  {
    var found := ReadDeclaration(file, size);
    if found.Err? {
      return Some(found.error);
    }
    var d := found.value;
    OnlyDeclaration(file, size as nat, d);
    if d.entries > MAX_ENTRIES as uint64 {
      return Some(TooManyEntries);
    }
    if d.size > MAX_CENTRAL_DIRECTORY as uint64 {
      return Some(DirectoryTooLarge);
    }
    if d.end < 0 || d.size > d.end as uint64 || d.end > size {
      return Some(OutsideBundle);
    }
    if d.offset > 0x7fff_ffff_ffff_ffff || d.offset > size as uint64 {
      return Some(BadOffset);
    }
    var start := d.end - d.size as int64;
    var baseOffset := start - d.offset as int64;
    if baseOffset < 0 {
      return Some(BadOffset);
    }
    if baseOffset > 0 {
      var rawHeader := ReadAtFull(file, 4, d.offset as int64);
      if rawHeader.Some? {
        ReadsWithin(rawHeader.value, file, d.offset as nat);
        if Read32(rawHeader.value, 0) == HEADER_SIGNATURE {
          return Some(AmbiguousOffset);
        }
      }
    }
    err := WalkDirectory(file, start, d.end, d.entries);
  }
}
