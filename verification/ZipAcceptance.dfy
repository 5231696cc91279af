/**
 What the directory check accepts: exactly the bundles whose declared region is a directory of the
 declared number of entries, and every directory a ZIP writer produces within the limits.
 */
module ZipAcceptance {
  import opened ByteStrings
  import opened Wrappers
  import opened ZipRecords
  import opened ZipDirectory

  /** The declared region is the declared number of headers, then at most one digital signature. */
  ghost predicate HoldsDirectory(file: Bytes, size: nat, d: Declaration) {
    && size <= |file| && WithinLimits(size, d) && !Ambiguous(file, d)
    && exists headers, trailer :: IsDirectory(Region(file, d), headers, trailer) && |headers| == d.entries as nat
  }

  lemma AcceptedIff(file: Bytes, size: nat)
    ensures Acceptable(file, size) <==> exists d :: Declares(file, size, d) && HoldsDirectory(file, size, d)
  {
    forall d | size <= |file| && WithinLimits(size, d)
      ensures Fits(file, size, d) <==> HoldsDirectory(file, size, d)
    {
      CountIsExact(Region(file, d), d.entries as nat);
    }
  }

  // ---- Archives as written ----

  /** Any data before the archive, the directory, then its end records. */
  datatype Archive = Archive(lead: Bytes, entries: seq<Entry>, trailer: Bytes, offset: nat,
                             disks: Bytes, comment: Bytes) {
    predicate Valid() {
      && (forall i :: 0 <= i < |entries| ==> entries[i].Valid())
      && (trailer == [] || IsDigitalSignature(trailer))
      && |disks| == 6 && |comment| < 0x1_0000
    }

    function Directory(): Bytes
      requires Valid()
    {
      Concat(Headers(entries)) + trailer
    }

    /** Within the limits, and with the raw offset naming the directory or at least no other header. */
    predicate Allowed()
      requires Valid()
    {
      && |entries| <= 25000
      && |Directory()| <= 8 * 1024 * 1024
      && |lead| + |Directory()| < 0x7fff_ffff_0000_0000
      && offset <= |lead|
      && (offset < |lead| ==> offset + 4 <= |lead| && Read32(lead, offset) != 0x02014b50)
    }

    function Start(): Bytes
      requires Valid()
    {
      lead + Directory()
    }

    /** Stored without zip64 records: the offset must be below the value that announces them. */
    function Bytes32(): Bytes
      requires Valid() && Allowed() && offset < 0xffff_ffff
    {
      Start() + EndRecord(disks, |entries|, |Directory()|, offset, comment)
    }

    /** Stored with zip64 records; the end record announces them through an all-ones offset. */
    function Bytes64(versions: Bytes, legacyEntries: nat, legacySize: nat): Bytes
      requires Valid() && Allowed() && |versions| == 20
      requires legacyEntries < 0x1_0000 && legacySize < 0x1_0000_0000
    {
      Start() + Zip64End(versions, |entries|, |Directory()|, offset) + Zip64Locator(|Start()|)
      + EndRecord(disks, legacyEntries, legacySize, 0xffff_ffff, comment)
    }
  }

  /** No end record hides in the comment. */
  ghost predicate CommentIsPlain(end: Bytes) {
    forall i :: 0 < i ==> !IsEndAt(end, i)
  }

  lemma EndRecordFields(disks: Bytes, entries: nat, size: nat, offset: nat, comment: Bytes)
    requires |disks| == 6 && entries < 0x1_0000 && size < 0x1_0000_0000 && offset < 0x1_0000_0000
    requires |comment| < 0x1_0000
    ensures var end := EndRecord(disks, entries, size, offset, comment);
            && |end| == END_LEN + |comment| && IsEndAt(end, 0)
            && Read16(end, 10) == entries && Read32(end, 12) == size && Read32(end, 16) == offset
  {
    var end := EndRecord(disks, entries, size, offset, comment);
    ReadsWithin(Put32(END_SIGNATURE), end, 0);
    ReadsWithin(Put16(entries), end, 10);
    ReadsWithin(Put32(size), end, 12);
    ReadsWithin(Put32(offset), end, 16);
    ReadsWithin(Put16(|comment|), end, 20);
  }

  /** The end record at the end of the file is the one found. */
  lemma EndIsFound(before: Bytes, end: Bytes)
    requires IsEndAt(end, 0) && CommentIsPlain(end) && |end| < END_LEN + 0x1_0000
    ensures IsLastEnd(before + end, |before + end|, |before|)
    ensures var file := before + end;
            && Read16(file, |before| + 10) == Read16(end, 10)
            && Read32(file, |before| + 12) == Read32(end, 12)
            && Read32(file, |before| + 16) == Read32(end, 16)
  {
    var file := before + end;
    assert file[|before|..|file|] == end;
    forall i | i >= |before|
      ensures IsEndAt(file[..|file|], i) <==> IsEndAt(end, i - |before|)
    {
      EndSeenInTail(file, |file|, |before|, i - |before|);
    }
    EndFields(file, |file|, |before|, 0);
  }

  lemma {:induction false} HeadersAreHeaders(entries: seq<Entry>)
    requires forall i :: 0 <= i < |entries| ==> entries[i].Valid()
    ensures |Headers(entries)| == |entries|
    ensures forall i :: 0 <= i < |entries| ==> IsHeader(Headers(entries)[i])
  {
    forall i | 0 <= i < |entries|
      ensures IsHeader(Headers(entries)[i])
    {
      assert Headers(entries)[i] == entries[i].Header();
    }
  }

  lemma DirectoryIsThere(a: Archive, file: Bytes)
    requires a.Valid() && |a.Start()| <= |file| && file[..|a.Start()|] == a.Start()
    ensures file[|a.lead|..|a.Start()|] == a.Directory()
    ensures CountHeaders(file[|a.lead|..|a.Start()|]) == Some(|a.entries|)
  {
    assert file[|a.lead|..|a.Start()|] == a.Start()[|a.lead|..] == a.Directory();
    HeadersAreHeaders(a.entries);
    DirectoryIsCounted(a.Directory(), Headers(a.entries), a.trailer);
  }

  lemma LeadIsThere(a: Archive, file: Bytes)
    requires a.Valid() && |a.Start()| <= |file| && file[..|a.Start()|] == a.Start()
    ensures file[..|a.lead|] == a.lead
  {
    assert a.Start()[..|a.lead|] == a.lead;
  }

  /** Whatever follows the directory, a declaration that names it fits. */
  lemma DirectoryFits(a: Archive, file: Bytes, d: Declaration)
    requires a.Valid() && a.Allowed()
    requires |a.Start()| <= |file| && file[..|a.Start()|] == a.Start()
    requires d.entries as nat == |a.entries| && d.size as nat == |a.Directory()|
    requires d.offset as nat == a.offset && d.end as int == |a.Start()|
    ensures Fits(file, |file|, d)
  {
    DirectoryIsThere(a, file);
    LeadIsThere(a, file);
    if a.offset < |a.lead| {
      ReadsInWindow(file, 0, |a.lead|, a.offset);
    }
  }

  /** Every directory serialised from an allowed entry list is accepted. */
  lemma AcceptsSerialised(a: Archive)
    requires a.Valid() && a.Allowed() && a.offset < 0xffff_ffff
    requires CommentIsPlain(EndRecord(a.disks, |a.entries|, |a.Directory()|, a.offset, a.comment))
    ensures Acceptable(a.Bytes32(), |a.Bytes32()|)
  {
    var end := EndRecord(a.disks, |a.entries|, |a.Directory()|, a.offset, a.comment);
    var file := a.Bytes32();
    EndRecordFields(a.disks, |a.entries|, |a.Directory()|, a.offset, a.comment);
    EndIsFound(a.Start(), end);
    var d := Declaration(|a.entries| as uint64, |a.Directory()| as uint64, a.offset as uint64, |a.Start()| as int64);
    assert Declares(file, |file|, d);
    DirectoryFits(a, file, d);
  }

  lemma Zip64EndFields(versions: Bytes, entries: nat, size: nat, offset: nat)
    requires |versions| == 20
    requires entries < 0x1_0000_0000_0000_0000 && size < 0x1_0000_0000_0000_0000 && offset < 0x1_0000_0000_0000_0000
    ensures var z := Zip64End(versions, entries, size, offset);
            && |z| == ZIP64_END_LEN
            && Read32(z, 0) == ZIP64_END_SIGNATURE && Read64(z, 4) == 44
            && Read64(z, 32) == entries && Read64(z, 40) == size && Read64(z, 48) == offset
  {
    var z := Zip64End(versions, entries, size, offset);
    ReadsWithin(Put32(ZIP64_END_SIGNATURE), z, 0);
    ReadsWithin(Put64(44), z, 4);
    ReadsWithin(Put64(entries), z, 32);
    ReadsWithin(Put64(size), z, 40);
    ReadsWithin(Put64(offset), z, 48);
  }

  lemma LocatorWritten(at: nat)
    requires at < 0x1_0000_0000_0000_0000
    ensures var z := Zip64Locator(at);
            && |z| == ZIP64_LOCATOR_LEN
            && Read32(z, 0) == ZIP64_LOCATOR_SIGNATURE && Read32(z, 4) == 0 && Read64(z, 8) == at && Read32(z, 16) == 1
  {
    LocatorParts(Put32(ZIP64_LOCATOR_SIGNATURE), Put32(0), Put64(at), Put32(1));
  }

  lemma LocatorParts(a: Bytes, b: Bytes, c: Bytes, d: Bytes)
    requires |a| == |b| == |d| == 4 && |c| == 8
    ensures var z := a + b + c + d;
            && Read32(z, 0) == Read32(a, 0) && Read32(z, 4) == Read32(b, 0)
            && Read64(z, 8) == Read64(c, 0) && Read32(z, 16) == Read32(d, 0)
  {
    var z := a + b + c + d;
    ReadsWithin(a, z, 0);
    ReadsWithin(b, z, 4);
    ReadsWithin(c, z, 8);
    ReadsWithin(d, z, 16);
  }

  /** The end record at `e`, with the zip64 records in front of it, declares what was written. */
  lemma Zip64IsFound(file: Bytes, at: nat, versions: Bytes, d: Declaration)
    requires |versions| == 20 && at + 76 + END_LEN <= |file| && d.end as int == at
    requires file[at..at + 56] == Zip64End(versions, d.entries as nat, d.size as nat, d.offset as nat)
    requires file[at + 56..at + 76] == Zip64Locator(at)
    requires NeedsZip64(file, at + 76)
    ensures DeclaresAt(file, |file|, at + 76, d)
  {
    Zip64EndFields(versions, d.entries as nat, d.size as nat, d.offset as nat);
    LocatorWritten(at);
    Zip64Fields(file, at);
    LocatorFields(file, at + 76);
  }

  /** The same directory stored with zip64 records is accepted as well, whatever the legacy fields say. */
  lemma AcceptsSerialised64(a: Archive, versions: Bytes, legacyEntries: nat, legacySize: nat)
    requires a.Valid() && a.Allowed() && |versions| == 20
    requires legacyEntries < 0x1_0000 && legacySize < 0x1_0000_0000
    requires CommentIsPlain(EndRecord(a.disks, legacyEntries, legacySize, 0xffff_ffff, a.comment))
    ensures var file := a.Bytes64(versions, legacyEntries, legacySize); Acceptable(file, |file|)
  {
    var file := a.Bytes64(versions, legacyEntries, legacySize);
    var at := |a.Start()|;
    var d := Declaration(|a.entries| as uint64, |a.Directory()| as uint64, a.offset as uint64, at as int64);
    Declares64(a.Start(), versions, d, a.disks, legacyEntries, legacySize, a.comment);
    assert file == Stored64(a.Start(), versions, d, a.disks, legacyEntries, legacySize, a.comment);
    StartStands(a.Start(), versions, d, a.disks, legacyEntries, legacySize, a.comment);
    DirectoryFits(a, file, d);
  }

  lemma StartStands(start: Bytes, versions: Bytes, d: Declaration, disks: Bytes,
                    legacyEntries: nat, legacySize: nat, comment: Bytes)
    requires |versions| == 20 && |disks| == 6 && |comment| < 0x1_0000
    requires legacyEntries < 0x1_0000 && legacySize < 0x1_0000_0000 && |start| < 0x1_0000_0000_0000_0000
    ensures var file := Stored64(start, versions, d, disks, legacyEntries, legacySize, comment);
            |start| <= |file| && file[..|start|] == start
  {
  }

  function Stored64(start: Bytes, versions: Bytes, d: Declaration, disks: Bytes,
                    legacyEntries: nat, legacySize: nat, comment: Bytes): Bytes
    requires |versions| == 20 && |disks| == 6 && |comment| < 0x1_0000
    requires legacyEntries < 0x1_0000 && legacySize < 0x1_0000_0000 && |start| < 0x1_0000_0000_0000_0000
  {
    start + Zip64End(versions, d.entries as nat, d.size as nat, d.offset as nat) + Zip64Locator(|start|)
    + EndRecord(disks, legacyEntries, legacySize, 0xffff_ffff, comment)
  }

  lemma Declares64(start: Bytes, versions: Bytes, d: Declaration, disks: Bytes,
                   legacyEntries: nat, legacySize: nat, comment: Bytes)
    requires |versions| == 20 && |disks| == 6 && |comment| < 0x1_0000
    requires legacyEntries < 0x1_0000 && legacySize < 0x1_0000_0000
    requires |start| < 0x7fff_ffff_0000_0000 && d.end as int == |start|
    requires CommentIsPlain(EndRecord(disks, legacyEntries, legacySize, 0xffff_ffff, comment))
    ensures var file := Stored64(start, versions, d, disks, legacyEntries, legacySize, comment);
            Declares(file, |file|, d)
  {
    var file := Stored64(start, versions, d, disks, legacyEntries, legacySize, comment);
    var z := Zip64End(versions, d.entries as nat, d.size as nat, d.offset as nat);
    var locator := Zip64Locator(|start|);
    EndRecordFields(disks, legacyEntries, legacySize, 0xffff_ffff, comment);
    EndIsFound(start + z + locator, EndRecord(disks, legacyEntries, legacySize, 0xffff_ffff, comment));
    assert file[|start|..|start| + 56] == z;
    assert file[|start| + 56..|start| + 76] == locator;
    Zip64IsFound(file, |start|, versions, d);
  }
}
