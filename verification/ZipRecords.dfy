/**
 The records of a ZIP central directory (sections 4.3.12 to 4.3.16 of PKWARE APPNOTE.TXT), as bytes.
 */
module ZipRecords {
  import opened ByteStrings
  import opened Wrappers

  const HEADER_SIGNATURE := 0x02014b50
  const END_SIGNATURE := 0x06054b50
  const ZIP64_END_SIGNATURE := 0x06064b50
  const ZIP64_LOCATOR_SIGNATURE := 0x07064b50
  const DIGITAL_SIGNATURE := 0x05054b50

  const END_LEN := 22
  const ZIP64_END_LEN := 56
  const ZIP64_LOCATOR_LEN := 20
  const HEADER_LEN := 46
  const MAX_CENTRAL_DIRECTORY := 0x80_0000
  const TAIL_LEN := 65 * 1024
  const MAX_ENTRIES := 25000

  // ---- Little-endian numbers ----

  function Read16(b: Bytes, at: nat): (n: nat)
    requires at + 2 <= |b|
    ensures n < 0x1_0000
  {
    b[at] as nat + 0x100 * b[at + 1] as nat
  }

  function Read32(b: Bytes, at: nat): (n: nat)
    requires at + 4 <= |b|
    ensures n < 0x1_0000_0000
  {
    Read16(b, at) + 0x1_0000 * Read16(b, at + 2)
  }

  function Read64(b: Bytes, at: nat): (n: nat)
    requires at + 8 <= |b|
    ensures n < 0x1_0000_0000_0000_0000
  {
    Read32(b, at) + 0x1_0000_0000 * Read32(b, at + 4)
  }

  function Put16(n: nat): (b: Bytes)
    requires n < 0x1_0000
    ensures |b| == 2 && Read16(b, 0) == n
  {
    [(n % 0x100) as byte, (n / 0x100) as byte]
  }

  function Put32(n: nat): (b: Bytes)
    requires n < 0x1_0000_0000
    ensures |b| == 4 && Read32(b, 0) == n
  {
    var b := Put16(n % 0x1_0000) + Put16(n / 0x1_0000);
    assert Read16(b, 0) == Read16(Put16(n % 0x1_0000), 0);
    assert Read16(b, 2) == Read16(Put16(n / 0x1_0000), 0);
    b
  }

  function Put64(n: nat): (b: Bytes)
    requires n < 0x1_0000_0000_0000_0000
    ensures |b| == 8 && Read64(b, 0) == n
  {
    var b := Put32(n % 0x1_0000_0000) + Put32(n / 0x1_0000_0000);
    ReadsWithin(Put32(n % 0x1_0000_0000), b, 0);
    ReadsWithin(Put32(n / 0x1_0000_0000), b, 4);
    b
  }

  /** Numbers are stored least significant byte first. */
  lemma LittleEndian(b: Bytes, at: nat)
    requires at + 2 <= |b|
    ensures Read16(b, at) == b[at] as nat + 256 * b[at + 1] as nat
    ensures at + 4 <= |b| ==>
              Read32(b, at) == b[at] as nat + 256 * (b[at + 1] as nat + 256 * (b[at + 2] as nat + 256 * b[at + 3] as nat))
    ensures at + 8 <= |b| ==> Read64(b, at) == Read32(b, at) + 0x1_0000_0000 * Read32(b, at + 4)
  {
  }

  /** A number is read the same wherever its bytes stand. */
  lemma ReadsWithin(field: Bytes, b: Bytes, at: nat)
    requires at + |field| <= |b| && b[at..at + |field|] == field
    ensures |field| >= 2 ==> Read16(b, at) == Read16(field, 0)
    ensures |field| >= 4 ==> Read32(b, at) == Read32(field, 0)
    ensures |field| >= 8 ==> Read64(b, at) == Read64(field, 0)
  {
    assert forall i :: 0 <= i < |field| ==> b[at + i] == field[i];
  }

  /** Reading inside a window of the bytes. */
  lemma ReadsInWindow(b: Bytes, lo: nat, n: nat, at: nat)
    requires lo + n <= |b|
    ensures at + 2 <= n ==> Read16(b[lo..lo + n], at) == Read16(b, lo + at)
    ensures at + 4 <= n ==> Read32(b[lo..lo + n], at) == Read32(b, lo + at)
    ensures at + 8 <= n ==> Read64(b[lo..lo + n], at) == Read64(b, lo + at)
  {
  }

  // ---- Records ----

  /** One complete central directory header: fixed part, name, extra field and comment. */
  predicate IsHeader(h: Bytes) {
    && |h| >= 46
    && Read32(h, 0) == 0x02014b50
    && |h| == 46 + Read16(h, 28) + Read16(h, 30) + Read16(h, 32)
  }

  /** The optional digital signature record at the end of the directory. */
  predicate IsDigitalSignature(d: Bytes) {
    |d| >= 6 && Read32(d, 0) == 0x05054b50 && |d| == 6 + Read16(d, 4)
  }

  function Concat(parts: seq<Bytes>): Bytes {
    if parts == [] then [] else parts[0] + Concat(parts[1..])
  }

  /** `region` is these headers one after another, then nothing or one digital signature. */
  predicate IsDirectory(region: Bytes, headers: seq<Bytes>, trailer: Bytes) {
    && (forall i :: 0 <= i < |headers| ==> IsHeader(headers[i]))
    && (trailer == [] || IsDigitalSignature(trailer))
    && region == Concat(headers) + trailer
  }

  /** The length of the header `region` starts with, when it starts with a complete one. */
  function FirstHeader(region: Bytes): (n: nat)
    requires |region| >= HEADER_LEN
  {
    HEADER_LEN + Read16(region, 28) + Read16(region, 30) + Read16(region, 32)
  }

  predicate StartsWithHeader(region: Bytes) {
    |region| >= HEADER_LEN && Read32(region, 0) == HEADER_SIGNATURE && FirstHeader(region) <= |region|
  }

  /** How many headers `region` holds, or nothing when it is not a directory. */
  function CountHeaders(region: Bytes): Option<nat>
    decreases |region|
  {
    if region == [] || IsDigitalSignature(region) then Some(0)
    else if StartsWithHeader(region) then
      match CountHeaders(region[FirstHeader(region)..])
      case Some(n) => Some(n + 1)
      case None => None
    else None
  }

  lemma {:induction false} CountedIsDirectory(region: Bytes) returns (headers: seq<Bytes>, trailer: Bytes)
    requires CountHeaders(region).Some?
    ensures IsDirectory(region, headers, trailer) && |headers| == CountHeaders(region).value
    decreases |region|
  {
    if region == [] || IsDigitalSignature(region) {
      headers, trailer := [], region;
    } else {
      var rest;
      rest, trailer := CountedIsDirectory(region[FirstHeader(region)..]);
      HeaderBefore(region, rest, trailer);
      headers := [region[..FirstHeader(region)]] + rest;
    }
  }

  lemma HeaderBefore(region: Bytes, rest: seq<Bytes>, trailer: Bytes)
    requires StartsWithHeader(region) && IsDirectory(region[FirstHeader(region)..], rest, trailer)
    ensures IsDirectory(region, [region[..FirstHeader(region)]] + rest, trailer)
  {
    var first := region[..FirstHeader(region)];
    FirstIsHeader(region, first);
    assert ([first] + rest)[1..] == rest;
    assert region == first + (Concat(rest) + trailer);
    Regroup(first, Concat(rest), trailer);
  }

  lemma FirstIsHeader(region: Bytes, first: Bytes)
    requires StartsWithHeader(region) && first == region[..FirstHeader(region)]
    ensures IsHeader(first)
  {
    ReadsInWindow(region, 0, |first|, 0);
    ReadsInWindow(region, 0, |first|, 28);
    ReadsInWindow(region, 0, |first|, 30);
    ReadsInWindow(region, 0, |first|, 32);
  }

  lemma {:induction false} DirectoryIsCounted(region: Bytes, headers: seq<Bytes>, trailer: Bytes)
    requires IsDirectory(region, headers, trailer)
    ensures CountHeaders(region) == Some(|headers|)
    decreases |headers|
  {
    if headers == [] {
      assert region == trailer;
    } else {
      var first, rest := headers[0], Concat(headers[1..]) + trailer;
      assert region == first + rest;
      assert region[..|first|] == first;
      HeaderSeenFrom(first, region);
      assert region[|first|..] == rest;
      DirectoryIsCounted(rest, headers[1..], trailer);
    }
  }

  lemma HeaderSeenFrom(first: Bytes, region: Bytes)
    requires IsHeader(first) && |first| <= |region| && region[..|first|] == first
    ensures StartsWithHeader(region) && FirstHeader(region) == |first| && !IsDigitalSignature(region)
  {
    assert forall i :: 0 <= i < |first| ==> region[i] == first[i];
  }

  /**
   A region is a directory in at most one way, and the count is its number of headers: the count
   is n exactly when the region is n complete headers followed by at most one digital signature.
   */
  lemma CountIsExact(region: Bytes, n: nat)
    ensures CountHeaders(region) == Some(n) <==>
            exists headers, trailer :: IsDirectory(region, headers, trailer) && |headers| == n
  {
    if CountHeaders(region) == Some(n) {
      var headers, trailer := CountedIsDirectory(region);
    }
    forall headers, trailer | IsDirectory(region, headers, trailer)
      ensures CountHeaders(region) == Some(|headers|)
    {
      DirectoryIsCounted(region, headers, trailer);
    }
  }

  // ---- Writing a directory ----

  /** A central directory entry; `times` and `location` are the fixed fields that carry no lengths. */
  datatype Entry = Entry(name: Bytes, extra: Bytes, comment: Bytes, times: Bytes, location: Bytes) {
    predicate Valid() {
      |name| < 0x1_0000 && |extra| < 0x1_0000 && |comment| < 0x1_0000 && |times| == 24 && |location| == 12
    }

    function Header(): (h: Bytes)
      requires Valid()
      ensures IsHeader(h)
    {
      var fixed := Put32(HEADER_SIGNATURE) + times + Put16(|name|) + Put16(|extra|) + Put16(|comment|) + location;
      var h := fixed + name + extra + comment;
      assert |fixed| == HEADER_LEN;
      ReadsWithin(Put32(HEADER_SIGNATURE), h, 0);
      ReadsWithin(Put16(|name|), h, 28);
      ReadsWithin(Put16(|extra|), h, 30);
      ReadsWithin(Put16(|comment|), h, 32);
      h
    }
  }

  function Headers(entries: seq<Entry>): seq<Bytes>
    requires forall i :: 0 <= i < |entries| ==> entries[i].Valid()
  {
    seq(|entries|, i requires 0 <= i < |entries| => entries[i].Header())
  }

  /** The end of central directory record, section 4.3.16. */
  function EndRecord(disks: Bytes, entries: nat, size: nat, offset: nat, comment: Bytes): Bytes
    requires |disks| == 6 && entries < 0x1_0000 && size < 0x1_0000_0000 && offset < 0x1_0000_0000
    requires |comment| < 0x1_0000
  {
    Put32(END_SIGNATURE) + disks + Put16(entries) + Put32(size) + Put32(offset) + Put16(|comment|) + comment
  }

  /** The zip64 end record without extensible data, section 4.3.14. */
  function Zip64End(versions: Bytes, entries: nat, size: nat, offset: nat): Bytes
    requires |versions| == 20
    requires entries < 0x1_0000_0000_0000_0000 && size < 0x1_0000_0000_0000_0000 && offset < 0x1_0000_0000_0000_0000
  {
    Put32(ZIP64_END_SIGNATURE) + Put64(44) + versions + Put64(entries) + Put64(size) + Put64(offset)
  }

  /** Its locator, section 4.3.15. */
  function Zip64Locator(at: nat): Bytes
    requires at < 0x1_0000_0000_0000_0000
  {
    Put32(ZIP64_LOCATOR_SIGNATURE) + Put32(0) + Put64(at) + Put32(1)
  }
}
