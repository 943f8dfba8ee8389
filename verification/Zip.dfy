/**
 The stored-only archive writer of the wheel packer, against a reader of sections 4.3.16
 (end record), 4.3.12 (central directory) and 4.3.7 (local headers) of PKWARE's APPNOTE.
 The checksum is any function of the data. How the headers are made enters the argument only
 through what their fields say when they are read.
 */
module Zip {
  import opened Bytes
  import opened Wrappers

  /** A file name and its content; the writer walks its map in key order. */
  datatype Entry = Entry(name: seq<Byte>, data: seq<Byte>)

  type Word32 = n: int | 0 <= n < 0x1_0000_0000

  type Checksum = seq<Byte> -> Word32

  const LOCAL_SIGNATURE := 0x0403_4b50
  const CENTRAL_SIGNATURE := 0x0201_4b50
  const END_SIGNATURE := 0x0605_4b50
  const LOCAL_SIZE := 30
  const CENTRAL_SIZE := 46
  const END_SIZE := 22

  // ---- What is written -----------------------------------------------------

  /** What local and central headers share: version, flags, method, time, date, checksum, sizes, name and extra length. */
  function CommonFields(e: Entry, sum: nat): (h: seq<Byte>)
    ensures |h| == 26
  {
    Preamble() + Le(4, sum) + Sizes(|e.name|, |e.data|)
  }

  function Preamble(): (h: seq<Byte>)
    ensures |h| == 10
  {
    Le(2, 20) + Le(2, 0) + Le(2, 0) + Le(2, 0) + Le(2, 0x21)
  }

  function Sizes(name: nat, data: nat): (h: seq<Byte>)
    ensures |h| == 12
  {
    Le(4, data) + Le(4, data) + Le(2, name) + Le(2, 0)
  }

  function LocalHeader(e: Entry, sum: nat): (h: seq<Byte>)
    ensures |h| == LOCAL_SIZE
  {
    Le(4, LOCAL_SIGNATURE) + CommonFields(e, sum)
  }

  function CentralHeader(e: Entry, sum: nat, offset: nat): (h: seq<Byte>)
    ensures |h| == CENTRAL_SIZE
  {
    Le(4, CENTRAL_SIGNATURE) + Le(2, 0x0314) + CommonFields(e, sum) + CentralTail(offset)
  }

  /** Comment length, disk, attributes and the offset of the local header. */
  function CentralTail(offset: nat): (h: seq<Byte>)
    ensures |h| == 14
  {
    Le(2, 0) + Le(2, 0) + Le(2, 0) + Le(4, 0x81a4_0000) + Le(4, offset)
  }

  function EndRecord(count: nat, size: nat, offset: nat): (h: seq<Byte>)
    ensures |h| == END_SIZE
  {
    Le(4, END_SIGNATURE) + Le(2, 0) + Le(2, 0) + Le(2, count) + Le(2, count) + Le(4, size) + Le(4, offset) + Le(2, 0)
  }

  /** How headers are made; the reading proof needs no more of them than what their fields say. */
  datatype Headers = Headers(local: Entry -> seq<Byte>, central: (Entry, nat) -> seq<Byte>)

  function HeadersFor(crc: Checksum): Headers {
    Headers((e: Entry) => LocalHeader(e, crc(e.data)), (e: Entry, offset: nat) => CentralHeader(e, crc(e.data), offset))
  }

  function Local(hs: Headers, e: Entry): seq<Byte> {
    hs.local(e) + e.name + e.data
  }

  function Central(hs: Headers, e: Entry, offset: nat): seq<Byte> {
    hs.central(e, offset) + e.name
  }

  function Locals(hs: Headers, entries: seq<Entry>): seq<Byte> {
    if entries == [] then [] else Locals(hs, entries[..|entries| - 1]) + Local(hs, entries[|entries| - 1])
  }

  /** Every central record carries the offset of its local header. */
  function Centrals(hs: Headers, entries: seq<Entry>): seq<Byte> {
    if entries == [] then []
    else
      var before := entries[..|entries| - 1];
      Centrals(hs, before) + Central(hs, entries[|entries| - 1], |Locals(hs, before)|)
  }

  function Archive(hs: Headers, entries: seq<Entry>): seq<Byte> {
    var l, c := Locals(hs, entries), Centrals(hs, entries);
    l + c + EndRecord(|entries|, |c|, |l|)
  }

  method Zip(crc: Checksum, entries: seq<Entry>) returns (out: seq<Byte>)
    ensures out == Archive(HeadersFor(crc), entries)
    ensures ReadZip(crc, out) == Some(entries) <==> Fits(HeadersFor(crc), entries)
  {
    ghost var hs := HeadersFor(crc);
    out := [];
    var central: seq<Byte> := [];
    for k := 0 to |entries|
      invariant out == Locals(hs, entries[..k])
      invariant central == Centrals(hs, entries[..k])
    {
      var e, offset := entries[k], |out|;
      var sum := crc(e.data);
      assert entries[..k + 1][..k] == entries[..k];
      out := AddLocal(out, crc, e, sum);
      central := AddCentral(central, crc, e, sum, offset);
    }
    assert entries[..|entries|] == entries;
    var centralOffset, centralLen := |out|, |central|;
    out := out + central;
    out := AddEnd(out, |entries|, centralLen, centralOffset);
    RoundTrip(crc, entries);
  }

  method AddLocal(out: seq<Byte>, crc: Checksum, e: Entry, sum: nat) returns (out': seq<Byte>)
    requires sum == crc(e.data)
    ensures out' == out + Local(HeadersFor(crc), e)
  {
    var h := AddCommon(Le(4, LOCAL_SIGNATURE), e, sum);
    assert h == HeadersFor(crc).local(e);
    h := h + e.name;
    h := h + e.data;
    out' := out + h;
  }

  method AddCommon(h: seq<Byte>, e: Entry, sum: nat) returns (h': seq<Byte>)
    ensures h' == h + CommonFields(e, sum)
  {
    var c := Le(2, 20);
    c := c + Le(2, 0);
    c := c + Le(2, 0);
    c := c + Le(2, 0);
    c := c + Le(2, 0x21);
    c := c + Le(4, sum);
    var sizes := Le(4, |e.data|);
    sizes := sizes + Le(4, |e.data|);
    sizes := sizes + Le(2, |e.name|);
    sizes := sizes + Le(2, 0);
    h' := h + (c + sizes);
  }

  method AddCentral(central: seq<Byte>, crc: Checksum, e: Entry, sum: nat, offset: nat) returns (central': seq<Byte>)
    requires sum == crc(e.data)
    ensures central' == central + Central(HeadersFor(crc), e, offset)
  {
    var h := AddCommon(Le(4, CENTRAL_SIGNATURE) + Le(2, 0x0314), e, sum);
    var t := Le(2, 0);
    t := t + Le(2, 0);
    t := t + Le(2, 0);
    t := t + Le(4, 0x81a4_0000);
    t := t + Le(4, offset);
    h := h + t;
    assert h == HeadersFor(crc).central(e, offset);
    h := h + e.name;
    central' := central + h;
  }

  method AddEnd(out: seq<Byte>, count: nat, size: nat, offset: nat) returns (out': seq<Byte>)
    ensures out' == out + EndRecord(count, size, offset)
  {
    var h := Le(4, END_SIGNATURE);
    h := h + Le(2, 0);
    h := h + Le(2, 0);
    h := h + Le(2, count);
    h := h + Le(2, count);
    h := h + Le(4, size);
    h := h + Le(4, offset);
    h := h + Le(2, 0);
    out' := out + h;
  }

  // ---- A reader ------------------------------------------------------------

  /** Finds the end record of a single disk in the last 22 bytes and walks the directory that must end just
      before it. */
  function ReadZip(crc: Checksum, bytes: seq<Byte>): (r: Option<seq<Entry>>)
    ensures r.Some? ==> |r.value| < 0x1_0000 && forall i | 0 <= i < |r.value| :: |r.value[i].name| < 0x1_0000
  {
    if |bytes| < END_SIZE then None
    else
      var end := |bytes| - END_SIZE;
      var h := bytes[end..];
      if Get(h, 0, 4) != END_SIGNATURE || Get(h, 20, 2) != 0 || Get(h, 16, 4) + Get(h, 12, 4) != end then None
      else if Get(h, 4, 2) != 0 || Get(h, 6, 2) != 0 || Get(h, 8, 2) != Get(h, 10, 2) then None
      else
        GetBound(h, 10, 2);
        Ranges();
        ReadCentrals(crc, bytes, Get(h, 16, 4), end, Get(h, 10, 2))
  }

  function ReadCentrals(crc: Checksum, bytes: seq<Byte>, at: nat, end: nat, count: nat): (r: Option<seq<Entry>>)
    requires end <= |bytes|
    ensures r.Some? ==> |r.value| == count && forall i | 0 <= i < count :: |r.value[i].name| < 0x1_0000
    decreases count
  {
    if count == 0 then
      if at == end then Some([]) else None
    else
      match ReadRecord(bytes, at, end)
      case None => None
      case Some(record) =>
        match (ReadLocal(crc, bytes, record), ReadCentrals(crc, bytes, record.next, end, count - 1))
        case (Some(e), Some(rest)) => Some([e] + rest)
        case _ => None
  }

  /** What a central record says of its file, and where the next record begins. A file that is neither
      compressed nor encrypted has one size. */
  datatype Record = Record(name: seq<Byte>, size: nat, sum: nat, offset: nat, next: nat)

  function ReadRecord(bytes: seq<Byte>, at: nat, end: nat): (r: Option<Record>)
    requires end <= |bytes|
    ensures r.Some? ==> |r.value.name| < 0x1_0000
  {
    if at + CENTRAL_SIZE > end then None
    else
      var h := bytes[at..at + CENTRAL_SIZE];
      var names := at + CENTRAL_SIZE + Get(h, 28, 2);
      var next := names + Get(h, 30, 2) + Get(h, 32, 2);
      if Get(h, 0, 4) != CENTRAL_SIGNATURE || Get(h, 8, 2) != 0 || Get(h, 10, 2) != 0 || next > end then None
      else if Get(h, 24, 4) != Get(h, 20, 4) || Get(h, 34, 2) != 0 then None
      else
        GetBound(h, 28, 2);
        Ranges();
        Some(Record(bytes[at + CENTRAL_SIZE..names], Get(h, 20, 4), Get(h, 16, 4), Get(h, 42, 4), next))
  }

  /** The local header must be there and repeat what the record says: the name, the checksum, both sizes,
      stored and not encrypted; and its data must have the checksum. */
  function ReadLocal(crc: Checksum, bytes: seq<Byte>, record: Record): (r: Option<Entry>)
    ensures r.Some? ==> r.value.name == record.name
  {
    if record.offset + LOCAL_SIZE > |bytes| then None
    else
      var h := bytes[record.offset..record.offset + LOCAL_SIZE];
      var names := record.offset + LOCAL_SIZE;
      var data := names + Get(h, 26, 2) + Get(h, 28, 2);
      if Get(h, 0, 4) != LOCAL_SIGNATURE || Get(h, 6, 2) != 0 || Get(h, 8, 2) != 0 || data + record.size > |bytes| then None
      else if Get(h, 14, 4) != record.sum || Get(h, 18, 4) != record.size || Get(h, 22, 4) != record.size then None
      else
        var e := Entry(bytes[names..names + Get(h, 26, 2)], bytes[data..data + record.size]);
        if e.name == record.name && crc(e.data) == record.sum then Some(e) else None
  }

  // ---- The round trip ------------------------------------------------------

  /** The archive stays inside its 16- and 32-bit fields. */
  ghost predicate Fits(hs: Headers, entries: seq<Entry>) {
    && |entries| < 0x1_0000
    && (forall i | 0 <= i < |entries| :: |entries[i].name| < 0x1_0000)
    && |Locals(hs, entries)| < 0x1_0000_0000
    && |Centrals(hs, entries)| < 0x1_0000_0000
  }

  /** Every field of every header says what it should, up to truncation. */
  ghost predicate Readable(hs: Headers, crc: Checksum) {
    && (forall e :: LocalReadable(hs.local(e), e, crc(e.data)))
    && (forall e, offset :: CentralReadable(hs.central(e, offset), e, crc(e.data), offset))
  }

  /** Section 4.3.7, field by field: signature, version 2.0, no flags, stored, time, the first of January 1980,
      checksum, both sizes, and the lengths of name and extra field. */
  ghost predicate LocalSays(h: seq<Byte>, name: nat, size: nat, sum: nat) {
    && |h| == 30 && Get(h, 0, 4) == 0x0403_4b50
    && Get(h, 4, 2) == 20 && Get(h, 6, 2) == 0 && Get(h, 8, 2) == 0 && Get(h, 10, 2) == 0 && Get(h, 12, 2) == 0x21
    && Get(h, 14, 4) == sum && Get(h, 18, 4) == size && Get(h, 22, 4) == size && Get(h, 26, 2) == name && Get(h, 28, 2) == 0
  }

  /** Section 4.3.12: the same, after the version that made it (Unix, 2.0) and before the lengths of extra field
      and comment, disk, internal attributes, the mode of a plain readable file, and the local header's offset. */
  ghost predicate CentralSays(h: seq<Byte>, name: nat, size: nat, sum: nat, offset: nat) {
    && |h| == 46 && Get(h, 0, 4) == 0x0201_4b50 && Get(h, 4, 2) == 0x0314
    && Get(h, 6, 2) == 20 && Get(h, 8, 2) == 0 && Get(h, 10, 2) == 0 && Get(h, 12, 2) == 0 && Get(h, 14, 2) == 0x21
    && Get(h, 16, 4) == sum && Get(h, 20, 4) == size && Get(h, 24, 4) == size && Get(h, 28, 2) == name && Get(h, 30, 2) == 0
    && Get(h, 32, 2) == 0 && Get(h, 34, 2) == 0 && Get(h, 36, 2) == 0 && Get(h, 38, 4) == 0x81a4_0000 && Get(h, 42, 4) == offset
  }

  /** Section 4.3.16: disks, entries on this disk and in all, size and offset of the directory, no comment. */
  ghost predicate EndSays(h: seq<Byte>, count: nat, size: nat, offset: nat) {
    && |h| == 22 && Get(h, 0, 4) == 0x0605_4b50 && Get(h, 4, 2) == 0 && Get(h, 6, 2) == 0
    && Get(h, 8, 2) == count && Get(h, 10, 2) == count && Get(h, 12, 4) == size && Get(h, 16, 4) == offset && Get(h, 20, 2) == 0
  }

  ghost predicate LocalReadable(h: seq<Byte>, e: Entry, sum: nat) {
    LocalSays(h, |e.name| % 0x1_0000, |e.data| % 0x1_0000_0000, sum % 0x1_0000_0000)
  }

  ghost predicate CentralReadable(h: seq<Byte>, e: Entry, sum: nat, offset: nat) {
    CentralSays(h, |e.name| % 0x1_0000, |e.data| % 0x1_0000_0000, sum % 0x1_0000_0000, offset % 0x1_0000_0000)
  }

  ghost predicate EndReadable(h: seq<Byte>, count: nat, size: nat, offset: nat) {
    EndSays(h, count % 0x1_0000, size % 0x1_0000_0000, offset % 0x1_0000_0000)
  }

  lemma EndFields(count: nat, size: nat, offset: nat)
    ensures EndReadable(EndRecord(count, size, offset), count, size, offset)
  {
    Ranges();
    var h := EndRecord(count, size, offset);
    FieldReads(h, 0, 4, END_SIGNATURE);
    FieldReads(h, 4, 2, 0);
    FieldReads(h, 6, 2, 0);
    FieldReads(h, 8, 2, count);
    FieldReads(h, 10, 2, count);
    FieldReads(h, 12, 4, size);
    FieldReads(h, 16, 4, offset);
    FieldReads(h, 20, 2, 0);
  }

  /** The fields that local and central headers share, counted from the version on. */
  ghost predicate CommonSays(h: seq<Byte>, name: nat, size: nat, sum: nat) {
    && |h| == 26
    && Get(h, 0, 2) == 20 && Get(h, 2, 2) == 0 && Get(h, 4, 2) == 0 && Get(h, 6, 2) == 0 && Get(h, 8, 2) == 0x21
    && Get(h, 10, 4) == sum && Get(h, 14, 4) == size && Get(h, 18, 4) == size && Get(h, 22, 2) == name && Get(h, 24, 2) == 0
  }

  lemma FieldsInPreamble()
    ensures var h := Preamble();
      Get(h, 0, 2) == 20 && Get(h, 2, 2) == 0 && Get(h, 4, 2) == 0 && Get(h, 6, 2) == 0 && Get(h, 8, 2) == 0x21
  {
    Ranges();
    var h := Preamble();
    FieldReads(h, 0, 2, 20);
    FieldReads(h, 2, 2, 0);
    FieldReads(h, 4, 2, 0);
    FieldReads(h, 6, 2, 0);
    FieldReads(h, 8, 2, 0x21);
  }

  lemma FieldsInSizes(name: nat, data: nat)
    ensures var h := Sizes(name, data);
      && Get(h, 0, 4) == data % 0x1_0000_0000 && Get(h, 4, 4) == data % 0x1_0000_0000
      && Get(h, 8, 2) == name % 0x1_0000 && Get(h, 10, 2) == 0
  {
    Ranges();
    var h := Sizes(name, data);
    FieldReads(h, 0, 4, data);
    FieldReads(h, 4, 4, data);
    FieldReads(h, 8, 2, name);
    FieldReads(h, 10, 2, 0);
  }

  lemma FieldsInCommon(e: Entry, sum: nat)
    ensures CommonSays(CommonFields(e, sum), |e.name| % 0x1_0000, |e.data| % 0x1_0000_0000, sum % 0x1_0000_0000)
  {
    hide Preamble, Sizes, Le;
    var a, s, b := Preamble(), Le(4, sum), Sizes(|e.name|, |e.data|);
    FieldsInPreamble();
    FieldsInSizes(|e.name|, |e.data|);
    Ranges();
    ReadsBack(a, 4, sum, b);
    PreambleWithin(a, s + b);
    assert a + s + b == a + (s + b) && (a + s) + b + [] == a + s + b;
    Within(a + s, b, [], 0, 4);
    Within(a + s, b, [], 4, 4);
    Within(a + s, b, [], 8, 2);
    Within(a + s, b, [], 10, 2);
  }

  lemma PreambleWithin(a: seq<Byte>, rest: seq<Byte>)
    requires |a| == 10
    ensures forall at: nat | at in {0, 2, 4, 6, 8} :: Get(a + rest, at, 2) == Get(a, at, 2)
  {
    assert [] + a + rest == a + rest;
    forall at: nat | at in {0, 2, 4, 6, 8} ensures Get(a + rest, at, 2) == Get(a, at, 2) {
      Within([], a, rest, at, 2);
    }
  }

  ghost predicate TailSays(h: seq<Byte>, offset: nat) {
    && |h| == 14 && Get(h, 0, 2) == 0 && Get(h, 2, 2) == 0 && Get(h, 4, 2) == 0
    && Get(h, 6, 4) == 0x81a4_0000 && Get(h, 10, 4) == offset
  }

  lemma FieldsInTail(offset: nat)
    ensures TailSays(CentralTail(offset), offset % 0x1_0000_0000)
  {
    Ranges();
    var h := CentralTail(offset);
    FieldReads(h, 0, 2, 0);
    FieldReads(h, 2, 2, 0);
    FieldReads(h, 4, 2, 0);
    FieldReads(h, 6, 4, 0x81a4_0000);
    FieldReads(h, 10, 4, offset);
  }

  /** A common part that starts at `at` is read there. */
  lemma CommonWithin(head: seq<Byte>, common: seq<Byte>, tail: seq<Byte>, name: nat, size: nat, sum: nat)
    requires CommonSays(common, name, size, sum)
    ensures var h, at := head + common + tail, |head|;
      && Get(h, at, 2) == 20 && Get(h, at + 2, 2) == 0 && Get(h, at + 4, 2) == 0 && Get(h, at + 6, 2) == 0 && Get(h, at + 8, 2) == 0x21
      && Get(h, at + 10, 4) == sum && Get(h, at + 14, 4) == size && Get(h, at + 18, 4) == size
      && Get(h, at + 22, 2) == name && Get(h, at + 24, 2) == 0
  {
    Within(head, common, tail, 0, 2);
    Within(head, common, tail, 2, 2);
    Within(head, common, tail, 4, 2);
    Within(head, common, tail, 6, 2);
    Within(head, common, tail, 8, 2);
    Within(head, common, tail, 10, 4);
    Within(head, common, tail, 14, 4);
    Within(head, common, tail, 18, 4);
    Within(head, common, tail, 22, 2);
    Within(head, common, tail, 24, 2);
  }

  lemma TailWithin(head: seq<Byte>, tail: seq<Byte>, offset: nat)
    requires TailSays(tail, offset)
    ensures var h, at := head + tail, |head|;
      && Get(h, at, 2) == 0 && Get(h, at + 2, 2) == 0 && Get(h, at + 4, 2) == 0
      && Get(h, at + 6, 4) == 0x81a4_0000 && Get(h, at + 10, 4) == offset
  {
    assert head + tail + [] == head + tail;
    Within(head, tail, [], 0, 2);
    Within(head, tail, [], 2, 2);
    Within(head, tail, [], 4, 2);
    Within(head, tail, [], 6, 4);
    Within(head, tail, [], 10, 4);
  }

  /** What the central record says, field by field. */
  lemma CentralFields(e: Entry, sum: nat, offset: nat)
    ensures CentralReadable(CentralHeader(e, sum, offset), e, sum, offset)
  {
    var head, common, tail := Le(4, CENTRAL_SIGNATURE) + Le(2, 0x0314), CommonFields(e, sum), CentralTail(offset);
    Ranges();
    FieldReads(head, 0, 4, CENTRAL_SIGNATURE);
    FieldReads(head, 4, 2, 0x0314);
    FieldsInCommon(e, sum);
    FieldsInTail(offset);
    CentralParts(head, common, tail, |e.name| % 0x1_0000, |e.data| % 0x1_0000_0000, sum % 0x1_0000_0000, offset % 0x1_0000_0000);
  }

  lemma CentralParts(head: seq<Byte>, common: seq<Byte>, tail: seq<Byte>, name: nat, size: nat, sum: nat, offset: nat)
    requires |head| == 6 && Get(head, 0, 4) == 0x0201_4b50 && Get(head, 4, 2) == 0x0314
    requires CommonSays(common, name, size, sum) && TailSays(tail, offset)
    ensures CentralSays(head + common + tail, name, size, sum, offset)
  {
    var h := head + common + tail;
    assert [] + head + (common + tail) == h;
    Within([], head, common + tail, 0, 4);
    Within([], head, common + tail, 4, 2);
    CommonWithin(head, common, tail, name, size, sum);
    TailWithin(head + common, tail, offset);
  }

  /** What the local header says, field by field. */
  lemma LocalFields(e: Entry, sum: nat)
    ensures LocalReadable(LocalHeader(e, sum), e, sum)
  {
    var head, common := Le(4, LOCAL_SIGNATURE), CommonFields(e, sum);
    Ranges();
    FieldReads(head, 0, 4, LOCAL_SIGNATURE);
    FieldsInCommon(e, sum);
    LocalParts(head, common, |e.name| % 0x1_0000, |e.data| % 0x1_0000_0000, sum % 0x1_0000_0000);
  }

  lemma LocalParts(head: seq<Byte>, common: seq<Byte>, name: nat, size: nat, sum: nat)
    requires |head| == 4 && Get(head, 0, 4) == 0x0403_4b50 && CommonSays(common, name, size, sum)
    ensures LocalSays(head + common, name, size, sum)
  {
    assert [] + head + common == head + common == head + common + [];
    Within([], head, common, 0, 4);
    CommonWithin(head, common, [], name, size, sum);
  }

  /** `piece` lies in `bytes` at `at`. */
  ghost predicate LiesAt(bytes: seq<Byte>, at: nat, piece: seq<Byte>) {
    at + |piece| <= |bytes| && bytes[at..at + |piece|] == piece
  }

  lemma LiesWithin(bytes: seq<Byte>, at: nat, head: seq<Byte>, piece: seq<Byte>, tail: seq<Byte>)
    requires LiesAt(bytes, at, head + piece + tail)
    ensures LiesAt(bytes, at + |head|, piece)
  {
    var whole := head + piece + tail;
    forall i | 0 <= i < |piece| ensures bytes[at + |head| + i] == piece[i] {
      assert bytes[at..at + |whole|][|head| + i] == whole[|head| + i];
    }
    assert bytes[at + |head|..at + |head| + |piece|] == piece;
  }

  lemma HeadersReadable(crc: Checksum)
    ensures Readable(HeadersFor(crc), crc)
  {
    var hs := HeadersFor(crc);
    forall e ensures LocalReadable(hs.local(e), e, crc(e.data)) {
      LocalFields(e, crc(e.data));
    }
    forall e, offset ensures CentralReadable(hs.central(e, offset), e, crc(e.data), offset) {
      CentralFields(e, crc(e.data), offset);
    }
  }

  lemma {:induction false} LocalLies(hs: Headers, entries: seq<Entry>, k: nat)
    requires k < |entries|
    ensures LiesAt(Locals(hs, entries), |Locals(hs, entries[..k])|, Local(hs, entries[k]))
  {
    var n := |entries| - 1;
    var before := entries[..n];
    if k < n {
      LocalLies(hs, before, k);
      assert before[..k] == entries[..k];
      LiesInPrefix(Locals(hs, before), Local(hs, entries[n]), |Locals(hs, entries[..k])|, Local(hs, entries[k]));
    }
  }

  lemma {:induction false} CentralLies(hs: Headers, entries: seq<Entry>, k: nat)
    requires k < |entries|
    ensures LiesAt(Centrals(hs, entries), |Centrals(hs, entries[..k])|,
                   Central(hs, entries[k], |Locals(hs, entries[..k])|))
  {
    var n := |entries| - 1;
    var before := entries[..n];
    if k < n {
      CentralLies(hs, before, k);
      assert before[..k] == entries[..k];
      LiesInPrefix(Centrals(hs, before), Central(hs, entries[n], |Locals(hs, before)|),
                   |Centrals(hs, entries[..k])|, Central(hs, entries[k], |Locals(hs, entries[..k])|));
    }
  }

  lemma LiesInPrefix(a: seq<Byte>, b: seq<Byte>, at: nat, piece: seq<Byte>)
    requires LiesAt(a, at, piece)
    ensures LiesAt(a + b, at, piece)
  {
    assert (a + b)[at..at + |piece|] == a[at..at + |piece|];
  }

  lemma LiesInSuffix(a: seq<Byte>, b: seq<Byte>, at: nat, piece: seq<Byte>)
    requires LiesAt(b, at, piece)
    ensures LiesAt(a + b, |a| + at, piece)
  {
    assert (a + b)[|a| + at..|a| + at + |piece|] == b[at..at + |piece|];
  }

  lemma ReadsLocalParts(crc: Checksum, bytes: seq<Byte>, h: seq<Byte>, e: Entry, record: Record)
    requires |h| == LOCAL_SIZE && LiesAt(bytes, record.offset, h + e.name + e.data)
    requires LocalSays(h, |e.name|, |e.data|, crc(e.data))
    requires record.name == e.name && record.size == |e.data| && record.sum == crc(e.data)
    ensures ReadLocal(crc, bytes, record) == Some(e)
  {
    var at, names, data := record.offset, record.offset + LOCAL_SIZE, record.offset + LOCAL_SIZE + |e.name|;
    PartsLie(bytes, at, h, e.name, e.data);
    assert bytes[at..at + LOCAL_SIZE] == h && bytes[names..names + |e.name|] == e.name;
    assert bytes[data..data + |e.data|] == e.data;
  }

  lemma PartsLie(bytes: seq<Byte>, at: nat, a: seq<Byte>, b: seq<Byte>, c: seq<Byte>)
    requires LiesAt(bytes, at, a + b + c)
    ensures LiesAt(bytes, at, a) && LiesAt(bytes, at + |a|, b) && LiesAt(bytes, at + |a| + |b|, c)
  {
    assert a + b + c == [] + a + (b + c);
    LiesWithin(bytes, at, [], a, b + c);
    LiesWithin(bytes, at, a, b, c);
    assert a + b + c == (a + b) + c + [];
    LiesWithin(bytes, at, a + b, c, []);
  }

  lemma ReadsRecordParts(bytes: seq<Byte>, at: nat, end: nat, h: seq<Byte>, name: seq<Byte>, size: nat, sum: nat, offset: nat)
    requires CentralSays(h, |name|, size, sum, offset)
    requires LiesAt(bytes, at, h + name) && at + |h + name| <= end <= |bytes|
    ensures ReadRecord(bytes, at, end) == Some(Record(name, size, sum, offset, at + CENTRAL_SIZE + |name|))
  {
    assert h + name == [] + h + name == h + name + [];
    LiesWithin(bytes, at, [], h, name);
    LiesWithin(bytes, at, h, name, []);
  }

  /** Entry `k` is found at `at` in the directory, and its record leads to its data. */
  ghost predicate Found(crc: Checksum, bytes: seq<Byte>, at: nat, end: nat, e: Entry, next: nat)
    requires end <= |bytes|
  {
    && ReadRecord(bytes, at, end).Some? && ReadRecord(bytes, at, end).value.next == next
    && ReadLocal(crc, bytes, ReadRecord(bytes, at, end).value) == Some(e)
  }

  /** From the record of entry `k` on, the reader finds the entries from `k` on. */
  lemma {:induction false} ReadsFrom(crc: Checksum, bytes: seq<Byte>, entries: seq<Entry>, at: seq<nat>, end: nat, k: nat)
    requires end <= |bytes| && |at| == |entries| + 1 && at[|entries|] == end && k <= |entries|
    requires forall i | 0 <= i < |entries| :: Found(crc, bytes, at[i], end, entries[i], at[i + 1])
    ensures ReadCentrals(crc, bytes, at[k], end, |entries| - k) == Some(entries[k..])
    decreases |entries| - k
  {
    if k < |entries| {
      assert Found(crc, bytes, at[k], end, entries[k], at[k + 1]);
      ReadsFrom(crc, bytes, entries, at, end, k + 1);
      assert [entries[k]] + entries[k + 1..] == entries[k..];
    } else {
      assert entries[k..] == [];
    }
  }

  /** Where the two records of entry `k` are, whatever follows the directory. */
  lemma RecordsLie(hs: Headers, entries: seq<Entry>, k: nat, tail: seq<Byte>)
    requires k < |entries|
    ensures var l, c := Locals(hs, entries), Centrals(hs, entries);
      var at, offset := |Centrals(hs, entries[..k])|, |Locals(hs, entries[..k])|;
      && LiesAt(l + c + tail, |l| + at, Central(hs, entries[k], offset))
      && at + |Central(hs, entries[k], offset)| <= |c|
      && LiesAt(l + c + tail, offset, Local(hs, entries[k]))
      && offset + |Local(hs, entries[k])| <= |l|
  {
    var l, c := Locals(hs, entries), Centrals(hs, entries);
    var at, offset := |Centrals(hs, entries[..k])|, |Locals(hs, entries[..k])|;
    LocalLies(hs, entries, k);
    CentralLies(hs, entries, k);
    LiesInSuffix(l, c, at, Central(hs, entries[k], offset));
    LiesInPrefix(l + c, tail, |l| + at, Central(hs, entries[k], offset));
    LiesInPrefix(l, c, offset, Local(hs, entries[k]));
    LiesInPrefix(l + c, tail, offset, Local(hs, entries[k]));
  }

  function CentralAt(hs: Headers, entries: seq<Entry>, k: nat): nat
    requires k <= |entries|
  {
    |Locals(hs, entries)| + |Centrals(hs, entries[..k])|
  }

  lemma CentralNext(hs: Headers, entries: seq<Entry>, k: nat)
    requires k < |entries|
    ensures CentralAt(hs, entries, k + 1)
         == CentralAt(hs, entries, k) + |hs.central(entries[k], |Locals(hs, entries[..k])|) + entries[k].name|
  {
    assert entries[..k + 1][..k] == entries[..k];
  }

  lemma EntryFits(hs: Headers, entries: seq<Entry>, k: nat)
    requires Fits(hs, entries) && k < |entries|
    ensures |entries[k].name| < 0x1_0000 && |entries[k].data| < 0x1_0000_0000
    ensures |Locals(hs, entries[..k])| < 0x1_0000_0000
  {
    LocalLies(hs, entries, k);
  }

  /** Where the two headers of entry `k` are, and where the next record begins. */
  lemma EntryLies(hs: Headers, entries: seq<Entry>, k: nat, bytes: seq<Byte>, end: nat, tail: seq<Byte>)
    requires k < |entries|
    requires bytes == Locals(hs, entries) + Centrals(hs, entries) + tail
    requires end == |Locals(hs, entries)| + |Centrals(hs, entries)|
    ensures var at, offset, e := CentralAt(hs, entries, k), |Locals(hs, entries[..k])|, entries[k];
      && LiesAt(bytes, at, hs.central(e, offset) + e.name) && LiesAt(bytes, offset, hs.local(e) + e.name + e.data)
      && CentralAt(hs, entries, k + 1) == at + |hs.central(e, offset) + e.name| <= end <= |bytes|
  {
    CentralNext(hs, entries, k);
    RecordsLie(hs, entries, k, tail);
  }

  lemma EntryFound(hs: Headers, crc: Checksum, entries: seq<Entry>, k: nat, bytes: seq<Byte>, end: nat, tail: seq<Byte>)
    requires Fits(hs, entries) && Readable(hs, crc) && k < |entries|
    requires bytes == Locals(hs, entries) + Centrals(hs, entries) + tail
    requires end == |Locals(hs, entries)| + |Centrals(hs, entries)|
    ensures Found(crc, bytes, CentralAt(hs, entries, k), end, entries[k], CentralAt(hs, entries, k + 1))
  {
    hide Locals, Centrals, CentralAt, Found, LiesAt, LocalSays, CentralSays, Fits, Readable;
    var at, offset, e := CentralAt(hs, entries, k), |Locals(hs, entries[..k])|, entries[k];
    EntryExact(hs, crc, entries, k);
    EntryLies(hs, entries, k, bytes, end, tail);
    FoundByParts(crc, bytes, at, end, e, offset, hs.local(e), hs.central(e, offset));
  }

  lemma EntryExact(hs: Headers, crc: Checksum, entries: seq<Entry>, k: nat)
    requires Fits(hs, entries) && Readable(hs, crc) && k < |entries|
    ensures var e, offset := entries[k], |Locals(hs, entries[..k])|;
      && LocalSays(hs.local(e), |e.name|, |e.data|, crc(e.data))
      && CentralSays(hs.central(e, offset), |e.name|, |e.data|, crc(e.data), offset)
  {
    var e, offset := entries[k], |Locals(hs, entries[..k])|;
    EntryFits(hs, entries, k);
    assert LocalReadable(hs.local(e), e, crc(e.data)) && CentralReadable(hs.central(e, offset), e, crc(e.data), offset);
    NothingTruncated(hs.local(e), hs.central(e, offset), e, crc(e.data), offset);
  }

  /** A record and a local header whose fields say exactly what they should lead to the entry. */
  lemma FoundByParts(crc: Checksum, bytes: seq<Byte>, at: nat, end: nat, e: Entry, offset: nat, lh: seq<Byte>, ch: seq<Byte>)
    requires LocalSays(lh, |e.name|, |e.data|, crc(e.data)) && CentralSays(ch, |e.name|, |e.data|, crc(e.data), offset)
    requires LiesAt(bytes, at, ch + e.name) && at + |ch + e.name| <= end <= |bytes|
    requires LiesAt(bytes, offset, lh + e.name + e.data)
    ensures Found(crc, bytes, at, end, e, at + |ch + e.name|)
  {
    ReadsRecordParts(bytes, at, end, ch, e.name, |e.data|, crc(e.data), offset);
    ReadsLocalParts(crc, bytes, lh, e, ReadRecord(bytes, at, end).value);
  }

  lemma NothingTruncated(lh: seq<Byte>, ch: seq<Byte>, e: Entry, sum: nat, offset: nat)
    requires LocalReadable(lh, e, sum) && CentralReadable(ch, e, sum, offset)
    requires |e.name| < 0x1_0000 && |e.data| < 0x1_0000_0000 && offset < 0x1_0000_0000 && sum < 0x1_0000_0000
    ensures LocalSays(lh, |e.name|, |e.data|, sum) && CentralSays(ch, |e.name|, |e.data|, sum, offset)
  {
  }

  /** What the reader makes of the end record: the directory it points at must end where the record begins. */
  lemma ReadsDirectory(crc: Checksum, body: seq<Byte>, tail: seq<Byte>, count: nat, size: nat, offset: nat)
    requires EndSays(tail, count, size, offset)
    ensures offset + size == |body| ==> ReadZip(crc, body + tail) == ReadCentrals(crc, body + tail, offset, |body|, count)
    ensures offset + size != |body| ==> ReadZip(crc, body + tail) == None
  {
    assert (body + tail)[|body|..] == tail;
  }

  lemma AllFound(hs: Headers, crc: Checksum, entries: seq<Entry>, bytes: seq<Byte>, end: nat, tail: seq<Byte>)
    returns (at: seq<nat>)
    requires Fits(hs, entries) && Readable(hs, crc)
    requires bytes == Locals(hs, entries) + Centrals(hs, entries) + tail
    requires end == |Locals(hs, entries)| + |Centrals(hs, entries)|
    ensures |at| == |entries| + 1 && at[0] == |Locals(hs, entries)| && at[|entries|] == end
    ensures forall i | 0 <= i < |entries| :: Found(crc, bytes, at[i], end, entries[i], at[i + 1])
  {
    var n := |entries|;
    assert entries[..n] == entries;
    at := [CentralAt(hs, entries, 0)];
    for k := 0 to n
      invariant |at| == k + 1 && at[0] == CentralAt(hs, entries, 0) && at[k] == CentralAt(hs, entries, k)
      invariant forall i | 0 <= i < k :: Found(crc, bytes, at[i], end, entries[i], at[i + 1])
    {
      EntryFound(hs, crc, entries, k, bytes, end, tail);
      at := at + [CentralAt(hs, entries, k + 1)];
    }
  }

  lemma ReadsAll(hs: Headers, crc: Checksum, entries: seq<Entry>, tail: seq<Byte>)
    requires Fits(hs, entries) && Readable(hs, crc)
    ensures var l, c := Locals(hs, entries), Centrals(hs, entries);
      ReadCentrals(crc, l + c + tail, |l|, |l + c|, |entries|) == Some(entries)
  {
    var bytes, end := Locals(hs, entries) + Centrals(hs, entries) + tail, |Locals(hs, entries) + Centrals(hs, entries)|;
    var at := AllFound(hs, crc, entries, bytes, end, tail);
    ReadsFrom(crc, bytes, entries, at, end, 0);
    assert entries[0..] == entries;
  }

  /** The reader recovers exactly the entries, in order, precisely when every field fits. */
  lemma RoundTrip(crc: Checksum, entries: seq<Entry>)
    ensures var hs := HeadersFor(crc);
      ReadZip(crc, Archive(hs, entries)) == Some(entries) <==> Fits(hs, entries)
  {
    HeadersReadable(crc);
    ReadableRoundTrip(HeadersFor(crc), crc, entries);
  }

  lemma ReadableRoundTrip(hs: Headers, crc: Checksum, entries: seq<Entry>)
    requires Readable(hs, crc)
    ensures ReadZip(crc, Archive(hs, entries)) == Some(entries) <==> Fits(hs, entries)
  {
    var l, c := Locals(hs, entries), Centrals(hs, entries);
    var tail := EndRecord(|entries|, |c|, |l|);
    EndFields(|entries|, |c|, |l|);
    if Fits(hs, entries) {
      ReadsAll(hs, crc, entries, tail);
      EndExact(tail, |entries|, |c|, |l|);
      ReadsDirectory(crc, l + c, tail, |entries|, |c|, |l|);
    }
    if ReadZip(crc, Archive(hs, entries)) == Some(entries) {
      ReadsOnlyFitting(crc, entries, l + c, tail, |c|, |l|);
    }
  }

  lemma EndExact(tail: seq<Byte>, count: nat, size: nat, offset: nat)
    requires EndReadable(tail, count, size, offset)
    requires count < 0x1_0000 && offset < 0x1_0000_0000 && size < 0x1_0000_0000
    ensures EndSays(tail, count, size, offset)
  {
  }

  /** A directory that does not end where the end record begins is not read. */
  lemma ReadsNothing(crc: Checksum, body: seq<Byte>, tail: seq<Byte>)
    requires |tail| == END_SIZE && Get(tail, 16, 4) + Get(tail, 12, 4) != |body|
    ensures ReadZip(crc, body + tail) == None
  {
    assert (body + tail)[|body|..] == tail;
  }

  lemma SumOfResidues(a: nat, b: nat)
    requires a % 0x1_0000_0000 + b % 0x1_0000_0000 == a + b
    ensures a < 0x1_0000_0000 && b < 0x1_0000_0000
  {
  }

  lemma ReadsOnlyFitting(crc: Checksum, entries: seq<Entry>, body: seq<Byte>, tail: seq<Byte>, size: nat, offset: nat)
    requires EndReadable(tail, |entries|, size, offset) && offset + size == |body|
    requires ReadZip(crc, body + tail) == Some(entries)
    ensures offset < 0x1_0000_0000 && size < 0x1_0000_0000 && |entries| < 0x1_0000
    ensures forall i | 0 <= i < |entries| :: |entries[i].name| < 0x1_0000
  {
    if Get(tail, 16, 4) + Get(tail, 12, 4) != |body| {
      ReadsNothing(crc, body, tail);
    }
    SumOfResidues(offset, size);
  }
}
