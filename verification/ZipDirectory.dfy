/**
 The ZIP central directory reader of scripts/release/node-runtime.ts.  Offsets and signatures are
 those of sections 4.3.12 and 4.3.16 of APPNOTE.TXT.
 */
module ZipDirectory {
  import opened Common
  import opened Bytes

  const RECORD_SIGNATURE: nat := 0x02014b50
  const END_SIGNATURE: nat := 0x06054b50
  const RECORD_BYTES: nat := 46
  const END_BYTES: nat := 22

  datatype EntryType = Directory | Link | Device | File

  /** A listed entry.  The name is kept as bytes with its declared encoding. */
  datatype Entry = Entry(name: Buffer, utf8: bool, kind: EntryType)

  function KindOf(name: Buffer, madeBy: nat, external: nat): EntryType {
    var unixMode := if madeBy / 256 == 3 then external / 0x1_0000 else 0;
    var kind := unixMode / 0x1000;
    if (name != [] && name[|name| - 1] == 0x2f) || kind == 4 || Bit(external, 0x10) then Directory
    else if kind == 10 then Link
    else if kind != 0 && kind != 8 then Device
    else File
  }

  // ---------- What an archive says ----------

  function RecordEnd(a: Buffer, o: nat): nat
    requires o + RECORD_BYTES <= |a|
  {
    o + RECORD_BYTES + U16LE(a, o + 28) + U16LE(a, o + 30) + U16LE(a, o + 32)
  }

  /** A complete, unencrypted central directory record begins at `o`. */
  predicate RecordAt(a: Buffer, o: nat) {
    && o + RECORD_BYTES <= |a| && U32LE(a, o) == RECORD_SIGNATURE
    && U16LE(a, o + 8) % 2 == 0 && RecordEnd(a, o) <= |a|
  }

  function EntryAt(a: Buffer, o: nat): Entry
    requires RecordAt(a, o)
  {
    var name := a[o + 46..o + 46 + U16LE(a, o + 28)];
    Entry(name, Bit(U16LE(a, o + 8), 0x800), KindOf(name, U16LE(a, o + 4), U32LE(a, o + 38)))
  }

  /** Contiguous records from `o` to `end`, one for each entry. */
  predicate Records(a: Buffer, o: nat, entries: seq<Entry>, end: nat)
    decreases entries
  {
    if entries == [] then o == end
    else RecordAt(a, o) && entries[0] == EntryAt(a, o) && Records(a, RecordEnd(a, o), entries[1..], end)
  }

  function Earliest(a: Buffer): nat { if |a| < 65557 then 0 else |a| - 65557 }

  /** The last end record within reach of the longest comment. */
  ghost predicate IsEnd(a: Buffer, e: nat) {
    && Earliest(a) <= e && e + END_BYTES <= |a| && U32LE(a, e) == END_SIGNATURE
    && forall o :: e < o && o + END_BYTES <= |a| ==> U32LE(a, o) != END_SIGNATURE
  }

  predicate Supported(a: Buffer, e: nat)
    requires e + END_BYTES <= |a|
  {
    && U16LE(a, e + 4) == 0 && U16LE(a, e + 6) == 0 && U16LE(a, e + 10) != 0xffff
    && U32LE(a, e + 12) != 0xffff_ffff && U32LE(a, e + 16) != 0xffff_ffff
    && U32LE(a, e + 16) + U32LE(a, e + 12) <= e
  }

  /** The directory that end record `e` describes lists exactly `entries` and stops just before `e`. */
  ghost predicate Lists(a: Buffer, e: nat, entries: seq<Entry>, end: nat) {
    && IsEnd(a, e) && Supported(a, e)
    && |entries| == U16LE(a, e + 10)
    && Records(a, U32LE(a, e + 16), entries, end)
    && e <= end + 20 && end <= e
  }

  ghost predicate Accepts(a: Buffer, entries: seq<Entry>) {
    exists e, end :: Lists(a, e, entries, end)
  }

  lemma {:induction false} RecordsUnique(a: Buffer, o: nat, x: seq<Entry>, y: seq<Entry>, ex: nat, ey: nat)
    requires Records(a, o, x, ex) && Records(a, o, y, ey) && |x| == |y|
    ensures x == y && ex == ey
    decreases x
  {
    if x != [] {
      RecordsUnique(a, RecordEnd(a, o), x[1..], y[1..], ex, ey);
      assert x == [x[0]] + x[1..] && y == [y[0]] + y[1..];
    }
  }

  /** An archive lists one sequence of entries. */
  lemma AcceptsUnique(a: Buffer, x: seq<Entry>, y: seq<Entry>)
    requires Accepts(a, x) && Accepts(a, y)
    ensures x == y
  {
    hide Records, Supported, U16LE, U32LE;
    var e: nat, ex: nat :| Lists(a, e, x, ex);
    var f: nat, ey: nat :| Lists(a, f, y, ey);
    hide IsEnd;
    RecordsUnique(a, U32LE(a, e + 16), x, y, ex, ey);
  }

  lemma {:induction false} RecordsAppend(a: Buffer, o: nat, entries: seq<Entry>, m: nat)
    requires Records(a, o, entries, m) && RecordAt(a, m)
    ensures Records(a, o, entries + [EntryAt(a, m)], RecordEnd(a, m))
    decreases entries
  {
    var all := entries + [EntryAt(a, m)];
    if entries == [] {
      assert all[1..] == [];
    } else {
      assert all[1..] == entries[1..] + [EntryAt(a, m)];
      RecordsAppend(a, RecordEnd(a, o), entries[1..], m);
    }
  }

  /** Records read in order are the only way a longer list can begin. */
  lemma {:induction false} RecordsPrefix(a: Buffer, o: nat, entries: seq<Entry>, m: nat, all: seq<Entry>, end: nat)
    requires Records(a, o, entries, m) && Records(a, o, all, end) && |entries| < |all|
    ensures RecordAt(a, m)
    decreases entries
  {
    if entries != [] {
      RecordsPrefix(a, RecordEnd(a, o), entries[1..], m, all[1..], end);
    }
  }

  // ---------- Reading ----------

  /** The backward scan for the end record. */
  method FindEnd(a: Buffer) returns (r: Option<nat>)
    ensures r.Some? ==> IsEnd(a, r.value)
    ensures r.None? ==> forall e :: !IsEnd(a, e)
  {
    var minimum := Earliest(a);
    var offset: int := |a| - END_BYTES;
    while offset >= minimum
      invariant offset <= |a| - END_BYTES
      invariant forall o: nat :: o > offset && o + END_BYTES <= |a| && o >= minimum ==> U32LE(a, o) != END_SIGNATURE
    {
      if U32LE(a, offset) == END_SIGNATURE {
        return Some(offset);
      }
      offset := offset - 1;
    }
    return None;
  }

  /**
   `listZipEntries`: for every byte string it reads in bounds only, and returns the entries that the
   archive lists or rejects an archive that lists none.
   */
  method ListZipEntries(a: Buffer) returns (r: Result<seq<Entry>>)
    ensures r.Ok? ==> Accepts(a, r.value)
    ensures r.Error? ==> forall entries :: !Accepts(a, entries)
  {
    hide Records, KindOf;
    var eocd := FindEnd(a);
    if eocd.None? {
      return Error;
    }
    var e := eocd.value;
    if !Supported(a, e) {
      forall entries ensures !Accepts(a, entries) { OnlyThisEnd(a, e, entries); }
      return Error;
    }
    var count := U16LE(a, e + 10);
    ghost var start := U32LE(a, e + 16);
    var offset := U32LE(a, e + 16);
    var entries: seq<Entry> := [];
    NoRecords(a, start);
    while |entries| < count
      invariant |entries| <= count && start == U32LE(a, e + 16)
      invariant Records(a, start, entries, offset)
    {
      if !RecordAt(a, offset) {
        forall other ensures !Accepts(a, other) {
          OnlyThisEnd(a, e, other);
          if Accepts(a, other) {
            var end :| Lists(a, e, other, end);
            RecordsPrefix(a, start, entries, offset, other, end);
          }
        }
        return Error;
      }
      RecordsAppend(a, start, entries, offset);
      entries := entries + [EntryAt(a, offset)];
      offset := RecordEnd(a, offset);
    }
    if offset > e || offset + 20 < e {
      forall other ensures !Accepts(a, other) {
        OnlyThisEnd(a, e, other);
        if Accepts(a, other) {
          var end :| Lists(a, e, other, end);
          RecordsUnique(a, start, entries, other, offset, end);
        }
      }
      return Error;
    }
    assert Lists(a, e, entries, offset);
    return Ok(entries);
  }

  lemma NoRecords(a: Buffer, o: nat)
    ensures Records(a, o, [], o)
  {
  }

  lemma OnlyThisEnd(a: Buffer, e: nat, entries: seq<Entry>)
    requires IsEnd(a, e)
    ensures Accepts(a, entries) ==> Supported(a, e) && exists end :: Lists(a, e, entries, end)
  {
    if Accepts(a, entries) {
      var f, end :| Lists(a, f, entries, end);
    }
  }

  /** The records begin at `starts[..|entries|]`, each where the one before it ends, and stop at `end`. */
  ghost predicate Layout(a: Buffer, starts: seq<nat>, entries: seq<Entry>, end: nat) {
    && |starts| == |entries| + 1 && starts[|entries|] == end
    && forall k :: 0 <= k < |entries| ==>
      RecordAt(a, starts[k]) && EntryAt(a, starts[k]) == entries[k] && RecordEnd(a, starts[k]) == starts[k + 1]
  }

  lemma {:induction false} RecordsAreLaidOut(a: Buffer, o: nat, entries: seq<Entry>, end: nat) returns (starts: seq<nat>)
    requires Records(a, o, entries, end)
    ensures Layout(a, starts, entries, end) && starts[0] == o
    decreases entries
  {
    hide EntryAt, RecordEnd, U16LE, U32LE;
    if entries == [] {
      starts := [o];
    } else {
      var rest := RecordsAreLaidOut(a, RecordEnd(a, o), entries[1..], end);
      starts := [o] + rest;
      forall k | 0 <= k < |entries|
        ensures RecordAt(a, starts[k]) && EntryAt(a, starts[k]) == entries[k] && RecordEnd(a, starts[k]) == starts[k + 1]
      {
        if k > 0 {
          assert starts[k] == rest[k - 1] && entries[k] == entries[1..][k - 1];
        }
      }
    }
  }

  lemma {:induction false} LaidOutApart(a: Buffer, starts: seq<nat>, entries: seq<Entry>, end: nat, i: nat, j: nat)
    requires Layout(a, starts, entries, end) && i < j <= |entries|
    ensures RecordEnd(a, starts[i]) <= starts[j]
    decreases j
  {
    if i + 1 < j {
      LaidOutApart(a, starts, entries, end, i, j - 1);
    }
  }

  /**
   What acceptance means in bytes: one disk, no ZIP64 value, and as many records as the end record
   declares, contiguous from the declared offset, pairwise disjoint, not encrypted, all of them before the end record
   and the last at most 20 bytes before it.
   */
  lemma AcceptedLayout(a: Buffer, entries: seq<Entry>) returns (e: nat, starts: seq<nat>)
    requires Accepts(a, entries)
    ensures IsEnd(a, e) && |entries| == U16LE(a, e + 10)
    ensures U16LE(a, e + 4) == U16LE(a, e + 6) == 0 && |entries| < 0xffff
    ensures U32LE(a, e + 16) + U32LE(a, e + 12) <= e && U32LE(a, e + 12) < 0xffff_ffff && U32LE(a, e + 16) < 0xffff_ffff
    ensures |starts| > 0 && starts[0] == U32LE(a, e + 16) && starts[|starts| - 1] <= e <= starts[|starts| - 1] + 20
    ensures Layout(a, starts, entries, starts[|starts| - 1])
    ensures forall k :: 0 <= k < |entries| ==> RecordAt(a, starts[k]) && U16LE(a, starts[k] + 8) % 2 == 0
    ensures forall i, j :: 0 <= i < j <= |entries| ==> RecordEnd(a, starts[i]) <= starts[j]
  {
    hide Records, EntryAt, RecordEnd, U16LE, U32LE;
    var end: nat;
    e, end :| Lists(a, e, entries, end);
    starts := RecordsAreLaidOut(a, U32LE(a, e + 16), entries, end);
    forall i, j | 0 <= i < j <= |entries|
      ensures RecordEnd(a, starts[i]) <= starts[j]
    {
      LaidOutApart(a, starts, entries, end, i, j);
    }
  }

  // ---------- Writing ----------

  /** A central directory record: the fields of section 4.3.12 in order. */
  datatype Header = Header(
    madeBy: nat, needed: nat, flags: nat, method_: nat, time: nat, date: nat, crc: nat, compressed: nat, size: nat,
    disk: nat, internal: nat, external: nat, local: nat, name: Buffer, extra: Buffer, comment: Buffer)

  predicate ValidHeader(h: Header) {
    && h.madeBy < 0x1_0000 && h.flags < 0x1_0000 && h.flags % 2 == 0 && h.external < 0x1_0000_0000
    && |h.name| < 0x1_0000 && |h.extra| < 0x1_0000 && |h.comment| < 0x1_0000
  }

  function HeaderByte(h: Header, i: nat): Byte {
    if i < 4 then ByteOf(RECORD_SIGNATURE, i)
    else if i < 6 then ByteOf(h.madeBy, i - 4)
    else if i < 8 then ByteOf(h.needed, i - 6)
    else if i < 10 then ByteOf(h.flags, i - 8)
    else if i < 12 then ByteOf(h.method_, i - 10)
    else if i < 14 then ByteOf(h.time, i - 12)
    else if i < 16 then ByteOf(h.date, i - 14)
    else if i < 20 then ByteOf(h.crc, i - 16)
    else if i < 24 then ByteOf(h.compressed, i - 20)
    else if i < 28 then ByteOf(h.size, i - 24)
    else if i < 30 then ByteOf(|h.name|, i - 28)
    else if i < 32 then ByteOf(|h.extra|, i - 30)
    else if i < 34 then ByteOf(|h.comment|, i - 32)
    else if i < 36 then ByteOf(h.disk, i - 34)
    else if i < 38 then ByteOf(h.internal, i - 36)
    else if i < 42 then ByteOf(h.external, i - 38)
    else ByteOf(h.local, i - 42)
  }

  function Encode(h: Header): Buffer {
    seq(RECORD_BYTES, i requires 0 <= i < RECORD_BYTES => HeaderByte(h, i)) + h.name + h.extra + h.comment
  }

  function EncodeAll(hs: seq<Header>): Buffer {
    if hs == [] then [] else Encode(hs[0]) + EncodeAll(hs[1..])
  }

  function EndByte(count: nat, size: nat, offset: nat, comment: nat, i: nat): Byte {
    if i < 4 then ByteOf(END_SIGNATURE, i)
    else if i < 8 then 0
    else if i < 10 then ByteOf(count, i - 8)
    else if i < 12 then ByteOf(count, i - 10)
    else if i < 16 then ByteOf(size, i - 12)
    else if i < 20 then ByteOf(offset, i - 16)
    else ByteOf(comment, i - 20)
  }

  function EndRecord(count: nat, size: nat, offset: nat, comment: Buffer): Buffer {
    seq(END_BYTES, i requires 0 <= i < END_BYTES => EndByte(count, size, offset, |comment|, i)) + comment
  }

  /** An archive: local data, the central directory and the end record of section 4.3.16. */
  function Archive(local: Buffer, hs: seq<Header>, comment: Buffer): Buffer {
    local + EncodeAll(hs) + EndRecord(|hs|, |EncodeAll(hs)|, |local|, comment)
  }

  function EntryOf(h: Header): Entry {
    Entry(h.name, Bit(h.flags, 0x800), KindOf(h.name, h.madeBy, h.external))
  }

  /** The three fields that decide what an entry is, taken apart; both flags are 0 or 1. */
  datatype Attributes = Attributes(
    host: nat, version: nat,                             // who made the entry
    type_: nat, permissions: nat,                        // the Unix mode
    upper: nat, directory: nat, lower: nat,              // the DOS attributes
    utf8: nat, flagsAbove: nat, flagsBelow: nat)         // the general flags

  predicate Valid(a: Attributes) {
    && a.version < 0x100 && a.permissions < 0x1000
    && a.upper < 0x800 && a.directory < 2 && a.lower < 0x10
    && a.utf8 < 2 && a.flagsBelow < 0x800
  }

  predicate Carries(h: Header, a: Attributes) {
    && h.madeBy == 0x100 * a.host + a.version
    && h.external == 0x1_0000 * (0x1000 * a.type_ + a.permissions) + (0x20 * a.upper + 0x10 * a.directory + a.lower)
    && h.flags == 0x1000 * a.flagsAbove + 0x800 * a.utf8 + a.flagsBelow
  }

  lemma Multiple(d: nat, k: int)
    ensures k >= 1 ==> d * k >= d
    ensures k <= -1 ==> d * k + d <= 0
  {
  }

  lemma Quotient(n: nat, d: nat, q: nat, r: nat)
    requires n == d * q + r && r < d
    ensures n / d == q && n % d == r
  {
    var k := n / d - q;
    assert d * k == r - n % d;
    Multiple(d, k);
  }

  lemma FieldsApart(h: Header, a: Attributes)
    requires Carries(h, a) && Valid(a)
    ensures h.madeBy / 256 == a.host && h.external / 0x1_0000 / 0x1000 == a.type_
    ensures Bit(h.external, 0x10) <==> a.directory == 1
    ensures Bit(h.flags, 0x800) <==> a.utf8 == 1
  {
    Quotient(h.madeBy, 0x100, a.host, a.version);
    var mode := 0x1000 * a.type_ + a.permissions;
    Quotient(h.external, 0x1_0000, mode, 0x20 * a.upper + 0x10 * a.directory + a.lower);
    Quotient(mode, 0x1000, a.type_, a.permissions);
    var above := 0x800 * mode + a.upper;
    Quotient(h.external, 0x10, 2 * above + a.directory, a.lower);
    Quotient(2 * above + a.directory, 2, above, a.directory);
    Quotient(h.flags, 0x800, 2 * a.flagsAbove + a.utf8, a.flagsBelow);
    Quotient(2 * a.flagsAbove + a.utf8, 2, a.flagsAbove, a.utf8);
  }

  /**
   What an entry is listed as.  A name with a trailing slash, the directory bit of DOS or, from a Unix host,
   the directory type makes a directory.  Otherwise only a Unix host makes links and devices: a symbolic
   link is type 10, and every type but that, the regular file and none is a device.
   */
  lemma EntryMeans(h: Header, a: Attributes)
    requires Carries(h, a) && Valid(a)
    ensures var e := EntryOf(h);
      var directory := (h.name != [] && h.name[|h.name| - 1] == '/' as int) || a.directory == 1 || (a.host == 3 && a.type_ == 4);
      && e.name == h.name && (e.utf8 <==> a.utf8 == 1)
      && (e.kind == Directory <==> directory)
      && (e.kind == Link <==> !directory && a.host == 3 && a.type_ == 10)
      && (e.kind == Device <==> !directory && a.host == 3 && a.type_ !in {0, 8, 10})
      && (e.kind == File <==> !directory && (a.host != 3 || a.type_ == 0 || a.type_ == 8))
  {
    FieldsApart(h, a);
    hide Bit, Carries;
  }

  function EntriesOf(hs: seq<Header>): (r: seq<Entry>)
    ensures |r| == |hs|
  {
    if hs == [] then [] else [EntryOf(hs[0])] + EntriesOf(hs[1..])
  }

  /** The fixed part of a record in place. */
  lemma HeaderReads(a: Buffer, o: nat, h: Header)
    requires ValidHeader(h) && o + RECORD_BYTES <= |a|
    requires forall i :: 0 <= i < RECORD_BYTES ==> a[o + i] == HeaderByte(h, i)
    ensures U32LE(a, o) == RECORD_SIGNATURE && U16LE(a, o + 4) == h.madeBy && U16LE(a, o + 8) == h.flags
    ensures U16LE(a, o + 28) == |h.name| && U16LE(a, o + 30) == |h.extra| && U16LE(a, o + 32) == |h.comment|
    ensures U32LE(a, o + 38) == h.external
  {
    hide ByteOf, U16LE, U32LE;
    forall k | 0 <= k < 4
      ensures a[o + k] == ByteOf(RECORD_SIGNATURE, k) && a[o + 38 + k] == ByteOf(h.external, k)
    {
      assert a[o + k] == HeaderByte(h, k) && a[o + (38 + k)] == HeaderByte(h, 38 + k);
    }
    ReadsU32(a, o, RECORD_SIGNATURE);
    ReadsU32(a, o + 38, h.external);
    assert a[o + 4] == HeaderByte(h, 4) && a[o + 5] == HeaderByte(h, 5);
    ReadsU16(a, o + 4, h.madeBy);
    assert a[o + 8] == HeaderByte(h, 8) && a[o + 9] == HeaderByte(h, 9);
    ReadsU16(a, o + 8, h.flags);
    assert a[o + 28] == HeaderByte(h, 28) && a[o + 29] == HeaderByte(h, 29);
    ReadsU16(a, o + 28, |h.name|);
    assert a[o + 30] == HeaderByte(h, 30) && a[o + 31] == HeaderByte(h, 31);
    ReadsU16(a, o + 30, |h.extra|);
    assert a[o + 32] == HeaderByte(h, 32) && a[o + 33] == HeaderByte(h, 33);
    ReadsU16(a, o + 32, |h.comment|);
  }

  lemma RecordReads(a: Buffer, o: nat, h: Header)
    requires ValidHeader(h) && o + |Encode(h)| <= |a| && a[o..o + |Encode(h)|] == Encode(h)
    ensures RecordAt(a, o) && RecordEnd(a, o) == o + |Encode(h)| && EntryAt(a, o) == EntryOf(h)
  {
    hide KindOf, HeaderByte, U16LE, U32LE;
    var code := Encode(h);
    forall i | 0 <= i < |code|
      ensures a[o + i] == code[i]
    {
      assert a[o..o + |code|][i] == a[o + i];
    }
    HeaderReads(a, o, h);
    var name := a[o + 46..o + 46 + |h.name|];
    forall i | 0 <= i < |h.name|
      ensures name[i] == h.name[i]
    {
      assert a[o + (46 + i)] == code[46 + i];
    }
    assert name == h.name;
  }

  lemma {:induction false} DirectoryReads(a: Buffer, o: nat, hs: seq<Header>)
    requires forall h :: h in hs ==> ValidHeader(h)
    requires o + |EncodeAll(hs)| <= |a| && a[o..o + |EncodeAll(hs)|] == EncodeAll(hs)
    ensures Records(a, o, EntriesOf(hs), o + |EncodeAll(hs)|)
    decreases hs
  {
    hide Encode, EntryOf, RecordAt, RecordEnd, EntryAt;
    if hs != [] {
      var first, rest := Encode(hs[0]), EncodeAll(hs[1..]);
      var all := first + rest;
      assert hs[0] in hs && EncodeAll(hs) == all;
      assert a[o..o + |first|] == a[o..o + |all|][..|first|] == first;
      RecordReads(a, o, hs[0]);
      assert a[o + |first|..o + |all|] == a[o..o + |all|][|first|..] == rest;
      DirectoryReads(a, o + |first|, hs[1..]);
      assert EntriesOf(hs)[1..] == EntriesOf(hs[1..]);
    }
  }

  lemma EndReads(a: Buffer, e: nat, count: nat, size: nat, offset: nat, comment: nat)
    requires e + END_BYTES <= |a| && count < 0x1_0000 && size < 0x1_0000_0000 && offset < 0x1_0000_0000
    requires forall i :: 0 <= i < END_BYTES ==> a[e + i] == EndByte(count, size, offset, comment, i)
    ensures U32LE(a, e) == END_SIGNATURE && U16LE(a, e + 4) == 0 && U16LE(a, e + 6) == 0
    ensures U16LE(a, e + 10) == count && U32LE(a, e + 12) == size && U32LE(a, e + 16) == offset
  {
    hide ByteOf, U32LE;
    forall k | 0 <= k < 4
      ensures a[e + k] == ByteOf(END_SIGNATURE, k) && a[e + 12 + k] == ByteOf(size, k) && a[e + 16 + k] == ByteOf(offset, k)
    {
      assert a[e + k] == EndByte(count, size, offset, comment, k);
      assert a[e + (12 + k)] == EndByte(count, size, offset, comment, 12 + k);
      assert a[e + (16 + k)] == EndByte(count, size, offset, comment, 16 + k);
    }
    ReadsU32(a, e, END_SIGNATURE);
    ReadsU32(a, e + 12, size);
    ReadsU32(a, e + 16, offset);
    assert a[e + 4] == EndByte(count, size, offset, comment, 4) && a[e + 5] == EndByte(count, size, offset, comment, 5);
    assert a[e + 6] == EndByte(count, size, offset, comment, 6) && a[e + 7] == EndByte(count, size, offset, comment, 7);
    assert a[e + 10] == EndByte(count, size, offset, comment, 10) && a[e + 11] == EndByte(count, size, offset, comment, 11);
    hide U16LE;
    ReadsU16(a, e + 10, count);
  }

  /** No end signature begins inside the end record or its comment. */
  ghost predicate NoLaterEnd(record: Buffer) {
    forall o :: 0 < o && o + END_BYTES <= |record| ==> U32LE(record, o) != END_SIGNATURE
  }

  /** What can be written without the ZIP64 extensions, with a comment that does not look like an end record. */
  ghost predicate Writable(local: Buffer, hs: seq<Header>, comment: Buffer) {
    && (forall h :: h in hs ==> ValidHeader(h))
    && |hs| < 0xffff && |local| < 0xffff_ffff && |EncodeAll(hs)| < 0xffff_ffff
    && |comment| <= 0xffff && NoLaterEnd(EndRecord(|hs|, |EncodeAll(hs)|, |local|, comment))
  }

  lemma ReadsAlike(a: Buffer, o: nat, b: Buffer, p: nat)
    requires o + 4 <= |a| && p + 4 <= |b| && a[o..o + 4] == b[p..p + 4]
    ensures U32LE(a, o) == U32LE(b, p)
  {
    var x, y := a[o..o + 4], b[p..p + 4];
    assert x[0] == a[o] && x[1] == a[o + 1] && x[2] == a[o + 2] && x[3] == a[o + 3];
    assert y[0] == b[p] && y[1] == b[p + 1] && y[2] == b[p + 2] && y[3] == b[p + 3];
  }

  /** The end record that was written is the one that is found. */
  lemma FindsTheEnd(a: Buffer, e: nat, record: Buffer)
    requires END_BYTES <= |record| <= END_BYTES + 0xffff && NoLaterEnd(record) && U32LE(record, 0) == END_SIGNATURE
    requires e <= |a| && a[e..] == record
    ensures IsEnd(a, e)
  {
    hide U32LE;
    assert a[e..e + 4] == a[e..][0..4];
    ReadsAlike(a, e, record, 0);
    forall o | e < o && o + END_BYTES <= |a|
      ensures U32LE(a, o) != END_SIGNATURE
    {
      assert a[o..o + 4] == a[e..][o - e..o - e + 4];
      ReadsAlike(a, o, record, o - e);
    }
  }

  /** Directory and end record in place make the listing. */
  lemma PlacedLists(a: Buffer, local: Buffer, hs: seq<Header>, comment: Buffer, record: Buffer)
    requires Writable(local, hs, comment) && record == EndRecord(|hs|, |EncodeAll(hs)|, |local|, comment)
    requires a == local + EncodeAll(hs) + record
    ensures IsEnd(a, |local| + |EncodeAll(hs)|) && Supported(a, |local| + |EncodeAll(hs)|)
    ensures U16LE(a, |local| + |EncodeAll(hs)| + 10) == |hs| && U32LE(a, |local| + |EncodeAll(hs)| + 16) == |local|
  {
    hide EncodeAll, U16LE, U32LE, EndByte, NoLaterEnd, IsEnd, ValidHeader;
    var size := |EncodeAll(hs)|;
    var e := |local| + size;
    assert a[e..] == record;
    forall i | 0 <= i < END_BYTES
      ensures a[e + i] == EndByte(|hs|, size, |local|, |comment|, i)
    {
      assert a[e + i] == record[i];
    }
    EndReads(a, e, |hs|, size, |local|, |comment|);
    EndReads(record, 0, |hs|, size, |local|, |comment|);
    FindsTheEnd(a, e, record);
  }

  /** Every written archive lists exactly the entries it was written from. */
  lemma ArchiveLists(local: Buffer, hs: seq<Header>, comment: Buffer)
    requires Writable(local, hs, comment)
    ensures Accepts(Archive(local, hs, comment), EntriesOf(hs))
  {
    hide Records, U16LE, U32LE, EndRecord, NoLaterEnd, IsEnd, Supported;
    var a, directory := Archive(local, hs, comment), EncodeAll(hs);
    var o, e := |local|, |local| + |directory|;
    assert a[o..o + |directory|] == directory;
    DirectoryReads(a, o, hs);
    PlacedLists(a, local, hs, comment, EndRecord(|hs|, |directory|, |local|, comment));
    hide Archive, EncodeAll;
    assert Lists(a, e, EntriesOf(hs), e);
  }

  /** Without a comment nothing can look like a later end record. */
  lemma PlainArchiveIsWritable(local: Buffer, hs: seq<Header>)
    requires |hs| < 0xffff && |local| < 0xffff_ffff && |EncodeAll(hs)| < 0xffff_ffff && forall h :: h in hs ==> ValidHeader(h)
    ensures Writable(local, hs, [])
  {
  }

  /** Parsing what was written gives back the entries: the round trip. */
  method WriteThenList(local: Buffer, hs: seq<Header>, comment: Buffer) returns (r: Result<seq<Entry>>)
    requires Writable(local, hs, comment)
    ensures r == Ok(EntriesOf(hs))
  {
    hide Accepts, Archive, EncodeAll, Writable;
    ArchiveLists(local, hs, comment);
    r := ListZipEntries(Archive(local, hs, comment));
    if r.Ok? {
      AcceptsUnique(Archive(local, hs, comment), r.value, EntriesOf(hs));
    }
  }

  /** The signatures that are written, byte for byte. */
  lemma SignaturesWritten(h: Header, count: nat, size: nat, offset: nat, comment: Buffer)
    ensures Encode(h)[..4] == ['P' as int, 'K' as int, 1, 2]
    ensures EndRecord(count, size, offset, comment)[..4] == ['P' as int, 'K' as int, 5, 6]
  {
    assert ByteOf(RECORD_SIGNATURE, 0) == 0x50 && ByteOf(RECORD_SIGNATURE / 256, 0) == 0x4b;
    assert ByteOf(END_SIGNATURE, 0) == 0x50 && ByteOf(END_SIGNATURE / 256, 0) == 0x4b;
    SecondAndLast(RECORD_SIGNATURE);
    SecondAndLast(END_SIGNATURE);
  }

  lemma SecondAndLast(n: nat)
    ensures ByteOf(n, 1) == n / 256 % 256 && ByteOf(n, 2) == n / 256 / 256 % 256 && ByteOf(n, 3) == n / 256 / 256 / 256 % 256
  {
    var q := n / 256;
    assert ByteOf(n, 1) == ByteOf(q, 0);
    assert ByteOf(n, 2) == ByteOf(q, 1) == ByteOf(q / 256, 0);
    assert ByteOf(n, 3) == ByteOf(q, 2) == ByteOf(q / 256, 1) == ByteOf(q / 256 / 256, 0);
  }
}
