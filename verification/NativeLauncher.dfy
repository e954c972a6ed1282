/**
 The launcher verifiers of scripts/release/native-launcher.ts: a static PIE for Linux, a hardened
 signed executable for macOS.  Each `Is...` predicate describes a file by what lies where; each
 `Verify...` method walks the bytes as the release script does and accepts exactly those files.
 */
module NativeLauncher {
  import opened Common
  import opened Bytes

  const MAX_SAFE: nat := 0x1F_FFFF_FFFF_FFFF

  // ---------- ELF ----------

  const PT_LOAD: nat := 1
  const PT_DYNAMIC: nat := 2
  const PT_INTERP: nat := 3
  const DT_NEEDED: nat := 1

  predicate ElfHeader(b: Buffer) {
    && |b| >= 64 && b[..4] == [0x7f, 0x45, 0x4c, 0x46] && b[4] == 2 && b[5] == 1
    && U16LE(b, 16) == 3 && U16LE(b, 18) == 0x3e
  }

  /** A table of `rows` headers of `width` bytes each. */
  datatype Table = Table(start: nat, width: nat, rows: nat)

  function ProgramTable(b: Buffer): Table
    requires |b| >= 64
  {
    Table(U64LE(b, 32), U16LE(b, 54), U16LE(b, 56))
  }

  predicate WellFormed(t: Table, size: nat) {
    t.start <= MAX_SAFE && t.width >= 56 && t.rows != 0 && t.start + t.width * t.rows <= size
  }

  function Row(t: Table, i: nat): nat { t.start + i * t.width }

  /** Every row of a well-formed table lies in the file. */
  lemma RowInside(t: Table, size: nat, i: nat)
    requires WellFormed(t, size) && i < t.rows
    ensures Row(t, i) + 56 <= size
  {
    assert (i + 1) * t.width <= t.rows * t.width;
    assert (i + 1) * t.width == i * t.width + t.width;
  }

  /** The dynamic section lies in the file and names no shared library. */
  ghost predicate NoNeeded(b: Buffer, start: nat, size: nat) {
    && start <= MAX_SAFE && size <= MAX_SAFE && size % 16 == 0 && start + size <= |b|
    && forall e: nat :: e < size / 16 ==> U64LE(b, start + 16 * e) != DT_NEEDED
  }

  ghost predicate SegmentOk(b: Buffer, o: nat) {
    && o + 56 <= |b| && U32LE(b, o) != PT_INTERP
    && (U32LE(b, o) == PT_DYNAMIC ==> NoNeeded(b, U64LE(b, o + 8), U64LE(b, o + 32)))
  }

  predicate Loads(b: Buffer, o: nat) {
    o + 56 <= |b| && U32LE(b, o) == PT_LOAD
  }

  /** An x64 static PIE: no interpreter, no shared library in any dynamic segment, something to load. */
  ghost predicate IsStaticLinux(b: Buffer) {
    && ElfHeader(b) && WellFormed(ProgramTable(b), |b|)
    && (forall i: nat :: i < ProgramTable(b).rows ==> SegmentOk(b, Row(ProgramTable(b), i)))
    && exists i: nat :: i < ProgramTable(b).rows && Loads(b, Row(ProgramTable(b), i))
  }

  /** The walk over one dynamic segment. */
  method VerifyDynamic(b: Buffer, start: nat, size: nat) returns (ok: bool)
    ensures ok <==> NoNeeded(b, start, size)
  {
    hide U64LE;
    if start > MAX_SAFE || size > MAX_SAFE || size % 16 != 0 || start + size > |b| {
      return false;
    }
    var entry := start;
    ghost var e: nat := 0;
    while entry < start + size
      invariant entry == start + 16 * e && e <= size / 16
      invariant forall k: nat :: k < e ==> U64LE(b, start + 16 * k) != DT_NEEDED
    {
      if U64LE(b, entry) == DT_NEEDED {
        assert U64LE(b, start + 16 * e) == DT_NEEDED;
        return false;
      }
      entry, e := entry + 16, e + 1;
    }
    return true;
  }

  /** `verifyStaticLinuxLauncher`: accepts exactly the static launchers, reading in bounds only. */
  method VerifyStaticLinux(b: Buffer) returns (ok: bool)
    ensures ok <==> IsStaticLinux(b)
  {
    hide U16LE, U32LE, U64LE, NoNeeded, Row, WellFormed;
    if !ElfHeader(b) {
      return false;
    }
    var table := ProgramTable(b);
    if !WellFormed(table, |b|) {
      return false;
    }
    var loads := 0;
    var index := 0;
    ghost var last: nat := 0;
    while index < table.rows
      invariant index <= table.rows
      invariant forall i: nat :: i < index ==> SegmentOk(b, Row(table, i))
      invariant loads == 0 ==> forall i: nat :: i < index ==> !Loads(b, Row(table, i))
      invariant loads > 0 ==> last < index && Loads(b, Row(table, last))
    {
      RowInside(table, |b|, index);
      var offset := Row(table, index);
      var kind := U32LE(b, offset);
      if kind == PT_INTERP {
        assert !SegmentOk(b, Row(table, index));
        return false;
      }
      if kind == PT_LOAD {
        loads, last := loads + 1, index;
      }
      if kind == PT_DYNAMIC {
        var dynamic := VerifyDynamic(b, U64LE(b, offset + 8), U64LE(b, offset + 32));
        if !dynamic {
          assert !SegmentOk(b, Row(table, index));
          return false;
        }
      }
      index := index + 1;
    }
    return loads != 0;
  }

  // ---------- Code signature ----------

  const CS_EMBEDDED: nat := 0xfade0cc0
  const CS_DIRECTORY: nat := 0xfade0c02
  const CS_RUNTIME: nat := 0x1_0000

  predicate IsEntitlement(kind: nat) { kind == 5 || kind == 7 }

  predicate IsDirectorySlot(kind: nat) { kind == 0 || 0x1000 <= kind <= 0x1005 }

  /** The index of `count` slots fits after the twelve-byte header of the signature. */
  predicate SlotTable(g: Buffer) {
    |g| >= 12 && U32BE(g, 8) != 0 && 12 + U32BE(g, 8) * 8 <= |g|
  }

  function SlotKind(g: Buffer, i: nat): nat
    requires SlotTable(g) && i < U32BE(g, 8)
  {
    U32BE(g, 12 + i * 8)
  }

  function SlotOffset(g: Buffer, i: nat): nat
    requires SlotTable(g) && i < U32BE(g, 8)
  {
    U32BE(g, 16 + i * 8)
  }

  /** A blob with its own length lies at `o`, inside the signature. */
  predicate BlobAt(g: Buffer, o: nat) {
    o + 8 <= |g| && U32BE(g, o + 4) >= 8 && o + U32BE(g, o + 4) <= |g|
  }

  predicate SlotOk(g: Buffer, i: nat)
    requires SlotTable(g) && i < U32BE(g, 8)
  {
    BlobAt(g, SlotOffset(g, i)) && !IsEntitlement(SlotKind(g, i))
  }

  /** The blob at `o` is a code directory with the hardened runtime switched on. */
  predicate HardenedBlob(g: Buffer, o: nat)
    requires BlobAt(g, o)
  {
    U32BE(g, o) == CS_DIRECTORY && U32BE(g, o + 4) >= 16 && Bit(U32BE(g, o + 12), CS_RUNTIME)
  }

  predicate HardenedSlot(g: Buffer, i: nat)
    requires SlotTable(g) && i < U32BE(g, 8)
  {
    IsDirectorySlot(SlotKind(g, i)) && BlobAt(g, SlotOffset(g, i)) && HardenedBlob(g, SlotOffset(g, i))
  }

  predicate SignatureHeader(g: Buffer) {
    && |g| >= 12 && U32BE(g, 0) == CS_EMBEDDED && 12 <= U32BE(g, 4) <= |g|
    && forall i :: U32BE(g, 4) <= i < |g| ==> g[i] == 0
  }

  /** Every slot is a blob, none an entitlement, and some code directory is hardened. */
  ghost predicate HardenedSlots(g: Buffer) {
    && SlotTable(g)
    && (forall i: nat :: i < U32BE(g, 8) ==> SlotOk(g, i))
    && exists i: nat :: i < U32BE(g, 8) && HardenedSlot(g, i)
  }

  ghost predicate IsHardenedSignature(g: Buffer) {
    SignatureHeader(g) && HardenedSlots(g[..U32BE(g, 4)])
  }

  /** `verifyHardenedCodeSignature`: accepts exactly the hardened signatures, reading in bounds only. */
  method VerifyHardenedSignature(all: Buffer) returns (ok: bool)
    ensures ok <==> IsHardenedSignature(all)
  {
    hide U32BE, HardenedBlob;
    if !SignatureHeader(all) {
      return false;
    }
    var g := all[..U32BE(all, 4)];
    if !SlotTable(g) {
      return false;
    }
    var hardened := false;
    var index := 0;
    ghost var witness_: nat := 0;
    while index < U32BE(g, 8)
      invariant index <= U32BE(g, 8)
      invariant forall i: nat :: i < index ==> SlotOk(g, i)
      invariant hardened ==> witness_ < index && HardenedSlot(g, witness_)
      invariant !hardened ==> forall i: nat :: i < index ==> !HardenedSlot(g, i)
    {
      var kind, offset := SlotKind(g, index), SlotOffset(g, index);
      if !BlobAt(g, offset) || IsEntitlement(kind) {
        assert !SlotOk(g, index);
        return false;
      }
      if IsDirectorySlot(kind) && HardenedBlob(g, offset) {
        hardened, witness_ := true, index;
      }
      index := index + 1;
    }
    return hardened;
  }

  // ---------- Mach-O ----------

  const LC_CODE_SIGNATURE: nat := 0x1d

  predicate MachHeader(b: Buffer) {
    && |b| >= 32 && U32LE(b, 0) == 0xfeedfacf && U32LE(b, 4) == 0x01000007 && U32LE(b, 12) == 2
    && Bit(U32LE(b, 24), 0x20_0000)
  }

  function CommandsEnd(b: Buffer): nat
    requires |b| >= 32
  {
    32 + U32LE(b, 20)
  }

  /** A whole load command at `o`, ending by `end`. */
  predicate CommandAt(b: Buffer, o: nat, end: nat)
    requires end <= |b|
  {
    o + 8 <= end && U32LE(b, o + 4) >= 8 && o + U32LE(b, o + 4) <= end
  }

  /** The commands begin at `starts`, each where the one before it ends, from `o` exactly to `end`. */
  ghost predicate Tiles(b: Buffer, starts: seq<nat>, o: nat, m: nat, end: nat)
    requires end <= |b|
  {
    && |starts| > 0 && starts[0] == o && starts[|starts| - 1] == m
    && forall i :: 0 <= i < |starts| - 1 ==>
      CommandAt(b, starts[i], end) && starts[i + 1] == starts[i] + U32LE(b, starts[i] + 4)
  }

  predicate IsSignatureCommand(b: Buffer, o: nat, end: nat)
    requires end <= |b|
  {
    CommandAt(b, o, end) && U32LE(b, o) == LC_CODE_SIGNATURE
  }

  /** Command `s` is the only signature command among the first `n`, and has room for its fields. */
  ghost predicate OnlySignature(b: Buffer, starts: seq<nat>, n: nat, s: nat, end: nat)
    requires end <= |b| && n <= |starts|
  {
    && s < n && IsSignatureCommand(b, starts[s], end) && U32LE(b, starts[s] + 4) >= 16
    && forall i :: 0 <= i < n && IsSignatureCommand(b, starts[i], end) ==> i == s
  }

  /** `count` commands tile their region, and command `s` is the only signature command. */
  ghost predicate Commands(b: Buffer, count: nat, end: nat, starts: seq<nat>, s: nat)
    requires end <= |b|
  {
    |starts| == count + 1 && Tiles(b, starts, 32, end, end) && OnlySignature(b, starts, count, s, end)
  }

  /** The commands have one complete reading, and its only signature command is at `o`. */
  ghost predicate SignatureAt(b: Buffer, count: nat, end: nat, o: nat)
    requires end <= |b|
  {
    exists starts, s :: Commands(b, count, end, starts, s) && starts[s] == o
  }

  /** The signature command at `o` leads, inside the file, to a hardened signature. */
  ghost predicate SignedAt(b: Buffer, o: nat) {
    && o + 16 <= |b| && U32LE(b, o + 8) + U32LE(b, o + 12) <= |b|
    && IsHardenedSignature(b[U32LE(b, o + 8)..U32LE(b, o + 8) + U32LE(b, o + 12)])
  }

  /** An x64 PIE whose load commands tile their region, with one signature, a hardened one. */
  ghost predicate IsHardenedDarwin(b: Buffer) {
    && MachHeader(b) && U32LE(b, 16) != 0 && CommandsEnd(b) <= |b|
    && exists o :: SignatureAt(b, U32LE(b, 16), CommandsEnd(b), o) && SignedAt(b, o)
  }

  /** Two readings of the commands agree: the layout is forced by the bytes. */
  lemma {:induction false} TilesAgree(b: Buffer, x: seq<nat>, y: seq<nat>, o: nat, m: nat, n: nat, end: nat, i: nat)
    requires end <= |b| && Tiles(b, x, o, m, end) && Tiles(b, y, o, n, end) && i < |x| && i < |y|
    ensures x[i] == y[i]
    decreases i
  {
    hide U32LE;
    if i > 0 {
      TilesAgree(b, x, y, o, m, n, end, i - 1);
    }
  }

  /** A partial reading runs along any complete one. */
  lemma ReadingIsForced(b: Buffer, starts: seq<nat>, offset: nat, count: nat, end: nat, other: seq<nat>, s: nat)
    requires end <= |b| && Tiles(b, starts, 32, offset, end) && Commands(b, count, end, other, s) && |starts| <= |other|
    ensures other[..|starts|] == starts
    ensures |starts| < |other| ==> CommandAt(b, offset, end)
  {
    hide U32LE;
    forall i | 0 <= i < |starts|
      ensures other[i] == starts[i]
    {
      TilesAgree(b, starts, other, 32, offset, end, end, i);
    }
    if |starts| < |other| {
      assert other[|starts| - 1] == offset;
    }
  }

  lemma SignatureUnique(b: Buffer, count: nat, end: nat, o: nat, p: nat)
    requires end <= |b| && SignatureAt(b, count, end, o) && SignatureAt(b, count, end, p)
    ensures o == p && o + 16 <= |b|
  {
    hide U32LE;
    var x: seq<nat>, s: nat :| Commands(b, count, end, x, s) && x[s] == o;
    var y: seq<nat>, t: nat :| Commands(b, count, end, y, t) && y[t] == p;
    ReadingIsForced(b, x, end, count, end, y, t);
    assert x == y;
  }

  /** The commands read so far: whether one is the signature command, and which. */
  ghost predicate Scanned(b: Buffer, starts: seq<nat>, offset: nat, end: nat, signature: Option<nat>)
    requires end <= |b|
  {
    && Tiles(b, starts, 32, offset, end)
    && (signature.None? ==> forall i :: 0 <= i < |starts| - 1 ==> !IsSignatureCommand(b, starts[i], end))
    && (signature.Some? ==> OnlySignature(b, starts, |starts| - 1, signature.value, end))
  }

  /** One more command, read as the loop reads it. */
  lemma ScanMore(b: Buffer, starts: seq<nat>, offset: nat, end: nat, signature: Option<nat>)
    requires end <= |b| && Scanned(b, starts, offset, end, signature) && CommandAt(b, offset, end)
    requires U32LE(b, offset) == LC_CODE_SIGNATURE ==> U32LE(b, offset + 4) >= 16 && signature.None?
    ensures Scanned(b, starts + [offset + U32LE(b, offset + 4)], offset + U32LE(b, offset + 4), end,
                    if U32LE(b, offset) == LC_CODE_SIGNATURE then Some(|starts| - 1) else signature)
  {
    hide U32LE;
    var more := starts + [offset + U32LE(b, offset + 4)];
    assert forall i :: 0 <= i < |starts| ==> more[i] == starts[i];
  }

  /** A command the loop refuses belongs to no complete reading. */
  lemma Refused(b: Buffer, starts: seq<nat>, offset: nat, count: nat, end: nat, signature: Option<nat>)
    requires end <= |b| && Scanned(b, starts, offset, end, signature) && |starts| <= count
    requires CommandAt(b, offset, end) ==>
      U32LE(b, offset) == LC_CODE_SIGNATURE && (U32LE(b, offset + 4) < 16 || signature.Some?)
    ensures forall o :: !SignatureAt(b, count, end, o)
  {
    hide U32LE;
    forall other, s ensures !Commands(b, count, end, other, s) {
      if Commands(b, count, end, other, s) {
        ReadingIsForced(b, starts, offset, count, end, other, s);
      }
    }
  }

  /** The load commands: finds the one signature command of the one reading, if there is such a reading. */
  method WalkCommands(b: Buffer, count: nat, end: nat) returns (r: Option<nat>)
    requires end <= |b|
    ensures r.Some? ==> SignatureAt(b, count, end, r.value)
    ensures r.None? ==> forall o :: !SignatureAt(b, count, end, o)
  {
    hide U32LE, SignatureAt, Scanned;
    var offset, index := 32, 0;
    var at: Option<nat> := None;
    ghost var signature: Option<nat> := None;
    ghost var starts: seq<nat> := [32];
    ScanNone(b, end);
    while index < count
      invariant index <= count && |starts| == index + 1 && Scanned(b, starts, offset, end, signature)
      invariant at.Some? <==> signature.Some?
      invariant at.Some? ==> signature.value < |starts| && at.value == starts[signature.value]
    {
      if !CommandAt(b, offset, end) || (U32LE(b, offset) == LC_CODE_SIGNATURE && (U32LE(b, offset + 4) < 16 || at.Some?)) {
        Refused(b, starts, offset, count, end, signature);
        return None;
      }
      ScanMore(b, starts, offset, end, signature);
      ScannedLast(b, starts, offset, end, signature);
      var size := U32LE(b, offset + 4);
      if U32LE(b, offset) == LC_CODE_SIGNATURE {
        at, signature := Some(offset), Some(index);
      }
      offset, index, starts := offset + size, index + 1, starts + [offset + size];
    }
    ScanDone(b, starts, offset, count, end, signature);
    if offset != end {
      return None;
    }
    return at;
  }

  lemma ScanNone(b: Buffer, end: nat)
    requires end <= |b|
    ensures Scanned(b, [32], 32, end, None)
  {
  }

  lemma ScannedLast(b: Buffer, starts: seq<nat>, offset: nat, end: nat, signature: Option<nat>)
    requires end <= |b| && Scanned(b, starts, offset, end, signature)
    ensures |starts| > 0 && starts[|starts| - 1] == offset
  {
  }

  /** When all commands are read, the reading is complete or there is none. */
  lemma ScanDone(b: Buffer, starts: seq<nat>, offset: nat, count: nat, end: nat, signature: Option<nat>)
    requires end <= |b| && Scanned(b, starts, offset, end, signature) && |starts| == count + 1
    ensures offset == end && signature.Some? ==> signature.value < |starts| && SignatureAt(b, count, end, starts[signature.value])
    ensures offset != end || signature.None? ==> forall o :: !SignatureAt(b, count, end, o)
  {
    hide U32LE;
    assert offset == end && signature.Some? ==> Commands(b, count, end, starts, signature.value);
    forall other, s | Commands(b, count, end, other, s)
      ensures offset == end && signature.Some?
    {
      ReadingIsForced(b, starts, offset, count, end, other, s);
      assert other == other[..|starts|];
    }
  }

  /** `verifyHardenedDarwinLauncher`: accepts exactly the hardened launchers, reading in bounds only. */
  method VerifyHardenedDarwin(b: Buffer) returns (ok: bool)
    ensures ok <==> IsHardenedDarwin(b)
  {
    hide U32LE, IsHardenedSignature, Bit, SignatureAt;
    if !MachHeader(b) || U32LE(b, 16) == 0 || CommandsEnd(b) > |b| {
      return false;
    }
    var at := WalkCommands(b, U32LE(b, 16), CommandsEnd(b));
    if at.None? {
      return false;
    }
    var count, end, o := U32LE(b, 16), CommandsEnd(b), at.value;
    SignatureUnique(b, count, end, o, o);
    if U32LE(b, o + 8) + U32LE(b, o + 12) > |b| {
      ok := false;
    } else {
      ok := VerifyHardenedSignature(b[U32LE(b, o + 8)..U32LE(b, o + 8) + U32LE(b, o + 12)]);
    }
    assert ok <==> SignedAt(b, o);
    forall p | SignatureAt(b, count, end, p) ensures p == o {
      SignatureUnique(b, count, end, o, p);
    }
  }
}
