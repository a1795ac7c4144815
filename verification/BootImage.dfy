/** mkbootimg.py for header versions 0 to 2: the writer appends fields and padded files to an output
    file, and the readers of the other tools get back what was written. */
module BootImage {
  import opened Arithmetic
  import opened Bytes

  const BOOT_MAGIC: bytes := [65, 78, 68, 82, 79, 73, 68, 33]
  const BOOT_NAME_SIZE: nat := 16
  const DIGEST_SIZE: nat := 32
  const BOOT_ARGS_SIZE: nat := 512
  const BOOT_EXTRA_ARGS_SIZE: nat := 1024
  const BOOT_IMAGE_HEADER_V1_SIZE: nat := 1648
  const BOOT_IMAGE_HEADER_V2_SIZE: nat := 1660
  const WORD_64: nat := 0x1_0000_0000_0000_0000

  datatype File = Absent | Present(contents: bytes)

  function FileSize(f: File): nat {
    if f.Present? then |f.contents| else 0
  }

  datatype Args = Args(
    kernel: File, ramdisk: File, second: File, recoveryDtbo: File, dtb: File,
    base: nat, kernelOffset: nat, ramdiskOffset: nat, secondOffset: nat, tagsOffset: nat, dtbOffset: nat,
    pageSize: nat, headerVersion: nat, osVersion: nat, osPatchLevel: nat,
    board: bytes, cmdline: bytes, extraCmdline: bytes)
  {
    /** What argparse lets through. */
    predicate Valid() {
      pageSize in {2048, 4096, 8192, 16384} && headerVersion <= 2 && osPatchLevel < 2048
    }

    /** The ten words after the magic, in order. */
    function Words(): (ws: seq<nat>)
      ensures |ws| == 10
    {
      [FileSize(kernel), base + kernelOffset, FileSize(ramdisk), RamdiskAddress(),
       FileSize(second), SecondAddress(), base + tagsOffset, pageSize, headerVersion,
       osVersion * 2048 + osPatchLevel]
    }

    function RamdiskAddress(): nat {
      if FileSize(ramdisk) > 0 then base + ramdiskOffset else 0
    }

    function SecondAddress(): nat {
      if FileSize(second) > 0 then base + secondOffset else 0
    }

    /** The ten fields after the magic fit 32 bits. */
    predicate FieldsFit() {
      && FileSize(kernel) < WORD_32 && FileSize(ramdisk) < WORD_32 && FileSize(second) < WORD_32
      && base + kernelOffset < WORD_32 && base + tagsOffset < WORD_32
      && (FileSize(ramdisk) > 0 ==> base + ramdiskOffset < WORD_32)
      && (FileSize(second) > 0 ==> base + secondOffset < WORD_32)
      && osVersion * 2048 + osPatchLevel < WORD_32
    }

    /** No field overflows, and a version 2 image has a device tree. */
    predicate Packable() {
      && FieldsFit()
      && (headerVersion > 0 ==> FileSize(recoveryDtbo) < WORD_32
                                && (recoveryDtbo.Present? ==> RecoveryDtboOffset() < WORD_64))
      && (headerVersion > 1 ==> 0 < FileSize(dtb) < WORD_32 && base + dtbOffset < WORD_64)
    }

    function RecoveryDtboOffset(): nat {
      pageSize * (1 + NumberOfPages(FileSize(kernel), pageSize) + NumberOfPages(FileSize(ramdisk), pageSize)
                  + NumberOfPages(FileSize(second), pageSize))
    }
  }

  function NumberOfPages(size: nat, page: nat): nat {
    if page == 0 then 0 else (size + page - 1) / page
  }

  /** round_up of the scanner. */
  function RoundUp(value: nat, page: nat): nat {
    NumberOfPages(value, page) * page
  }

  /** pack(f'{n}s', b): cut off or filled with zeros. */
  function PackString(n: nat, b: bytes): (r: bytes)
    ensures |r| == n && (|b| >= n ==> r <= b)
    ensures |b| <= n ==> b <= r && forall k: nat | |b| <= k < n :: r[k] == 0
  {
    if |b| >= n then b[..n] else b + Zeros(n - |b|)
  }

  function Le64(n: nat): (s: bytes)
    requires n < WORD_64
    ensures |s| == 8
  {
    Le32(n % WORD_32) + Le32(n / WORD_32)
  }

  function ReadLe64(s: bytes, pos: nat): nat
    requires pos + 8 <= |s|
  {
    ReadLe32(s, pos) + ReadLe32(s, pos + 4) * WORD_32
  }

  lemma AtPrefix(a: bytes, b: bytes, pos: nat, part: bytes)
    requires a <= b && At(a, pos, part)
    ensures At(b, pos, part)
  {
    assert b[pos..pos + |part|] == a[pos..pos + |part|];
  }

  lemma Le64Read(s: bytes, pos: nat, n: nat)
    requires n < WORD_64 && At(s, pos, Le64(n))
    ensures ReadLe64(s, pos) == n
  {
    assert s[pos..pos + 4] == s[pos..pos + 8][..4] == Le32(n % WORD_32);
    assert s[pos + 4..pos + 8] == s[pos..pos + 8][4..] == Le32(n / WORD_32);
    ReadLe32Written(s, pos, n % WORD_32);
    ReadLe32Written(s, pos + 4, n / WORD_32);
  }

  /** Padding a length to a multiple of the page. */
  lemma RemainderPads(n: nat, page: nat)
    requires page > 0
    ensures n + (page - n % page) % page == RoundUp(n, page)
    ensures RoundUp(n, page) % page == 0
  {
    var q, r := n / page, n % page;
    assert n == q * page + r;
    if r == 0 {
      DivModUnique(n + page - 1, q, page, page - 1);
      DivModUnique(page, 1, page, 0);
      DivModUnique(RoundUp(n, page), q, page, 0);
    } else {
      DivModUnique(n + page - 1, q + 1, page, r - 1);
      DivModUnique(RoundUp(n, page), q + 1, page, 0);
      DivModUnique(page - r, 0, page, page - r);
    }
  }

  /** The bit masks of the writer pad to where the division of the scanner rounds. */
  lemma PadIsRoundUp(n: nat, page: nat)
    requires PowerOfTwo(page)
    ensures page > 0 && BitAnd(n, page - 1) < page
    ensures n + BitAnd(page - BitAnd(n, page - 1), page - 1) == RoundUp(n, page)
    ensures RoundUp(n, page) % page == 0
  {
    var k: nat :| page == Pow2(k);
    BitAndMask(n, k);
    BitAndMask(page - BitAnd(n, page - 1), k);
    RemainderPads(n, page);
  }

  lemma PageSizesArePowers(page: nat)
    requires page in {2048, 4096, 8192, 16384}
    ensures PowerOfTwo(page)
  {
    Pow2Values();
    assert Pow2(11) == 2048 && Pow2(12) == 4096 && Pow2(13) == 8192 && Pow2(14) == 16384;
  }

  lemma RoundUpFromBoundary(start: nat, n: nat, page: nat)
    requires page > 0 && start % page == 0
    ensures RoundUp(start + n, page) == start + RoundUp(n, page)
  {
    var k := start / page;
    assert start == k * page;
    var q, r := (n + page - 1) / page, (n + page - 1) % page;
    assert n + page - 1 == q * page + r;
    DivModUnique(start + n + page - 1, k + q, page, r);
  }

  /** A file as the image holds it: its bytes, then zeros up to a page boundary. */
  function Padded(f: File, page: nat): (r: bytes)
    requires page > 0
    ensures |r| == RoundUp(FileSize(f), page)
    ensures f.Present? ==> f.contents <= r && forall k: nat | |f.contents| <= k < |r| :: r[k] == 0
  {
    RemainderPads(FileSize(f), page);
    RoundUpZero(0, page);
    if f.Absent? then [] else f.contents + Zeros(RoundUp(|f.contents|, page) - |f.contents|)
  }

  class Output {
    var data: bytes

    constructor ()
      ensures data == []
    {
      data := [];
    }

    method Write(b: bytes)
      modifies this
      ensures data == old(data) + b
    {
      data := data + b;
    }

    /** pack('I', n): an error for a number that does not fit. */
    method WriteWord(n: nat) returns (ok: bool)
      modifies this
      ensures ok <==> n < WORD_32
      ensures data == if ok then old(data) + Le32(n) else old(data)
    {
      ok := n < WORD_32;
      if ok {
        data := data + Le32(n);
      }
    }

    method WriteLong(n: nat) returns (ok: bool)
      modifies this
      ensures ok <==> n < WORD_64
      ensures data == if ok then old(data) + Le64(n) else old(data)
    {
      ok := n < WORD_64;
      if ok {
        data := data + Le64(n);
      }
    }

    /** pad_file: zeros up to the next page boundary. */
    method PadFile(padding: nat)
      requires PowerOfTwo(padding) && padding > 0
      modifies this
      ensures data == old(data) + Zeros(RoundUp(|old(data)|, padding) - |old(data)|)
    {
      PadIsRoundUp(|data|, padding);
      var pad := BitAnd(padding - BitAnd(|data|, padding - 1), padding - 1);
      data := data + Zeros(pad);
    }

    /** write_padded_file: an absent file writes nothing; a present one fills whole pages from a page boundary on. */
    method WritePaddedFile(f: File, padding: nat)
      requires PowerOfTwo(padding) && padding > 0 && |data| % padding == 0
      modifies this
      ensures data == old(data) + Padded(f, padding) && |data| % padding == 0
    {
      RemainderPads(FileSize(f), padding);
      RoundUpFromBoundary(|data|, FileSize(f), padding);
      RemainderPads(|data| + FileSize(f), padding);
      if f.Absent? {
        return;
      }
      Write(f.contents);
      PadFile(padding);
    }
  }

  /** The magic and the first `k` words. */
  function Prefix(ws: seq<nat>, k: nat): (r: bytes)
    requires k <= |ws| && forall i: nat | i < |ws| :: ws[i] < WORD_32
    ensures |r| == 8 + 4 * k
  {
    if k == 0 then BOOT_MAGIC else Prefix(ws, k - 1) + Le32(ws[k - 1])
  }

  lemma {:induction false} WordInPrefix(ws: seq<nat>, k: nat, n: nat)
    requires k < n <= |ws| && forall i: nat | i < |ws| :: ws[i] < WORD_32
    ensures ReadLe32(Prefix(ws, n), 8 + 4 * k) == ws[k]
    ensures At(Prefix(ws, n), 0, BOOT_MAGIC)
    decreases n
  {
    var s := Prefix(ws, n);
    assert s[..8 + 4 * (n - 1)] == Prefix(ws, n - 1);
    if k == n - 1 {
      assert s[8 + 4 * k..8 + 4 * k + 4] == Le32(ws[k]);
      ReadLe32Written(s, 8 + 4 * k, ws[k]);
      MagicInPrefix(ws, n);
    } else {
      WordInPrefix(ws, k, n - 1);
    }
  }

  lemma {:induction false} MagicInPrefix(ws: seq<nat>, n: nat)
    requires n <= |ws| && forall i: nat | i < |ws| :: ws[i] < WORD_32
    ensures BOOT_MAGIC <= Prefix(ws, n)
  {
    if n > 0 {
      MagicInPrefix(ws, n - 1);
    }
  }

  /** The magic and the ten words that every header starts with, one pack call after another. */
  method WriteWords(out: Output, ws: seq<nat>) returns (ok: bool)
    requires out.data == BOOT_MAGIC
    modifies out
    ensures ok <==> forall k: nat | k < |ws| :: ws[k] < WORD_32
    ensures ok ==> out.data == Prefix(ws, |ws|)
  {
    var k := 0;
    ok := true;
    while k < |ws|
      invariant k <= |ws| && forall i: nat | i < k :: ws[i] < WORD_32
      invariant out.data == Prefix(ws[..k], k)
    {
      ok := out.WriteWord(ws[k]);
      if !ok {
        return;
      }
      PrefixSlice(ws[..k + 1], k, k);
      assert ws[..k + 1][..k] == ws[..k];
      k := k + 1;
    }
    assert ws[..k] == ws;
  }

  lemma {:induction false} PrefixSlice(ws: seq<nat>, n: nat, k: nat)
    requires k <= n <= |ws| && forall i: nat | i < |ws| :: ws[i] < WORD_32
    ensures Prefix(ws[..n], k) == Prefix(ws, k)
    decreases k
  {
    if k > 0 {
      PrefixSlice(ws, n, k - 1);
    }
  }

  // ----- The header -----

  /** The ten words, each at its own place. */
  ghost predicate FieldsAt(a: Args, h: bytes)
    requires |h| >= 48
  {
    && ReadLe32(h, 8) == FileSize(a.kernel)
    && ReadLe32(h, 12) == a.base + a.kernelOffset
    && ReadLe32(h, 16) == FileSize(a.ramdisk)
    && ReadLe32(h, 20) == (if FileSize(a.ramdisk) > 0 then a.base + a.ramdiskOffset else 0)
    && ReadLe32(h, 24) == FileSize(a.second)
    && ReadLe32(h, 28) == (if FileSize(a.second) > 0 then a.base + a.secondOffset else 0)
    && ReadLe32(h, 32) == a.base + a.tagsOffset
    && ReadLe32(h, 36) == a.pageSize
    && ReadLe32(h, 40) == a.headerVersion
    && ReadLe32(h, 44) == a.osVersion * 2048 + a.osPatchLevel
  }

  ghost predicate WordsFrom(ws: seq<nat>, h: bytes)
    requires |h| >= 48 && |ws| == 10
  {
    forall k: nat | k < 10 :: ReadLe32(h, 8 + 4 * k) == ws[k]
  }

  lemma WordsAreFields(a: Args, h: bytes)
    requires |h| >= 48 && WordsFrom(a.Words(), h)
    ensures FieldsAt(a, h)
  {
    var ws := a.Words();
    assert ReadLe32(h, 8 + 4 * 0) == ws[0] && ReadLe32(h, 8 + 4 * 1) == ws[1] && ReadLe32(h, 8 + 4 * 2) == ws[2];
    assert ReadLe32(h, 8 + 4 * 3) == ws[3] && ReadLe32(h, 8 + 4 * 4) == ws[4] && ReadLe32(h, 8 + 4 * 5) == ws[5];
    assert ReadLe32(h, 8 + 4 * 6) == ws[6] && ReadLe32(h, 8 + 4 * 7) == ws[7] && ReadLe32(h, 8 + 4 * 8) == ws[8];
    assert ReadLe32(h, 8 + 4 * 9) == ws[9];
  }

  lemma WordsFit(a: Args)
    requires a.Valid()
    ensures (forall k: nat | k < 10 :: a.Words()[k] < WORD_32) <==> a.FieldsFit()
  {
    var ws := a.Words();
    if forall k: nat | k < 10 :: ws[k] < WORD_32 {
      assert ws[0] < WORD_32 && ws[1] < WORD_32 && ws[2] < WORD_32 && ws[3] < WORD_32 && ws[4] < WORD_32;
      assert ws[5] < WORD_32 && ws[6] < WORD_32 && ws[9] < WORD_32;
    }
  }

  /** The fields of every version are where the format puts them. */
  ghost predicate StartOk(a: Args, digest: bytes, h: bytes) {
    && |h| >= 1632
    && At(h, 0, BOOT_MAGIC)
    && FieldsAt(a, h)
    && At(h, 48, PackString(BOOT_NAME_SIZE, a.board))
    && At(h, 64, PackString(BOOT_ARGS_SIZE, a.cmdline))
    && At(h, 576, PackString(DIGEST_SIZE, digest))
    && At(h, 608, PackString(BOOT_EXTRA_ARGS_SIZE, a.extraCmdline))
  }

  ghost predicate VersionOneOk(a: Args, h: bytes) {
    && |h| >= BOOT_IMAGE_HEADER_V1_SIZE
    && ReadLe32(h, 1632) == FileSize(a.recoveryDtbo)
    && ReadLe64(h, 1636) == (if a.recoveryDtbo.Present? then a.RecoveryDtboOffset() else 0)
    && ReadLe32(h, 1644) ==
       (if a.headerVersion == 1 then BOOT_IMAGE_HEADER_V1_SIZE else BOOT_IMAGE_HEADER_V2_SIZE)
  }

  ghost predicate VersionTwoOk(a: Args, h: bytes) {
    && |h| >= BOOT_IMAGE_HEADER_V2_SIZE
    && ReadLe32(h, 1648) == FileSize(a.dtb)
    && ReadLe64(h, 1652) == a.base + a.dtbOffset
  }

  function HeaderSize(a: Args): nat {
    if a.headerVersion == 0 then 1632
    else if a.headerVersion == 1 then BOOT_IMAGE_HEADER_V1_SIZE
    else BOOT_IMAGE_HEADER_V2_SIZE
  }

  /** All fields, and zeros up to the end of the page. */
  ghost predicate HeaderOk(a: Args, digest: bytes, h: bytes) {
    && StartOk(a, digest, h)
    && HeaderSize(a) <= a.pageSize && At(h, HeaderSize(a), Zeros(a.pageSize - HeaderSize(a)))
    && (a.headerVersion > 0 ==> VersionOneOk(a, h))
    && (a.headerVersion > 1 ==> VersionTwoOk(a, h))
  }

  lemma SameWord(h: bytes, h': bytes, pos: nat)
    requires h <= h' && pos + 4 <= |h|
    ensures ReadLe32(h', pos) == ReadLe32(h, pos)
  {
  }

  lemma FieldsGrow(a: Args, h: bytes, h': bytes)
    requires h <= h' && |h| >= 48 && FieldsAt(a, h)
    ensures FieldsAt(a, h')
  {
    SameWord(h, h', 8);
    SameWord(h, h', 12);
    SameWord(h, h', 16);
    SameWord(h, h', 20);
    SameWord(h, h', 24);
    SameWord(h, h', 28);
    SameWord(h, h', 32);
    SameWord(h, h', 36);
    SameWord(h, h', 40);
    SameWord(h, h', 44);
  }

  lemma StartGrows(a: Args, digest: bytes, h: bytes, h': bytes)
    requires h <= h' && StartOk(a, digest, h)
    ensures StartOk(a, digest, h')
  {
    FieldsGrow(a, h, h');
    AtPrefix(h, h', 0, BOOT_MAGIC);
    AtPrefix(h, h', 48, PackString(BOOT_NAME_SIZE, a.board));
    AtPrefix(h, h', 64, PackString(BOOT_ARGS_SIZE, a.cmdline));
    AtPrefix(h, h', 576, PackString(DIGEST_SIZE, digest));
    AtPrefix(h, h', 608, PackString(BOOT_EXTRA_ARGS_SIZE, a.extraCmdline));
  }

  lemma VersionOneGrows(a: Args, h: bytes, h': bytes)
    requires h <= h' && VersionOneOk(a, h)
    ensures VersionOneOk(a, h')
  {
    SameWord(h, h', 1632);
    SameWord(h, h', 1636);
    SameWord(h, h', 1640);
    SameWord(h, h', 1644);
  }

  lemma VersionTwoGrows(a: Args, h: bytes, h': bytes)
    requires h <= h' && VersionTwoOk(a, h)
    ensures VersionTwoOk(a, h')
  {
    SameWord(h, h', 1648);
    SameWord(h, h', 1652);
    SameWord(h, h', 1656);
  }

  lemma HeaderGrows(a: Args, digest: bytes, h: bytes, h': bytes)
    requires h <= h'
    ensures StartOk(a, digest, h) ==> StartOk(a, digest, h')
    ensures VersionOneOk(a, h) ==> VersionOneOk(a, h')
    ensures VersionTwoOk(a, h) ==> VersionTwoOk(a, h')
  {
    if StartOk(a, digest, h) {
      StartGrows(a, digest, h, h');
    }
    if VersionOneOk(a, h) {
      VersionOneGrows(a, h, h');
    }
    if VersionTwoOk(a, h) {
      VersionTwoGrows(a, h, h');
    }
  }

  lemma AppendedWord(h: bytes, n: nat)
    requires n < WORD_32
    ensures ReadLe32(h + Le32(n), |h|) == n
  {
    assert (h + Le32(n))[|h|..|h| + 4] == Le32(n);
    ReadLe32Written(h + Le32(n), |h|, n);
  }

  lemma AppendedLong(h: bytes, n: nat)
    requires n < WORD_64
    ensures ReadLe64(h + Le64(n), |h|) == n
  {
    assert (h + Le64(n))[|h|..|h| + 8] == Le64(n);
    Le64Read(h + Le64(n), |h|, n);
  }

  method WriteStart(out: Output, a: Args, digest: bytes) returns (ok: bool)
    requires out.data == [] && a.Valid()
    modifies out
    ensures ok <==> a.FieldsFit()
    ensures ok ==> |out.data| == 1632 && StartOk(a, digest, out.data)
  {
    WordsFit(a);
    out.Write(PackString(8, BOOT_MAGIC));
    ok := WriteWords(out, a.Words());
    if !ok {
      return;
    }
    ghost var words := out.data;
    out.Write(PackString(BOOT_NAME_SIZE, a.board));
    ghost var h1 := out.data;
    out.Write(PackString(BOOT_ARGS_SIZE, a.cmdline));
    ghost var h2 := out.data;
    out.Write(PackString(DIGEST_SIZE, digest));
    ghost var h3 := out.data;
    out.Write(PackString(BOOT_EXTRA_ARGS_SIZE, a.extraCmdline));
    assert At(h1, 48, PackString(BOOT_NAME_SIZE, a.board));
    AtPrefix(h1, out.data, 48, PackString(BOOT_NAME_SIZE, a.board));
    assert At(h2, 64, PackString(BOOT_ARGS_SIZE, a.cmdline));
    AtPrefix(h2, out.data, 64, PackString(BOOT_ARGS_SIZE, a.cmdline));
    assert At(h3, 576, PackString(DIGEST_SIZE, digest));
    AtPrefix(h3, out.data, 576, PackString(DIGEST_SIZE, digest));
    assert At(out.data, 608, PackString(BOOT_EXTRA_ARGS_SIZE, a.extraCmdline));
    MagicInPrefix(a.Words(), 10);
    assert out.data[..48] == words;
    forall k: nat | k < 10
      ensures ReadLe32(out.data, 8 + 4 * k) == a.Words()[k]
    {
      WordInPrefix(a.Words(), k, 10);
    }
    WordsAreFields(a, out.data);
  }

  method WriteVersionOne(out: Output, a: Args) returns (ok: bool)
    requires a.Valid() && a.headerVersion > 0 && |out.data| == 1632
    modifies out
    ensures ok <==> FileSize(a.recoveryDtbo) < WORD_32 && (a.recoveryDtbo.Present? ==> a.RecoveryDtboOffset() < WORD_64)
    ensures old(out.data) <= out.data
    ensures ok ==> |out.data| == BOOT_IMAGE_HEADER_V1_SIZE && VersionOneOk(a, out.data)
  {
    var size, offset := 0, 0;
    if a.recoveryDtbo.Present? {
      size, offset := FileSize(a.recoveryDtbo), a.RecoveryDtboOffset();
    }
    var headerSize := if a.headerVersion == 1 then BOOT_IMAGE_HEADER_V1_SIZE else BOOT_IMAGE_HEADER_V2_SIZE;
    ok := WriteVersionOneFields(out, size, offset, headerSize);
  }

  method WriteVersionOneFields(out: Output, size: nat, offset: nat, headerSize: nat) returns (ok: bool)
    requires |out.data| == 1632 && headerSize < WORD_32
    modifies out
    ensures ok <==> size < WORD_32 && offset < WORD_64
    ensures old(out.data) <= out.data
    ensures ok ==>
              && |out.data| == BOOT_IMAGE_HEADER_V1_SIZE
              && ReadLe32(out.data, 1632) == size && ReadLe64(out.data, 1636) == offset
              && ReadLe32(out.data, 1644) == headerSize
  {
    ghost var h0 := out.data;
    ok := out.WriteWord(size);
    if !ok {
      return;
    }
    ghost var h1 := out.data;
    AppendedWord(h0, size);
    ok := out.WriteLong(offset);
    if !ok {
      return;
    }
    ghost var h2 := out.data;
    AppendedLong(h1, offset);
    ok := out.WriteWord(headerSize);
    AppendedWord(h2, headerSize);
  }

  method WriteVersionTwo(out: Output, a: Args) returns (ok: bool)
    requires |out.data| == BOOT_IMAGE_HEADER_V1_SIZE
    modifies out
    ensures ok <==> 0 < FileSize(a.dtb) < WORD_32 && a.base + a.dtbOffset < WORD_64
    ensures old(out.data) <= out.data
    ensures ok ==> |out.data| == BOOT_IMAGE_HEADER_V2_SIZE && VersionTwoOk(a, out.data)
  {
    if FileSize(a.dtb) == 0 {
      return false;
    }
    ghost var h0 := out.data;
    ok := out.WriteWord(FileSize(a.dtb));
    if !ok {
      return;
    }
    ghost var h1 := out.data;
    AppendedWord(h0, FileSize(a.dtb));
    ok := out.WriteLong(a.base + a.dtbOffset);
    if ok {
      AppendedLong(h1, a.base + a.dtbOffset);
    }
  }

  /** The fields that all versions have, and those of the given version. */
  method WriteFields(out: Output, a: Args, digest: bytes) returns (ok: bool)
    requires out.data == [] && a.Valid()
    modifies out
    ensures ok <==> a.Packable()
    ensures ok ==> |out.data| == HeaderSize(a) && StartOk(a, digest, out.data)
    ensures ok && a.headerVersion > 0 ==> VersionOneOk(a, out.data)
    ensures ok && a.headerVersion > 1 ==> VersionTwoOk(a, out.data)
  {
    ok := WriteStart(out, a, digest);
    if !ok {
      return;
    }
    ghost var h1 := out.data;
    if a.headerVersion > 0 {
      ok := WriteVersionOne(out, a);
      if !ok {
        return;
      }
      HeaderGrows(a, digest, h1, out.data);
    }
    ghost var h2 := out.data;
    if a.headerVersion > 1 {
      ok := WriteVersionTwo(out, a);
      if ok {
        HeaderGrows(a, digest, h2, out.data);
      }
    }
  }

  /** The header takes exactly one page. */
  method WriteHeader(out: Output, a: Args, digest: bytes) returns (ok: bool)
    requires out.data == [] && a.Valid()
    modifies out
    ensures ok <==> a.Packable()
    ensures ok ==> |out.data| == a.pageSize && HeaderOk(a, digest, out.data)
  {
    ok := WriteFields(out, a, digest);
    if !ok {
      return;
    }
    ghost var h := out.data;
    OnePage(|h|, a.pageSize);
    PageSizesArePowers(a.pageSize);
    out.PadFile(a.pageSize);
    HeaderPadded(a, digest, h, out.data);
  }

  lemma HeaderPadded(a: Args, digest: bytes, h: bytes, padded: bytes)
    requires |h| == HeaderSize(a) <= a.pageSize && padded == h + Zeros(a.pageSize - |h|)
    requires StartOk(a, digest, h)
    requires a.headerVersion > 0 ==> VersionOneOk(a, h)
    requires a.headerVersion > 1 ==> VersionTwoOk(a, h)
    ensures HeaderOk(a, digest, padded)
  {
    HeaderGrows(a, digest, h, padded);
    assert padded[|h|..] == Zeros(a.pageSize - |h|);
  }

  lemma OnePage(n: nat, page: nat)
    requires 0 < n <= page
    ensures RoundUp(n, page) == page
  {
    DivModUnique(n + page - 1, 1, page, n - 1);
  }

  // ----- The image -----

  /** The recorded offset is the end of the header and the three files before. */
  lemma RecoveryDtboOffsetIsSum(a: Args)
    requires a.Valid()
    ensures a.RecoveryDtboOffset() ==
            a.pageSize + RoundUp(FileSize(a.kernel), a.pageSize) + RoundUp(FileSize(a.ramdisk), a.pageSize)
            + RoundUp(FileSize(a.second), a.pageSize)
  {
  }

  /** What follows the header page. */
  function Payload(a: Args): bytes
    requires a.pageSize > 0
  {
    Padded(a.kernel, a.pageSize) + Padded(a.ramdisk, a.pageSize) + Padded(a.second, a.pageSize)
    + PaddedDtbo(a) + PaddedDtb(a)
  }

  function PaddedDtbo(a: Args): bytes
    requires a.pageSize > 0
  {
    if a.headerVersion > 0 then Padded(a.recoveryDtbo, a.pageSize) else []
  }

  function PaddedDtb(a: Args): bytes
    requires a.pageSize > 0
  {
    if a.headerVersion == 2 then Padded(a.dtb, a.pageSize) else []
  }

  function ImageLength(a: Args): nat {
    DtbOffset(a) + (if a.headerVersion == 2 then RoundUp(FileSize(a.dtb), a.pageSize) else 0)
  }

  ghost predicate DataOk(a: Args, image: bytes)
    requires a.pageSize > 0
  {
    |image| >= a.pageSize && image[a.pageSize..] == Payload(a)
  }

  /** The bytes of a present file are at `pos`. */
  ghost predicate FileAt(image: bytes, pos: nat, f: File) {
    f.Present? ==> At(image, pos, f.contents)
  }

  lemma PaddedAt(image: bytes, pos: nat, f: File, page: nat)
    requires page > 0 && At(image, pos, Padded(f, page))
    ensures FileAt(image, pos, f)
  {
    if f.Present? {
      RemainderPads(FileSize(f), page);
      assert image[pos..pos + |f.contents|] == Padded(f, page)[..|f.contents|] == f.contents;
    }
  }

  function RamdiskOffset(a: Args): nat {
    a.pageSize + RoundUp(FileSize(a.kernel), a.pageSize)
  }

  function SecondOffset(a: Args): nat {
    RamdiskOffset(a) + RoundUp(FileSize(a.ramdisk), a.pageSize)
  }

  function DtbOffset(a: Args): nat {
    a.RecoveryDtboOffset() + (if a.headerVersion > 0 then RoundUp(FileSize(a.recoveryDtbo), a.pageSize) else 0)
  }

  lemma PartsPlaced(a: Args, image: bytes)
    requires a.Valid() && DataOk(a, image)
    ensures At(image, a.pageSize, Padded(a.kernel, a.pageSize))
    ensures At(image, RamdiskOffset(a), Padded(a.ramdisk, a.pageSize))
    ensures At(image, SecondOffset(a), Padded(a.second, a.pageSize))
    ensures At(image, a.RecoveryDtboOffset(), PaddedDtbo(a))
    ensures At(image, DtbOffset(a), PaddedDtb(a)) && |image| == DtbOffset(a) + |PaddedDtb(a)|
  {
    var page := a.pageSize;
    var h := image[..page];
    var (k, r, s) := (Padded(a.kernel, page), Padded(a.ramdisk, page), Padded(a.second, page));
    RecoveryDtboOffsetIsSum(a);
    assert image == h + Payload(a);
    PartsAt(image, h, k, r, s, PaddedDtbo(a), PaddedDtb(a),
            RamdiskOffset(a), SecondOffset(a), a.RecoveryDtboOffset(), DtbOffset(a));
  }

  /** Every file of the image is where the format puts it, and nothing follows the last. */
  lemma FilesArePlaced(a: Args, image: bytes)
    requires a.Valid() && DataOk(a, image)
    ensures |image| == ImageLength(a)
    ensures FileAt(image, a.pageSize, a.kernel)
    ensures FileAt(image, RamdiskOffset(a), a.ramdisk)
    ensures FileAt(image, SecondOffset(a), a.second)
    ensures a.headerVersion > 0 ==> FileAt(image, a.RecoveryDtboOffset(), a.recoveryDtbo)
    ensures a.headerVersion == 2 ==> FileAt(image, DtbOffset(a), a.dtb)
  {
    PartsPlaced(a, image);
    PaddedAt(image, a.pageSize, a.kernel, a.pageSize);
    PaddedAt(image, RamdiskOffset(a), a.ramdisk, a.pageSize);
    PaddedAt(image, SecondOffset(a), a.second, a.pageSize);
    if a.headerVersion > 0 {
      PaddedAt(image, a.RecoveryDtboOffset(), a.recoveryDtbo, a.pageSize);
    }
    if a.headerVersion == 2 {
      PaddedAt(image, DtbOffset(a), a.dtb, a.pageSize);
    }
  }

  lemma PartsAt(
    image: bytes, h: bytes, k: bytes, r: bytes, s: bytes, o: bytes, d: bytes, pr: nat, ps: nat, po: nat, pd: nat)
    requires image == h + (k + r + s + o + d)
    requires pr == |h| + |k| && ps == pr + |r| && po == ps + |s| && pd == po + |o|
    ensures At(image, |h|, k) && At(image, pr, r) && At(image, ps, s) && At(image, po, o) && At(image, pd, d)
    ensures |image| == pd + |d|
  {
    Regroup(h, k, r, s, o, d);
    PartAt(h, k, r + s + o + d);
    PartAt(h + k, r, s + o + d);
    PartAt(h + k + r, s, o + d);
    PartAt(h + k + r + s, o, d);
    PartAt(h + k + r + s + o, d, []);
  }

  lemma PartAt(before: bytes, part: bytes, after: bytes)
    ensures At(before + part + after, |before|, part)
  {
  }

  lemma Regroup(h: bytes, k: bytes, r: bytes, s: bytes, o: bytes, d: bytes)
    ensures var image := h + (k + r + s + o + d);
            && image == h + k + (r + s + o + d)
            && image == (h + k) + r + (s + o + d)
            && image == (h + k + r) + s + (o + d)
            && image == (h + k + r + s) + o + d
            && image == (h + k + r + s + o) + d + []
  {
    Regroup4(h + k, r, s, o, d);
    Regroup4(k, r, s, o, d);
    assert h + (k + (r + s + o + d)) == h + k + (r + s + o + d);
  }

  lemma Regroup4(a: bytes, r: bytes, s: bytes, o: bytes, d: bytes)
    ensures a + r + s + o + d == a + (r + s + o + d)
    ensures a + r + s + o + d == a + r + (s + o + d)
    ensures a + r + s + o + d == a + r + s + (o + d)
    ensures a + r + s + o + d == a + r + s + o + d + []
  {
    assert s + o + d == s + (o + d);
    assert r + s + o + d == r + (s + o + d) by {
      assert r + s + o == r + (s + o);
    }
    var ar := a + r;
    assert ar + s + (o + d) == ar + (s + (o + d));
    assert ar + s + o + d == ar + s + (o + d);
    assert ar + (s + o + d) == a + (r + (s + o + d));
  }

  /** write_data: the files in order, each padded to whole pages. */
  method WriteData(out: Output, a: Args)
    requires a.Valid() && |out.data| == a.pageSize
    modifies out
    ensures out.data == old(out.data) + Payload(a)
  {
    var page := a.pageSize;
    ghost var (h, k, r, s) :=
      (out.data, Padded(a.kernel, page), Padded(a.ramdisk, page), Padded(a.second, page));
    PageSizesArePowers(page);
    DivModUnique(page, 1, page, 0);
    out.WritePaddedFile(a.kernel, page);
    out.WritePaddedFile(a.ramdisk, page);
    out.WritePaddedFile(a.second, page);
    if a.headerVersion > 0 {
      out.WritePaddedFile(a.recoveryDtbo, page);
    }
    if a.headerVersion == 2 {
      out.WritePaddedFile(a.dtb, page);
    }
    assert out.data == h + k + r + s + PaddedDtbo(a) + PaddedDtb(a);
    Regroup(h, k, r, s, PaddedDtbo(a), PaddedDtb(a));
  }

  /** The image is a header page and the padded files. */
  method MkBootImg(a: Args, digest: bytes) returns (ok: bool, out: Output)
    requires a.Valid()
    ensures ok <==> a.Packable()
    ensures ok ==> HeaderOk(a, digest, out.data) && DataOk(a, out.data)
  {
    out := new Output();
    ok := WriteHeader(out, a, digest);
    if !ok {
      return;
    }
    ghost var h := out.data;
    WriteData(out, a);
    HeaderGrows(a, digest, h, out.data);
    AtPrefix(h, out.data, HeaderSize(a), Zeros(a.pageSize - HeaderSize(a)));
  }

  // ----- The readers -----

  /** read_header of the remux tool: the ten words, or None without the magic or with too few bytes. */
  function ReadHeader(image: bytes): (words: seq<nat>)
    ensures |words| == 10 || words == []
  {
    if |image| < 48 || image[..8] != BOOT_MAGIC then []
    else seq(10, (k: nat) requires k < 10 => ReadLe32(image, 8 + 4 * k))
  }

  datatype Extracted = Truncated | BadHeader | Kernel(payload: bytes)

  /** extract_kernel: kernel_size bytes from offset page_size. */
  function ExtractKernel(image: bytes): Extracted {
    var words := ReadHeader(image);
    if words == [] then BadHeader
    else
      var payload := Slice(image, words[7], words[7] + words[0]);
      if |payload| != words[0] then Truncated else Kernel(payload)
  }

  /** Reading succeeds exactly if the magic and ten more words are there. */
  lemma ReadHeaderWhen(image: bytes)
    ensures ReadHeader(image) != [] <==> |image| >= 48 && At(image, 0, BOOT_MAGIC)
    ensures ReadHeader(image) != [] ==> WordsFrom(ReadHeader(image), image)
  {
    if |image| >= 48 {
      assert image[..8] == image[0..0 + |BOOT_MAGIC|];
    }
  }

  /** The kernel of any file with a header: its bytes if they are all there, an error if not. */
  lemma ExtractKernelWhen(image: bytes)
    requires |image| >= 48 && At(image, 0, BOOT_MAGIC)
    ensures var size, page := ReadLe32(image, 8), ReadLe32(image, 36);
            && (ExtractKernel(image) == Truncated <==> size > 0 && page + size > |image|)
            && (ExtractKernel(image) != Truncated ==>
                  ExtractKernel(image) == Kernel(if size == 0 then [] else image[page..page + size]))
  {
    ReadHeaderWhen(image);
    var words := ReadHeader(image);
    assert ReadLe32(image, 8 + 4 * 0) == words[0] && ReadLe32(image, 8 + 4 * 7) == words[7];
    assert Slice(image, words[7], words[7] + 0) == [];
  }

  /** The ten words as read, by their meaning. */
  ghost predicate SayFields(words: seq<nat>, a: Args)
    requires |words| == 10
  {
    && words[0] == FileSize(a.kernel) && words[1] == a.base + a.kernelOffset
    && words[2] == FileSize(a.ramdisk)
    && words[3] == (if FileSize(a.ramdisk) > 0 then a.base + a.ramdiskOffset else 0)
    && words[4] == FileSize(a.second)
    && words[5] == (if FileSize(a.second) > 0 then a.base + a.secondOffset else 0)
    && words[6] == a.base + a.tagsOffset && words[7] == a.pageSize && words[8] == a.headerVersion
    && words[9] == a.osVersion * 2048 + a.osPatchLevel
  }

  lemma WordsSayFields(ws: seq<nat>, a: Args, image: bytes)
    requires |image| >= 48 && |ws| == 10 && WordsFrom(ws, image) && FieldsAt(a, image)
    ensures SayFields(ws, a)
  {
    assert ReadLe32(image, 8 + 4 * 0) == ws[0] && ReadLe32(image, 8 + 4 * 1) == ws[1];
    assert ReadLe32(image, 8 + 4 * 2) == ws[2] && ReadLe32(image, 8 + 4 * 3) == ws[3];
    assert ReadLe32(image, 8 + 4 * 4) == ws[4] && ReadLe32(image, 8 + 4 * 5) == ws[5];
    assert ReadLe32(image, 8 + 4 * 6) == ws[6] && ReadLe32(image, 8 + 4 * 7) == ws[7];
    assert ReadLe32(image, 8 + 4 * 8) == ws[8] && ReadLe32(image, 8 + 4 * 9) == ws[9];
  }

  lemma KernelReadsBack(a: Args, digest: bytes, image: bytes)
    requires StartOk(a, digest, image) && FileAt(image, a.pageSize, a.kernel)
    ensures ExtractKernel(image) == Kernel(if a.kernel.Present? then a.kernel.contents else [])
  {
    ExtractKernelWhen(image);
  }

  /** Reading back what was written gives the ten fields and the exact kernel bytes. */
  lemma ReadsBackWhatWasWritten(a: Args, digest: bytes, image: bytes)
    requires a.Valid() && HeaderOk(a, digest, image) && DataOk(a, image)
    ensures |ReadHeader(image)| == 10 && SayFields(ReadHeader(image), a)
    ensures ExtractKernel(image) == Kernel(if a.kernel.Present? then a.kernel.contents else [])
  {
    ReadHeaderWhen(image);
    WordsSayFields(ReadHeader(image), a, image);
    FilesArePlaced(a, image);
    KernelReadsBack(a, digest, image);
  }

  /** The size check of the scanner: what a header predicts for the length of its file. */
  function PredictedLength(words: seq<nat>): nat
    requires |words| == 10
  {
    words[7] + RoundUp(words[0], words[7]) + RoundUp(words[2], words[7]) + RoundUp(words[4], words[7])
  }

  datatype SizeCheck = Skipped | Predicted(length: nat)

  /** The scanner makes the check only for plausible sizes. */
  function CheckSize(words: seq<nat>, length: nat): SizeCheck
    requires |words| == 10
  {
    if words[7] != 0 && 0 < words[0] < length && 0 < words[2] < length then Predicted(PredictedLength(words))
    else Skipped
  }

  /** The scanner checks the size of exactly the images that have a kernel and a ramdisk, and its prediction
      is right exactly when nothing follows the three files: always for version 0. */
  lemma PredictionIsRight(a: Args, digest: bytes, image: bytes)
    requires a.Valid() && HeaderOk(a, digest, image) && DataOk(a, image)
    ensures |ReadHeader(image)| == 10
    ensures var check := CheckSize(ReadHeader(image), |image|);
            && (check.Predicted? <==> FileSize(a.kernel) > 0 && FileSize(a.ramdisk) > 0)
            && (check.Predicted? ==>
                  (check.length == |image|
                   <==> a.headerVersion == 0
                        || (FileSize(a.recoveryDtbo) == 0 && (a.headerVersion == 2 ==> FileSize(a.dtb) == 0))))
  {
    ReadsBackWhatWasWritten(a, digest, image);
    PredictedForFiles(a, ReadHeader(image), image);
  }

  lemma PredictedForFiles(a: Args, words: seq<nat>, image: bytes)
    requires a.Valid() && DataOk(a, image) && |words| == 10
    requires words[0] == FileSize(a.kernel) && words[2] == FileSize(a.ramdisk)
    requires words[4] == FileSize(a.second) && words[7] == a.pageSize
    ensures var check := CheckSize(words, |image|);
            && (check.Predicted? <==> FileSize(a.kernel) > 0 && FileSize(a.ramdisk) > 0)
            && (check.Predicted? ==>
                  (check.length == |image|
                   <==> a.headerVersion == 0
                        || (FileSize(a.recoveryDtbo) == 0 && (a.headerVersion == 2 ==> FileSize(a.dtb) == 0))))
  {
    FilesArePlaced(a, image);
    RoundUpGrows(FileSize(a.kernel), a.pageSize);
    RoundUpGrows(FileSize(a.ramdisk), a.pageSize);
    RecoveryDtboOffsetIsSum(a);
    RoundUpZero(FileSize(a.recoveryDtbo), a.pageSize);
    RoundUpZero(FileSize(a.dtb), a.pageSize);
  }

  lemma RoundUpGrows(n: nat, page: nat)
    requires page > 0
    ensures n <= RoundUp(n, page)
  {
    RemainderPads(n, page);
  }

  lemma RoundUpZero(n: nat, page: nat)
    requires page > 0
    ensures RoundUp(n, page) == 0 <==> n == 0
  {
    RemainderPads(n, page);
    if n == 0 {
      DivModUnique(page - 1, 0, page, page - 1);
    }
  }

  /** A version 2 image of a kernel, a ramdisk and a device tree of one byte each. */
  function SmallImage(): Args {
    Args(Present([1]), Present([2]), Absent, Absent, Present([3]), 0, 0, 0, 0, 0, 0, 2048, 2, 0, 0, [], [], [])
  }

  lemma SmallSizesArePackable(a: Args)
    requires a.Valid() && a.headerVersion == 2 && a.recoveryDtbo.Absent?
    requires FileSize(a.kernel) == FileSize(a.ramdisk) == FileSize(a.dtb) == 1 && FileSize(a.second) == 0
    requires a.base == a.kernelOffset == a.ramdiskOffset == a.tagsOffset == a.dtbOffset == a.osVersion == 0
    ensures a.Packable()
  {
  }

  lemma SmallImageIsWritten()
    ensures var a := SmallImage();
            && a.Valid() && a.headerVersion == 2 && FileSize(a.kernel) == FileSize(a.ramdisk) == FileSize(a.dtb) == 1
            && FileSize(a.second) == FileSize(a.recoveryDtbo) == 0
            && a.Packable()
  {
    SmallSizesArePackable(SmallImage());
  }

  lemma RoundUpOne(page: nat)
    requires page > 1
    ensures RoundUp(1, page) == page && RoundUp(0, page) == 0
  {
    DivModUnique(page, 1, page, 0);
    DivModUnique(page - 1, 0, page, page - 1);
  }

  lemma LengthOf(a: Args)
    requires a.Valid() && a.headerVersion == 2
    ensures ImageLength(a) == a.pageSize + RoundUp(FileSize(a.kernel), a.pageSize)
                              + RoundUp(FileSize(a.ramdisk), a.pageSize) + RoundUp(FileSize(a.second), a.pageSize)
                              + RoundUp(FileSize(a.recoveryDtbo), a.pageSize) + RoundUp(FileSize(a.dtb), a.pageSize)
  {
    RecoveryDtboOffsetIsSum(a);
  }

  /** Such an image is four pages long, and three are predicted. */
  lemma PredictionIsWrongForDtb(a: Args, digest: bytes, image: bytes)
    requires a.Valid() && a.headerVersion == 2 && HeaderOk(a, digest, image) && DataOk(a, image)
    requires FileSize(a.kernel) == FileSize(a.ramdisk) == FileSize(a.dtb) == 1
    requires FileSize(a.second) == FileSize(a.recoveryDtbo) == 0
    ensures |image| == 4 * a.pageSize && |ReadHeader(image)| == 10
    ensures CheckSize(ReadHeader(image), |image|) == Predicted(3 * a.pageSize)
  {
    RoundUpOne(a.pageSize);
    LengthOf(a);
    FilesArePlaced(a, image);
    ReadsBackWhatWasWritten(a, digest, image);
    PredictedThree(ReadHeader(image), a.pageSize, |image|);
  }

  lemma PredictedThree(words: seq<nat>, page: nat, length: nat)
    requires |words| == 10 && page > 1 && RoundUp(1, page) == page && RoundUp(0, page) == 0 && length > 1
    requires words[0] == words[2] == 1 && words[4] == 0 && words[7] == page
    ensures CheckSize(words, length) == Predicted(3 * page)
  {
  }

  /** The recorded offset of the recovery image is where its bytes are. */
  lemma RecordedOffsetIsRight(a: Args, digest: bytes, image: bytes)
    requires a.Valid() && HeaderOk(a, digest, image) && DataOk(a, image)
    requires a.headerVersion > 0 && a.recoveryDtbo.Present?
    ensures At(image, ReadLe64(image, 1636), a.recoveryDtbo.contents)
    ensures ReadLe32(image, 1632) == |a.recoveryDtbo.contents|
  {
    FilesArePlaced(a, image);
  }

  // ----- The command line -----

  /** The two fields that the argument, a text and its terminator, is split into. */
  function SplitCmdline(argument: bytes): (bytes, bytes) {
    (Slice(argument, 0, BOOT_ARGS_SIZE - 1) + [0], Slice(argument, BOOT_ARGS_SIZE - 1, |argument|))
  }

  /** A field as its readers see it: up to the first zero. */
  function CString(field: bytes): bytes {
    field[..IndexOfZero(field, 0)]
  }

  lemma CStringOf(text: bytes, rest: bytes)
    requires 0 !in text
    ensures CString(text + [0] + rest) == text
  {
    var s := text + [0] + rest;
    assert forall k: nat | k < |text| :: s[k] == text[k] && text[k] in text;
    IndexOfZeroIs(s, 0, |text|);
  }

  /** Both fields fit, and rejoining them gives the text back, for every text that is accepted. */
  lemma CmdlineRejoins(text: bytes)
    requires 0 !in text && |text| + 1 <= BOOT_ARGS_SIZE + BOOT_EXTRA_ARGS_SIZE - 1
    ensures var (cmdline, extra) := SplitCmdline(text + [0]);
            && |cmdline| <= BOOT_ARGS_SIZE && |extra| <= BOOT_EXTRA_ARGS_SIZE
            && CString(PackString(BOOT_ARGS_SIZE, cmdline)) + CString(PackString(BOOT_EXTRA_ARGS_SIZE, extra)) == text
  {
    var n := BOOT_ARGS_SIZE - 1;
    var (cmdline, extra) := SplitCmdline(text + [0]);
    if |text| < n {
      assert cmdline == text + [0] + [0] && extra == [];
      var pad := Zeros(BOOT_ARGS_SIZE - |cmdline|);
      assert PackString(BOOT_ARGS_SIZE, cmdline) == text + [0] + ([0] + pad);
      CStringOf(text, [0] + pad);
      assert PackString(BOOT_EXTRA_ARGS_SIZE, extra) == [] + [0] + Zeros(BOOT_EXTRA_ARGS_SIZE - 1);
      CStringOf([], Zeros(BOOT_EXTRA_ARGS_SIZE - 1));
    } else {
      assert cmdline == text[..n] + [0] + [] && extra == text[n..] + [0];
      CStringOf(text[..n], []);
      assert PackString(BOOT_ARGS_SIZE, cmdline) == cmdline;
      assert PackString(BOOT_EXTRA_ARGS_SIZE, extra) == text[n..] + [0] + Zeros(BOOT_EXTRA_ARGS_SIZE - |extra|);
      CStringOf(text[n..], Zeros(BOOT_EXTRA_ARGS_SIZE - |extra|));
    }
  }

  /** The limit on the argument, terminator included, is exactly the length up to which both fields fit. */
  lemma CmdlineFitsExactly(text: bytes)
    ensures var (cmdline, extra) := SplitCmdline(text + [0]);
            |cmdline| <= BOOT_ARGS_SIZE && |extra| <= BOOT_EXTRA_ARGS_SIZE
            <==> |text| + 1 <= BOOT_ARGS_SIZE + BOOT_EXTRA_ARGS_SIZE - 1
  {
  }

  /** The command line that mkbootimg.py was given can be read out of the image. */
  lemma ImageHoldsCmdline(a: Args, digest: bytes, image: bytes, text: bytes)
    requires 0 !in text && |text| + 1 <= BOOT_ARGS_SIZE + BOOT_EXTRA_ARGS_SIZE - 1
    requires (a.cmdline, a.extraCmdline) == SplitCmdline(text + [0]) && StartOk(a, digest, image)
    ensures CString(image[64..64 + BOOT_ARGS_SIZE]) + CString(image[608..608 + BOOT_EXTRA_ARGS_SIZE]) == text
  {
    CmdlineRejoins(text);
  }
}
