/**
 The SQLite write-ahead log as a byte string: header parsing, the cumulative
 checksum, and the scan that finds the last durable commit (wal.go). The layout
 is that of sections 4.1 and 4.2 of the SQLite "Database File Format" document.
 */
module Wal {

  type Byte = b: int | 0 <= b < 256
  type Word = w: int | 0 <= w < 0x1_0000_0000

  const HEADER_SIZE: nat := 32
  const FRAME_HEADER_SIZE: nat := 24
  const MAGIC_BE: Word := 0x377f_0683
  const MAGIC_LE: Word := 0x377f_0682
  const WORD_MODULUS: nat := 0x1_0000_0000

  /** A running checksum pair. */
  datatype Sum = Sum(s1: Word, s2: Word)

  datatype Header = Header(bigEndian: bool, pageSize: nat, salt1: Word, salt2: Word, cks: Sum) {
    function FrameSize(): nat {
      FRAME_HEADER_SIZE + pageSize
    }
  }

  datatype HeaderError = ShortHeader | BadMagic | BadPageSize | ChecksumMismatch

  datatype HeaderResult = Parsed(header: Header) | Rejected(error: HeaderError)

  /** A decoded frame; `dbSize > 0` marks the last frame of a transaction. */
  datatype Frame = Frame(page: Word, dbSize: Word, data: seq<Byte>)

  /** Big-endian value of a byte string. */
  function BigEndian(b: seq<Byte>): nat {
    if b == [] then 0
    else
      var low: int := b[|b| - 1];
      BigEndian(b[..|b| - 1]) * 0x100 + low
  }

  /** Little-endian value of a byte string. */
  function LittleEndian(b: seq<Byte>): nat {
    if b == [] then 0
    else
      var low: int := b[0];
      LittleEndian(b[1..]) * 0x100 + low
  }

  lemma FourBytesMakeAWord(b: seq<Byte>)
    requires |b| == 4
    ensures BigEndian(b) < WORD_MODULUS && LittleEndian(b) < WORD_MODULUS
  {
    assert BigEndian(b[..3][..2][..1]) < 0x100;
    assert BigEndian(b[..3][..2]) < 0x1_0000;
    assert BigEndian(b[..3]) < 0x100_0000;
    assert LittleEndian(b[1..][1..][1..]) < 0x100;
    assert LittleEndian(b[1..][1..]) < 0x1_0000;
    assert LittleEndian(b[1..]) < 0x100_0000;
  }

  function WordBE(b: seq<Byte>, i: nat): Word
    requires i + 4 <= |b|
  {
    FourBytesMakeAWord(b[i..i + 4]);
    BigEndian(b[i..i + 4])
  }

  function WordLE(b: seq<Byte>, i: nat): Word
    requires i + 4 <= |b|
  {
    FourBytesMakeAWord(b[i..i + 4]);
    LittleEndian(b[i..i + 4])
  }

  function WordAt(bigEndian: bool, b: seq<Byte>, i: nat): Word
    requires i + 4 <= |b|
  {
    if bigEndian then WordBE(b, i) else WordLE(b, i)
  }

  // ---------------------------------------------------------------- checksum

  /** Addition of Go's uint32. */
  function WrapAdd(a: Word, b: Word): Word {
    var sum: int := a + b as int;
    if sum < WORD_MODULUS then sum else sum - WORD_MODULUS
  }

  /** One step of the checksum over an 8-byte chunk, in wrapping 32-bit arithmetic. */
  function Mix(s: Sum, x0: Word, x1: Word): Sum {
    var s1 := WrapAdd(s.s1, WrapAdd(x0, s.s2));
    Sum(s1, WrapAdd(s.s2, WrapAdd(x1, s1)))
  }

  /** The checksum of section 4.2: whole 8-byte chunks from the front; a shorter rest is ignored. */
  function Checksum(bigEndian: bool, s: Sum, b: seq<Byte>): Sum
    decreases |b|
  {
    if |b| < 8 then s
    else Checksum(bigEndian, Mix(s, WordAt(bigEndian, b, 0), WordAt(bigEndian, b, 4)), b[8..])
  }

  /** The loop of walChecksum. */
  method WalChecksum(bigEndian: bool, start1: Word, start2: Word, b: seq<Byte>) returns (s1: Word, s2: Word)
    ensures Sum(s1, s2) == Checksum(bigEndian, Sum(start1, start2), b)
  {
    s1, s2 := start1, start2;
    var i := 0;
    while i + 8 <= |b|
      invariant 0 <= i <= |b|
      invariant Checksum(bigEndian, Sum(s1, s2), b[i..]) == Checksum(bigEndian, Sum(start1, start2), b)
    {
      var rest := b[i..];
      assert rest[8..] == b[i + 8..];
      assert rest[0..4] == b[i..i + 4] && rest[4..8] == b[i + 4..i + 8];
      var x0 := WordAt(bigEndian, b, i);
      var x1 := WordAt(bigEndian, b, i + 4);
      s1 := WrapAdd(s1, WrapAdd(x0, s2));
      s2 := WrapAdd(s2, WrapAdd(x1, s1));
      i := i + 8;
    }
    assert |b[i..]| < 8;
  }

  /** A step loses nothing: distinct states stay distinct, and so do distinct chunks. */
  lemma MixIsInjective(s: Sum, t: Sum, x0: Word, x1: Word, y0: Word, y1: Word)
    ensures Mix(s, x0, x1) == Mix(t, x0, x1) ==> s == t
    ensures Mix(s, x0, x1) == Mix(s, y0, y1) ==> x0 == y0 && x1 == y1
  {
  }

  lemma {:induction false} ChecksumKeepsStatesApart(bigEndian: bool, s: Sum, t: Sum, b: seq<Byte>)
    requires s != t
    ensures Checksum(bigEndian, s, b) != Checksum(bigEndian, t, b)
    decreases |b|
  {
    if |b| >= 8 {
      var x0, x1 := WordAt(bigEndian, b, 0), WordAt(bigEndian, b, 4);
      MixIsInjective(s, t, x0, x1, x0, x1);
      ChecksumKeepsStatesApart(bigEndian, Mix(s, x0, x1), Mix(t, x0, x1), b[8..]);
    }
  }

  lemma {:induction false} BigEndianIsInjective(a: seq<Byte>, b: seq<Byte>)
    requires |a| == |b| && BigEndian(a) == BigEndian(b)
    ensures a == b
  {
    if a != [] {
      var n := |a| - 1;
      BigEndianIsInjective(a[..n], b[..n]);
      assert a == a[..n] + [a[n]];
      assert b == b[..n] + [b[n]];
    }
  }

  lemma {:induction false} LittleEndianIsInjective(a: seq<Byte>, b: seq<Byte>)
    requires |a| == |b| && LittleEndian(a) == LittleEndian(b)
    ensures a == b
  {
    if a != [] {
      LittleEndianIsInjective(a[1..], b[1..]);
      assert a == [a[0]] + a[1..];
      assert b == [b[0]] + b[1..];
    }
  }

  /** The two words of a chunk fix its eight bytes. */
  lemma WordsDetermineChunk(bigEndian: bool, a: seq<Byte>, b: seq<Byte>)
    requires |a| >= 8 && |b| >= 8
    requires WordAt(bigEndian, a, 0) == WordAt(bigEndian, b, 0)
    requires WordAt(bigEndian, a, 4) == WordAt(bigEndian, b, 4)
    ensures a[..8] == b[..8]
  {
    if bigEndian {
      BigEndianIsInjective(a[0..4], b[0..4]);
      BigEndianIsInjective(a[4..8], b[4..8]);
    } else {
      LittleEndianIsInjective(a[0..4], b[0..4]);
      LittleEndianIsInjective(a[4..8], b[4..8]);
    }
    assert a[..8] == a[0..4] + a[4..8] && b[..8] == b[0..4] + b[4..8];
  }

  /** Damage confined to one 8-byte chunk, wherever it is, always changes the checksum. */
  lemma {:induction false} ChecksumDetectsOneChunk(
    bigEndian: bool, s: Sum, before: seq<Byte>, x: seq<Byte>, y: seq<Byte>, after: seq<Byte>)
    requires |before| % 8 == 0 && |x| == |y| == 8 && x != y
    ensures Checksum(bigEndian, s, before + x + after) != Checksum(bigEndian, s, before + y + after)
    decreases |before|
  {
    hide WordAt, WrapAdd, Mix;
    var a, b := before + x + after, before + y + after;
    var x0, x1 := WordAt(bigEndian, a, 0), WordAt(bigEndian, a, 4);
    var y0, y1 := WordAt(bigEndian, b, 0), WordAt(bigEndian, b, 4);
    if before == [] {
      assert a[..8] == x && b[..8] == y && a[8..] == after == b[8..];
      if x0 == y0 && x1 == y1 {
        WordsDetermineChunk(bigEndian, a, b);
      }
      MixIsInjective(s, s, x0, x1, y0, y1);
      ChecksumKeepsStatesApart(bigEndian, Mix(s, x0, x1), Mix(s, y0, y1), after);
    } else {
      assert a[..8] == before[..8] == b[..8];
      WordsOfEqualChunks(bigEndian, a, b);
      assert a[8..] == before[8..] + x + after && b[8..] == before[8..] + y + after;
      ChecksumDetectsOneChunk(bigEndian, Mix(s, x0, x1), before[8..], x, y, after);
    }
  }

  lemma WordsOfEqualChunks(bigEndian: bool, a: seq<Byte>, b: seq<Byte>)
    requires |a| >= 8 && |b| >= 8 && a[..8] == b[..8]
    ensures WordAt(bigEndian, a, 0) == WordAt(bigEndian, b, 0) && WordAt(bigEndian, a, 4) == WordAt(bigEndian, b, 4)
  {
    assert a[0..4] == a[..8][0..4] && a[4..8] == a[..8][4..8];
    assert b[0..4] == b[..8][0..4] && b[4..8] == b[..8][4..8];
  }

  // ------------------------------------------------------------------ header

  /** The check `512 <= n <= 65536` and `n & (n - 1) == 0`: the powers of two in that range. */
  predicate LegalPageSize(n: nat) {
    n == 512 || n == 1024 || n == 2048 || n == 4096 || n == 8192 || n == 16384 || n == 32768 || n == 65536
  }

  function ParseWALHeader(b: seq<Byte>): HeaderResult {
    if |b| < HEADER_SIZE then Rejected(ShortHeader)
    else if WordBE(b, 0) != MAGIC_BE && WordBE(b, 0) != MAGIC_LE then Rejected(BadMagic)
    else
      var h := Header(WordBE(b, 0) == MAGIC_BE, WordBE(b, 8), WordBE(b, 16), WordBE(b, 20),
                      Sum(WordBE(b, 24), WordBE(b, 28)));
      if !LegalPageSize(h.pageSize) then Rejected(BadPageSize)
      else if Checksum(h.bigEndian, Sum(0, 0), b[..24]) != h.cks then Rejected(ChecksumMismatch)
      else Parsed(h)
  }

  /** The header of a WAL file, when it has a valid one. */
  function HeaderOf(w: seq<Byte>): HeaderResult {
    if |w| < HEADER_SIZE then Rejected(ShortHeader) else ParseWALHeader(w[..HEADER_SIZE])
  }

  // -------------------------------------------------------------------- scan

  function StoredSum(f: seq<Byte>): Sum
    requires |f| >= FRAME_HEADER_SIZE
  {
    Sum(WordBE(f, 16), WordBE(f, 20))
  }

  /** The checksum the frame ought to carry: the chain continued over its first 8 bytes and its page. */
  function LinkSum(h: Header, prev: Sum, f: seq<Byte>): Sum
    requires |f| >= FRAME_HEADER_SIZE
  {
    Checksum(h.bigEndian, Checksum(h.bigEndian, prev, f[..8]), f[FRAME_HEADER_SIZE..])
  }

  /** The frame belongs to this WAL cycle and continues the chain ending in `prev`. */
  predicate FrameOk(h: Header, prev: Sum, f: seq<Byte>)
    requires |f| >= FRAME_HEADER_SIZE
  {
    && WordBE(f, 8) == h.salt1
    && WordBE(f, 12) == h.salt2
    && LinkSum(h, prev, f) == StoredSum(f)
  }

  predicate IsCommit(f: seq<Byte>)
    requires |f| >= FRAME_HEADER_SIZE
  {
    WordBE(f, 4) > 0
  }

  function DecodeFrame(f: seq<Byte>): Frame
    requires |f| >= FRAME_HEADER_SIZE
  {
    Frame(WordBE(f, 0), WordBE(f, 4), f[FRAME_HEADER_SIZE..])
  }

  /** Is the first frame of `body` complete and valid? */
  predicate StartsWithFrame(h: Header, prev: Sum, body: seq<Byte>) {
    |body| >= h.FrameSize() && FrameOk(h, prev, body[..h.FrameSize()])
  }

  /** Bytes up to the end of the last commit frame in the longest valid run of frames. */
  function CommittedBytes(h: Header, prev: Sum, body: seq<Byte>): nat
    decreases |body|
  {
    if !StartsWithFrame(h, prev, body) then 0
    else
      var f := body[..h.FrameSize()];
      var rest := CommittedBytes(h, StoredSum(f), body[h.FrameSize()..]);
      if rest > 0 then h.FrameSize() + rest else if IsCommit(f) then h.FrameSize() else 0
  }

  /** The frames in those bytes. */
  function CommittedFrames(h: Header, prev: Sum, body: seq<Byte>): seq<Frame>
    decreases |body|
  {
    if !StartsWithFrame(h, prev, body) then []
    else
      var f := body[..h.FrameSize()];
      var rest := CommittedFrames(h, StoredSum(f), body[h.FrameSize()..]);
      if rest != [] || IsCommit(f) then [DecodeFrame(f)] + rest else []
  }

  /** The offset walCommittedSize returns, or 0 for "no WAL". */
  function Committed(w: seq<Byte>): nat {
    var r := HeaderOf(w);
    if r.Parsed? then HEADER_SIZE + CommittedBytes(r.header, r.header.cks, w[HEADER_SIZE..]) else 0
  }

  /** The committed frames of a WAL file, in order. */
  function Frames(w: seq<Byte>): seq<Frame> {
    var r := HeaderOf(w);
    if r.Parsed? then CommittedFrames(r.header, r.header.cks, w[HEADER_SIZE..]) else []
  }

  datatype ScanResult = NotExist | Scanned(header: Header, committed: nat)

  /** walCommittedSize on the contents of the file. */
  method WalCommittedSize(w: seq<Byte>) returns (r: ScanResult)
    ensures r.NotExist? <==> HeaderOf(w).Rejected?
    ensures r.Scanned? ==> r.header == HeaderOf(w).header && r.committed == Committed(w)
  {
    hide Checksum, WordBE, ParseWALHeader;
    if |w| < HEADER_SIZE {
      return NotExist;
    }
    var parsed := ParseWALHeader(w[..HEADER_SIZE]);
    if parsed.Rejected? {
      return NotExist;
    }
    var hdr := parsed.header;
    var size := hdr.FrameSize();
    var s1, s2 := hdr.cks.s1, hdr.cks.s2;
    var offset: nat := HEADER_SIZE;
    var committed := offset;
    ghost var total := CommittedBytes(hdr, hdr.cks, w[HEADER_SIZE..]);
    while true
      invariant HEADER_SIZE <= committed <= offset <= |w|
      invariant var rest := CommittedBytes(hdr, Sum(s1, s2), w[offset..]);
                HEADER_SIZE + total == if rest > 0 then offset + rest else committed
      decreases |w| - offset
    {
      if offset + size > |w| {
        break;
      }
      var frame := w[offset..offset + size];
      assert frame == w[offset..][..size];
      assert w[offset..][size..] == w[offset + size..];
      if WordBE(frame, 8) != hdr.salt1 || WordBE(frame, 12) != hdr.salt2 {
        break;
      }
      ghost var prev := Sum(s1, s2);
      s1, s2 := WalChecksum(hdr.bigEndian, s1, s2, frame[..8]);
      s1, s2 := WalChecksum(hdr.bigEndian, s1, s2, frame[FRAME_HEADER_SIZE..]);
      if Sum(s1, s2) != StoredSum(frame) {
        assert !StartsWithFrame(hdr, prev, w[offset..]);
        assert HEADER_SIZE + total == committed;
        return Scanned(hdr, committed);
      }
      offset := offset + size;
      if WordBE(frame, 4) > 0 {
        committed := offset;
      }
    }
    return Scanned(hdr, committed);
  }
}
