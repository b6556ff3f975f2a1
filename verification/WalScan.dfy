/**
 What the WAL scan computes: the end of the last commit frame of the longest
 valid run of frames, a boundary that is stable under cutting and appending,
 and the inverse of writing a log.
 */
module WalScan {
  import opened Wal

  // --------------------------------------------------------------- exactness

  /** Bytes long enough to hold a frame header. */
  type Chunk = c: seq<Byte> | |c| >= FRAME_HEADER_SIZE witness seq(FRAME_HEADER_SIZE, i => 0)

  /** A log body cut into whole frame-sized chunks; a shorter tail is dropped. */
  function Chunks(h: Header, body: seq<Byte>): seq<Chunk>
    decreases |body|
  {
    if |body| < h.FrameSize() then [] else [body[..h.FrameSize()]] + Chunks(h, body[h.FrameSize()..])
  }

  /** Chunk i lies at byte i * FrameSize, and there are as many as fit. */
  lemma {:induction false} ChunkPositions(h: Header, body: seq<Byte>)
    ensures |Chunks(h, body)| * h.FrameSize() <= |body| < |Chunks(h, body)| * h.FrameSize() + h.FrameSize()
    ensures forall i: nat | i < |Chunks(h, body)| :: ChunkLiesAt(h, body, i, i * h.FrameSize())
    decreases |body|
  {
    var n := h.FrameSize();
    if |body| >= n {
      var rest := Chunks(h, body[n..]);
      ChunkPositions(h, body[n..]);
      assert (|rest| + 1) * n == |rest| * n + n;
      forall i: nat | i < |rest| + 1 ensures ChunkLiesAt(h, body, i, i * n) {
        if i > 0 {
          assert ChunkLiesAt(h, body[n..], i - 1, (i - 1) * n);
          assert i * n == (i - 1) * n + n;
        }
      }
    }
  }

  predicate ChunkLiesAt(h: Header, body: seq<Byte>, i: nat, at: nat)
    requires i < |Chunks(h, body)|
  {
    at + h.FrameSize() <= |body| && Chunks(h, body)[i] == body[at..at + h.FrameSize()]
  }

  /** Chunk i carries the header's salts and continues the checksum chain. */
  predicate ContinuesChain(h: Header, prev: Sum, cs: seq<Chunk>, i: nat)
    requires i < |cs|
  {
    FrameOk(h, if i == 0 then prev else StoredSum(cs[i - 1]), cs[i])
  }

  /** The first k chunks are frames of this WAL cycle. */
  predicate ValidRun(h: Header, prev: Sum, cs: seq<Chunk>, k: nat)
  {
    k <= |cs| && forall i: nat | i < k :: ContinuesChain(h, prev, cs, i)
  }

  /** Chunk j - 1 ends the last transaction of the longest valid run (or nothing is committed and j is 0). */
  ghost predicate LastCommitAt(h: Header, prev: Sum, cs: seq<Chunk>, j: nat)
  {
    && ValidRun(h, prev, cs, j)
    && (j == 0 || IsCommit(cs[j - 1]))
    && forall m: nat | j < m && ValidRun(h, prev, cs, m) :: !IsCommit(cs[m - 1])
  }

  lemma ValidRunTail(h: Header, prev: Sum, cs: seq<Chunk>, k: nat)
    requires |cs| > 0 && FrameOk(h, prev, cs[0])
    ensures ValidRun(h, prev, cs, k + 1) <==> ValidRun(h, StoredSum(cs[0]), cs[1..], k)
  {
    hide FrameOk, StoredSum;
    if ValidRun(h, prev, cs, k + 1) {
      forall i: nat | i < k ensures ContinuesChain(h, StoredSum(cs[0]), cs[1..], i) {
        assert ContinuesChain(h, prev, cs, i + 1);
      }
    }
    if ValidRun(h, StoredSum(cs[0]), cs[1..], k) {
      forall i: nat | i < k + 1 ensures ContinuesChain(h, prev, cs, i) {
        assert i > 0 ==> ContinuesChain(h, StoredSum(cs[0]), cs[1..], i - 1);
      }
    }
  }

  lemma {:induction false} CommittedBytesCountsFrames(h: Header, prev: Sum, body: seq<Byte>)
    ensures CommittedBytes(h, prev, body) == |CommittedFrames(h, prev, body)| * h.FrameSize() <= |body|
    decreases |body|
  {
    hide Checksum, WordBE;
    var n := h.FrameSize();
    if StartsWithFrame(h, prev, body) {
      var rest := CommittedFrames(h, StoredSum(body[..n]), body[n..]);
      CommittedBytesCountsFrames(h, StoredSum(body[..n]), body[n..]);
      assert (|rest| + 1) * n == |rest| * n + n;
      assert |rest| > 0 ==> |rest| * n >= n;
    }
  }

  lemma {:induction false} CommittedFramesEndAtLastCommit(h: Header, prev: Sum, body: seq<Byte>)
    ensures LastCommitAt(h, prev, Chunks(h, body), |CommittedFrames(h, prev, body)|)
    decreases |body|
  {
    hide Checksum, WordBE, LinkSum, StoredSum, FrameOk, IsCommit;
    var n := h.FrameSize();
    var cs := Chunks(h, body);
    if !StartsWithFrame(h, prev, body) {
      assert |cs| > 0 ==> !ContinuesChain(h, prev, cs, 0);
    } else {
      var next := StoredSum(cs[0]);
      var tail := CommittedFrames(h, next, body[n..]);
      CommittedFramesEndAtLastCommit(h, next, body[n..]);
      assert cs[1..] == Chunks(h, body[n..]);
      forall m: nat | |tail| + 1 < m && ValidRun(h, prev, cs, m) ensures !IsCommit(cs[m - 1]) {
        ValidRunTail(h, prev, cs, m - 1);
        assert cs[m - 1] == cs[1..][m - 2];
      }
      ValidRunTail(h, prev, cs, |tail|);
      assert |tail| > 0 ==> cs[|tail|] == cs[1..][|tail| - 1];
    }
  }

  /** walCommittedSize returns exactly the end of the last commit of the longest valid run, for any bytes. */
  lemma ScanIsExact(w: seq<Byte>, j: nat)
    requires HeaderOf(w).Parsed?
    ensures var h := HeaderOf(w).header;
            Committed(w) == HEADER_SIZE + j * h.FrameSize() <==> LastCommitAt(h, h.cks, Chunks(h, w[HEADER_SIZE..]), j)
  {
    hide ParseWALHeader, CommittedFrames, CommittedBytes, Chunks, FrameOk, IsCommit, Checksum, WordBE;
    var h := HeaderOf(w).header;
    var body := w[HEADER_SIZE..];
    var n := |CommittedFrames(h, h.cks, body)|;
    CommittedBytesCountsFrames(h, h.cks, body);
    CommittedFramesEndAtLastCommit(h, h.cks, body);
    MultiplesAreDistinct(j, n, h.FrameSize());
  }

  lemma MultiplesAreDistinct(a: nat, b: nat, size: nat)
    requires size > 0
    ensures a * size == b * size ==> a == b
  {
  }

  // --------------------------------------------------------------- stability

  lemma {:induction false} BodyExtends(h: Header, prev: Sum, a: seq<Byte>, b: seq<Byte>)
    requires var c := CommittedBytes(h, prev, a); c <= |a| && c <= |b| && a[..c] == b[..c]
    ensures CommittedBytes(h, prev, a) <= CommittedBytes(h, prev, b)
    ensures CommittedFrames(h, prev, a) <= CommittedFrames(h, prev, b)
    ensures CommittedBytes(h, prev, a) == CommittedBytes(h, prev, b) ==>
              CommittedFrames(h, prev, a) == CommittedFrames(h, prev, b)
    decreases |a|
  {
    hide Checksum, WordBE;
    var n := h.FrameSize();
    var c := CommittedBytes(h, prev, a);
    CommittedBytesCountsFrames(h, prev, a);
    CommittedBytesCountsFrames(h, prev, b);
    if c > 0 {
      var next := StoredSum(a[..n]);
      CommittedBytesCountsFrames(h, next, a[n..]);
      assert c >= n;
      assert a[..n] == a[..c][..n] == b[..c][..n] == b[..n];
      assert a[n..][..c - n] == a[..c][n..] == b[..c][n..] == b[n..][..c - n];
      BodyExtends(h, next, a[n..], b[n..]);
    }
  }

  lemma BodyCut(h: Header, prev: Sum, a: seq<Byte>)
    ensures var c := CommittedBytes(h, prev, a);
            c <= |a| && CommittedBytes(h, prev, a[..c]) == c
    ensures CommittedFrames(h, prev, a[..CommittedBytes(h, prev, a)]) == CommittedFrames(h, prev, a)
  {
    hide Checksum, WordBE, CommittedFrames, CommittedBytes;
    var c := CommittedBytes(h, prev, a);
    CommittedBytesCountsFrames(h, prev, a);
    CommittedBytesCountsFrames(h, prev, a[..c]);
    assert a[..c][..c] == a[..c];
    BodyExtends(h, prev, a, a[..c]);
    BodyExtends(h, prev, a[..c], a);
  }

  lemma CommittedIsWithinFile(w: seq<Byte>)
    ensures Committed(w) <= |w|
    ensures Committed(w) == 0 <==> HeaderOf(w).Rejected?
    ensures Committed(w) == 0 ==> Frames(w) == []
    ensures Committed(w) > 0 ==> Committed(w) >= HEADER_SIZE
  {
    hide Checksum, WordBE, ParseWALHeader;
    if HeaderOf(w).Parsed? {
      var h := HeaderOf(w).header;
      CommittedBytesCountsFrames(h, h.cks, w[HEADER_SIZE..]);
    }
  }

  /** Whatever happens past the boundary, the header, the boundary and the committed frames survive. */
  lemma ScanExtends(w: seq<Byte>, x: seq<Byte>)
    requires Committed(w) <= |w| && Committed(w) <= |x| && x[..Committed(w)] == w[..Committed(w)]
    ensures Committed(w) <= Committed(x)
    ensures Committed(w) > 0 ==> HeaderOf(x) == HeaderOf(w)
    ensures Frames(w) <= Frames(x)
    ensures Committed(w) == Committed(x) ==> Frames(w) == Frames(x)
  {
    hide Checksum, WordBE, ParseWALHeader;
    CommittedIsWithinFile(w);
    CommittedIsWithinFile(x);
    if HeaderOf(w).Parsed? {
      var c := Committed(w);
      var h := HeaderOf(w).header;
      assert w[..HEADER_SIZE] == w[..c][..HEADER_SIZE] == x[..c][..HEADER_SIZE] == x[..HEADER_SIZE];
      assert w[HEADER_SIZE..][..c - HEADER_SIZE] == w[..c][HEADER_SIZE..];
      assert x[HEADER_SIZE..][..c - HEADER_SIZE] == x[..c][HEADER_SIZE..];
      BodyExtends(h, h.cks, w[HEADER_SIZE..], x[HEADER_SIZE..]);
    }
  }

  /** Appending any bytes never lowers the boundary. */
  lemma AppendingNeverLowers(w: seq<Byte>, more: seq<Byte>)
    ensures Committed(w) <= Committed(w + more) && Frames(w) <= Frames(w + more)
  {
    hide Checksum, WordBE, ParseWALHeader;
    CommittedIsWithinFile(w);
    assert (w + more)[..Committed(w)] == w[..Committed(w)];
    ScanExtends(w, w + more);
  }

  /** No frame of the header's cycle starts here: there is no room for one, or it carries other salts. */
  predicate StartsOtherCycle(h: Header, data: seq<Byte>) {
    |data| < h.FrameSize() || WordBE(data, 8) != h.salt1 || WordBE(data, 12) != h.salt2
  }

  lemma OtherCycleIsNoFrame(h: Header, prev: Sum, data: seq<Byte>)
    requires StartsOtherCycle(h, data)
    ensures !StartsWithFrame(h, prev, data)
  {
    hide Checksum;
    if |data| >= h.FrameSize() {
      assert data[..h.FrameSize()][8..12] == data[8..12] && data[..h.FrameSize()][12..16] == data[12..16];
    }
  }

  lemma {:induction false} BodyStops(h: Header, prev: Sum, a: seq<Byte>, data: seq<Byte>)
    requires CommittedBytes(h, prev, a) == |a| && StartsOtherCycle(h, data)
    ensures CommittedFrames(h, prev, a + data) == CommittedFrames(h, prev, a)
    decreases |a|
  {
    hide FrameOk, StoredSum, WordBE, StartsOtherCycle;
    OtherCycleIsNoFrame(h, prev, data);
    if a == [] {
      assert a + data == data;
    } else {
      var n := h.FrameSize();
      CommittedBytesCountsFrames(h, StoredSum(a[..n]), a[n..]);
      assert (a + data)[..n] == a[..n] && (a + data)[n..] == a[n..] + data;
      BodyStops(h, StoredSum(a[..n]), a[n..], data);
    }
  }

  /** Bytes of another cycle after the boundary add no frames. */
  lemma OtherSaltsAddNothing(w: seq<Byte>, data: seq<Byte>)
    requires HeaderOf(w).Parsed? && Committed(w) == |w| && StartsOtherCycle(HeaderOf(w).header, data)
    ensures Frames(w + data) == Frames(w)
  {
    hide Checksum, WordBE, ParseWALHeader, StartsOtherCycle, CommittedBytes, CommittedFrames;
    assert (w + data)[..HEADER_SIZE] == w[..HEADER_SIZE];
    assert (w + data)[HEADER_SIZE..] == w[HEADER_SIZE..] + data;
    BodyStops(HeaderOf(w).header, HeaderOf(w).header.cks, w[HEADER_SIZE..], data);
  }

  /** Cutting at the boundary and scanning again gives the same boundary and the same frames. */
  lemma ScanOfCut(w: seq<Byte>)
    ensures Committed(w) <= |w|
    ensures Committed(w[..Committed(w)]) == Committed(w) && Frames(w[..Committed(w)]) == Frames(w)
    ensures Committed(w) > 0 ==> HeaderOf(w[..Committed(w)]) == HeaderOf(w)
  {
    hide Checksum, WordBE, ParseWALHeader;
    CommittedIsWithinFile(w);
    var c := Committed(w);
    if HeaderOf(w).Parsed? {
      var h := HeaderOf(w).header;
      var cut := w[..c];
      assert cut[..HEADER_SIZE] == w[..HEADER_SIZE];
      assert cut[HEADER_SIZE..] == w[HEADER_SIZE..][..c - HEADER_SIZE];
      BodyCut(h, h.cks, w[HEADER_SIZE..]);
    }
  }

  lemma {:induction false} BodyFramesEndInCommit(h: Header, prev: Sum, body: seq<Byte>)
    ensures var fs := CommittedFrames(h, prev, body); fs != [] ==> fs[|fs| - 1].dbSize > 0
    decreases |body|
  {
    hide Checksum, WordBE;
    if StartsWithFrame(h, prev, body) {
      BodyFramesEndInCommit(h, StoredSum(body[..h.FrameSize()]), body[h.FrameSize()..]);
    }
  }

  /** The committed frames always end with a commit frame: no partial transaction is ever shipped. */
  lemma FramesEndInCommit(w: seq<Byte>)
    ensures Frames(w) != [] ==> Frames(w)[|Frames(w)| - 1].dbSize > 0
  {
    if HeaderOf(w).Parsed? {
      BodyFramesEndInCommit(HeaderOf(w).header, HeaderOf(w).header.cks, w[HEADER_SIZE..]);
    }
  }

  lemma {:induction false} BodyFramesTakeSpace(h: Header, prev: Sum, body: seq<Byte>)
    ensures CommittedFrames(h, prev, body) == [] <==> CommittedBytes(h, prev, body) == 0
    decreases |body|
  {
    hide Checksum, WordBE;
    if StartsWithFrame(h, prev, body) {
      BodyFramesTakeSpace(h, StoredSum(body[..h.FrameSize()]), body[h.FrameSize()..]);
    }
  }

  /** The boundary is past the header exactly when something is committed. */
  lemma FramesTakeSpace(w: seq<Byte>)
    ensures Frames(w) == [] <==> Committed(w) <= HEADER_SIZE
  {
    hide Checksum, WordBE, ParseWALHeader;
    if HeaderOf(w).Parsed? {
      BodyFramesTakeSpace(HeaderOf(w).header, HeaderOf(w).header.cks, w[HEADER_SIZE..]);
    }
  }

  // ----------------------------------------------------------------- writing

  function BytesBE(w: Word): (b: seq<Byte>)
    ensures |b| == 4 && BigEndian(b) == w
  {
    var n: int := w;
    var b := [n / 0x100_0000, n / 0x1_0000 % 0x100, n / 0x100 % 0x100, n % 0x100];
    assert b[..3] == [n / 0x100_0000, n / 0x1_0000 % 0x100, n / 0x100 % 0x100];
    assert b[..3][..2] == [n / 0x100_0000, n / 0x1_0000 % 0x100];
    assert b[..3][..2][..1] == [n / 0x100_0000];
    assert BigEndian(b[..3][..2][..1]) == n / 0x100_0000;
    assert BigEndian(b[..3][..2]) == n / 0x1_0000;
    assert BigEndian(b[..3]) == n / 0x100;
    b
  }

  /** A frame as SQLite writes it: salts of the cycle, checksum chained from `prev`. */
  function EncodeFrame(h: Header, prev: Sum, f: Frame): seq<Byte> {
    var start := BytesBE(f.page) + BytesBE(f.dbSize);
    var sum := Checksum(h.bigEndian, Checksum(h.bigEndian, prev, start), f.data);
    start + BytesBE(h.salt1) + BytesBE(h.salt2) + BytesBE(sum.s1) + BytesBE(sum.s2) + f.data
  }

  function EncodeFrames(h: Header, prev: Sum, fs: seq<Frame>): seq<Byte>
    decreases |fs|
  {
    if fs == [] then []
    else
      var sum := Checksum(h.bigEndian, Checksum(h.bigEndian, prev, BytesBE(fs[0].page) + BytesBE(fs[0].dbSize)), fs[0].data);
      EncodeFrame(h, prev, fs[0]) + EncodeFrames(h, sum, fs[1..])
  }

  const WAL_VERSION: Word := 3007000

  function HeaderStart(bigEndian: bool, pageSize: Word, sequence: Word, salt1: Word, salt2: Word): (b: seq<Byte>)
    ensures |b| == 24
  {
    BytesBE(if bigEndian then MAGIC_BE else MAGIC_LE) + BytesBE(WAL_VERSION) + BytesBE(pageSize) +
    BytesBE(sequence) + BytesBE(salt1) + BytesBE(salt2)
  }

  /** The header SQLite starts a WAL cycle with. */
  function NewHeader(bigEndian: bool, pageSize: Word, sequence: Word, salt1: Word, salt2: Word): Header {
    Header(bigEndian, pageSize, salt1, salt2,
           Checksum(bigEndian, Sum(0, 0), HeaderStart(bigEndian, pageSize, sequence, salt1, salt2)))
  }

  function EncodeWal(bigEndian: bool, pageSize: Word, sequence: Word, salt1: Word, salt2: Word, fs: seq<Frame>): seq<Byte> {
    var h := NewHeader(bigEndian, pageSize, sequence, salt1, salt2);
    HeaderStart(bigEndian, pageSize, sequence, salt1, salt2) + BytesBE(h.cks.s1) + BytesBE(h.cks.s2) +
    EncodeFrames(h, h.cks, fs)
  }

  /** The frames up to the last commit frame. */
  function UpToLastCommit(fs: seq<Frame>): seq<Frame> {
    if fs == [] || fs[|fs| - 1].dbSize > 0 then fs else UpToLastCommit(fs[..|fs| - 1])
  }

  /** The same, from the front. */
  lemma {:induction false} UpToLastCommitFront(fs: seq<Frame>)
    requires fs != []
    ensures var rest := UpToLastCommit(fs[1..]);
            UpToLastCommit(fs) == if rest != [] || fs[0].dbSize > 0 then [fs[0]] + rest else []
  {
    var last := |fs| - 1;
    if fs[last].dbSize == 0 {
      if last > 0 {
        assert fs[1..][..last - 1] == fs[..last][1..];
        UpToLastCommitFront(fs[..last]);
      }
    } else {
      assert fs == [fs[0]] + fs[1..];
    }
  }

  lemma WordInside(b: seq<Byte>, i: nat, w: Word)
    requires i + 4 <= |b| && b[i..i + 4] == BytesBE(w)
    ensures WordBE(b, i) == w
  {
  }

  lemma EncodedFrameIsValid(h: Header, prev: Sum, f: Frame)
    requires |f.data| == h.pageSize
    ensures var e := EncodeFrame(h, prev, f);
            && |e| == h.FrameSize()
            && FrameOk(h, prev, e)
            && DecodeFrame(e) == f
            && StoredSum(e) == Checksum(h.bigEndian, Checksum(h.bigEndian, prev, BytesBE(f.page) + BytesBE(f.dbSize)), f.data)
  {
    hide Checksum, WordBE, BytesBE;
    var start := BytesBE(f.page) + BytesBE(f.dbSize);
    var sum := Checksum(h.bigEndian, Checksum(h.bigEndian, prev, start), f.data);
    var e := EncodeFrame(h, prev, f);
    assert e[..8] == start && e[24..] == f.data;
    WordInside(e, 0, f.page);
    WordInside(e, 4, f.dbSize);
    WordInside(e, 8, h.salt1);
    WordInside(e, 12, h.salt2);
    WordInside(e, 16, sum.s1);
    WordInside(e, 20, sum.s2);
  }

  /** The checksum after the frames. */
  function EndSum(h: Header, prev: Sum, fs: seq<Frame>): Sum
    decreases |fs|
  {
    if fs == [] then prev
    else
      var sum := Checksum(h.bigEndian, Checksum(h.bigEndian, prev, BytesBE(fs[0].page) + BytesBE(fs[0].dbSize)), fs[0].data);
      EndSum(h, sum, fs[1..])
  }

  lemma {:induction false} ScanOfEncodedFrames(h: Header, prev: Sum, fs: seq<Frame>, tail: seq<Byte>)
    requires forall f | f in fs :: |f.data| == h.pageSize
    requires !StartsWithFrame(h, EndSum(h, prev, fs), tail)
    ensures CommittedFrames(h, prev, EncodeFrames(h, prev, fs) + tail) == UpToLastCommit(fs)
    decreases |fs|
  {
    hide Checksum, WordBE, StartsWithFrame;
    if fs == [] {
      assert EncodeFrames(h, prev, fs) + tail == tail;
    } else {
      var e := EncodeFrame(h, prev, fs[0]);
      var body := EncodeFrames(h, prev, fs) + tail;
      EncodedFrameIsValid(h, prev, fs[0]);
      assert body[..h.FrameSize()] == e;
      assert body[h.FrameSize()..] == EncodeFrames(h, StoredSum(e), fs[1..]) + tail;
      ValidFrameStarts(h, prev, body);
      ScanOfEncodedFrames(h, StoredSum(e), fs[1..], tail);
      UpToLastCommitFront(fs);
    }
  }

  lemma ValidFrameStarts(h: Header, prev: Sum, body: seq<Byte>)
    requires |body| >= h.FrameSize() && FrameOk(h, prev, body[..h.FrameSize()])
    ensures StartsWithFrame(h, prev, body)
  {
    hide Checksum, WordBE;
  }

  lemma EncodedHeaderParses(bigEndian: bool, pageSize: Word, sequence: Word, salt1: Word, salt2: Word, rest: seq<Byte>)
    requires LegalPageSize(pageSize)
    ensures var h := NewHeader(bigEndian, pageSize, sequence, salt1, salt2);
            var b := HeaderStart(bigEndian, pageSize, sequence, salt1, salt2) + BytesBE(h.cks.s1) + BytesBE(h.cks.s2);
            |b| == HEADER_SIZE && HeaderOf(b + rest) == Parsed(h)
  {
    hide Checksum, WordBE, BytesBE;
    var h := NewHeader(bigEndian, pageSize, sequence, salt1, salt2);
    var start := HeaderStart(bigEndian, pageSize, sequence, salt1, salt2);
    var b := start + BytesBE(h.cks.s1) + BytesBE(h.cks.s2);
    assert (b + rest)[..HEADER_SIZE] == b;
    assert b[..24] == start;
    WordInside(b, 0, if bigEndian then MAGIC_BE else MAGIC_LE);
    WordInside(b, 8, pageSize);
    WordInside(b, 16, salt1);
    WordInside(b, 20, salt2);
    WordInside(b, 24, h.cks.s1);
    WordInside(b, 28, h.cks.s2);
  }

  /**
   Scanning what SQLite wrote recovers the header and exactly the frames of whole transactions, whatever follows that is
   not a next frame: a torn frame, or frames of an earlier cycle.
   */
  lemma ScanInvertsWriting(
    bigEndian: bool, pageSize: Word, sequence: Word, salt1: Word, salt2: Word, fs: seq<Frame>, tail: seq<Byte>)
    requires LegalPageSize(pageSize) && forall f | f in fs :: |f.data| == pageSize
    requires var h := NewHeader(bigEndian, pageSize, sequence, salt1, salt2);
             !StartsWithFrame(h, EndSum(h, h.cks, fs), tail)
    ensures var w := EncodeWal(bigEndian, pageSize, sequence, salt1, salt2, fs) + tail;
            && HeaderOf(w) == Parsed(NewHeader(bigEndian, pageSize, sequence, salt1, salt2))
            && Frames(w) == UpToLastCommit(fs)
  {
    hide Checksum, WordBE, BytesBE, StartsWithFrame;
    var h := NewHeader(bigEndian, pageSize, sequence, salt1, salt2);
    var body := EncodeFrames(h, h.cks, fs) + tail;
    EncodedHeaderParses(bigEndian, pageSize, sequence, salt1, salt2, body);
    var b := HeaderStart(bigEndian, pageSize, sequence, salt1, salt2) + BytesBE(h.cks.s1) + BytesBE(h.cks.s2);
    var w := EncodeWal(bigEndian, pageSize, sequence, salt1, salt2, fs) + tail;
    assert w == b + body;
    assert w[HEADER_SIZE..] == body;
    ScanOfEncodedFrames(h, h.cks, fs, tail);
  }

  /** A log grows by appending: writing more frames keeps the bytes of the first ones. */
  lemma {:induction false} EncodedFramesGrow(h: Header, prev: Sum, fs: seq<Frame>, more: seq<Frame>)
    ensures EncodeFrames(h, prev, fs) <= EncodeFrames(h, prev, fs + more)
    decreases |fs|
  {
    hide Checksum, BytesBE;
    if fs == [] {
      assert fs + more == more;
    } else {
      var sum := Checksum(h.bigEndian, Checksum(h.bigEndian, prev, BytesBE(fs[0].page) + BytesBE(fs[0].dbSize)), fs[0].data);
      assert (fs + more)[1..] == fs[1..] + more;
      EncodedFramesGrow(h, sum, fs[1..], more);
    }
  }
}
