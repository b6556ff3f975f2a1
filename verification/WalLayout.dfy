/**
 What the WAL's bytes mean, in terms of the bytes themselves: the checksum as the weighted sum that section 4.2 of the
 SQLite "Database File Format" document gives, and the fields of headers and frames at their offsets (wal.go).
 */
module WalLayout {
  import opened Wal
  import opened WalScan

  // ------------------------------------------------------- the checksum's sum

  /** Word k of a byte string, in either byte order. */
  function Word32(bigEndian: bool, b: seq<Byte>, k: nat): int
    requires 4 * k + 4 <= |b|
  {
    var b0: int, b1: int, b2: int, b3: int := b[4 * k], b[4 * k + 1], b[4 * k + 2], b[4 * k + 3];
    if bigEndian then 0x100_0000 * b0 + 0x1_0000 * b1 + 0x100 * b2 + b3
    else b0 + 0x100 * b1 + 0x1_0000 * b2 + 0x100_0000 * b3
  }

  /** The Fibonacci numbers 1, 1, 2, 3, 5, ... from n = 1 on. */
  function Fib(n: nat): nat {
    if n < 2 then n else Fib(n - 1) + Fib(n - 2)
  }

  /** The first m words, the k-th of them weighted with Fibonacci number n - k. */
  function WeightedSum(bigEndian: bool, b: seq<Byte>, n: nat, m: nat): int
    requires m <= n && 4 * m <= |b|
  {
    if m == 0 then 0
    else WeightedSum(bigEndian, b, n, m - 1) + Fib(n - (m - 1)) * Word32(bigEndian, b, m - 1)
  }

  /** The checksum without wrapping round. */
  function Unwrapped(bigEndian: bool, s1: int, s2: int, b: seq<Byte>): (int, int)
    decreases |b|
  {
    if |b| < 8 then (s1, s2)
    else
      var t1 := s1 + s2 + Word32(bigEndian, b, 0);
      Unwrapped(bigEndian, t1, s2 + t1 + Word32(bigEndian, b, 1), b[8..])
  }

  lemma WordIsWord32(bigEndian: bool, b: seq<Byte>, k: nat)
    requires 4 * k + 4 <= |b|
    ensures WordAt(bigEndian, b, 4 * k) == Word32(bigEndian, b, k)
  {
    hide BigEndian, LittleEndian;
    var w := b[4 * k..4 * k + 4];
    if bigEndian { FourBytesBE(w); } else { FourBytesLE(w); }
  }

  lemma FourBytesBE(w: seq<Byte>)
    requires |w| == 4
    ensures var w0: int, w1: int, w2: int, w3: int := w[0], w[1], w[2], w[3];
            BigEndian(w) == 0x100_0000 * w0 + 0x1_0000 * w1 + 0x100 * w2 + w3
  {
    var w0: int, w1: int, w2: int := w[0], w[1], w[2];
    assert BigEndian(w[..3][..2][..1]) == w0;
    assert BigEndian(w[..3][..2]) == 0x100 * w0 + w1;
    assert BigEndian(w[..3]) == 0x1_0000 * w0 + 0x100 * w1 + w2;
  }

  lemma FourBytesLE(w: seq<Byte>)
    requires |w| == 4
    ensures var w0: int, w1: int, w2: int, w3: int := w[0], w[1], w[2], w[3];
            LittleEndian(w) == w0 + 0x100 * w1 + 0x1_0000 * w2 + 0x100_0000 * w3
  {
    var w1: int, w2: int, w3: int := w[1], w[2], w[3];
    assert LittleEndian(w[1..][1..][1..]) == w3;
    assert LittleEndian(w[1..][1..]) == 0x100 * w3 + w2;
    assert LittleEndian(w[1..]) == 0x1_0000 * w3 + 0x100 * w2 + w1;
  }

  function Wrapped(x: int): Word {
    x % WORD_MODULUS
  }

  lemma WrapAddWraps(x: int, y: int)
    ensures WrapAdd(Wrapped(x), Wrapped(y)) == Wrapped(x + y)
  {
    var q, r := x / WORD_MODULUS, y / WORD_MODULUS;
    assert x + y == WORD_MODULUS * (q + r) + (x % WORD_MODULUS + y % WORD_MODULUS);
  }

  lemma WordsAreWrapped(w: Word)
    ensures Wrapped(w) == w
  {
  }

  lemma MixWraps(s1: int, s2: int, x0: Word, x1: Word)
    ensures var t1 := s1 + s2 + x0; Mix(Sum(Wrapped(s1), Wrapped(s2)), x0, x1) == Sum(Wrapped(t1), Wrapped(s2 + t1 + x1))
  {
    hide WrapAdd, Wrapped;
    var y0: int, y1: int := x0, x1;
    WordsAreWrapped(x0);
    WordsAreWrapped(x1);
    WrapAddWraps(y0, s2);
    WrapAddWraps(s1, y0 + s2);
    WrapAddWraps(y1, s1 + s2 + y0);
    WrapAddWraps(s2, y1 + (s1 + s2 + y0));
    assert s1 + (y0 + s2) == s1 + s2 + y0 && s2 + (y1 + (s1 + s2 + y0)) == s2 + (s1 + s2 + y0) + y1;
  }

  /** Wrapping at every step is wrapping once at the end. */
  lemma {:induction false} ChecksumWraps(bigEndian: bool, s1: int, s2: int, b: seq<Byte>)
    ensures var u := Unwrapped(bigEndian, s1, s2, b);
            Checksum(bigEndian, Sum(Wrapped(s1), Wrapped(s2)), b) == Sum(Wrapped(u.0), Wrapped(u.1))
    decreases |b|
  {
    hide Wrapped, Mix, Word32, WordAt;
    if |b| >= 8 {
      var x0, x1 := Word32(bigEndian, b, 0), Word32(bigEndian, b, 1);
      WordIsWord32(bigEndian, b, 0);
      WordIsWord32(bigEndian, b, 1);
      MixWraps(s1, s2, WordAt(bigEndian, b, 0), WordAt(bigEndian, b, 4));
      ChecksumWraps(bigEndian, s1 + s2 + x0, s2 + (s1 + s2 + x0) + x1, b[8..]);
    }
  }

  lemma {:induction false} SumFromSecondChunk(bigEndian: bool, b: seq<Byte>, n: nat, m: nat)
    requires 2 <= m <= n && 4 * m <= |b|
    ensures WeightedSum(bigEndian, b, n, m) ==
            Fib(n) * Word32(bigEndian, b, 0) + Fib(n - 1) * Word32(bigEndian, b, 1)
            + WeightedSum(bigEndian, b[8..], n - 2, m - 2)
  {
    hide Fib, Word32;
    if m == 2 {
      assert WeightedSum(bigEndian, b, n, 1) == Fib(n) * Word32(bigEndian, b, 0);
    } else {
      SumFromSecondChunk(bigEndian, b, n, m - 1);
      LaterWord(bigEndian, b, m - 1);
    }
  }

  lemma LaterWord(bigEndian: bool, b: seq<Byte>, k: nat)
    requires 2 <= k && 4 * k + 4 <= |b|
    ensures Word32(bigEndian, b[8..], k - 2) == Word32(bigEndian, b, k)
  {
  }

  /** One chunk x, y after the pair a, b, under consecutive Fibonacci weights and with w to come. */
  lemma NextWeights(f: int, g: int, h: int, k: int, a: int, b: int, x: int, y: int, w: int, all: int, r: int)
    requires h == g + f && k == h + g && all == h * x + g * y + w
    requires r == f * (a + b + x) + g * (b + (a + b + x) + y) + w
    ensures r == h * a + k * b + all
  {
  }

  lemma UnwrappedStep(bigEndian: bool, s1: int, s2: int, b: seq<Byte>)
    requires |b| >= 8
    ensures var x0, x1 := Word32(bigEndian, b, 0), Word32(bigEndian, b, 1);
            Unwrapped(bigEndian, s1, s2, b) == Unwrapped(bigEndian, s1 + s2 + x0, s2 + (s1 + s2 + x0) + x1, b[8..])
  {
  }

  /** A pair to start from counts like two words before the first. */
  lemma {:induction false} UnwrappedIsWeighted(bigEndian: bool, s1: int, s2: int, b: seq<Byte>)
    requires |b| >= 8
    ensures var n, u := 2 * (|b| / 8), Unwrapped(bigEndian, s1, s2, b);
            && u.0 == Fib(n - 1) * s1 + Fib(n) * s2 + WeightedSum(bigEndian, b, n - 1, n - 1)
            && u.1 == Fib(n) * s1 + Fib(n + 1) * s2 + WeightedSum(bigEndian, b, n, n)
    decreases |b|
  {
    hide Word32, WeightedSum, Fib, Unwrapped;
    var n := 2 * (|b| / 8);
    if n == 2 {
      OneChunk(bigEndian, s1, s2, b);
    } else {
      var x0, x1 := Word32(bigEndian, b, 0), Word32(bigEndian, b, 1);
      var u, rest := Unwrapped(bigEndian, s1, s2, b), b[8..];
      MoreChunks(n);
      SumFromSecondChunk(bigEndian, b, n, n);
      SumFromSecondChunk(bigEndian, b, n - 1, n - 1);
      UnwrappedStep(bigEndian, s1, s2, b);
      UnwrappedIsWeighted(bigEndian, s1 + s2 + x0, s2 + (s1 + s2 + x0) + x1, rest);
      NextWeights(Fib(n - 3), Fib(n - 2), Fib(n - 1), Fib(n), s1, s2, x0, x1,
                  WeightedSum(bigEndian, rest, n - 3, n - 3), WeightedSum(bigEndian, b, n - 1, n - 1), u.0);
      NextWeights(Fib(n - 2), Fib(n - 1), Fib(n), Fib(n + 1), s1, s2, x0, x1,
                  WeightedSum(bigEndian, rest, n - 2, n - 2), WeightedSum(bigEndian, b, n, n), u.1);
    }
  }

  lemma MoreChunks(n: nat)
    requires n >= 4
    ensures Fib(n + 1) == Fib(n) + Fib(n - 1) && Fib(n) == Fib(n - 1) + Fib(n - 2) && Fib(n - 1) == Fib(n - 2) + Fib(n - 3)
  {
  }

  lemma OneChunk(bigEndian: bool, s1: int, s2: int, b: seq<Byte>)
    requires 8 <= |b| < 16
    ensures Unwrapped(bigEndian, s1, s2, b) ==
            (Fib(1) * s1 + Fib(2) * s2 + WeightedSum(bigEndian, b, 1, 1),
             Fib(2) * s1 + Fib(3) * s2 + WeightedSum(bigEndian, b, 2, 2))
  {
    hide Word32;
    var x0, x1 := Word32(bigEndian, b, 0), Word32(bigEndian, b, 1);
    assert Fib(1) == Fib(2) == 1 && Fib(3) == 2;
    assert WeightedSum(bigEndian, b, 1, 0) == WeightedSum(bigEndian, b, 2, 0) == 0;
    assert WeightedSum(bigEndian, b, 1, 1) == x0 && WeightedSum(bigEndian, b, 2, 1) == x0;
    assert WeightedSum(bigEndian, b, 2, 2) == x0 + x1;
  }

  /**
   The checksum of whole chunks, n words in all: the second sum weighs word k with Fibonacci number n - k, the first
   leaves out the last word and weighs word k with n - 1 - k, both modulo 2^32; the pair it starts from counts like two
   words before the first.
   */
  lemma ChecksumIsWeightedSum(bigEndian: bool, s: Sum, b: seq<Byte>)
    requires |b| >= 8
    ensures var n, r := 2 * (|b| / 8), Checksum(bigEndian, s, b);
            var a: int, c: int := s.s1, s.s2;
            && r.s1 == (Fib(n - 1) * a + Fib(n) * c + WeightedSum(bigEndian, b, n - 1, n - 1)) % 0x1_0000_0000
            && r.s2 == (Fib(n) * a + Fib(n + 1) * c + WeightedSum(bigEndian, b, n, n)) % 0x1_0000_0000
  {
    hide Checksum, Unwrapped, WeightedSum, Fib;
    ChecksumWraps(bigEndian, s.s1, s.s2, b);
    UnwrappedIsWeighted(bigEndian, s.s1, s.s2, b);
  }

  /** Started from nothing, as for a header, only the words count. */
  lemma ChecksumFromNothing(bigEndian: bool, b: seq<Byte>)
    requires |b| >= 8
    ensures var n, r := 2 * (|b| / 8), Checksum(bigEndian, Sum(0, 0), b);
            && r.s1 == WeightedSum(bigEndian, b, n - 1, n - 1) % 0x1_0000_0000
            && r.s2 == WeightedSum(bigEndian, b, n, n) % 0x1_0000_0000
  {
    hide Checksum, WeightedSum, Fib;
    ChecksumIsWeightedSum(bigEndian, Sum(0, 0), b);
  }

  lemma {:induction false} SumOfBeginning(bigEndian: bool, b: seq<Byte>, c: nat, n: nat, m: nat)
    requires m <= n && 4 * m <= c <= |b|
    ensures WeightedSum(bigEndian, b[..c], n, m) == WeightedSum(bigEndian, b, n, m)
  {
    if m > 0 { SumOfBeginning(bigEndian, b, c, n, m - 1); }
  }

  /** Chunks one after the other. */
  lemma {:induction false} ChecksumConcat(bigEndian: bool, s: Sum, a: seq<Byte>, b: seq<Byte>)
    requires |a| % 8 == 0
    ensures Checksum(bigEndian, s, a + b) == Checksum(bigEndian, Checksum(bigEndian, s, a), b)
    decreases |a|
  {
    hide WordAt, Mix;
    if a == [] {
      assert a + b == b;
    } else {
      assert (a + b)[..8] == a[..8] && (a + b)[8..] == a[8..] + b;
      WordsOfEqualChunks(bigEndian, a, a + b);
      ChecksumConcat(bigEndian, Mix(s, WordAt(bigEndian, a, 0), WordAt(bigEndian, a, 4)), a[8..], b);
    }
  }

  // -------------------------------------------------------------- the header

  function TwoTo(k: nat): nat {
    if k == 0 then 1 else 2 * TwoTo(k - 1)
  }

  /** The page sizes that may stand in a header: 2^9 to 2^16. */
  ghost predicate PowerPage(n: int) {
    exists k: nat :: 9 <= k <= 16 && n == TwoTo(k)
  }

  lemma PagePowers()
    ensures TwoTo(9) == 512 && TwoTo(10) == 1024 && TwoTo(11) == 2048 && TwoTo(12) == 4096
    ensures TwoTo(13) == 8192 && TwoTo(14) == 16384 && TwoTo(15) == 32768 && TwoTo(16) == 65536
  {
    assert TwoTo(4) == 16 && TwoTo(8) == 256 && TwoTo(12) == 4096;
  }

  lemma LegalSizesArePowers(n: nat)
    ensures LegalPageSize(n) <==> PowerPage(n)
  {
    PagePowers();
    if LegalPageSize(n) {
      var k: nat := if n == 512 then 9 else if n == 1024 then 10 else if n == 2048 then 11 else if n == 4096 then 12
                    else if n == 8192 then 13 else if n == 16384 then 14 else if n == 32768 then 15 else 16;
      assert n == TwoTo(k);
    }
    if PowerPage(n) {
      var k: nat :| 9 <= k <= 16 && n == TwoTo(k);
      assert k == 9 || k == 10 || k == 11 || k == 12 || k == 13 || k == 14 || k == 15 || k == 16;
    }
  }

  /** The test of the source, on the bits of the number. */
  lemma LegalSizesHaveOneBit(n: bv32)
    ensures LegalPageSize(n as nat) <==> 512 <= n <= 65536 && n & (n - 1) == 0
  {
  }

  /** The weighted sum of the first n words. */
  function Weighted(bigEndian: bool, w: seq<Byte>, n: nat): Word
    requires 4 * n <= |w|
  {
    WeightedSum(bigEndian, w, n, n) % 0x1_0000_0000
  }

  lemma HeaderSums(bigEndian: bool, w: seq<Byte>)
    requires |w| >= 32
    ensures Checksum(bigEndian, Sum(0, 0), w[..32][..24]) == Sum(Weighted(bigEndian, w, 5), Weighted(bigEndian, w, 6))
  {
    hide Checksum, WeightedSum;
    assert w[..32][..24] == w[..24];
    ChecksumFromNothing(bigEndian, w[..24]);
    SumOfBeginning(bigEndian, w, 24, 5, 5);
    SumOfBeginning(bigEndian, w, 24, 6, 6);
  }

  /** What a WAL file reads as, by its words: word 0 is the magic, 2 the page size, 4 and 5 the salts, 6 and 7 the checksum. */
  lemma HeaderLayout(w: seq<Byte>)
    ensures |w| < 32 ==> HeaderOf(w) == Rejected(ShortHeader)
    ensures |w| >= 32 ==>
              var magic := Word32(true, w, 0);
              var big := magic == 0x377f_0683;
              HeaderOf(w) ==
                if magic != 0x377f_0682 && magic != 0x377f_0683 then Rejected(BadMagic)
                else if !PowerPage(Word32(true, w, 2)) then Rejected(BadPageSize)
                else if Word32(true, w, 6) != Weighted(big, w, 5) || Word32(true, w, 7) != Weighted(big, w, 6)
                then Rejected(ChecksumMismatch)
                else Parsed(Header(big, Word32(true, w, 2), Word32(true, w, 4), Word32(true, w, 5),
                                   Sum(Weighted(big, w, 5), Weighted(big, w, 6))))
  {
    hide Checksum, Weighted, PowerPage, LegalPageSize, Word32, WordBE;
    if |w| >= 32 {
      HeaderWords(w);
      LegalSizesArePowers(WordBE(w[..32], 8));
      HeaderSums(Word32(true, w, 0) == 0x377f_0683, w);
    }
  }

  lemma HeaderWords(w: seq<Byte>)
    requires |w| >= 32
    ensures var b := w[..32];
            && WordBE(b, 0) == Word32(true, w, 0) && WordBE(b, 8) == Word32(true, w, 2)
            && WordBE(b, 16) == Word32(true, w, 4) && WordBE(b, 20) == Word32(true, w, 5)
            && WordBE(b, 24) == Word32(true, w, 6) && WordBE(b, 28) == Word32(true, w, 7)
  {
    hide WordBE;
    WordIsWord32(true, w[..32], 0);
    WordIsWord32(true, w[..32], 2);
    WordIsWord32(true, w[..32], 4);
    WordIsWord32(true, w[..32], 5);
    WordIsWord32(true, w[..32], 6);
    WordIsWord32(true, w[..32], 7);
  }

  /** The header that SQLite writes on a little-endian machine for pages of 4096 bytes and salts 1 and 2. */
  function SampleHeader(): seq<Byte> {
    [0x37, 0x7f, 0x06, 0x82, 0x00, 0x2d, 0xe2, 0x18, 0x00, 0x00, 0x10, 0x00, 0x00, 0x00, 0x00, 0x00,
     0x00, 0x00, 0x00, 0x01, 0x00, 0x00, 0x00, 0x02, 0xd5, 0xe7, 0x03, 0x13, 0x8f, 0xce, 0xda, 0xb8]
  }

  lemma SampleHeaderParses(rest: seq<Byte>)
    ensures HeaderOf(SampleHeader() + rest) == Parsed(Header(false, 4096, 1, 2, Sum(0xd5e7_0313, 0x8fce_dab8)))
  {
    hide WeightedSum, PowerPage, LegalPageSize, HeaderOf, Word32, SampleHeader;
    var w := SampleHeader() + rest;
    HeaderLayout(w);
    SampleIsLegal();
    SampleWords(w);
    FirstSixTerms(false, w);
  }

  lemma SampleIsLegal()
    ensures PowerPage(4096) && |SampleHeader()| == 32
  {
    LegalSizesArePowers(4096);
  }

  lemma SampleWords(w: seq<Byte>)
    requires SampleHeader() <= w && |SampleHeader()| == 32
    ensures Word32(true, w, 0) == 0x377f_0682 && Word32(true, w, 2) == 4096
    ensures Word32(true, w, 4) == 1 && Word32(true, w, 5) == 2
    ensures Word32(true, w, 6) == 0xd5e7_0313 && Word32(true, w, 7) == 0x8fce_dab8
    ensures Word32(false, w, 0) == 0x8206_7f37 && Word32(false, w, 1) == 0x18e2_2d00 && Word32(false, w, 2) == 0x10_0000
    ensures Word32(false, w, 3) == 0 && Word32(false, w, 4) == 0x100_0000 && Word32(false, w, 5) == 0x200_0000
  {
  }

  lemma FirstSixTerms(bigEndian: bool, w: seq<Byte>)
    requires |w| >= 24
    ensures WeightedSum(bigEndian, w, 5, 5) ==
            5 * Word32(bigEndian, w, 0) + 3 * Word32(bigEndian, w, 1) + 2 * Word32(bigEndian, w, 2)
            + Word32(bigEndian, w, 3) + Word32(bigEndian, w, 4)
    ensures WeightedSum(bigEndian, w, 6, 6) ==
            8 * Word32(bigEndian, w, 0) + 5 * Word32(bigEndian, w, 1) + 3 * Word32(bigEndian, w, 2)
            + 2 * Word32(bigEndian, w, 3) + Word32(bigEndian, w, 4) + Word32(bigEndian, w, 5)
  {
    hide Word32;
    assert Fib(1) == Fib(2) == 1 && Fib(3) == 2 && Fib(4) == 3 && Fib(5) == 5 && Fib(6) == 8;
    assert WeightedSum(bigEndian, w, 5, 1) == 5 * Word32(bigEndian, w, 0);
    assert WeightedSum(bigEndian, w, 6, 1) == 8 * Word32(bigEndian, w, 0);
    assert WeightedSum(bigEndian, w, 5, 2) == 5 * Word32(bigEndian, w, 0) + 3 * Word32(bigEndian, w, 1);
    assert WeightedSum(bigEndian, w, 6, 2) == 8 * Word32(bigEndian, w, 0) + 5 * Word32(bigEndian, w, 1);
    assert WeightedSum(bigEndian, w, 5, 3) == WeightedSum(bigEndian, w, 5, 2) + 2 * Word32(bigEndian, w, 2);
    assert WeightedSum(bigEndian, w, 5, 4) == WeightedSum(bigEndian, w, 5, 3) + Word32(bigEndian, w, 3);
    assert WeightedSum(bigEndian, w, 6, 3) == WeightedSum(bigEndian, w, 6, 2) + 3 * Word32(bigEndian, w, 2);
    assert WeightedSum(bigEndian, w, 6, 4) == WeightedSum(bigEndian, w, 6, 3) + 2 * Word32(bigEndian, w, 3);
    assert WeightedSum(bigEndian, w, 6, 5) == WeightedSum(bigEndian, w, 6, 4) + Word32(bigEndian, w, 4);
  }

  // --------------------------------------------------------------- the frames

  /** The 8 bytes and the page of a frame that its checksum covers. */
  function Summed(f: seq<Byte>): seq<Byte>
    requires |f| >= 24
  {
    f[..8] + f[24..]
  }

  /**
   A frame by its words: 0 is the page number, 1 the size after a commit, 2 and 3 the salts, 4 and 5 the checksum of what
   comes before it in the chain and then the frame's first 8 bytes and its page.
   */
  lemma FrameLayout(h: Header, prev: Sum, f: seq<Byte>)
    requires |f| >= 24
    ensures DecodeFrame(f).page == Word32(true, f, 0) && DecodeFrame(f).dbSize == Word32(true, f, 1)
    ensures DecodeFrame(f).data == f[24..] && (IsCommit(f) <==> Word32(true, f, 1) != 0)
    ensures FrameOk(h, prev, f) <==>
            && Word32(true, f, 2) == h.salt1 && Word32(true, f, 3) == h.salt2
            && var n, x := 2 * (|Summed(f)| / 8), Summed(f);
               var a: int, c: int := prev.s1, prev.s2;
               && Word32(true, f, 4) ==
                  (Fib(n - 1) * a + Fib(n) * c + WeightedSum(h.bigEndian, x, n - 1, n - 1)) % 0x1_0000_0000
               && Word32(true, f, 5) ==
                  (Fib(n) * a + Fib(n + 1) * c + WeightedSum(h.bigEndian, x, n, n)) % 0x1_0000_0000
  {
    hide Checksum, WeightedSum, Fib;
    FrameWords(f);
    hide Word32, WordBE;
    ChecksumConcat(h.bigEndian, prev, f[..8], f[24..]);
    ChecksumIsWeightedSum(h.bigEndian, prev, Summed(f));
  }

  lemma FrameWords(f: seq<Byte>)
    requires |f| >= 24
    ensures WordBE(f, 0) == Word32(true, f, 0) && WordBE(f, 4) == Word32(true, f, 1) && WordBE(f, 8) == Word32(true, f, 2)
    ensures WordBE(f, 12) == Word32(true, f, 3) && WordBE(f, 16) == Word32(true, f, 4) && WordBE(f, 20) == Word32(true, f, 5)
  {
    hide WordBE;
    WordIsWord32(true, f, 0);
    WordIsWord32(true, f, 1);
    WordIsWord32(true, f, 2);
    WordIsWord32(true, f, 3);
    WordIsWord32(true, f, 4);
    WordIsWord32(true, f, 5);
  }
}
