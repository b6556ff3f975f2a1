/**
 Object names: segmentKey and parseSegmentKey, generation ids and ParseGenerationID (backup.go). Numbers are printed
 as 16 hexadecimal digits, so that names read back exactly and sort like the numbers in them.
 */
module Names {
  import opened Segments
  import opened Options
  import opened Text

  // --------------------------------------------------------------- printing

  /** The low `width` hexadecimal digits of a number. */
  function Hex(n: nat, width: nat): string
    decreases width
  {
    if width == 0 then "" else Hex(n / 16, width - 1) + [Digit(n % 16)]
  }

  function Pow16(width: nat): (p: nat)
    ensures p > 0
  {
    if width == 0 then 1 else 16 * Pow16(width - 1)
  }

  const SUFFIX: string := ".seg.gz"

  function SegmentName(index: Int63, offset: Int63, createdAt: Int63): string {
    Hex(index, 16) + "-" + Hex(offset, 16) + "-" + Hex(createdAt, 16) + SUFFIX
  }

  /** `random` stands for the four random bytes of the id. */
  function GenerationName(createdAt: Int63, random: nat): string {
    Hex(createdAt, 16) + "-" + Hex(random, 8)
  }

  // ---------------------------------------------------------------- parsing

  datatype ParsedKey = BadName | Key(index: int, offset: int, createdAt: int)

  function ParseSegmentKey(name: string): ParsedKey {
    var parts := Split(TrimSuffix(name, SUFFIX), '-');
    if |parts| != 3 then BadName
    else
      var index, offset, createdAt := ParseInt(Hexadecimal, parts[0]), ParseInt(Hexadecimal, parts[1]), ParseInt(Hexadecimal, parts[2]);
      if index.None? || offset.None? || createdAt.None? then BadName
      else Key(index.value, offset.value, createdAt.value)
  }

  /** The creation time in a generation id, or None for a foreign name. */
  function ParseGenerationID(id: string): Option<int> {
    var i := IndexOf(id, '-');
    if i == |id| then None else ParseInt(Hexadecimal, id[..i])
  }

  // ------------------------------------------------------------- round trip

  lemma {:induction false} HexShape(n: nat, width: nat)
    ensures |Hex(n, width)| == width
    ensures forall c | c in Hex(n, width) :: c != '-' && c != '+' && c != '.'
    decreases width
  {
    if width > 0 {
      HexShape(n / 16, width - 1);
      assert Digit(n % 16) in "0123456789abcdef";
    }
  }

  lemma SixteenthAndRest(n: nat, width: nat)
    requires width > 0 && n < Pow16(width)
    ensures Append(Hexadecimal, n / 16, n % 16) == n && n % 16 < 16 && n / 16 < Pow16(width - 1)
  {
  }

  lemma {:induction false} HexReadsBack(n: nat, width: nat)
    requires n < Pow16(width)
    ensures Magnitude(Hexadecimal, Hex(n, width)) == Some(n)
    decreases width
  {
    hide Magnitude, DigitValue, Append, Digit;
    if width == 0 {
      EmptyMagnitude();
    } else {
      SixteenthAndRest(n, width);
      DigitReadsBack(n % 16);
      HexReadsBack(n / 16, width - 1);
      MagnitudeAppend(Hexadecimal, Hex(n / 16, width - 1), Digit(n % 16));
    }
  }

  lemma Pow16Is64Bit()
    ensures INT64_LIMIT < Pow16(16)
  {
    assert Pow16(4) == 0x1_0000;
    assert Pow16(8) == 0x1_0000_0000;
    assert Pow16(12) == 0x1_0000_0000_0000;
    assert Pow16(16) == 0x1_0000_0000_0000_0000;
  }

  lemma ParseIntReadsHex(n: Int63)
    ensures ParseInt(Hexadecimal, Hex(n, 16)) == Some(n as int)
  {
    Pow16Is64Bit();
    HexShape(n, 16);
    HexReadsBack(n, 16);
    assert Hex(n, 16)[0] in Hex(n, 16);
  }

  lemma TrimAddedSuffix(s: string, suffix: string)
    ensures TrimSuffix(s + suffix, suffix) == s
  {
    assert (s + suffix)[|s|..] == suffix && (s + suffix)[..|s|] == s;
  }

  /** Parsing a printed segment name gives back index, offset and time. */
  lemma SegmentNameReadsBack(index: Int63, offset: Int63, createdAt: Int63)
    ensures ParseSegmentKey(SegmentName(index, offset, createdAt)) == Key(index, offset, createdAt)
  {
    hide Hex, ParseInt, Split, TrimSuffix;
    var x, y, z := Hex(index, 16), Hex(offset, 16), Hex(createdAt, 16);
    HexShape(index, 16);
    HexShape(offset, 16);
    HexShape(createdAt, 16);
    ParseIntReadsHex(index);
    ParseIntReadsHex(offset);
    ParseIntReadsHex(createdAt);
    var base := x + ['-'] + (y + ['-'] + z);
    assert SegmentName(index, offset, createdAt) == base + SUFFIX;
    TrimAddedSuffix(base, SUFFIX);
    SplitAtSeparator(x, '-', y + ['-'] + z);
    SplitAtSeparator(y, '-', z);
    SplitAtSeparator(z, '-', "");
  }

  /** The creation time embedded in a generation id is recovered. */
  lemma GenerationNameReadsBack(createdAt: Int63, random: nat)
    ensures ParseGenerationID(GenerationName(createdAt, random)) == Some(createdAt as int)
  {
    hide Hex, ParseInt;
    HexShape(createdAt, 16);
    ParseIntReadsHex(createdAt);
    FirstSeparator(Hex(createdAt, 16), '-', Hex(random, 8));
    assert GenerationName(createdAt, random) == Hex(createdAt, 16) + ['-'] + Hex(random, 8);
    assert GenerationName(createdAt, random)[..16] == Hex(createdAt, 16);
  }

  // ------------------------------------------------------------------ order

  /** Byte order of strings. */
  predicate Less(a: string, b: string) {
    b != "" && (a == "" || a[0] < b[0] || (a[0] == b[0] && Less(a[1..], b[1..])))
  }

  lemma {:induction false} LessConcat(a: string, x: string, b: string, y: string)
    requires |a| == |b|
    ensures Less(a + x, b + y) <==> Less(a, b) || (a == b && Less(x, y))
  {
    if a == "" {
      assert a + x == x && b + y == y;
    } else {
      assert (a + x)[1..] == a[1..] + x && (b + y)[1..] == b[1..] + y;
      LessConcat(a[1..], x, b[1..], y);
      assert a == [a[0]] + a[1..] && b == [b[0]] + b[1..];
    }
  }

  lemma DigitsAscend(d: nat, e: nat)
    requires d < 16 && e < 16
    ensures Digit(d) < Digit(e) <==> d < e
    ensures Less([Digit(d)], [Digit(e)]) <==> d < e
  {
    assert [Digit(d)][1..] == "" && [Digit(e)][1..] == "";
  }

  lemma {:induction false} HexOrder(m: nat, n: nat, width: nat)
    requires m < Pow16(width) && n < Pow16(width)
    ensures Less(Hex(m, width), Hex(n, width)) <==> m < n
    ensures Hex(m, width) == Hex(n, width) <==> m == n
    decreases width
  {
    if width > 0 {
      HexOrder(m / 16, n / 16, width - 1);
      HexShape(m / 16, width - 1);
      HexShape(n / 16, width - 1);
      LessConcat(Hex(m / 16, width - 1), [Digit(m % 16)], Hex(n / 16, width - 1), [Digit(n % 16)]);
      DigitsAscend(m % 16, n % 16);
      DigitsAscend(n % 16, m % 16);
      HexReadsBack(m, width);
      HexReadsBack(n, width);
    }
  }

  lemma HexThen(m: Int63, n: Int63, x: string, y: string)
    ensures Less(Hex(m, 16) + x, Hex(n, 16) + y) <==> m < n || (m == n && Less(x, y))
  {
    Pow16Is64Bit();
    HexOrder(m, n, 16);
    HexShape(m, 16);
    HexShape(n, 16);
    LessConcat(Hex(m, 16), x, Hex(n, 16), y);
  }

  /** Byte order of segment names is the order on (index, offset, time). */
  lemma SegmentNamesSort(i: Int63, o: Int63, t: Int63, j: Int63, p: Int63, u: Int63)
    ensures Less(SegmentName(i, o, t), SegmentName(j, p, u)) <==>
            i < j || (i == j && (o < p || (o == p && t < u)))
  {
    hide Hex, Less;
    var xt, xu := "-" + (Hex(t, 16) + SUFFIX), "-" + (Hex(u, 16) + SUFFIX);
    var xo, xp := "-" + (Hex(o, 16) + xt), "-" + (Hex(p, 16) + xu);
    assert SegmentName(i, o, t) == Hex(i, 16) + xo && SegmentName(j, p, u) == Hex(j, 16) + xp;
    HexThen(i, j, xo, xp);
    LessConcat("-", Hex(o, 16) + xt, "-", Hex(p, 16) + xu);
    HexThen(o, p, xt, xu);
    LessConcat("-", Hex(t, 16) + SUFFIX, "-", Hex(u, 16) + SUFFIX);
    HexThen(t, u, SUFFIX, SUFFIX);
    LessIrreflexive(SUFFIX);
    LessIrreflexive("-");
  }

  lemma {:induction false} LessIrreflexive(a: string)
    ensures !Less(a, a)
  {
    if a != "" { LessIrreflexive(a[1..]); }
  }

  /** Generations sort chronologically by id. */
  lemma GenerationNamesSort(t: Int63, r: nat, u: Int63, q: nat)
    ensures t < u ==> Less(GenerationName(t, r), GenerationName(u, q))
  {
    hide Hex, Less;
    HexThen(t, u, "-" + Hex(r, 8), "-" + Hex(q, 8));
    assert GenerationName(t, r) == Hex(t, 16) + ("-" + Hex(r, 8));
    assert GenerationName(u, q) == Hex(u, 16) + ("-" + Hex(q, 8));
  }

  /** The listing order of Restore is byte order of the names, for distinct positions. */
  lemma NamesFollowListing(a: SegKey, b: SegKey)
    requires a.index < INT64_LIMIT && a.offset < INT64_LIMIT && 0 <= a.createdAt < INT64_LIMIT
    requires b.index < INT64_LIMIT && b.offset < INT64_LIMIT && 0 <= b.createdAt < INT64_LIMIT
    ensures Before(a, b) ==> Less(SegmentName(a.index, a.offset, a.createdAt), SegmentName(b.index, b.offset, b.createdAt))
  {
    SegmentNamesSort(a.index, a.offset, a.createdAt, b.index, b.offset, b.createdAt);
  }

  /** The names of a segment shipped from byte 4152 of index 1, and of a generation, at 1 700 000 000 seconds of Unix time. */
  lemma SampleNames()
    ensures SegmentName(1, 4152, 1_700_000_000_000_000_000) ==
            "0000000000000001" + "-" + "0000000000001038" + "-" + "17979cfe362a0000" + ".seg.gz"
    ensures GenerationName(1_700_000_000_000_000_000, 0xdead_beef) == "17979cfe362a0000" + "-" + "deadbeef"
  {
    hide Hex;
    SmallNumbers();
    SampleTime();
  }

  lemma SmallNumbers()
    ensures Hex(1, 16) == "0000000000000001" && Hex(4152, 16) == "0000000000001038" && Hex(0xdead_beef, 8) == "deadbeef"
  {
    hide Hex, Digit;
    SampleDigits();
    NoDigits();
    FourDigits(0, 0, 4);
    FourDigits(0, 0, 8);
    FourDigits(0, 0, 12);
    assert Hex(0, 12) == "000000000000";
    FourDigits(0, 1, 16);
    FourDigits(0, 4152, 16);
    FourDigits(0, 0xdead, 4);
    FourDigits(0xdead, 0xbeef, 8);
  }

  lemma SampleTime()
    ensures Hex(1_700_000_000_000_000_000, 16) == "17979cfe362a0000"
  {
    hide Hex, Digit;
    SampleDigits();
    NoDigits();
    FourDigits(0, 0x1797, 4);
    FourDigits(0x1797, 0x9cfe, 8);
    FourDigits(0x1797_9cfe, 0x362a, 12);
    assert Hex(0x1797_9cfe_362a, 12) == "17979cfe362a";
    FourDigits(0x1797_9cfe_362a, 0, 16);
  }

  lemma NoDigits()
    ensures Hex(0, 0) == ""
  {
  }

  /** The last four digits. */
  lemma FourDigits(high: nat, low: nat, width: nat)
    requires low < 0x1_0000 && width >= 4
    ensures Hex(0x1_0000 * high + low, width) ==
            Hex(high, width - 4) + [Digit(low / 0x1000), Digit(low / 0x100 % 16), Digit(low / 16 % 16), Digit(low % 16)]
  {
    var n := 0x1_0000 * high + low;
    assert n / 16 == 0x1000 * high + low / 16 && n % 16 == low % 16;
    assert n / 16 / 16 == 0x100 * high + low / 0x100 && n / 16 % 16 == low / 16 % 16;
    assert n / 16 / 16 / 16 == 16 * high + low / 0x1000 && n / 16 / 16 % 16 == low / 0x100 % 16;
    assert n / 16 / 16 / 16 / 16 == high && n / 16 / 16 / 16 % 16 == low / 0x1000;
    assert Hex(n / 16 / 16, width - 2) == Hex(high, width - 4) + [Digit(low / 0x1000)] + [Digit(low / 0x100 % 16)];
  }

  lemma SampleDigits()
    ensures Digit(0) == '0' && Digit(1) == '1' && Digit(2) == '2' && Digit(3) == '3' && Digit(6) == '6' && Digit(7) == '7'
    ensures Digit(8) == '8' && Digit(9) == '9' && Digit(10) == 'a' && Digit(11) == 'b' && Digit(12) == 'c'
    ensures Digit(13) == 'd' && Digit(14) == 'e' && Digit(15) == 'f'
  {
  }
}
