/**
 The string functions of Go's standard library that names and schedules are read with:
 strconv.ParseInt, strings.Index, strings.Split, strings.TrimSuffix, strings.Fields.
 */
module Text {
  import opened Options

  /** Values of Go's int64 lie in [-INT64_LIMIT, INT64_LIMIT). */
  const INT64_LIMIT: int := 0x8000_0000_0000_0000

  type Int63 = n: nat | n < 0x8000_0000_0000_0000

  // ---------------------------------------------------------------- numbers

  datatype Radix = Decimal | Hexadecimal

  /** The value of the numeral n followed by the digit d. */
  function Append(radix: Radix, n: nat, d: nat): nat {
    if radix.Decimal? then 10 * n + d else 16 * n + d
  }

  function DigitValue(radix: Radix, c: char): Option<nat> {
    if '0' <= c <= '9' then Some(c as int - '0' as int)
    else if radix.Decimal? then None
    else if 'a' <= c <= 'f' then Some(c as int - 'a' as int + 10)
    else if 'A' <= c <= 'F' then Some(c as int - 'A' as int + 10)
    else None
  }

  function Magnitude(radix: Radix, s: string): Option<nat> {
    if s == "" then Some(0)
    else
      var front := Magnitude(radix, s[..|s| - 1]);
      var last := DigitValue(radix, s[|s| - 1]);
      if front.Some? && last.Some? then Some(Append(radix, front.value, last.value)) else None
  }

  /** strconv.ParseInt(s, base, 64): an optional sign, at least one digit, and a value that fits. */
  function ParseInt(radix: Radix, s: string): (v: Option<int>)
    ensures v.Some? ==> -INT64_LIMIT <= v.value < INT64_LIMIT
  {
    var negative := s != "" && s[0] == '-';
    var digits := if s != "" && (s[0] == '-' || s[0] == '+') then s[1..] else s;
    var m := Magnitude(radix, digits);
    if digits == "" || m.None? then None
    else
      var magnitude: int := m.value;
      var v := if negative then -magnitude else magnitude;
      if -INT64_LIMIT <= v < INT64_LIMIT then Some(v) else None
  }

  function Digit(d: nat): char
    requires d < 16
  {
    "0123456789abcdef"[d]
  }

  /** The number printed in base 10. */
  function Dec(n: nat): string {
    (if n < 10 then "" else Dec(n / 10)) + [Digit(n % 10)]
  }

  lemma {:induction false} DecShape(n: nat)
    ensures Dec(n) != "" && forall c | c in Dec(n) :: '0' <= c <= '9'
  {
    if n >= 10 { DecShape(n / 10); }
    assert Digit(n % 10) in "0123456789";
  }

  /** A numeral with one digit more. */
  lemma MagnitudeAppend(radix: Radix, s: string, c: char)
    requires Magnitude(radix, s).Some? && DigitValue(radix, c).Some?
    ensures Magnitude(radix, s + [c]) == Some(Append(radix, Magnitude(radix, s).value, DigitValue(radix, c).value))
  {
    hide DigitValue, Append;
    assert (s + [c])[..|s|] == s;
  }

  lemma DigitReadsBack(d: nat)
    requires d < 16
    ensures DigitValue(Hexadecimal, Digit(d)) == Some(d)
    ensures d < 10 ==> DigitValue(Decimal, Digit(d)) == Some(d)
  {
  }

  lemma TenthAndRest(n: nat)
    ensures Append(Decimal, n / 10, n % 10) == n && n % 10 < 10 && (n < 10 ==> n / 10 == 0)
  {
  }

  lemma {:induction false} DecMagnitude(n: nat)
    ensures Magnitude(Decimal, Dec(n)) == Some(n)
  {
    hide Magnitude, DigitValue, Append, Digit;
    TenthAndRest(n);
    DigitReadsBack(n % 10);
    if n >= 10 {
      DecMagnitude(n / 10);
      MagnitudeAppend(Decimal, Dec(n / 10), Digit(n % 10));
    } else {
      EmptyMagnitude();
      MagnitudeAppend(Decimal, "", Digit(n % 10));
    }
  }

  lemma EmptyMagnitude()
    ensures Magnitude(Decimal, "") == Magnitude(Hexadecimal, "") == Some(0)
  {
  }

  /** Printing a number in base 10 and parsing it gives it back. */
  lemma ParseIntReadsDec(n: Int63)
    ensures ParseInt(Decimal, Dec(n)) == Some(n as int)
  {
    hide Dec, Magnitude;
    DecShape(n);
    DecMagnitude(n);
    assert Dec(n)[0] in Dec(n);
  }

  /** A sign in front is read, and nothing but a sign, or a number that does not fit, is refused. */
  lemma ParseIntReadsSigns(n: nat)
    ensures ParseInt(Decimal, "+" + Dec(n)) == if n < INT64_LIMIT then Some(n as int) else None
    ensures ParseInt(Decimal, Dec(n)) == if n < INT64_LIMIT then Some(n as int) else None
    ensures ParseInt(Decimal, "-" + Dec(n)) == if n <= INT64_LIMIT then Some(-(n as int)) else None
    ensures ParseInt(Decimal, "") == ParseInt(Decimal, "+") == ParseInt(Decimal, "-") == None
  {
    hide Dec, Magnitude;
    DecShape(n);
    DecMagnitude(n);
    assert Dec(n)[0] in Dec(n);
    assert ("+" + Dec(n))[1..] == Dec(n) && ("-" + Dec(n))[1..] == Dec(n);
  }

  lemma {:induction false} DigitsOnly(s: string, c: char)
    requires c in s && !('0' <= c <= '9')
    ensures Magnitude(Decimal, s).None?
  {
    var n := |s| - 1;
    if s[n] != c {
      assert s == s[..n] + [s[n]];
      DigitsOnly(s[..n], c);
    }
  }

  /** Any other character makes it no number. */
  lemma ParseIntRefuses(s: string, c: char)
    requires c in s && !('0' <= c <= '9') && c != '+' && c != '-'
    ensures ParseInt(Decimal, s).None?
  {
    hide Magnitude;
    DigitsOnly(s, c);
    if s[0] == '-' || s[0] == '+' {
      assert s == [s[0]] + s[1..];
      DigitsOnly(s[1..], c);
    }
  }

  // -------------------------------------------------------------- searching

  function IndexOf(s: string, c: char): (i: nat)
    ensures i <= |s| && c !in s[..i] && (i < |s| ==> s[i] == c)
  {
    if s == "" || s[0] == c then 0
    else
      var i := IndexOf(s[1..], c);
      assert s[..i + 1] == [s[0]] + s[1..][..i];
      i + 1
  }

  /** strings.Split with a one-character separator. */
  function Split(s: string, c: char): (parts: seq<string>)
    ensures parts != [] && forall p | p in parts :: c !in p
    decreases |s|
  {
    var i := IndexOf(s, c);
    if i == |s| then [s] else [s[..i]] + Split(s[i + 1..], c)
  }

  function TrimSuffix(s: string, suffix: string): string {
    if |s| >= |suffix| && s[|s| - |suffix|..] == suffix then s[..|s| - |suffix|] else s
  }

  lemma {:induction false} FirstSeparator(a: string, c: char, b: string)
    requires c !in a
    ensures IndexOf(a + [c] + b, c) == |a| && IndexOf(a, c) == |a|
  {
    if a == "" {
      assert (a + [c] + b)[0] == c;
    } else {
      assert (a + [c] + b)[1..] == a[1..] + [c] + b;
      FirstSeparator(a[1..], c, b);
    }
  }

  lemma SplitAtSeparator(a: string, c: char, b: string)
    requires c !in a
    ensures Split(a + [c] + b, c) == [a] + Split(b, c) && Split(a, c) == [a]
  {
    var s := a + [c] + b;
    FirstSeparator(a, c, b);
    assert s[..|a|] == a && s[|a| + 1..] == b;
  }

  /** strings.Join with a one-character separator. */
  function Join(parts: seq<string>, c: char): string
    requires parts != []
  {
    if |parts| == 1 then parts[0] else parts[0] + [c] + Join(parts[1..], c)
  }

  /** Splitting undoes joining. */
  lemma {:induction false} SplitUndoesJoin(parts: seq<string>, c: char)
    requires parts != [] && forall p | p in parts :: c !in p
    ensures Split(Join(parts, c), c) == parts
  {
    hide Split, IndexOf;
    assert parts[0] in parts;
    if |parts| == 1 {
      SplitAtSeparator(parts[0], c, "");
      assert parts == [parts[0]];
    } else {
      var rest := parts[1..];
      assert forall p | p in rest :: p in parts;
      SplitUndoesJoin(rest, c);
      SplitAtSeparator(parts[0], c, Join(rest, c));
      assert parts == [parts[0]] + rest;
    }
  }

  // ------------------------------------------------------------------ fields

  /** Unicode white space. */
  predicate IsSpace(c: char) {
    || '\t' <= c <= '\r' || c == ' ' || c == '\U{85}' || c == '\U{A0}' || c == '\U{1680}'
    || c == '\U{2028}' || c == '\U{2029}' || c == '\U{202F}' || c == '\U{205F}' || c == '\U{3000}'
    || '\U{2000}' <= c <= '\U{200A}'
  }

  function WordLength(s: string): (n: nat)
    ensures n <= |s| && (forall c | c in s[..n] :: !IsSpace(c)) && (n < |s| ==> IsSpace(s[n]))
  {
    if s == "" || IsSpace(s[0]) then 0
    else
      var n := WordLength(s[1..]);
      assert s[..n + 1] == [s[0]] + s[1..][..n];
      n + 1
  }

  predicate IsWord(w: string) {
    w != "" && forall c | c in w :: !IsSpace(c)
  }

  /** strings.Fields: the maximal runs of characters that are not white space. */
  function Fields(s: string): (words: seq<string>)
    ensures forall w | w in words :: IsWord(w)
    decreases |s|
  {
    var n := WordLength(s);
    if s == "" then []
    else if n == 0 then Fields(s[1..])
    else [s[..n]] + Fields(s[n..])
  }

  lemma {:induction false} FirstWord(w: string, rest: string)
    requires (forall c | c in w :: !IsSpace(c)) && (rest == "" || IsSpace(rest[0]))
    ensures WordLength(w + rest) == |w|
  {
    if w == "" {
      assert w + rest == rest;
    } else {
      assert (w + rest)[1..] == w[1..] + rest;
      FirstWord(w[1..], rest);
    }
  }

  /** Words joined by single spaces are read back. */
  lemma {:induction false} FieldsUndoJoin(words: seq<string>)
    requires words != [] && forall w | w in words :: IsWord(w)
    ensures Fields(Join(words, ' ')) == words
  {
    var w, s := words[0], Join(words, ' ');
    var rest := if |words| == 1 then "" else " " + Join(words[1..], ' ');
    assert s == w + rest && w in words;
    assert rest != "" ==> rest[0] == ' ';
    FirstWord(w, rest);
    assert s[..|w|] == w && s[|w|..] == rest;
    if |words| == 1 {
      assert words == [w];
    } else {
      FieldsUndoJoin(words[1..]);
      assert rest[1..] == Join(words[1..], ' ');
      assert WordLength(rest) == 0;
      assert Fields(rest) == words[1..];
    }
  }
}
