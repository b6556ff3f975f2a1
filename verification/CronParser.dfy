/**
 Parsing of five-field cron expressions (parseCron, parseField, parseRange in jobs/cron.go). A field's 64-bit mask is
 the set of its one bits.
 */
module CronParser {
  import opened Options
  import opened Text

  type Mask = set<int>

  // ------------------------------------------------------- what a part says

  datatype Base = Star | Value(v: int) | Range(a: int, b: int)

  /** One comma-separated part of a field; a step of 1 is written by leaving it out. */
  datatype Part = Part(base: Base, step: int)

  function ReadBase(text: string): Option<Base> {
    if text == "*" then Some(Star)
    else if '-' in text then
      var i := IndexOf(text, '-');
      var a, b := ParseInt(Decimal, text[..i]), ParseInt(Decimal, text[i + 1..]);
      if a.Some? && b.Some? then Some(Range(a.value, b.value)) else None
    else
      var v := ParseInt(Decimal, text);
      if v.Some? then Some(Value(v.value)) else None
  }

  function ReadPart(text: string): (p: Option<Part>)
    ensures p.Some? ==> 1 <= p.value.step < INT64_LIMIT
  {
    if '/' in text then
      var i := IndexOf(text, '/');
      var step, base := ParseInt(Decimal, text[i + 1..]), ReadBase(text[..i]);
      if step.Some? && step.value >= 1 && base.Some? then Some(Part(base.value, step.value)) else None
    else
      var base := ReadBase(text);
      if base.Some? then Some(Part(base.value, 1)) else None
  }

  predicate InBounds(p: Part, lo: int, hi: int) {
    match p.base
    case Star => true
    case Value(v) => lo <= v <= hi
    case Range(a, b) => lo <= a <= b <= hi
  }

  function First(p: Part, lo: int): int {
    match p.base
    case Star => lo
    case Value(v) => v
    case Range(a, _) => a
  }

  /** A single value with a step runs to the end of the field. */
  function Last(p: Part, hi: int): int {
    match p.base
    case Star => hi
    case Value(v) => if p.step > 1 then hi else v
    case Range(_, b) => b
  }

  predicate Hits(first: int, step: int, j: int)
    requires step >= 1
  {
    (j - first) % step == 0
  }

  /** Every step-th value from first to last. */
  function Progression(first: int, last: int, step: int): set<int>
    requires step >= 1
  {
    set j | first <= j <= last && Hits(first, step, j)
  }

  /** The values a part stands for. */
  function Denotation(p: Part, lo: int, hi: int): set<int> {
    if p.step < 1 then {} else Progression(First(p, lo), Last(p, hi), p.step)
  }

  // --------------------------------------------------- the bits the loop sets

  /** Addition of Go's int. */
  function Add64(i: int, step: int): int {
    if i + step < INT64_LIMIT then i + step else i + step - 2 * INT64_LIMIT
  }

  /** `1 << uint(i)` of a 64-bit word: no bit at all when i is negative or large. */
  function Bit(i: int): Mask {
    if 0 <= i < 64 then {i} else {}
  }

  /**
   What shrinks from one iteration to the next. A step that overflows makes the counter negative, and the step after
   that can bring it back below where it was.
   */
  function Rank(i: int, hi: int, step: int): int {
    if i > hi then 0
    else if step < INT64_LIMIT / 2 then hi - i + 1
    else if i >= 0 then 2 * i + 3
    else if i + step > hi then 1
    else if i + step < 0 then 2
    else 2 * (i + step) + 4
  }

  /** Where the counter can be, starting from a bit of the field. */
  predicate Reached(i: int, hi: int, step: int) {
    && -INT64_LIMIT <= i < INT64_LIMIT && 0 <= hi < 64 && 1 <= step < INT64_LIMIT
    && (i >= 0 || i + 2 * step > hi)
  }

  /** The bits set by counting from i to hi in the given steps, in 64-bit arithmetic. */
  function StepMask(i: int, hi: int, step: int): Mask
    requires Reached(i, hi, step)
    decreases Rank(i, hi, step)
  {
    if i > hi then {} else Bit(i) + StepMask(Add64(i, step), hi, step)
  }

  function PartMask(text: string, lo: int, hi: int): Option<Mask>
    requires 0 <= lo <= hi < 64
  {
    var p := ReadPart(text);
    if p.None? || !InBounds(p.value, lo, hi) then None
    else Some(StepMask(First(p.value, lo), Last(p.value, hi), p.value.step))
  }

  // ------------------------------------------------- when mask and meaning agree

  lemma QuotientIsUnique(x: int, d: int, q: int, r: int)
    requires d >= 1 && x == d * q + r && 0 <= r < d
    ensures x % d == r
  {
    var e := x / d - q;
    assert d * e == r - x % d;
    assert e >= 1 ==> d * e >= d;
    assert e <= -1 ==> d * e <= -d;
  }

  lemma HitsLater(first: int, step: int, j: int)
    requires step >= 1
    ensures Hits(first + step, step, j) <==> Hits(first, step, j)
    ensures Hits(first, step, first)
    ensures first < j < first + step ==> !Hits(first, step, j)
  {
    var x := j - first;
    QuotientIsUnique(x - step, step, x / step - 1, x % step);
    QuotientIsUnique(0, step, 0, 0);
    if 0 < x < step { QuotientIsUnique(x, step, 0, x); }
  }

  lemma ProgressionUnfolds(first: int, last: int, step: int)
    requires step >= 1 && first <= last
    ensures Progression(first, last, step) == {first} + Progression(first + step, last, step)
  {
    forall j { HitsLater(first, step, j); }
  }

  lemma {:induction false} StepMaskIsProgression(i: int, hi: int, step: int)
    requires Reached(i, hi, step) && i >= 0 && i + 2 * step < 2 * INT64_LIMIT
    ensures StepMask(i, hi, step) == Progression(i, hi, step)
    decreases Rank(i, hi, step)
  {
    if i <= hi {
      ProgressionUnfolds(i, hi, step);
      var next := Add64(i, step);
      if next >= 0 {
        if next <= hi { StepMaskIsProgression(next, hi, step); }
      } else {
        var back := Add64(next, step);
        assert StepMask(next, hi, step) == StepMask(back, hi, step) == {};
      }
    }
  }

  /** A step so large that the counter overflows twice comes back below the first bit, and sets a bit there. */
  lemma WrappedStepSetsALowerBit(i: int, hi: int, step: int)
    requires Reached(i, hi, step) && 0 <= i <= hi && i + 2 * step >= 2 * INT64_LIMIT
    ensures 0 <= i + 2 * step - 2 * INT64_LIMIT < i
    ensures i + 2 * step - 2 * INT64_LIMIT in StepMask(i, hi, step)
  {
    var back := i + 2 * step - 2 * INT64_LIMIT;
    assert Add64(Add64(i, step), step) == back;
    assert back in StepMask(back, hi, step);
    assert StepMask(Add64(i, step), hi, step) >= StepMask(back, hi, step);
  }

  lemma {:induction false} StepMaskShape(i: int, hi: int, step: int, b: int)
    requires Reached(i, hi, step)
    ensures b in StepMask(i, hi, step) ==> 0 <= b <= hi
    ensures 0 <= i <= hi ==> i in StepMask(i, hi, step)
    decreases Rank(i, hi, step)
  {
    if i <= hi { StepMaskShape(Add64(i, step), hi, step, b); }
  }

  predicate Steady(p: Part, lo: int) {
    First(p, lo) + 2 * p.step < 2 * INT64_LIMIT
  }

  /** The mask of a part is what the part says exactly when its step does not carry the counter round to a bit again. */
  lemma MaskIsDenotation(text: string, lo: int, hi: int)
    requires 0 <= lo <= hi < 64 && PartMask(text, lo, hi).Some?
    ensures var p := ReadPart(text).value;
            PartMask(text, lo, hi).value == Denotation(p, lo, hi) <==> Steady(p, lo)
  {
    var p := ReadPart(text).value;
    var first, last := First(p, lo), Last(p, hi);
    if Steady(p, lo) {
      StepMaskIsProgression(first, last, p.step);
    } else {
      WrappedStepSetsALowerBit(first, last, p.step);
    }
  }

  /** Whatever the step, the mask holds the first value and nothing above the last. */
  lemma PartMaskShape(text: string, lo: int, hi: int, b: int)
    requires 0 <= lo <= hi < 64 && PartMask(text, lo, hi).Some?
    ensures var p, mask := ReadPart(text).value, PartMask(text, lo, hi).value;
            && lo <= First(p, lo) <= hi && First(p, lo) in mask
            && (b in mask ==> 0 <= b <= hi)
            && (b in mask && Steady(p, lo) ==> lo <= b)
  {
    var p := ReadPart(text).value;
    StepMaskShape(First(p, lo), Last(p, hi), p.step, b);
    MaskIsDenotation(text, lo, hi);
  }

  ghost predicate StepsFrom(first: int, step: int, j: int) {
    exists n: nat :: j == first + Times(n, step)
  }

  function Times(n: nat, step: int): int {
    n * step
  }

  /** The documented meaning of the forms: any value, a literal, a range, each counted in steps where one is given. */
  lemma DenotationOfForms(p: Part, lo: int, hi: int, j: int)
    requires p.step >= 1
    ensures j in Denotation(p, lo, hi) <==>
            match p.base
            case Star => lo <= j <= hi && StepsFrom(lo, p.step, j)
            case Range(a, b) => a <= j <= b && StepsFrom(a, p.step, j)
            case Value(v) => if p.step == 1 then j == v else v <= j <= hi && StepsFrom(v, p.step, j)
  {
    HitsAreSteps(First(p, lo), p.step, j);
  }

  lemma HitsAreSteps(first: int, step: int, j: int)
    requires step >= 1
    ensures first <= j ==> (Hits(first, step, j) <==> StepsFrom(first, step, j))
  {
    if first <= j {
      if Hits(first, step, j) {
        var n := (j - first) / step;
        assert j == first + Times(n, step);
      }
      if StepsFrom(first, step, j) {
        var n: nat :| j == first + Times(n, step);
        QuotientIsUnique(j - first, step, n, 0);
      }
    }
  }

  // ------------------------------------------------------------------ fields

  /** The bits of the first n parts. */
  function Union(parts: seq<string>, n: nat, lo: int, hi: int): Mask
    requires 0 <= lo <= hi < 64 && n <= |parts|
    requires forall k | 0 <= k < n :: PartMask(parts[k], lo, hi).Some?
  {
    set k, b | 0 <= k < n && b in PartMask(parts[k], lo, hi).value :: b
  }

  lemma UnionGrows(parts: seq<string>, n: nat, lo: int, hi: int)
    requires 0 <= lo <= hi < 64 && n < |parts|
    requires forall k | 0 <= k <= n :: PartMask(parts[k], lo, hi).Some?
    ensures Union(parts, n + 1, lo, hi) == Union(parts, n, lo, hi) + PartMask(parts[n], lo, hi).value
  {
    hide PartMask;
    var all, before, last := Union(parts, n + 1, lo, hi), Union(parts, n, lo, hi), PartMask(parts[n], lo, hi).value;
    forall b ensures b in all <==> b in before || b in last {
      if b in all {
        var k :| 0 <= k < n + 1 && b in PartMask(parts[k], lo, hi).value;
        assert k < n || k == n;
      }
    }
  }

  /** The parts of a field that do not parse or are out of bounds make the whole field an error. */
  function FieldMask(field: string, lo: int, hi: int): Option<Mask>
    requires 0 <= lo <= hi < 64
  {
    var parts := Split(field, ',');
    if exists k | 0 <= k < |parts| :: PartMask(parts[k], lo, hi).None? then None
    else Some(Union(parts, |parts|, lo, hi))
  }

  /** Accepted fields permit at least one value, and no value above the field's range. */
  lemma FieldMaskShape(field: string, lo: int, hi: int)
    requires 0 <= lo <= hi < 64 && FieldMask(field, lo, hi).Some?
    ensures exists b :: b in FieldMask(field, lo, hi).value && lo <= b <= hi
    ensures forall b | b in FieldMask(field, lo, hi).value :: 0 <= b <= hi
    ensures (forall t | t in Split(field, ',') :: ReadPart(t).Some? && Steady(ReadPart(t).value, lo)) ==>
              forall b | b in FieldMask(field, lo, hi).value :: lo <= b
  {
    hide Steady, InBounds, StepMask;
    var parts, mask := Split(field, ','), FieldMask(field, lo, hi).value;
    PartMaskShape(parts[0], lo, hi, 0);
    var p := ReadPart(parts[0]).value;
    assert First(p, lo) in mask;
    forall b | b in mask
      ensures 0 <= b <= hi && ((forall t | t in parts :: ReadPart(t).Some? && Steady(ReadPart(t).value, lo)) ==> lo <= b)
    {
      var k :| 0 <= k < |parts| && b in PartMask(parts[k], lo, hi).value;
      PartMaskShape(parts[k], lo, hi, b);
      assert parts[k] in parts;
    }
  }

  datatype Schedule = Schedule(minute: Mask, hour: Mask, dom: Mask, month: Mask, dow: Mask,
                               domStarred: bool, dowStarred: bool)

  function Lo(field: nat): int
    requires field < 5
  {
    [0, 0, 1, 1, 0][field]
  }

  function Hi(field: nat): int
    requires field < 5
  {
    [59, 23, 31, 12, 6][field]
  }

  /** The k-th field of an expression. */
  function Nth(expr: string, k: nat): Option<Mask>
    requires k < 5 && |Fields(expr)| == 5
  {
    FieldMask(Fields(expr)[k], Lo(k), Hi(k))
  }

  function ScheduleOf(expr: string): Option<Schedule> {
    var f := Fields(expr);
    if |f| != 5 || exists k | 0 <= k < 5 :: Nth(expr, k).None? then None
    else
      Some(Schedule(Nth(expr, 0).value, Nth(expr, 1).value, Nth(expr, 2).value, Nth(expr, 3).value, Nth(expr, 4).value,
                    f[2] == "*", f[4] == "*"))
  }

  /** Each field permits at least one value of its own range. */
  ghost predicate Permits(s: Schedule) {
    && (exists b :: b in s.minute && 0 <= b <= 59)
    && (exists b :: b in s.hour && 0 <= b <= 23)
    && (exists b :: b in s.dom && 1 <= b <= 31)
    && (exists b :: b in s.month && 1 <= b <= 12)
    && (exists b :: b in s.dow && 0 <= b <= 6)
  }

  lemma ParsedSchedulesPermit(expr: string)
    requires ScheduleOf(expr).Some?
    ensures Permits(ScheduleOf(expr).value)
  {
    hide FieldMask;
    forall k: nat | k < 5 ensures exists b :: b in Nth(expr, k).value && Lo(k) <= b <= Hi(k) {
      FieldMaskShape(Fields(expr)[k], Lo(k), Hi(k));
    }
    var s := ScheduleOf(expr).value;
    assert s.minute == Nth(expr, 0).value && s.hour == Nth(expr, 1).value && s.dom == Nth(expr, 2).value;
    assert s.month == Nth(expr, 3).value && s.dow == Nth(expr, 4).value;
  }

  // ----------------------------------------------------------------- methods

  /** The loop at the end of parseRange. */
  method SetBits(rangeLo: int, rangeHi: int, step: int) returns (bits: Mask)
    requires 0 <= rangeLo && 0 <= rangeHi < 64 && 1 <= step < INT64_LIMIT && rangeLo < 64
    ensures bits == StepMask(rangeLo, rangeHi, step)
  {
    var i := rangeLo;
    bits := {};
    while i <= rangeHi
      invariant Reached(i, rangeHi, step)
      invariant bits + StepMask(i, rangeHi, step) == StepMask(rangeLo, rangeHi, step)
      decreases Rank(i, rangeHi, step)
    {
      bits, i := bits + Bit(i), Add64(i, step);
    }
  }

  method ParseRange(text: string, lo: int, hi: int) returns (mask: Option<Mask>)
    requires 0 <= lo <= hi < 64
    ensures mask == PartMask(text, lo, hi)
  {
    hide ParseInt, StepMask;
    var part, step := text, 1;
    var slash := IndexOf(part, '/');
    if slash < |part| {
      var s := ParseInt(Decimal, part[slash + 1..]);
      if s.None? || s.value < 1 { return None; }
      step, part := s.value, part[..slash];
    }
    var rangeLo, rangeHi := lo, hi;
    if part == "*" {
    } else if '-' in part {
      var dash := IndexOf(part, '-');
      var a, b := ParseInt(Decimal, part[..dash]), ParseInt(Decimal, part[dash + 1..]);
      if a.None? || b.None? { return None; }
      if a.value < lo || b.value > hi || a.value > b.value { return None; }
      rangeLo, rangeHi := a.value, b.value;
    } else {
      var v := ParseInt(Decimal, part);
      if v.None? || v.value < lo || v.value > hi { return None; }
      rangeLo, rangeHi := v.value, if step > 1 then hi else v.value;
    }
    var bits := SetBits(rangeLo, rangeHi, step);
    return Some(bits);
  }

  method ParseField(field: string, lo: int, hi: int) returns (mask: Option<Mask>)
    requires 0 <= lo <= hi < 64
    ensures mask == FieldMask(field, lo, hi)
  {
    hide PartMask;
    var parts := Split(field, ',');
    if field == "" {
      EmptyPartIsBad(lo, hi);
      return None;
    }
    var bits: Mask := {};
    for k := 0 to |parts|
      invariant forall j | 0 <= j < k :: PartMask(parts[j], lo, hi).Some?
      invariant bits == Union(parts, k, lo, hi)
    {
      var part := ParseRange(parts[k], lo, hi);
      if part.None? { return None; }
      bits := bits + part.value;
      UnionGrows(parts, k, lo, hi);
    }
    return Some(bits);
  }

  lemma EmptyPartIsBad(lo: int, hi: int)
    requires 0 <= lo <= hi < 64
    ensures FieldMask("", lo, hi).None?
  {
    assert Split("", ',')[0] == "";
    assert PartMask("", lo, hi).None?;
  }

  datatype CronError = FieldCount(n: nat) | BadField(k: nat)

  method ParseCron(expr: string) returns (r: Result<Schedule, CronError>)
    ensures r.Success? ==> ScheduleOf(expr) == Some(r.value)
    ensures r.Failure? ==> ScheduleOf(expr).None?
    ensures r.Failure? && r.error.FieldCount? <==> |Fields(expr)| != 5
    ensures r.Failure? && r.error.FieldCount? ==> r.error.n == |Fields(expr)|
    ensures r.Failure? && r.error.BadField? ==>
              && r.error.k < 5 && Nth(expr, r.error.k).None?
              && forall j: nat | j < r.error.k :: Nth(expr, j).Some?
  {
    hide FieldMask;
    var fields := Fields(expr);
    if |fields| != 5 { return Failure(FieldCount(|fields|)); }
    var minute := ParseField(fields[0], 0, 59);
    assert minute == Nth(expr, 0);
    if minute.None? { return Failure(BadField(0)); }
    var hour := ParseField(fields[1], 0, 23);
    assert hour == Nth(expr, 1);
    if hour.None? { return Failure(BadField(1)); }
    var dom := ParseField(fields[2], 1, 31);
    assert dom == Nth(expr, 2);
    if dom.None? { return Failure(BadField(2)); }
    var month := ParseField(fields[3], 1, 12);
    assert month == Nth(expr, 3);
    if month.None? { return Failure(BadField(3)); }
    var dow := ParseField(fields[4], 0, 6);
    assert dow == Nth(expr, 4);
    if dow.None? { return Failure(BadField(4)); }
    return Success(Schedule(minute.value, hour.value, dom.value, month.value, dow.value,
                            fields[2] == "*", fields[4] == "*"));
  }

  // -------------------------------------------------------------- round trip

  function ShowPart(p: Part): string
    requires Writable(p)
  {
    var base := match p.base
      case Star => "*"
      case Value(v) => Dec(v)
      case Range(a, b) => Dec(a) + "-" + Dec(b);
    if p.step == 1 then base else base + "/" + Dec(p.step)
  }

  predicate Writable(p: Part) {
    && 1 <= p.step < INT64_LIMIT
    && match p.base
       case Star => true
       case Value(v) => 0 <= v < INT64_LIMIT
       case Range(a, b) => 0 <= a < INT64_LIMIT && 0 <= b < INT64_LIMIT
  }

  /** Characters of a printed part. */
  predicate Plain(s: string) {
    forall c | c in s :: '0' <= c <= '9' || c == '*' || c == '-'
  }

  lemma ReadBaseShown(p: Part)
    requires Writable(p) && p.step == 1
    ensures ReadBase(ShowPart(p)) == Some(p.base) && Plain(ShowPart(p)) && ShowPart(p) != ""
    ensures ShowPart(p) == "*" <==> p.base == Star
  {
    hide Dec, ParseInt;
    match p.base
    case Star =>
    case Value(v) =>
      DecShape(v);
      ParseIntReadsDec(v);
      assert Dec(v)[0] in Dec(v);
    case Range(a, b) =>
      DecShape(a);
      DecShape(b);
      ParseIntReadsDec(a);
      ParseIntReadsDec(b);
      FirstSeparator(Dec(a), '-', Dec(b));
      var s := ShowPart(p);
      assert s == Dec(a) + ['-'] + Dec(b) && s[|Dec(a)|] == '-';
      assert s[..|Dec(a)|] == Dec(a) && s[|Dec(a)| + 1..] == Dec(b);
  }

  /** Printing a part and reading it gives it back. */
  lemma ReadPartShown(p: Part)
    requires Writable(p)
    ensures ReadPart(ShowPart(p)) == Some(p)
    ensures (forall c | c in ShowPart(p) :: c != ',' && !IsSpace(c)) && ShowPart(p) != ""
    ensures ShowPart(p) == "*" <==> p == Part(Star, 1)
  {
    hide Dec, ParseInt, ReadBase;
    var plain := Part(p.base, 1);
    var base, s := ShowPart(plain), ShowPart(p);
    ReadBaseShown(plain);
    if p.step > 1 {
      DecShape(p.step);
      ParseIntReadsDec(p.step);
      FirstSeparator(base, '/', Dec(p.step));
      assert s == base + ['/'] + Dec(p.step) && s[|base|] == '/';
      assert s[..|base|] == base && s[|base| + 1..] == Dec(p.step);
    }
  }

  function ShowParts(parts: seq<Part>): (shown: seq<string>)
    requires forall p | p in parts :: Writable(p)
    ensures |shown| == |parts|
  {
    hide ShowPart, Writable;
    if parts == [] then []
    else
      assert forall p | p in parts[1..] :: p in parts;
      [ShowPart(parts[0])] + ShowParts(parts[1..])
  }

  lemma {:induction false} ShownPart(parts: seq<Part>, k: nat)
    requires k < |parts| && forall p | p in parts :: Writable(p)
    ensures ShowParts(parts)[k] == ShowPart(parts[k])
  {
    hide ShowPart, Writable;
    if k > 0 { ShownPart(parts[1..], k - 1); }
  }

  function ShowField(parts: seq<Part>): string
    requires parts != [] && forall p | p in parts :: Writable(p)
  {
    Join(ShowParts(parts), ',')
  }

  /** Every written field parses to the union of what its parts denote. */
  lemma FieldMeansItsParts(parts: seq<Part>, lo: int, hi: int)
    requires 0 <= lo <= hi < 64 && parts != []
    requires forall p | p in parts :: Writable(p) && InBounds(p, lo, hi) && Steady(p, lo)
    ensures FieldMask(ShowField(parts), lo, hi) ==
            Some(set k, b | 0 <= k < |parts| && b in Denotation(parts[k], lo, hi) :: b)
  {
    hide ReadPart, ShowPart, Denotation, StepMask, Split;
    var shown := ShowParts(parts);
    forall k | 0 <= k < |parts|
      ensures ',' !in shown[k] && PartMask(shown[k], lo, hi) == Some(Denotation(parts[k], lo, hi))
    {
      assert parts[k] in parts;
      ShownPart(parts, k);
      ReadPartShown(parts[k]);
      MaskIsDenotation(shown[k], lo, hi);
    }
    SplitUndoesJoin(shown, ',');
    var bits := Union(shown, |shown|, lo, hi);
    var meant := set k, b | 0 <= k < |parts| && b in Denotation(parts[k], lo, hi) :: b;
    forall b ensures b in bits <==> b in meant {
      if b in bits {
        var k :| 0 <= k < |shown| && b in PartMask(shown[k], lo, hi).value;
        assert b in Denotation(parts[k], lo, hi);
      }
      if b in meant {
        var k :| 0 <= k < |parts| && b in Denotation(parts[k], lo, hi);
        assert b in PartMask(shown[k], lo, hi).value;
      }
    }
    assert bits == meant;
  }

  /** A step that carries the counter round can even set a bit below the field's range. */
  lemma MaskCanLeaveItsRange()
    ensures var p := Part(Value(2), INT64_LIMIT - 1);
            PartMask(ShowPart(p), 1, 31).Some? && 0 in PartMask(ShowPart(p), 1, 31).value
  {
    hide ShowPart, ReadPart, StepMask;
    var p := Part(Value(2), INT64_LIMIT - 1);
    ReadPartShown(p);
    WrappedStepSetsALowerBit(2, 31, INT64_LIMIT - 1);
  }

  lemma {:induction false} FieldIsAWord(parts: seq<Part>)
    requires parts != [] && forall p | p in parts :: Writable(p)
    ensures IsWord(ShowField(parts))
    ensures ShowField(parts) == "*" <==> parts == [Part(Star, 1)]
  {
    hide ShowPart;
    assert parts[0] in parts;
    ReadPartShown(parts[0]);
    var s := ShowField(parts);
    if |parts| == 1 {
      assert parts == [parts[0]];
    } else {
      FieldIsAWord(parts[1..]);
      assert ShowParts(parts)[1..] == ShowParts(parts[1..]);
      assert s == ShowPart(parts[0]) + [','] + ShowField(parts[1..]);
      assert s[|ShowPart(parts[0])|] == ',';
    }
  }

  /** The values a whole field denotes. */
  function Meaning(parts: seq<Part>, k: nat): set<int>
    requires k < 5
  {
    set i, b | 0 <= i < |parts| && b in Denotation(parts[i], Lo(k), Hi(k)) :: b
  }

  ghost predicate WellWritten(parts: seq<Part>, k: nat)
    requires k < 5
  {
    parts != [] && forall p | p in parts :: Writable(p) && InBounds(p, Lo(k), Hi(k)) && Steady(p, Lo(k))
  }

  /** Writing five fields and parsing the expression gives the schedule they mean. */
  lemma ExpressionMeansItsFields(f: seq<seq<Part>>)
    requires |f| == 5 && WellWritten(f[0], 0) && WellWritten(f[1], 1) && WellWritten(f[2], 2)
    requires WellWritten(f[3], 3) && WellWritten(f[4], 4)
    ensures ScheduleOf(Join([ShowField(f[0]), ShowField(f[1]), ShowField(f[2]), ShowField(f[3]), ShowField(f[4])], ' ')) ==
            Some(Schedule(Meaning(f[0], 0), Meaning(f[1], 1), Meaning(f[2], 2), Meaning(f[3], 3), Meaning(f[4], 4),
                          f[2] == [Part(Star, 1)], f[4] == [Part(Star, 1)]))
  {
    hide ShowField, FieldMask, Meaning, Fields, Join;
    var words := [ShowField(f[0]), ShowField(f[1]), ShowField(f[2]), ShowField(f[3]), ShowField(f[4])];
    var expr := Join(words, ' ');
    forall k: nat | k < 5
      ensures IsWord(words[k]) && (words[k] == "*" <==> f[k] == [Part(Star, 1)])
      ensures FieldMask(words[k], Lo(k), Hi(k)) == Some(Meaning(f[k], k))
    {
      assert words[k] == ShowField(f[k]);
      FieldIsAWord(f[k]);
      FieldMeaning(f[k], k);
    }
    FieldsUndoJoin(words);
    assert Fields(expr) == words;
    forall k: nat | k < 5 ensures Nth(expr, k) == Some(Meaning(f[k], k)) {
      assert FieldMask(words[k], Lo(k), Hi(k)) == Some(Meaning(f[k], k));
    }
  }

  lemma FieldMeaning(parts: seq<Part>, k: nat)
    requires k < 5 && WellWritten(parts, k)
    ensures FieldMask(ShowField(parts), Lo(k), Hi(k)) == Some(Meaning(parts, k))
  {
    FieldMeansItsParts(parts, Lo(k), Hi(k));
  }
}
