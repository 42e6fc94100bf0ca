/** Epoch milliseconds to an RFC 3339 timestamp by closed-form division, against a
    calendar that is walked one day at a time. */
module Calendar {
  import opened Text

  datatype Date = Date(year: int, month: int, day: int)

  datatype Timestamp = Timestamp(date: Date, hour: int, minute: int, second: int, millis: int)

  // ---------- the Gregorian calendar ----------

  predicate IsLeap(y: int) {
    y % 4 == 0 && (y % 100 != 0 || y % 400 == 0)
  }

  function MonthLength(y: int, m: int): (n: int) {
    if m == 2 then (if IsLeap(y) then 29 else 28)
    else if m == 4 || m == 6 || m == 9 || m == 11 then 30
    else 31
  }

  predicate IsDate(t: Date) {
    1 <= t.month <= 12 && 1 <= t.day <= MonthLength(t.year, t.month)
  }

  function NextDay(t: Date): (u: Date) {
    if t.day < MonthLength(t.year, t.month) then t.(day := t.day + 1)
    else if t.month < 12 then Date(t.year, t.month + 1, 1)
    else Date(t.year + 1, 1, 1)
  }

  function PreviousDay(t: Date): (u: Date) {
    if t.day > 1 then t.(day := t.day - 1)
    else if t.month > 1 then Date(t.year, t.month - 1, MonthLength(t.year, t.month - 1))
    else Date(t.year - 1, 12, 31)
  }

  const EPOCH := Date(1970, 1, 1)

  /** The date `n` days after the epoch, or before it when `n` is negative. */
  function Walk(n: int): (t: Date)
    decreases if n < 0 then -n else n
  {
    if n == 0 then EPOCH
    else if n > 0 then NextDay(Walk(n - 1))
    else PreviousDay(Walk(n + 1))
  }

  ghost predicate Earlier(t: Date, u: Date) {
    || t.year < u.year
    || (t.year == u.year && t.month < u.month)
    || (t.year == u.year && t.month == u.month && t.day < u.day)
  }

  // ---------- the closed form ----------

  /** Years counted from 1 March, so that the leap day is the last of its year. */
  function YearOfEra(doe: int): (yoe: int) {
    (doe - doe / 1460 + doe / 36524 - doe / 146096) / 365
  }

  function DayOfYear(doe: int, yoe: int): (doy: int) {
    doe - (365 * yoe + yoe / 4 - yoe / 100)
  }

  function MonthDay(doy: int): (md: (int, int)) {
    var mp := (5 * doy + 2) / 153;
    (if mp < 10 then mp + 3 else mp - 9, doy - (153 * mp + 2) / 5 + 1)
  }

  function CivilFromDays(days: int): (t: Date) {
    var z := days + 719468;
    var era := z / 146097;
    var doe := z % 146097;
    var yoe := YearOfEra(doe);
    var y := yoe + era * 400;
    var (m, d) := MonthDay(DayOfYear(doe, yoe));
    Date(if m <= 2 then y + 1 else y, m, d)
  }

  /** The day of the era, taken apart into centuries, four-year cycles, years and days. */
  lemma Decompose(doe: int) returns (c: int, q: int, w: int, x: int)
    requires 0 <= doe < 146097
    ensures doe == 36524 * c + 1461 * q + 365 * w + x
    ensures 0 <= c <= 3 && 0 <= q <= 24 && 0 <= w <= 3
    ensures 0 <= x <= 364 || (x == 365 && w == 3 && (q < 24 || c == 3))
    ensures YearOfEra(doe) == 100 * c + 4 * q + w
    ensures DayOfYear(doe, YearOfEra(doe)) == x
  {
    if doe == 146096 {
      c, q, w, x := 3, 24, 3, 365;
    } else {
      c := doe / 36524;
      var r := doe - 36524 * c;
      q := r / 1461;
      var t := r - 1461 * q;
      w := if t == 1460 then 3 else t / 365;
      x := t - 365 * w;
      hide YearOfEra, DayOfYear;
      EraYear(doe, c, q, w, t);
      EraDay(doe, c, q, w, x);
    }
  }

  lemma EraYear(doe: int, c: int, q: int, w: int, t: int)
    requires 0 <= doe < 146096 && doe == 36524 * c + 1461 * q + t && 1461 * q + t < 36524
    requires 0 <= c <= 3 && 0 <= q <= 24 && 0 <= t < 1461
    requires w == if t == 1460 then 3 else t / 365
    ensures YearOfEra(doe) == 100 * c + 4 * q + w
  {
    var e := if 24 * c + q + t >= 1460 then 1 else 0;
    By1460(doe, 25 * c + q + e, 24 * c + q + t - 1460 * e);
    By36524(doe, c, 1461 * q + t);
    By365(doe - doe / 1460 + c, 100 * c + 4 * q + w, t - e - 365 * w);
  }

  lemma EraDay(doe: int, c: int, q: int, w: int, x: int)
    requires doe == 36524 * c + 1461 * q + 365 * w + x && 0 <= c <= 3 && 0 <= q <= 24 && 0 <= w <= 3
    ensures DayOfYear(doe, 100 * c + 4 * q + w) == x
  {
    YearStart(c, q, w);
  }

  lemma By36524(n: int, q: int, r: int)
    requires n == 36524 * q + r && 0 <= r < 36524
    ensures n / 36524 == q
  {
  }

  lemma By1460(n: int, q: int, r: int)
    requires n == 1460 * q + r && 0 <= r < 1460
    ensures n / 1460 == q
  {
  }

  lemma By365(n: int, q: int, r: int)
    requires n == 365 * q + r && 0 <= r < 365
    ensures n / 365 == q
  {
  }

  lemma YearStart(c: int, q: int, w: int)
    requires 0 <= c <= 3 && 0 <= q <= 24 && 0 <= w <= 3
    ensures var yoe := 100 * c + 4 * q + w;
            365 * yoe + yoe / 4 - yoe / 100 == 36524 * c + 1461 * q + 365 * w
  {
    var yoe := 100 * c + 4 * q + w;
    assert yoe / 100 == c;
    assert yoe / 4 == 25 * c + q;
  }

  ghost predicate IsDecomposition(doe: int, c: int, q: int, w: int, x: int) {
    && doe == 36524 * c + 1461 * q + 365 * w + x
    && 0 <= c <= 3 && 0 <= q <= 24 && 0 <= w <= 3
    && (0 <= x <= 364 || (x == 365 && w == 3 && (q < 24 || c == 3)))
  }

  lemma DecompositionUnique(doe: int, c: int, q: int, w: int, x: int, c': int, q': int, w': int, x': int)
    requires IsDecomposition(doe, c, q, w, x) && IsDecomposition(doe, c', q', w', x')
    ensures c == c' && q == q' && w == w' && x == x'
  {
    assert c == c';
    assert q == q';
  }

  /** What the closed form makes of a day with a known decomposition. */
  lemma Decomposed(doe: int, c: int, q: int, w: int, x: int)
    requires 0 <= doe < 146097 && IsDecomposition(doe, c, q, w, x)
    ensures YearOfEra(doe) == 100 * c + 4 * q + w && DayOfYear(doe, YearOfEra(doe)) == x
  {
    hide YearOfEra, DayOfYear;
    var c', q', w', x' := Decompose(doe);
    DecompositionUnique(doe, c, q, w, x, c', q', w', x');
  }

  /** The next day of the same era: one day on in the same March year, or the first day
      of the next. */
  lemma NextInEra(doe: int)
    requires 0 <= doe && doe + 1 < 146097
    ensures var y := YearOfEra(doe);
            var z := YearOfEra(doe + 1);
            var x := DayOfYear(doe, y);
            var u := DayOfYear(doe + 1, z);
            && 0 <= x
            && (if x < YearLength(y) - 1 then z == y && u == x + 1 else z == y + 1 && u == 0 && x == YearLength(y) - 1)
  {
    hide YearOfEra, DayOfYear, IsLeap;
    var c, q, w, x := Decompose(doe);
    LeapAfter(c, q, w);
    if x < YearLength(YearOfEra(doe)) - 1 {
      Decomposed(doe + 1, c, q, w, x + 1);
    } else if w < 3 {
      Decomposed(doe + 1, c, q, w + 1, 0);
    } else if q < 24 {
      Decomposed(doe + 1, c, q + 1, 0, 0);
    } else {
      Decomposed(doe + 1, c + 1, 0, 0, 0);
    }
  }

  /** Days from 1 March of year `y` to the end of February. */
  function YearLength(y: int): (n: int) {
    if IsLeap(y + 1) then 366 else 365
  }

  lemma LeapAfter(c: int, q: int, w: int)
    requires 0 <= c <= 3 && 0 <= q <= 24 && 0 <= w <= 3
    ensures IsLeap(100 * c + 4 * q + w + 1) <==> w == 3 && (q < 24 || c == 3)
  {
    var y := 100 * c + 4 * q + w + 1;
    assert y % 4 == (w + 1) % 4;
    if w == 3 {
      assert y == 100 * c + 4 * (q + 1);
      assert q < 24 ==> y % 100 == 4 * (q + 1);
    }
  }

  /** The calendar date of a day given by its March year and the day in that year. */
  function MarchDate(y: int, doy: int): (t: Date) {
    var (m, d) := MonthDay(doy);
    Date(if m <= 2 then y + 1 else y, m, d)
  }

  /** The months of a March year, spelled out. */
  function MonthTable(doy: int): (md: (int, int)) {
    if doy < 31 then (3, doy + 1)
    else if doy < 61 then (4, doy - 30)
    else if doy < 92 then (5, doy - 60)
    else if doy < 122 then (6, doy - 91)
    else if doy < 153 then (7, doy - 121)
    else if doy < 184 then (8, doy - 152)
    else if doy < 214 then (9, doy - 183)
    else if doy < 245 then (10, doy - 213)
    else if doy < 275 then (11, doy - 244)
    else if doy < 306 then (12, doy - 274)
    else if doy < 337 then (1, doy - 305)
    else (2, doy - 336)
  }

  lemma MonthDayTable(doy: int)
    requires 0 <= doy < 366
    ensures MonthDay(doy) == MonthTable(doy)
  {
    if doy < 153 {
      MonthDayFirst(doy);
    } else if doy < 306 {
      MonthDaySecond(doy);
    } else {
      MonthDayThird(doy);
    }
  }

  lemma MonthDayFirst(doy: int)
    requires 0 <= doy < 153
    ensures MonthDay(doy) == MonthTable(doy)
  {
  }

  lemma MonthDaySecond(doy: int)
    requires 153 <= doy < 306
    ensures MonthDay(doy) == MonthTable(doy)
  {
  }

  lemma MonthDayThird(doy: int)
    requires 306 <= doy < 366
    ensures MonthDay(doy) == MonthTable(doy)
  {
  }

  lemma NextMarchDate(y: int, doy: int)
    requires 0 <= doy < YearLength(y) - 1
    ensures MarchDate(y, doy + 1) == NextDay(MarchDate(y, doy))
  {
    hide MonthDay;
    MonthDayTable(doy);
    MonthDayTable(doy + 1);
  }

  lemma NextMarchYear(y: int)
    ensures MarchDate(y + 1, 0) == NextDay(MarchDate(y, YearLength(y) - 1))
  {
  }

  lemma MarchDateIsDate(y: int, doy: int)
    requires 0 <= doy < YearLength(y)
    ensures IsDate(MarchDate(y, doy))
  {
  }

  lemma LeapPeriod(y: int, era: int)
    ensures IsLeap(y + 400 * era) <==> IsLeap(y)
  {
    Modulo(y, 100 * era, 4);
    Modulo(y, 4 * era, 100);
    Modulo(y, era, 400);
  }

  lemma Modulo(a: int, k: int, m: int)
    requires m == 4 || m == 100 || m == 400
    ensures (a + m * k) % m == a % m
  {
  }

  lemma EraOf(z: int) returns (era: int, doe: int)
    ensures z == era * 146097 + doe && 0 <= doe < 146097
  {
    era, doe := z / 146097, z % 146097;
  }

  lemma CivilIsMarch(days: int, era: int, doe: int)
    requires days + 719468 == era * 146097 + doe && 0 <= doe < 146097
    ensures CivilFromDays(days) == MarchDate(YearOfEra(doe) + era * 400, DayOfYear(doe, YearOfEra(doe)))
  {
    hide YearOfEra, DayOfYear, MonthDay;
    var z := days + 719468;
    assert z / 146097 == era && z % 146097 == doe;
  }

  lemma CivilAt(days: int, era: int, c: int, q: int, w: int, x: int)
    requires var doe := days + 719468 - era * 146097; 0 <= doe < 146097 && IsDecomposition(doe, c, q, w, x)
    ensures CivilFromDays(days) == MarchDate(100 * c + 4 * q + w + era * 400, x)
  {
    hide CivilFromDays, MarchDate, YearOfEra, DayOfYear;
    var doe := days + 719468 - era * 146097;
    CivilIsMarch(days, era, doe);
    Decomposed(doe, c, q, w, x);
  }

  lemma StepInEra(days: int, era: int, doe: int)
    requires days + 719468 == era * 146097 + doe && 0 <= doe && doe + 1 < 146097
    ensures CivilFromDays(days + 1) == NextDay(CivilFromDays(days))
  {
    hide CivilFromDays, MarchDate, YearOfEra, DayOfYear, NextDay, IsLeap;
    CivilIsMarch(days, era, doe);
    CivilIsMarch(days + 1, era, doe + 1);
    NextInEra(doe);
    var yoe := YearOfEra(doe);
    var y := yoe + era * 400;
    LeapPeriod(yoe + 1, era);
    assert YearLength(y) == YearLength(yoe);
    if DayOfYear(doe, yoe) < YearLength(yoe) - 1 {
      NextMarchDate(y, DayOfYear(doe, yoe));
    } else {
      NextMarchYear(y);
    }
  }

  lemma EraEnds(era: int)
    ensures YearLength(399 + era * 400) == 366
  {
    hide IsLeap;
    LeapAfter(3, 24, 3);
    LeapPeriod(400, era);
    assert 399 + era * 400 + 1 == 400 + 400 * era;
  }

  lemma StepAcrossEra(days: int, era: int)
    requires days + 719468 == era * 146097 + 146096
    ensures CivilFromDays(days + 1) == NextDay(CivilFromDays(days))
  {
    hide CivilFromDays, MarchDate, NextDay, YearLength;
    CivilAt(days, era, 3, 24, 3, 365);
    CivilAt(days + 1, era + 1, 0, 0, 0, 0);
    EraEnds(era);
    NextMarchYear(399 + era * 400);
  }

  /** One more day in the closed form is one more day in the calendar, for every day. */
  lemma CivilStep(days: int)
    ensures CivilFromDays(days + 1) == NextDay(CivilFromDays(days))
  {
    hide CivilFromDays, NextDay;
    var era, doe := EraOf(days + 719468);
    if doe + 1 < 146097 {
      StepInEra(days, era, doe);
    } else {
      StepAcrossEra(days, era);
    }
  }

  lemma CivilIsDate(days: int)
    ensures IsDate(CivilFromDays(days))
  {
    hide CivilFromDays, MarchDate, YearOfEra, DayOfYear, IsLeap, IsDate;
    var z := days + 719468;
    var era, doe := z / 146097, z % 146097;
    CivilIsMarch(days, era, doe);
    var c, q, w, x := Decompose(doe);
    LeapAfter(c, q, w);
    LeapPeriod(YearOfEra(doe) + 1, era);
    MarchDateIsDate(YearOfEra(doe) + era * 400, x);
  }

  lemma PreviousOfNext(t: Date)
    requires IsDate(t)
    ensures PreviousDay(NextDay(t)) == t
    ensures Earlier(t, NextDay(t))
  {
  }

  /** The closed form is the walked calendar, on every day before and after the epoch. */
  lemma {:induction false} CivilIsWalk(days: int)
    ensures CivilFromDays(days) == Walk(days)
    decreases if days < 0 then -days else days
  {
    hide CivilFromDays, NextDay, PreviousDay;
    if days == 0 {
      CivilAt(0, 4, 3, 17, 1, 306);
    } else if days > 0 {
      CivilIsWalk(days - 1);
      CivilStep(days - 1);
    } else {
      CivilIsWalk(days + 1);
      CivilStep(days);
      CivilIsDate(days);
      PreviousOfNext(CivilFromDays(days));
    }
  }

  lemma {:induction false} CivilMonotone(a: int, b: int)
    requires a < b
    ensures Earlier(CivilFromDays(a), CivilFromDays(b))
    decreases b - a
  {
    hide CivilFromDays, NextDay;
    CivilStep(b - 1);
    CivilIsDate(b - 1);
    PreviousOfNext(CivilFromDays(b - 1));
    if a < b - 1 { CivilMonotone(a, b - 1); }
  }

  // ---------- time of day ----------

  function TimestampOf(millis: int): (t: Timestamp) {
    var secs := millis / 1000;
    var days := secs / 86400;
    var rest := secs % 86400;
    Timestamp(CivilFromDays(days), rest / 3600, (rest / 60) % 60, rest % 60, millis % 1000)
  }

  predicate IsTimestamp(t: Timestamp) {
    IsDate(t.date) && 0 <= t.hour < 24 && 0 <= t.minute < 60 && 0 <= t.second < 60 && 0 <= t.millis < 1000
  }

  /** The fields are in range and say the original instant: the date is the walked one
      and the time of day makes up the remainder. */
  lemma TimestampRecomposes(millis: int)
    ensures var t := TimestampOf(millis);
            && IsTimestamp(t)
            && exists days :: t.date == Walk(days) &&
                 millis == (((days * 24 + t.hour) * 60 + t.minute) * 60 + t.second) * 1000 + t.millis
  {
    hide CivilFromDays, Walk, IsDate;
    var secs := millis / 1000;
    var days := secs / 86400;
    var rest := secs % 86400;
    CivilIsDate(days);
    CivilIsWalk(days);
    assert rest == 3600 * (rest / 3600) + 60 * ((rest / 60) % 60) + rest % 60;
  }

  predicate FitsI64(n: int) {
    -0x8000_0000_0000_0000 <= n < 0x8000_0000_0000_0000
  }

  /** On 64-bit milliseconds no value the closed form computes on the way leaves 64 bits. */
  lemma NoOverflow(millis: int)
    requires FitsI64(millis)
    ensures var days := millis / 1000 / 86400;
            var z := days + 719468;
            var doe := z % 146097;
            var yoe := YearOfEra(doe);
            var doy := DayOfYear(doe, yoe);
            && FitsI64(millis / 1000) && FitsI64(days) && FitsI64(z) && FitsI64(z / 146097)
            && FitsI64(z / 146097 * 400) && FitsI64(yoe + z / 146097 * 400) && FitsI64(yoe + z / 146097 * 400 + 1)
            && 0 <= doe - doe / 1460 + doe / 36524 - doe / 146096 < 146097
            && 0 <= 365 * yoe + yoe / 4 - yoe / 100 < 146097 && 0 <= doy < 366 && 0 <= 5 * doy + 2 < 1832
  {
    hide YearOfEra, DayOfYear;
    var days := millis / 1000 / 86400;
    var doe := (days + 719468) % 146097;
    assert -106751991168 <= days <= 106751991167;
    var c, q, w, x := Decompose(doe);
    YearStart(c, q, w);
  }

  // ---------- the printed form ----------

  function Zeros(n: int): (s: string)
    ensures |s| == if n < 0 then 0 else n
    ensures forall c | c in s :: c == '0'
  {
    if n <= 0 then "" else ['0'] + Zeros(n - 1)
  }

  /** `{:0w}`: the sign comes first and counts towards the width. */
  function Padded(n: int, w: nat): (s: string) {
    if n < 0 then "-" + Zeros(w - 1 - |Decimal(-n)|) + Decimal(-n)
    else Zeros(w - |Decimal(n)|) + Decimal(n)
  }

  function Rfc3339(millis: int): (s: string) {
    var t := TimestampOf(millis);
    Padded(t.date.year, 4) + "-" + Padded(t.date.month, 2) + "-" + Padded(t.date.day, 2) + "T" +
    Padded(t.hour, 2) + ":" + Padded(t.minute, 2) + ":" + Padded(t.second, 2) + "." + Padded(t.millis, 3) + "Z"
  }

  /** The number a run of digits denotes. */
  function Number(s: string): (n: int) {
    if s == [] then 0 else 10 * Number(s[..|s| - 1]) + (s[|s| - 1] as int - '0' as int)
  }

  predicate Digits(s: string) {
    forall c | c in s :: '0' <= c <= '9'
  }

  function Slice(s: string, i: int, j: int): (t: string) {
    if 0 <= i <= j <= |s| then s[i..j] else ""
  }

  /** The date-time of section 5.6 of RFC 3339 with three fraction digits and `Z`, and
      the fields it denotes. */
  function Fields(s: string): (t: Timestamp) {
    Timestamp(Date(Number(Slice(s, 0, 4)), Number(Slice(s, 5, 7)), Number(Slice(s, 8, 10))),
              Number(Slice(s, 11, 13)), Number(Slice(s, 14, 16)), Number(Slice(s, 17, 19)), Number(Slice(s, 20, 23)))
  }

  predicate IsRfc3339(s: string) {
    && |s| == 24
    && s[4] == '-' && s[7] == '-' && s[10] == 'T' && s[13] == ':' && s[16] == ':' && s[19] == '.' && s[23] == 'Z'
    && Digits(s[..4]) && Digits(s[5..7]) && Digits(s[8..10]) && Digits(s[11..13])
    && Digits(s[14..16]) && Digits(s[17..19]) && Digits(s[20..23])
    && IsTimestamp(Fields(s))
  }

  lemma {:induction false} NumberZeros(n: int, s: string)
    ensures Number(Zeros(n) + s) == Number(s)
    decreases |s|, n
  {
    if s != [] {
      NumberZeros(n, s[..|s| - 1]);
      var z := Zeros(n) + s;
      assert z[..|z| - 1] == Zeros(n) + s[..|s| - 1];
    } else if n > 0 {
      var z := Zeros(n);
      assert z + [] == z;
      ZerosEnd(n);
      NumberZeros(n - 1, "");
      assert Zeros(n - 1) + [] == Zeros(n - 1);
    } else {
      assert Zeros(n) + s == "";
    }
  }

  lemma {:induction false} ZerosEnd(n: int)
    requires n > 0
    ensures Zeros(n)[..n - 1] == Zeros(n - 1) && Zeros(n)[n - 1] == '0'
  {
    var long, short := Zeros(n), Zeros(n - 1);
    assert forall i | 0 <= i < n :: long[i] in long;
    assert forall i | 0 <= i < n - 1 :: short[i] in short;
  }

  lemma {:induction false} NumberDecimal(n: nat)
    ensures Number(Decimal(n)) == n
  {
    if n >= 10 {
      NumberDecimal(n / 10);
      assert Decimal(n)[..|Decimal(n)| - 1] == Decimal(n / 10);
    } else {
      assert Decimal(n) == [Digit(n)];
    }
  }

  /** A padded number has exactly its width when it fits, and reads back as itself. */
  lemma PaddedFits(n: int, w: nat)
    requires 0 <= n
    requires (w == 2 && n < 100) || (w == 3 && n < 1000) || (w == 4 && n < 10000)
    ensures |Padded(n, w)| == w && Digits(Padded(n, w)) && Number(Padded(n, w)) == n
  {
    hide Decimal, Number, Zeros;
    DecimalLength(n);
    NumberDecimal(n);
    NumberZeros(w - |Decimal(n)|, Decimal(n));
  }

  lemma DecimalLength(n: nat)
    ensures n < 10 ==> |Decimal(n)| == 1
    ensures 10 <= n < 100 ==> |Decimal(n)| == 2
    ensures 100 <= n < 1000 ==> |Decimal(n)| == 3
    ensures 1000 <= n < 10000 ==> |Decimal(n)| == 4
    ensures n >= 10000 ==> |Decimal(n)| >= 5
  {
    if n >= 10 {
      DecimalLength(n / 10);
    }
  }

  lemma YearRange(days: int)
    ensures 0 <= CivilFromDays(days).year <= 9999 <==> -719528 <= days <= 2932896
  {
    YearBoundaries();
    hide CivilFromDays;
    if days < -719529 { CivilMonotone(days, -719529); }
    if -719528 < days { CivilMonotone(-719528, days); }
    if days < 2932896 { CivilMonotone(days, 2932896); }
    if 2932897 < days { CivilMonotone(2932897, days); }
  }

  lemma YearBoundaries()
    ensures CivilFromDays(-719528) == Date(0, 1, 1)
    ensures CivilFromDays(2932896) == Date(9999, 12, 31)
    ensures CivilFromDays(-719529) == Date(-1, 12, 31)
    ensures CivilFromDays(2932897) == Date(10000, 1, 1)
  {
    hide CivilFromDays;
    CivilAt(-719528, -1, 3, 24, 3, 306);
    CivilAt(2932896, 24, 3, 24, 3, 305);
    CivilAt(-719529, -1, 3, 24, 3, 305);
    CivilAt(2932897, 24, 3, 24, 3, 306);
  }

  lemma FieldWidths(millis: int)
    ensures var t := TimestampOf(millis);
            && |Padded(t.date.month, 2)| == |Padded(t.date.day, 2)| == |Padded(t.hour, 2)| == 2
            && |Padded(t.minute, 2)| == |Padded(t.second, 2)| == 2 && |Padded(t.millis, 3)| == 3
  {
    var t := TimestampOf(millis);
    TimestampRecomposes(millis);
    hide Padded, TimestampOf;
    PaddedFits(t.date.month, 2);
    PaddedFits(t.date.day, 2);
    PaddedFits(t.hour, 2);
    PaddedFits(t.minute, 2);
    PaddedFits(t.second, 2);
    PaddedFits(t.millis, 3);
  }

  lemma TailLength(millis: int)
    ensures var y := Padded(TimestampOf(millis).date.year, 4);
            |Rfc3339(millis)| == |y| + 20 && Rfc3339(millis)[..|y|] == y
  {
    FieldWidths(millis);
    hide Padded, TimestampOf;
  }

  lemma NotDigits(s: string)
    requires |s| >= 4 && s[0] == '-'
    ensures !IsRfc3339(s)
  {
    assert s[..4][0] == '-' && s[..4][0] in s[..4];
  }

  lemma FieldsRoundTrip(millis: int)
    requires 0 <= TimestampOf(millis).date.year <= 9999
    ensures IsRfc3339(Rfc3339(millis)) && Fields(Rfc3339(millis)) == TimestampOf(millis)
  {
    var t := TimestampOf(millis);
    var s := Rfc3339(millis);
    TimestampRecomposes(millis);
    PaddedFits(t.date.year, 4);
    PaddedFits(t.date.month, 2);
    PaddedFits(t.date.day, 2);
    PaddedFits(t.hour, 2);
    PaddedFits(t.minute, 2);
    PaddedFits(t.second, 2);
    PaddedFits(t.millis, 3);
    hide Padded, Number, TimestampOf, IsDate;
    Positions(Padded(t.date.year, 4), Padded(t.date.month, 2), Padded(t.date.day, 2), Padded(t.hour, 2),
              Padded(t.minute, 2), Padded(t.second, 2), Padded(t.millis, 3));
  }

  lemma Positions(y: string, mo: string, d: string, h: string, mi: string, sec: string, ms: string)
    requires |y| == 4 && |mo| == |d| == |h| == |mi| == |sec| == 2 && |ms| == 3
    ensures var s := y + "-" + mo + "-" + d + "T" + h + ":" + mi + ":" + sec + "." + ms + "Z";
            && |s| == 24 && s[..4] == s[0..4] == y && s[5..7] == mo && s[8..10] == d && s[11..13] == h
            && s[14..16] == mi && s[17..19] == sec && s[20..23] == ms
            && s[4] == '-' && s[7] == '-' && s[10] == 'T'
            && s[13] == ':' && s[16] == ':' && s[19] == '.' && s[23] == 'Z'
  {
  }

  /** The printed timestamp is a well-formed RFC 3339 date-time that denotes the given
      instant exactly when the instant lies in the years 0000 to 9999. */
  lemma Rfc3339Exact(millis: int)
    ensures IsRfc3339(Rfc3339(millis)) <==> -62167219200000 <= millis < 253402300800000
    ensures -62167219200000 <= millis < 253402300800000 ==> Fields(Rfc3339(millis)) == TimestampOf(millis)
  {
    var days := (millis / 1000) / 86400;
    var y := TimestampOf(millis).date.year;
    YearRange(days);
    assert -719528 <= days <= 2932896 <==> -62167219200000 <= millis < 253402300800000;
    if 0 <= y <= 9999 {
      FieldsRoundTrip(millis);
    } else {
      TailLength(millis);
      if y < 0 {
        assert Rfc3339(millis)[0] == Rfc3339(millis)[..|Padded(y, 4)|][0] == '-';
        NotDigits(Rfc3339(millis));
      } else {
        DecimalLength(y);
      }
    }
  }

  /** Distinct instants in that range print differently. */
  lemma Rfc3339Injective(a: int, b: int)
    requires -62167219200000 <= a < 253402300800000 && -62167219200000 <= b < 253402300800000
    requires Rfc3339(a) == Rfc3339(b)
    ensures a == b
  {
    Rfc3339Exact(a);
    Rfc3339Exact(b);
    var p, q := (a / 1000) / 86400, (b / 1000) / 86400;
    if p < q { CivilMonotone(p, q); }
    if q < p { CivilMonotone(q, p); }
    TimestampSplit(a);
    TimestampSplit(b);
  }

  lemma TimestampSplit(millis: int)
    ensures var t := TimestampOf(millis); var days := (millis / 1000) / 86400;
            millis == (days * 86400 + 3600 * t.hour + 60 * t.minute + t.second) * 1000 + t.millis
  {
    var rest := (millis / 1000) % 86400;
    assert rest == 3600 * (rest / 3600) + 60 * ((rest / 60) % 60) + rest % 60;
  }
}
