/** Universal time from and to calendar fields (src/pcp/pcpgmtime.c). */
module GmTime {
  import opened Text

  // ----- the calendar -----

  predicate Leap(y: int) {
    y % 400 == 0 || (y % 4 == 0 && y % 100 != 0)
  }

  function MonthDays(m: int, y: int): (n: int)
    ensures 28 <= n <= 31
  {
    if m == 2 then (if Leap(y) then 29 else 28)
    else if m == 4 || m == 6 || m == 9 || m == 11 then 30
    else 31
  }

  /** The lengths of the months, with a leap day in every fourth year but three centuries out of four. */
  lemma MonthDaysAre(m: int, y: int)
    requires 1 <= m <= 12
    ensures MonthDays(m, y) == [31, 28, 31, 30, 31, 30, 31, 31, 30, 31, 30, 31][m - 1]
      + if m == 2 && y % 4 == 0 && (y % 100 == 0 ==> y % 400 == 0) then 1 else 0
  {
    Divides(y, 4, 100);
  }

  predicate ValidDate(y: int, m: int, d: int) {
    1 <= m <= 12 && 1 <= d <= MonthDays(m, y)
  }

  predicate ValidClock(hh: int, mm: int, ss: int) {
    0 <= hh <= 23 && 0 <= mm <= 59 && 0 <= ss <= 59
  }

  function LeapsBefore(y: int): int {
    (y - 1) / 4 - (y - 1) / 100 + (y - 1) / 400
  }

  /** Days from the beginning of 1970 to the beginning of a year. */
  function YearStart(y: int): int {
    365 * (y - 1970) + LeapsBefore(y) - LeapsBefore(1970)
  }

  function MonthStart(m: int, y: int): (n: int)
    requires 1 <= m <= 13
    ensures n >= 28 * (m - 1)
    decreases m
  {
    if m == 1 then 0 else MonthStart(m - 1, y) + MonthDays(m - 1, y)
  }

  function DayNumber(y: int, m: int, d: int): int
    requires 1 <= m <= 12
  {
    YearStart(y) + MonthStart(m, y) + d - 1
  }

  lemma YearLength(y: int)
    ensures YearStart(y + 1) == YearStart(y) + (if Leap(y) then 366 else 365)
    ensures MonthStart(13, y) == if Leap(y) then 366 else 365
  {
    MonthSums(y);
    LeapsNext(y);
    hide LeapsBefore, Leap, MonthStart;
  }

  lemma LeapsNext(y: int)
    ensures LeapsBefore(y + 1) == LeapsBefore(y) + (if Leap(y) then 1 else 0)
  {
    DivNext(y, 4);
    DivNext(y, 100);
    DivNext(y, 400);
    Divides(y, 4, 25);
    Divides(y, 100, 4);
    assert LeapsBefore(y + 1) == y / 4 - y / 100 + y / 400;
  }

  lemma DivNext(y: int, n: int)
    requires n > 0
    ensures y / n - (y - 1) / n == if y % n == 0 then 1 else 0
  {
    var q, r := y / n, y % n;
    assert y == n * q + r;
    if r == 0 {
      Quotient(y - 1, n, q - 1, n - 1);
    } else {
      Quotient(y - 1, n, q, r - 1);
    }
  }

  lemma Quotient(x: int, n: int, q: int, r: int)
    requires n > 0 && 0 <= r < n && x == n * q + r
    ensures x / n == q && x % n == r
  {
    var p := x / n;
    assert n * p <= x < n * p + n;
    assert n * (p - q) < n && n * (q - p) < n;
    assert p - q >= 1 ==> n * (p - q) >= n;
    assert q - p >= 1 ==> n * (q - p) >= n;
  }

  lemma Divides(y: int, a: int, b: int)
    requires a > 0 && b > 0
    ensures y % (a * b) == 0 ==> y % a == 0
  {
    var q := y / (a * b);
    if y % (a * b) == 0 {
      assert y == a * b * q == a * (b * q);
      Quotient(y, a, b * q, 0);
    }
  }

  lemma MonthSums(y: int)
    ensures MonthStart(13, y) == 337 + MonthDays(2, y)
  {
    assert MonthStart(3, y) == 31 + MonthDays(2, y);
    assert MonthStart(6, y) == MonthStart(3, y) + 92;
    assert MonthStart(9, y) == MonthStart(6, y) + 92;
    assert MonthStart(12, y) == MonthStart(9, y) + 91;
  }

  lemma {:induction false} YearsAscend(y: int, z: int)
    requires y < z
    ensures YearStart(y + 1) <= YearStart(z)
    decreases z - y
  {
    if y + 1 < z {
      YearsAscend(y, z - 1);
      YearLength(z - 1);
    }
  }

  lemma {:induction false} MonthsAscend(m: int, n: int, y: int)
    requires 1 <= m < n <= 13
    ensures MonthStart(m + 1, y) <= MonthStart(n, y)
    decreases n - m
  {
    if m + 1 < n { MonthsAscend(m, n - 1, y); }
  }

  // ----- comparing dates -----

  function TmCmp(y1: int, m1: int, d1: int, y2: int, m2: int, d2: int): int {
    if y1 < y2 then -1
    else if y1 > y2 then 1
    else if m1 < m2 then -1
    else if m1 > m2 then 1
    else if d1 < d2 then -1
    else if d1 > d2 then 1
    else 0
  }

  lemma DayInYear(y: int, m: int, d: int)
    requires ValidDate(y, m, d)
    ensures YearStart(y) <= DayNumber(y, m, d) < YearStart(y + 1)
  {
    YearLength(y);
    MonthsAscend(m, 13, y);
  }

  /** tmcmp orders dates as their day numbers are ordered. */
  lemma TmCmpIsDayOrder(y1: int, m1: int, d1: int, y2: int, m2: int, d2: int)
    requires ValidDate(y1, m1, d1) && ValidDate(y2, m2, d2)
    ensures TmCmp(y1, m1, d1, y2, m2, d2) < 0 <==> DayNumber(y1, m1, d1) < DayNumber(y2, m2, d2)
    ensures TmCmp(y1, m1, d1, y2, m2, d2) > 0 <==> DayNumber(y1, m1, d1) > DayNumber(y2, m2, d2)
    ensures TmCmp(y1, m1, d1, y2, m2, d2) == 0 <==> (y1, m1, d1) == (y2, m2, d2)
  {
    hide YearStart, MonthStart;
    DayInYear(y1, m1, d1);
    DayInYear(y2, m2, d2);
    if y1 < y2 {
      YearsAscend(y1, y2);
    } else if y1 > y2 {
      YearsAscend(y2, y1);
    } else if m1 < m2 {
      MonthDaysFit(m1, d1, m2, d2, y1);
    } else if m1 > m2 {
      MonthDaysFit(m2, d2, m1, d1, y1);
    }
  }

  lemma MonthDaysFit(m1: int, d1: int, m2: int, d2: int, y: int)
    requires ValidDate(y, m1, d1) && ValidDate(y, m2, d2) && m1 < m2
    ensures MonthStart(m1, y) + d1 < MonthStart(m2, y) + d2
  {
    MonthsAscend(m1, m2, y);
  }

  /** Days are numbered one after the other, from the first day of 1970 on. */
  lemma DaysFollow(y: int, m: int, d: int)
    requires ValidDate(y, m, d)
    ensures var n := DayNumber(y, m, d) + 1;
      n == if d < MonthDays(m, y) then DayNumber(y, m, d + 1)
           else if m < 12 then DayNumber(y, m + 1, 1)
           else DayNumber(y + 1, 1, 1)
    ensures DayNumber(1970, 1, 1) == 0
  {
    YearLength(y);
    assert YearStart(1970) == 0;
    hide YearStart;
  }

  // ----- gmtime -----

  datatype Tm = Tm(year: int, mon: int, mday: int, hour: int, min: int, sec: int)

  function YearUp(y: int, n: int): (r: int)
    requires YearStart(y) <= n
    ensures YearStart(r) <= n < YearStart(r + 1)
    decreases n - YearStart(y)
  {
    YearLength(y);
    if n < YearStart(y + 1) then y else YearUp(y + 1, n)
  }

  function YearDown(y: int, n: int): (r: int)
    requires n < YearStart(y + 1)
    ensures YearStart(r) <= n < YearStart(r + 1)
    decreases YearStart(y + 1) - n
  {
    YearLength(y);
    if YearStart(y) <= n then y else YearDown(y - 1, n)
  }

  function MonthUp(m: int, k: int, y: int): (r: int)
    requires 1 <= m <= 12 && MonthStart(m, y) <= k < MonthStart(13, y)
    ensures m <= r <= 12 && MonthStart(r, y) <= k < MonthStart(r + 1, y)
    decreases 13 - m
  {
    if k < MonthStart(m + 1, y) then m else MonthUp(m + 1, k, y)
  }

  /** The date of a day. */
  function Date(n: int): (date: (int, int, int))
    ensures ValidDate(date.0, date.1, date.2) && DayNumber(date.0, date.1, date.2) == n
  {
    var y := if n >= 0 then YearUp(1970, n) else YearDown(1969, n);
    YearLength(y);
    var k := n - YearStart(y);
    var m := MonthUp(1, k, y);
    (y, m, k - MonthStart(m, y) + 1)
  }

  lemma ClockOf(s: int)
    requires 0 <= s < 86400
    ensures ValidClock(s / 3600, s / 60 % 60, s % 60)
    ensures s == (s / 3600) * 3600 + (s / 60 % 60) * 60 + s % 60
  {
    var minutes := s / 60;
    assert s == minutes * 60 + s % 60 && minutes == (minutes / 60) * 60 + minutes % 60;
    Quotient(s, 3600, minutes / 60, minutes % 60 * 60 + s % 60);
  }

  /** The C library's gmtime: the one valid date and clock of an instant. */
  function Gmtime(t: int): (tm: Tm)
    ensures ValidDate(tm.year, tm.mon, tm.mday) && ValidClock(tm.hour, tm.min, tm.sec)
    ensures t == DayNumber(tm.year, tm.mon, tm.mday) * 86400 + tm.hour * 3600 + tm.min * 60 + tm.sec
  {
    var s := t % 86400;
    ClockOf(s);
    var date := Date(t / 86400);
    Tm(date.0, date.1, date.2, s / 3600, s / 60 % 60, s % 60)
  }

  function Instant(tm: Tm): int
    requires 1 <= tm.mon <= 12
  {
    DayNumber(tm.year, tm.mon, tm.mday) * 86400 + tm.hour * 3600 + tm.min * 60 + tm.sec
  }

  predicate Valid(tm: Tm) {
    ValidDate(tm.year, tm.mon, tm.mday) && ValidClock(tm.hour, tm.min, tm.sec)
  }

  /** No two valid dates and clocks are the same instant. */
  lemma GmtimeIsUnique(tm: Tm)
    requires Valid(tm)
    ensures Gmtime(Instant(tm)) == tm
  {
    hide Gmtime, DayNumber, MonthDays, TmCmp;
    var t := Instant(tm);
    var other := Gmtime(t);
    SameClock(DayNumber(tm.year, tm.mon, tm.mday), tm, DayNumber(other.year, other.mon, other.mday), other);
    TmCmpIsDayOrder(tm.year, tm.mon, tm.mday, other.year, other.mon, other.mday);
    TmCmpCases(tm.year, tm.mon, tm.mday, other.year, other.mon, other.mday);
  }

  lemma TmCmpCases(y1: int, m1: int, d1: int, y2: int, m2: int, d2: int)
    ensures TmCmp(y1, m1, d1, y2, m2, d2) in {-1, 0, 1}
  {
  }

  lemma SameClock(m: int, a: Tm, n: int, b: Tm)
    requires ValidClock(a.hour, a.min, a.sec) && ValidClock(b.hour, b.min, b.sec)
    requires m * 86400 + a.hour * 3600 + a.min * 60 + a.sec == n * 86400 + b.hour * 3600 + b.min * 60 + b.sec
    ensures m == n && (a.hour, a.min, a.sec) == (b.hour, b.min, b.sec)
  {
  }

  // ----- pcp_gmtime -----

  predicate Accepted(tm: Tm) {
    1970 <= tm.year <= 3000 && Valid(tm)
  }

  /** The instant of accepted fields, and 0 for all others. */
  function Time(tm: Tm): int {
    if Accepted(tm) then Instant(tm) else 0
  }

  lemma DayOf(t: int)
    ensures var tm := Gmtime(t); DayNumber(tm.year, tm.mon, tm.mday) == t / 86400
  {
    var tm := Gmtime(t);
    Quotient(t, 86400, DayNumber(tm.year, tm.mon, tm.mday), tm.hour * 3600 + tm.min * 60 + tm.sec);
  }

  lemma NeighbourDays(t: int)
    ensures (t + 86400) / 86400 == t / 86400 + 1 && (t - 86400) / 86400 == t / 86400 - 1
  {
  }

  /** On the right day, setting the clock gives the instant. */
  lemma AtClock(t: int, tm: Tm)
    requires Valid(tm) && t / 86400 == DayNumber(tm.year, tm.mon, tm.mday)
    ensures var at := Gmtime(t);
      t - (at.hour * 60 * 60 + at.min * 60 + at.sec) + tm.hour * 60 * 60 + tm.min * 60 + tm.sec == Instant(tm)
  {
    DayOf(t);
    hide DayNumber;
  }

  function CmpDate(t: int, tm: Tm): int {
    var at := Gmtime(t);
    TmCmp(at.year, at.mon, at.mday, tm.year, tm.mon, tm.mday)
  }

  lemma CmpDateIsDayOrder(t: int, tm: Tm)
    requires Valid(tm)
    ensures CmpDate(t, tm) < 0 <==> t / 86400 < DayNumber(tm.year, tm.mon, tm.mday)
    ensures CmpDate(t, tm) > 0 <==> t / 86400 > DayNumber(tm.year, tm.mon, tm.mday)
  {
    DayOf(t);
    var at := Gmtime(t);
    hide Gmtime, DayNumber, TmCmp;
    TmCmpIsDayOrder(at.year, at.mon, at.mday, tm.year, tm.mon, tm.mday);
  }

  /** The day-stepping loops: from wherever t lies they reach the day asked for. */
  method FindDay(start: int, tm: Tm) returns (t: int)
    requires Valid(tm)
    ensures t / 86400 == DayNumber(tm.year, tm.mon, tm.mday)
  {
    hide Gmtime, DayNumber, TmCmp, CmpDate;
    t := start;
    ghost var day := DayNumber(tm.year, tm.mon, tm.mday);
    CmpDateIsDayOrder(t, tm);
    var n := CmpDate(t, tm);
    if n < 0 {
      while n < 0
        invariant t / 86400 <= day && (n < 0 <==> t / 86400 < day)
        decreases day - t / 86400
      {
        NeighbourDays(t);
        t := t + 24 * 60 * 60;
        CmpDateIsDayOrder(t, tm);
        n := CmpDate(t, tm);
      }
    } else {
      while n > 0
        invariant t / 86400 >= day && (n > 0 <==> t / 86400 > day)
        decreases t / 86400 - day
      {
        NeighbourDays(t);
        t := t - 24 * 60 * 60;
        CmpDateIsDayOrder(t, tm);
        n := CmpDate(t, tm);
      }
    }
  }

  /** pcp_gmtime. start is the local midnight that mktime finds, if it finds one. */
  method PcpGmtime(tm: Tm, start: Option<int>) returns (r: int)
    ensures r == if start.Some? then Time(tm) else 0
  {
    if !Accepted(tm) || start == None { return 0; }
    hide Gmtime, DayNumber, Instant;
    var t := FindDay(start.value, tm);
    var at := Gmtime(t);
    AtClock(t, tm);
    t := t - (at.hour * 60 * 60 + at.min * 60 + at.sec);
    return t + tm.hour * 60 * 60 + tm.min * 60 + tm.sec;
  }

  // ----- printing and reading -----

  function Zeros(n: int): string {
    if n <= 0 then "" else "0" + Zeros(n - 1)
  }

  /** printf with a width and leading zeros. */
  function ZeroPadded(width: nat, n: int): string {
    if n < 0 then "-" + Zeros(width - 1 - |Decimal(-n)|) + Decimal(-n)
    else Zeros(width - |Decimal(n)|) + Decimal(n)
  }

  /** pcp_gmtimestr */
  function GmtimeStr(t: int): string {
    var tm := Gmtime(t);
    ZeroPadded(4, tm.year) + (ZeroPadded(2, tm.mon) + (ZeroPadded(2, tm.mday)
      + (ZeroPadded(2, tm.hour) + (ZeroPadded(2, tm.min) + ZeroPadded(2, tm.sec)))))
  }

  function ScanUpTo(v: nat, s: string, width: nat): (nat, string)
    decreases width
  {
    if width == 0 || s == "" || !IsDigit(s[0]) then (v, s)
    else ScanUpTo(v * 10 + (s[0] as int - '0' as int), s[1..], width - 1)
  }

  /** One sscanf conversion of at most width characters. */
  function ScanField(s: string, width: nat): Option<(int, string)>
    decreases |s|
  {
    if s == "" || width == 0 then None
    else if IsSpace(s[0]) then ScanField(s[1..], width)
    else if IsDigit(s[0]) then
      var value: int := ScanUpTo(0, s, width).0;
      Some((value, ScanUpTo(0, s, width).1))
    else if (s[0] == '-' || s[0] == '+') && width > 1 && |s| > 1 && IsDigit(s[1]) then
      var value: int := ScanUpTo(0, s[1..], width - 1).0;
      Some((if s[0] == '-' then -value else value, ScanUpTo(0, s[1..], width - 1).1))
    else None
  }

  function ScanFields(s: string, widths: seq<nat>): (vs: Option<seq<int>>)
    ensures vs.Some? ==> |vs.value| == |widths|
    decreases |widths|
  {
    if widths == [] then Some([])
    else
      match ScanField(s, widths[0])
      case None => None
      case Some((v, rest)) =>
        match ScanFields(rest, widths[1..])
        case None => None
        case Some(vs) => Some([v] + vs)
  }

  const WIDTHS: seq<nat> := [4, 2, 2, 2, 2, 2]

  /** What pcp_gmtime_s makes of a text. */
  function Parsed(p: string): int {
    match ScanFields(p, WIDTHS)
    case None => 0
    case Some(f) => Time(Tm(f[0], f[1], f[2], f[3], f[4], f[5]))
  }

  method PcpGmtimeS(p: string, start: Option<int>) returns (t: int)
    ensures t == if start.Some? then Parsed(p) else 0
  {
    var f := ScanFields(p, WIDTHS);
    if f == None { return 0; }
    t := PcpGmtime(Tm(f.value[0], f.value[1], f.value[2], f.value[3], f.value[4], f.value[5]), start);
  }

  lemma {:induction false} ScanUpToExact(v: nat, s: string, rest: string)
    requires forall i :: 0 <= i < |s| ==> IsDigit(s[i])
    ensures ScanUpTo(v, s + rest, |s|) == (ScanNumber(v, s).0, rest)
    decreases |s|
  {
    if s == "" {
      assert s + rest == rest;
    } else {
      assert (s + rest)[1..] == s[1..] + rest;
      ScanUpToExact(v * 10 + (s[0] as int - '0' as int), s[1..], rest);
    }
  }

  lemma {:induction false} ScanZeros(k: int, s: string)
    ensures ScanNumber(0, Zeros(k) + s) == ScanNumber(0, s)
    ensures |Zeros(k)| == if k <= 0 then 0 else k
    ensures forall i :: 0 <= i < |Zeros(k)| ==> IsDigit(Zeros(k)[i])
  {
    if k <= 0 {
      assert Zeros(k) + s == s;
    } else {
      ScanZeros(k - 1, s);
      assert (Zeros(k) + s)[1..] == Zeros(k - 1) + s;
    }
  }

  lemma DecimalDigits(n: nat)
    ensures n < 100 ==> |Decimal(n)| <= 2
    ensures n < 10000 ==> |Decimal(n)| <= 4
    ensures forall i :: 0 <= i < |Decimal(n)| ==> IsDigit(Decimal(n)[i])
  {
    assert n < 100 ==> |Decimal(n / 10)| == 1;
    assert n < 10000 ==> |Decimal(n / 10 / 10)| <= 2 && |Decimal(n / 10)| <= 3;
    forall i | 0 <= i < |Decimal(n)|
      ensures IsDigit(Decimal(n)[i])
    {
      assert Decimal(n)[i] in Decimal(n);
    }
  }

  /** A number that fits its width is printed in that width and read back from it. */
  lemma FieldReadsBack(width: nat, n: nat, rest: string)
    requires (width == 2 && n < 100) || (width == 4 && n < 10000)
    ensures ScanField(ZeroPadded(width, n) + rest, width) == Some((n, rest))
  {
    var s := ZeroPadded(width, n);
    DecimalDigits(n);
    ScanZeros(width - |Decimal(n)|, Decimal(n));
    assert Decimal(n) + "" == Decimal(n);
    ScanDecimal(n, "");
    hide Decimal, Zeros, ScanNumber;
    ScanUpToExact(0, s, rest);
    assert IsDigit(s[0]) && !IsSpace(s[0]) && (s + rest)[0] == s[0];
  }

  lemma FieldsNext(width: nat, n: nat, rest: string, widths: seq<nat>, vs: seq<int>, both: seq<nat>, all: seq<int>)
    requires (width == 2 && n < 100) || (width == 4 && n < 10000)
    requires ScanFields(rest, widths) == Some(vs) && both == [width] + widths && all == [n] + vs
    ensures ScanFields(ZeroPadded(width, n) + rest, both) == Some(all)
  {
    hide ScanField, ZeroPadded;
    FieldReadsBack(width, n, rest);
    assert both[1..] == widths;
  }

  lemma StringReadsBack(t: int)
    requires 0 <= Gmtime(t).year <= 9999
    ensures Parsed(GmtimeStr(t)) == Time(Gmtime(t))
  {
    var tm := Gmtime(t);
    hide ScanFields, ZeroPadded, Gmtime, Time;
    var sec := ZeroPadded(2, tm.sec);
    var min := ZeroPadded(2, tm.min) + sec;
    var hour := ZeroPadded(2, tm.hour) + min;
    var mday := ZeroPadded(2, tm.mday) + hour;
    var mon := ZeroPadded(2, tm.mon) + mday;
    var a, b, c, d := [tm.sec], [tm.min, tm.sec], [tm.hour, tm.min, tm.sec], [tm.mday, tm.hour, tm.min, tm.sec];
    var e, f := [tm.mon] + d, [tm.year] + ([tm.mon] + d);
    assert sec + "" == sec;
    FieldsNone();
    FieldsNext(2, tm.sec, "", [], [], [2], a);
    FieldsNext(2, tm.min, sec, [2], a, [2, 2], b);
    FieldsNext(2, tm.hour, min, [2, 2], b, [2, 2, 2], c);
    FieldsNext(2, tm.mday, hour, [2, 2, 2], c, [2, 2, 2, 2], d);
    FieldsNext(2, tm.mon, mday, [2, 2, 2, 2], d, [2, 2, 2, 2, 2], e);
    FieldsNext(4, tm.year, mon, [2, 2, 2, 2, 2], e, WIDTHS, f);
  }

  lemma NoonIs()
    ensures Gmtime(951912000) == Tm(2000, 3, 1, 12, 0, 0)
  {
    var tm := Tm(2000, 3, 1, 12, 0, 0);
    FirstOfMarch();
    hide DayNumber, Gmtime;
    assert Instant(tm) == 951912000;
    GmtimeIsUnique(tm);
  }

  /** Noon of the first of March 2000 in print. */
  lemma PrintedExample()
    ensures GmtimeStr(951912000) == "2000" + ("03" + ("01" + ("12" + ("00" + "00"))))
  {
    NoonIs();
    PaddedExamples();
    hide Gmtime, ZeroPadded;
  }

  lemma FirstOfMarch()
    ensures DayNumber(2000, 3, 1) == 11017
  {
    assert MonthStart(3, 2000) == 60;
  }

  lemma PaddedExamples()
    ensures ZeroPadded(4, 2000) == "2000" && ZeroPadded(2, 3) == "03" && ZeroPadded(2, 1) == "01"
    ensures ZeroPadded(2, 12) == "12" && ZeroPadded(2, 0) == "00"
  {
    assert Decimal(2) == "2" && Decimal(20) == "20" && Decimal(200) == "200" && Decimal(2000) == "2000";
    assert Decimal(1) == "1" && Decimal(12) == "12" && Decimal(3) == "3" && Decimal(0) == "0";
    assert Zeros(1) == "0" && Zeros(0) == "";
  }

  lemma FieldsNone()
    ensures ScanFields("", []) == Some([])
  {
  }

  /** The first instant that pcp_gmtime does not accept. */
  const TOO_LATE := YearStart(3001) * 86400

  lemma TooLateIs()
    ensures TOO_LATE == 32535216000
  {
  }

  lemma AcceptedYears(t: int)
    ensures Accepted(Gmtime(t)) <==> 0 <= t < TOO_LATE
  {
    var tm := Gmtime(t);
    DayOf(t);
    DayInYear(tm.year, tm.mon, tm.mday);
    hide Gmtime, DayNumber;
    if tm.year < 1970 { YearsAscend(tm.year, 1970); }
    if tm.year > 1970 { YearsAscend(1970, tm.year); }
    if tm.year < 3001 { YearsAscend(tm.year, 3001); }
    if tm.year > 3001 { YearsAscend(3001, tm.year); }
    YearLength(1970);
  }

  /** Of the times whose year has four digits, exactly those from 1970 up to the year 3000 survive being
      printed and read; 0 is printed and read as well, though there it also stands for an error. */
  lemma TimeRoundTripIff(t: int)
    requires 0 <= Gmtime(t).year <= 9999
    ensures Parsed(GmtimeStr(t)) == t <==> 0 <= t < TOO_LATE
    ensures !(0 <= t < TOO_LATE) ==> Parsed(GmtimeStr(t)) == 0
  {
    StringReadsBack(t);
    AcceptedYears(t);
    hide GmtimeStr, Parsed;
    GmtimeIsInstant(t);
    hide Gmtime, Instant, Accepted;
    LateIsPositive();
  }

  lemma GmtimeIsInstant(t: int)
    ensures Instant(Gmtime(t)) == t
  {
  }

  lemma LateIsPositive()
    ensures TOO_LATE > 0
  {
    YearsAscend(1970, 3001);
    YearLength(1970);
  }
}
