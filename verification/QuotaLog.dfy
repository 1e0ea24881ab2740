/** The maildirsize file: a quota, and a log of what was added and taken away
    (src/maildir/maildirquota.c, src/numlib/strofft.c). */
module QuotaLog {
  import opened Text

  datatype Usage = Usage(nbytes: int, nmessages: int)

  function Plus(a: Usage, b: Usage): Usage {
    Usage(a.nbytes + b.nbytes, a.nmessages + b.nmessages)
  }

  function Sum(ds: seq<Usage>): Usage {
    if ds == [] then Usage(0, 0) else Plus(ds[0], Sum(ds[1..]))
  }

  // ----- signed numbers -----

  function Signed(t: int): string {
    if t < 0 then "-" + Decimal(-t) else Decimal(t)
  }

  /** One sscanf conversion of a signed number: its value and the text behind it. */
  function ScanSigned(s: string): Option<(int, string)> {
    if s == "" then None
    else if IsSpace(s[0]) then ScanSigned(s[1..])
    else if (s[0] == '-' || s[0] == '+') && |s| > 1 && IsDigit(s[1]) then
      var value: int := ScanNumber(0, s[1..]).0;
      Some((if s[0] == '-' then -value else value, ScanNumber(0, s[1..]).1))
    else if IsDigit(s[0]) then Some(ScanNumber(0, s))
    else None
  }

  /** libmail_str_off_t: the digits are put down from the last one backwards. */
  method StrOffT(t: int) returns (s: string)
    ensures s == Signed(t)
  {
    var n := if t < 0 then -t else t;
    ghost var whole := Decimal(n);
    s := [Digit(n % 10)];
    n := n / 10;
    while n != 0
      invariant n >= 0 && whole == (if n == 0 then s else Decimal(n) + s)
    {
      ghost var before := s;
      s := [Digit(n % 10)] + s;
      n := n / 10;
    }
    if t < 0 { s := "-" + s; }
  }

  // ----- the quota line -----

  /** parsequotastr, from one position on. */
  function QuotaFrom(s: string, q: Usage): Usage
    decreases |s|
  {
    if s == "" then q
    else if !IsDigit(s[0]) then QuotaFrom(s[1..], q)
    else
      var (v, rest) := ScanNumber(0, s);
      ScanShortens(0, s);
      QuotaFrom(rest, Limited(q, v, rest))
  }

  function Limited(q: Usage, v: nat, rest: string): Usage {
    if rest != "" && rest[0] == 'S' then q.(nbytes := v)
    else if rest != "" && rest[0] == 'C' then q.(nmessages := v)
    else q
  }

  lemma {:induction false} ScanShortens(v: nat, s: string)
    ensures |ScanNumber(v, s).1| <= |s|
    ensures s != "" && IsDigit(s[0]) ==> |ScanNumber(v, s).1| < |s|
    ensures ScanNumber(v, s).1 == s[|s| - |ScanNumber(v, s).1|..]
    decreases |s|
  {
    if s != "" && IsDigit(s[0]) { ScanShortens(v * 10 + (s[0] as int - '0' as int), s[1..]); }
  }

  method ParseQuotaString(s: string) returns (q: Usage)
    ensures q == QuotaFrom(s, Usage(0, 0))
  {
    q := Usage(0, 0);
    var i := 0;
    while i < |s|
      invariant i <= |s| && QuotaFrom(s, Usage(0, 0)) == QuotaFrom(s[i..], q)
    {
      if !IsDigit(s[i]) {
        i := i + 1;
        continue;
      }
      var v: nat, at := 0, i;
      while i < |s| && IsDigit(s[i])
        invariant at <= i <= |s| && ScanNumber(0, s[at..]) == ScanNumber(v, s[i..])
      {
        v := v * 10 + (s[i] as int - '0' as int);
        i := i + 1;
      }
      if i < |s| && s[i] == 'S' {
        q := q.(nbytes := v);
      } else if i < |s| && s[i] == 'C' {
        q := q.(nmessages := v);
      }
    }
  }

  // ----- one record of the log -----

  function Spaces(n: int): (s: string)
    ensures forall c :: c in s ==> c == ' '
  {
    if n <= 0 then "" else " " + Spaces(n - 1)
  }

  /** sprintf with a minimum width. */
  function Padded(width: nat, s: string): string {
    Spaces(width - |s|) + s
  }

  function Record(d: Usage): string {
    Padded(8, Signed(d.nbytes)) + " " + Padded(4, Signed(d.nmessages))
  }

  /** sscanf of one line; a number that is not there counts as zero. */
  function ScanRecord(line: string): Usage {
    match ScanSigned(line)
    case None => Usage(0, 0)
    case Some((n, rest)) => Usage(n, if ScanSigned(rest).Some? then ScanSigned(rest).value.0 else 0)
  }

  lemma {:induction false} ScanSpaces(n: int, s: string)
    ensures ScanSigned(Spaces(n) + s) == ScanSigned(s)
  {
    if n <= 0 {
      assert Spaces(n) + s == s;
    } else {
      ScanSpaces(n - 1, s);
      assert (Spaces(n) + s)[1..] == Spaces(n - 1) + s;
    }
  }

  lemma DigitFirst(n: nat, rest: string)
    ensures var s := Decimal(n) + rest; s != "" && IsDigit(s[0]) && !IsSpace(s[0])
  {
    assert Decimal(n)[0] in Decimal(n);
  }

  lemma ScanMinus(digits: string)
    requires digits != "" && IsDigit(digits[0])
    ensures ScanSigned("-" + digits) == Some((-(ScanNumber(0, digits).0 as int), ScanNumber(0, digits).1))
  {
    var s := "-" + digits;
    assert s[1..] == digits && s[1] == digits[0];
  }

  lemma ScanPlus(digits: string)
    requires digits != "" && IsDigit(digits[0])
    ensures ScanSigned("+" + digits) == Some((ScanNumber(0, digits).0 as int, ScanNumber(0, digits).1))
  {
    var s := "+" + digits;
    assert s[1..] == digits && s[1] == digits[0];
  }

  lemma ScanPlain(digits: string)
    requires digits != "" && IsDigit(digits[0])
    ensures ScanSigned(digits) == Some((ScanNumber(0, digits).0 as int, ScanNumber(0, digits).1))
  {
  }

  lemma ScanPrinted(t: int, rest: string)
    requires rest == "" || !IsDigit(rest[0])
    ensures ScanSigned(Signed(t) + rest) == Some((t, rest))
  {
    var n: nat := if t < 0 then -t else t;
    DigitFirst(n, rest);
    ScanDecimal(n, rest);
    assert ScanNumber(n, rest) == (n, rest);
    var digits := Decimal(n) + rest;
    assert Signed(t) + rest == if t < 0 then "-" + digits else digits by { hide Decimal; }
    hide *;
    if t < 0 { ScanMinus(digits); } else { ScanPlain(digits); }
  }

  lemma PaddedSplits(width: nat, s: string, rest: string)
    ensures Padded(width, s) + rest == Spaces(width - |s|) + (s + rest)
  {
    hide Spaces;
  }

  lemma ScanPadded(width: nat, t: int, rest: string)
    requires rest == "" || !IsDigit(rest[0])
    ensures ScanSigned(Padded(width, Signed(t)) + rest) == Some((t, rest))
  {
    hide *;
    ScanPrinted(t, rest);
    PaddedSplits(width, Signed(t), rest);
    ScanSpaces(width - |Signed(t)|, Signed(t) + rest);
  }

  /** A record is read as the change it was written for, whatever its sign and width. */
  lemma RecordReadsBack(d: Usage)
    ensures ScanRecord(Record(d)) == d && '\n' !in Record(d)
  {
    var second := Padded(4, Signed(d.nmessages));
    ScanPadded(8, d.nbytes, " " + second);
    assert Record(d) == Padded(8, Signed(d.nbytes)) + (" " + second);
    ScanPadded(4, d.nmessages, "");
    assert second + "" == second;
    assert (" " + second)[1..] == second;
  }

  // ----- the header -----

  /** The first line; a quota that is not positive is left out of it. */
  function Header(q: Usage): string {
    var size := if q.nbytes > 0 then Signed(q.nbytes) + "S" else "";
    if q.nmessages > 0 then (if size == "" then "" else size + ",") + Decimal(q.nmessages) + "C" else size
  }

  lemma HeaderExample()
    ensures Header(Usage(5, 7)) == "5S,7C" && Header(Usage(5, 0)) == "5S" && Header(Usage(0, 7)) == "7C"
    ensures Header(Usage(0, 0)) == ""
  {
    assert Decimal(5) == "5" && Decimal(7) == "7";
  }

  lemma RecordExample()
    ensures Record(Usage(-5, 7)) == "      -5" + "    7"
  {
    assert Signed(-5) == "-5" && Signed(7) == "7";
    assert Spaces(1) == " " && Spaces(2) == "  " && Spaces(3) == "   ";
    assert Spaces(4) == "    " && Spaces(5) == "     " && Spaces(6) == "      ";
  }

  lemma QuotaFromNumber(n: nat, unit: char, rest: string, q: Usage)
    requires !IsDigit(unit)
    ensures QuotaFrom(Decimal(n) + [unit] + rest, q) == QuotaFrom(rest, Limited(q, n, [unit]))
  {
    var s, tail := Decimal(n) + [unit] + rest, [unit] + rest;
    assert s == Decimal(n) + tail && tail[1..] == rest;
    assert Decimal(n)[0] in Decimal(n) && s[0] == Decimal(n)[0];
    ScanDecimal(n, tail);
    assert QuotaFrom(tail, Limited(q, n, tail)) == QuotaFrom(rest, Limited(q, n, tail));
  }

  lemma HeaderReadsBack(q: Usage)
    requires q.nbytes >= 0 && q.nmessages >= 0
    ensures QuotaFrom(Header(q), Usage(0, 0)) == q && '\n' !in Header(q)
  {
    hide Decimal;
    var none, sized := Usage(0, 0), Usage(q.nbytes, 0);
    var size, count := Decimal(q.nbytes) + "S", Decimal(q.nmessages) + "C";
    assert size + "" == size && count + "" == count;
    if q.nmessages == 0 {
      if q.nbytes > 0 { QuotaFromNumber(q.nbytes, 'S', "", none); }
    } else if q.nbytes == 0 {
      QuotaFromNumber(q.nmessages, 'C', "", none);
      assert Header(q) == count;
    } else {
      QuotaFromNumber(q.nbytes, 'S', "," + count, none);
      QuotaFromNumber(q.nmessages, 'C', "", sized);
      assert Header(q) == size + ("," + count);
      assert ("," + count)[1..] == count;
      assert QuotaFrom("," + count, sized) == QuotaFrom(count, sized);
    }
  }

  // ----- the whole file -----

  const BUFFER := 5120
  const NOTHING := Usage(0, 0)

  datatype Info = Info(quota: Usage, size: Usage, nlines: nat, recalculationNeeded: bool)

  function Rest(p: string): (rest: string)
    ensures p != "" ==> |rest| < |p|
  {
    if After(p, '\n').Some? then After(p, '\n').value else ""
  }

  function ReadRecords(p: string, size: Usage, nlines: nat): (Usage, nat)
    decreases |p|
  {
    if p == "" then (size, nlines)
    else ReadRecords(Rest(p), Plus(size, ScanRecord(Until(p, '\n'))), nlines + 1)
  }

  /** What do_maildir_openquotafile learns from the file. */
  function Opened(text: string): Info {
    if |text| >= BUFFER then Info(QuotaFrom(Until(text[..BUFFER - 1], '\n'), NOTHING), NOTHING, 0, true)
    else if text == "" then Info(NOTHING, NOTHING, 0, false)
    else
      var (size, nlines) := ReadRecords(Rest(text), NOTHING, 0);
      Info(QuotaFrom(Until(text, '\n'), NOTHING), size, nlines, false)
  }

  function Records(ds: seq<Usage>): string {
    if ds == [] then "" else Record(ds[0]) + ['\n'] + Records(ds[1..])
  }

  /** A file begun with a quota and the first count, and extended by the later changes. */
  function Log(q: Usage, ds: seq<Usage>): string {
    Header(q) + ['\n'] + Records(ds)
  }

  lemma ReadOneRecord(line: string, rest: string, size: Usage, nlines: nat)
    requires '\n' !in line
    ensures ReadRecords(line + ['\n'] + rest, size, nlines) == ReadRecords(rest, Plus(size, ScanRecord(line)), nlines + 1)
  {
    hide ScanRecord, Until, After;
    UntilOf(line, '\n', rest);
  }

  lemma NoRecords(size: Usage, nlines: nat)
    ensures ReadRecords("", size, nlines) == (size, nlines) && Records([]) == "" && Sum([]) == NOTHING
  {
  }

  lemma {:induction false} RecordsReadBack(ds: seq<Usage>, size: Usage, nlines: nat)
    ensures ReadRecords(Records(ds), size, nlines) == (Plus(size, Sum(ds)), nlines + |ds|)
  {
    hide Record, ScanRecord, ReadRecords;
    NoRecords(size, nlines);
    if ds != [] {
      RecordReadsBack(ds[0]);
      ReadOneRecord(Record(ds[0]), Records(ds[1..]), size, nlines);
      RecordsReadBack(ds[1..], Plus(size, ds[0]), nlines + 1);
      assert Plus(Plus(size, ds[0]), Sum(ds[1..])) == Plus(size, Sum(ds));
    }
  }

  lemma PlusNothing(d: Usage)
    ensures Plus(NOTHING, d) == d
  {
  }

  lemma OpenedShort(text: string, header: string, body: string)
    requires text == header + ['\n'] + body && '\n' !in header && |text| < BUFFER
    ensures Opened(text) == var r := ReadRecords(body, NOTHING, 0);
      Info(QuotaFrom(header, NOTHING), r.0, r.1, false)
  {
    hide Until, After, QuotaFrom, ReadRecords;
    UntilOf(header, '\n', body);
  }

  lemma OpenedLong(text: string, header: string, body: string)
    requires text == header + ['\n'] + body && '\n' !in header && |text| >= BUFFER && |header| < BUFFER - 1
    ensures Opened(text) == Info(QuotaFrom(header, NOTHING), NOTHING, 0, true)
  {
    hide Until, After, QuotaFrom, ReadRecords;
    var tail := body[..BUFFER - 2 - |header|];
    assert text[..BUFFER - 1] == header + ['\n'] + tail;
    UntilOf(header, '\n', tail);
  }

  /** However many changes of either sign were logged, the file reopens with the quota it was begun
      with and, while it fits the buffer, with the sum of them all; a file that has outgrown the
      buffer asks to be recalculated. */
  lemma LogReopens(q: Usage, ds: seq<Usage>)
    requires q.nbytes >= 0 && q.nmessages >= 0 && |Header(q)| < 5119
    ensures Opened(Log(q, ds)) ==
      if |Log(q, ds)| < 5120 then Info(q, Sum(ds), |ds|, false) else Info(q, NOTHING, 0, true)
  {
    HeaderReadsBack(q);
    RecordsReadBack(ds, NOTHING, 0);
    var text, header, body := Log(q, ds), Header(q), Records(ds);
    assert text == header + ['\n'] + body;
    hide *;
    if |text| < BUFFER { OpenedShort(text, header, body); } else { OpenedLong(text, header, body); }
    assert Plus(NOTHING, Sum(ds)) == Sum(ds) by { PlusNothing(Sum(ds)); }
  }

  lemma Regroup(a: string, b: string, c: string, d: string)
    ensures a + (b + c + d) == a + b + c + d
  {
  }

  lemma {:induction false} RecordsAppend(ds: seq<Usage>, d: Usage)
    ensures Records(ds + [d]) == Records(ds) + Record(d) + ['\n']
    ensures Sum(ds + [d]) == Plus(Sum(ds), d)
  {
    hide Record;
    if ds == [] {
      assert ds + [d] == [d];
    } else {
      RecordsAppend(ds[1..], d);
      assert (ds + [d])[1..] == ds[1..] + [d];
      Regroup(Record(ds[0]) + ['\n'], Records(ds[1..]), Record(d), ['\n']);
    }
  }

  lemma LogAppend(q: Usage, ds: seq<Usage>, d: Usage)
    ensures Log(q, ds + [d]) == Log(q, ds) + (Padded(8, Signed(d.nbytes)) + " " + Padded(4, Signed(d.nmessages))) + ['\n']
  {
    assert Record(d) == Padded(8, Signed(d.nbytes)) + " " + Padded(4, Signed(d.nmessages));
    hide Record, Header, Padded;
    RecordsAppend(ds, d);
    hide Records;
    Regroup(Header(q) + ['\n'], Records(ds), Record(d), ['\n']);
  }

  lemma LogOfOne(q: Usage, d: Usage)
    ensures Log(q, [d]) == Header(q) + ['\n'] + (Record(d) + ['\n'])
  {
    hide Record, Header;
    assert Records([d]) == Record(d) + ['\n'] + Records([]);
    assert Record(d) + ['\n'] + "" == Record(d) + ['\n'];
  }

  class MaildirSize {
    var file: string
    var info: Info
    ghost var logged: seq<Usage>

    /** The file holds the quota and everything logged since it was begun. */
    ghost predicate Valid()
      reads this
    {
      info.quota.nbytes >= 0 && info.quota.nmessages >= 0 && file == Log(info.quota, logged)
    }

    constructor (text: string)
      ensures file == text && info == Info(NOTHING, NOTHING, 0, false)
    {
      file, info := text, Info(NOTHING, NOTHING, 0, false);
    }

    /** do_maildir_openquotafile on an existing file. */
    method Open()
      modifies this`info
      ensures info == Opened(file)
    {
      hide Until, After, QuotaFrom;
      var buf := if |file| < BUFFER then file else file[..BUFFER];
      if |buf| == BUFFER {
        var quota := ParseQuotaString(Until(buf[..BUFFER - 1], '\n'));
        assert buf[..BUFFER - 1] == file[..BUFFER - 1];
        info := Info(quota, NOTHING, 0, true);
        return;
      }
      var quota, size, nlines := NOTHING, NOTHING, 0;
      var p, first := buf, true;
      while p != ""
        invariant first ==> p == buf && quota == size == NOTHING && nlines == 0
        invariant !first ==> buf != "" && quota == QuotaFrom(Until(buf, '\n'), NOTHING)
        invariant !first ==> ReadRecords(Rest(buf), NOTHING, 0) == ReadRecords(p, size, nlines)
        decreases |p|
      {
        var q := Until(p, '\n');
        p := Rest(p);
        if first {
          quota := ParseQuotaString(q);
          first := false;
          continue;
        }
        size := Plus(size, ScanRecord(q));
        nlines := nlines + 1;
      }
      info := Info(quota, size, nlines, false);
    }

    /** doaddquota on the open file. */
    method Add(d: Usage)
      requires Valid()
      modifies this`file, this`logged
      ensures Valid() && logged == old(logged) + [d]
    {
      var n := StrOffT(d.nbytes);
      var c := StrOffT(d.nmessages);
      LogAppend(info.quota, logged, d);
      file := file + (Padded(8, n) + " " + Padded(4, c)) + ['\n'];
      hide *;
      logged := logged + [d];
    }

    /** The end of docheckquota: a new file takes the place of the old one. */
    method Recalculate(count: Usage)
      requires info.quota.nbytes >= 0 && info.quota.nmessages >= 0
      modifies this
      ensures Valid() && logged == [count] && info == Info(old(info.quota), count, 1, false)
    {
      var header := "";
      if info.quota.nbytes > 0 {
        var n := StrOffT(info.quota.nbytes);
        header := header + n + "S";
      }
      if info.quota.nmessages > 0 {
        if header != "" { header := header + ","; }
        header := header + Decimal(info.quota.nmessages) + "C";
      }
      var n := StrOffT(count.nbytes);
      var c := StrOffT(count.nmessages);
      assert header == Header(info.quota);
      hide Header;
      file := header + ['\n'] + (Padded(8, n) + " " + Padded(4, c) + ['\n']);
      LogOfOne(info.quota, count);
      info := Info(info.quota, count, 1, false);
      logged := [count];
    }

    /** Opening the file again gives back what was logged. */
    lemma Reopens()
      requires Valid() && |Header(info.quota)| < 5119
      ensures Opened(file) == if |file| < 5120 then Info(info.quota, Sum(logged), |logged|, false)
        else Info(info.quota, NOTHING, 0, true)
    {
      LogReopens(info.quota, logged);
    }
  }

  // ----- comparing with the quota -----

  /** C's division, which rounds toward zero. */
  function TruncDiv(a: int, b: int): int
    requires b > 0
  {
    if a >= 0 then a / b else -((-a) / b)
  }

  /** checkOneQuota: whether the size fits, and the percentage it takes up. */
  function CheckOne(size: int, quota: int): (bool, int) {
    if quota == 0 then (true, 0)
    else if size > quota then (false, 100)
    else
      var x := if quota > 20000000 then 1024 else 1;
      (true, if quota > 0 then TruncDiv(TruncDiv(size, x) * 100, quota / x) else 0)
  }

  lemma DivOrder(a: int, b: int, n: int)
    requires n > 0 && a <= b
    ensures a / n <= b / n
  {
    var p, q := a / n, b / n;
    assert n * p <= a && b < n * q + n;
    assert n * (p - q) < n;
    assert p - q >= 1 ==> n * (p - q) >= n;
  }

  lemma TruncDivOrder(a: int, b: int, n: int)
    requires n > 0 && a <= b
    ensures TruncDiv(a, n) <= TruncDiv(b, n)
  {
    if a >= 0 {
      DivOrder(a, b, n);
    } else if b < 0 {
      DivOrder(-b, -a, n);
    } else {
      DivOrder(0, -a, n);
      DivOrder(0, b, n);
    }
  }

  /** The percentage never falls as the size grows, and reaches 100 at the quota. */
  lemma CheckOneOrder(a: int, b: int, quota: int)
    requires a <= b && quota >= 0
    ensures CheckOne(a, quota).1 <= CheckOne(b, quota).1 <= 100
    ensures CheckOne(a, quota).0 <==> quota == 0 || a <= quota
    ensures a >= 0 ==> CheckOne(a, quota).1 >= 0
    ensures quota > 0 ==> CheckOne(quota, quota).1 == 100
  {
    if quota > 0 {
      PercentOrder(0, quota, quota);
      if a <= quota { PercentOrder(a, quota, quota); }
      if b <= quota {
        PercentOrder(a, b, quota);
        PercentOrder(b, quota, quota);
      }
      if 0 <= a <= quota { PercentOrder(0, a, quota); }
    }
  }

  lemma DivBounds(a: int, n: int)
    requires n > 0
    ensures n * (a / n) <= a < n * (a / n + 1)
  {
  }

  lemma Scaled(n: int, a: int, b: int)
    requires n > 0 && a < b
    ensures n * a + n <= n * b
  {
    var k := b - a - 1;
    assert n * k >= 0 && n * b == n * a + n + n * k;
  }

  lemma QuotientIsUnique(n: int, v: int, a: int, b: int)
    requires n > 0 && n * a <= v < n * (a + 1) && n * b <= v < n * (b + 1)
    ensures a <= b
  {
    assert n * (b + 1) == n * b + n;
    if b < a { Scaled(n, b, a); }
  }

  lemma AllOfIt(q: int)
    requires q > 0
    ensures TruncDiv(q * 100, q) == 100 && TruncDiv(0, q) == 0
  {
    var p := q * 100 / q;
    DivBounds(q * 100, q);
    assert q * (100 + 1) == q * 100 + q;
    QuotientIsUnique(q, q * 100, p, 100);
    QuotientIsUnique(q, q * 100, 100, p);
  }

  lemma PercentOrder(a: int, b: int, quota: int)
    requires a <= b <= quota && quota > 0
    ensures CheckOne(a, quota).1 <= CheckOne(b, quota).1
    ensures CheckOne(quota, quota).1 == 100
    ensures b >= 0 && a == 0 ==> CheckOne(a, quota).1 == 0
  {
    var x := if quota > 20000000 then 1024 else 1;
    var q := quota / x;
    assert TruncDiv(quota, x) == q && q > 0;
    TruncDivOrder(a, b, x);
    TruncDivOrder(TruncDiv(a, x) * 100, TruncDiv(b, x) * 100, q);
    AllOfIt(q);
    assert a == 0 ==> TruncDiv(a, x) == 0;
    hide TruncDiv;
  }

  /** p is the percentage of the quota q that s takes up, both counted in units of 1024 if the quota is large,
      and rounded toward zero. Without a quota it is 0. */
  predicate Share(s: int, q: nat, p: int) {
    if q == 0 then p == 0
    else
      var x := if q > 20000000 then 1024 else 1;
      if s >= 0 then q / x * p <= s / x * 100 < q / x * (p + 1)
      else q / x * -p <= -s / x * 100 < q / x * (1 - p)
  }

  lemma NegatedDiv(m: int, n: nat)
    requires n > 0 && m >= 0
    ensures TruncDiv(-m * 100, n) == -(m * 100 / n)
  {
    assert -m * 100 == -(m * 100);
    if m == 0 { assert 0 / n == 0; }
  }

  lemma CheckOneIsShare(s: int, q: nat)
    requires q == 0 || s <= q
    ensures Share(s, q, CheckOne(s, q).1)
  {
    if q > 0 {
      var x := if q > 20000000 then 1024 else 1;
      assert q / x > 0;
      if s >= 0 {
        DivBounds(s / x * 100, q / x);
      } else {
        assert TruncDiv(s, x) == -(-s / x);
        NegatedDiv(-s / x, q / x);
        DivBounds(-s / x * 100, q / x);
      }
    }
  }

  lemma ShareIsUnique(s: int, q: nat, p: int, p': int)
    requires Share(s, q, p) && Share(s, q, p')
    ensures p == p'
  {
    if q > 0 {
      var x := if q > 20000000 then 1024 else 1;
      var v := (if s >= 0 then s else -s) / x * 100;
      var a, b := if s >= 0 then p else -p, if s >= 0 then p' else -p';
      assert q / x > 0;
      QuotientIsUnique(q / x, v, a, b);
      QuotientIsUnique(q / x, v, b, a);
    }
  }

  /** checkQuota: both limits must hold, and the greater percentage counts. */
  method CheckQuota(size: Usage, quota: Usage) returns (fits: bool, percentage: int)
    requires quota.nbytes >= 0 && quota.nmessages >= 0
    ensures fits <==> ((quota.nbytes == 0 || size.nbytes <= quota.nbytes)
                       && (quota.nmessages == 0 || size.nmessages <= quota.nmessages))
    ensures percentage <= 100 && (!fits ==> percentage == 100)
    ensures fits ==> exists b, n ::
      Share(size.nbytes, quota.nbytes, b) && Share(size.nmessages, quota.nmessages, n) && percentage == if b < n then n else b
  {
    var (bFits, b) := CheckOne(size.nbytes, quota.nbytes);
    var (nFits, n) := CheckOne(size.nmessages, quota.nmessages);
    CheckOneOrder(size.nbytes, size.nbytes, quota.nbytes);
    CheckOneOrder(size.nmessages, size.nmessages, quota.nmessages);
    if !bFits || !nFits { return false, 100; }
    CheckOneIsShare(size.nbytes, quota.nbytes);
    CheckOneIsShare(size.nmessages, quota.nmessages);
    hide CheckOne, Share;
    return true, if b < n then n else b;
  }
}
