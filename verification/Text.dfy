/** Vocabulary shared by the modules that read and write text. */
module Text {
  datatype Option<+T> = None | Some(value: T)

  /** isspace in the C locale. */
  predicate IsSpace(c: char) {
    c == ' ' || '\t' <= c <= '\r'
  }

  /** They are blank, tab, newline, vertical tab, form feed and carriage return. */
  lemma SpacesAre(c: char)
    ensures IsSpace(c) <==> c as int in {32, 9, 10, 11, 12, 13}
  {
  }

  // ----- decimal numbers -----

  predicate IsDigit(c: char) {
    '0' <= c <= '9'
  }

  function Digit(d: nat): (c: char)
    requires d < 10
    ensures IsDigit(c) && c as int - '0' as int == d
  {
    (d + '0' as int) as char
  }

  /** What printf writes for an unsigned number. */
  function Decimal(n: nat): (s: string)
    ensures s != "" && forall c :: c in s ==> IsDigit(c)
  {
    if n < 10 then [Digit(n)] else Decimal(n / 10) + [Digit(n % 10)]
  }

  /** No number but 0 begins with a zero. */
  lemma {:induction false} DecimalLeads(n: nat)
    ensures if n == 0 then Decimal(n) == "0" else Decimal(n)[0] != '0'
  {
    if n >= 10 { DecimalLeads(n / 10); }
  }

  /** The value of the digits at the start of s, continuing from v, and what follows them. */
  function ScanNumber(v: nat, s: string): (nat, string)
    decreases |s|
  {
    if s == "" || !IsDigit(s[0]) then (v, s)
    else ScanNumber(v * 10 + (s[0] as int - '0' as int), s[1..])
  }

  lemma {:induction false} ScanDecimal(n: nat, rest: string)
    ensures ScanNumber(0, Decimal(n) + rest) == ScanNumber(n, rest)
  {
    if n < 10 {
      assert (Decimal(n) + rest)[1..] == rest;
    } else {
      var last := [Digit(n % 10)] + rest;
      ScanDecimal(n / 10, last);
      assert Decimal(n) + rest == Decimal(n / 10) + last;
      assert last[1..] == rest;
    }
  }

  // ----- the first occurrence of a character -----

  /** The text before the first c, or all of it. */
  function Until(s: string, c: char): (u: string)
    ensures c !in u && |u| <= |s| && u == s[..|u|]
    ensures c in s ==> |u| < |s| && s[|u|] == c
    ensures c !in s ==> u == s
  {
    if s == "" || s[0] == c then "" else [s[0]] + Until(s[1..], c)
  }

  /** The text behind the first c, if there is one: strchr, and one step on. */
  function After(s: string, c: char): (r: Option<string>)
    ensures r.Some? <==> c in s
    ensures r.Some? ==> s == Until(s, c) + [c] + r.value
  {
    if c in s then Some(s[|Until(s, c)| + 1..]) else None
  }

  lemma {:induction false} UntilOf(a: string, c: char, b: string)
    requires c !in a
    ensures Until(a + [c] + b, c) == a && After(a + [c] + b, c) == Some(b)
    ensures Until(a, c) == a && After(a, c) == None
  {
    if a == "" {
      assert a + [c] + b == [c] + b;
    } else {
      assert a == [a[0]] + a[1..];
      UntilOf(a[1..], c, b);
      assert (a + [c] + b)[1..] == a[1..] + [c] + b;
      assert Until(a + [c] + b, c) == [a[0]] + a[1..];
    }
  }

  // ----- carriage returns -----

  function StripCR(s: string): string {
    if s == "" then "" else (if s[0] == '\r' then "" else [s[0]]) + StripCR(s[1..])
  }

  lemma {:induction false} StripCRAppend(a: string, b: string)
    ensures StripCR(a + b) == StripCR(a) + StripCR(b)
  {
    if a == "" {
      assert a + b == b;
    } else {
      StripCRAppend(a[1..], b);
      assert (a + b)[0] == a[0] && (a + b)[1..] == a[1..] + b;
      Assoc(if a[0] == '\r' then "" else [a[0]], StripCR(a[1..]), StripCR(b));
    }
  }

  lemma {:induction false} StripCRIsClean(s: string)
    ensures '\r' !in StripCR(s)
    ensures '\r' !in s ==> StripCR(s) == s
    ensures '\n' !in s ==> '\n' !in StripCR(s)
  {
    if s != "" {
      StripCRIsClean(s[1..]);
      assert s == [s[0]] + s[1..];
    }
  }

  lemma Assoc(a: string, b: string, c: string)
    ensures a + b + c == a + (b + c)
  {
  }
}
