/** Structured MIME headers, parsed and printed: src/gpglib/mimegpgheader.c. */
module MimeHeaders {
  import opened Text
  import MimeText

  datatype Attribute = Attribute(name: string, value: Option<string>)
  datatype MimeHeader = MimeHeader(name: string, attrs: seq<Attribute>)

  // ----- what the parser computes -----

  function TrimRight(s: string): (r: string)
    ensures r <= s && (r == "" || !IsSpace(r[|r| - 1]))
  {
    if s != "" && IsSpace(s[|s| - 1]) then TrimRight(s[..|s| - 1]) else s
  }

  function SkipSpace(s: string): (r: string)
    ensures |r| <= |s| && (r == "" || !IsSpace(r[0]))
  {
    if s != "" && IsSpace(s[0]) then SkipSpace(s[1..]) else s
  }

  predicate EndsName(c: char, inAttribute: bool) {
    c == ';' || (c == '=' && inAttribute)
  }

  /** The text up to the character that ends a name. */
  function NamePart(s: string, inAttribute: bool): (n: string)
    ensures |n| <= |s|
  {
    if s == "" || EndsName(s[0], inAttribute) then "" else [s[0]] + NamePart(s[1..], inAttribute)
  }

  datatype Scan = Scan(value: string, rest: string)

  /** A value with its quotes and backslashes taken off, and the text behind it. */
  function Unquote(s: string, quote: bool): (u: Scan)
    ensures |u.rest| <= |s|
    decreases |s|
  {
    if s == "" || (s[0] == ';' && !quote) then Scan("", s)
    else if s[0] == '"' then Unquote(s[1..], !quote)
    else if s[0] == '\\' && |s| > 1 then
      var u := Unquote(s[2..], quote);
      Scan([s[1]] + u.value, u.rest)
    else
      var u := Unquote(s[1..], quote);
      Scan([s[0]] + u.value, u.rest)
  }

  function Behind(s: string, c: char): (r: string)
    ensures |r| <= |s| && (s != "" && s[0] == c ==> |r| < |s|)
  {
    if s != "" && s[0] == c then s[1..] else s
  }

  function ValueOf(s: string): Option<string> {
    if TrimRight(s) == "" then None else Some(TrimRight(s))
  }

  /** One attribute at the start of s, which is not empty and starts with no space. */
  function ParseOne(s: string): (r: (Attribute, string))
    requires s != "" && !IsSpace(s[0])
    ensures |r.1| < |s|
  {
    var name := NamePart(s, true);
    var u := Unquote(SkipSpace(Behind(s[|name|..], '=')), false);
    ParseOneAdvances(s);
    (Attribute(TrimRight(name), ValueOf(u.value)), Behind(u.rest, ';'))
  }

  lemma ParseOneAdvances(s: string)
    requires s != "" && !IsSpace(s[0])
    ensures var name := NamePart(s, true);
      |Behind(Unquote(SkipSpace(Behind(s[|name|..], '=')), false).rest, ';')| < |s|
  {
    var name := NamePart(s, true);
    if name == "" && s[0] == ';' {
      assert s[0..] == s;
    }
  }

  function ParseAttributes(s: string): seq<Attribute>
    decreases |s|
  {
    var t := SkipSpace(s);
    if t == "" then [] else
      var r := ParseOne(t);
      [r.0] + ParseAttributes(r.1)
  }

  function Parse(s: string): MimeHeader {
    var t := SkipSpace(s);
    var name := NamePart(t, false);
    MimeHeader(TrimRight(name), ParseAttributes(Behind(t[|name|..], ';')))
  }

  // ----- what the printer computes -----

  predicate IsSafe(c: char) {
    'a' <= c <= 'z' || 'A' <= c <= 'Z' || '0' <= c <= '9' || c == '-' || c == '_'
  }

  predicate AllSafe(s: string) {
    forall i :: 0 <= i < |s| ==> IsSafe(s[i])
  }

  function Escape(s: string): string {
    if s == "" then ""
    else (if s[0] == '"' || s[0] == '\\' then ['\\', s[0]] else [s[0]]) + Escape(s[1..])
  }

  function Quoted(v: string): string {
    if AllSafe(v) then v else "\"" + Escape(v) + "\""
  }

  function PrintOne(a: Attribute): string {
    "; " + a.name + (if a.value.Some? then "=" + Quoted(a.value.value) else "")
  }

  function PrintAttributes(attrs: seq<Attribute>): string {
    if attrs == [] then "" else PrintOne(attrs[0]) + PrintAttributes(attrs[1..])
  }

  function Print(h: MimeHeader): string {
    h.name + PrintAttributes(h.attrs)
  }

  /** A value is put in quotes exactly when it holds anything but letters, digits, dashes and underscores. */
  lemma QuotedIs(v: string)
    ensures Quoted(v) == v <==> forall i :: 0 <= i < |v| ==>
      'a' <= v[i] <= 'z' || 'A' <= v[i] <= 'Z' || '0' <= v[i] <= '9' || v[i] in "-_"
  {
    hide Escape;
    EscapeGrows(v);
  }

  lemma {:induction false} EscapeGrows(v: string)
    ensures |Escape(v)| >= |v|
  {
    if v != "" { EscapeGrows(v[1..]); }
  }

  /** In quotes, a backslash goes before each quote and each backslash. */
  lemma EscapeOne(c: char, v: string)
    ensures Escape([c] + v) == (if c == '"' then "\\\"" else if c == '\\' then "\\\\" else [c]) + Escape(v)
    ensures Escape("") == ""
  {
    assert ([c] + v)[1..] == v;
  }

  lemma QuotedExample()
    ensures Quoted("x y") == "\"x y\"" && Quoted("c") == "c"
  {
    QuotedIs("c");
    assert "x y"[1] == ' ' && !IsSafe(' ');
    EscapeOne('x', " y");
    EscapeOne(' ', "y");
    EscapeOne('y', "");
    assert ['x'] + " y" == "x y" && [' '] + "y" == " y" && ['y'] + "" == "y";
    hide Escape;
  }

  lemma PrintExample()
    ensures Print(MimeHeader("a", [Attribute("b", Some("c")), Attribute("d", Some("x y")), Attribute("e", None)]))
      == "a; b=c; d=\"x y\"; e"
  {
    var e, d, b := Attribute("e", None), Attribute("d", Some("x y")), Attribute("b", Some("c"));
    QuotedExample();
    hide Quoted;
    assert PrintOne(e) == "; e" && PrintOne(d) == "; d=\"x y\"" && PrintOne(b) == "; b=c";
    assert PrintAttributes([]) == "";
    hide PrintOne, PrintAttributes;
    PrintedOne(e, []);
    PrintedOne(d, [e]);
    PrintedOne(b, [d, e]);
    assert [b] + [d, e] == [b, d, e] && [d] + [e] == [d, e] && [e] + [] == [e];
  }

  lemma PrintedOne(a: Attribute, rest: seq<Attribute>)
    ensures PrintAttributes([a] + rest) == PrintOne(a) + PrintAttributes(rest)
  {
    assert ([a] + rest)[1..] == rest;
  }

  // ----- headers that survive -----

  predicate Trimmed(s: string) {
    s == "" || (!IsSpace(s[0]) && !IsSpace(s[|s| - 1]))
  }

  predicate GoodValue(v: Option<string>) {
    v.Some? ==> v.value != "" && !IsSpace(v.value[|v.value| - 1])
  }

  predicate GoodAttribute(a: Attribute) {
    Trimmed(a.name) && ';' !in a.name && '=' !in a.name && GoodValue(a.value)
  }

  predicate GoodAttributes(attrs: seq<Attribute>) {
    forall a :: a in attrs ==> GoodAttribute(a)
  }

  /** An attribute of which nothing is left when it is printed last. */
  predicate Vanishes(a: Attribute) {
    a.name == "" && a.value.None?
  }

  predicate WellFormed(h: MimeHeader) {
    && Trimmed(h.name) && ';' !in h.name
    && GoodAttributes(h.attrs)
    && (h.attrs != [] ==> !Vanishes(h.attrs[|h.attrs| - 1]))
  }

  // ----- parsing what was printed -----

  predicate Stops(t: string) {
    t == "" || t[0] == ';'
  }

  lemma {:induction false} NamePartStops(n: string, t: string, inAttribute: bool)
    requires ';' !in n && (inAttribute ==> '=' !in n)
    requires t == "" || EndsName(t[0], inAttribute)
    ensures NamePart(n + t, inAttribute) == n
  {
    if n == "" {
      assert n + t == t;
    } else {
      assert n[0] in n;
      assert (n + t)[1..] == n[1..] + t;
      NamePartStops(n[1..], t, inAttribute);
    }
  }

  /** A value without quotes, backslashes and semicolons is taken as it stands. */
  lemma {:induction false} UnquotePlain(v: string, t: string)
    requires Stops(t) && forall i :: 0 <= i < |v| ==> v[i] !in "\"\\;"
    ensures Unquote(v + t, false) == Scan(v, t)
  {
    if v == "" {
      assert v + t == t;
    } else {
      assert v[0] !in "\"\\;";
      assert (v + t)[0] == v[0] && (v + t)[1..] == v[1..] + t;
      UnquotePlain(v[1..], t);
      assert v == [v[0]] + v[1..];
    }
  }

  lemma UnquoteBackslash(c: char, rest: string, quote: bool)
    ensures Unquote(['\\', c] + rest, quote) == Scan([c] + Unquote(rest, quote).value, Unquote(rest, quote).rest)
  {
    assert (['\\', c] + rest)[2..] == rest;
  }

  lemma UnquoteInside(c: char, rest: string)
    requires c != '"' && c != '\\'
    ensures Unquote([c] + rest, true) == Scan([c] + Unquote(rest, true).value, Unquote(rest, true).rest)
  {
    assert ([c] + rest)[1..] == rest;
  }

  lemma UnquoteClosing(t: string)
    requires Stops(t)
    ensures Unquote(['"'] + t, true) == Scan("", t)
  {
    assert (['"'] + t)[1..] == t;
  }

  lemma {:induction false} UnquoteEscaped(v: string, t: string)
    requires Stops(t)
    ensures Unquote(Escape(v) + (['"'] + t), true) == Scan(v, t)
  {
    hide Unquote;
    if v == "" {
      assert Escape(v) + (['"'] + t) == ['"'] + t;
      UnquoteClosing(t);
    } else {
      var rest := Escape(v[1..]) + (['"'] + t);
      UnquoteEscaped(v[1..], t);
      if v[0] == '"' || v[0] == '\\' {
        assert Escape(v) + (['"'] + t) == ['\\', v[0]] + rest;
        UnquoteBackslash(v[0], rest, true);
      } else {
        assert Escape(v) + (['"'] + t) == [v[0]] + rest;
        UnquoteInside(v[0], rest);
      }
    }
  }

  lemma SafeIsPlain(v: string)
    requires AllSafe(v)
    ensures Quoted(v) == v && forall i :: 0 <= i < |v| ==> v[i] !in "\"\\;"
  {
    forall i | 0 <= i < |v| ensures v[i] !in "\"\\;" { assert IsSafe(v[i]); }
  }

  lemma UnquoteOpening(rest: string)
    ensures Unquote(['"'] + rest, false) == Unquote(rest, true)
  {
    assert (['"'] + rest)[1..] == rest;
  }

  lemma QuotedForm(v: string, t: string)
    requires !AllSafe(v)
    ensures Quoted(v) + t == ['"'] + (Escape(v) + (['"'] + t))
  {
    hide AllSafe, Escape;
    assert "\"" == ['"'];
  }

  lemma UnquoteQuoted(v: string, t: string)
    requires Stops(t)
    ensures Unquote(Quoted(v) + t, false) == Scan(v, t)
  {
    hide *;
    if AllSafe(v) {
      SafeIsPlain(v);
      UnquotePlain(v, t);
    } else {
      UnquoteEscaped(v, t);
      UnquoteOpening(Escape(v) + (['"'] + t));
      QuotedForm(v, t);
    }
  }

  lemma QuotedStartsWithNoSpace(v: string, t: string)
    requires v != ""
    ensures SkipSpace(Quoted(v) + t) == Quoted(v) + t
  {
    assert AllSafe(v) ==> IsSafe(v[0]);
  }

  lemma PrintedStops(attrs: seq<Attribute>)
    ensures Stops(PrintAttributes(attrs))
  {
  }

  lemma TrimRightOfTrimmed(s: string)
    requires s == "" || !IsSpace(s[|s| - 1])
    ensures TrimRight(s) == s
  {
  }

  /** An attribute that was printed is read back, and the text behind it is left. */
  /** An attribute without what separates it from the one before. */
  function Body(a: Attribute): string {
    a.name + (if a.value.Some? then "=" + Quoted(a.value.value) else "")
  }

  lemma ParseOnePrinted(a: Attribute, t: string)
    requires GoodAttribute(a) && Stops(t) && !(Vanishes(a) && t == "")
    ensures var s := Body(a) + t; s != "" && !IsSpace(s[0]) && ParseOne(s) == (a, Behind(t, ';'))
  {
    hide Unquote, NamePart, TrimRight, Quoted;
    var tail := (if a.value.Some? then "=" + Quoted(a.value.value) else "") + t;
    var s := a.name + (if a.value.Some? then "=" + Quoted(a.value.value) else "") + t;
    assert s == a.name + tail;
    NamePartStops(a.name, tail, true);
    TrimRightOfTrimmed(a.name);
    assert s[|a.name|..] == tail;
    if a.value.Some? {
      var v := a.value.value;
      assert tail == ['='] + (Quoted(v) + t);
      assert Behind(tail, '=') == Quoted(v) + t;
      QuotedStartsWithNoSpace(v, t);
      UnquoteQuoted(v, t);
      TrimRightOfTrimmed(v);
    } else {
      assert tail == t;
      UnquoteStops(t);
      TrimRightOfTrimmed("");
    }
  }

  lemma UnquoteStops(t: string)
    requires Stops(t)
    ensures Unquote(t, false) == Scan("", t) && SkipSpace(t) == t
  {
  }

  /** What the parser makes of printed attributes: a last attribute with neither name nor value is lost. */
  function Surviving(attrs: seq<Attribute>): seq<Attribute> {
    if attrs != [] && Vanishes(attrs[|attrs| - 1]) then attrs[..|attrs| - 1] else attrs
  }

  lemma SurvivingStep(attrs: seq<Attribute>)
    requires attrs != [] && !(|attrs| == 1 && Vanishes(attrs[0]))
    ensures Surviving(attrs) == [attrs[0]] + Surviving(attrs[1..])
  {
    assert attrs == [attrs[0]] + attrs[1..];
  }

  lemma PrintedBody(attrs: seq<Attribute>)
    requires attrs != []
    ensures Behind(PrintAttributes(attrs), ';') == [' '] + (Body(attrs[0]) + PrintAttributes(attrs[1..]))
  {
    hide Quoted;
    var t := PrintAttributes(attrs[1..]);
    assert PrintAttributes(attrs) == [';'] + ([' '] + (Body(attrs[0]) + t));
  }

  lemma ParseBody(a: Attribute, t: string)
    requires GoodAttribute(a) && Stops(t) && !(Vanishes(a) && t == "")
    ensures ParseAttributes([' '] + (Body(a) + t)) == [a] + ParseAttributes(Behind(t, ';'))
  {
    ParseOnePrinted(a, t);
    hide Body, ParseOne, Behind, GoodAttribute, Vanishes;
    assert ([' '] + (Body(a) + t))[1..] == Body(a) + t;
    assert SkipSpace([' '] + (Body(a) + t)) == Body(a) + t;
  }

  lemma {:induction false} ParsePrintedAttributes(attrs: seq<Attribute>)
    requires GoodAttributes(attrs)
    ensures ParseAttributes(Behind(PrintAttributes(attrs), ';')) == Surviving(attrs)
    decreases |attrs|
  {
    if attrs != [] {
      var a, t := attrs[0], PrintAttributes(attrs[1..]);
      PrintedBody(attrs);
      assert PrintAttributes([]) == "";
      if |attrs| == 1 && Vanishes(a) {
        assert Body(a) + t == "";
      } else {
        PrintedStops(attrs[1..]);
        assert attrs[1..] != [] ==> t != "";
        hide PrintAttributes, Body, ParseAttributes, Behind, Surviving, Quoted;
        ParseBody(a, t);
        ParsePrintedAttributes(attrs[1..]);
        SurvivingStep(attrs);
      }
    }
  }

  lemma ParsePrinted(h: MimeHeader)
    requires Trimmed(h.name) && ';' !in h.name && GoodAttributes(h.attrs)
    ensures Parse(Print(h)) == MimeHeader(h.name, Surviving(h.attrs))
  {
    var t := PrintAttributes(h.attrs);
    PrintedStops(h.attrs);
    NamePartStops(h.name, t, false);
    TrimRightOfTrimmed(h.name);
    assert (h.name + t)[|h.name|..] == t;
    assert SkipSpace(h.name + t) == h.name + t;
    ParsePrintedAttributes(h.attrs);
  }

  // ----- what the parser can produce at all -----

  lemma {:induction false} NamePartIsClean(s: string, inAttribute: bool)
    ensures var n := NamePart(s, inAttribute); n <= s && ';' !in n && (inAttribute ==> '=' !in n)
  {
    if s != "" && !EndsName(s[0], inAttribute) {
      NamePartIsClean(s[1..], inAttribute);
      assert s == [s[0]] + s[1..];
    }
  }

  lemma TrimRightOfName(s: string, inAttribute: bool)
    requires s == "" || !IsSpace(s[0])
    ensures var n := TrimRight(NamePart(s, inAttribute)); Trimmed(n) && ';' !in n && (inAttribute ==> '=' !in n)
  {
    NamePartIsClean(s, inAttribute);
    var part := NamePart(s, inAttribute);
    var n := TrimRight(part);
    assert forall c :: c in n ==> c in part;
    if n != "" { assert n[0] == part[0] == s[0]; }
  }

  lemma {:induction false} ParsedAttributesAreGood(s: string)
    ensures GoodAttributes(ParseAttributes(s))
    decreases |s|
  {
    var t := SkipSpace(s);
    if t != "" {
      TrimRightOfName(t, true);
      ParsedAttributesAreGood(ParseOne(t).1);
    }
  }

  /** A header comes back from its printed form if and only if it is well formed. */
  lemma RoundTripIff(h: MimeHeader)
    ensures Parse(Print(h)) == h <==> WellFormed(h)
  {
    var s := SkipSpace(Print(h));
    if Parse(Print(h)) == h {
      TrimRightOfName(s, false);
      ParsedAttributesAreGood(Behind(s[|NamePart(s, false)|..], ';'));
      ParsePrinted(h);
    }
    if WellFormed(h) {
      ParsePrinted(h);
    }
  }

  /** The smallest header that does not come back: one attribute with neither name nor value. */
  lemma EmptyAttributeIsLost()
    ensures var h := MimeHeader("a", [Attribute("", None)]); Parse(Print(h)) != h
  {
    RoundTripIff(MimeHeader("a", [Attribute("", None)]));
  }

  /** Parsing is stable: whatever the parser accepted, printing and parsing it again loses at most an
      empty last attribute. */
  lemma ParsedSurvives(s: string)
    ensures Parse(Print(Parse(s))) == MimeHeader(Parse(s).name, Surviving(Parse(s).attrs))
  {
    var t := SkipSpace(s);
    TrimRightOfName(t, false);
    ParsedAttributesAreGood(Behind(t[|NamePart(t, false)|..], ';'));
    ParsePrinted(Parse(s));
  }

  // ----- looking up and setting an attribute -----

  /** strcasecmp(a, b) == 0 */
  predicate SameName(a: string, b: string) {
    |a| == |b| && MimeText.Begins(a, b)
  }

  function GetAttribute(attrs: seq<Attribute>, name: string): Option<string> {
    if attrs == [] then None
    else if SameName(attrs[0].name, name) then attrs[0].value
    else GetAttribute(attrs[1..], name)
  }

  function SetAttribute(attrs: seq<Attribute>, name: string, value: Option<string>): seq<Attribute> {
    if attrs == [] then [Attribute(name, value)]
    else if SameName(attrs[0].name, name) then [attrs[0].(value := value)] + attrs[1..]
    else [attrs[0]] + SetAttribute(attrs[1..], name, value)
  }

  /** Names are the same but for the case of their letters. */
  lemma SameNameIs(a: string, b: string)
    ensures SameName(a, b) <==> |a| == |b| && forall i :: 0 <= i < |a| ==> MimeText.SameLetter(a[i], b[i])
  {
    MimeText.BeginsIs(a, b);
  }

  /** Setting changes the first attribute of that name and no other, or adds one behind all others. */
  lemma {:induction false} SetIs(attrs: seq<Attribute>, name: string, value: Option<string>)
    ensures var r := SetAttribute(attrs, name, value);
      || (r == attrs + [Attribute(name, value)] && forall a :: a in attrs ==> !SameName(a.name, name))
      || exists i :: 0 <= i < |attrs| && SetsAt(attrs, name, value, i, r)
  {
    if attrs != [] {
      var r := SetAttribute(attrs, name, value);
      if SameName(attrs[0].name, name) {
        assert SetsAt(attrs, name, value, 0, r);
      } else {
        var tail := attrs[1..];
        SetIs(tail, name, value);
        var t := SetAttribute(tail, name, value);
        assert attrs == [attrs[0]] + tail;
        if i :| 0 <= i < |tail| && SetsAt(tail, name, value, i, t) {
          assert SetsAt(attrs, name, value, i + 1, r);
        }
      }
    }
  }

  ghost predicate SetsAt(attrs: seq<Attribute>, name: string, value: Option<string>, i: nat, r: seq<Attribute>) {
    && i < |attrs| && SameName(attrs[i].name, name)
    && (forall k :: 0 <= k < i ==> !SameName(attrs[k].name, name))
    && r == attrs[i := Attribute(attrs[i].name, value)]
  }

  /** Setting one attribute is seen by every spelling of its name, and by no other name. */
  lemma {:induction false} GetAfterSet(attrs: seq<Attribute>, name: string, value: Option<string>, other: string)
    ensures GetAttribute(SetAttribute(attrs, name, value), other)
         == if SameName(name, other) then value else GetAttribute(attrs, other)
  {
    if attrs != [] {
      GetAfterSet(attrs[1..], name, value, other);
      assert SetAttribute(attrs, name, value)[1..]
          == if SameName(attrs[0].name, name) then attrs[1..] else SetAttribute(attrs[1..], name, value);
    }
  }
}
