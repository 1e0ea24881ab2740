/** The loops of src/gpglib/mimegpgheader.c, proved against the functions of module MimeHeaders. */
module MimeHeaderLoops {
  import opened Text
  import opened MimeHeaders

  /** striptrlspc: q is one past the last character that is no space. */
  method StripTrailingSpace(s: string) returns (r: string)
    ensures r == TrimRight(s)
  {
    var q, p := 0, 0;
    while p < |s|
      invariant q <= p <= |s| && s[..q] == TrimRight(s[..p])
    {
      assert s[..p + 1][..p] == s[..p];
      if !IsSpace(s[p]) {
        q := p + 1;
      }
      p := p + 1;
    }
    assert s[..p] == s;
    r := s[..q];
  }

  /** The position after the spaces that start at from. */
  ghost predicate SpacesEndAt(s: string, from: nat, p: nat) {
    from <= p <= |s| && s[p..] == SkipSpace(s[from..])
  }

  /** The position where the name that starts at from ends. */
  ghost predicate NameEndsAt(s: string, from: nat, p: nat, inAttribute: bool) {
    from <= p <= |s| && s[from..p] == NamePart(s[from..], inAttribute)
  }

  /** The value that starts at from, and the position where it ends. */
  ghost predicate ValueEndsAt(s: string, from: nat, value: string, p: nat) {
    from <= p <= |s| && Unquote(s[from..], false) == Scan(value, s[p..])
  }

  /** The attribute that starts at from, and the position of the semicolon behind it, if there is one. */
  ghost predicate AttributeEndsAt(s: string, from: nat, a: Attribute, p: nat) {
    && from < |s| && !IsSpace(s[from]) && from <= p <= |s|
    && ParseOne(s[from..]) == (a, Behind(s[p..], ';'))
  }

  method SkipSpaces(s: string, from: nat) returns (p: nat)
    requires from <= |s|
    ensures from <= p <= |s| && SpacesEndAt(s, from, p)
  {
    p := from;
    while p < |s| && IsSpace(s[p])
      invariant from <= p <= |s| && SkipSpace(s[p..]) == SkipSpace(s[from..])
    {
      assert s[p..][1..] == s[p + 1..];
      p := p + 1;
    }
  }

  /** The name that starts at from reaches at least to p. */
  ghost predicate NameReaches(s: string, from: nat, p: nat, inAttribute: bool) {
    from <= p <= |s| && NamePart(s[from..], inAttribute) == s[from..p] + NamePart(s[p..], inAttribute)
  }

  lemma NameReachesOn(s: string, from: nat, p: nat, inAttribute: bool)
    requires NameReaches(s, from, p, inAttribute) && p < |s| && !EndsName(s[p], inAttribute)
    ensures NameReaches(s, from, p + 1, inAttribute)
  {
    assert s[p..][1..] == s[p + 1..];
    var rest := NamePart(s[p + 1..], inAttribute);
    assert s[from..p] + ([s[p]] + rest) == s[from..p + 1] + rest;
  }

  lemma NameStops(s: string, from: nat, p: nat, inAttribute: bool)
    requires NameReaches(s, from, p, inAttribute) && (p == |s| || EndsName(s[p], inAttribute))
    ensures NameEndsAt(s, from, p, inAttribute)
  {
    assert s[from..p] + "" == s[from..p];
  }

  method FindNameEnd(s: string, from: nat, inAttribute: bool) returns (p: nat)
    requires from <= |s|
    ensures from <= p <= |s| && NameEndsAt(s, from, p, inAttribute)
  {
    p := from;
    assert NameReaches(s, from, from, inAttribute) by {
      assert s[from..from] + NamePart(s[from..], inAttribute) == NamePart(s[from..], inAttribute);
    }
    hide NamePart, NameReaches, NameEndsAt;
    while p < |s| && !EndsName(s[p], inAttribute)
      invariant from <= p <= |s| && NameReaches(s, from, p, inAttribute)
    {
      NameReachesOn(s, from, p, inAttribute);
      p := p + 1;
    }
    NameStops(s, from, p, inAttribute);
  }

  /** The state of a pass at position p: len characters of the value have been seen. */
  ghost predicate Scanning(s: string, from: nat, p: nat, quote: bool, len: nat) {
    && from <= p <= |s|
    && len <= |Unquote(s[from..], false).value|
    && Unquote(s[p..], quote) == Scan(Unquote(s[from..], false).value[len..], Unquote(s[from..], false).rest)
  }

  lemma ScanQuote(s: string, from: nat, p: nat, quote: bool, len: nat)
    requires Scanning(s, from, p, quote, len) && p < |s| && s[p] == '"'
    ensures Scanning(s, from, p + 1, !quote, len)
  {
    assert s[p..][1..] == s[p + 1..];
  }

  lemma ScanCharacter(s: string, from: nat, p: nat, quote: bool, len: nat)
    requires Scanning(s, from, p, quote, len) && p < |s| && s[p] != '"' && (s[p] != ';' || quote)
    ensures var q := if s[p] == '\\' && p + 1 < |s| then p + 1 else p;
      && len < |Unquote(s[from..], false).value| && Unquote(s[from..], false).value[len] == s[q]
      && Scanning(s, from, q + 1, quote, len + 1)
  {
    var q := if s[p] == '\\' && p + 1 < |s| then p + 1 else p;
    var t, v := s[p..], Unquote(s[from..], false).value;
    assert t[1..] == s[p + 1..];
    assert q > p ==> t[2..] == s[p + 2..];
    assert v[len..] == [s[q]] + Unquote(s[q + 1..], quote).value;
    assert v[len..][1..] == v[len + 1..];
  }

  lemma ScanEnd(s: string, from: nat, p: nat, quote: bool, len: nat)
    requires Scanning(s, from, p, quote, len) && (p == |s| || (s[p] == ';' && !quote))
    ensures len == |Unquote(s[from..], false).value| && s[p..] == Unquote(s[from..], false).rest
  {
  }

  /** One pass over a value. The first pass only counts; the second fills a buffer of the length counted. */
  method ValuePass(s: string, from: nat, fill: bool, buf: array<char>) returns (len: nat, p: nat)
    requires from <= |s|
    requires fill ==> buf.Length == |Unquote(s[from..], false).value| + 1
    modifies buf
    ensures from <= p <= |s| && s[p..] == Unquote(s[from..], false).rest
    ensures len == |Unquote(s[from..], false).value|
    ensures fill ==> buf[..len] == Unquote(s[from..], false).value
  {
    hide Unquote;
    ghost var v := Unquote(s[from..], false).value;
    var quote := false;
    len, p := 0, from;
    while p < |s| && !(s[p] == ';' && !quote)
      invariant Scanning(s, from, p, quote, len)
      invariant fill ==> buf[..len] == v[..len]
    {
      if s[p] == '"' {
        ScanQuote(s, from, p, quote, len);
        quote := !quote;
        p := p + 1;
        continue;
      }
      ScanCharacter(s, from, p, quote, len);
      if s[p] == '\\' && p + 1 < |s| {
        p := p + 1;
      }
      if fill {
        buf[len] := s[p];
        assert buf[..len + 1] == v[..len] + [v[len]] == v[..len + 1];
      }
      len := len + 1;
      p := p + 1;
    }
    ScanEnd(s, from, p, quote, len);
    assert v[..len] == v;
  }

  /** The two passes: no write falls outside the buffer, and the terminator takes its last place. */
  method ReadValue(s: string, from: nat) returns (value: string, p: nat)
    requires from <= |s|
    ensures from <= p <= |s| && ValueEndsAt(s, from, value, p)
  {
    var none := new char[0];
    var len, _ := ValuePass(s, from, false, none);
    var buf := new char[len + 1];
    len, p := ValuePass(s, from, true, buf);
    buf[len] := '\0';
    value := buf[..len];
  }

  /** The state of the parser at position pos. */
  ghost predicate Parsing(field: string, pos: nat, name: Option<string>, attrs: seq<Attribute>) {
    && pos <= |field|
    && if name.None? then attrs == [] && Parse(field[pos..]) == Parse(field)
       else Parse(field) == MimeHeader(name.value, attrs + ParseAttributes(field[pos..]))
  }

  /** The same, before a semicolon at that position has been passed. */
  ghost predicate BeforeSemicolon(field: string, pos: nat, name: string, attrs: seq<Attribute>) {
    pos <= |field| && Parse(field) == MimeHeader(name, attrs + ParseAttributes(Behind(field[pos..], ';')))
  }

  lemma ParsePastSpace(field: string, pos: nat, name: Option<string>, attrs: seq<Attribute>)
    requires Parsing(field, pos, name, attrs) && pos < |field| && IsSpace(field[pos])
    ensures Parsing(field, pos + 1, name, attrs)
  {
    assert field[pos..][1..] == field[pos + 1..];
  }

  lemma ParsePastName(field: string, pos: nat, p: nat)
    requires Parsing(field, pos, None, []) && (pos == |field| || !IsSpace(field[pos]))
    requires NameEndsAt(field, pos, p, false)
    ensures BeforeSemicolon(field, p, TrimRight(field[pos..p]), [])
  {
    hide ParseAttributes, TrimRight, Behind;
    ParseUnspaced(field[pos..]);
    assert field[pos..][p - pos..] == field[p..];
    NothingBefore(ParseAttributes(Behind(field[p..], ';')));
  }

  lemma ParseUnspaced(s: string)
    requires s == "" || !IsSpace(s[0])
    ensures Parse(s) == MimeHeader(TrimRight(NamePart(s, false)), ParseAttributes(Behind(s[|NamePart(s, false)|..], ';')))
  {
  }

  lemma NothingBefore(attrs: seq<Attribute>)
    ensures [] + attrs == attrs
  {
  }

  lemma ParsePastAttribute(field: string, pos: nat, name: string, attrs: seq<Attribute>, a: Attribute, p: nat)
    requires Parsing(field, pos, Some(name), attrs) && AttributeEndsAt(field, pos, a, p)
    ensures BeforeSemicolon(field, p, name, attrs + [a])
  {
    hide ParseOne;
    assert SkipSpace(field[pos..]) == field[pos..];
    assert attrs + ([a] + ParseAttributes(Behind(field[p..], ';'))) == attrs + [a] + ParseAttributes(Behind(field[p..], ';'));
  }

  lemma ParsePastSemicolon(field: string, pos: nat, name: string, attrs: seq<Attribute>)
    requires BeforeSemicolon(field, pos, name, attrs)
    ensures Parsing(field, if pos < |field| && field[pos] == ';' then pos + 1 else pos, Some(name), attrs)
  {
    if pos < |field| { assert field[pos..][1..] == field[pos + 1..]; }
  }

  lemma ParsedAll(field: string, name: string, attrs: seq<Attribute>)
    requires Parsing(field, |field|, Some(name), attrs)
    ensures Parse(field) == MimeHeader(name, attrs)
  {
    assert field[|field|..] == "" && attrs + [] == attrs;
  }

  lemma StartParsing(field: string)
    ensures Parsing(field, 0, None, [])
  {
    assert field[0..] == field;
  }

  /** The part of the loop that takes the text before the first semicolon as the header's name. */
  method ParseName(field: string, pos: nat, p: nat) returns (name: string)
    requires Parsing(field, pos, None, []) && (pos == |field| || !IsSpace(field[pos]))
    requires pos <= p <= |field| && NameEndsAt(field, pos, p, false)
    ensures BeforeSemicolon(field, p, name, [])
  {
    ParsePastName(field, pos, p);
    hide Parsing, BeforeSemicolon, NameEndsAt, TrimRight;
    name := StripTrailingSpace(field[pos..p]);
  }

  /** parse_mime_header */
  method ParseMimeHeader(field: string) returns (h: MimeHeader)
    ensures h == Parse(field)
  {
    hide Parse, ParseAttributes, ParseOne, NamePart, TrimRight;
    var name: Option<string> := None;
    var attrs: seq<Attribute> := [];
    var pos := 0;
    StartParsing(field);
    hide Parsing, BeforeSemicolon, NameEndsAt, AttributeEndsAt;
    while pos < |field| || name.None?
      invariant pos <= |field| && Parsing(field, pos, name, attrs)
      invariant name.None? ==> attrs == []
      decreases name.None?, |field| - pos
    {
      if pos < |field| && IsSpace(field[pos]) {
        ParsePastSpace(field, pos, name, attrs);
        pos := pos + 1;
        continue;
      }
      var p := FindNameEnd(field, pos, name.Some?);
      if name.None? {
        var parsed := ParseName(field, pos, p);
        name := Some(parsed);
        pos := p;
      } else {
        var a, q := ParseAttribute(field, pos, p);
        ParsePastAttribute(field, pos, name.value, attrs, a, q);
        attrs := attrs + [a];
        pos := q;
      }
      ParsePastSemicolon(field, pos, name.value, attrs);
      if pos < |field| && field[pos] == ';' {
        pos := pos + 1;
      }
    }
    ParsedAll(field, name.value, attrs);
    h := MimeHeader(name.value, attrs);
  }

  /** The part of the loop that adds an attribute whose name ends at p. */
  method ParseAttribute(field: string, pos: nat, end: nat) returns (a: Attribute, p: nat)
    requires pos < |field| && !IsSpace(field[pos]) && pos <= end <= |field| && NameEndsAt(field, pos, end, true)
    ensures pos <= p <= |field| && AttributeEndsAt(field, pos, a, p)
    ensures pos < p || field[p] == ';'
  {
    hide Unquote, NamePart, TrimRight, SkipSpace, NameEndsAt, SpacesEndAt, ValueEndsAt, AttributeEndsAt;
    var name := StripTrailingSpace(field[pos..end]);
    p := end;
    if p < |field| && field[p] == '=' {
      p := p + 1;
    }
    ghost var equals := p;
    p := SkipSpaces(field, p);
    ghost var start := p;
    var value;
    value, p := ReadValue(field, p);
    var stripped := StripTrailingSpace(value);
    a := Attribute(name, if stripped == "" then None else Some(stripped));
    AttributeParts(field, pos, end, equals, start, value, p);
  }

  lemma AttributeParts(field: string, pos: nat, end: nat, equals: nat, start: nat, value: string, p: nat)
    requires pos < |field| && !IsSpace(field[pos])
    requires NameEndsAt(field, pos, end, true) && SpacesEndAt(field, equals, start) && ValueEndsAt(field, start, value, p)
    requires equals == if end < |field| && field[end] == '=' then end + 1 else end
    ensures AttributeEndsAt(field, pos, Attribute(TrimRight(field[pos..end]), ValueOf(value)), p)
    ensures pos < p || field[p] == ';'
  {
    hide Unquote, TrimRight, SkipSpace;
    assert field[pos..][end - pos..] == field[end..];
    if end < |field| { assert field[end..][1..] == field[end + 1..]; }
    assert Behind(field[end..], '=') == field[equals..];
  }

  /** print_mime_header */
  method PrintMimeHeader(h: MimeHeader) returns (f: string)
    ensures f == Print(h)
  {
    f := h.name;
    var a := 0;
    assert h.attrs[0..] == h.attrs;
    while a < |h.attrs|
      invariant a <= |h.attrs|
      invariant Print(h) == f + PrintAttributes(h.attrs[a..])
    {
      var attr := h.attrs[a];
      assert h.attrs[a..][1..] == h.attrs[a + 1..];
      var printed := PrintAttribute(attr);
      assert f + (printed + PrintAttributes(h.attrs[a + 1..])) == f + printed + PrintAttributes(h.attrs[a + 1..]);
      f := f + printed;
      a := a + 1;
    }
  }

  method PrintAttribute(a: Attribute) returns (f: string)
    ensures f == PrintOne(a)
  {
    f := "; " + a.name + (if a.value.Some? then "=" else "");
    if a.value.None? {
      return;
    }
    var v := a.value.value;
    var p := 0;
    while p < |v| && IsSafe(v[p])
      invariant p <= |v| && forall k :: 0 <= k < p ==> IsSafe(v[k])
    {
      p := p + 1;
    }
    if p == |v| {
      return f + v;
    }
    var escaped := EscapeValue(v);
    return f + "\"" + escaped + "\"";
  }

  lemma {:induction false} EscapeOneMore(v: string, c: char)
    ensures Escape(v + [c]) == Escape(v) + (if c == '"' || c == '\\' then ['\\', c] else [c])
  {
    if v == "" {
      assert v + [c] == [c];
      assert Escape([]) == "";
    } else {
      assert (v + [c])[1..] == v[1..] + [c];
      EscapeOneMore(v[1..], c);
    }
  }

  method EscapeValue(v: string) returns (e: string)
    ensures e == Escape(v)
  {
    hide Escape;
    e := "";
    EscapeNothing();
    for p := 0 to |v|
      invariant e == Escape(v[..p])
    {
      EscapeOneMore(v[..p], v[p]);
      assert v[..p + 1] == v[..p] + [v[p]];
      if v[p] == '"' || v[p] == '\\' {
        e := e + ['\\'] + [v[p]];
        assert ['\\', v[p]] == ['\\'] + [v[p]];
      } else {
        e := e + [v[p]];
      }
    }
    assert v[..|v|] == v;
  }

  lemma EscapeNothing()
    ensures Escape("") == ""
  {
  }

  /** get_mime_attr */
  method GetMimeAttr(m: MimeHeader, name: string) returns (value: Option<string>)
    ensures value == GetAttribute(m.attrs, name)
  {
    var a := 0;
    assert m.attrs[0..] == m.attrs;
    while a < |m.attrs|
      invariant a <= |m.attrs| && GetAttribute(m.attrs[a..], name) == GetAttribute(m.attrs, name)
    {
      if SameName(m.attrs[a].name, name) {
        return m.attrs[a].value;
      }
      assert m.attrs[a..][1..] == m.attrs[a + 1..];
      a := a + 1;
    }
    return None;
  }

  /** No attribute before a has the name, so setting it changes only what comes from a on. */
  ghost predicate SetsFrom(attrs: seq<Attribute>, name: string, value: Option<string>, a: nat) {
    a <= |attrs| && SetAttribute(attrs, name, value) == attrs[..a] + SetAttribute(attrs[a..], name, value)
  }

  lemma SetsFromStart(attrs: seq<Attribute>, name: string, value: Option<string>)
    ensures SetsFrom(attrs, name, value, 0)
  {
    assert attrs[0..] == attrs;
  }

  lemma SetsFromNext(attrs: seq<Attribute>, name: string, value: Option<string>, a: nat)
    requires SetsFrom(attrs, name, value, a) && a < |attrs| && !SameName(attrs[a].name, name)
    ensures SetsFrom(attrs, name, value, a + 1)
  {
    assert attrs[a..][1..] == attrs[a + 1..];
    assert attrs[..a] + ([attrs[a]] + SetAttribute(attrs[a + 1..], name, value))
        == attrs[..a + 1] + SetAttribute(attrs[a + 1..], name, value);
  }

  lemma SetsHere(attrs: seq<Attribute>, name: string, value: Option<string>, a: nat)
    requires SetsFrom(attrs, name, value, a) && (a == |attrs| || SameName(attrs[a].name, name))
    ensures SetAttribute(attrs, name, value)
         == if a == |attrs| then attrs + [Attribute(name, value)] else attrs[a := attrs[a].(value := value)]
  {
    if a < |attrs| {
      assert attrs[a..][1..] == attrs[a + 1..];
      assert attrs[a := attrs[a].(value := value)] == attrs[..a] + ([attrs[a].(value := value)] + attrs[a + 1..]);
    } else {
      assert attrs[..a] == attrs;
    }
  }

  /** set_mime_attr */
  method SetMimeAttr(m: MimeHeader, name: string, value: Option<string>) returns (r: MimeHeader)
    ensures r == m.(attrs := SetAttribute(m.attrs, name, value))
  {
    hide SetAttribute, SetsFrom;
    var a := 0;
    SetsFromStart(m.attrs, name, value);
    while a < |m.attrs|
      invariant a <= |m.attrs| && SetsFrom(m.attrs, name, value, a)
    {
      if SameName(m.attrs[a].name, name) {
        SetsHere(m.attrs, name, value, a);
        return m.(attrs := m.attrs[a := m.attrs[a].(value := value)]);
      }
      SetsFromNext(m.attrs, name, value, a);
      a := a + 1;
    }
    SetsHere(m.attrs, name, value, a);
    r := m.(attrs := m.attrs + [Attribute(name, value)]);
  }
}
