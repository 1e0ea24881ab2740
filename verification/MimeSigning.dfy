/** Signing a message part and rebuilding the signed bytes: dogpgsign and checksign of
    src/gpglib/mimegpg.c (section 5 of RFC 3156). */
module MimeSigning {
  import opened Text
  import opened MimeText

  // ----- the signer -----

  /** encode_header */
  predicate IsContentHeader(h: string) {
    Begins("content-", h)
  }

  /** The name of the header begins with "content-" in any mixture of cases. */
  predicate NamedContent(h: string) {
    |h| >= 8 && forall i :: 0 <= i < 8 ==> h[i] == "content-"[i] || h[i] == "CONTENT-"[i]
  }

  lemma ContentHeaderIs(h: string)
    ensures IsContentHeader(h) <==> NamedContent(h)
  {
    BeginsIs("content-", h);
    if |h| >= 8 {
      forall i | 0 <= i < 8
        ensures SameLetter("content-"[i], h[i]) <==> h[i] == "content-"[i] || h[i] == "CONTENT-"[i]
      {
        assert i in {0, 1, 2, 3, 4, 5, 6, 7};
      }
    }
    hide SameLetter;
  }

  /** The canonical form of the content headers, in their order. */
  function SignedHeaders(headers: seq<string>): string {
    if headers == [] then ""
    else (if NamedContent(headers[0]) then Canonical(headers[0]) else "") + SignedHeaders(headers[1..])
  }

  lemma {:induction false} SignedHeadersAppend(hs: seq<string>, h: string)
    ensures SignedHeaders(hs + [h]) == SignedHeaders(hs) + (if NamedContent(h) then Canonical(h) else "")
  {
    hide Canonical, NamedContent;
    var last := if NamedContent(h) then Canonical(h) else "";
    if hs == [] {
      assert [] + [h] == [h] && [h][1..] == [] && last + "" == last && "" + last == last;
    } else {
      assert (hs + [h])[1..] == hs[1..] + [h];
      SignedHeadersAppend(hs[1..], h);
      Assoc(if NamedContent(hs[0]) then Canonical(hs[0]) else "", SignedHeaders(hs[1..]), last);
    }
  }

  lemma {:induction false} SignedHeadersIs(headers: seq<string>)
    ensures ToCRLF(ContentHeaders(headers)) == SignedHeaders(headers)
  {
    if headers != [] {
      var init, h := headers[..|headers| - 1], headers[|headers| - 1];
      SignedHeadersIs(init);
      assert headers == init + [h];
      SignedHeadersAppend(init, h);
      ContentHeaderIs(h);
      CanonicalIs(h);
      hide ToCRLF, StripCR, Canonical, IsContentHeader, NamedContent, SignedHeaders;
      ToCRLFAppend(ContentHeaders(init), if IsContentHeader(h) then StripCR(h) else "");
      assert ToCRLF("") == "" by { ToCRLFPlain(""); }
    }
  }

  function ContentHeaders(headers: seq<string>): string {
    if headers == [] then ""
    else ContentHeaders(headers[..|headers| - 1])
         + (if IsContentHeader(headers[|headers| - 1]) then StripCR(headers[|headers| - 1]) else "")
  }

  /** The inner loop over a read buffer: everything but carriage returns, up to the newline. */
  method CopyLine(buf: string) returns (text: string, newline: bool)
    requires forall k :: 0 <= k < |buf| - 1 ==> buf[k] != '\n'
    ensures newline <==> buf != "" && buf[|buf| - 1] == '\n'
    ensures text + (if newline then "\n" else "") == StripCR(buf) && '\n' !in text
  {
    text, newline := "", false;
    var p := 0;
    while p < |buf|
      invariant p <= |buf| && text == StripCR(buf[..p])
      invariant forall k :: 0 <= k < p ==> buf[k] != '\n'
      invariant '\n' !in text
    {
      assert buf[..p + 1] == buf[..p] + [buf[p]];
      StripCRAppend(buf[..p], [buf[p]]);
      if buf[p] == '\r' {
        p := p + 1;
        continue;
      }
      if buf[p] == '\n' {
        newline := true;
        assert buf[..p + 1] == buf;
        return;
      }
      text := text + [buf[p]];
      p := p + 1;
    }
    assert buf[..p] == buf;
  }

  lemma ChunkLine(s: string, pos: nat, size: nat)
    requires pos < |s| && size >= 2
    ensures var e := Fgets(s, pos, size);
      && (forall k :: pos <= k < e - 1 ==> s[k] != '\n')
      && (s[e - 1] == '\n' ==> e == NextLine(s, pos))
      && (s[e - 1] != '\n' ==> '\n' !in s[pos..e])
  {
    var e, line := Fgets(s, pos, size), LineAt(s[pos..]);
    forall k | pos <= k < e && k < pos + |line|
      ensures s[k] != '\n'
    {
      assert line[k - pos] == s[pos..][k - pos] == s[k];
    }
    if pos + |line| < |s| { assert s[pos..][|line|] == s[pos + |line|]; }
  }

  /** Reading on inside a line ends where the line does. */
  lemma RestOfLine(s: string, start: nat, pos: nat)
    requires start <= pos < |s| && '\n' !in s[start..pos]
    ensures NextLine(s, pos) == NextLine(s, start)
  {
    var n := |LineAt(s[pos..])|;
    var m := pos - start + n;
    assert s[start..][..m] == s[start..pos] + s[pos..][..n];
    if pos + n < |s| { assert s[start..][m] == s[pos..][n]; }
    LineIsUnique(s[start..], m);
  }

  /** The file position inside the line that starts at lineStart: every line before it was no boundary,
      and what was read of this one holds no newline. */
  ghost predicate Reading(stack: seq<string>, s: string, start: nat, size: nat, lineStart: nat, pos: nat) {
    && start <= lineStart <= pos <= |s| && size >= 2
    && StopAt(stack, s, start, size) == StopAt(stack, s, lineStart, size)
    && '\n' !in s[lineStart..pos]
    && (lineStart < pos ==> !BoundaryLine(stack, s[lineStart..Fgets(s, lineStart, size)]))
  }

  /** One more buffer read, either inside the line or to its end. */
  lemma ReadOn(stack: seq<string>, s: string, start: nat, size: nat, lineStart: nat, pos: nat)
    requires Reading(stack, s, start, size, lineStart, pos) && pos < |s|
    requires pos == lineStart ==> !BoundaryLine(stack, s[pos..Fgets(s, pos, size)])
    ensures var e := Fgets(s, pos, size);
      if s[e - 1] == '\n' then Reading(stack, s, start, size, e, e)
      else Reading(stack, s, start, size, lineStart, e)
  {
    hide LineAt, BoundaryLine;
    var e := Fgets(s, pos, size);
    ChunkLine(s, pos, size);
    RestOfLine(s, lineStart, pos);
    if s[e - 1] != '\n' {
      assert s[lineStart..e] == s[lineStart..pos] + s[pos..e];
    }
  }

  /** The position at the end of the file is where the search for a boundary ends. */
  lemma ReadToEnd(stack: seq<string>, s: string, start: nat, size: nat, lineStart: nat)
    requires Reading(stack, s, start, size, lineStart, |s|)
    ensures StopAt(stack, s, start, size) == |s|
  {
    if lineStart < |s| {
      LineIsUnique(s[lineStart..], |s| - lineStart);
    }
  }

  /** The signed text before its line ends become CRLF: the content headers, then each line read,
      put after a newline of its own. endsOpen: the last line read was complete. */
  ghost predicate SignedText(text: string, headers: seq<string>, consumed: string, endsOpen: bool) {
    text + (if endsOpen then "\n" else "") == ContentHeaders(headers) + "\n" + StripCR(consumed)
  }

  /** The bytes to be signed: the canonical form of the content headers, an empty line, and the canonical form
      of what was read up to the boundary or the end. Behind it, a line end is there exactly if no outer part
      goes on: the last line end before a boundary belongs to the boundary. */
  ghost predicate SignedBytes(bytes: string, outer: seq<string>, headers: seq<string>, consumed: string, endsOpen: bool) {
    var all := SignedHeaders(headers) + "\r\n" + Canonical(consumed);
    if endsOpen then (if outer == [] then bytes == all else bytes + "\r\n" == all)
    else bytes == all + if outer == [] then "\r\n" else ""
  }

  lemma SignedBytesAre(text: string, outer: seq<string>, headers: seq<string>, consumed: string, endsOpen: bool)
    requires SignedText(text, headers, consumed, endsOpen)
    ensures SignedBytes(ToCRLF(text + if outer == [] then "\n" else ""), outer, headers, consumed, endsOpen)
  {
    SignedHeadersIs(headers);
    CanonicalIs(consumed);
    ToCRLFAppend(ContentHeaders(headers) + "\n", StripCR(consumed));
    ToCRLFAppend(ContentHeaders(headers), "\n");
    ToCRLFAppend(text, "\n");
    SignedStart();
    hide ToCRLF, StripCR, Canonical, SignedHeaders, ContentHeaders;
    assert text + "" == text;
    assert ToCRLF(text) + "" == ToCRLF(text);
  }

  lemma SignedTextGrows(text: string, headers: seq<string>, before: string, chunk: string, line: string, isOpen: bool)
    requires SignedText(text, headers, before, true)
    requires line + (if isOpen then "\n" else "") == StripCR(chunk)
    ensures SignedText(text + "\n" + line, headers, before + chunk, isOpen)
  {
    StripCRAppend(before, chunk);
    hide StripCR, ContentHeaders;
    Assoc(text + "\n", line, if isOpen then "\n" else "");
    Assoc(ContentHeaders(headers) + "\n", StripCR(before), StripCR(chunk));
    assert text + "\n" == ContentHeaders(headers) + "\n" + StripCR(before);
  }

  lemma StopHere(stack: seq<string>, s: string, start: nat, size: nat, pos: nat)
    requires Reading(stack, s, start, size, pos, pos) && pos < |s|
    requires BoundaryLine(stack, s[pos..Fgets(s, pos, size)])
    ensures StopAt(stack, s, start, size) == pos
  {
  }

  lemma SignedStart()
    ensures StripCR("") == "" && ToCRLF("") == "" && ToCRLF("\n") == "\r\n"
  {
  }

  /** The part of dogpgsign that writes the file to be signed. */
  method WriteSignedContent(stack: seq<string>, headers: seq<string>, iseof0: bool, input: string, start: nat, size: nat)
    returns (signed: string, pos: nat, iseof: bool, b: Hit, ghost text: string)
    requires start <= |input| && size >= 2
    requires iseof0 ==> start == |input|
    ensures pos == StopAt(stack, input, start, size)
    ensures iseof <==> pos == |input|
    ensures iseof || pos == start || input[pos - 1] == '\n'
    ensures !iseof ==> b == HitOf(stack, input[pos..Fgets(input, pos, size)]) && b.Boundary?
    ensures SignedText(text, headers, input[start..pos], pos == start || input[pos - 1] == '\n')
    ensures signed == ToCRLF(text + if stack == [] then "\n" else "")
  {
    signed, text, b := "", "", NoBoundary;
    SignedStart();
    hide StripCR, ToCRLF, StopAt, BoundaryLine, LineAt, NextLine, Fgets, HitOf;
    for hp := 0 to |headers|
      invariant text == ContentHeaders(headers[..hp]) && signed == ToCRLF(text)
    {
      assert headers[..hp + 1][..hp] == headers[..hp];
      if IsContentHeader(headers[hp]) {
        var added := PutHeader(headers[hp]);
        ToCRLFAppend(text, StripCR(headers[hp]));
        signed := signed + added;
        text := text + StripCR(headers[hp]);
      }
    }
    assert headers[..|headers|] == headers;
    hide ContentHeaders;
    pos, iseof := start, iseof0;
    var needCrlf := true;
    ghost var lineStart: nat := start;
    assert input[start..start] == "";
    while !iseof
      invariant Reading(stack, input, start, size, lineStart, pos)
      invariant SignedText(text, headers, input[start..pos], needCrlf) && signed == ToCRLF(text)
      invariant !iseof ==> needCrlf && lineStart == pos
      invariant needCrlf <==> pos == start || input[pos - 1] == '\n'
      invariant iseof ==> pos == |input|
      decreases |input| - pos, !iseof
    {
      var e := Fgets(input, pos, size);
      if e == pos {
        iseof := true;
        break;
      }
      b := IsBoundary(stack, input[pos..e]);
      if b.Boundary? {
        StopHere(stack, input, start, size, pos);
        break;
      }
      var line, next, ended := CopyLines(stack, input, start, size, pos);
      assert input[start..next] == input[start..pos] + input[pos..next];
      SignedTextGrows(text, headers, input[start..pos], input[pos..next], line, ended);
      ToCRLFAppend(text, "\n");
      ToCRLFAppend(text + "\n", line);
      ToCRLFPlain(line);
      signed := signed + "\r\n" + line;
      text := text + "\n" + line;
      needCrlf, pos := ended, next;
      lineStart := if ended then pos else lineStart;
      iseof := !ended;
    }
    if iseof { ReadToEnd(stack, input, start, size, lineStart); }
    if |stack| == 0 {
      ToCRLFAppend(text, "\n");
      signed := signed + "\r\n";
    }
    assert text + "" == text;
  }

  lemma BufferEnds(s: string, pos: nat, size: nat, buf: string)
    requires pos < |s| && size >= 2 && buf == s[pos..Fgets(s, pos, size)]
    ensures forall k :: 0 <= k < |buf| - 1 ==> buf[k] != '\n'
    ensures buf != "" && buf[|buf| - 1] == s[Fgets(s, pos, size) - 1]
  {
    ChunkLine(s, pos, size);
  }

  /** The state of the loop below: what it has copied of the line that starts at from. */
  ghost predicate Copied(stack: seq<string>, s: string, start: nat, size: nat, from: nat, pos: nat, line: string) {
    && Reading(stack, s, start, size, from, pos)
    && from <= pos <= |s| && line == StripCR(s[from..pos]) && '\n' !in line
    && (from < pos ==> s[pos - 1] != '\n')
  }

  lemma CopiedNone(stack: seq<string>, s: string, start: nat, size: nat, from: nat)
    requires from <= |s| && Reading(stack, s, start, size, from, from)
    ensures Copied(stack, s, start, size, from, from, "")
  {
    hide Reading;
    assert s[from..from] == "";
  }

  /** The whole line that starts at from has been copied, or what there is of it at the end of the file. */
  ghost predicate LineCopied(stack: seq<string>, s: string, start: nat, size: nat, from: nat,
                             line: string, next: nat, ended: bool)
  {
    && from < next <= |s| && '\n' !in line
    && line + (if ended then "\n" else "") == StripCR(s[from..next])
    && (ended <==> s[next - 1] == '\n') && (!ended ==> next == |s|)
    && Reading(stack, s, start, size, if ended then next else from, next)
  }

  lemma CopiedMore(stack: seq<string>, s: string, start: nat, size: nat, from: nat, pos: nat,
                   line: string, more: string, newline: bool)
    requires Copied(stack, s, start, size, from, pos, line) && pos < |s| && size >= 2
    requires pos == from ==> !BoundaryLine(stack, s[from..Fgets(s, from, size)])
    requires var e := Fgets(s, pos, size);
      more + (if newline then "\n" else "") == StripCR(s[pos..e]) && '\n' !in more && (newline <==> s[e - 1] == '\n')
    ensures var e := Fgets(s, pos, size);
      && (newline ==> LineCopied(stack, s, start, size, from, line + more, e, true))
      && (!newline ==> Copied(stack, s, start, size, from, e, line + more))
  {
    hide StripCR, StopAt, BoundaryLine, LineAt, NextLine, Fgets, Reading;
    var e := Fgets(s, pos, size);
    ReadOn(stack, s, start, size, from, pos);
    assert s[from..e] == s[from..pos] + s[pos..e];
    StripCRAppend(s[from..pos], s[pos..e]);
    Assoc(line, more, if newline then "\n" else "");
    assert !newline ==> line + more + "" == line + more;
  }

  lemma CopiedEnds(stack: seq<string>, s: string, start: nat, size: nat, from: nat, line: string)
    requires from < |s| && Copied(stack, s, start, size, from, |s|, line)
    ensures LineCopied(stack, s, start, size, from, line, |s|, false)
  {
    hide Reading, StripCR;
    assert line + "" == line;
  }

  /** What the loop below copies of one read buffer. */
  method CopyBuffer(input: string, pos: nat, size: nat) returns (more: string, newline: bool)
    requires pos < |input| && size >= 2
    ensures var e := Fgets(input, pos, size);
      more + (if newline then "\n" else "") == StripCR(input[pos..e]) && '\n' !in more && (newline <==> input[e - 1] == '\n')
  {
    var buf := input[pos..Fgets(input, pos, size)];
    BufferEnds(input, pos, size, buf);
    more, newline := CopyLine(buf);
  }

  /** The loop that copies one line, however many buffers it takes. */
  method CopyLines(ghost stack: seq<string>, input: string, ghost start: nat, size: nat, from: nat)
    returns (line: string, next: nat, ended: bool)
    requires size >= 2 && from < |input| && Reading(stack, input, start, size, from, from)
    requires !BoundaryLine(stack, input[from..Fgets(input, from, size)])
    ensures LineCopied(stack, input, start, size, from, line, next, ended)
  {
    line, next, ended := "", from, false;
    CopiedNone(stack, input, start, size, from);
    hide StripCR, StopAt, BoundaryLine, LineAt, NextLine, Fgets, Reading, Copied, LineCopied;
    while true
      invariant !ended && from <= next <= |input| && Copied(stack, input, start, size, from, next, line)
      decreases |input| - next
    {
      var e := Fgets(input, next, size);
      if e == next {
        CopiedEnds(stack, input, start, size, from, line);
        break;
      }
      var more, newline := CopyBuffer(input, next, size);
      CopiedMore(stack, input, start, size, from, next, line, more, newline);
      line, next := line + more, e;
      if newline {
        ended := true;
        break;
      }
    }
  }

  /** The loop that copies a header to the file to be signed. */
  method PutHeader(h: string) returns (out: string)
    ensures out == ToCRLF(StripCR(h))
  {
    out := "";
    for p := 0 to |h|
      invariant out == ToCRLF(StripCR(h[..p]))
    {
      assert h[..p + 1] == h[..p] + [h[p]];
      StripCRAppend(h[..p], [h[p]]);
      ToCRLFAppend(StripCR(h[..p]), StripCR([h[p]]));
      if h[p] == '\r' {
        continue;
      }
      if h[p] == '\n' {
        out := out + "\r";
      }
      out := out + [h[p]];
    }
    assert h[..|h|] == h;
  }
}
