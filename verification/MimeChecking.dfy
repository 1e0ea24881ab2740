/** Publishing a signed part and rebuilding the bytes that were signed, for every read-buffer size:
    the rest of dogpgsign, good_boundary and checksign of src/gpglib/mimegpg.c. */
module MimeChecking {
  import opened Text
  import opened MimeText
  import opened MimeSigning

  // ----- choosing a boundary -----

  /** A read buffer that looks like a delimiter made of b. */
  predicate Delimits(b: string, chunk: string) {
    |chunk| >= 2 && chunk[0] == '-' && chunk[1] == '-' && Begins(b, chunk[2..])
  }

  predicate NoChunkDelimits(b: string, s: string, pos: nat, size: nat)
    requires pos <= |s| && size >= 2
    decreases |s| - pos
  {
    pos == |s| || (!Delimits(b, s[pos..Fgets(s, pos, size)]) && NoChunkDelimits(b, s, Fgets(s, pos, size), size))
  }

  /** Two dashes and b, in any mixture of cases, stand at p. */
  predicate StandsAt(b: string, s: string, p: nat) {
    p + 2 <= |s| && s[p] == '-' && s[p + 1] == '-' && Begins(b, s[p + 2..])
  }

  /** A boundary that stands nowhere in the content delimits none of its read buffers. */
  lemma {:induction false} AbsentIsGood(b: string, s: string, pos: nat, size: nat)
    requires pos <= |s| && size >= 2 && forall p: nat :: pos <= p ==> !StandsAt(b, s, p)
    ensures NoChunkDelimits(b, s, pos, size)
    decreases |s| - pos
  {
    if pos < |s| {
      var e := Fgets(s, pos, size);
      assert Delimits(b, s[pos..e]) ==> StandsAt(b, s, pos);
      AbsentIsGood(b, s, e, size);
    }
  }

  /** good_boundary, with no message and the signed content to look through. */
  method GoodBoundary(boundary: string, stack: seq<string>, content: string, size: nat) returns (good: bool)
    requires size >= 2
    ensures good <==> HitOf(stack, boundary) == NoBoundary && NoChunkDelimits(boundary, content, 0, size)
  {
    var hit := IsBoundary(stack, boundary);
    if hit.Boundary? {
      return false;
    }
    var pos := 0;
    while true
      invariant pos <= |content|
      invariant NoChunkDelimits(boundary, content, 0, size) <==> NoChunkDelimits(boundary, content, pos, size)
      decreases |content| - pos
    {
      var e := Fgets(content, pos, size);
      if e == pos {
        break;
      }
      if Delimits(boundary, content[pos..e]) {
        return false;
      }
      pos := e;
    }
    good := true;
  }

  /** good_boundary hands is_boundary the boundary without the dashes in front of it, so that the stack
      is looked at only for a boundary that begins with dashes itself. */
  lemma StackIsAsked(stack: seq<string>, b: string)
    ensures HitOf(stack, b) == NoBoundary <==> !("--" <= b && exists e :: e in stack && Begins(e, b[2..]))
  {
  }

  /** The delimiter made of b would be taken for one of an outer entry exactly when that entry begins b. */
  lemma CollidesIff(stack: seq<string>, b: string)
    ensures BoundaryLine(stack, "--" + b) <==> exists e :: e in stack && Begins(e, b)
  {
    assert ("--" + b)[2..] == b;
  }

  /** So a boundary that does not begin with dashes, as newboundary makes them, is accepted whenever
      the content allows, and then its delimiter is also one of an outer entry exactly when an entry
      begins it. */
  lemma AcceptedCollidesIff(stack: seq<string>, b: string, content: string, size: nat)
    requires size >= 2 && !("--" <= b)
    ensures var accepted := HitOf(stack, b) == NoBoundary && NoChunkDelimits(b, content, 0, size);
      && (accepted <==> NoChunkDelimits(b, content, 0, size))
      && (accepted && BoundaryLine(stack, "--" + b)
          <==> NoChunkDelimits(b, content, 0, size) && exists e :: e in stack && Begins(e, b))
  {
    StackIsAsked(stack, b);
    CollidesIff(stack, b);
  }

  lemma CollisionExample()
    ensures HitOf(["ab"], "abc") == NoBoundary && NoChunkDelimits("abc", "", 0, 16) && BoundaryLine(["ab"], "--" + "abc")
  {
    StackIsAsked(["ab"], "abc");
    CollidesIff(["ab"], "abc");
    assert Begins("ab", "abc");
  }

  /** get_boundary: the first acceptable one of the boundaries that newboundary makes up. */
  method GetBoundary(stack: seq<string>, candidates: seq<string>, content: string, size: nat) returns (b: Option<string>)
    requires size >= 2
    ensures b.Some? ==> b.value in candidates && NoChunkDelimits(b.value, content, 0, size)
    ensures b.None? ==> forall c :: c in candidates ==>
      HitOf(stack, c) != NoBoundary || !NoChunkDelimits(c, content, 0, size)
  {
    for n := 0 to |candidates|
      invariant forall k :: 0 <= k < n ==>
        HitOf(stack, candidates[k]) != NoBoundary || !NoChunkDelimits(candidates[k], content, 0, size)
    {
      var good := GoodBoundary(candidates[n], stack, content, size);
      if good {
        return Some(candidates[n]);
      }
    }
    return None;
  }

  // ----- publishing -----

  const PREAMBLE := ["This is a mimegpg-signed message.  " + "If you see this text, it means that",
                     "your E-mail software does not " + "support MIME-formatted messages.",
                     ""]

  const SIGNATURE_HEADERS := "Content-Type: application/pgp-signature\nContent-Transfer-Encoding: 7bit\n\n"

  function Lines(ls: seq<string>): string {
    if ls == [] then "" else ls[0] + "\n" + Lines(ls[1..])
  }

  function Delimiter(b: string): string {
    "--" + b + "\n"
  }

  function Trailer(b: string, signature: string): string {
    SIGNATURE_HEADERS + signature + "\n--" + b + "--\n"
  }

  /** What the signer prints after the header of the new multipart. */
  function Published(b: string, text: string, signature: string): string {
    Lines(PREAMBLE) + (Delimiter(b) + (text + "\n" + (Delimiter(b) + Trailer(b, signature))))
  }

  /** The published part ends with the signature, as given, and the delimiter that closes the multipart. */
  lemma PublishedCloses(b: string, text: string, signature: string)
    ensures var s, end := Published(b, text, signature), signature + "\n" + ("--" + b + "--") + "\n";
      |end| <= |s| && s[|s| - |end|..] == end
    ensures HitOf([b], "--" + b + "--") == Boundary(b, true)
  {
    var end := signature + "\n" + ("--" + b + "--") + "\n";
    assert Trailer(b, signature) == SIGNATURE_HEADERS + end;
    var front := Lines(PREAMBLE) + (Delimiter(b) + (text + "\n" + (Delimiter(b) + SIGNATURE_HEADERS)));
    assert Published(b, text, signature) == front + end;
    var line := b + "--";
    assert FirstEntry([b], line, 0);
    HitIs([b], line, 0);
    assert "--" + line == "--" + b + "--";
  }

  /** The loop that hands the signed content to gpg and prints it without carriage returns. */
  method CopySignedContent(content: string, size: nat) returns (toGpg: string, out: string)
    requires size >= 2
    ensures toGpg == content && out == StripCR(content)
  {
    toGpg, out := "", "";
    var pos := 0;
    while true
      invariant pos <= |content| && toGpg == content[..pos] && out == StripCR(content[..pos])
      decreases |content| - pos
    {
      var e := Fgets(content, pos, size);
      if e == pos {
        break;
      }
      var buf := content[pos..e];
      var kept := "";
      for p := 0 to |buf|
        invariant kept == StripCR(buf[..p])
      {
        assert buf[..p + 1] == buf[..p] + [buf[p]];
        StripCRAppend(buf[..p], [buf[p]]);
        if buf[p] != '\r' {
          kept := kept + [buf[p]];
        }
      }
      assert buf[..|buf|] == buf;
      assert content[..e] == content[..pos] + buf;
      StripCRAppend(content[..pos], buf);
      toGpg, out, pos := toGpg + buf, out + kept, e;
    }
    assert content[..pos] == content;
  }

  // ----- the verifier -----

  datatype Found = AtEof | After(stack: seq<string>, pos: nat)

  /** Where find_boundary ends, and with which stack. */
  function FindFrom(stack: seq<string>, s: string, pos: nat, size: nat): (f: Found)
    requires pos <= |s| && size >= 2
    ensures f.After? ==> f.pos <= |s|
    decreases |s| - pos
  {
    if pos == |s| then AtEof else
      match HitOf(stack, s[pos..Fgets(s, pos, size)])
      case NoBoundary => FindFrom(stack, s, NextLine(s, pos), size)
      case Boundary(b, true) => FindFrom(PopTo(stack, b), s, Fgets(s, pos, size), size)
      case Boundary(b, false) => After(stack, Fgets(s, pos, size))
  }

  /** The search ends behind a line that opens a part of the stack it ends with, which is what the stack was
      below some entry. */
  lemma {:induction false} FindFromEnds(stack: seq<string>, s: string, pos: nat, size: nat) returns (n: nat, q: nat)
    requires pos <= |s| && size >= 2 && FindFrom(stack, s, pos, size).After?
    ensures var f := FindFrom(stack, s, pos, size);
      && n <= |stack| && f.stack == stack[n..]
      && pos <= q < f.pos && f.pos == Fgets(s, q, size)
      && HitOf(f.stack, s[q..f.pos]).Boundary? && !HitOf(f.stack, s[q..f.pos]).closing
    decreases |s| - pos
  {
    hide HitOf, PopTo, Fgets, NextLine;
    match HitOf(stack, s[pos..Fgets(s, pos, size)])
    case NoBoundary =>
      n, q := FindFromEnds(stack, s, NextLine(s, pos), size);
    case Boundary(b, true) =>
      var below, k := PopTo(stack, b), |stack| - |PopTo(stack, b)|;
      n, q := FindFromEnds(below, s, Fgets(s, pos, size), size);
      assert below[n..] == stack[k + n..];
      n := k + n;
    case Boundary(_, false) =>
      n, q := 0, pos;
  }

  /** A closing delimiter of the innermost part leaves the stack without it. */
  lemma ClosedIsPopped(b: string, outer: seq<string>, rest: string, size: nat)
    requires NoBreaks(b) && |b| + 5 < size
    ensures FindFrom([b] + outer, "--" + b + "--\n" + rest, 0, size) == FindFrom(outer, "--" + b + "--\n" + rest, |b| + 5, size)
  {
    var stack, s, line := [b] + outer, "--" + b + "--\n" + rest, b + "--\n";
    var e := |b| + 5;
    assert s[0..] == s && s[..e] == "--" + line && s[..e - 1] == "--" + b + "--";
    LineIsUnique(s, e - 1);
    assert Fgets(s, 0, size) == e;
    assert FirstEntry(stack, line, 0);
    HitIs(stack, line, 0);
    assert stack[1..] == outer && PopTo(stack, b) == outer;
    hide HitOf, Fgets, PopTo;
    assert s[0..e] == s[..e];
  }

  /** The loop that reads on, character by character, when the buffer was too small for the line. */
  method SkipRestOfLine(s: string, ghost line: nat, from: nat) returns (next: nat, eof: bool)
    requires line < from <= |s| && '\n' !in s[line..from]
    ensures next == NextLine(s, line)
    ensures eof ==> next == |s|
  {
    next := from;
    while next < |s|
      invariant from <= next <= |s| && '\n' !in s[line..next]
    {
      RestOfLine(s, line, next);
      if s[next] == '\n' {
        LineIsUnique(s[next..], 0);
        return next + 1, false;
      }
      assert s[line..next + 1] == s[line..next] + [s[next]];
      next := next + 1;
    }
    LineIsUnique(s[line..], |s| - line);
    eof := true;
  }

  /** find_boundary, printing nothing. */
  method FindBoundary(stack0: seq<string>, s: string, start: nat, size: nat) returns (f: Found)
    requires start <= |s| && size >= 2
    ensures f == FindFrom(stack0, s, start, size)
  {
    var stack, pos := stack0, start;
    while true
      invariant pos <= |s|
      invariant FindFrom(stack0, s, start, size) == FindFrom(stack, s, pos, size)
      decreases |s| - pos
    {
      var e := Fgets(s, pos, size);
      if e == pos {
        return AtEof;
      }
      var b := IsBoundary(stack, s[pos..e]);
      if b.NoBoundary? {
        ChunkLine(s, pos, size);
        if s[e - 1] != '\n' {
          var eof;
          e, eof := SkipRestOfLine(s, pos, e);
          if eof {
            return AtEof;
          }
        }
        pos := e;
        continue;
      }
      pos := e;
      if b.closing {
        stack := PopTo(stack, b.entry);
        continue;
      }
      return After(stack, pos);
    }
  }

  function Chomp(s: string): string {
    if s != "" && s[|s| - 1] == '\n' then s[..|s| - 1] else s
  }

  /** The bytes that checksign hands to gpg together with the signature. */
  function Rebuilt(stack: seq<string>, s: string, pos: nat, size: nat): Option<string>
    requires pos <= |s| && size >= 2
  {
    match FindFrom(stack, s, pos, size)
    case AtEof => None
    case After(st, from) => Some(ToCRLF(Chomp(s[from..StopAt(st, s, from, size)])))
  }

  /** The state of the loop of checksign. */
  ghost predicate Rebuilding(stack: seq<string>, s: string, start: nat, size: nat, lineStart: nat, pos: nat,
                             content: string, needNl: bool)
  {
    && Reading(stack, s, start, size, lineStart, pos)
    && (lineStart == pos <==> needNl || pos == start)
    && (needNl <==> start < pos && s[pos - 1] == '\n')
    && (if needNl then content + "\r\n" else content) == ToCRLF(s[start..pos])
  }

  lemma RebuiltMore(stack: seq<string>, s: string, start: nat, size: nat, lineStart: nat, pos: nat,
                    content: string, needNl: bool, more: string, newline: bool)
    requires Rebuilding(stack, s, start, size, lineStart, pos, content, needNl) && pos < |s|
    requires pos == lineStart ==> !BoundaryLine(stack, s[pos..Fgets(s, pos, size)])
    requires var e := Fgets(s, pos, size);
      more + (if newline then "\n" else "") == s[pos..e] && '\n' !in more && (newline <==> s[e - 1] == '\n')
    ensures var e := Fgets(s, pos, size);
      Rebuilding(stack, s, start, size, if newline then e else lineStart, e,
                 (if needNl then content + "\r\n" else content) + more, newline)
  {
    hide ToCRLF, StopAt, BoundaryLine, LineAt, NextLine, Fgets;
    var e, nl := Fgets(s, pos, size), if newline then "\n" else "";
    ReadOn(stack, s, start, size, lineStart, pos);
    assert s[start..e] == s[start..pos] + (more + nl);
    ToCRLFAppend(s[start..pos], more + nl);
    ToCRLFAppend(more, nl);
    ToCRLFPlain(more);
    SignedStart();
    Assoc(ToCRLF(s[start..pos]), more, ToCRLF(nl));
    assert ToCRLF(s[start..pos]) + more + "" == ToCRLF(s[start..pos]) + more;
  }

  lemma RebuiltChomps(x: string, content: string, needNl: bool)
    requires (if needNl then content + "\r\n" else content) == ToCRLF(x)
    requires needNl <==> x != "" && x[|x| - 1] == '\n'
    ensures content == ToCRLF(Chomp(x))
  {
    ChompIs(x);
    SignedStart();
    hide ToCRLF, Chomp;
    if needNl {
      ToCRLFAppend(Chomp(x), "\n");
      SameBefore(content, ToCRLF(Chomp(x)), "\r\n");
    }
  }

  lemma ChompIs(x: string)
    ensures if x != "" && x[|x| - 1] == '\n' then x == Chomp(x) + "\n" else x == Chomp(x)
  {
  }

  lemma SameBefore(a: string, b: string, end: string)
    requires a + end == b + end
    ensures a == b
  {
    assert |a + end| == |a| + |end| && |b + end| == |b| + |end|;
    assert a == (a + end)[..|a|] && b == (b + end)[..|b|];
  }

  lemma RebuildingEnds(stack: seq<string>, s: string, start: nat, size: nat, lineStart: nat, pos: nat,
                       content: string, needNl: bool)
    requires Rebuilding(stack, s, start, size, lineStart, pos, content, needNl)
    requires pos == |s| || (pos == lineStart && BoundaryLine(stack, s[pos..Fgets(s, pos, size)]))
    ensures pos == StopAt(stack, s, start, size)
    ensures content == ToCRLF(Chomp(s[start..pos]))
  {
    hide ToCRLF, StopAt, BoundaryLine, LineAt, NextLine, Fgets, Chomp;
    var x := s[start..pos];
    assert x != "" ==> x[|x| - 1] == s[pos - 1];
    if pos == |s| {
      ReadToEnd(stack, s, start, size, lineStart);
    } else {
      StopHere(stack, s, start, size, pos);
    }
    RebuiltChomps(x, content, needNl);
  }

  /** The loop of checksign that writes the file to be verified. */
  method RebuildContent(stack: seq<string>, s: string, start: nat, size: nat) returns (content: string, pos: nat)
    requires start <= |s| && size >= 2
    ensures pos == StopAt(stack, s, start, size)
    ensures content == ToCRLF(Chomp(s[start..pos]))
  {
    content, pos := "", start;
    var needNl, checkBoundary, iseof := false, true, false;
    ghost var lineStart: nat := start;
    assert Rebuilding(stack, s, start, size, start, start, "", false) by {
      assert s[start..start] == "";
      SignedStart();
    }
    hide ToCRLF, StopAt, BoundaryLine, LineAt, NextLine, Fgets, HitOf, Reading, Rebuilding;
    while !iseof
      invariant start <= lineStart <= pos <= |s|
      invariant Rebuilding(stack, s, start, size, lineStart, pos, content, needNl)
      invariant checkBoundary <==> lineStart == pos
      invariant iseof ==> pos == |s|
      decreases |s| - pos, !iseof
    {
      var e := Fgets(s, pos, size);
      if e == pos {
        iseof := true;
        continue;
      }
      var buf := s[pos..e];
      if checkBoundary {
        var b := IsBoundary(stack, buf);
        if b.Boundary? {
          break;
        }
      }
      BufferEnds(s, pos, size, buf);
      var more, newline := CopyToNewline(buf);
      RebuiltMore(stack, s, start, size, lineStart, pos, content, needNl, more, newline);
      if needNl {
        content := content + "\r\n";
      }
      content := content + more;
      needNl, checkBoundary, pos := newline, newline, e;
      lineStart := if newline then e else lineStart;
    }
    RebuildingEnds(stack, s, start, size, lineStart, pos, content, needNl);
  }

  method CopyToNewline(buf: string) returns (text: string, newline: bool)
    requires forall k :: 0 <= k < |buf| - 1 ==> buf[k] != '\n'
    ensures newline <==> buf != "" && buf[|buf| - 1] == '\n'
    ensures text + (if newline then "\n" else "") == buf && '\n' !in text
  {
    text := "";
    var p := 0;
    while p < |buf| && buf[p] != '\n'
      invariant p <= |buf| && text == buf[..p] && '\n' !in text
    {
      text := text + [buf[p]];
      p := p + 1;
    }
    newline := p < |buf|;
  }

  /** checksign, up to the point where gpg is asked. */
  method CheckSign(stack: seq<string>, s: string, pos: nat, size: nat) returns (content: Option<string>)
    requires pos <= |s| && size >= 2
    ensures content == Rebuilt(stack, s, pos, size)
  {
    var f := FindBoundary(stack, s, pos, size);
    if f.AtEof? {
      return None;
    }
    var text, stop := RebuildContent(f.stack, s, f.pos, size);
    content := Some(text);
  }
}
