/** Signer and verifier agree on the signed bytes: dogpgsign against checksign of src/gpglib/mimegpg.c. */
module MimeRoundTrip {
  import opened Text
  import opened MimeText
  import opened MimeSigning
  import opened MimeChecking

  /** No line of the text, from position q on, would be taken for a boundary when it is read with
      a buffer of the given size. */
  ghost predicate ClearFrom(stack: seq<string>, t: string, q: nat, size: nat)
    requires size >= 2
  {
    forall p: nat :: q <= p < |t| && StartsLine(t, p) ==> !BoundaryLine(stack, Head(LineAt(t[p..]), size))
  }

  predicate StartsLine(t: string, q: nat)
    requires q <= |t|
  {
    q == 0 || t[q - 1] == '\n'
  }

  /** A line of t reads the same when t stands inside a larger file, followed by a newline. */
  lemma LineInside(t: string, q: nat, s: string, from: nat, tail: string)
    requires q <= |t| && from <= |s| && s[from..] == t[q..] + "\n" + tail
    ensures var l := LineAt(t[q..]);
      && LineAt(s[from..]) == l
      && from < |s| && NextLine(s, from) == from + |l| + 1
      && s[from + |l| + 1..] == if q + |l| == |t| then tail else t[q + |l| + 1..] + "\n" + tail
  {
    var l, x := LineAt(t[q..]), s[from..];
    assert x[..|l|] == t[q..][..|l|] == l;
    if |l| < |t[q..]| {
      assert x[|l|] == t[q..][|l|];
      assert x[|l| + 1..] == t[q..][|l| + 1..] + "\n" + tail;
    } else {
      assert x[|l| + 1..] == tail;
    }
    LineIsUnique(x, |l|);
    assert s[from + |l| + 1..] == x[|l| + 1..];
  }

  lemma NextStartsLine(t: string, q: nat)
    requires q <= |t|
    ensures var n := |LineAt(t[q..])|; q + n < |t| ==> StartsLine(t, q + n + 1)
    ensures forall p :: q < p < q + |LineAt(t[q..])| + 1 && p <= |t| ==> !StartsLine(t, p)
  {
    var l := LineAt(t[q..]);
    forall p: nat | q < p < q + |l| + 1 && p <= |t|
      ensures !StartsLine(t, p)
    {
      assert l[p - 1 - q] == t[q..][p - 1 - q] == t[p - 1];
      assert l[p - 1 - q] in l;
    }
    if q + |l| < |t| { assert t[q..][|l|] == t[q + |l|]; }
  }

  lemma ClearStep(stack: seq<string>, t: string, q: nat, size: nat)
    requires size >= 2 && q <= |t| && StartsLine(t, q)
    ensures var n := |LineAt(t[q..])|;
      ClearFrom(stack, t, q, size) <==>
        !BoundaryLine(stack, Head(LineAt(t[q..]), size)) && (q + n < |t| ==> ClearFrom(stack, t, q + n + 1, size))
  {
    hide BoundaryLine;
    NextStartsLine(t, q);
    EmptyIsNoBoundary(stack, size);
  }

  lemma EmptyIsNoBoundary(stack: seq<string>, size: nat)
    requires size >= 2
    ensures !BoundaryLine(stack, Head("", size)) && LineAt("") == ""
  {
  }

  lemma DelimiterIsBoundary(stack: seq<string>, b: string, x: string, size: nat)
    requires b in stack && PlainStack(stack) && |b| + 4 <= size && Delimiter(b) <= x
    ensures x != "" && BoundaryLine(stack, Head(LineAt(x), size)) && NextLine(x, 0) == |b| + 3
    ensures Fgets(x, 0, size) == |b| + 3 && x[..|b| + 3] == Delimiter(b)
  {
    assert x[..|b| + 2] == "--" + b;
    assert NoBreaks(b);
    assert x[|b| + 2] == '\n' by { assert x[..|b| + 3][|b| + 2] == '\n'; }
    LineIsUnique(x, |b| + 2);
    assert LineAt(x)[2..] == b;
    assert x[0..] == x;
  }

  lemma StopStep(stack: seq<string>, s: string, pos: nat, size: nat)
    requires pos < |s| && size >= 2 && PlainStack(stack)
    ensures StopAt(stack, s, pos, size)
         == if BoundaryLine(stack, Head(LineAt(s[pos..]), size)) then pos else StopAt(stack, s, NextLine(s, pos), size)
  {
    ChunkBoundary(stack, s, pos, size);
  }

  /** The verifier stops at the delimiter, or at the first line of the text that looks like a boundary. */
  lemma {:induction false} StopFrom(
      stack: seq<string>, b: string, t: string, q: nat, s: string, from: nat, tail: string, size: nat)
    requires b in stack && PlainStack(stack) && |b| + 4 <= size
    requires q <= |t| && StartsLine(t, q) && Delimiter(b) <= tail
    requires from <= |s| && s[from..] == t[q..] + "\n" + tail
    ensures StopAt(stack, s, from, size) < from + |t| - q || StopAt(stack, s, from, size) == from + |t| - q + 1
    ensures StopAt(stack, s, from, size) == from + |t| - q + 1 <==> ClearFrom(stack, t, q, size)
    decreases |t| - q
  {
    hide BoundaryLine, LineAt, Delimiter, ClearFrom, NextLine, Fgets, StopAt, Head;
    var l := LineAt(t[q..]);
    var next := from + |l| + 1;
    LineInside(t, q, s, from, tail);
    StopStep(stack, s, from, size);
    NextStartsLine(t, q);
    ClearStep(stack, t, q, size);
    if BoundaryLine(stack, Head(l, size)) {
      EmptyIsNoBoundary(stack, size);
    } else if q + |l| == |t| {
      DelimiterIsBoundary(stack, b, s[next..], size);
      StopStep(stack, s, next, size);
    } else {
      StopFrom(stack, b, t, q + |l| + 1, s, next, tail, size);
    }
  }

  // ----- the preamble -----

  predicate NoDash(ls: seq<string>) {
    forall i :: 0 <= i < |ls| ==> '\n' !in ls[i] && (|ls[i]| >= 2 ==> ls[i][0] != '-')
  }

  lemma LinesStep(ls: seq<string>, tail: string)
    requires ls != []
    ensures Lines(ls) + tail == ls[0] + "\n" + (Lines(ls[1..]) + tail)
    ensures |Lines(ls)| == |ls[0]| + 1 + |Lines(ls[1..])|
  {
    Assoc(ls[0] + "\n", Lines(ls[1..]), tail);
  }

  lemma FindPast(stack: seq<string>, s: string, from: nat, size: nat)
    requires from < |s| && size >= 2 && HitOf(stack, s[from..Fgets(s, from, size)]) == NoBoundary
    ensures FindFrom(stack, s, from, size) == FindFrom(stack, s, NextLine(s, from), size)
  {
  }

  /** The delimiter at the position reached ends the search. */
  lemma FindHere(stack: seq<string>, b: string, s: string, from: nat, size: nat)
    requires stack != [] && stack[0] == b && PlainStack(stack) && |b| + 4 <= size
    requires from <= |s| && Delimiter(b) <= s[from..]
    ensures FindFrom(stack, s, from, size) == After(stack, from + |b| + 3)
  {
    DelimiterLength(b);
    DelimiterIsBoundary(stack, b, s[from..], size);
    FgetsShift(s, from, size);
    assert s[from..from + |b| + 3] == s[from..][..|b| + 3];
    DelimiterOpens(stack, b);
  }

  /** find_boundary skips the preamble and stops after the first delimiter. */
  lemma {:induction false} PreambleSkipped(
      stack: seq<string>, b: string, ls: seq<string>, s: string, from: nat, tail: string, size: nat)
    requires stack != [] && stack[0] == b && PlainStack(stack) && |b| + 4 <= size && NoDash(ls)
    requires from <= |s| && s[from..] == Lines(ls) + tail && Delimiter(b) <= tail
    ensures FindFrom(stack, s, from, size) == After(stack, from + |Lines(ls)| + |b| + 3)
    decreases ls
  {
    hide LineAt, Fgets, NextLine, BoundaryLine, Delimiter, HitOf, FindFrom;
    if ls == [] {
      assert s[from..] == tail;
      FindHere(stack, b, s, from, size);
    } else {
      LinesStep(ls, tail);
      hide Lines;
      PlainLine(stack, ls[0], s, from, Lines(ls[1..]) + tail, size);
      FindPast(stack, s, from, size);
      PreambleSkipped(stack, b, ls[1..], s, from + |ls[0]| + 1, tail, size);
    }
  }

  lemma PlainLine(stack: seq<string>, line: string, s: string, from: nat, rest: string, size: nat)
    requires PlainStack(stack) && size >= 2 && NoDash([line])
    requires from <= |s| && s[from..] == line + "\n" + rest
    ensures from < |s| && HitOf(stack, s[from..Fgets(s, from, size)]) == NoBoundary
    ensures NextLine(s, from) == from + |line| + 1 && s[from + |line| + 1..] == rest
  {
    assert [line][0] == line;
    LineIsUnique(line, |line|);
    assert line[0..] == line;
    LineInside(line, 0, s, from, rest);
    ChunkBoundary(stack, s, from, size);
    assert |line| >= 2 ==> Head(line, size)[0] == line[0];
  }

  lemma FgetsShift(s: string, from: nat, size: nat)
    requires from < |s| && size >= 2
    ensures Fgets(s, from, size) == from + Fgets(s[from..], 0, size)
  {
    assert s[from..][0..] == s[from..];
  }

  /** The delimiter of the entry on top of the stack matches that entry, and is not a closing one. */
  lemma DelimiterOpens(stack: seq<string>, b: string)
    requires stack != [] && stack[0] == b
    ensures HitOf(stack, Delimiter(b)) == Boundary(b, false)
  {
    var line := Delimiter(b);
    assert line[2..] == b + "\n" && line[2 + |b|..] == "\n";
    assert Begins(b, line[2..]);
  }

  lemma FirstPreambleLine()
    ensures '\n' !in PREAMBLE[0] && PREAMBLE[0][0] == 'T'
  {
  }

  lemma SecondPreambleLine()
    ensures '\n' !in PREAMBLE[1] && PREAMBLE[1][0] == 'y'
  {
  }

  lemma NoDashFrom(a: string, b: string)
    requires '\n' !in a && '\n' !in b && a != "" && b != "" && a[0] != '-' && b[0] != '-'
    ensures NoDash([a, b, ""])
  {
  }

  lemma PreambleHasNoDash()
    ensures NoDash(PREAMBLE)
  {
    FirstPreambleLine();
    SecondPreambleLine();
    hide NoDash;
    NoDashFrom(PREAMBLE[0], PREAMBLE[1]);
    assert PREAMBLE == [PREAMBLE[0], PREAMBLE[1], ""];
  }

  // ----- what the verifier rebuilds -----

  lemma ShorterText(t: string, n: nat)
    requires n < |t|
    ensures |ToCRLF(Chomp(t[..n]))| < |ToCRLF(t)|
  {
    assert t == t[..n] + t[n..];
    ToCRLFAppend(t[..n], t[n..]);
    ToCRLFGrows(t[n..]);
    if Chomp(t[..n]) != t[..n] {
      assert t[..n] == Chomp(t[..n]) + "\n";
      ToCRLFAppend(Chomp(t[..n]), "\n");
    }
  }

  function PartStart(b: string): nat {
    |Lines(PREAMBLE)| + |b| + 3
  }

  function PartTail(b: string, signature: string): string {
    Delimiter(b) + Trailer(b, signature)
  }

  /** find_boundary leaves the verifier at the start of the published text. */
  lemma FindsPart(outer: seq<string>, b: string, text: string, signature: string, size: nat)
    requires PlainStack([b] + outer) && |b| + 4 <= size
    ensures var s := Published(b, text, signature);
      && FindFrom([b] + outer, s, 0, size) == After([b] + outer, PartStart(b))
      && PartStart(b) <= |s| && s[PartStart(b)..] == text + "\n" + PartTail(b, signature)
  {
    hide FindFrom, Lines, Delimiter, Trailer;
    var s := Published(b, text, signature);
    var part := text + "\n" + PartTail(b, signature);
    PreambleHasNoDash();
    assert s[0..] == Lines(PREAMBLE) + (Delimiter(b) + part);
    PreambleSkipped([b] + outer, b, PREAMBLE, s, 0, Delimiter(b) + part, size);
    DelimiterLength(b);
    Assoc(Lines(PREAMBLE), Delimiter(b), part);
    var head := Lines(PREAMBLE) + Delimiter(b);
    assert (head + part)[|head|..] == part;
  }

  lemma RebuiltText(text: string, tail: string, s: string, from: nat, stop: nat)
    requires from <= stop <= |s| && s[from..] == text + "\n" + tail
    requires stop < from + |text| || stop == from + |text| + 1
    ensures ToCRLF(Chomp(s[from..stop])) == ToCRLF(text) <==> stop == from + |text| + 1
  {
    var n := stop - from;
    assert s[from..stop] == s[from..][..n];
    if n == |text| + 1 {
      assert s[from..stop] == text + "\n";
      assert Chomp(text + "\n") == text;
    } else {
      assert s[from..stop] == text[..n];
      ShorterText(text, n);
    }
  }

  /** The verifier rebuilds exactly the bytes that were signed if and only if no line of the published
      text could be taken for a boundary. */
  lemma RebuiltIffClear(outer: seq<string>, b: string, text: string, signature: string, size: nat)
    requires PlainStack([b] + outer) && |b| + 4 <= size
    ensures Rebuilt([b] + outer, Published(b, text, signature), 0, size) == Some(ToCRLF(text))
       <==> ClearFrom([b] + outer, text, 0, size)
  {
    hide ClearFrom, StopAt, FindFrom, ToCRLF, Published, PartStart, Chomp;
    var stack, s, from := [b] + outer, Published(b, text, signature), PartStart(b);
    FindsPart(outer, b, text, signature, size);
    assert text[0..] == text;
    StopFrom(stack, b, text, 0, s, from, PartTail(b, signature), size);
    RebuiltText(text, PartTail(b, signature), s, from, StopAt(stack, s, from, size));
  }

  lemma DelimiterLength(b: string)
    ensures |Delimiter(b)| == |b| + 3
  {
  }

  // ----- why the signer's text is clear -----

  lemma {:induction false} ChunkStartsAtLine(b: string, s: string, pos: nat, q: nat, size: nat)
    requires pos <= q <= |s| && size >= 2 && StartsLine(s, q)
    requires NoChunkDelimits(b, s, pos, size)
    ensures NoChunkDelimits(b, s, q, size)
    decreases |s| - pos
  {
    if pos < q {
      ChunkLine(s, pos, size);
      ChunkStartsAtLine(b, s, Fgets(s, pos, size), q, size);
    }
  }

  /** The line of the signed content that belongs to a line of the text. */
  lemma SignedLineAt(t: string, p: nat)
    requires p <= |t| && StartsLine(t, p)
    ensures var s, n := ToCRLF(t), |ToCRLF(t[..p])|;
      && n <= |s| && s[n..] == ToCRLF(t[p..]) && StartsLine(s, n)
  {
    assert t == t[..p] + t[p..];
    ToCRLFAppend(t[..p], t[p..]);
    if p > 0 {
      assert t[..p] == t[..p - 1] + "\n";
      ToCRLFAppend(t[..p - 1], "\n");
      SignedStart();
    }
  }

  lemma LineOfCRLF(t: string)
    ensures LineAt(ToCRLF(t)) in {LineAt(t), LineAt(t) + "\r"}
  {
    var l := LineAt(t);
    ToCRLFPlain(l);
    if |l| == |t| {
      assert t == l;
      LineIsUnique(l, |l|);
    } else {
      var rest := t[|l| + 1..];
      assert t == l + "\n" + rest;
      ToCRLFAppend(l + "\n", rest);
      ToCRLFAppend(l, "\n");
      SignedStart();
      hide ToCRLF, LineAt;
      FirstLine(l + "\r", ToCRLF(rest));
      assert l + "\r\n" == l + "\r" + "\n";
    }
  }

  lemma FirstLine(l: string, rest: string)
    requires '\n' !in l
    ensures LineAt(l + "\n" + rest) == l
  {
    LineIsUnique(l + "\n" + rest, |l|);
  }

  /** A line that looks like a delimiter still does after its line end became CRLF. */
  lemma DelimitsCRLF(b: string, t: string, size: nat)
    requires |b| + 4 <= size && t != ""
    ensures BoundaryLine([b], Head(LineAt(t), size)) ==> Delimits(b, ToCRLF(t)[0..Fgets(ToCRLF(t), 0, size)])
  {
    LineOfCRLF(t);
    ToCRLFGrows(t);
    ChunkHead(ToCRLF(t), 0, size);
    assert ToCRLF(t)[0..] == ToCRLF(t);
  }

  /** A boundary that good_boundary accepts delimits no line of the text. */
  lemma GoodBoundaryIsClearAt(b: string, t: string, p: nat, size: nat)
    requires |b| + 4 <= size && NoChunkDelimits(b, ToCRLF(t), 0, size)
    requires p < |t| && StartsLine(t, p)
    ensures !BoundaryLine([b], Head(LineAt(t[p..]), size))
  {
    hide ToCRLF, BoundaryLine, LineAt, Fgets;
    var s, n := ToCRLF(t), |ToCRLF(t[..p])|;
    SignedLineAt(t, p);
    ToCRLFGrows(t[p..]);
    ChunkStartsAtLine(b, s, 0, n, size);
    DelimitsCRLF(b, t[p..], size);
    FgetsShift(s, n, size);
    assert s[n..Fgets(s, n, size)] == s[n..][0..Fgets(s, n, size) - n];
  }

  lemma GoodBoundaryIsClear(b: string, t: string, size: nat)
    requires |b| + 4 <= size && NoChunkDelimits(b, ToCRLF(t), 0, size)
    ensures ClearFrom([b], t, 0, size)
  {
    forall p: nat | p < |t| && StartsLine(t, p)
      ensures !BoundaryLine([b], Head(LineAt(t[p..]), size))
    {
      GoodBoundaryIsClearAt(b, t, p, size);
    }
  }

  lemma {:induction false} BeforeStop(stack: seq<string>, s: string, pos: nat, size: nat, q: nat)
    requires pos <= |s| && size >= 2 && pos <= q < StopAt(stack, s, pos, size)
    requires q == pos || s[q - 1] == '\n'
    ensures !BoundaryLine(stack, s[q..Fgets(s, q, size)])
    decreases |s| - pos
  {
    if pos < q {
      var l := LineAt(s[pos..]);
      forall k | pos <= k < pos + |l|
        ensures s[k] != '\n'
      {
        assert l[k - pos] == s[k] && l[k - pos] in l;
      }
      BeforeStop(stack, s, NextLine(s, pos), size, q);
    }
  }

  lemma LineOfPrefix(x: string, y: string)
    requires x <= y && (x == y || (x != "" && x[|x| - 1] == '\n'))
    ensures LineAt(x) == LineAt(y)
  {
    var l := LineAt(x);
    assert y[..|l|] == x[..|l|];
    assert |l| == |x| && x != "" ==> x[|x| - 1] in l;
    LineIsUnique(y, |l|);
  }

  /** No line that the signer read looked like one of the outer boundaries. */
  lemma ConsumedIsClear(outer: seq<string>, input: string, start: nat, size: nat)
    requires PlainStack(outer) && start <= |input| && size >= 2
    requires var pos := StopAt(outer, input, start, size); pos == |input| || pos == start || input[pos - 1] == '\n'
    ensures ClearFrom(outer, input[start..StopAt(outer, input, start, size)], 0, size)
  {
    hide StopAt, BoundaryLine, LineAt, Fgets;
    var pos := StopAt(outer, input, start, size);
    var consumed := input[start..pos];
    forall k: nat | k < |consumed| && StartsLine(consumed, k)
      ensures !BoundaryLine(outer, Head(LineAt(consumed[k..]), size))
    {
      BeforeStop(outer, input, start, size, start + k);
      ChunkBoundary(outer, input, start + k, size);
      assert consumed[k..] == input[start + k..][..pos - start - k];
      LineOfPrefix(consumed[k..], input[start + k..]);
    }
  }

  /** Header and body put together show a boundary exactly when one of them does. */
  lemma JoinedClearIff(stack: seq<string>, header: string, body: string, size: nat)
    requires size >= 2
    ensures ClearFrom(stack, header + "\n" + body, 0, size)
       <==> ClearFrom(stack, header, 0, size) && ClearFrom(stack, body, 0, size)
  {
    hide BoundaryLine, LineAt;
    var u := header + "\n" + body;
    EmptyIsNoBoundary(stack, size);
    forall p: nat | p <= |header|
      ensures LineAt(u[p..]) == LineAt(header[p..])
      ensures StartsLine(u, p) <==> StartsLine(header, p)
    {
      assert u[p..] == header[p..] + "\n" + body;
      LineInside(header, p, u, p, body);
    }
    forall p: nat | p < |body|
      ensures u[|header| + 1 + p..] == body[p..]
      ensures StartsLine(u, |header| + 1 + p) <==> StartsLine(body, p)
    {}
    if ClearFrom(stack, u, 0, size) {
      forall p: nat | p < |body| && StartsLine(body, p)
        ensures !BoundaryLine(stack, Head(LineAt(body[p..]), size))
      {
        assert StartsLine(u, |header| + 1 + p);
      }
    }
    if ClearFrom(stack, header, 0, size) && ClearFrom(stack, body, 0, size) {
      forall p: nat | p < |u| && StartsLine(u, p)
        ensures !BoundaryLine(stack, Head(LineAt(u[p..]), size))
      {
        if p > |header| {
          assert StartsLine(body, p - |header| - 1);
        } else if p == |header| {
          assert header[p..] == "";
        }
      }
    }
  }

  /** A newline at the end makes no difference. */
  lemma ChompedClearIff(stack: seq<string>, t: string, size: nat)
    requires size >= 2
    ensures ClearFrom(stack, t + "\n", 0, size) <==> ClearFrom(stack, t, 0, size)
  {
    hide ClearFrom;
    JoinedClearIff(stack, t, "", size);
    assert t + "\n" + "" == t + "\n";
    EmptyIsClear(stack, size);
  }

  lemma EmptyIsClear(stack: seq<string>, size: nat)
    requires size >= 2
    ensures ClearFrom(stack, "", 0, size)
  {
  }

  lemma ClearOfBothIff(b: string, outer: seq<string>, t: string, size: nat)
    requires size >= 2
    ensures ClearFrom([b] + outer, t, 0, size) <==> ClearFrom([b], t, 0, size) && ClearFrom(outer, t, 0, size)
  {
    hide LineAt;
    forall line: string
      ensures BoundaryLine([b] + outer, line) <==> BoundaryLine([b], line) || BoundaryLine(outer, line)
    {}
    hide BoundaryLine;
  }

  // ----- the whole exchange -----

  /** The text to be signed, before its line ends become CRLF: a part that is not inside a multipart
      gets a last line end. */
  function FullText(outer: seq<string>, plain: string): string {
    plain + if outer == [] then "\n" else ""
  }

  /** What can be said beforehand: neither a content header nor a line of the body looks like an outer
      boundary once the carriage returns are dropped. */
  ghost predicate Unmistakable(outer: seq<string>, headers: seq<string>, consumed: string, size: nat)
    requires size >= 2
  {
    ClearFrom(outer, ContentHeaders(headers), 0, size) && ClearFrom(outer, StripCR(consumed), 0, size)
  }

  lemma SignedTextClearIff(
      outer: seq<string>, headers: seq<string>, consumed: string, plain: string, isOpen: bool, size: nat)
    requires size >= 2 && SignedText(plain, headers, consumed, isOpen)
    ensures ClearFrom(outer, FullText(outer, plain), 0, size) <==> Unmistakable(outer, headers, consumed, size)
  {
    hide ClearFrom;
    if outer == [] {
      NoOuterIsClear(FullText(outer, plain), size);
      NoOuterIsClear(ContentHeaders(headers), size);
      NoOuterIsClear(StripCR(consumed), size);
    } else {
      assert plain + "" == plain;
      ChompedClearIff(outer, plain, size);
      JoinedClearIff(outer, ContentHeaders(headers), StripCR(consumed), size);
    }
  }

  lemma NoOuterIsClear(t: string, size: nat)
    requires size >= 2
    ensures ClearFrom([], t, 0, size)
  {
  }

  /** For every message, every read-buffer size that holds a delimiter and every boundary that
      good_boundary accepts: the verifier rebuilds the bytes that were signed if and only if nothing in
      the message looks like an outer boundary once its carriage returns are gone. */
  lemma SignedPartVerifiesIff(
      outer: seq<string>, headers: seq<string>, consumed: string, plain: string, isOpen: bool, size: nat,
      b: string, signature: string)
    requires PlainStack(outer) && NoBreaks(b) && |b| + 4 <= size
    requires SignedText(plain, headers, consumed, isOpen)
    requires NoChunkDelimits(b, ToCRLF(FullText(outer, plain)), 0, size)
    ensures var text := FullText(outer, plain);
      var verified := Rebuilt([b] + outer, Published(b, text, signature), 0, size) == Some(ToCRLF(text));
      verified <==> Unmistakable(outer, headers, consumed, size)
  {
    hide ClearFrom, ToCRLF, Rebuilt, Published, NoChunkDelimits, SignedText, Unmistakable, FullText;
    var text := FullText(outer, plain);
    GoodBoundaryIsClear(b, text, size);
    ClearOfBothIff(b, outer, text, size);
    SignedTextClearIff(outer, headers, consumed, plain, isOpen, size);
    RebuiltIffClear(outer, b, text, signature, size);
  }

  // ----- messages that need no looking at -----

  /** Carriage returns stand only at the end of lines, as in every message with LF or CRLF line ends. */
  predicate ReturnsEndLines(s: string) {
    forall i :: 0 <= i < |s| - 1 && s[i] == '\r' ==> s[i + 1] == '\r' || s[i + 1] == '\n'
  }

  lemma {:induction false} StrippedIsPrefix(l: string)
    requires ReturnsEndLines(l) && '\n' !in l
    ensures StripCR(l) <= l && '\n' !in StripCR(l)
    ensures l != "" && l[0] == '\r' ==> StripCR(l) == ""
  {
    if l != "" {
      forall i | 0 <= i < |l[1..]|
        ensures l[1..][i] == l[i + 1]
      {}
      StrippedIsPrefix(l[1..]);
      if l[0] == '\r' && |l| > 1 { assert l[1] in l; }
    }
  }

  lemma PrefixIsNoBoundary(stack: seq<string>, m: string, l: string, size: nat)
    requires size >= 2 && m <= l && !BoundaryLine(stack, Head(l, size))
    ensures !BoundaryLine(stack, Head(m, size))
  {
    var x, y := Head(m, size), Head(l, size);
    assert x <= y;
    if |x| >= 2 { assert x[2..] <= y[2..]; }
    assert forall b :: b in stack && |x| >= 2 && Begins(b, x[2..]) ==> Begins(b, y[2..]);
  }

  lemma OneLineClear(stack: seq<string>, l: string, size: nat)
    requires size >= 2 && '\n' !in l
    ensures ClearFrom(stack, l, 0, size) <==> !BoundaryLine(stack, Head(l, size))
  {
    hide BoundaryLine;
    LineIsUnique(l, |l|);
    assert l[0..] == l && l[..|l|] == l;
    EmptyIsNoBoundary(stack, size);
    assert forall p: nat :: 0 < p < |l| && StartsLine(l, p) ==> l[p - 1] in l;
  }

  lemma StripLine(l: string, rest: string)
    ensures StripCR(l + "\n" + rest) == StripCR(l) + "\n" + StripCR(rest)
  {
    StripCRIsClean("\n");
    hide StripCR;
    StripCRAppend(l + "\n", rest);
    StripCRAppend(l, "\n");
  }

  lemma StrippedLineIsClear(stack: seq<string>, l: string, size: nat)
    requires size >= 2 && '\n' !in l && ReturnsEndLines(l) && ClearFrom(stack, l, 0, size)
    ensures ClearFrom(stack, StripCR(l), 0, size)
  {
    StrippedIsPrefix(l);
    hide ClearFrom, BoundaryLine, StripCR, Head;
    OneLineClear(stack, l, size);
    OneLineClear(stack, StripCR(l), size);
    PrefixIsNoBoundary(stack, StripCR(l), l, size);
  }

  lemma FirstLineOff(s: string) returns (l: string, rest: string)
    requires '\n' in s
    ensures s == l + "\n" + rest && '\n' !in l
    ensures ReturnsEndLines(s) ==> ReturnsEndLines(l) && ReturnsEndLines(rest)
  {
    l := LineAt(s);
    assert |l| < |s|;
    rest := s[|l| + 1..];
    forall i | 0 <= i < |rest|
      ensures rest[i] == s[|l| + 1 + i]
    {}
  }

  /** Dropping carriage returns at line ends makes no line look like a boundary that did not before. */
  lemma {:induction false} StrippedIsClear(stack: seq<string>, s: string, size: nat)
    requires size >= 2 && ReturnsEndLines(s) && ClearFrom(stack, s, 0, size)
    ensures ClearFrom(stack, StripCR(s), 0, size)
    decreases |s|
  {
    hide *;
    if '\n' !in s {
      StrippedLineIsClear(stack, s, size);
    } else {
      var l, rest := FirstLineOff(s);
      JoinedClearIff(stack, l, rest, size);
      StrippedLineIsClear(stack, l, size);
      StrippedIsClear(stack, rest, size);
      StripLine(l, rest);
      JoinedClearIff(stack, StripCR(l), StripCR(rest), size);
    }
  }

  /** In particular the exchange succeeds for every body with LF or CRLF line ends. */
  lemma PlainBodyIsUnmistakable(outer: seq<string>, headers: seq<string>, input: string, start: nat, size: nat)
    requires PlainStack(outer) && start <= |input| && size >= 2
    requires var pos := StopAt(outer, input, start, size);
      && (pos == |input| || pos == start || input[pos - 1] == '\n')
      && ReturnsEndLines(input[start..pos])
    ensures Unmistakable(outer, headers, input[start..StopAt(outer, input, start, size)], size)
       <==> ClearFrom(outer, ContentHeaders(headers), 0, size)
  {
    hide StopAt, ClearFrom;
    ConsumedIsClear(outer, input, start, size);
    StrippedIsClear(outer, input[start..StopAt(outer, input, start, size)], size);
  }

  datatype SignedPart = SignedPart(toGpg: string, boundary: string, body: string, pos: nat, iseof: bool)

  /** newboundary's boundaries are short and hold no line breaks. */
  predicate Fit(candidates: seq<string>, size: nat) {
    forall c :: c in candidates ==> NoBreaks(c) && |c| + 4 <= size
  }

  /** dogpgsign: the bytes given to gpg, and what is printed after the header of the new multipart. */
  method Sign(outer: seq<string>, headers: seq<string>, iseof0: bool, input: string, start: nat, size: nat,
              candidates: seq<string>, signature: string)
    returns (r: Option<SignedPart>, ghost plain: string)
    requires start <= |input| && size >= 2
    requires iseof0 ==> start == |input|
    ensures var pos := StopAt(outer, input, start, size);
      SignedText(plain, headers, input[start..pos], pos == start || input[pos - 1] == '\n')
    ensures r.Some? ==> r.value.boundary in candidates && r.value.pos == StopAt(outer, input, start, size)
    ensures r.Some? ==> r.value.toGpg == ToCRLF(FullText(outer, plain))
    ensures var pos := StopAt(outer, input, start, size);
      r.Some? ==> SignedBytes(r.value.toGpg, outer, headers, input[start..pos], pos == start || input[pos - 1] == '\n')
    ensures r.Some? ==> r.value.body == Published(r.value.boundary, FullText(outer, plain), signature)
    ensures r.Some? && PlainStack(outer) && Fit(candidates, size) ==>
      var verified := Rebuilt([r.value.boundary] + outer, r.value.body, 0, size) == Some(r.value.toGpg);
      verified <==> Unmistakable(outer, headers, input[start..StopAt(outer, input, start, size)], size)
  {
    hide StopAt, ToCRLF, StripCR, Rebuilt, Published, NoChunkDelimits, Unmistakable, HitOf, BoundaryLine, Fgets, SignedText;
    var signed, pos, iseof, hit;
    signed, pos, iseof, hit, plain := WriteSignedContent(outer, headers, iseof0, input, start, size);
    ghost var text := FullText(outer, plain);
    var b := GetBoundary(outer, candidates, signed, size);
    if b.None? {
      return None, plain;
    }
    var toGpg, printed := CopySignedContent(signed, size);
    r := Some(SignedPart(toGpg, b.value, Published(b.value, printed, signature), pos, iseof));
    ghost var isOpen := pos == start || input[pos - 1] == '\n';
    SignedBytesAre(plain, outer, headers, input[start..pos], isOpen);
    hide SignedBytes;
    NoCRInSigned(plain, headers, input[start..pos], isOpen);
    StripToCRLF(text);
    if PlainStack(outer) && Fit(candidates, size) {
      SignedPartVerifiesIff(outer, headers, input[start..pos], plain, isOpen, size, b.value, signature);
    }
  }

  lemma {:induction false} NoCRInHeaders(headers: seq<string>)
    ensures '\r' !in ContentHeaders(headers)
  {
    if headers != [] {
      NoCRInHeaders(headers[..|headers| - 1]);
      StripCRIsClean(headers[|headers| - 1]);
    }
  }

  lemma NoCRInSigned(text: string, headers: seq<string>, consumed: string, isOpen: bool)
    requires SignedText(text, headers, consumed, isOpen)
    ensures '\r' !in text
  {
    NoCRInHeaders(headers);
    StripCRIsClean(consumed);
    var u := text + (if isOpen then "\n" else "");
    assert forall c :: c in text ==> c in u;
  }

  const HIDDEN := "-\r-x\n"

  lemma HiddenFromSigner()
    ensures PlainStack(["x"]) && StopAt(["x"], HIDDEN, 0, 16) == 5
  {
    assert NoBreaks("x");
    assert HIDDEN[0..] == HIDDEN;
    LineIsUnique(HIDDEN, 4);
    assert HIDDEN[..4] == "-\r-x";
  }

  lemma StripCRStep(c: char, rest: string)
    ensures StripCR([c] + rest) == (if c == '\r' then "" else [c]) + StripCR(rest)
  {
    assert ([c] + rest)[1..] == rest;
  }

  lemma HiddenAppears()
    ensures StripCR(HIDDEN) == "--x\n"
  {
    hide StripCR;
    StripCRIsClean("-x\n");
    StripCRStep('\r', "-x\n");
    StripCRStep('-', ['\r'] + "-x\n");
    assert HIDDEN == ['-'] + (['\r'] + "-x\n");
  }

  lemma SeenByVerifier(b: string)
    ensures !ClearFrom([b] + ["x"], "\n--x", 0, 16)
  {
    var line := "\n--x"[1..];
    assert line == "--x" && StartsLine("\n--x", 1);
    LineIsUnique(line, 3);
    assert line[2..] == "x" && Begins("x", "x") && "x" in [b] + ["x"];
    assert BoundaryLine([b] + ["x"], Head(LineAt(line), 16));
  }

  /** A carriage return can hide an outer boundary from the signer and not from the verifier: the raw
      line is no boundary, but what is left of it after the carriage return is dropped is one. */
  lemma CarriageReturnHidesBoundary(b: string, signature: string)
    requires NoBreaks(b) && |b| <= 12
    ensures var outer, text := ["x"], "\n--x";
      && PlainStack(outer) && ClearFrom(outer, ContentHeaders([]), 0, 16)
      && StopAt(outer, HIDDEN, 0, 16) == |HIDDEN| && SignedText(text, [], HIDDEN, true)
      && Rebuilt([b] + outer, Published(b, text, signature), 0, 16) != Some(ToCRLF(text))
  {
    HiddenFromSigner();
    HiddenAppears();
    SeenByVerifier(b);
    hide StopAt, StripCR, ToCRLF, Rebuilt, Published, BoundaryLine;
    RebuiltIffClear(["x"], b, "\n--x", signature, 16);
  }
}
