/** Lines, line ends and MIME boundaries, as src/gpglib/mimegpg.c and mimegpgstack.c see them.
    A file is a text and a position; the mimestack is a sequence with its top first. */
module MimeText {
  import opened Text

  // ----- line ends -----

  function ToCRLF(s: string): string {
    if s == "" then "" else (if s[0] == '\n' then "\r\n" else [s[0]]) + ToCRLF(s[1..])
  }

  lemma {:induction false} ToCRLFAppend(a: string, b: string)
    ensures ToCRLF(a + b) == ToCRLF(a) + ToCRLF(b)
  {
    if a == "" {
      assert a + b == b;
    } else {
      ToCRLFAppend(a[1..], b);
      assert (a + b)[1..] == a[1..] + b;
      var first := if a[0] == '\n' then "\r\n" else [a[0]];
      assert first + (ToCRLF(a[1..]) + ToCRLF(b)) == (first + ToCRLF(a[1..])) + ToCRLF(b);
    }
  }

  lemma {:induction false} ToCRLFPlain(s: string)
    requires '\n' !in s
    ensures ToCRLF(s) == s
  {
    if s != "" {
      ToCRLFPlain(s[1..]);
      assert s == [s[0]] + s[1..];
    }
  }

  /** Removing the carriage returns again gives back a text that had none. */
  lemma {:induction false} StripToCRLF(s: string)
    requires '\r' !in s
    ensures StripCR(ToCRLF(s)) == s
  {
    if s != "" {
      var first := if s[0] == '\n' then "\r\n" else [s[0]];
      StripToCRLF(s[1..]);
      StripCRAppend(first, ToCRLF(s[1..]));
      assert s[0] != '\r';
      assert StripCR(first) == [s[0]] by {
        if s[0] == '\n' { assert first[1..] == "\n"; }
      }
      assert s == [s[0]] + s[1..];
    }
  }

  lemma {:induction false} ToCRLFGrows(s: string)
    ensures |ToCRLF(s)| >= |s|
    ensures s != "" ==> ToCRLF(s) != ""
  {
    if s != "" { ToCRLFGrows(s[1..]); }
  }

  /** The form that is signed: no carriage returns but one before each newline. */
  function Canonical(s: string): string {
    if s == "" then ""
    else (if s[0] == '\r' then "" else if s[0] == '\n' then "\r\n" else [s[0]]) + Canonical(s[1..])
  }

  lemma {:induction false} CanonicalIs(s: string)
    ensures ToCRLF(StripCR(s)) == Canonical(s)
  {
    if s != "" {
      CanonicalIs(s[1..]);
      if s[0] == '\r' {
        assert "" + StripCR(s[1..]) == StripCR(s[1..]);
      } else {
        assert ([s[0]] + StripCR(s[1..]))[1..] == StripCR(s[1..]);
      }
    }
  }

  /** Carriage returns come before newlines only, and newlines behind carriage returns only. */
  predicate Paired(t: string) {
    && (forall i :: 0 <= i < |t| && t[i] == '\r' ==> i + 1 < |t| && t[i + 1] == '\n')
    && (forall i :: 0 <= i < |t| && t[i] == '\n' ==> i > 0 && t[i - 1] == '\r')
  }

  lemma PairedAppend(a: string, b: string)
    requires Paired(a) && Paired(b)
    ensures Paired(a + b)
  {
  }

  lemma {:induction false} CanonicalPairs(s: string)
    ensures Paired(Canonical(s))
    ensures StripCR(Canonical(s)) == StripCR(s)
  {
    if s != "" {
      var rest := Canonical(s[1..]);
      var first := if s[0] == '\r' then "" else if s[0] == '\n' then "\r\n" else [s[0]];
      CanonicalPairs(s[1..]);
      assert Paired(first);
      assert StripCR(first) == if s[0] == '\r' then "" else [s[0]] by {
        assert "\r\n"[1..] == "\n" && StripCR("\n") == "\n";
      }
      assert StripCR(s) == (if s[0] == '\r' then "" else [s[0]]) + StripCR(s[1..]);
      hide Paired, StripCR;
      StripCRAppend(first, rest);
      PairedAppend(first, rest);
    }
  }

  // ----- lines and read buffers -----

  /** The text up to the first newline. */
  function LineAt(s: string): (l: string)
    ensures |l| <= |s| && l == s[..|l|] && '\n' !in l
    ensures |l| < |s| ==> s[|l|] == '\n'
  {
    if s == "" || s[0] == '\n' then "" else
      var rest := LineAt(s[1..]);
      assert s[..1 + |rest|] == [s[0]] + s[1..][..|rest|];
      [s[0]] + rest
  }

  lemma LineIsUnique(s: string, n: nat)
    requires n <= |s| && '\n' !in s[..n] && (n == |s| || s[n] == '\n')
    ensures LineAt(s) == s[..n]
  {
    var l := LineAt(s);
    forall k | 0 <= k < n ensures s[k] != '\n' { assert s[..n][k] in s[..n]; }
    forall k | 0 <= k < |l| ensures s[k] != '\n' { assert l[k] in l; }
  }

  /** Where the next line starts. */
  function NextLine(s: string, pos: nat): (next: nat)
    requires pos < |s|
    ensures pos < next <= |s|
  {
    var n := |LineAt(s[pos..])|;
    if pos + n < |s| then pos + n + 1 else |s|
  }

  /** fgets with a buffer of the given size: the position after the characters read. */
  function Fgets(s: string, pos: nat, size: nat): (e: nat)
    requires pos <= |s| && size >= 2
    ensures pos < |s| ==> pos < e
    ensures pos <= e <= |s| && e - pos < size
  {
    if pos == |s| then pos else
      var next := NextLine(s, pos);
      if next - pos < size then next else pos + size - 1
  }

  /** A buffer is filled up to a newline, to its last place but one, or to the end of the file, whichever
      comes first. */
  lemma FgetsIs(s: string, pos: nat, size: nat)
    requires pos < |s| && size >= 2
    ensures var e := Fgets(s, pos, size);
      && (e == |s| || e - pos == size - 1 || s[e - 1] == '\n')
      && forall k :: pos <= k < e - 1 ==> s[k] != '\n'
  {
    var e, line := Fgets(s, pos, size), LineAt(s[pos..]);
    forall k | pos <= k < e && k < pos + |line|
      ensures s[k] != '\n'
    {
      assert line[k - pos] == s[pos..][k - pos] == s[k];
    }
    if pos + |line| < |s| { assert s[pos..][|line|] == s[pos + |line|]; }
  }

  function Min(a: nat, b: nat): nat {
    if a < b then a else b
  }

  // ----- boundaries -----

  function Lower(c: char): char {
    if 'A' <= c <= 'Z' then c - 'A' + 'a' else c
  }

  /** strncasecmp(b, s, |b|) == 0 */
  predicate Begins(b: string, s: string) {
    |b| <= |s| && forall i :: 0 <= i < |b| ==> Lower(b[i]) == Lower(s[i])
  }

  /** The same character, or the same letter in the other case. */
  predicate SameLetter(c: char, d: char) {
    c == d || ('A' <= c <= 'Z' && d as int == c as int + 32) || ('a' <= c <= 'z' && d as int == c as int - 32)
  }

  lemma LowerIs(c: char, d: char)
    ensures Lower(c) == Lower(d) <==> SameLetter(c, d)
  {
  }

  /** s begins with b but for the case of letters. */
  lemma BeginsIs(b: string, s: string)
    ensures Begins(b, s) <==> |b| <= |s| && forall i :: 0 <= i < |b| ==> SameLetter(b[i], s[i])
  {
    forall i | 0 <= i < |b| && i < |s|
      ensures Lower(b[i]) == Lower(s[i]) <==> SameLetter(b[i], s[i])
    {
      LowerIs(b[i], s[i]);
    }
    hide Lower, SameLetter;
  }

  /** is_boundary finds an entry for the line just read. */
  predicate BoundaryLine(stack: seq<string>, line: string) {
    |line| >= 2 && line[0] == '-' && line[1] == '-' && exists b :: b in stack && Begins(b, line[2..])
  }

  predicate NoBreaks(b: string) {
    '\n' !in b && '\r' !in b
  }

  predicate PlainStack(stack: seq<string>) {
    forall b :: b in stack ==> NoBreaks(b)
  }

  /** As much of a line as a buffer of the given size holds. */
  function Head(line: string, size: nat): string
    requires size >= 2
  {
    line[..Min(|line|, size - 1)]
  }

  /** What fgets returns, without its newline. */
  lemma ChunkHead(s: string, pos: nat, size: nat)
    requires pos < |s| && size >= 2
    ensures var chunk, line := s[pos..Fgets(s, pos, size)], LineAt(s[pos..]);
      chunk == Head(line, size) || (chunk == Head(line, size) + "\n" && Head(line, size) == line)
  {
  }

  lemma BeginsIgnoresNewline(b: string, l: string)
    requires NoBreaks(b)
    ensures Begins(b, l + "\n") <==> Begins(b, l)
  {
    if |b| == |l| + 1 {
      assert b[|l|] in b;
      assert Lower(b[|l|]) != Lower((l + "\n")[|l|]);
    }
  }

  /** A newline at the end of the buffer makes no difference to the boundary test. */
  lemma BoundaryIgnoresNewline(stack: seq<string>, line: string)
    requires PlainStack(stack)
    ensures BoundaryLine(stack, line + "\n") <==> BoundaryLine(stack, line)
  {
    if |line| >= 2 {
      assert (line + "\n")[2..] == line[2..] + "\n";
      forall b | b in stack
        ensures Begins(b, line[2..] + "\n") <==> Begins(b, line[2..])
      {
        BeginsIgnoresNewline(b, line[2..]);
      }
    } else if |line| == 1 {
      assert (line + "\n")[1] == '\n';
    }
  }

  lemma ChunkBoundary(stack: seq<string>, s: string, pos: nat, size: nat)
    requires pos < |s| && size >= 2 && PlainStack(stack)
    ensures BoundaryLine(stack, s[pos..Fgets(s, pos, size)]) <==> BoundaryLine(stack, Head(LineAt(s[pos..]), size))
  {
    ChunkHead(s, pos, size);
    BoundaryIgnoresNewline(stack, Head(LineAt(s[pos..]), size));
  }

  /** The first line, from the line that starts at pos on, whose read buffer shows a boundary. */
  function StopAt(stack: seq<string>, s: string, pos: nat, size: nat): (stop: nat)
    requires pos <= |s| && size >= 2
    ensures pos <= stop <= |s|
    decreases |s| - pos
  {
    if pos == |s| || BoundaryLine(stack, s[pos..Fgets(s, pos, size)]) then pos
    else StopAt(stack, s, NextLine(s, pos), size)
  }

  /** A line begins at q. */
  predicate LineBegins(s: string, start: nat, q: nat) {
    start <= q <= |s| && (q == start || s[q - 1] == '\n')
  }

  lemma LinesBegin(s: string, pos: nat, q: nat)
    requires pos < |s| && LineBegins(s, pos, q) && q > pos
    ensures q == NextLine(s, pos) || LineBegins(s, NextLine(s, pos), q)
  {
    var n := |LineAt(s[pos..])|;
    forall k | pos <= k < pos + n ensures s[k] != '\n' { assert LineAt(s[pos..])[k - pos] == s[pos..][k - pos]; }
    if pos + n < |s| { assert s[pos..][n] == s[pos + n]; }
  }

  /** The place where the search ends is the first at which a line begins and shows a boundary, or the end. */
  lemma {:induction false} StopAtIs(stack: seq<string>, s: string, pos: nat, size: nat)
    requires pos <= |s| && size >= 2
    ensures var stop := StopAt(stack, s, pos, size);
      && (stop == |s| || (LineBegins(s, pos, stop) && BoundaryLine(stack, s[stop..Fgets(s, stop, size)])))
      && forall q: nat :: LineBegins(s, pos, q) && q < stop ==> !BoundaryLine(stack, s[q..Fgets(s, q, size)])
    decreases |s| - pos
  {
    if pos < |s| && !BoundaryLine(stack, s[pos..Fgets(s, pos, size)]) {
      var next, n := NextLine(s, pos), |LineAt(s[pos..])|;
      StopAtIs(stack, s, next, size);
      if pos + n < |s| { assert s[pos..][n] == s[pos + n]; }
      forall q: nat | LineBegins(s, pos, q) && q < StopAt(stack, s, pos, size)
        ensures !BoundaryLine(stack, s[q..Fgets(s, q, size)])
      {
        if q > pos { LinesBegin(s, pos, q); }
      }
    }
  }

  // ----- the stack -----

  /** search_mimestack */
  method SearchMimestack(stack: seq<string>, c: string) returns (r: Option<string>)
    ensures r.Some? <==> exists b :: b in stack && Begins(b, c)
    ensures r.Some? ==> r.value in stack && Begins(r.value, c)
    ensures r == FirstMatch(stack, c)
  {
    var p := 0;
    while p < |stack|
      invariant p <= |stack|
      invariant forall k :: 0 <= k < p ==> !Begins(stack[k], c)
      invariant FirstMatch(stack, c) == FirstMatch(stack[p..], c)
    {
      if Begins(stack[p], c) {
        return Some(stack[p]);
      }
      assert stack[p..][1..] == stack[p + 1..];
      p := p + 1;
    }
    return None;
  }

  function FirstMatch(stack: seq<string>, c: string): Option<string> {
    if stack == [] then None
    else if Begins(stack[0], c) then Some(stack[0])
    else FirstMatch(stack[1..], c)
  }

  datatype Hit = NoBoundary | Boundary(entry: string, closing: bool)

  function HitOf(stack: seq<string>, line: string): (h: Hit)
    ensures h.Boundary? <==> BoundaryLine(stack, line)
  {
    if |line| < 2 || line[0] != '-' || line[1] != '-' then NoBoundary else
      FirstMatchExists(stack, line[2..]);
      match FirstMatch(stack, line[2..])
      case None => NoBoundary
      case Some(b) => Boundary(b, "--" <= line[2 + |b|..])
  }

  lemma {:induction false} FirstMatchExists(stack: seq<string>, c: string)
    ensures FirstMatch(stack, c).Some? <==> exists b :: b in stack && Begins(b, c)
    ensures FirstMatch(stack, c).Some? ==> FirstMatch(stack, c).value in stack && Begins(FirstMatch(stack, c).value, c)
  {
    if stack != [] { FirstMatchExists(stack[1..], c); }
  }

  /** The entry of the stack that s begins with and none above it does. */
  ghost predicate FirstEntry(stack: seq<string>, s: string, i: nat) {
    i < |stack| && Begins(stack[i], s) && forall k :: 0 <= k < i ==> !Begins(stack[k], s)
  }

  lemma {:induction false} FirstMatchIs(stack: seq<string>, s: string, i: nat)
    requires FirstEntry(stack, s, i)
    ensures FirstMatch(stack, s) == Some(stack[i])
  {
    if i > 0 { FirstMatchIs(stack[1..], s, i - 1); }
  }

  /** A line is a boundary if two dashes and an entry begin it, and closes that entry if two more follow. */
  lemma HitIs(stack: seq<string>, s: string, i: nat)
    requires FirstEntry(stack, s, i)
    ensures var n := |stack[i]|;
      HitOf(stack, "--" + s) == Boundary(stack[i], |s| >= n + 2 && s[n] == '-' && s[n + 1] == '-')
  {
    var line, n := "--" + s, |stack[i]|;
    FirstMatchIs(stack, s, i);
    assert line[2..] == s && line[2 + n..] == s[n..];
    assert "--" <= s[n..] <==> |s| >= n + 2 && s[n] == '-' && s[n + 1] == '-';
  }

  /** is_boundary */
  method IsBoundary(stack: seq<string>, line: string) returns (h: Hit)
    ensures h == HitOf(stack, line)
  {
    if |line| < 2 || line[0] != '-' || line[1] != '-' {
      return NoBoundary;
    }
    var b := SearchMimestack(stack, line[2..]);
    if b.None? {
      return NoBoundary;
    }
    h := Boundary(b.value, "--" <= line[2 + |b.value|..]);
  }

  /** What is left below the first entry that is b. */
  function PopTo(stack: seq<string>, b: string): (r: seq<string>)
    ensures |r| <= |stack| && r == stack[|stack| - |r|..]
    ensures b in stack ==> |r| < |stack| && stack[|stack| - |r| - 1] == b && b !in stack[..|stack| - |r| - 1]
    ensures b !in stack ==> r == []
  {
    if stack == [] then []
    else if stack[0] == b then stack[1..]
    else PopTo(stack[1..], b)
  }

  /** pop_mimestack_to */
  method PopMimestackTo(stack: seq<string>, b: string) returns (r: seq<string>)
    ensures r == PopTo(stack, b)
  {
    r := stack;
    while r != []
      invariant PopTo(stack, b) == PopTo(r, b)
      decreases |r|
    {
      var last := r[0] == b;
      r := r[1..];
      if last {
        break;
      }
    }
  }
}
