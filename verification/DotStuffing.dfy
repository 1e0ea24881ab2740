/** Event text on the wire, ended by a line with a single dot: src/pcp/pcpnet.c and pcpd.c. */
module DotStuffing {
  import opened Text

  // ----- what the two sides agree on -----

  /** Whether the next character would begin a line. */
  function AtLineStart(text: string, eol: bool): bool {
    if text == "" then eol else text[|text| - 1] == '\n'
  }

  /** A dot that begins a line gets another one in front of it. */
  function Stuffed(text: string, eol: bool): string {
    if text == "" then ""
    else (if eol && text[0] == '.' then ".." else [text[0]]) + Stuffed(text[1..], text[0] == '\n')
  }

  /** The text with its last line complete. */
  function Complete(text: string): string {
    if AtLineStart(text, true) then text else text + "\n"
  }

  function Wire(text: string): string {
    Stuffed(text, true) + DotLine(AtLineStart(text, true))
  }

  /** What a receiver keeps, and what is left behind the dot line, if there was one. A carriage return
      is dropped; dot tells that a dot at the start of the line has been held back. */
  function Received(wire: string, eol: bool, dot: bool): (string, Option<string>) {
    if wire == "" then ("", None)
    else if wire[0] == '\r' then Received(wire[1..], eol, dot)
    else if wire[0] == '\n' then
      if dot then ("", Some(wire[1..])) else Kept('\n', Received(wire[1..], true, false))
    else if wire[0] == '.' && eol then Received(wire[1..], false, true)
    else Kept(wire[0], Received(wire[1..], false, false))
  }

  function Kept(c: char, r: (string, Option<string>)): (string, Option<string>) {
    ([c] + r.0, r.1)
  }

  lemma StuffedStep(c: char, t: string, eol: bool)
    ensures Stuffed([c] + t, eol) == (if eol && c == '.' then ".." else [c]) + Stuffed(t, c == '\n')
  {
    assert ([c] + t)[1..] == t;
  }

  /** A complete line, and what follows it. */
  function Line(line: string, rest: string): string {
    line + "\n" + rest
  }

  lemma LineParts(line: string, rest: string)
    ensures Line("", rest) == ['\n'] + rest
    ensures line != "" ==> Line(line, rest) == [line[0]] + Line(line[1..], rest)
    ensures line != "" ==> line == [line[0]] + line[1..] && forall c :: c in line[1..] ==> c in line
  {
    if line != "" { assert line == [line[0]] + line[1..]; }
  }

  lemma {:induction false} StuffedInside(line: string, rest: string)
    requires '\n' !in line
    ensures Stuffed(Line(line, rest), false) == Line(line, Stuffed(rest, true))
  {
    hide Stuffed, Line;
    LineParts(line, rest);
    LineParts(line, Stuffed(rest, true));
    if line == "" {
      StuffedStep('\n', rest, false);
    } else {
      assert line[0] in line;
      StuffedStep(line[0], Line(line[1..], rest), false);
      StuffedInside(line[1..], rest);
    }
  }

  /** Line by line: a line that begins with a dot gets another one, and every other stays as it is. */
  lemma StuffedLine(line: string, rest: string)
    requires '\n' !in line
    ensures Stuffed(Line(line, rest), true)
      == if line != "" && line[0] == '.' then "." + Line(line, Stuffed(rest, true)) else Line(line, Stuffed(rest, true))
  {
    hide Stuffed, Line;
    LineParts(line, rest);
    LineParts(line, Stuffed(rest, true));
    if line == "" {
      StuffedStep('\n', rest, true);
    } else {
      assert line[0] in line;
      StuffedStep(line[0], Line(line[1..], rest), true);
      StuffedInside(line[1..], rest);
      var tail := Line(line[1..], Stuffed(rest, true));
      assert ".." + tail == "." + (['.'] + tail);
    }
  }

  lemma ReceivedStep(c: char, t: string, eol: bool, dot: bool)
    requires c != '\r'
    ensures Received([c] + t, eol, dot) ==
      if c == '\n' then (if dot then ("", Some(t)) else Kept('\n', Received(t, true, false)))
      else if c == '.' && eol then Received(t, false, true)
      else Kept(c, Received(t, false, false))
  {
    assert ([c] + t)[1..] == t;
  }

  lemma {:induction false} ReceivedInside(line: string, rest: string, dot: bool)
    requires '\n' !in line && '\r' !in line && (dot ==> line != "")
    ensures var r := Received(rest, true, false);
      Received(Line(line, rest), false, dot) == (Line(line, r.0), r.1)
  {
    hide Received, Line;
    LineParts(line, rest);
    LineParts(line, Received(rest, true, false).0);
    if line == "" {
      ReceivedStep('\n', rest, false, dot);
    } else {
      assert line[0] in line;
      ReceivedStep(line[0], Line(line[1..], rest), false, dot);
      ReceivedInside(line[1..], rest, false);
    }
  }

  /** Line by line: a lone dot ends the text, and of any other line the receiver takes off one dot. */
  lemma ReceivedLine(line: string, rest: string)
    requires '\n' !in line && '\r' !in line
    ensures var r := Received(rest, true, false);
      Received(Line(line, rest), true, false) ==
        if line == "." then ("", Some(rest))
        else (Line(if line != "" && line[0] == '.' then line[1..] else line, r.0), r.1)
  {
    hide Received, Line;
    LineParts(line, rest);
    LineParts(line, Received(rest, true, false).0);
    if line == "" {
      ReceivedStep('\n', rest, true, false);
    } else {
      var l := line[1..];
      assert line[0] in line && line == [line[0]] + l;
      ReceivedStep(line[0], Line(l, rest), true, false);
      if line[0] == '.' && l == "" {
        ReceivedStep('\n', rest, false, true);
      } else {
        ReceivedInside(l, rest, line[0] == '.');
      }
    }
  }

  /** A text on the wire: each line as above, and a lone dot behind the last. */
  lemma WireExample()
    ensures Wire(".a\nb") == "..a\nb\n.\n" && Wire("") == ".\n"
  {
    StuffedLine(".a", "b");
    StuffedStep('b', "", true);
    assert ['b'] + "" == "b" && Line(".a", "b") == ".a\nb" && "." + Line(".a", "b") == "..a\nb";
    assert Stuffed("", true) == "" && "b" + "" == "b";
    hide Stuffed;
  }

  lemma {:induction false} StuffedAppend(a: string, b: string, eol: bool)
    ensures Stuffed(a + b, eol) == Stuffed(a, eol) + Stuffed(b, AtLineStart(a, eol))
  {
    if a == "" {
      assert a + b == b && "" + Stuffed(b, eol) == Stuffed(b, eol);
    } else {
      StuffedAppend(a[1..], b, a[0] == '\n');
      assert (a + b)[1..] == a[1..] + b;
      var first := if eol && a[0] == '.' then ".." else [a[0]];
      Assoc(first, Stuffed(a[1..], a[0] == '\n'), Stuffed(b, AtLineStart(a, eol)));
    }
  }

  /** What the sender puts behind the text; raw says whether it takes itself to be at a line start. */
  function DotLine(raw: bool): string {
    if raw then ".\n" else "\n.\n"
  }

  function Added(raw: bool): string {
    if raw then "" else "\n"
  }

  /** A dot that the receiver finds at the start of a line while the sender, which does count carriage
      returns, did not. */
  predicate HidesDot(text: string, eol: bool, raw: bool) {
    text != "" &&
    if text[0] == '\r' then HidesDot(text[1..], eol, false)
    else (text[0] == '.' && eol && !raw) || HidesDot(text[1..], text[0] == '\n', text[0] == '\n')
  }

  lemma ReceivedEnd(eol: bool, raw: bool, dot: bool, tail: string)
    requires (raw ==> eol) && (dot ==> !eol)
    ensures var r := Received(DotLine(raw) + tail, eol, dot);
      if dot then r.0 == "" else r == (Added(raw), Some(tail))
  {
    var a, b := ".\n" + tail, "\n" + tail;
    assert a[1..] == b && b[1..] == tail && ("\n.\n" + tail)[1..] == a;
    assert Received(b, false, true) == ("", Some(tail));
    assert Received(a, true, false) == ("", Some(tail));
    assert ['\n'] + "" == "\n";
  }

  /** What one character of the text does to the receiver. */
  lemma ReceivedNext(c: char, rest: string, eol: bool, raw: bool, dot: bool)
    requires (raw ==> eol) && (dot ==> !eol)
    ensures Received((if raw && c == '.' then ".." else [c]) + rest, eol, dot) ==
      if c == '\r' then Received(rest, eol, dot)
      else if c == '\n' && dot then ("", Some(rest))
      else if c == '.' && eol && !raw then Received(rest, false, true)
      else Kept(c, Received(rest, c == '\n', false))
  {
    if raw && c == '.' {
      var w := ".." + rest;
      assert w[1..] == "." + rest && ("." + rest)[1..] == rest;
    } else {
      assert ([c] + rest)[1..] == rest;
    }
  }

  /** From any state the receiver gets no more than was sent, and exactly that when no dot is hidden. */
  lemma {:induction false} StuffedArrives(text: string, eol: bool, raw: bool, dot: bool, tail: string)
    requires (raw ==> eol) && (dot ==> !eol)
    ensures var last := AtLineStart(text, raw);
      var r := Received(Stuffed(text, raw) + (DotLine(last) + tail), eol, dot);
      && |r.0| <= |StripCR(text)| + |Added(last)|
      && (!dot && !HidesDot(text, eol, raw) ==> r == (StripCR(text) + Added(last), Some(tail)))
      && (!dot && HidesDot(text, eol, raw) ==> |r.0| < |StripCR(text)| + |Added(last)|)
  {
    var last := AtLineStart(text, raw);
    var end := DotLine(last) + tail;
    if text == "" {
      ReceivedEnd(eol, raw, dot, tail);
      assert "" + end == end && "" + Added(last) == Added(last);
    } else {
      var c, rest := text[0], text[1..];
      var first, more := if raw && c == '.' then ".." else [c], Stuffed(rest, c == '\n');
      Assoc(first, more, end);
      ReceivedNext(c, more + end, eol, raw, dot);
      if c == '\r' {
        StuffedArrives(rest, eol, false, dot, tail);
        assert "" + StripCR(rest) == StripCR(rest);
      } else if c == '.' && eol && !raw {
        StuffedArrives(rest, false, false, true, tail);
      } else {
        StuffedArrives(rest, c == '\n', c == '\n', false, tail);
        Assoc([c], StripCR(rest), Added(last));
      }
    }
  }

  /** The text arrives without its carriage returns, up to one added line end, and the receiver stops
      exactly behind the dot line: for every text in which no dot is hidden, and for no other. */
  lemma WireArrivesIff(text: string, tail: string)
    ensures Received(Wire(text) + tail, true, false) == (StripCR(text) + Added(AtLineStart(text, true)), Some(tail))
      <==> !HidesDot(text, true, true)
  {
    hide *;
    StuffedArrives(text, true, true, false, tail);
    WireParts(text, tail);
  }

  lemma WireParts(text: string, tail: string)
    ensures Wire(text) + tail == Stuffed(text, true) + (DotLine(AtLineStart(text, true)) + tail)
    ensures Complete(text) == text + Added(AtLineStart(text, true))
  {
    hide Stuffed;
    Assoc(Stuffed(text, true), DotLine(AtLineStart(text, true)), tail);
    assert text + "" == text;
  }

  lemma {:induction false} CleanHidesNone(text: string, eol: bool)
    requires '\r' !in text
    ensures !HidesDot(text, eol, eol)
  {
    if text != "" {
      assert text[0] in text;
      CleanHidesNone(text[1..], text[0] == '\n');
    }
  }

  /** Text without carriage returns always arrives. */
  lemma WireArrives(text: string, tail: string)
    requires '\r' !in text
    ensures Received(Wire(text) + tail, true, false) == (Complete(text), Some(tail))
  {
    CleanHidesNone(text, true);
    StripCRIsClean(text);
    hide *;
    WireArrivesIff(text, tail);
    WireParts(text, tail);
  }

  /** A carriage return before a dot cuts the event short: what follows is taken for a command. */
  lemma HiddenDotEndsTheText(rest: string)
    requires AtLineStart(rest, true)
    ensures Received(Wire("\r.\n" + rest), true, false) == ("", Some(Wire(rest)))
  {
    var first, more := "\r.\n", Wire(rest);
    StuffedAppend(first, rest, true);
    HiddenDotStuffed();
    HiddenDotReceived(more);
    assert AtLineStart(first + rest, true);
    hide *;
    assert Wire(first + rest) == Stuffed(first + rest, true) + DotLine(true) by { WireOf(first + rest); }
    assert more == Stuffed(rest, true) + DotLine(true) by { WireOf(rest); }
    Assoc(first, Stuffed(rest, true), DotLine(true));
  }

  lemma WireOf(text: string)
    requires AtLineStart(text, true)
    ensures Wire(text) == Stuffed(text, true) + DotLine(true)
  {
  }

  lemma HiddenDotStuffed()
    ensures Stuffed("\r.\n", true) == "\r.\n" && AtLineStart("\r.\n", true)
  {
    assert "\r.\n"[1..] == ".\n" && ".\n"[1..] == "\n" && "\n"[1..] == "";
    assert Stuffed("\n", false) == "\n" && Stuffed(".\n", false) == ".\n";
  }

  lemma HiddenDotReceived(more: string)
    ensures Received("\r.\n" + more, true, false) == ("", Some(more))
  {
    assert ("\r.\n" + more)[1..] == ".\n" + more;
    ReceivedEnd(true, true, false, more);
  }

  // ----- sending -----

  /** The sending loop with its write buffer; wire is what has been written so far. */
  class Sender {
    var wire: string
    var wbuf: array<char>
    var used: nat
    var seeneol: bool
    ghost var sent: string

    ghost predicate Valid()
      reads this, wbuf
    {
      && used <= wbuf.Length && wbuf.Length > 0
      && wire + wbuf[..used] == Stuffed(sent, true)
      && seeneol == AtLineStart(sent, true)
    }

    constructor (size: nat)
      requires size > 0
      ensures Valid() && sent == "" && fresh(wbuf)
    {
      wire, wbuf, used, seeneol, sent := "", new char[size], 0, true, "";
    }

    /** One character into the buffer, which is written out first when it is full. */
    method Put(c: char)
      requires used <= wbuf.Length && wbuf.Length > 0
      modifies this`wire, this`used, wbuf
      ensures used <= wbuf.Length
      ensures wire + wbuf[..used] == old(wire + wbuf[..used]) + [c]
    {
      if used == wbuf.Length {
        wire, used := wire + wbuf[..], 0;
      }
      wbuf[used] := c;
      used := used + 1;
    }

    /** One buffer of event text, as neweventid and callback_retr_message go through it. */
    method Send(chunk: string)
      requires Valid()
      modifies this, wbuf
      ensures Valid() && sent == old(sent) + chunk && wbuf == old(wbuf)
    {
      var i := 0;
      assert sent + chunk[..0] == sent;
      while i < |chunk|
        invariant i <= |chunk| && Valid() && wbuf == old(wbuf)
        invariant sent == old(sent) + chunk[..i]
      {
        StuffedAppend(sent, [chunk[i]], true);
        if seeneol && chunk[i] == '.' { Put('.'); }
        Put(chunk[i]);
        seeneol := chunk[i] == '\n';
        sent := sent + [chunk[i]];
        i := i + 1;
      }
      assert chunk[..|chunk|] == chunk;
    }

    /** The dot line, and the last write. */
    method Finish()
      requires Valid()
      modifies this, wbuf
      ensures wire == Wire(sent) && sent == old(sent)
    {
      var s := if seeneol then ".\n" else "\n.\n";
      var i := 0;
      while i < |s|
        invariant i <= |s| && used <= wbuf.Length && wbuf.Length > 0 && sent == old(sent)
        invariant wbuf == old(wbuf)
        invariant wire + wbuf[..used] == Stuffed(sent, true) + s[..i]
      {
        Put(s[i]);
        i := i + 1;
      }
      assert s[..|s|] == s;
      wire, used := wire + wbuf[..used], 0;
    }
  }

  // ----- receiving -----

  /** Both receivers: input is what the other side has sent and was not read yet. */
  class Receiver {
    var input: string
    var seeneol: bool
    var seendot: bool
    var seeneof: bool
    var tmpfile: string

    /** What is still to come. */
    ghost function Remaining(): (string, Option<string>)
      reads this
    {
      if seeneof then ("", Some(input)) else Received(input, seeneol, seendot)
    }

    constructor (wire: string)
      ensures input == wire && tmpfile == "" && Remaining() == Received(wire, true, false)
    {
      input, tmpfile := wire, "";
      seeneol, seendot, seeneof := true, false, false;
    }

    /** readnewevent_callback: at most n more characters of the event; ok is false when the input ends
        before the dot line. */
    method Read(n: nat) returns (p: string, ok: bool)
      modifies this
      ensures |p| <= n && tmpfile == old(tmpfile) + p
      ensures ok ==> old(Remaining()) == (p + Remaining().0, Remaining().1) && (|p| < n ==> seeneof)
      ensures !ok ==> old(Remaining()) == (p, None)
    {
      p := "";
      assert "" + Remaining().0 == Remaining().0;
      while !seeneof && |p| < n
        invariant |p| <= n && tmpfile == old(tmpfile) + p
        invariant old(Remaining()) == (p + Remaining().0, Remaining().1)
        decreases if seeneof then 0 else 1, |input|
      {
        if input == "" {
          assert p + "" == p;
          seeneof := true;
          return p, false;
        }
        var c := input[0];
        input := input[1..];
        if c == '\r' { continue; }
        if c == '\n' {
          if seendot { seeneof := true; }
          seendot, seeneol := false, true;
          if seeneof { continue; }
        } else {
          seendot := c == '.' && seeneol;
          seeneol := false;
          if seendot { continue; }
        }
        Assoc(p, [c], Remaining().0);
        Assoc(old(tmpfile), p, [c]);
        tmpfile := tmpfile + [c];
        p := p + [c];
      }
      ok := true;
    }
  }

  // ----- the client's receiver -----

  datatype Progress = More | Done | Failed

  /** A carriage return comes before the line end that completes the dot line, if there is one; dot tells
      that a dot at the start of the line has been held back. */
  predicate ReturnAhead(wire: string, eol: bool, dot: bool) {
    wire != "" &&
    (wire[0] == '\r' ||
     (!(wire[0] == '\n' && dot) && ReturnAhead(wire[1..], wire[0] == '\n', wire[0] == '.' && eol)))
  }

  lemma DotLineHasNone(eol: bool, tail: string)
    ensures !ReturnAhead(DotLine(eol) + tail, eol, false)
  {
    var a, b := ".\n" + tail, "\n" + tail;
    assert a[1..] == b && b[1..] == tail && ("\n.\n" + tail)[1..] == a;
    assert !ReturnAhead(b, false, true);
    assert !ReturnAhead(a, true, false);
  }

  lemma ReturnNext(c: char, rest: string, eol: bool)
    ensures ReturnAhead((if eol && c == '.' then ".." else [c]) + rest, eol, false)
      <==> c == '\r' || ReturnAhead(rest, c == '\n', false)
  {
    if eol && c == '.' {
      var w := ".." + rest;
      assert w[1..] == "." + rest && ("." + rest)[1..] == rest;
    } else {
      assert ([c] + rest)[1..] == rest;
    }
  }

  lemma {:induction false} StuffedReturnsIff(text: string, eol: bool, tail: string)
    ensures ReturnAhead(Stuffed(text, eol) + (DotLine(AtLineStart(text, eol)) + tail), eol, false) <==> '\r' in text
  {
    var end := DotLine(AtLineStart(text, eol)) + tail;
    if text == "" {
      DotLineHasNone(eol, tail);
      assert "" + end == end;
    } else {
      var c, rest := text[0], text[1..];
      var first, more := if eol && c == '.' then ".." else [c], Stuffed(rest, c == '\n');
      Assoc(first, more, end);
      ReturnNext(c, more + end, eol);
      StuffedReturnsIff(rest, c == '\n', tail);
      assert text == [c] + rest;
    }
  }

  /** On its way to the dot line of a text the receiver meets a carriage return exactly when the text has
      one, whatever follows the dot line. */
  lemma WireReturnsIff(text: string, tail: string)
    ensures ReturnAhead(Wire(text) + tail, true, false) <==> '\r' in text
  {
    hide *;
    StuffedReturnsIff(text, true, tail);
    WireParts(text, tail);
  }

  /** The smallest text that is never received. */
  lemma LoneReturnIsMet()
    ensures ReturnAhead(Wire("\r"), true, false)
  {
    WireReturnsIff("\r", "");
    assert Wire("\r") + "" == Wire("\r");
  }

  /** What the next character, c, makes of the text already received and the rest. */
  lemma OneRound(got: string, c: char, rest: string, eol: bool, dot: bool)
    ensures ReturnAhead([c] + rest, eol, dot)
       <==> c == '\r' || (!(c == '\n' && dot) && ReturnAhead(rest, c == '\n', c == '.' && eol))
    ensures var r := Received([c] + rest, eol, dot);
      (got + r.0, r.1) ==
        if c == '\r' then (got + Received(rest, eol, dot).0, Received(rest, eol, dot).1)
        else if c == '\n' && dot then (got, Some(rest))
        else if c == '.' && eol then (got + Received(rest, false, true).0, Received(rest, false, true).1)
        else (got + [c] + Received(rest, c == '\n', false).0, Received(rest, c == '\n', false).1)
  {
    assert got + "" == got && ([c] + rest)[1..] == rest;
    Assoc(got, [c], Received(rest, c == '\n', false).0);
  }

  /** retr_107, with a callback for the text; ch is the character in hand. */
  class Retriever {
    var input: string
    var ch: Option<char>
    var seeneol: bool
    var seendot: bool
    var readbuf: string
    var delivered: string

    ghost function Remaining(): (string, Option<string>)
      reads this
    {
      Received((if ch.Some? then [ch.value] else "") + input, seeneol, seendot && !seeneol)
    }

    /** The text received so far with the text to come, and what will be left. */
    ghost function Whole(): (string, Option<string>)
      reads this
    {
      (delivered + readbuf + Remaining().0, Remaining().1)
    }

    constructor (wire: string)
      ensures input == wire && ch == None && seeneol && seendot && delivered + readbuf == ""
    {
      input, ch, seeneol, seendot := wire, None, true, true;
      readbuf, delivered := "", "";
    }

    /** A carriage return is in hand, or will be before the dot line is complete. */
    ghost predicate Ahead()
      reads this
    {
      ch == Some('\r') || ReturnAhead(input, seeneol, seendot && !seeneol)
    }

    /** The callback for the text. */
    method Deliver()
      modifies `readbuf, `delivered
      ensures delivered == old(delivered + readbuf) && readbuf == "" && delivered + readbuf == old(delivered + readbuf)
    {
      delivered, readbuf := delivered + readbuf, "";
      assert delivered + "" == delivered;
    }

    /** What a round does with the character in hand if it is no carriage return. */
    method Take() returns (p: Progress)
      requires ch.Some? && ch.value != '\r'
      modifies this
      ensures ch == None && input == old(input)
      ensures p == if old(ch.value == '\n' && seendot && !seeneol) then Done else More
      ensures p == Done ==> delivered + readbuf == old(delivered + readbuf)
      ensures p == More ==> seeneol == old(ch.value == '\n') && seendot == old(ch.value == '.' && seeneol)
      ensures p == More ==>
        delivered + readbuf == old(delivered + readbuf) + if seendot then "" else [old(ch.value)]
    {
      var c := ch.value;
      ghost var got := delivered + readbuf;
      Assoc(delivered, readbuf, [c]);
      assert got + "" == got;
      if seeneol {
        seendot := c == '.';
      } else {
        if c == '\n' && seendot {
          ch := None;
          return Done;
        }
        seendot := false;
      }
      seeneol := c == '\n';
      if !seendot { readbuf := readbuf + [c]; }
      ch := None;
      assert delivered + readbuf == got + if seendot then "" else [c];
      if |readbuf| >= 8192 { Deliver(); }
      return More;
    }

    /** One round of the loop. A carriage return stays in hand, so that from then on no round changes
        anything. */
    method Iterate() returns (p: Progress)
      modifies this
      ensures old(ch) == Some('\r') ==> p == More && ch == old(ch) && input == old(input)
      ensures old(ch) == Some('\r') ==> (seeneol, seendot, readbuf, delivered) == old((seeneol, seendot, readbuf, delivered))
      ensures old(ch == None) ==> Ahead() == old(Ahead()) || p != More
      ensures old(ch == None && Ahead()) ==> p == More && |input| < |old(input)| && ch in {None, Some('\r')}
      ensures old(ch == None && !Ahead()) ==> ch == None && (p == More ==> |input| < |old(input)|)
      ensures old(ch == None && !Ahead()) ==>
        old(Whole()) == match p
          case More => Whole()
          case Done => (delivered + readbuf, Some(input))
          case Failed => (delivered + readbuf, None)
    {
      assert Received("", seeneol, seendot && !seeneol) == ("", None) && !ReturnAhead("", seeneol, seendot && !seeneol);
      hide Received, ReturnAhead, Kept;
      ghost var got, eol, dot := delivered + readbuf, seeneol, seendot && !seeneol;
      assert got + "" == got && "" + input == input;
      if ch == None && input != "" {
        ch, input := Some(input[0]), input[1..];
      }
      if ch == None { return Failed; }
      if ch.value == '\r' { return More; }
      OneRound(got, ch.value, input, eol, dot);
      assert old(ch) == None ==> old(input) == [ch.value] + input;
      p := Take();
      assert "" + input == input;
    }

    /** At most so many rounds of the loop, and the last delivery. The loop ends, and then does so within
        one round for each character and one more, exactly when no carriage return is met before the dot
        line; otherwise it comes to have one in hand, and stays there. */
    method Receive(rounds: nat) returns (p: Progress)
      requires ch == None && seeneol && seendot && delivered + readbuf == ""
      modifies this
      ensures p == Done ==> Received(old(input), true, false) == (delivered, Some(input))
      ensures p == Failed ==> Received(old(input), true, false) == (delivered + readbuf, None)
      ensures ReturnAhead(old(input), true, false) ==> p == More
      ensures rounds > |old(input)| ==> (p == More <==> ReturnAhead(old(input), true, false))
      ensures rounds > |old(input)| ==> (ch == Some('\r') <==> ReturnAhead(old(input), true, false))
    {
      hide Received, ReturnAhead;
      assert "" + input == input && "" + Remaining().0 == Remaining().0;
      ghost var met := ReturnAhead(input, true, false);
      p := More;
      var i := 0;
      while i < rounds && p == More
        invariant i <= rounds
        invariant p == More ==> Ahead() == met && ch in {None, Some('\r')} && (ch == None ==> |input| + i <= |old(input)|)
        invariant met ==> p == More
        invariant !met ==> ch == None
        invariant !met && p == More ==> Whole() == Received(old(input), true, false)
        invariant p == Done ==> Received(old(input), true, false) == (delivered + readbuf, Some(input))
        invariant p == Failed ==> Received(old(input), true, false) == (delivered + readbuf, None)
      {
        p := Iterate();
        i := i + 1;
      }
      if p == Done { Deliver(); }
    }
  }

  // ----- the server's side of a retrieval -----

  lemma StuffedNext(head: string, sent: string, c: char)
    ensures head + Stuffed(sent + [c], true)
      == head + Stuffed(sent, true) + (if AtLineStart(sent, true) && c == '.' then "." + [c] else [c])
    ensures AtLineStart(sent + [c], true) <==> c == '\n'
  {
    StuffedAppend(sent, [c], true);
    var one := Stuffed([c], AtLineStart(sent, true));
    assert one == if AtLineStart(sent, true) && c == '.' then "." + [c] else [c];
    Assoc(head, Stuffed(sent, true), one);
  }

  /** callback_retr_begin, callback_retr_message and callback_retr_end; out is what they print. */
  class EventPrinter {
    var textFlag: bool
    var seenEol: bool
    var out: string
    ghost var sent: string

    ghost predicate Valid(head: string)
      reads this
    {
      && seenEol == AtLineStart(sent, true)
      && out == (if textFlag then head + Stuffed(sent, true) else "")
      && (!textFlag ==> sent == "")
    }

    constructor ()
      ensures sent == "" && !textFlag && forall head :: Valid(head)
    {
      textFlag, seenEol, out, sent := false, true, "", "";
    }

    /** The reply line before the text. */
    method Begin(head: string)
      requires Valid(head) && !textFlag
      modifies `textFlag, `out
      ensures Valid(head) && textFlag
    {
      textFlag := true;
      out := out + head;
      assert out == head && head + "" == head;
    }

    method PutChar(head: string, c: char)
      requires Valid(head) && textFlag
      modifies this
      ensures Valid(head) && textFlag && sent == old(sent) + [c]
    {
      StuffedNext(head, sent, c);
      hide Stuffed, AtLineStart;
      if seenEol && c == '.' {
        Assoc(out, ".", [c]);
        out := out + ".";
      }
      seenEol := c == '\n';
      out := out + [c];
      sent := sent + [c];
    }

    method Message(head: string, chunk: string)
      requires Valid(head)
      modifies this
      ensures Valid(head) && sent == old(sent) + chunk && textFlag
    {
      if !textFlag { Begin(head); }
      hide Valid;
      var i := 0;
      assert sent + chunk[..0] == sent;
      while i < |chunk|
        invariant i <= |chunk| && Valid(head) && textFlag
        invariant sent == old(sent) + chunk[..i]
      {
        Assoc(old(sent), chunk[..i], [chunk[i]]);
        assert chunk[..i + 1] == chunk[..i] + [chunk[i]];
        PutChar(head, chunk[i]);
        i := i + 1;
      }
      assert chunk[..|chunk|] == chunk;
    }

    method End(head: string)
      requires Valid(head)
      modifies this
      ensures out == (if textFlag then head + Wire(sent) else "") && sent == old(sent) && textFlag == old(textFlag)
    {
      if textFlag {
        Assoc(head, Stuffed(sent, true), DotLine(AtLineStart(sent, true)));
        ghost var before := out;
        if !seenEol { out := out + "\n"; }
        out := out + ".\n";
        assert out == before + DotLine(AtLineStart(sent, true));
      }
    }
  }

  // ----- both ends together -----

  function Join(chunks: seq<string>): string {
    if chunks == [] then "" else Join(chunks[..|chunks| - 1]) + chunks[|chunks| - 1]
  }

  /** An upload: the event in any chunks, through write buffers of any size, to a reader that asks for
      any number of characters at a time. */
  method Upload(chunks: seq<string>, wsize: nat, rsize: nat, next: string) returns (text: string, rest: string, ok: bool)
    requires wsize > 0 && rsize > 0
    ensures !HidesDot(Join(chunks), true, true) ==>
      ok && rest == next && text == StripCR(Join(chunks)) + Added(AtLineStart(Join(chunks), true))
    ensures '\r' !in Join(chunks) ==> ok && rest == next && text == Complete(Join(chunks))
  {
    var sender := new Sender(wsize);
    var i := 0;
    while i < |chunks|
      invariant i <= |chunks| && sender.Valid() && sender.sent == Join(chunks[..i]) && fresh(sender) && fresh(sender.wbuf)
    {
      sender.Send(chunks[i]);
      assert chunks[..i + 1][..i] == chunks[..i];
      i := i + 1;
    }
    assert chunks[..i] == chunks;
    sender.Finish();

    hide Received, Wire, Stuffed;
    var wire := sender.wire + next;
    var receiver := new Receiver(wire);
    ok := true;
    assert "" + receiver.Remaining().0 == receiver.Remaining().0;
    while ok && !receiver.seeneof
      invariant ok ==> Received(wire, true, false) == (receiver.tmpfile + receiver.Remaining().0, receiver.Remaining().1)
      invariant !ok ==> Received(wire, true, false) == (receiver.tmpfile, None)
      decreases ok, !receiver.seeneof, |receiver.Remaining().0|
    {
      ghost var before, remaining := receiver.tmpfile, receiver.Remaining();
      var p;
      p, ok := receiver.Read(rsize);
      if ok { Assoc(before, p, receiver.Remaining().0); }
    }
    text, rest := receiver.tmpfile, receiver.input;
    assert text + "" == text;
    WireArrivesIff(Join(chunks), next);
    if '\r' !in Join(chunks) {
      WireArrives(Join(chunks), next);
      CleanHidesNone(Join(chunks), true);
    }
  }

  /** The server's callbacks, one chunk after the other. */
  method PrintEvent(chunks: seq<string>, head: string) returns (out: string)
    requires chunks != []
    ensures out == head + Wire(Join(chunks))
  {
    hide Wire;
    var printer := new EventPrinter();
    var i := 0;
    while i < |chunks|
      invariant i <= |chunks| && printer.Valid(head) && printer.sent == Join(chunks[..i]) && (i > 0 ==> printer.textFlag)
    {
      printer.Message(head, chunks[i]);
      assert chunks[..i + 1][..i] == chunks[..i];
      i := i + 1;
    }
    assert chunks[..i] == chunks;
    printer.End(head);
    out := printer.out;
  }

  /** A retrieval in any chunks, of which the server prints nothing if there is none. Given rounds
      enough, the client's loop ends if and only if the text holds no carriage return, and then it has
      received the text and left what follows. */
  method Retrieve(chunks: seq<string>, head: string, next: string, rounds: nat)
    returns (text: string, rest: string, p: Progress)
    requires chunks != []
    ensures '\r' in Join(chunks) ==> p == More
    ensures '\r' !in Join(chunks) ==> p != Failed
    ensures p == Done ==> rest == next && text == Complete(Join(chunks))
    ensures rounds > |Wire(Join(chunks)) + next| ==> (p == Done <==> '\r' !in Join(chunks))
  {
    var out := PrintEvent(chunks, head);
    var wire := out[|head|..] + next;
    assert out[|head|..] == Wire(Join(chunks));
    hide Received, Wire, ReturnAhead, Complete;
    WireReturnsIff(Join(chunks), next);
    if '\r' !in Join(chunks) { WireArrives(Join(chunks), next); }
    var retriever := new Retriever(wire);
    p := retriever.Receive(rounds);
    return retriever.delivered, retriever.input, p;
  }
}
