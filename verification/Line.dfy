/** transport/vl_line.c: licence blobs from a stream of characters. */
module Line {
  import opened Words
  import opened Core
  import opened Modular

  const MAX_LEN: nat := 200
  const CR: u8 := 13
  const LF: u8 := 10

  predicate IsEnd(c: u8)
  {
    c == LF || c == CR
  }

  /** Space, tab, vertical tab, form feed. */
  predicate IsBlank(c: u8)
  {
    c == 32 || c == 9 || c == 11 || c == 12
  }

  // ------------------------------------------------------------- specification

  function Strip(text: seq<u8>): (r: seq<u8>)
    ensures |r| <= |text|
  {
    if text == [] then []
    else
      var r, c := Strip(text[..|text| - 1]), text[|text| - 1];
      if IsBlank(c) then r else r + [c]
  }

  /** Where the first line ends; the length of the stream if it does not. */
  function FirstEnd(stream: seq<u8>): (i: nat)
    ensures i <= |stream|
    ensures forall k :: 0 <= k < i ==> !IsEnd(stream[k])
    ensures i < |stream| ==> IsEnd(stream[i])
  {
    if stream == [] || IsEnd(stream[0]) then 0 else 1 + FirstEnd(stream[1..])
  }

  /** The lines that have ended. */
  function Lines(stream: seq<u8>): seq<seq<u8>>
    decreases |stream|
  {
    var i := FirstEnd(stream);
    if i == |stream| then [] else [stream[..i]] + Lines(stream[i + 1..])
  }

  /** The line that has not. */
  function Unended(stream: seq<u8>): seq<u8>
    decreases |stream|
  {
    var i := FirstEnd(stream);
    if i == |stream| then stream else Unended(stream[i + 1..])
  }

  datatype Event = Ready(text: seq<u8>) | TooLong

  /** What one line, stripped, is worth: nothing if it is blank. */
  function EventFor(s: seq<u8>): seq<Event>
  {
    if s == [] then [] else if |s| > MAX_LEN then [TooLong] else [Ready(s)]
  }

  function EventOf(line: seq<u8>): seq<Event>
  {
    EventFor(Strip(line))
  }

  function EventsOf(lines: seq<seq<u8>>): seq<Event>
  {
    if lines == [] then [] else EventOf(lines[0]) + EventsOf(lines[1..])
  }

  /** Everything a stream reports; kept folded. */
  ghost function Events(stream: seq<u8>): seq<Event>
  {
    EventsBy(Folds(), stream)
  }

  ghost function EventsBy(n: nat, stream: seq<u8>): seq<Event>
  {
    if n == 0 then EventsOf(Lines(stream)) else EventsBy(n - 1, stream)
  }

  lemma {:induction false} UnfoldEvents(n: nat, stream: seq<u8>)
    ensures EventsBy(n, stream) == EventsOf(Lines(stream))
  {
    if n != 0 {
      UnfoldEvents(n - 1, stream);
    }
  }

  /** The line that has not ended, stripped; kept folded. */
  ghost function Current(stream: seq<u8>): seq<u8>
  {
    CurrentBy(Folds(), stream)
  }

  ghost function CurrentBy(n: nat, stream: seq<u8>): seq<u8>
  {
    if n == 0 then Strip(Unended(stream)) else CurrentBy(n - 1, stream)
  }

  lemma {:induction false} UnfoldCurrent(n: nat, stream: seq<u8>)
    ensures CurrentBy(n, stream) == Strip(Unended(stream))
  {
    if n != 0 {
      UnfoldCurrent(n - 1, stream);
    }
  }

  lemma StartsEmpty()
    ensures Current([]) == [] && Events([]) == []
  {
    UnfoldCurrent(Folds(), []);
    UnfoldEvents(Folds(), []);
  }

  // ---------------------------------------------------------- one character more

  /** A character that ends no line joins the last one; an end closes it. */
  lemma LinesSnoc(stream: seq<u8>, c: u8)
    ensures Lines(stream + [c]) == if IsEnd(c) then Lines(stream) + [Unended(stream)] else Lines(stream)
    ensures Unended(stream + [c]) == if IsEnd(c) then [] else Unended(stream) + [c]
  {
    UnendedSnoc(stream, c);
    if IsEnd(c) {
      EndCloses(stream, c);
    } else {
      OtherJoins(stream, c);
    }
  }

  lemma {:induction false} UnendedSnoc(stream: seq<u8>, c: u8)
    ensures Unended(stream + [c]) == if IsEnd(c) then [] else Unended(stream) + [c]
    decreases |stream|
  {
    if FirstEnd(stream) == |stream| {
      LastLineSnoc(stream, c);
    } else {
      EarlierLine(stream, c);
      UnendedSnoc(stream[FirstEnd(stream) + 1..], c);
    }
  }

  lemma {:induction false} OtherJoins(stream: seq<u8>, c: u8)
    requires !IsEnd(c)
    ensures Lines(stream + [c]) == Lines(stream)
    decreases |stream|
  {
    if FirstEnd(stream) == |stream| {
      LastLineSnoc(stream, c);
    } else {
      EarlierLine(stream, c);
      OtherJoins(stream[FirstEnd(stream) + 1..], c);
    }
  }

  lemma {:induction false} EndCloses(stream: seq<u8>, c: u8)
    requires IsEnd(c)
    ensures Lines(stream + [c]) == Lines(stream) + [Unended(stream)]
    decreases |stream|
  {
    if FirstEnd(stream) == |stream| {
      LastLineSnoc(stream, c);
      assert [] + [stream] == [stream];
    } else {
      var i := FirstEnd(stream);
      var rest := stream[i + 1..];
      EarlierLine(stream, c);
      EndCloses(rest, c);
      Prepend(stream[..i], Lines(rest), Unended(rest));
    }
  }

  lemma Prepend(first: seq<u8>, lines: seq<seq<u8>>, last: seq<u8>)
    ensures [first] + (lines + [last]) == [first] + lines + [last]
  {
  }

  lemma EarlierLine(stream: seq<u8>, c: u8)
    requires FirstEnd(stream) < |stream|
    ensures var i := FirstEnd(stream); var rest := stream[i + 1..];
      && Lines(stream) == [stream[..i]] + Lines(rest) && Unended(stream) == Unended(rest)
      && Lines(stream + [c]) == [stream[..i]] + Lines(rest + [c]) && Unended(stream + [c]) == Unended(rest + [c])
  {
    var i, longer := FirstEnd(stream), stream + [c];
    FirstEndSnoc(stream, c);
    assert longer[..i] == stream[..i];
    assert longer[i + 1..] == stream[i + 1..] + [c];
    assert FirstEnd(longer) == i && i < |longer|;
  }

  lemma LastLineSnoc(stream: seq<u8>, c: u8)
    requires FirstEnd(stream) == |stream|
    ensures Lines(stream + [c]) == if IsEnd(c) then [stream] else []
    ensures Unended(stream + [c]) == if IsEnd(c) then [] else stream + [c]
  {
    FirstEndSnoc(stream, c);
    if IsEnd(c) {
      var longer := stream + [c];
      assert longer[..|stream|] == stream && longer[|stream| + 1..] == [];
      assert Lines([]) == [] && Unended([]) == [];
    }
  }

  lemma {:induction false} FirstEndSnoc(stream: seq<u8>, c: u8)
    ensures FirstEnd(stream + [c])
         == if FirstEnd(stream) == |stream| && !IsEnd(c) then |stream| + 1 else FirstEnd(stream)
    decreases |stream|
  {
    if stream != [] && !IsEnd(stream[0]) {
      assert (stream + [c])[1..] == stream[1..] + [c];
      FirstEndSnoc(stream[1..], c);
    } else if stream == [] {
      assert ([c])[1..] == [];
    }
  }

  lemma {:induction false} EventsOfSnoc(lines: seq<seq<u8>>, line: seq<u8>)
    ensures EventsOf(lines + [line]) == EventsOf(lines) + EventOf(line)
    decreases |lines|
  {
    if lines == [] {
      assert ([line])[1..] == [];
    } else {
      assert (lines + [line])[1..] == lines[1..] + [line];
      EventsOfSnoc(lines[1..], line);
    }
  }

  /** What one more character reports. */
  ghost function News(stream: seq<u8>, c: u8): seq<Event>
  {
    if IsEnd(c) then EventFor(Current(stream)) else []
  }

  lemma EventsSnoc(stream: seq<u8>, c: u8)
    ensures Events(stream + [c]) == Events(stream) + News(stream, c)
  {
    LinesSnoc(stream, c);
    UnfoldEvents(Folds(), stream);
    UnfoldEvents(Folds(), stream + [c]);
    UnfoldCurrent(Folds(), stream);
    if IsEnd(c) {
      EventsOfSnoc(Lines(stream), Unended(stream));
    }
  }

  lemma StripSnoc(text: seq<u8>, c: u8)
    ensures Strip(text + [c]) == if IsBlank(c) then Strip(text) else Strip(text) + [c]
  {
    assert (text + [c])[..|text|] == text;
  }

  /** What the current line amounts to after one more character. */
  lemma Grows(stream: seq<u8>, c: u8)
    ensures Current(stream + [c])
         == if IsEnd(c) then [] else if IsBlank(c) then Current(stream) else Current(stream) + [c]
  {
    UnfoldCurrent(Folds(), stream);
    UnfoldCurrent(Folds(), stream + [c]);
    LinesSnoc(stream, c);
    StripSnoc(Unended(stream), c);
  }

  // ------------------------------------------------------------------ framer

  /** What a returned status and the buffer tell the caller. */
  function Reported(status: Status, text: seq<u8>): seq<Event>
  {
    match status
    case OK => [Ready(text)]
    case BAD_FORMAT => [TooLong]
    case _ => []
  }

  class Framer {
    const buf: array<u8>
    var len: nat
    var ready: bool
    var overflow: bool
    ghost var stream: seq<u8>  // every character since the last reset

    ghost predicate Valid()
      reads this, buf
    {
      && buf.Length == MAX_LEN + 1 && len <= MAX_LEN
      && var s := Current(stream);
         if ready then !overflow && s == [] && 0 < len && buf[len] == 0
         else if overflow then |s| > MAX_LEN && len == 0
         else buf[..len] == s
    }

    constructor ()
      ensures Valid() && stream == [] && fresh(buf)
    {
      buf := new u8[MAX_LEN + 1](_ => 0);
      len, ready, overflow, stream := 0, false, false, [];
      StartsEmpty();
    }

    method Reset()
      requires Valid()
      modifies this, buf
      ensures Valid() && stream == []
    {
      len, ready, overflow := 0, false, false;
      buf[0] := 0;
      stream := [];
      StartsEmpty();
    }

    /** Stores one character of the current line; a line too long is dropped. */
    method Keep(c: u8) returns (status: Status)
      requires Valid() && !ready && !IsEnd(c)
      modifies this`len, this`overflow, this`stream, buf
      ensures Valid() && stream == old(stream) + [c] && status == NOT_FOUND
    {
      Grows(stream, c);
      stream := stream + [c];
      status := NOT_FOUND;
      if IsBlank(c) || overflow {
        return;
      }
      if len >= MAX_LEN {
        overflow := true;
        len := 0;
        buf[0] := 0;
        return;
      }
      ghost var held := buf[..len];
      buf[len] := c;
      len := len + 1;
      assert buf[..len] == held + [c];
    }

    /** Ends the current line. */
    method End(c: u8) returns (status: Status)
      requires Valid() && !ready && IsEnd(c)
      modifies this, buf
      ensures Valid() && stream == old(stream) + [c]
      ensures Reported(status, buf[..len]) == News(old(stream), c)
      ensures status == OK ==> ready && buf[len] == 0
      ensures status in {OK, NOT_FOUND, BAD_FORMAT}
    {
      Grows(stream, c);
      stream := stream + [c];
      if overflow {
        overflow := false;
        len := 0;
        return BAD_FORMAT;
      }
      if len == 0 {
        return NOT_FOUND;
      }
      ghost var held := buf[..len];
      buf[len] := 0;
      assert buf[..len] == held;
      ready := true;
      status := OK;
    }

    /** One received character. A line reported ready stays in the buffer until the next. */
    method Push(c: u8) returns (status: Status)
      requires Valid()
      modifies this, buf
      ensures Valid() && stream == old(stream) + [c]
      ensures Reported(status, buf[..len]) == News(old(stream), c)
      ensures status == OK ==> ready && buf[len] == 0
      ensures status in {OK, NOT_FOUND, BAD_FORMAT}
    {
      if ready {
        len := 0;
        ready := false;
        buf[0] := 0;
      }
      if IsEnd(c) {
        status := End(c);
      } else {
        status := Keep(c);
      }
    }
  }

  method PushOne(l: Framer, c: u8) returns (events: seq<Event>)
    requires l.Valid()
    modifies l, l.buf
    ensures l.Valid() && l.stream == old(l.stream) + [c] && events == News(old(l.stream), c)
  {
    var status := l.Push(c);
    events := if status == OK then [Ready(l.buf[..l.len])] else if status == BAD_FORMAT then [TooLong] else [];
  }

  /** Repeated pushes report exactly what the whole stream reports. */
  method PushAll(stream: seq<u8>) returns (events: seq<Event>)
    ensures events == Events(stream)
  {
    var l := new Framer();
    events := [];
    StartsEmpty();
    for i := 0 to |stream|
      invariant l.Valid() && fresh(l) && fresh(l.buf)
      invariant l.stream == stream[..i] && events == Events(stream[..i])
    {
      EventsSnoc(stream[..i], stream[i]);
      assert stream[..i + 1] == stream[..i] + [stream[i]];
      var news := PushOne(l, stream[i]);
      events := events + news;
    }
    assert stream[..|stream|] == stream;
  }

  /** A line within bounds arrives as it was sent, less its blanks, however it is cut up by other
      lines: the text carries no end of line and no blank. */
  lemma {:induction false} ReadyIsClean(stream: seq<u8>, k: nat)
    requires k < |Events(stream)| && Events(stream)[k].Ready?
    ensures var text := Events(stream)[k].text;
      0 < |text| <= MAX_LEN && forall i :: 0 <= i < |text| ==> !IsBlank(text[i]) && !IsEnd(text[i])
  {
    UnfoldEvents(Folds(), stream);
    LinesAreClean(stream);
    CleanEvents(Lines(stream), k);
  }

  ghost predicate NoEnds(text: seq<u8>)
  {
    forall i :: 0 <= i < |text| ==> !IsEnd(text[i])
  }

  lemma {:induction false} LinesAreClean(stream: seq<u8>)
    ensures forall k :: 0 <= k < |Lines(stream)| ==> NoEnds(Lines(stream)[k])
    decreases |stream|
  {
    var i := FirstEnd(stream);
    if i < |stream| {
      LinesAreClean(stream[i + 1..]);
      assert NoEnds(stream[..i]);
    }
  }

  lemma {:induction false} CleanEvents(lines: seq<seq<u8>>, k: nat)
    requires forall j :: 0 <= j < |lines| ==> NoEnds(lines[j])
    requires k < |EventsOf(lines)| && EventsOf(lines)[k].Ready?
    ensures var text := EventsOf(lines)[k].text;
      0 < |text| <= MAX_LEN && forall i :: 0 <= i < |text| ==> !IsBlank(text[i]) && !IsEnd(text[i])
    decreases |lines|
  {
    StripIsClean(lines[0]);
    var n := |EventOf(lines[0])|;
    if k >= n {
      CleanEvents(lines[1..], k - n);
    }
  }

  lemma {:induction false} StripIsClean(text: seq<u8>)
    ensures forall i :: 0 <= i < |Strip(text)| ==> !IsBlank(Strip(text)[i]) && Strip(text)[i] in text
    decreases |text|
  {
    if text != [] {
      StripIsClean(text[..|text| - 1]);
    }
  }

  // ------------------------------------------------------------ line by line

  /** Stripping a text strips its parts. */
  lemma {:induction false} StripAppend(a: seq<u8>, b: seq<u8>)
    ensures Strip(a + b) == Strip(a) + Strip(b)
    decreases |b|
  {
    if b == [] {
      assert a + b == a;
    } else {
      var front := b[..|b| - 1];
      assert (a + b)[..|a + b| - 1] == a + front;
      StripAppend(a, front);
    }
  }

  /** The characters dropped are tab, vertical tab, form feed and space. */
  lemma StripIs(a: seq<u8>, c: u8, b: seq<u8>)
    ensures Strip(a + [c] + b) == Strip(a) + (if c == 9 || c == 11 || c == 12 || c == 32 then [] else [c]) + Strip(b)
  {
    StripAppend(a + [c], b);
    StripSnoc(a, c);
  }

  /** A line while it comes in. */
  lemma {:induction false} LineComesIn(stream: seq<u8>, line: seq<u8>, n: nat)
    requires Current(stream) == [] && n <= |line|
    requires forall k :: 0 <= k < |line| ==> line[k] != 10 && line[k] != 13
    ensures Events(stream + line[..n]) == Events(stream) && Current(stream + line[..n]) == Strip(line[..n])
    decreases n
  {
    if n == 0 {
      assert stream + line[..0] == stream;
    } else {
      var before := stream + line[..n - 1];
      LineComesIn(stream, line, n - 1);
      assert line[..n] == line[..n - 1] + [line[n - 1]];
      assert stream + line[..n] == before + [line[n - 1]];
      EventsSnoc(before, line[n - 1]);
      Grows(before, line[n - 1]);
      StripSnoc(line[..n - 1], line[n - 1]);
    }
  }

  /** What one line adds, ended by a line feed or a carriage return, and that nothing of it is left
      over: nothing if it is blank, an error if more than 200 characters are not blanks, and
      otherwise those characters. */
  lemma LineReports(stream: seq<u8>, line: seq<u8>, end: u8)
    requires Current(stream) == [] && (end == 10 || end == 13)
    requires forall k :: 0 <= k < |line| ==> line[k] != 10 && line[k] != 13
    ensures var after := stream + line + [end];
      && Events(after) == Events(stream)
           + (if Strip(line) == [] then [] else if |Strip(line)| > 200 then [TooLong] else [Ready(Strip(line))])
      && Current(after) == []
  {
    LineComesIn(stream, line, |line|);
    assert line[..|line|] == line;
    EventsSnoc(stream + line, end);
    Grows(stream + line, end);
  }
}
