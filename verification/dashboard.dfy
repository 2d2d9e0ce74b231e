/** The dashboard's receiving side: bytes arrive in chunks of arbitrary size,
    are appended to a buffer, and every complete newline-terminated line is
    cut off the front of the buffer and handed on as one packet; the status
    label then reflects the packet's warning field. */
module Dashboard {

  const StatusFailure: string := "SENSOR FAILURE"
  const StatusOk: string := "SYSTEM OK"

  /** Position of the first newline in s at or after i, or |s| when there
      is none. */
  function NewlineFrom(s: string, i: nat): (k: nat)
    requires i <= |s|
    ensures i <= k <= |s|
    decreases |s| - i
  {
    if i == |s| || s[i] == '\n' then i else NewlineFrom(s, i + 1)
  }

  /** Position of the first newline in s, or |s| when there is none. */
  function FirstNewline(s: string): (k: nat)
    ensures k <= |s|
  {
    NewlineFrom(s, 0)
  }

  lemma {:induction false} NewlineFromIsFirst(s: string, i: nat)
    requires i <= |s|
    ensures var k := NewlineFrom(s, i);
      (k < |s| ==> s[k] == '\n') && forall j :: i <= j < k ==> s[j] != '\n'
    decreases |s| - i
  {
    if i < |s| && s[i] != '\n' {
      NewlineFromIsFirst(s, i + 1);
    }
  }

  /** What it finds is a newline, with none before it. */
  lemma FirstNewlineIsFirst(s: string)
    ensures var k := FirstNewline(s);
      (k < |s| ==> s[k] == '\n') && forall j :: 0 <= j < k ==> s[j] != '\n'
  {
    NewlineFromIsFirst(s, 0);
  }

  /** A newline-free prefix ended by a newline pins down the first newline. */
  lemma FirstNewlineAt(s: string, k: nat)
    requires k < |s| && s[k] == '\n'
    requires forall j :: 0 <= j < k ==> s[j] != '\n'
    ensures FirstNewline(s) == k
  {
    FirstNewlineIsFirst(s);
  }

  /** The first newline is found exactly when there is one. */
  lemma FirstNewlineFound(s: string)
    ensures FirstNewline(s) < |s| <==> '\n' in s
  {
    FirstNewlineIsFirst(s);
  }

  /** Cutting at the first newline: the newline-free line before it, and
      everything after it. */
  lemma CutAtNewline(s: string)
    requires FirstNewline(s) < |s|
    ensures var k := FirstNewline(s);
      s == s[..k] + "\n" + s[k + 1..] && '\n' !in s[..k]
  {
    var k := FirstNewline(s);
    FirstNewlineIsFirst(s);
    SplitAround(s, k);
    NoNewlineBefore(s, k);
  }

  lemma SplitAround(s: string, k: nat)
    requires k < |s| && s[k] == '\n'
    ensures s == s[..k] + "\n" + s[k + 1..]
  {
    assert s == s[..k] + s[k..];
    assert s[k..] == "\n" + s[k + 1..];
  }

  // Associativity of concatenation, stated for strings so that callers can
  // regroup without the solver searching for it.
  lemma Associative(x: string, y: string, z: string)
    ensures (x + y) + z == x + (y + z)
  {
  }

  lemma NoNewlineBefore(s: string, k: nat)
    requires k <= |s|
    requires forall j :: 0 <= j < k ==> s[j] != '\n'
    ensures '\n' !in s[..k]
  {
    assert forall j :: 0 <= j < k ==> s[..k][j] == s[j];
  }

  /** Every line followed by its newline, in order: what the sender wrote. */
  function Join(lines: seq<string>): string {
    if lines == [] then "" else lines[0] + "\n" + Join(lines[1..])
  }

  lemma JoinCons(line: string, lines: seq<string>)
    ensures Join([line] + lines) == line + "\n" + Join(lines)
  {
    assert ([line] + lines)[1..] == lines;
  }

  lemma {:induction false} JoinAppend(a: seq<string>, b: seq<string>)
    ensures Join(a + b) == Join(a) + Join(b)
  {
    if a != [] {
      var x, rest := a[0], a[1..];
      JoinAppend(rest, b);
      assert a + b == [x] + (rest + b);
      JoinCons(x, rest + b);
      JoinCons(x, rest);
      assert a == [x] + rest;
      Associative(x + "\n", Join(rest), Join(b));
    } else {
      assert a + b == b;
    }
  }

  /** One more line adds that line and its newline at the end. */
  lemma JoinSnoc(lines: seq<string>, line: string)
    ensures Join(lines + [line]) == Join(lines) + (line + "\n")
  {
    JoinAppend(lines, [line]);
    JoinCons(line, []);
    assert line + "\n" + "" == line + "\n";
  }

  /** The complete lines taken out of a stream, and the unterminated tail
      that stays in the buffer. */
  datatype Split = Split(lines: seq<string>, rest: string)

  /** No line and not the tail holds a newline. */
  predicate Framed(r: Split) {
    (forall i :: 0 <= i < |r.lines| ==> '\n' !in r.lines[i]) && '\n' !in r.rest
  }

  /** The reference framing of a stream: split at the first newline, and
      again in what follows, until no newline is left. */
  function Frames(s: string): Split
    decreases |s|
  {
    var k := FirstNewline(s);
    if k == |s| then Split([], s)
    else
      var tail := Frames(s[k + 1..]);
      Split([s[..k]] + tail.lines, tail.rest)
  }

  /** Nothing lost, nothing duplicated, order kept: the lines, each with its
      newline, followed by the tail give back the stream. */
  lemma {:induction false} FramesJoin(s: string)
    ensures Join(Frames(s).lines) + Frames(s).rest == s
    decreases |s|
  {
    var k := FirstNewline(s);
    if k < |s| {
      var line, after := s[..k], s[k + 1..];
      FramesJoin(after);
      FramesCut(s);
      JoinCons(line, Frames(after).lines);
      Associative(line + "\n", Join(Frames(after).lines), Frames(after).rest);
      CutAtNewline(s);
    } else {
      assert [] + s == s;
    }
  }

  /** Neither a line nor the tail holds a newline. */
  lemma {:induction false} FramesFramed(s: string)
    ensures Framed(Frames(s))
    decreases |s|
  {
    var k := FirstNewline(s);
    FirstNewlineFound(s);
    if k < |s| {
      var tail := Frames(s[k + 1..]);
      FramesFramed(s[k + 1..]);
      CutAtNewline(s);
      var lines := [s[..k]] + tail.lines;
      assert Frames(s).lines == lines;
      forall i | 0 <= i < |lines|
        ensures '\n' !in lines[i]
      {
        if i > 0 {
          assert lines[i] == tail.lines[i - 1];
        }
      }
    }
  }

  /** The framing is the only way to write the stream as newline-free lines
      and a newline-free tail. */
  lemma {:induction false} FramesUnique(r: Split)
    requires Framed(r)
    ensures Frames(Join(r.lines) + r.rest) == r
    decreases |r.lines|
  {
    var s := Join(r.lines) + r.rest;
    if r.lines == [] {
      FirstNewlineFound(s);
    } else {
      var line := r.lines[0];
      var tail := Split(r.lines[1..], r.rest);
      assert Framed(tail) by {
        forall i | 0 <= i < |tail.lines|
          ensures '\n' !in tail.lines[i]
        {
          assert tail.lines[i] == r.lines[i + 1];
        }
      }
      FramesUnique(tail);
      var after := Join(tail.lines) + tail.rest;
      assert r.lines == [line] + tail.lines;
      JoinCons(line, tail.lines);
      assert s == line + "\n" + after;
      var k := |line|;
      assert '\n' !in line;
      forall j | 0 <= j < k
        ensures s[j] != '\n'
      {
        assert s[j] == line[j];
      }
      FirstNewlineAt(s, k);
      assert s[..k] == line;
      assert s[k + 1..] == after;
    }
  }

  /** A stream without a newline yields no line; all of it stays buffered. */
  lemma FramesNoNewline(s: string)
    requires '\n' !in s
    ensures Frames(s) == Split([], s)
  {
    FirstNewlineFound(s);
  }

  /** One line per newline in the stream. */
  lemma {:induction false} FramesCount(s: string)
    ensures |Frames(s).lines| == multiset(s)['\n']
    decreases |s|
  {
    var k := FirstNewline(s);
    FirstNewlineFound(s);
    if k < |s| {
      FramesCount(s[k + 1..]);
      CutAtNewline(s);
      assert multiset(s) == multiset(s[..k]) + multiset("\n") + multiset(s[k + 1..]);
    }
  }

  /** Lines from two framings, one after the other, are still framed. */
  lemma FramedConcat(a: seq<string>, b: Split)
    requires forall i :: 0 <= i < |a| ==> '\n' !in a[i]
    requires Framed(b)
    ensures Framed(Split(a + b.lines, b.rest))
  {
    var lines := a + b.lines;
    forall i | 0 <= i < |lines|
      ensures '\n' !in lines[i]
    {
      if i >= |a| {
        assert lines[i] == b.lines[i - |a|];
      }
    }
  }

  /** Framing a stream that arrives in two pieces: the lines of the first
      piece, then the lines of its tail followed by the second piece. */
  lemma FramesAppend(s: string, t: string)
    ensures var a := Frames(s); var b := Frames(a.rest + t);
      Frames(s + t) == Split(a.lines + b.lines, b.rest)
  {
    var a := Frames(s);
    var b := Frames(a.rest + t);
    FramesFramed(s);
    FramesFramed(a.rest + t);
    var r := Split(a.lines + b.lines, b.rest);
    FramedConcat(a.lines, b);
    FramesJoin(s);
    FramesJoin(a.rest + t);
    JoinAppend(a.lines, b.lines);
    Associative(Join(a.lines), Join(b.lines), b.rest);
    Associative(Join(a.lines), a.rest, t);
    FramesUnique(r);
  }

  /** One cut: the line before the first newline, then the framing of what
      follows it. */
  lemma FramesCut(s: string)
    requires FirstNewline(s) < |s|
    ensures var k := FirstNewline(s);
      Frames(s).lines == [s[..k]] + Frames(s[k + 1..]).lines &&
      Frames(s).rest == Frames(s[k + 1..]).rest
  {
  }

  /** One pass of the inner loop after a chunk arrived: append the chunk,
      then cut off lines while the buffer holds a newline. */
  method Reframe(buffer: string, data: string) returns (lines: seq<string>, rest: string)
    ensures Split(lines, rest) == Frames(buffer + data)
  {
    rest := buffer + data;
    lines := [];
    while '\n' in rest
      invariant Frames(buffer + data) == Split(lines + Frames(rest).lines, Frames(rest).rest)
      decreases |rest|
    {
      FirstNewlineFound(rest);
      var k := FirstNewline(rest);
      var line := rest[..k];
      FramesCut(rest);
      assert lines + ([line] + Frames(rest[k + 1..]).lines) == lines + [line] + Frames(rest[k + 1..]).lines;
      rest := rest[k + 1..];
      lines := lines + [line];
    }
    FramesNoNewline(rest);
    assert lines + [] == lines;
  }

  /** The chunks concatenated in arrival order. */
  function Concat(chunks: seq<string>): string {
    if chunks == [] then "" else Concat(chunks[..|chunks| - 1]) + chunks[|chunks| - 1]
  }

  /** The listener run over a finite sequence of received chunks: all lines
      handed on, in order, and what is left in the buffer. */
  method Listen(chunks: seq<string>) returns (emitted: seq<string>, buffer: string)
    ensures Split(emitted, buffer) == Frames(Concat(chunks))
  {
    emitted := [];
    buffer := "";
    FramesNoNewline("");
    for i := 0 to |chunks|
      invariant Split(emitted, buffer) == Frames(Concat(chunks[..i]))
    {
      var lines, rest := Reframe(buffer, chunks[i]);
      FramesAppend(Concat(chunks[..i]), chunks[i]);
      assert chunks[..i + 1][..i] == chunks[..i];
      emitted := emitted + lines;
      buffer := rest;
    }
    assert chunks[..|chunks|] == chunks;
  }

  /** The status label for a packet's warning field: a failure exactly when
      the warning is non-empty. */
  function StatusText(warning: string): (r: string)
    ensures r == StatusFailure <==> warning != ""
    ensures r == StatusOk <==> warning == ""
  {
    if warning != "" then StatusFailure else StatusOk
  }
}
