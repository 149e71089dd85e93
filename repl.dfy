/**
 * The interactive event source of repl.go: the `Read` method the publisher calls,
 * and the way one console line becomes one frame.
 */
module Repl {
  import opened Base

  const NEWLINE: Byte := 10

  /**
   * `repl.Read`: `line` is the buffer received from the REPL's channel; Go's `copy`
   * moves as much of it as fits into `p`. There is never an error. Nothing is kept
   * between calls, so the part of a line that does not fit is lost.
   */
  method Read(p: array<Byte>, line: seq<Byte>) returns (n: nat, err: Option<string>)
    modifies p
    ensures n == Min(p.Length, |line|)
    ensures p[..n] == line[..n]
    ensures p[n..] == old(p[n..])
    ensures err == None
  {
    n := Min(p.Length, |line|);
    forall i | 0 <= i < n {
      p[i] := line[i];
    }
    err := None;
  }

  /** What `bufio.Reader.ReadString('\n')` returns: a line with its newline, or an error. */
  datatype ReadResult = Line(msg: seq<Byte>) | Failed(partial: seq<Byte>)

  /**
   * `ReadString('\n')` on standard input. `input` is the rest of the stream, up to end of
   * file or the first read error, not a snapshot of what is buffered. The result is
   * everything up to and including the first newline, or, when the stream ends without
   * one, an error with what was read.
   */
  function ReadString(input: seq<Byte>): (r: ReadResult)
    ensures r.Failed? <==> NEWLINE !in input
    ensures r.Failed? ==> r.partial == input
    ensures r.Line? ==> 1 <= |r.msg| <= |input| && r.msg == input[..|r.msg|]
    ensures r.Line? ==> r.msg[|r.msg| - 1] == NEWLINE && NEWLINE !in r.msg[..|r.msg| - 1]
  {
    if |input| == 0 then Failed([])
    else if input[0] == NEWLINE then Line([NEWLINE])
    else
      match ReadString(input[1..])
      case Line(msg) => Line([input[0]] + msg)
      case Failed(partial) => Failed([input[0]] + partial)
  }

  /** What one `stdinread` produces: a frame, the close signal, or a slicing panic. */
  datatype Outcome = Input(frame: seq<Byte>) | CloseSignal | SliceOutOfRange

  /**
   * The body of `stdinread` with `runtime.GOOS` as a parameter: a failed read sends
   * the close signal and yields no frame; otherwise the newline is cut off, and on
   * windows one more trailing byte (the carriage return of CRLF) is cut off too.
   */
  function StdinRead(input: seq<Byte>, goos: string): (o: Outcome)
    ensures o == CloseSignal <==> NEWLINE !in input
    ensures o == SliceOutOfRange <==> goos == "windows" && |input| > 0 && input[0] == NEWLINE
    ensures o.Input? && goos != "windows" ==>
      |o.frame| < |input| && input[..|o.frame|] == o.frame && input[|o.frame|] == NEWLINE &&
      NEWLINE !in o.frame
    ensures o.Input? && goos == "windows" ==>
      |o.frame| + 1 < |input| && input[..|o.frame|] == o.frame && input[|o.frame| + 1] == NEWLINE &&
      NEWLINE !in input[..|o.frame| + 1]
  {
    match ReadString(input)
    case Failed(_) => CloseSignal
    case Line(msg) =>
      var trimmed := msg[..|msg| - 1];
      if goos == "windows" then
        if |trimmed| == 0 then SliceOutOfRange else Input(trimmed[..|trimmed| - 1])
      else
        Input(trimmed)
  }

  /** The line `ReadString` returns is the input up to its first newline, whatever follows. */
  lemma {:induction false} ReadStringFirstLine(text: seq<Byte>, rest: seq<Byte>)
    requires NEWLINE !in text
    ensures ReadString(text + [NEWLINE] + rest) == Line(text + [NEWLINE])
  {
    var input := text + [NEWLINE] + rest;
    if |text| > 0 {
      assert input[0] == text[0] != NEWLINE;
      assert input[1..] == text[1..] + [NEWLINE] + rest;
      ReadStringFirstLine(text[1..], rest);
      assert ReadString(input) == Line([text[0]] + (text[1..] + [NEWLINE]));
      assert [text[0]] + (text[1..] + [NEWLINE]) == text + [NEWLINE];
    } else {
      assert input[0] == NEWLINE;
    }
  }

  /** Off windows, a line comes out exactly as typed, without its newline. */
  lemma TrimDropsNewline(text: seq<Byte>, rest: seq<Byte>, goos: string)
    requires NEWLINE !in text && goos != "windows"
    ensures StdinRead(text + [NEWLINE] + rest, goos) == Input(text)
  {
    ReadStringFirstLine(text, rest);
    assert (text + [NEWLINE])[..|text|] == text;
  }

  /** On windows, a line typed with CRLF comes out without both line-ending bytes. */
  lemma WindowsDropsCarriageReturn(text: seq<Byte>, rest: seq<Byte>, cr: Byte)
    requires NEWLINE !in text && cr != NEWLINE
    ensures StdinRead(text + [cr, NEWLINE] + rest, "windows") == Input(text)
  {
    assert NEWLINE !in text + [cr];
    assert text + [cr, NEWLINE] + rest == (text + [cr]) + [NEWLINE] + rest;
    ReadStringFirstLine(text + [cr], rest);
    assert (text + [cr] + [NEWLINE])[..|text| + 1] == text + [cr];
    assert (text + [cr])[..|text|] == text;
  }
}
