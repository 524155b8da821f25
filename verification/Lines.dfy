/** Reading lines through a buffered reader, shared by the syslog receiver and the file tailer. */
module Lines {

  newtype byte = x: int | 0 <= x < 256

  const LF: byte := 10
  const CR: byte := 13
  const SPACE: byte := 32

  /** The reader's buffer, as the library rounds up small sizes. */
  function BufferSize(maximumBytes: nat): nat {
    if maximumBytes + 2 < 16 then 16 else maximumBytes + 2
  }

  /** Index of the first LF, or the length. */
  function FirstLF(s: seq<byte>): (i: nat)
    ensures i <= |s|
    ensures i < |s| ==> s[i] == LF
    ensures forall k :: 0 <= k < i ==> s[k] != LF
  {
    if s == [] || s[0] == LF then 0 else 1 + FirstLF(s[1..])
  }

  /** ReadSlice('\n') on the remaining input: a full line, a full buffer without one, or the unterminated end. */
  datatype Slice = Line(line: seq<byte>) | BufferFull | AtEnd(partial: seq<byte>)

  function ReadSlice(s: seq<byte>, buffer: nat): (r: Slice)
    ensures r.Line? ==> r.line != [] && r.line <= s && r.line[|r.line| - 1] == LF
  {
    var i := FirstLF(s);
    if i < |s| && i < buffer then Line(s[..i + 1])
    else if |s| >= buffer then BufferFull
    else AtEnd(s)
  }

  /** Strips trailing CR and LF. */
  function TrimEnd(s: seq<byte>): (r: seq<byte>)
    ensures r <= s
  {
    if s != [] && (s[|s| - 1] == LF || s[|s| - 1] == CR) then TrimEnd(s[..|s| - 1]) else s
  }
}
