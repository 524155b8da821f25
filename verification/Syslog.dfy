/**
 Syslog stream framing after RFC 6587, section 3.4.1 (octet counting) and
 section 3.4.2 (non-transparent framing).
 */
module Syslog {
  import opened Lines

  const MAXIMUM_PREFIX := 10

  datatype Error = EndOfStream | UnexpectedEnd | EmptyLength | InvalidLength | InvalidPrefix | PrefixTooLong | FrameTooLarge

  datatype Decoded = Frame(payload: seq<byte>, rest: seq<byte>) | Bad(error: Error)

  predicate IsDigit(b: byte) {
    48 <= b <= 57
  }

  /** The number a digit string denotes. */
  function Value(ds: seq<byte>): nat
    requires forall d :: d in ds ==> IsDigit(d)
  {
    if ds == [] then 0
    else
      var d := ds[|ds| - 1];
      assert d in ds && IsDigit(d) && 48 <= d as int;
      10 * Value(ds[..|ds| - 1]) + (d as int - 48)
  }

  /** The payload behind a length prefix. */
  function DecodeBody(s: seq<byte>, count: nat, maximum: nat): (r: Decoded)
    ensures r.Frame? ==> |r.rest| <= |s|
  {
    if count == 0 || count > maximum then Bad(InvalidLength)
    else if s == [] then Bad(EndOfStream)
    else if |s| < count then Bad(UnexpectedEnd)
    else Frame(s[..count], s[count..])
  }

  /** The octet-counted path after `index` digits have been consumed. */
  function DecodeCounted(s: seq<byte>, index: nat, maximum: nat): (r: Decoded)
    requires index <= |s| && index <= MAXIMUM_PREFIX && forall d :: d in s[..index] ==> IsDigit(d)
    ensures r.Frame? ==> |r.rest| < |s|
    decreases MAXIMUM_PREFIX - index
  {
    if index == MAXIMUM_PREFIX then Bad(PrefixTooLong)
    else if index == |s| then Bad(EndOfStream)
    else if s[index] == SPACE then
      if index == 0 then Bad(EmptyLength)
      else
        DecodeBody(s[index + 1..], Value(s[..index]), maximum)
    else if !IsDigit(s[index]) then Bad(InvalidPrefix)
    else
      assert s[..index + 1] == s[..index] + [s[index]];
      DecodeCounted(s, index + 1, maximum)
  }

  function Decode(s: seq<byte>, maximum: nat): (r: Decoded)
    ensures r.Frame? ==> |r.rest| < |s|
  {
    if s == [] then Bad(EndOfStream)
    else if IsDigit(s[0]) then DecodeCounted(s, 0, maximum)
    else
      match ReadSlice(s, BufferSize(maximum))
      case BufferFull => Bad(FrameTooLarge)
      case Line(line) => if |line| > maximum + 2 then Bad(FrameTooLarge) else Frame(TrimEnd(line), s[|line|..])
      case AtEnd(partial) => if |partial| > maximum + 2 then Bad(FrameTooLarge) else Frame(TrimEnd(partial), [])
  }

  // ----- the reader -----

  class Reader {
    const data: seq<byte>
    var position: nat

    constructor (data: seq<byte>)
      ensures this.data == data && position == 0
    {
      this.data, position := data, 0;
    }

    ghost function Rest(): seq<byte>
      requires position <= |data|
      reads this`position
    {
      data[position..]
    }
  }

  datatype Read = Payload(payload: seq<byte>) | Failed(error: Error)

  /** What a read does to the reader, given how the remaining bytes decode. */
  ghost predicate Did(reader: Reader, d: Decoded, r: Read)
    reads reader
  {
    reader.position <= |reader.data| &&
    match d
    case Bad(e) => r == Failed(e)
    case Frame(payload, rest) => r == Payload(payload) && reader.Rest() == rest
  }

  /** Consumes one frame. */
  method ReadSyslogFrame(reader: Reader, maximum: nat) returns (r: Read)
    requires reader.position <= |reader.data|
    modifies reader
    ensures Did(reader, Decode(old(reader.Rest()), maximum), r)
  {
    hide DecodeCounted, TrimEnd;
    if reader.position == |reader.data| {
      return Failed(EndOfStream);
    }
    if IsDigit(reader.data[reader.position]) {
      r := ReadCounted(reader, maximum);
      return;
    }
    var slice := ReadSlice(reader.data[reader.position..], BufferSize(maximum));
    if slice.BufferFull? {
      return Failed(FrameTooLarge);
    }
    var line := if slice.Line? then slice.line else slice.partial;
    if |line| > maximum + 2 {
      return Failed(FrameTooLarge);
    }
    reader.position := reader.position + |line|;
    return Payload(TrimEnd(line));
  }

  method ReadBody(reader: Reader, count: nat, maximum: nat) returns (r: Read)
    requires reader.position <= |reader.data|
    modifies reader
    ensures Did(reader, DecodeBody(old(reader.Rest()), count, maximum), r)
  {
    if count <= 0 || count > maximum {
      return Failed(InvalidLength);
    }
    if reader.position == |reader.data| {
      return Failed(EndOfStream);
    }
    if |reader.data| - reader.position < count {
      return Failed(UnexpectedEnd);
    }
    var payload := reader.data[reader.position..reader.position + count];
    reader.position := reader.position + count;
    return Payload(payload);
  }

  /** Reads a length prefix byte by byte, then the payload. */
  method ReadCounted(reader: Reader, maximum: nat) returns (r: Read)
    requires reader.position <= |reader.data|
    modifies reader
    ensures Did(reader, DecodeCounted(old(reader.Rest()), 0, maximum), r)
  {
    hide Value, DecodeBody;
    ghost var s, start := reader.Rest(), reader.position;
    var length: seq<byte> := [];
    for index := 0 to MAXIMUM_PREFIX
      invariant reader.position == start + index <= |reader.data|
      invariant length == s[..index] && forall d :: d in length ==> IsDigit(d)
      invariant DecodeCounted(s, 0, maximum) == DecodeCounted(s, index, maximum)
    {
      if reader.position == |reader.data| {
        return Failed(EndOfStream);
      }
      var character := reader.data[reader.position];
      assert character == s[index] && s[..index + 1] == s[..index] + [character];
      reader.position := reader.position + 1;
      if character == SPACE {
        if |length| == 0 {
          return Failed(EmptyLength);
        }
        assert reader.Rest() == s[index + 1..];
        r := ReadBody(reader, Value(length), maximum);
        return;
      }
      if !IsDigit(character) {
        return Failed(InvalidPrefix);
      }
      length := length + [character];
    }
    return Failed(PrefixTooLong);
  }

  // ----- the sender's side -----

  datatype Message = Counted(payload: seq<byte>) | Terminated(payload: seq<byte>)

  function Digits(n: nat): (ds: seq<byte>)
    ensures ds != [] && forall d :: d in ds ==> IsDigit(d)
  {
    if n < 10 then [(48 + n) as byte] else Digits(n / 10) + [(48 + n % 10) as byte]
  }

  function Encode(m: Message): seq<byte> {
    match m
    case Counted(p) => Digits(|p|) + [SPACE] + p
    case Terminated(p) => p + [LF]
  }

  const LARGEST_COUNT := 999_999_999

  predicate Framable(m: Message, maximum: nat) {
    match m
    case Counted(p) => 1 <= |p| <= maximum && |p| <= LARGEST_COUNT
    case Terminated(p) =>
      && |p| <= maximum + 1 && LF !in p
      && (p != [] ==> !IsDigit(p[0]) && p[|p| - 1] != CR)
  }

  lemma {:induction false} ValueOfDigits(n: nat)
    ensures Value(Digits(n)) == n
  {
    if n >= 10 {
      ValueOfDigits(n / 10);
      assert Digits(n)[..|Digits(n)| - 1] == Digits(n / 10);
    } else {
      assert Digits(n)[..0] == [];
    }
  }

  function Power10(k: nat): nat {
    if k == 0 then 1 else 10 * Power10(k - 1)
  }

  lemma {:induction false} DigitsLength(n: nat, k: nat)
    requires k >= 1
    ensures |Digits(n)| <= k <==> n < Power10(k)
  {
    if n >= 10 {
      if k > 1 {
        DigitsLength(n / 10, k - 1);
      }
    } else {
      PowerAtLeast10(k);
    }
  }

  lemma {:induction false} PowerAtLeast10(k: nat)
    requires k >= 1
    ensures Power10(k) >= 10
  {
    if k > 1 {
      PowerAtLeast10(k - 1);
    }
  }

  lemma NineDigits(n: nat)
    ensures |Digits(n)| <= 9 <==> n <= LARGEST_COUNT
  {
    DigitsLength(n, 9);
    assert Power10(3) == 1000;
    assert Power10(6) == 1000 * Power10(3);
    assert Power10(9) == 1000 * Power10(6);
  }

  /** Scanning over a digit prefix. */
  lemma {:induction false} ScanDigits(s: seq<byte>, index: nat, n: nat, maximum: nat)
    requires index <= n <= |s| && index <= MAXIMUM_PREFIX
    requires forall d :: d in s[..n] ==> IsDigit(d)
    requires forall d :: d in s[..index] ==> IsDigit(d)
    ensures n < MAXIMUM_PREFIX ==> (forall d :: d in s[..n] ==> IsDigit(d)) && DecodeCounted(s, index, maximum) == DecodeCounted(s, n, maximum)
    ensures n >= MAXIMUM_PREFIX ==> DecodeCounted(s, index, maximum) == Bad(PrefixTooLong)
    decreases n - index
  {
    if index < n && index < MAXIMUM_PREFIX {
      assert s[index] in s[..n];
      assert s[..index + 1] == s[..index] + [s[index]];
      ScanDigits(s, index + 1, n, maximum);
    }
  }

  /** The counted path at the space that ends the prefix. */
  lemma DecodeAtSpace(ds: seq<byte>, p: seq<byte>, rest: seq<byte>, maximum: nat)
    requires 0 < |ds| < MAXIMUM_PREFIX && (forall d :: d in ds ==> IsDigit(d)) && Value(ds) == |p|
    ensures var s := ds + [SPACE] + p + rest;
            && s[..|ds|] == ds
            && DecodeCounted(s, |ds|, maximum) == if 1 <= |p| <= maximum then Frame(p, rest) else Bad(InvalidLength)
  {
    var s := ds + [SPACE] + p + rest;
    assert s[..|ds|] == ds && s[|ds|] == SPACE;
    assert s[|ds| + 1..] == p + rest && (p + rest)[..|p|] == p && (p + rest)[|p|..] == rest;
  }

  /** An octet-counted payload survives exactly when its length is positive, allowed and at most nine digits long. */
  lemma CountedRoundTripsExactly(p: seq<byte>, rest: seq<byte>, maximum: nat)
    ensures Decode(Encode(Counted(p)) + rest, maximum) == Frame(p, rest) <==> Framable(Counted(p), maximum)
  {
    hide DecodeCounted, Digits, Value;
    var ds, s := Digits(|p|), Encode(Counted(p)) + rest;
    NineDigits(|p|);
    ValueOfDigits(|p|);
    assert s[..|ds|] == ds && s[0] == ds[0] && ds[0] in ds && s[..0] == [];
    ScanDigits(s, 0, |ds|, maximum);
    if |ds| < MAXIMUM_PREFIX {
      DecodeAtSpace(ds, p, rest, maximum);
    }
  }

  lemma CountedConsumes(s: seq<byte>, index: nat, maximum: nat)
    requires index <= |s| && index <= MAXIMUM_PREFIX && forall d :: d in s[..index] ==> IsDigit(d)
    ensures var r := DecodeCounted(s, index, maximum);
            r.Frame? ==> |r.payload| + |r.rest| + 2 <= |s|
    decreases MAXIMUM_PREFIX - index
  {
    if index < MAXIMUM_PREFIX && index < |s| && IsDigit(s[index]) {
      assert s[..index + 1] == s[..index] + [s[index]];
      CountedConsumes(s, index + 1, maximum);
    }
  }

  lemma TrimLine(p: seq<byte>)
    requires LF !in p
    ensures TrimEnd(p + [LF]) == TrimEnd(p)
    ensures TrimEnd(p) == p <==> (p != [] ==> p[|p| - 1] != CR)
  {
    assert (p + [LF])[..|p + [LF]| - 1] == p;
    if p != [] && p[|p| - 1] == CR {
      assert |TrimEnd(p)| < |p|;
    }
  }

  lemma FirstLFOf(p: seq<byte>, rest: seq<byte>)
    ensures FirstLF(p + [LF] + rest) <= |p|
    ensures FirstLF(p + [LF] + rest) == |p| <==> LF !in p
  {
    var s := p + [LF] + rest;
    assert s[|p|] == LF;
    assert forall k :: 0 <= k < |p| ==> s[k] == p[k];
  }

  /** The non-transparent path on a payload without LF. */
  lemma DecodeLine(p: seq<byte>, rest: seq<byte>, maximum: nat)
    requires LF !in p && (p != [] ==> !IsDigit(p[0]))
    ensures Decode(p + [LF] + rest, maximum) ==
            if |p| <= maximum + 1 then Frame(TrimEnd(p), rest) else Bad(FrameTooLarge)
  {
    hide FirstLF, TrimEnd;
    var s := p + [LF] + rest;
    FirstLFOf(p, rest);
    assert s[..|p| + 1] == p + [LF] && s[|p| + 1..] == rest;
    TrimLine(p);
  }

  /** A payload with an LF inside is cut there. */
  lemma DecodeCut(p: seq<byte>, rest: seq<byte>, maximum: nat)
    requires LF in p && !IsDigit(p[0])
    ensures Decode(p + [LF] + rest, maximum) != Frame(p, rest)
  {
    hide TrimEnd;
    FirstLFOf(p, rest);
  }

  /** An LF-terminated payload survives exactly when it fits and cannot be taken for something else. */
  lemma TerminatedRoundTripsExactly(p: seq<byte>, rest: seq<byte>, maximum: nat)
    ensures Decode(Encode(Terminated(p)) + rest, maximum) == Frame(p, rest) <==> Framable(Terminated(p), maximum)
  {
    hide DecodeCounted, ReadSlice, TrimEnd;
    if p != [] && IsDigit(p[0]) {
      assert (p + [LF] + rest)[0] == p[0];
      CountedConsumes(p + [LF] + rest, 0, maximum);
    } else if LF in p {
      DecodeCut(p, rest, maximum);
    } else {
      DecodeLine(p, rest, maximum);
      TrimLine(p);
    }
  }

  lemma DecodeEncode(m: Message, rest: seq<byte>, maximum: nat)
    requires Framable(m, maximum)
    ensures Decode(Encode(m) + rest, maximum) == Frame(m.payload, rest)
  {
    match m
    case Counted(p) => CountedRoundTripsExactly(p, rest, maximum);
    case Terminated(p) => TerminatedRoundTripsExactly(p, rest, maximum);
  }

  // ----- every frame there is -----

  /** A length of one to nine digits, a space, and a payload of that length. */
  ghost predicate CountedFrame(s: seq<byte>, ds: seq<byte>, p: seq<byte>, rest: seq<byte>, maximum: nat) {
    && 1 <= |ds| <= 9 && (forall d :: d in ds ==> IsDigit(d)) && Value(ds) == |p|
    && s == ds + [SPACE] + p + rest && 1 <= |p| <= maximum
  }

  /** The text up to the first LF, or all of it, without the CR and LF at its end. */
  ghost predicate LineFrame(s: seq<byte>, line: seq<byte>, p: seq<byte>, rest: seq<byte>, maximum: nat) {
    && line != [] && !IsDigit(line[0]) && s == line + rest && LF !in line[..|line| - 1]
    && (if line[|line| - 1] == LF then |line| <= maximum + 2 else rest == [] && |line| <= maximum + 2 && |line| < BufferSize(maximum))
    && p == TrimEnd(line)
  }

  lemma {:induction false} CountedIsFrame(s: seq<byte>, index: nat, maximum: nat)
    requires index <= |s| && index <= MAXIMUM_PREFIX && forall d :: d in s[..index] ==> IsDigit(d)
    ensures var r := DecodeCounted(s, index, maximum);
            r.Frame? ==> exists ds :: CountedFrame(s, ds, r.payload, r.rest, maximum)
    decreases MAXIMUM_PREFIX - index
  {
    var r := DecodeCounted(s, index, maximum);
    if r.Frame? {
      if s[index] == SPACE {
        var ds, body := s[..index], s[index + 1..];
        assert s == ds + [SPACE] + body && body == r.payload + r.rest;
        assert s == ds + [SPACE] + r.payload + r.rest;
        assert CountedFrame(s, ds, r.payload, r.rest, maximum);
      } else {
        assert s[..index + 1] == s[..index] + [s[index]];
        CountedIsFrame(s, index + 1, maximum);
      }
    }
  }

  lemma FrameIsCounted(s: seq<byte>, ds: seq<byte>, p: seq<byte>, rest: seq<byte>, maximum: nat)
    requires CountedFrame(s, ds, p, rest, maximum)
    ensures Decode(s, maximum) == Frame(p, rest) && IsDigit(s[0])
  {
    hide DecodeCounted, Value;
    DecodeAtSpace(ds, p, rest, maximum);
    assert s[..|ds|] == ds && s[0] == ds[0] && ds[0] in ds && s[..0] == [];
    ScanDigits(s, 0, |ds|, maximum);
  }

  lemma LineIsFrame(s: seq<byte>, maximum: nat)
    requires s != [] && !IsDigit(s[0]) && Decode(s, maximum).Frame?
    ensures var r := Decode(s, maximum); exists line :: LineFrame(s, line, r.payload, r.rest, maximum)
  {
    hide TrimEnd, FirstLF;
    var r, slice := Decode(s, maximum), ReadSlice(s, BufferSize(maximum));
    var i := FirstLF(s);
    if slice.Line? {
      assert s == slice.line + r.rest && slice.line == s[..i + 1] && slice.line[..i] == s[..i];
      assert LineFrame(s, slice.line, r.payload, r.rest, maximum);
    } else {
      assert s == s + [] && LF !in s;
      assert LineFrame(s, s, r.payload, r.rest, maximum);
    }
  }

  lemma FrameIsLine(s: seq<byte>, line: seq<byte>, p: seq<byte>, rest: seq<byte>, maximum: nat)
    requires LineFrame(s, line, p, rest, maximum)
    ensures Decode(s, maximum) == Frame(p, rest) && !IsDigit(s[0])
  {
    hide TrimEnd, FirstLF;
    var n := |line| - 1;
    assert s[0] == line[0];
    assert line == line[..n] + [line[n]];
    if line[n] == LF {
      FirstLFOf(line[..n], rest);
      assert s == line[..n] + [LF] + rest && s[..n + 1] == line && s[n + 1..] == rest;
    } else {
      assert s == line && LF !in s;
      assert FirstLF(s) == |s|;
    }
  }

  /** A call returns a frame if and only if the stream starts with it in one of the two framings. */
  lemma FramesExactly(s: seq<byte>, p: seq<byte>, rest: seq<byte>, maximum: nat)
    ensures Decode(s, maximum) == Frame(p, rest) <==>
            (exists ds :: CountedFrame(s, ds, p, rest, maximum)) || exists line :: LineFrame(s, line, p, rest, maximum)
  {
    hide Decode, DecodeCounted, LineFrame, CountedFrame;
    if Decode(s, maximum) == Frame(p, rest) {
      FrameHasForm(s, maximum);
    }
    if ds :| CountedFrame(s, ds, p, rest, maximum) {
      FrameIsCounted(s, ds, p, rest, maximum);
    }
    if line :| LineFrame(s, line, p, rest, maximum) {
      FrameIsLine(s, line, p, rest, maximum);
    }
  }

  lemma FrameHasForm(s: seq<byte>, maximum: nat)
    requires Decode(s, maximum).Frame?
    ensures var r := Decode(s, maximum);
            (exists ds :: CountedFrame(s, ds, r.payload, r.rest, maximum)) || exists line :: LineFrame(s, line, r.payload, r.rest, maximum)
  {
    if IsDigit(s[0]) {
      CountedIsFrame(s, 0, maximum);
    } else {
      LineIsFrame(s, maximum);
    }
  }

  // ----- whole streams -----

  function EncodeAll(ms: seq<Message>): seq<byte> {
    if ms == [] then [] else Encode(ms[0]) + EncodeAll(ms[1..])
  }

  function Payloads(ms: seq<Message>): seq<seq<byte>> {
    seq(|ms|, i requires 0 <= i < |ms| => ms[i].payload)
  }

  /** Decoding until the first error: the payloads and the error that ended it. */
  function DecodeAll(s: seq<byte>, maximum: nat): (seq<seq<byte>>, Error)
    decreases |s|
  {
    match Decode(s, maximum)
    case Bad(e) => ([], e)
    case Frame(p, rest) =>
      var (more, e) := DecodeAll(rest, maximum);
      ([p] + more, e)
  }

  /** Any mix of framable messages is returned in order, and the stream ends cleanly. */
  lemma {:induction false} StreamRoundTrip(ms: seq<Message>, maximum: nat)
    requires forall m :: m in ms ==> Framable(m, maximum)
    ensures DecodeAll(EncodeAll(ms), maximum) == (Payloads(ms), EndOfStream)
  {
    if ms != [] {
      DecodeEncode(ms[0], EncodeAll(ms[1..]), maximum);
      StreamRoundTrip(ms[1..], maximum);
      assert Payloads(ms) == [ms[0].payload] + Payloads(ms[1..]);
    }
  }
}
