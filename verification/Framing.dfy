/** Messages on the wire: an 8-character hexadecimal length, then the serialized data. */
module Framing {
  import opened Wrappers
  import opened Numerals

  const HEADER_LENGTH: nat := 8
  const SIZE_LIMIT := 0x1_0000_0000_0000_0000

  function Spaces(n: nat): (s: string)
    ensures |s| == n && forall i :: 0 <= i < n ==> s[i] == ' '
  {
    seq(n, _ => ' ')
  }

  /** `std::setw` pads on the left and never cuts. */
  function Padded(s: string, width: nat): string {
    if |s| >= width then s else Spaces(width - |s|) + s
  }

  function Header(size: nat): string { Padded(Numeral(16, size), HEADER_LENGTH) }

  /** What `async_write` puts on the wire; None is the invalid_argument error. */
  function Frame(data: string): Option<string> {
    if |Header(|data|)| != HEADER_LENGTH then None else Some(Header(|data|) + data)
  }

  predicate IsSpace(c: char) { c in " \t\n\r" || c as int == 11 || c as int == 12 }

  function SkipSpaces(s: string): string {
    if s != [] && IsSpace(s[0]) then SkipSpaces(s[1..]) else s
  }

  function LeadingDigits(s: string): (d: string)
    ensures AllDigits(16, d) && |d| <= |s|
  {
    if s != [] && IsDigit(16, s[0]) then [s[0]] + LeadingDigits(s[1..]) else []
  }

  /** Hexadecimal extraction of a `size_t`: blanks, an optional sign, an optional 0x, digits. */
  function ParseSize(header: string): Option<nat> {
    var s := SkipSpaces(header);
    var negative := s != [] && s[0] == '-';
    var t := if s != [] && (s[0] == '-' || s[0] == '+') then s[1..] else s;
    var u := if |t| >= 2 && t[0] == '0' && (t[1] == 'x' || t[1] == 'X') then t[2..] else t;
    var digits := LeadingDigits(u);
    if digits == [] || Value(16, digits) >= SIZE_LIMIT then None
    else if negative then Some((SIZE_LIMIT - Value(16, digits)) % SIZE_LIMIT)
    else Some(Value(16, digits))
  }

  datatype Status = AtEnd | BadHeader | Eof

  /** The messages of a stream, up to its end or the first error. */
  datatype Decoded = Decoded(messages: seq<string>, status: Status)

  function Decode(stream: string): Decoded
    decreases |stream|
  {
    if stream == [] then Decoded([], AtEnd)
    else if |stream| < HEADER_LENGTH then Decoded([], Eof)
    else
      match ParseSize(stream[..HEADER_LENGTH])
      case None => Decoded([], BadHeader)
      case Some(n) =>
        if |stream| < HEADER_LENGTH + n then Decoded([], Eof)
        else
          var rest := Decode(stream[HEADER_LENGTH + n..]);
          Decoded([stream[HEADER_LENGTH..HEADER_LENGTH + n]] + rest.messages, rest.status)
  }

  function Encode(messages: seq<string>): string
    requires forall i :: 0 <= i < |messages| ==> Frame(messages[i]).Some?
  {
    if messages == [] then [] else Frame(messages[0]).value + Encode(messages[1..])
  }

  // ---------- the header ----------

  lemma SixteenToTheEighth()
    ensures Power(16, 8) == 0x1_0000_0000
  {
    assert Power(16, 4) == 0x1_0000;
    assert Power(16, 8) == 16 * (16 * (16 * (16 * Power(16, 4))));
  }

  /** The sender rejects exactly the messages whose length needs more than eight digits. */
  lemma SenderRejectsExactly(data: string)
    ensures Frame(data).None? <==> |data| >= 0x1_0000_0000
  {
    NumeralLength(16, |data|, HEADER_LENGTH);
    SixteenToTheEighth();
  }

  lemma {:induction false} SkipsPadding(n: nat, s: string)
    requires s != [] && !IsSpace(s[0])
    ensures SkipSpaces(Spaces(n) + s) == s
  {
    if n > 0 {
      var t := Spaces(n) + s;
      assert t[0] == ' ' && t[1..] == Spaces(n - 1) + s;
      SkipsPadding(n - 1, s);
    } else {
      assert Spaces(0) + s == s;
    }
  }

  lemma {:induction false} AllAreLeading(d: string)
    requires AllDigits(16, d)
    ensures LeadingDigits(d) == d
  {
    if d != [] {
      AllAreLeading(d[1..]);
    }
  }

  lemma {:induction false} NumeralStart(n: nat)
    ensures var s := Numeral(16, n); s[0] != '0' || |s| == 1
  {
    if n >= 16 {
      NumeralStart(n / 16);
      if |Numeral(16, n / 16)| == 1 {
        OnlyZeroIsZero(n / 16);
      }
    }
  }

  lemma OnlyZeroIsZero(n: nat)
    requires n > 0
    ensures Numeral(16, n) != "0"
  {
    NumeralRoundTrip(16, n);
    assert AllDigits(16, "0") && Value(16, "0") == 0 by {
      NumeralRoundTrip(16, 0);
    }
  }

  lemma ParsesPadded(n: nat, s: string)
    requires AllDigits(16, s) && s != [] && (s[0] != '0' || |s| == 1) && Value(16, s) < SIZE_LIMIT
    ensures ParseSize(Spaces(n) + s) == Some(Value(16, s))
  {
    hide Value, LeadingDigits, SkipSpaces;
    assert IsDigit(16, s[0]) && !IsSpace(s[0]);
    SkipsPadding(n, s);
    AllAreLeading(s);
  }

  /** Reading a header gives the length it was made from. */
  lemma HeaderRoundTrip(n: nat)
    requires n < SIZE_LIMIT
    ensures ParseSize(Header(n)) == Some(n)
  {
    hide ParseSize, Numeral;
    var s := Numeral(16, n);
    NumeralRoundTrip(16, n);
    NumeralStart(n);
    var pad := if |s| >= HEADER_LENGTH then 0 else HEADER_LENGTH - |s|;
    ParsesPadded(pad, s);
    if pad == 0 {
      assert Spaces(0) + s == s;
    }
  }

  /** What a header looks like: blanks, then the length in lower-case hexadecimal without leading zeros, eight characters in all. */
  lemma HeaderLooksLike(n: nat) returns (blanks: nat)
    requires n < 0x1_0000_0000
    ensures |Header(n)| == 8 && blanks < 8
    ensures forall i :: 0 <= i < blanks ==> Header(n)[i] == ' '
    ensures forall i :: blanks <= i < 8 ==> '0' <= Header(n)[i] <= '9' || 'a' <= Header(n)[i] <= 'f'
    ensures AllDigits(16, Header(n)[blanks..]) && Value(16, Header(n)[blanks..]) == n
    ensures Header(n)[blanks] == '0' ==> n == 0
  {
    NumeralLength(16, n, HEADER_LENGTH);
    SixteenToTheEighth();
    NumeralRoundTrip(16, n);
    NumeralChars(16, n);
    NumeralStart(n);
    hide Numeral, Value;
    blanks := HEADER_LENGTH - |Numeral(16, n)|;
    assert Header(n)[blanks..] == Numeral(16, n);
    assert Header(n)[blanks] == Numeral(16, n)[0];
    if Numeral(16, n)[0] == '0' {
      assert Numeral(16, n) == "0";
      OnlyZeroReads(n);
    }
  }

  lemma OnlyZeroReads(n: nat)
    requires Numeral(16, n) == "0"
    ensures n == 0
  {
    if n > 0 {
      OnlyZeroIsZero(n);
    }
  }

  lemma {:induction false} SkipsBlanks(h: string, k: nat)
    requires k <= |h| && (forall i :: 0 <= i < k ==> IsSpace(h[i])) && (k < |h| ==> !IsSpace(h[k]))
    ensures SkipSpaces(h) == h[k..]
  {
    if k > 0 {
      SkipsBlanks(h[1..], k - 1);
    }
  }

  /** The receiver rejects a header of blanks alone, and one whose first other character is neither a digit nor a sign. */
  lemma ReceiverRejects(h: string, k: nat)
    requires k <= |h| && (forall i :: 0 <= i < k ==> IsSpace(h[i]))
    requires k < |h| ==> !IsSpace(h[k]) && !IsDigit(16, h[k]) && h[k] != '-' && h[k] != '+'
    ensures ParseSize(h).None?
  {
    SkipsBlanks(h, k);
  }

  // ---------- streams of messages ----------

  /** Whatever follows, a frame is read back as its message. */
  lemma FrameRoundTrip(data: string, tail: string)
    requires Frame(data).Some?
    ensures var rest := Decode(tail);
      Decode(Frame(data).value + tail) == Decoded([data] + rest.messages, rest.status)
  {
    var stream := Frame(data).value + tail;
    SenderRejectsExactly(data);
    HeaderRoundTrip(|data|);
    assert stream[..HEADER_LENGTH] == Header(|data|);
    assert stream[HEADER_LENGTH..HEADER_LENGTH + |data|] == data;
    assert stream[HEADER_LENGTH + |data|..] == tail;
  }

  predicate Sendable(messages: seq<string>) {
    forall i :: 0 <= i < |messages| ==> |messages[i]| < 0x1_0000_0000
  }

  lemma SendableFrames(messages: seq<string>)
    requires Sendable(messages)
    ensures forall i :: 0 <= i < |messages| ==> Frame(messages[i]).Some?
  {
    forall i | 0 <= i < |messages|
      ensures Frame(messages[i]).Some?
    {
      SenderRejectsExactly(messages[i]);
    }
  }

  /** Any list of sendable messages is read back from the wire, and the stream goes on behind it. */
  lemma {:induction false} StreamRoundTrip(messages: seq<string>, tail: string)
    requires Sendable(messages)
    ensures forall i :: 0 <= i < |messages| ==> Frame(messages[i]).Some?
    ensures Decode(Encode(messages) + tail) == Decoded(messages + Decode(tail).messages, Decode(tail).status)
  {
    hide Decode, Frame;
    SendableFrames(messages);
    if messages == [] {
      assert Encode(messages) + tail == tail;
    } else {
      var rest := Encode(messages[1..]) + tail;
      StreamRoundTrip(messages[1..], tail);
      FrameRoundTrip(messages[0], rest);
      assert Encode(messages) + tail == Frame(messages[0]).value + rest;
      assert messages == [messages[0]] + messages[1..];
      assert [messages[0]] + (messages[1..] + Decode(tail).messages) == messages + Decode(tail).messages;
    }
  }

  /** A proper part of a frame is no message. */
  lemma BrokenFrame(last: string, cut: nat)
    requires |last| < 0x1_0000_0000 && 0 < cut < HEADER_LENGTH + |last|
    ensures Frame(last).Some? && |Frame(last).value| == HEADER_LENGTH + |last|
    ensures Decode(Frame(last).value[..cut]) == Decoded([], Eof)
  {
    SenderRejectsExactly(last);
    HeaderRoundTrip(|last|);
    hide ParseSize, Header;
    var frame := Frame(last).value;
    assert frame == Header(|last|) + last;
    if cut >= HEADER_LENGTH {
      assert frame[..cut][..HEADER_LENGTH] == Header(|last|);
    }
  }

  /** A stream that breaks off anywhere inside a frame yields the whole messages before it, and the end of file. */
  lemma BrokenStream(messages: seq<string>, last: string, cut: nat)
    requires Sendable(messages) && |last| < 0x1_0000_0000 && 0 < cut < HEADER_LENGTH + |last|
    ensures forall i :: 0 <= i < |messages| ==> Frame(messages[i]).Some?
    ensures Frame(last).Some? && |Frame(last).value| == HEADER_LENGTH + |last|
    ensures Decode(Encode(messages) + Frame(last).value[..cut]) == Decoded(messages, Eof)
  {
    hide Decode, Frame, Encode;
    BrokenFrame(last, cut);
    StreamRoundTrip(messages, Frame(last).value[..cut]);
    assert messages + [] == messages;
  }

  /** A bad header ends the stream there, after the whole messages before it. */
  lemma GarbledStream(messages: seq<string>, tail: string)
    requires Sendable(messages) && |tail| >= HEADER_LENGTH && ParseSize(tail[..HEADER_LENGTH]).None?
    ensures forall i :: 0 <= i < |messages| ==> Frame(messages[i]).Some?
    ensures Decode(Encode(messages) + tail) == Decoded(messages, BadHeader)
  {
    hide Frame, Encode, ParseSize;
    StreamRoundTrip(messages, tail);
    assert messages + [] == messages;
  }

  // ---------- the connection object ----------

  /** Both directions of one socket, as the bytes not yet consumed. */
  class Socket {
    var outgoing: string
    var incoming: string

    constructor (incoming: string)
      ensures outgoing == [] && this.incoming == incoming
    {
      outgoing, this.incoming := [], incoming;
    }
  }

  datatype Error = Fine | InvalidArgument | EndOfFile

  class Connection {
    const socket: Socket
    var outboundHeader: string
    var outboundData: string
    const inboundHeader: array<char>
    var inboundData: string

    constructor (socket: Socket)
      ensures this.socket == socket && inboundHeader.Length == HEADER_LENGTH && fresh(inboundHeader)
    {
      this.socket := socket;
      outboundHeader, outboundData, inboundData := [], [], [];
      inboundHeader := new char[HEADER_LENGTH](_ => ' ');
    }

    /** `data` is the archive of the value to send. */
    method AsyncWrite(data: string) returns (e: Error)
      modifies this, socket`outgoing
      ensures e == if Frame(data).Some? then Fine else InvalidArgument
      ensures socket.outgoing == old(socket.outgoing) + if Frame(data).Some? then Frame(data).value else []
    {
      outboundData := data;
      var header := Header(|outboundData|);
      if |header| != HEADER_LENGTH {
        return InvalidArgument;
      }
      outboundHeader := header;
      socket.outgoing := socket.outgoing + (outboundHeader + outboundData);
      e := Fine;
    }

    /** Receives exactly the next header, then exactly the data it announces. */
    method AsyncRead() returns (e: Error)
      requires inboundHeader.Length == HEADER_LENGTH
      modifies this, inboundHeader, socket`incoming
      ensures var d := Decode(old(socket.incoming));
        && (e.Fine? <==> d.messages != [])
        && (e.Fine? ==> inboundData == d.messages[0] && Decode(socket.incoming) == Decoded(d.messages[1..], d.status))
        && (e.InvalidArgument? <==> d.messages == [] && d.status == BadHeader)
    {
      if |socket.incoming| < HEADER_LENGTH {
        return EndOfFile;
      }
      ghost var stream := socket.incoming;
      forall i | 0 <= i < HEADER_LENGTH {
        inboundHeader[i] := socket.incoming[i];
      }
      assert inboundHeader[..] == stream[..HEADER_LENGTH];
      socket.incoming := socket.incoming[HEADER_LENGTH..];
      e := HandleReadHeader();
      if e.Fine? {
        ghost var n := ParseSize(stream[..HEADER_LENGTH]).value;
        assert socket.incoming == stream[HEADER_LENGTH + n..];
        assert inboundData == stream[HEADER_LENGTH..HEADER_LENGTH + n];
      }
    }

    method HandleReadHeader() returns (e: Error)
      requires inboundHeader.Length == HEADER_LENGTH
      modifies this, socket`incoming
      ensures match ParseSize(inboundHeader[..])
        case None => e == InvalidArgument
        case Some(n) =>
          if |old(socket.incoming)| < n then e == EndOfFile
          else e == Fine && inboundData == old(socket.incoming)[..n] && socket.incoming == old(socket.incoming)[n..]
    {
      match ParseSize(inboundHeader[..]) {
        case None => return InvalidArgument;
        case Some(n) =>
          if |socket.incoming| < n {
            return EndOfFile;
          }
          inboundData := socket.incoming[..n];
          socket.incoming := socket.incoming[n..];
          e := Fine;
      }
    }
  }
}
