/**
 * The serial line between the host and the modem.
 *
 * What the host receives is a finite sequence of events: a byte (0..255) or SILENCE, a pause
 * long enough for whatever wait is pending to run out of time.  Once the sequence is used
 * up the line stays silent for ever.  What the host sends is appended to `output`.
 *
 * The pure functions below say what each kind of read takes from the input; the class
 * `Stream` performs them on its own state.
 */
module Serial {
  import opened Arduino

  type Rx = x: int | -1 <= x < 0x100

  /** The line stays quiet until the pending wait gives up. */
  const SILENCE: Rx := -1

  /** A value read from the line together with the input left after it. */
  datatype Taken<T> = Taken(value: T, rest: seq<Rx>)

  /** A byte as the `char` it is stored as in an Arduino `String`. */
  function CharOf(b: Byte): char { b as char }

  /** A payload as the characters written to the line. */
  function Text(bs: seq<Byte>): (s: string)
    ensures |s| == |bs|
    ensures forall i :: 0 <= i < |bs| ==> s[i] == CharOf(bs[i])
  {
    seq(|bs|, i requires 0 <= i < |bs| => CharOf(bs[i]))
  }

  /** Received bytes, none of them a pause, as the values they carry. */
  function Bytes(xs: seq<Rx>): (bs: seq<Byte>)
    requires forall i :: 0 <= i < |xs| ==> xs[i] != SILENCE
    ensures |bs| == |xs| && forall i :: 0 <= i < |xs| ==> bs[i] == xs[i]
  {
    seq(|xs|, i requires 0 <= i < |xs| => xs[i] as Byte)
  }

  /** The text of the first `i + 1` bytes is that of the first byte and then of the `i`
      bytes after it. */
  lemma HeardFrom(xs: seq<Rx>, i: nat)
    requires forall j :: 0 <= j < |xs| ==> xs[j] > 0
    requires i < |xs|
    ensures Text(Bytes(xs[..i + 1])) == [CharOf(xs[0] as Byte)] + Text(Bytes(xs[1..][..i]))
  {
    var t := Text(Bytes(xs[..i + 1]));
    var u := [CharOf(xs[0] as Byte)] + Text(Bytes(xs[1..][..i]));
    assert |t| == |u|;
    forall j | 0 <= j < |t|
      ensures t[j] == u[j]
    {
      if j > 0 {
        assert u[j] == Text(Bytes(xs[1..][..i]))[j - 1];
      }
    }
  }

  /** The text of the first byte alone. */
  lemma HeardFirst(data: string, xs: seq<Rx>)
    requires xs != [] && xs[0] > 0
    ensures data + [CharOf(xs[0] as Byte)] == data + Text(Bytes(xs[..1]))
  {
    assert xs[..1] == [xs[0]];
  }

  /** The same, after the text accumulated so far. */
  lemma HeardPrefix(data: string, xs: seq<Rx>, i: nat)
    requires forall j :: 0 <= j < |xs| ==> xs[j] > 0
    requires i < |xs|
    ensures data + [CharOf(xs[0] as Byte)] + Text(Bytes(xs[1..][..i])) == data + Text(Bytes(xs[..i + 1]))
  {
    HeardFrom(xs, i);
  }

  /** The text of all the bytes is that of the first byte and then of the rest. */
  lemma HeardAll(data: string, xs: seq<Rx>)
    requires forall j :: 0 <= j < |xs| ==> xs[j] > 0
    requires xs != []
    ensures data + Text(Bytes(xs)) == data + [CharOf(xs[0] as Byte)] + Text(Bytes(xs[1..]))
  {
    HeardFrom(xs, |xs| - 1);
    assert xs[..|xs|] == xs && xs[1..][..|xs| - 1] == xs[1..];
  }

  /** The first byte put back in front of the rest of a run and what follows it. */
  lemma Unshift(xs: seq<Rx>, ys: seq<Rx>)
    requires xs != []
    ensures [xs[0]] + (xs[1..] + ys) == xs + ys
  {
    assert [xs[0]] + xs[1..] == xs;
  }

  /** Text as the bytes that carry it on the line. */
  function Wire(text: string): (xs: seq<Rx>)
    ensures |xs| == |text|
  {
    seq(|text|, i requires 0 <= i < |text| => (text[i] as int) % 0x100)
  }

  /** Text whose every character fits in one byte. */
  predicate Narrow(text: string) {
    forall i :: 0 <= i < |text| ==> text[i] as int < 0x100
  }

  /** A field sent as its bytes and then the byte `t` reads back, and the input after the
      `t` is left. */
  lemma {:induction false} ReadField(text: string, t: char, rest: seq<Rx>)
    requires Narrow(text) && t !in text && t as int < 0x100
    ensures ReadUntil(Wire(text) + [t as int] + rest, t) == Taken(text, rest)
    decreases |text|
  {
    var xs := Wire(text) + [t as int] + rest;
    if text == [] {
      assert xs[0] == t as int && xs[1..] == rest;
    } else {
      assert xs[0] == text[0] as int && CharOf(xs[0] as Byte) == text[0];
      assert xs[1..] == Wire(text[1..]) + [t as int] + rest;
      ReadField(text[1..], t, rest);
      assert [text[0]] + text[1..] == text;
    }
  }

  /** The decimal digits of a number fit in bytes and contain no separator. */
  lemma DigitsField(m: nat)
    ensures Narrow(Digits(m)) && AllDigits(Digits(m))
    ensures ',' !in Digits(m) && '\n' !in Digits(m) && '\r' !in Digits(m)
  {
    DigitsRoundTrip(m);
    var ds := Digits(m);
    forall i | 0 <= i < |ds| ensures ds[i] as int < 0x100 && ds[i] != ',' && ds[i] != '\n' && ds[i] != '\r' {
      assert IsDigit(ds[i]);
    }
  }

  /** A wait that runs out of time: it uses up the pause it waited through. */
  function TimeOut(input: seq<Rx>): (rest: seq<Rx>)
    ensures |rest| <= |input|
    ensures input != [] ==> |rest| == |input| - 1
  {
    if input == [] then [] else input[1..]
  }

  /** `timedRead`: the next byte, or -1 once the wait for one runs out. */
  function TimedByte(input: seq<Rx>): (r: Taken<int>)
    ensures -1 <= r.value < 0x100
    ensures r.rest == TimeOut(input)
    ensures r.value == -1 <==> input == [] || input[0] == SILENCE
  {
    if input == [] then Taken(-1, []) else Taken(input[0], input[1..])
  }

  /** Waiting (with a time limit) until two bytes are there, then two `read()`s: a read
      finding nothing gives -1, and a wait that ran out before the first byte gives two. */
  function TimedPair(input: seq<Rx>): (r: Taken<(int, int)>)
    ensures -1 <= r.value.0 < 0x100 && -1 <= r.value.1 < 0x100
    ensures |r.rest| <= |input|
  {
    var c1 := TimedByte(input);
    if c1.value == -1 then Taken((-1, -1), c1.rest)
    else
      var c2 := TimedByte(c1.rest);
      Taken((c1.value, c2.value), c2.rest)
  }

  /** `readStringUntil(t)`: the text up to the terminator, which is used up but not kept;
      a pause ends the text early. */
  function ReadUntil(input: seq<Rx>, t: char): (r: Taken<string>)
    ensures |r.rest| <= |input|
    ensures input != [] ==> |r.rest| < |input|
    ensures t !in r.value
    decreases |input|
  {
    if input == [] || input[0] == SILENCE then Taken("", TimeOut(input))
    else if CharOf(input[0]) == t then Taken("", input[1..])
    else
      var r := ReadUntil(input[1..], t);
      Taken([CharOf(input[0])] + r.value, r.rest)
  }

  /** `while (!stream.available()) {}`: the pauses before the next byte pass unnoticed. */
  function DropSilence(input: seq<Rx>): (rest: seq<Rx>)
    ensures |rest| <= |input|
    ensures rest == [] || rest[0] != SILENCE
    decreases |input|
  {
    if input != [] && input[0] == SILENCE then DropSilence(input[1..]) else input
  }

  /** The rest of a run of decimal digits, added to the value read so far. */
  function ParseDigits(input: seq<Rx>, value: nat): (r: Taken<nat>)
    ensures |r.rest| <= |input|
    ensures value <= r.value
    decreases |input|
  {
    if input != [] && input[0] != SILENCE && IsDigit(CharOf(input[0])) then
      ParseDigits(input[1..], value * 10 + DigitValue(CharOf(input[0])))
    else Taken(value, input)
  }

  /** `Stream::parseInt`: skips everything up to a digit or a minus sign, then reads an
      optionally negative decimal number; a pause before any digit reads as 0. */
  function LeadingInt(input: seq<Rx>): (r: Taken<int>)
    ensures |r.rest| <= |input|
    ensures input != [] ==> |r.rest| < |input|
    decreases |input|
  {
    if input == [] || input[0] == SILENCE then Taken(0, TimeOut(input))
    else
      var c := CharOf(input[0]);
      if c == '-' then
        var d := ParseDigits(input[1..], 0);
        Taken(-(d.value as int), d.rest)
      else if IsDigit(c) then
        var d := ParseDigits(input[1..], DigitValue(c));
        Taken(d.value, d.rest)
      else LeadingInt(input[1..])
  }

  // ---------------------------------------------------------------------------
  // What `Print::print` writes for the arguments of a command

  /** One argument of `sendAT` / `streamWrite`: a text, a character or an integer. */
  datatype Frag = Str(s: string) | Chr(c: char) | Num(n: int)

  function FragText(f: Frag): string {
    match f
    case Str(s) => s
    case Chr(c) => [c]
    case Num(n) => DecimalText(n)
  }

  /** The text of the arguments printed one after the other. */
  function Render(frags: seq<Frag>): string
    decreases |frags|
  {
    if frags == [] then "" else FragText(frags[0]) + Render(frags[1..])
  }

  /** `Print::print(const char*)` prints nothing for a NULL pointer. */
  function OptText(s: Wrappers.Option<string>): string {
    if s.Some? then s.value else ""
  }

  /** The line `sendAT(cmd...)` writes: "AT", the arguments, the newline. */
  function CommandLine(frags: seq<Frag>, nl: string): string {
    "AT" + Render(frags) + nl
  }

  lemma {:induction false} RenderAppend(xs: seq<Frag>, ys: seq<Frag>)
    ensures Render(xs + ys) == Render(xs) + Render(ys)
    decreases |xs|
  {
    if xs != [] {
      assert (xs + ys)[0] == xs[0];
      assert (xs + ys)[1..] == xs[1..] + ys;
      RenderAppend(xs[1..], ys);
      calc {
        Render(xs + ys);
        FragText(xs[0]) + Render(xs[1..] + ys);
        FragText(xs[0]) + (Render(xs[1..]) + Render(ys));
        (FragText(xs[0]) + Render(xs[1..])) + Render(ys);
      }
    } else {
      assert xs + ys == ys;
    }
  }

  /** One more argument printed adds its text at the end. */
  lemma RenderSnoc(frags: seq<Frag>, i: nat)
    requires i < |frags|
    ensures Render(frags[..i + 1]) == Render(frags[..i]) + FragText(frags[i])
  {
    RenderAppend(frags[..i], [frags[i]]);
    assert frags[..i + 1] == frags[..i] + [frags[i]];
  }

  /** Printing "AT", the arguments and the newline one by one writes the command line. */
  lemma RenderCommand(frags: seq<Frag>, nl: string)
    ensures Render([Str("AT")] + frags + [Str(nl)]) == CommandLine(frags, nl)
  {
    RenderAppend([Str("AT")] + frags, [Str(nl)]);
    RenderAppend([Str("AT")], frags);
  }

  // ---------------------------------------------------------------------------

  /** The Arduino `Stream` the modem is attached to. */
  class Stream {
    var input: seq<Rx>
    var output: string

    constructor (input: seq<Rx>)
      ensures this.input == input && output == ""
    {
      this.input := input;
      output := "";
    }

    /** `available() > 0`: a byte has arrived and is waiting. */
    predicate Available()
      reads this
    {
      input != [] && input[0] != SILENCE
    }

    /** `read()` right after `available()` said a byte is there. */
    method Read() returns (a: Byte)
      requires Available()
      modifies this
      ensures a == old(input[0]) && input == old(input[1..]) && output == old(output)
    {
      a := input[0];
      input := input[1..];
    }

    /** The pending wait runs out of time. */
    method Idle()
      modifies this
      ensures input == TimeOut(old(input)) && output == old(output)
    {
      input := TimeOut(input);
    }

    method TimedRead() returns (c: int)
      modifies this
      ensures Taken(c, input) == TimedByte(old(input)) && output == old(output)
    {
      var r := TimedByte(input);
      c, input := r.value, r.rest;
    }

    method TimedReadPair() returns (c1: int, c2: int)
      modifies this
      ensures Taken((c1, c2), input) == TimedPair(old(input)) && output == old(output)
    {
      var r := TimedPair(input);
      c1, c2, input := r.value.0, r.value.1, r.rest;
    }

    method ReadStringUntil(t: char) returns (s: string)
      modifies this
      ensures s == ReadUntil(old(input), t).value && input == ReadUntil(old(input), t).rest
      ensures output == old(output)
    {
      var r := ReadUntil(input, t);
      s, input := r.value, r.rest;
    }

    /** `streamSkipUntil(t)`: reads up to and including `t` and keeps nothing. */
    method SkipUntil(t: char)
      modifies this
      ensures input == ReadUntil(old(input), t).rest && output == old(output)
    {
      input := ReadUntil(input, t).rest;
    }

    method AwaitByte()
      modifies this
      ensures input == DropSilence(old(input)) && output == old(output)
    {
      input := DropSilence(input);
    }

    method ParseInt() returns (n: int)
      modifies this
      ensures Taken(n, input) == LeadingInt(old(input)) && output == old(output)
    {
      var r := LeadingInt(input);
      n, input := r.value, r.rest;
    }

    method Print(s: string)
      modifies this
      ensures output == old(output) + s && input == old(input)
    {
      output := output + s;
    }

    /** `write(buf, len)`: the payload bytes go out unchanged. */
    method Write(bs: seq<Byte>)
      modifies this
      ensures output == old(output) + Text(bs) && input == old(input)
    {
      output := output + Text(bs);
    }

    /** `streamWrite(args...)`: prints each argument in turn. */
    method StreamWrite(frags: seq<Frag>)
      modifies this
      ensures output == old(output) + Render(frags) && input == old(input)
    {
      for i := 0 to |frags|
        invariant output == old(output) + Render(frags[..i]) && input == old(input)
      {
        RenderSnoc(frags, i);
        Regroup(old(output), Render(frags[..i]), FragText(frags[i]));
        Print(FragText(frags[i]));
      }
      assert frags[..|frags|] == frags;
    }

    /** `flush()` waits for the outgoing bytes to leave; the model has no such delay. */
    method Flush()
      ensures input == old(input) && output == old(output)
    {
    }
  }
}
