/**
 * `TinyGsm` of `TinyGsmClient.h` (the SIM800 dialect) and its `GsmClient`: the modem owns
 * the serial stream and the table `sockets[5]` of registered clients; every method changes
 * that state exactly as the matching function of `Sim800Spec` says.
 */
module Sim800 {
  import opened Wrappers
  import opened Arduino
  import opened Serial
  import opened RxFifo
  import opened Terminators
  import opened Script
  import opened Sim800Spec

  class GsmClient {
    const at: Modem
    const mux: nat
    var sockConnected: bool
    var sockAvailable: UInt16
    var rx: Fifo

    /** The table entry this client stands for. */
    function Entry(): Sock
      reads this
    {
      Sock(sockConnected, sockAvailable, rx)
    }

    ghost predicate Valid()
      reads this, at, at.sockets
    {
      at.Valid() && mux < MUX_COUNT && at.sockets[mux] == this
    }

    /** `GsmClient(modem, mux)`, that is `init(&modem, mux)`: takes the table entry at `mux`
        and resets `sock_available` and `sock_connected`. */
    constructor (modem: Modem, mux: nat)
      requires modem.Valid() && mux < MUX_COUNT
      modifies modem.sockets
      ensures Valid() && at == modem && this.mux == mux
      ensures modem.State() == old(modem.State()).(table := Register(old(modem.State()).table, mux))
    {
      at := modem;
      this.mux := mux;
      sockAvailable := 0;
      sockConnected := false;
      rx := Empty(RX_BUFFER);
      new;
      modem.sockets[mux] := this;
    }

    /** `connect(host, port)`: empties the buffer and keeps what `modemConnect` says. */
    method Connect(host: string, port: UInt16) returns (r: int)
      requires Valid()
      modifies at.stream, at.Clients()
      ensures Valid()
      ensures (r, at.State()) == ClientConnect(old(at.State()), mux, host, port)
    {
      at.ClearRx(mux);
      var ok := at.ModemConnect(host, port, mux);
      at.MarkConnected(mux, ok);
      r := if ok then 1 else 0;
    }

    /** `connect(ip, port)`: the address written out octet by octet, then `connect`. */
    method ConnectIp(ip: IPv4, port: UInt16) returns (r: int)
      requires Valid()
      modifies at.stream, at.Clients()
      ensures Valid()
      ensures (r, at.State()) == ClientConnectIp(old(at.State()), mux, ip, port)
    {
      var host := "";
      host := host + Digits(ip.a);
      host := host + ".";
      host := host + Digits(ip.b);
      host := host + ".";
      host := host + Digits(ip.c);
      host := host + ".";
      host := host + Digits(ip.d);
      assert host == DottedQuad(ip);
      r := Connect(host, port);
    }

    /** `stop()`: sends `+CIPCLOSE=<mux>`, clears `sock_connected`, waits for the reply. */
    method Stop()
      requires Valid()
      modifies at.stream, at.Clients()
      ensures Valid()
      ensures at.State() == ClientStop(old(at.State()), mux)
    {
      at.SendAT([Str("+CIPCLOSE="), Num(mux)]);
      at.MarkConnected(mux, false);
      var _ := at.WaitIndex(Expected());
    }

    /** `write(buf, size)`. */
    method Write(payload: seq<Byte>) returns (n: nat)
      requires Valid()
      modifies at.stream, at.Clients()
      ensures Valid()
      ensures (n, at.State()) == ClientWrite(old(at.State()), mux, payload)
    {
      at.Maintain();
      var sent := at.ModemSend(payload, mux);
      n := ToSizeT(sent);
    }

    /** `write(c)`: a payload of one byte. */
    method WriteByte(c: Byte) returns (n: nat)
      requires Valid()
      modifies at.stream, at.Clients()
      ensures Valid()
      ensures (n, at.State()) == ClientWrite(old(at.State()), mux, [c])
    {
      n := Write([c]);
    }

    /** `available()`. */
    method Available() returns (n: int)
      requires Valid()
      modifies at.stream, at.Clients()
      ensures Valid()
      ensures (n, at.State()) == ClientAvailable(old(at.State()), mux)
    {
      if Size(rx) == 0 {
        at.Maintain();
      }
      assert at.State().table[mux] == Some(Entry());
      n := Size(rx) + sockAvailable;
    }

    /** `read(buf, size)`: the bytes handed over, at most `size` of them. */
    method Read(size: nat) returns (buf: seq<Byte>)
      requires Valid()
      modifies at.stream, at.Clients()
      ensures Valid()
      ensures (buf, at.State()) == ClientRead(old(at.State()), mux, size, at.useHex)
    {
      at.Maintain();
      ghost var goal := ReadLoop(at.State(), mux, size, [], at.useHex);
      buf := [];
      while |buf| < size
        invariant Valid() && |buf| <= size
        invariant ReadLoop(at.State(), mux, size, buf, at.useHex) == goal
        decreases |at.stream.input|, size - |buf|
      {
        var done;
        buf, done := ReadStep(size, buf);
        if done {
          return;
        }
      }
      ReadLoopDone(at.State(), mux, buf, at.useHex);
    }

    /** One pass of the loop in `read(buf, size)`: bytes from the buffer, or else a
        `maintain` and, with data announced, a `modemRead`; `done` where the loop ends. */
    method ReadStep(size: nat, got: seq<Byte>) returns (buf: seq<Byte>, done: bool)
      requires Valid() && |got| < size
      modifies at.stream, at.Clients()
      ensures Valid() && |buf| <= size
      ensures done ==> ReadLoop(old(at.State()), mux, size, got, at.useHex) == (buf, at.State())
      ensures !done ==> ReadLoop(old(at.State()), mux, size, got, at.useHex) ==
                        ReadLoop(at.State(), mux, size, buf, at.useHex)
      ensures !done ==> |at.stream.input| < |old(at.stream.input)| ||
                        (|at.stream.input| == |old(at.stream.input)| && |buf| > |got|)
    {
      assert at.State().table[mux] == Some(Entry());
      var chunk := Min(size - |got|, Size(rx));
      if chunk > 0 {
        ReadLoopTakes(at.State(), mux, size, got, at.useHex);
        var bs := at.TakeRx(mux, chunk);
        return got + bs, false;
      }
      ReadLoopAsks(at.State(), mux, size, got, at.useHex);
      at.Maintain();
      assert at.State().table[mux] == Some(Entry());
      if sockAvailable > 0 && at.stream.input != [] {
        var _ := at.ModemRead(Free(rx), mux);
        return got, false;
      }
      return got, true;
    }

    /** `read()`: one byte, or -1 when none comes. */
    method ReadByte() returns (c: int)
      requires Valid()
      modifies at.stream, at.Clients()
      ensures Valid()
      ensures (c, at.State()) == ClientReadByte(old(at.State()), mux, at.useHex)
    {
      var buf := Read(1);
      if |buf| == 1 {
        return buf[0] as int;
      }
      return -1;
    }

    /** `connected()`. */
    method Connected() returns (c: bool)
      requires Valid()
      modifies at.stream, at.Clients()
      ensures Valid()
      ensures (c, at.State()) == ClientConnected(old(at.State()), mux)
    {
      var n := Available();
      if n != 0 {
        return true;
      }
      assert at.State().table[mux] == Some(Entry());
      return sockConnected;
    }
  }

  class Modem {
    const stream: Stream
    const sockets: array<GsmClient?>
    /** `GSM_USE_HEX`: payload bytes travel as pairs of hexadecimal digits. */
    const useHex: bool

    ghost predicate Valid()
      reads this, sockets
    {
      sockets.Length == MUX_COUNT &&
      forall i :: 0 <= i < MUX_COUNT && sockets[i] != null ==> sockets[i].mux == i
    }

    ghost function Clients(): set<GsmClient>
      reads this, sockets
    {
      set i | 0 <= i < sockets.Length && sockets[i] != null :: sockets[i]
    }

    ghost function Table(): Table
      requires Valid()
      reads this, sockets, Clients()
    {
      seq(MUX_COUNT, i reads this, sockets, Clients() requires 0 <= i < MUX_COUNT && Valid() =>
        if sockets[i] == null then None else Some(sockets[i].Entry()))
    }

    ghost function State(): State
      requires Valid()
      reads this, stream, sockets, Clients()
    {
      Sim800Spec.State(stream.input, stream.output, Table())
    }

    /** `TinyGsm(stream)`: no client is registered yet. */
    constructor (stream: Stream, useHex: bool)
      ensures Valid() && this.stream == stream && this.useHex == useHex
      ensures State() == Sim800Spec.State(stream.input, stream.output, EmptyTable())
    {
      this.stream := stream;
      this.useHex := useHex;
      sockets := new GsmClient?[MUX_COUNT](_ => null);
    }

    // -------------------------------------------------------------------------
    // The line, as the modem uses it

    /** `sendAT(cmd...)`: `streamWrite("AT", cmd..., GSM_NL)`, then `flush`. */
    method SendAT(cmd: seq<Frag>)
      requires Valid()
      modifies stream
      ensures Valid()
      ensures State() == Send(old(State()), cmd)
    {
      ghost var t := Table();
      ghost var cs := Clients();
      RenderCommand(cmd, NL);
      stream.StreamWrite([Str("AT")] + cmd + [Str(NL)]);
      stream.Flush();
      assert Clients() == cs;
      assert Table() == t;
    }

    /** `stream.write(buff, len)`. */
    method WritePayload(payload: seq<Byte>)
      requires Valid()
      modifies stream
      ensures Valid()
      ensures State() == old(State()).(output := old(State()).output + Text(payload))
    {
      ghost var t := Table();
      ghost var cs := Clients();
      stream.Write(payload);
      assert Clients() == cs;
      assert Table() == t;
    }

    /** A wait that runs out of time with nothing received. */
    method Idle()
      requires Valid()
      modifies stream
      ensures Valid()
      ensures State() == old(State()).(input := TimeOut(old(State()).input))
    {
      ghost var t := Table();
      ghost var cs := Clients();
      stream.Idle();
      assert Clients() == cs;
      assert Table() == t;
    }

    /** `stream.read()` once a byte is there. */
    method ReadByte() returns (a: Byte)
      requires Valid() && stream.Available()
      modifies stream
      ensures Valid()
      ensures a == old(State()).input[0]
      ensures State() == old(State()).(input := old(State()).input[1..])
    {
      ghost var t := Table();
      ghost var cs := Clients();
      a := stream.Read();
      assert Clients() == cs;
      assert Table() == t;
    }

    /** `stream.readStringUntil(t)`. */
    method ReadStringUntil(t: char) returns (s: string)
      requires Valid()
      modifies stream
      ensures Valid()
      ensures s == ReadUntil(old(State()).input, t).value
      ensures State() == old(State()).(input := ReadUntil(old(State()).input, t).rest)
    {
      ghost var tb := Table();
      ghost var cs := Clients();
      s := stream.ReadStringUntil(t);
      assert Clients() == cs;
      assert Table() == tb;
    }

    /** `stream.readStringUntil(t)` with the text thrown away. */
    method SkipUntil(t: char)
      requires Valid()
      modifies stream
      ensures Valid()
      ensures State() == old(State()).(input := ReadUntil(old(State()).input, t).rest)
    {
      ghost var tb := Table();
      ghost var cs := Clients();
      stream.SkipUntil(t);
      assert Clients() == cs;
      assert Table() == tb;
    }

    /** One payload byte of a read reply: `while (stream.available() < 1)` and `read()`, or
        in hex mode two reads decoded by `strtol`; `false` where the line has run dry. */
    method AwaitPayloadByte() returns (got: bool, b: Byte)
      requires Valid()
      modifies stream
      ensures Valid()
      ensures var r := AwaitedByte(old(State()).input, useHex);
              (got <==> r.value.Some?) && (got ==> b == r.value.value) &&
              State() == old(State()).(input := r.rest)
    {
      ghost var tb := Table();
      ghost var cs := Clients();
      got, b := false, 0;
      stream.AwaitByte();
      if stream.Available() {
        var c1 := stream.Read();
        if !useHex {
          got, b := true, c1;
        } else {
          stream.AwaitByte();
          if stream.Available() {
            var c2 := stream.Read();
            got, b := true, ToByte(StrtolPair(CharOf(c1), CharOf(c2)));
          }
        }
      }
      assert Clients() == cs;
      assert Table() == tb;
    }

    // -------------------------------------------------------------------------
    // Writes into the clients' fields

    /** `sockets[mux]->sock_connected = v`. */
    method MarkConnected(mux: nat, v: bool)
      requires Valid() && mux < MUX_COUNT && sockets[mux] != null
      modifies sockets[mux]
      ensures Valid()
      ensures State() == old(State()).(table := WithConnected(old(State()).table, mux, v))
    {
      sockets[mux].sockConnected := v;
      assert Table() == WithConnected(old(Table()), mux, v);
    }

    /** `sockets[mux]->sock_available = n`. */
    method MarkAvailable(mux: nat, n: UInt16)
      requires Valid() && mux < MUX_COUNT && sockets[mux] != null
      modifies sockets[mux]
      ensures Valid()
      ensures State() == old(State()).(table := WithAvailable(old(State()).table, mux, n))
    {
      sockets[mux].sockAvailable := n;
      assert Table() == WithAvailable(old(Table()), mux, n);
    }

    /** `sockets[mux]->rx.put(b)`. */
    method PutRx(mux: nat, b: Byte)
      requires Valid() && mux < MUX_COUNT && sockets[mux] != null
      modifies sockets[mux]
      ensures Valid()
      ensures State() == old(State()).(table :=
                WithRx(old(State()).table, mux, Put(old(State()).table[mux].value.rx, b)))
    {
      sockets[mux].rx := Put(sockets[mux].rx, b);
      assert Table() == WithRx(old(Table()), mux, Put(old(Table())[mux].value.rx, b));
    }

    /** `sockets[mux]->rx.clear()`. */
    method ClearRx(mux: nat)
      requires Valid() && mux < MUX_COUNT && sockets[mux] != null
      modifies sockets[mux]
      ensures Valid()
      ensures State() == old(State()).(table :=
                WithRx(old(State()).table, mux, Clear(old(State()).table[mux].value.rx)))
    {
      sockets[mux].rx := Clear(sockets[mux].rx);
      assert Table() == WithRx(old(Table()), mux, Clear(old(Table())[mux].value.rx));
    }

    /** `sockets[mux]->rx.get(buf, n)`. */
    method TakeRx(mux: nat, n: nat) returns (bs: seq<Byte>)
      requires Valid() && mux < MUX_COUNT && sockets[mux] != null
      requires n <= Size(sockets[mux].rx)
      modifies sockets[mux]
      ensures Valid()
      ensures var g := Get(old(State()).table[mux].value.rx, n);
              bs == g.0 && State() == old(State()).(table := WithRx(old(State()).table, mux, g.1))
    {
      assert Table()[mux] == Some(sockets[mux].Entry());
      var g := Get(sockets[mux].rx, n);
      bs := g.0;
      sockets[mux].rx := g.1;
      assert Table() == WithRx(old(Table()), mux, g.1);
    }

    // -------------------------------------------------------------------------
    // Responses

    /** The `+CIPRXGET:` branch of `waitResponse`: the mode, and with mode 1 the mux. */
    method HandleRxGet() returns (taken: bool, text: string, mux: int)
      requires Valid()
      modifies stream
      ensures Valid()
      ensures Note(taken, text, mux, State().input) == RxGetNote(old(State()).input)
      ensures State() == old(State()).(input := RxGetNote(old(State()).input).rest)
    {
      var mode := ReadStringUntil(',');
      if ToInt(mode) != 1 {
        return false, mode, 0;
      }
      var muxText := ReadStringUntil('\n');
      return true, "", ToInt(muxText);
    }

    /** The `CLOSED` branch of `waitResponse`, with the check the source lacks. */
    method HandleClosed(mux: int)
      requires Valid()
      modifies Clients()
      ensures Valid()
      ensures State() == old(State()).(table := NoteClosed(old(State()).table, mux))
    {
      if mux != 0 && 0 <= mux < MUX_COUNT && sockets[mux] != null {
        MarkConnected(mux, false);
      }
    }

    /** `waitResponse(timeout, data, r1, ..., r5)`: the byte loop, then, if data was
        announced for a registered socket, its `sock_available` refreshed. */
    method WaitResponse(terms: Terms) returns (index: nat, data: string)
      requires Valid()
      modifies stream, Clients()
      ensures Valid()
      ensures Reply(index, data, State()) == Response(terms, old(State()))
      decreases |stream.input|, 0, 0
    {
      ghost var s0 := State();
      ghost var goal := Scan(terms, "", false, -1, s0);
      data := "";
      var gotData := false;
      var mux := -1;
      index := 0;
      while true
        invariant Valid()
        invariant Scan(terms, data, gotData, mux, State()) == goal
        invariant |stream.input| <= |s0.input|
        invariant gotData ==> |stream.input| < |s0.input|
        decreases |stream.input|
      {
        if !stream.Available() {
          Idle();
          data := "";
          break;
        }
        var a := ReadByte();
        if a == 0 {
          continue;  // bytes of value 0 are dropped
        }
        data := data + [CharOf(a)];
        var k := FirstMatch(data, terms);
        if k > 0 {
          index := k;
          break;
        }
        if EndsWith(data, NL + "+CIPRXGET:") {
          var taken, text, m := HandleRxGet();
          if taken {
            mux, gotData, data := m, true, "";
          } else {
            data := data + text;
          }
        } else if EndsWith(data, "CLOSED" + NL) {
          mux := ClosedMux(data);
          HandleClosed(mux);
          if mux != 0 {
            data := "";
          }
        }
      }
      if gotData && 0 <= mux < MUX_COUNT && sockets[mux] != null {
        ghost var c := State();
        assert c.table[mux].Some?;
        var n := ModemGetAvailable(mux);
        MarkAvailable(mux, ToUInt16(n));
      }
    }

    /** `waitResponse(timeout, r1, ..., r5)` and `waitResponse(r1, ..., r5)`: the text is
        not kept. */
    method WaitIndex(terms: Terms) returns (index: nat)
      requires Valid()
      modifies stream, Clients()
      ensures Valid()
      ensures index == Response(terms, old(State())).index
      ensures State() == Response(terms, old(State())).state
      decreases |stream.input|, 0, 1
    {
      var data;
      index, data := WaitResponse(terms);
    }

    /** `maintain()`: `waitResponse(10, NULL, NULL)` while a byte is there. */
    method Maintain()
      requires Valid()
      modifies stream, Clients()
      ensures Valid()
      ensures State() == Sim800Spec.Maintain(old(State()))
    {
      ghost var goal := Sim800Spec.Maintain(State());
      while stream.Available()
        invariant Valid()
        invariant Sim800Spec.Maintain(State()) == goal
        decreases |stream.input|
      {
        var _ := WaitIndex(NONE);
      }
      Idle();
    }

    // -------------------------------------------------------------------------
    // What `modemGetAvailable` and `modemGetConnected` ask

    /** One pass of the loop in `modemGetAvailable`. */
    method Poll(result: nat) returns (stop: bool, next: nat)
      requires Valid()
      modifies stream, Clients()
      ensures Valid()
      ensures Polled(stop, next, State()) == Sim800Spec.Poll(old(State()), result)
      decreases |stream.input|, 1, 0
    {
      var res := WaitIndex(Expected(Some("+CIPRXGET:"), Some(OK), Some(ERROR)));
      if res == 1 {
        SkipUntil(',');  // the mode
        SkipUntil(',');  // the mux
        var n := ReadStringUntil('\n');
        return false, ToSizeT(ToInt(n));
      } else if res == 2 {
        return false, result;
      }
      return true, result;
    }

    /** `modemGetAvailable(mux)`. */
    method ModemGetAvailable(mux: nat) returns (result: nat)
      requires Valid() && mux < MUX_COUNT && sockets[mux] != null
      modifies stream, Clients()
      ensures Valid()
      ensures (result, State()) == Sim800Spec.ModemGetAvailable(old(State()), mux)
      decreases |stream.input|, 3, 0
    {
      SendAT([Str("+CIPRXGET=4,"), Num(mux)]);
      ghost var s1 := State();
      result := 0;
      var i := 0;
      while i < 2
        invariant Valid() && i <= 2
        invariant Polls(s1, i) == Polled(false, result, State())
        invariant |stream.input| <= |s1.input|
      {
        var stop;
        stop, result := Poll(result);
        if stop {
          assert Polls(s1, 2) == Polls(s1, i + 1);
          return;
        }
        i := i + 1;
      }
      if result == 0 {
        var c := ModemGetConnected(mux);
        MarkConnected(mux, c);
      }
    }

    /** `modemGetConnected(mux)`. */
    method ModemGetConnected(mux: nat) returns (c: bool)
      requires Valid()
      modifies stream, Clients()
      ensures Valid()
      ensures (c, State()) == Sim800Spec.ModemGetConnected(old(State()), mux)
      decreases |stream.input|, 1, 0
    {
      SendAT([Str("+CIPSTATUS="), Num(mux)]);
      var res := WaitIndex(StatusTerms());
      var _ := WaitIndex(Expected());
      return res == 1;
    }

    // -------------------------------------------------------------------------
    // Sockets

    /** `modemConnect(host, port, mux)`. */
    method ModemConnect(host: string, port: UInt16, mux: nat) returns (ok: bool)
      requires Valid()
      modifies stream, Clients()
      ensures Valid()
      ensures (ok, State()) == Sim800Spec.ModemConnect(old(State()), host, port, mux)
    {
      SendAT(OpenCommand(host, port, mux));
      var rsp := WaitIndex(ConnectTerms());
      return rsp == 1;
    }

    /** `modemSend(buff, len, mux)`. */
    method ModemSend(payload: seq<Byte>, mux: nat) returns (n: int)
      requires Valid()
      modifies stream, Clients()
      ensures Valid()
      ensures (n, State()) == Sim800Spec.ModemSend(old(State()), payload, mux)
    {
      SendAT(SendCommand(mux, |payload|));
      var rsp := WaitIndex(Expected(Some(">")));
      if rsp != 1 {
        return -1;
      }
      WritePayload(payload);
      rsp := WaitIndex(Expected(Some(NL + "DATA ACCEPT:")));
      if rsp != 1 {
        return -1;
      }
      SkipUntil(',');
      var sent := ReadStringUntil('\n');
      return ToInt(sent);
    }

    /** The fields of a `+CIPRXGET: 2/3` reply header. */
    method ReadReplyHeader() returns (requested: nat, confirmed: UInt16)
      requires Valid()
      modifies stream
      ensures Valid()
      ensures Header(requested, confirmed, State().input) == ReadHeader(old(State()).input)
      ensures State() == old(State()).(input := ReadHeader(old(State()).input).rest)
    {
      SkipUntil(',');  // the mode
      SkipUntil(',');  // the mux
      var requestedText := ReadStringUntil(',');
      requested := ToSizeT(ToInt(requestedText));
      var confirmedText := ReadStringUntil('\n');
      confirmed := ToUInt16(ToInt(confirmedText));
    }

    /** The loop of `modemRead`: `n` payload bytes go into the buffer at `mux`. */
    method FillRx(mux: nat, n: nat)
      requires Valid() && mux < MUX_COUNT && sockets[mux] != null
      modifies stream, Clients()
      ensures Valid()
      ensures State() == Filling(old(State()), mux, n, useHex)
    {
      ghost var s := State();
      for i := 0 to n
        invariant Valid() && sockets[mux] != null
        invariant State() == Filling(s, mux, i, useHex)
      {
        FillingStep(s, mux, i, useHex);
        var got, b := AwaitPayloadByte();
        if got {
          PutRx(mux, b);
        }
      }
    }

    /** `modemRead(size, mux)`. */
    method ModemRead(size: nat, mux: nat) returns (n: nat)
      requires Valid() && mux < MUX_COUNT && sockets[mux] != null
      modifies stream, Clients()
      ensures Valid()
      ensures (n, State()) == Sim800Spec.ModemRead(old(State()), size, mux, useHex)
    {
      SendAT(ReadCommand(size, mux, useHex));
      var rsp := WaitIndex(Expected(Some("+CIPRXGET:")));
      if rsp != 1 {
        return 0;
      }
      ghost var w := State();
      assert w == ReadReply(old(State()), size, mux, useHex).state;
      var requested, confirmed := ReadReplyHeader();
      MarkAvailable(mux, confirmed);
      FillRx(mux, requested);
      assert State() == Filled(w, mux, ReadHeader(w.input), useHex);
      var _ := WaitIndex(Expected());
      return requested;
    }

    // -------------------------------------------------------------------------
    // GPRS

    /** One step of `gprsConnect`: its `sendAT` and `waitResponse()`. */
    method RunStep(step: Step) returns (ok: bool)
      requires Valid()
      modifies stream, Clients()
      ensures Valid()
      ensures (ok, State()) == StepRun(old(State()), step)
    {
      SendAT(step.cmd);
      var rsp := WaitIndex(Expected());
      ok := !step.mandatory || rsp == 1;
    }

    /** `gprsDisconnect()`. */
    method GprsDisconnect() returns (ok: bool)
      requires Valid()
      modifies stream, Clients()
      ensures Valid()
      ensures (ok, State()) == Sim800Spec.GprsDisconnect(old(State()))
    {
      SendAT([Str("+CIPSHUT")]);
      var rsp := WaitIndex(Expected());
      return rsp == 1;
    }

    /** The commands of `gprsConnect` in order, stopping at the first mandatory one that is
        not answered "OK". */
    method RunSteps(steps: seq<Step>) returns (ok: bool)
      requires Valid()
      modifies stream, Clients()
      ensures Valid()
      ensures (ok, State()) == Chain(StepRun, old(State()), steps)
    {
      ghost var d := State();
      ok := true;
      var i := 0;
      while i < |steps|
        invariant Valid() && i <= |steps|
        invariant Chain(StepRun, d, steps[..i]) == (true, State())
      {
        assert steps[..i + 1][..i] == steps[..i];
        ok := RunStep(steps[i]);
        if !ok {
          ChainStopsAtFailure(StepRun, d, steps, i + 1);
          return;
        }
        i := i + 1;
      }
      assert steps[..i] == steps;
    }

    /** `gprsConnect(apn, user, pwd)`. */
    method GprsConnect(apn: string, user: Option<string>, pwd: Option<string>) returns (ok: bool)
      requires Valid()
      modifies stream, Clients()
      ensures Valid()
      ensures (ok, State()) == Sim800Spec.GprsConnect(old(State()), apn, user, pwd)
    {
      var _ := GprsDisconnect();
      ok := RunSteps(GprsSteps(apn, user, pwd));
    }
  }
}
