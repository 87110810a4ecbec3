/**
 * `TinyGsm` of `TinyGsmClientXBee.h` and its `GsmClient`: the modem owns the serial stream
 * and the table of registered clients; every method changes that state exactly as the
 * matching function of `XBeeSpec` says.
 */
module XBee {
  import opened Wrappers
  import opened Arduino
  import opened Serial
  import opened RxFifo
  import opened Terminators
  import opened XBeeSpec

  class GsmClient {
    const at: Modem
    const mux: nat
    var sockConnected: bool
    var rx: Fifo

    /** The table entry this client stands for. */
    function Entry(): Sock
      reads this
    {
      Sock(sockConnected, rx)
    }

    ghost predicate Valid()
      reads this, at, at.sockets
    {
      at.Valid() && mux < MUX_COUNT && at.sockets[mux] == this
    }

    /** `GsmClient(modem, mux)`, that is `init(&modem, mux)`: takes the table entry at `mux`
        and clears `sock_connected`. */
    constructor (modem: Modem, mux: nat)
      requires modem.Valid() && mux < MUX_COUNT
      modifies modem.sockets
      ensures Valid() && at == modem && this.mux == mux
      ensures modem.State() == old(modem.State()).(table := Register(old(modem.State()).table, mux))
    {
      at := modem;
      this.mux := mux;
      sockConnected := false;
      rx := Empty(RX_BUFFER);
      new;
      modem.sockets[mux] := this;
    }

    /** `connect(host, port)`. */
    method Connect(host: string, port: UInt16) returns (r: int)
      requires Valid()
      modifies at.stream, at.Clients()
      ensures Valid()
      ensures (r, at.State()) == ClientConnect(old(at.State()), mux, host, port)
    {
      at.Opening(mux);
      var rsp := at.ModemConnect(host, port);
      r := at.Closing(mux, rsp);
    }

    /** `connect(ip, port)`. */
    method ConnectIp(ip: IPv4, port: UInt16) returns (r: int)
      requires Valid()
      modifies at.stream, at.Clients()
      ensures Valid()
      ensures (r, at.State()) == ClientConnectIp(old(at.State()), mux, ip, port)
    {
      at.Opening(mux);
      var rsp := at.ModemConnectIp(ip, port);
      r := at.Closing(mux, rsp);
    }

    /** `stop()`. */
    method Stop()
      requires Valid()
      modifies at.Clients()
      ensures Valid()
      ensures at.State() == ClientStop(old(at.State()), mux)
    {
      at.MarkConnected(mux, false);
    }

    /** `write(buf, size)`. */
    method Write(payload: seq<Byte>) returns (n: nat)
      requires Valid()
      modifies at.stream
      ensures Valid()
      ensures (n, at.State()) == ClientWrite(old(at.State()), mux, payload)
    {
      n := at.ModemSend(payload);
    }

    /** `write(c)`: a payload of one byte. */
    method WriteByte(c: Byte) returns (n: nat)
      requires Valid()
      modifies at.stream
      ensures Valid()
      ensures (n, at.State()) == ClientWrite(old(at.State()), mux, [c])
    {
      n := Write([c]);
    }

    /** `available()`. */
    method Available() returns (n: int)
      requires Valid()
      modifies at.stream, at.Clients()
      ensures Valid()
      ensures (n, at.State()) == ClientAvailable(old(at.State()), mux)
    {
      if Size(rx) == 0 {
        at.Maintain();
      }
      assert at.State().table[mux] == Some(Entry());
      n := Size(rx);
    }

    /** `read(buf, size)`: takes from the buffer and, while it is empty, runs `maintain`
        until `size` bytes are in; the model stops where the line has nothing more. */
    method Read(size: nat) returns (buf: seq<Byte>)
      requires Valid()
      modifies at.stream, at.Clients()
      ensures Valid()
      ensures (buf, at.State()) == ClientRead(old(at.State()), mux, size)
    {
      ghost var goal := ClientRead(at.State(), mux, size);
      buf := [];
      while |buf| < size
        invariant Valid() && |buf| <= size
        invariant ReadLoop(at.State(), mux, size, buf) == goal
        decreases |at.stream.input|, size - |buf|
      {
        assert at.State().table[mux] == Some(Entry());
        var chunk := Min(size - |buf|, Size(rx));
        if chunk > 0 {
          ReadLoopTakes(at.State(), mux, size, buf);
          var bs := at.TakeRx(mux, chunk);
          buf := buf + bs;
          continue;
        }
        ReadLoopWaits(at.State(), mux, size, buf);
        if at.stream.input == [] {
          return;
        }
        at.Maintain();
      }
      ReadLoopDone(at.State(), mux, buf);
    }

    /** `read()`: one byte, or -1 when none comes. */
    method ReadByte() returns (c: int)
      requires Valid()
      modifies at.stream, at.Clients()
      ensures Valid()
      ensures (c, at.State()) == ClientReadByte(old(at.State()), mux)
    {
      var buf := Read(1);
      if |buf| == 1 {
        return buf[0] as int;
      }
      return -1;
    }

    /** `connected()`. */
    method Connected() returns (c: bool)
      requires Valid()
      modifies at.stream, at.Clients()
      ensures Valid()
      ensures (c, at.State()) == ClientConnected(old(at.State()), mux)
    {
      var n := Available();
      if n != 0 {
        return true;
      }
      assert at.State().table[mux] == Some(Entry());
      return sockConnected;
    }
  }

  class Modem {
    const stream: Stream
    const sockets: array<GsmClient?>

    ghost predicate Valid()
      reads this, sockets
    {
      sockets.Length == MUX_COUNT &&
      forall i :: 0 <= i < MUX_COUNT && sockets[i] != null ==> sockets[i].mux == i
    }

    ghost function Clients(): set<GsmClient>
      reads this, sockets
    {
      set i | 0 <= i < sockets.Length && sockets[i] != null :: sockets[i]
    }

    ghost function Table(): Table
      requires Valid()
      reads this, sockets, Clients()
    {
      seq(MUX_COUNT, i reads this, sockets, Clients() requires 0 <= i < MUX_COUNT && Valid() =>
        if sockets[i] == null then None else Some(sockets[i].Entry()))
    }

    ghost function State(): State
      requires Valid()
      reads this, stream, sockets, Clients()
    {
      XBeeSpec.State(stream.input, stream.output, Table())
    }

    /** `TinyGsm(stream)`: no client is registered yet. */
    constructor (stream: Stream)
      ensures Valid() && this.stream == stream
      ensures State() == XBeeSpec.State(stream.input, stream.output, EmptyTable())
    {
      this.stream := stream;
      sockets := new GsmClient?[MUX_COUNT](_ => null);
    }

    // -------------------------------------------------------------------------
    // The line, as the modem uses it

    /** `sendAT(cmd...)`: `streamWrite("AT", cmd..., GSM_NL)`, then `flush`. */
    method SendAT(cmd: seq<Frag>)
      requires Valid()
      modifies stream
      ensures Valid()
      ensures State() == Send(old(State()), cmd)
    {
      ghost var t := Table();
      ghost var cs := Clients();
      RenderCommand(cmd, NL);
      stream.StreamWrite([Str("AT")] + cmd + [Str(NL)]);
      stream.Flush();
      assert Clients() == cs;
      assert Table() == t;
    }

    /** `streamWrite(text)`. */
    method Emit(text: string)
      requires Valid()
      modifies stream
      ensures Valid()
      ensures State() == XBeeSpec.Emit(old(State()), text)
    {
      ghost var t := Table();
      ghost var cs := Clients();
      stream.Print(text);
      assert Clients() == cs;
      assert Table() == t;
    }

    /** `stream.write(buff, len)`. */
    method WritePayload(payload: seq<Byte>)
      requires Valid()
      modifies stream
      ensures Valid()
      ensures State() == old(State()).(output := old(State()).output + Text(payload))
    {
      ghost var t := Table();
      ghost var cs := Clients();
      stream.Write(payload);
      assert Clients() == cs;
      assert Table() == t;
    }

    /** A wait that runs out of time with nothing received. */
    method Idle()
      requires Valid()
      modifies stream
      ensures Valid()
      ensures State() == old(State()).(input := TimeOut(old(State()).input))
    {
      ghost var t := Table();
      ghost var cs := Clients();
      stream.Idle();
      assert Clients() == cs;
      assert Table() == t;
    }

    /** `while (!stream.available()) {}`: the pauses before the next byte pass. */
    method AwaitByte()
      requires Valid()
      modifies stream
      ensures Valid()
      ensures State() == old(State()).(input := DropSilence(old(State()).input))
    {
      ghost var t := Table();
      ghost var cs := Clients();
      stream.AwaitByte();
      assert Clients() == cs;
      assert Table() == t;
    }

    /** `stream.read()` once a byte is there. */
    method ReadByte() returns (a: Byte)
      requires Valid() && stream.Available()
      modifies stream
      ensures Valid()
      ensures a == old(State()).input[0]
      ensures State() == old(State()).(input := old(State()).input[1..])
    {
      ghost var t := Table();
      ghost var cs := Clients();
      a := stream.Read();
      assert Clients() == cs;
      assert Table() == t;
    }

    /** `stream.readStringUntil(t)`. */
    method ReadStringUntil(t: char) returns (s: string)
      requires Valid()
      modifies stream
      ensures Valid()
      ensures s == ReadUntil(old(State()).input, t).value
      ensures State() == old(State()).(input := ReadUntil(old(State()).input, t).rest)
    {
      ghost var tb := Table();
      ghost var cs := Clients();
      s := stream.ReadStringUntil(t);
      assert Clients() == cs;
      assert Table() == tb;
    }

    /** `streamReadUntil(c)`: the text up to `c`, trimmed. */
    method StreamReadUntil(c: char) returns (s: string)
      requires Valid()
      modifies stream
      ensures Valid()
      ensures s == XBeeSpec.ReadTrimmed(old(State()).input, c).value
      ensures State() == old(State()).(input := XBeeSpec.ReadTrimmed(old(State()).input, c).rest)
    {
      var text := ReadStringUntil(c);
      s := Trim(text);
    }

    // -------------------------------------------------------------------------
    // Writes into the clients' fields

    /** `sockets[mux]->sock_connected = v`. */
    method MarkConnected(mux: nat, v: bool)
      requires Valid() && mux < MUX_COUNT && sockets[mux] != null
      modifies sockets[mux]
      ensures Valid()
      ensures State() == old(State()).(table := WithConnected(old(State()).table, mux, v))
    {
      sockets[mux].sockConnected := v;
      assert Table() == WithConnected(old(Table()), mux, v);
    }

    /** `sockets[mux]->rx.put(b)`. */
    method PutRx(mux: nat, b: Byte)
      requires Valid() && mux < MUX_COUNT && sockets[mux] != null
      modifies sockets[mux]
      ensures Valid()
      ensures State() == old(State()).(table :=
                WithRx(old(State()).table, mux, Put(old(State()).table[mux].value.rx, b)))
    {
      sockets[mux].rx := Put(sockets[mux].rx, b);
      assert Table() == WithRx(old(Table()), mux, Put(old(Table())[mux].value.rx, b));
    }

    /** `sockets[mux]->rx.clear()`. */
    method ClearRx(mux: nat)
      requires Valid() && mux < MUX_COUNT && sockets[mux] != null
      modifies sockets[mux]
      ensures Valid()
      ensures State() == old(State()).(table :=
                WithRx(old(State()).table, mux, Clear(old(State()).table[mux].value.rx)))
    {
      sockets[mux].rx := Clear(sockets[mux].rx);
      assert Table() == WithRx(old(Table()), mux, Clear(old(Table())[mux].value.rx));
    }

    /** `sockets[mux]->rx.get(buf, n)`. */
    method TakeRx(mux: nat, n: nat) returns (bs: seq<Byte>)
      requires Valid() && mux < MUX_COUNT && sockets[mux] != null
      requires n <= Size(sockets[mux].rx)
      modifies sockets[mux]
      ensures Valid()
      ensures var g := Get(old(State()).table[mux].value.rx, n);
              bs == g.0 && State() == old(State()).(table := WithRx(old(State()).table, mux, g.1))
    {
      assert Table()[mux] == Some(sockets[mux].Entry());
      var g := Get(sockets[mux].rx, n);
      bs := g.0;
      sockets[mux].rx := g.1;
      assert Table() == WithRx(old(Table()), mux, g.1);
    }

    // -------------------------------------------------------------------------
    // Responses

    /** The loop of the `+IPD` branch: `n` rounds of waiting for a byte and putting it
        into the buffer at `mux`, where a client is registered there. */
    method FillRx(mux: int, n: nat)
      requires Valid()
      modifies stream, Clients()
      ensures Valid()
      ensures State() == Filled(old(State()), mux, n)
    {
      ghost var s := State();
      for i := 0 to n
        invariant Valid()
        invariant State() == Filled(s, mux, i)
      {
        FilledStep(s, mux, i);
        AwaitByte();
        if stream.Available() {
          var b := ReadByte();
          if 0 <= mux < MUX_COUNT && sockets[mux] != null {
            PutRx(mux, b);
          }
        } else {
          assert stream.input == [];
        }
      }
    }

    /** The `+IPD,` branch of `waitResponse`: the mux, the length, then the payload. */
    method HandleIpd()
      requires Valid()
      modifies stream, Clients()
      ensures Valid()
      ensures State() == IpdNote(old(State()))
    {
      var muxText := ReadStringUntil(',');
      var lenText := ReadStringUntil(':');
      var len := ToInt(lenText);
      FillRx(ToInt(muxText), if len < 0 then 0 else len);
    }

    /** The `1,CLOSED` branch of `waitResponse`, with the check the source lacks. */
    method HandleClosed()
      requires Valid()
      modifies Clients()
      ensures Valid()
      ensures State() == old(State()).(table := NoteClosed(old(State()).table))
    {
      if sockets[DEFAULT_MUX] != null {
        MarkConnected(DEFAULT_MUX, false);
      }
    }

    /** `waitResponse(timeout, data, r1, ..., r5)`. */
    method WaitResponse(terms: Terms) returns (index: nat, data: string)
      requires Valid()
      modifies stream, Clients()
      ensures Valid()
      ensures Reply(index, data, State()) == Response(terms, old(State()))
    {
      ghost var goal := Scan(terms, "", State());
      data := "";
      while true
        invariant Valid()
        invariant Scan(terms, data, State()) == goal
        decreases |stream.input|
      {
        if !stream.Available() {
          Idle();
          return 0, "";
        }
        var a := ReadByte();
        if a == 0 {
          continue;  // bytes of value 0 are dropped
        }
        data := data + [CharOf(a)];
        var k := FirstMatch(data, terms);
        if k > 0 {
          return k, data;
        }
        if EndsWith(data, NL + "+IPD,") {
          HandleIpd();
          return 0, "";
        } else if EndsWith(data, NL + "1,CLOSED" + NL) {
          HandleClosed();
          data := "";
        }
      }
    }

    /** `waitResponse(timeout, r1, ..., r5)` and `waitResponse(r1, ..., r5)`: the text is
        not kept. */
    method WaitIndex(terms: Terms) returns (index: nat)
      requires Valid()
      modifies stream, Clients()
      ensures Valid()
      ensures index == Response(terms, old(State())).index
      ensures State() == Response(terms, old(State())).state
    {
      var data;
      index, data := WaitResponse(terms);
    }

    /** `maintain()`: a single `waitResponse(10, NULL, NULL)`. */
    method Maintain()
      requires Valid()
      modifies stream, Clients()
      ensures Valid()
      ensures State() == XBeeSpec.Maintain(old(State()))
    {
      var _ := WaitIndex(NONE);
    }

    // -------------------------------------------------------------------------
    // Command mode

    /** `commandMode()`. */
    method CommandMode() returns (ok: bool)
      requires Valid()
      modifies stream, Clients()
      ensures Valid()
      ensures (ok, State()) == XBeeSpec.CommandMode(old(State()))
    {
      Emit(ENTER);
      var _ := WaitIndex(Expected());
      var rsp := WaitIndex(Expected());
      ok := rsp == 1;
    }

    /** `writeChanges()`. */
    method WriteChanges()
      requires Valid()
      modifies stream, Clients()
      ensures Valid()
      ensures State() == XBeeSpec.WriteChanges(old(State()))
    {
      Emit("ATWR" + NL);
      var _ := WaitIndex(Expected());
      Emit("ATAC" + NL);
      var _ := WaitIndex(Expected());
    }

    /** `exitCommand()`. */
    method ExitCommand()
      requires Valid()
      modifies stream, Clients()
      ensures Valid()
      ensures State() == XBeeSpec.ExitCommand(old(State()))
    {
      Emit(LEAVE);
      var _ := WaitIndex(Expected());
    }

    /** A command and the default wait for its reply. */
    method Ask(cmd: seq<Frag>) returns (index: nat)
      requires Valid()
      modifies stream, Clients()
      ensures Valid()
      ensures index == XBeeSpec.Ask(old(State()), cmd).index
      ensures State() == XBeeSpec.Ask(old(State()), cmd).state
    {
      SendAT(cmd);
      index := WaitIndex(Expected());
    }

    /** A command whose answer is the line after it, read with `streamReadUntil('\r')`. */
    method AskLine(cmd: seq<Frag>) returns (res: string)
      requires Valid()
      modifies stream
      ensures Valid()
      ensures var sent := Send(old(State()), cmd);
              var line := XBeeSpec.ReadTrimmed(sent.input, '\r');
              res == line.value && State() == sent.(input := line.rest)
    {
      SendAT(cmd);
      res := StreamReadUntil('\r');
    }

    /** The first commands of `networkConnect`: transparent mode, TCP, then the SSID,
        whose reply is returned. */
    method AskNetwork(ssid: string) returns (rsp: nat)
      requires Valid()
      modifies stream, Clients()
      ensures Valid()
      ensures var ap := XBeeSpec.Ask(old(State()), [Str("AP"), Num(0)]);
              var ip := XBeeSpec.Ask(ap.state, [Str("IP"), Num(1)]);
              var id := XBeeSpec.Ask(ip.state, [Str("ID"), Str(ssid)]);
              rsp == id.index && State() == id.state
    {
      var _ := Ask([Str("AP"), Num(0)]);
      var _ := Ask([Str("IP"), Num(1)]);
      rsp := Ask([Str("ID"), Str(ssid)]);
    }

    /** `networkConnect(ssid, pwd)`: each `goto fail` becomes an `exitCommand` and an early
        return. */
    method NetworkConnect(ssid: string, pwd: string) returns (ok: bool)
      requires Valid()
      modifies stream, Clients()
      ensures Valid()
      ensures (ok, State()) == XBeeSpec.NetworkConnect(old(State()), ssid, pwd)
    {
      var _ := CommandMode();
      var rsp := AskNetwork(ssid);
      if rsp != 1 {
        ExitCommand();
        return false;
      }
      rsp := Ask([Str("PK"), Str(pwd)]);
      if rsp != 1 {
        ExitCommand();
        return false;
      }
      WriteChanges();
      ExitCommand();
      return true;
    }

    /** `factoryDefault()`. */
    method FactoryDefault() returns (ok: bool)
      requires Valid()
      modifies stream, Clients()
      ensures Valid()
      ensures (ok, State()) == XBeeSpec.FactoryDefault(old(State()))
    {
      var _ := CommandMode();
      var rsp := Ask([Str("RE")]);
      ok := rsp == 1;
      WriteChanges();
      ExitCommand();
    }

    /** `getRegistrationStatus()`. */
    method GetRegistrationStatus() returns (status: RegStatus)
      requires Valid()
      modifies stream, Clients()
      ensures Valid()
      ensures (status, State()) == XBeeSpec.GetRegistrationStatus(old(State()))
    {
      var _ := CommandMode();
      var res := AskLine([Str("AI")]);
      ExitCommand();
      status := RegStatusOf(res);
    }

    /** `modemGetConnected()`. */
    method ModemGetConnected() returns (c: bool)
      requires Valid()
      modifies stream, Clients()
      ensures Valid()
      ensures (c, State()) == XBeeSpec.ModemGetConnected(old(State()))
    {
      var _ := CommandMode();
      SendAT([Str("AI")]);
      var res := WaitIndex(Expected(Some("0")));
      ExitCommand();
      c := res == 1;
    }

    // -------------------------------------------------------------------------
    // Sockets

    /** `modemConnect(host, port)`: the looked-up address is read back and connected to. */
    method ModemConnect(host: string, port: UInt16) returns (rsp: int)
      requires Valid()
      modifies stream, Clients()
      ensures Valid()
      ensures (rsp, State()) == XBeeSpec.ModemConnect(old(State()), host, port)
    {
      SendAT([Str("LA"), Str(host)]);
      var ipadd := StreamReadUntil('\r');
      rsp := ModemConnectIp(Resolve(ipadd), port);
    }

    /** `modemConnect(ip, port)`: the dotted quad written out octet by octet. */
    method ModemConnectIp(ip: IPv4, port: UInt16) returns (rsp: int)
      requires Valid()
      modifies stream, Clients()
      ensures Valid()
      ensures (rsp, State()) == XBeeSpec.ModemConnectIp(old(State()), ip, port)
    {
      var host := "";
      host := host + Digits(ip.a);
      host := host + ".";
      host := host + Digits(ip.b);
      host := host + ".";
      host := host + Digits(ip.c);
      host := host + ".";
      host := host + Digits(ip.d);
      assert host == DottedQuad(ip);
      var _ := Ask([Str("DL"), Str(host)]);
      var r := Ask([Str("DE"), Str(HexText(port))]);
      rsp := r;
    }

    /** The start of both `connect`s: `rx.clear()` and `commandMode()`. */
    method Opening(mux: nat)
      requires Valid() && mux < MUX_COUNT && sockets[mux] != null
      modifies stream, Clients()
      ensures Valid()
      ensures State() == XBeeSpec.Opening(old(State()), mux)
    {
      ClearRx(mux);
      var _ := CommandMode();
    }

    /** The end of both `connect`s: `sock_connected` set from the reply `rsp` (1 only;
        see the findings), `writeChanges()`, `exitCommand()`, and `sock_connected` returned. */
    method Closing(mux: nat, rsp: int) returns (r: int)
      requires Valid() && mux < MUX_COUNT && sockets[mux] != null
      modifies stream, Clients()
      ensures Valid()
      ensures (r, State()) == XBeeSpec.Closing(mux, (rsp, old(State())))
    {
      MarkConnected(mux, rsp == 1);
      WriteChanges();
      ExitCommand();
      r := if rsp == 1 then 1 else 0;
    }

    /** `modemSend(buff, len)`. */
    method ModemSend(payload: seq<Byte>) returns (n: nat)
      requires Valid()
      modifies stream
      ensures Valid()
      ensures (n, State()) == XBeeSpec.ModemSend(old(State()), payload)
    {
      WritePayload(payload);
      n := |payload|;
    }
  }
}
