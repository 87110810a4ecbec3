/**
 * `TinyGsmSim7600` and its `GsmClient`: the modem owns the serial stream and the table
 * `sockets[]` of registered clients; every method changes that state exactly as the
 * matching function of `Sim7600Spec` says.
 */
module Sim7600 {
  import opened Wrappers
  import opened Arduino
  import opened Serial
  import opened RxFifo
  import opened Terminators
  import opened Sim7600Spec

  class GsmClient {
    const at: Modem
    const mux: nat
    var sockConnected: bool
    var sockAvailable: UInt16
    var gotData: bool
    var rx: Fifo

    /** The table entry this client stands for. */
    function Entry(): Sock
      reads this
    {
      Sock(sockConnected, sockAvailable, gotData, rx)
    }

    ghost predicate Valid()
      reads this, at, at.sockets
    {
      at.Valid() && mux < MUX_COUNT && at.sockets[mux] == this
    }

    /** `GsmClient(modem, mux)`, that is `init(&modem, mux)`: resets the flags and takes
        the table entry at `mux`. */
    constructor (modem: Modem, mux: nat)
      requires modem.Valid() && mux < MUX_COUNT
      modifies modem.sockets
      ensures Valid() && at == modem && this.mux == mux
      ensures modem.State() == old(modem.State()).(table := Register(old(modem.State()).table, mux))
    {
      at := modem;
      this.mux := mux;
      sockAvailable := 0;
      sockConnected := false;
      gotData := false;
      rx := Empty(RX_BUFFER);
      new;
      modem.sockets[mux] := this;
    }

    /** `stop()`: sends `+CIPCLOSE=<mux>`, clears `sock_connected`, waits for the reply. */
    method Stop()
      requires Valid()
      modifies at.stream, at.Clients()
      ensures Valid()
      ensures at.State() == ClientStop(old(at.State()), mux)
    {
      at.SendAT([Str("+CIPCLOSE="), Num(mux)]);
      at.MarkConnected(mux, false);
      var _ := at.WaitIndex(Expected());
    }

    /** `connect(host, port, timeout_s)`. */
    method Connect(host: string, port: UInt16) returns (r: int)
      requires Valid()
      modifies at.stream, at.Clients()
      ensures Valid()
      ensures (r, at.State()) == ClientConnect(old(at.State()), mux, host, port)
    {
      Stop();
      at.ClearRx(mux);
      var ok := at.ModemConnect(host, port, mux);
      at.MarkConnected(mux, ok);
      r := if ok then 1 else 0;
    }
  }

  class Modem {
    const stream: Stream
    const sockets: array<GsmClient?>
    /** `TINY_GSM_USE_HEX`: payload bytes travel as pairs of hexadecimal digits. */
    const useHex: bool

    ghost predicate Valid()
      reads this, sockets
    {
      sockets.Length == MUX_COUNT &&
      forall i :: 0 <= i < MUX_COUNT && sockets[i] != null ==> sockets[i].mux == i
    }

    ghost function Clients(): set<GsmClient>
      reads this, sockets
    {
      set i | 0 <= i < sockets.Length && sockets[i] != null :: sockets[i]
    }

    ghost function Table(): Table
      requires Valid()
      reads this, sockets, Clients()
    {
      seq(MUX_COUNT, i reads this, sockets, Clients() requires 0 <= i < MUX_COUNT && Valid() =>
        if sockets[i] == null then None else Some(sockets[i].Entry()))
    }

    ghost function State(): State
      requires Valid()
      reads this, stream, sockets, Clients()
    {
      Sim7600Spec.State(stream.input, stream.output, Table())
    }

    /** `TinyGsmSim7600(stream)`: no client is registered yet. */
    constructor (stream: Stream, useHex: bool)
      ensures Valid() && this.stream == stream && this.useHex == useHex
      ensures State() == Sim7600Spec.State(stream.input, stream.output, EmptyTable())
    {
      this.stream := stream;
      this.useHex := useHex;
      sockets := new GsmClient?[MUX_COUNT](_ => null);
    }

    // -------------------------------------------------------------------------
    // The line, as the modem uses it

    /** `sendAT(cmd...)`: "AT", the arguments and the newline, printed one by one. */
    method SendAT(cmd: seq<Frag>)
      requires Valid()
      modifies stream
      ensures Valid()
      ensures State() == Send(old(State()), cmd)
    {
      ghost var t := Table();
      ghost var cs := Clients();
      RenderCommand(cmd, NL);
      stream.StreamWrite([Str("AT")] + cmd + [Str(NL)]);
      stream.Flush();
      assert Clients() == cs;
      assert Table() == t;
    }

    /** `stream.write(buff, len); stream.flush()`. */
    method WritePayload(payload: seq<Byte>)
      requires Valid()
      modifies stream
      ensures Valid()
      ensures State() == old(State()).(output := old(State()).output + Text(payload))
    {
      ghost var t := Table();
      ghost var cs := Clients();
      stream.Write(payload);
      stream.Flush();
      assert Clients() == cs;
      assert Table() == t;
    }

    /** A wait that runs out of time with nothing received. */
    method Idle()
      requires Valid()
      modifies stream
      ensures Valid()
      ensures State() == old(State()).(input := TimeOut(old(State()).input))
    {
      ghost var t := Table();
      ghost var cs := Clients();
      stream.Idle();
      assert Clients() == cs;
      assert Table() == t;
    }

    /** `stream.read()` once a byte is there. */
    method ReadByte() returns (a: Byte)
      requires Valid() && stream.Available()
      modifies stream
      ensures Valid()
      ensures a == old(State()).input[0]
      ensures State() == old(State()).(input := old(State()).input[1..])
    {
      ghost var t := Table();
      ghost var cs := Clients();
      a := stream.Read();
      assert Clients() == cs;
      assert Table() == t;
    }

    /** `stream.readStringUntil(t)`. */
    method ReadStringUntil(t: char) returns (s: string)
      requires Valid()
      modifies stream
      ensures Valid()
      ensures s == ReadUntil(old(State()).input, t).value
      ensures State() == old(State()).(input := ReadUntil(old(State()).input, t).rest)
    {
      ghost var tb := Table();
      ghost var cs := Clients();
      s := stream.ReadStringUntil(t);
      assert Clients() == cs;
      assert Table() == tb;
    }

    /** `streamSkipUntil(t)`. */
    method SkipUntil(t: char)
      requires Valid()
      modifies stream
      ensures Valid()
      ensures State() == old(State()).(input := ReadUntil(old(State()).input, t).rest)
    {
      ghost var tb := Table();
      ghost var cs := Clients();
      stream.SkipUntil(t);
      assert Clients() == cs;
      assert Table() == tb;
    }

    /** One payload byte of a read reply: `stream.read()` after waiting for it, or in hex
        mode two reads decoded by `strtol`. */
    method ReadPayloadByte() returns (b: Byte)
      requires Valid()
      modifies stream
      ensures Valid()
      ensures b == NextByte(old(State()).input, useHex).value
      ensures State() == old(State()).(input := NextByte(old(State()).input, useHex).rest)
    {
      ghost var tb := Table();
      ghost var cs := Clients();
      if useHex {
        var c1, c2 := stream.TimedReadPair();
        b := ToByte(StrtolPair(CharOf(ToByte(c1)), CharOf(ToByte(c2))));
      } else {
        var c := stream.TimedRead();
        b := ToByte(c);
      }
      assert Clients() == cs;
      assert Table() == tb;
    }

    /** `stream.parseInt()`. */
    method ParseInt() returns (n: int)
      requires Valid()
      modifies stream
      ensures Valid()
      ensures n == LeadingInt(old(State()).input).value
      ensures State() == old(State()).(input := LeadingInt(old(State()).input).rest)
    {
      ghost var tb := Table();
      ghost var cs := Clients();
      n := stream.ParseInt();
      assert Clients() == cs;
      assert Table() == tb;
    }

    // -------------------------------------------------------------------------
    // Writes into the clients' fields

    /** `sockets[mux]->sock_connected = v`. */
    method MarkConnected(mux: nat, v: bool)
      requires Valid() && mux < MUX_COUNT && sockets[mux] != null
      modifies sockets[mux]
      ensures Valid()
      ensures State() == old(State()).(table := WithConnected(old(State()).table, mux, v))
    {
      sockets[mux].sockConnected := v;
      assert Table() == WithConnected(old(Table()), mux, v);
    }

    /** `sockets[mux]->sock_available = n`. */
    method MarkAvailable(mux: nat, n: UInt16)
      requires Valid() && mux < MUX_COUNT && sockets[mux] != null
      modifies sockets[mux]
      ensures Valid()
      ensures State() == old(State()).(table := WithAvailable(old(State()).table, mux, n))
    {
      sockets[mux].sockAvailable := n;
      assert Table() == WithAvailable(old(Table()), mux, n);
    }

    /** `sockets[mux]->got_data = v`. */
    method MarkGotData(mux: nat, v: bool)
      requires Valid() && mux < MUX_COUNT && sockets[mux] != null
      modifies sockets[mux]
      ensures Valid()
      ensures State() == old(State()).(table := WithGotData(old(State()).table, mux, v))
    {
      sockets[mux].gotData := v;
      assert Table() == WithGotData(old(Table()), mux, v);
    }

    /** `sockets[mux]->rx.put(b)`. */
    method PutRx(mux: nat, b: Byte)
      requires Valid() && mux < MUX_COUNT && sockets[mux] != null
      modifies sockets[mux]
      ensures Valid()
      ensures State() == old(State()).(table :=
                WithRx(old(State()).table, mux, Put(old(State()).table[mux].value.rx, b)))
    {
      sockets[mux].rx := Put(sockets[mux].rx, b);
      assert Table() == WithRx(old(Table()), mux, Put(old(Table())[mux].value.rx, b));
    }

    /** `sockets[mux]->rx.clear()`. */
    method ClearRx(mux: nat)
      requires Valid() && mux < MUX_COUNT && sockets[mux] != null
      modifies sockets[mux]
      ensures Valid()
      ensures State() == old(State()).(table :=
                WithRx(old(State()).table, mux, Clear(old(State()).table[mux].value.rx)))
    {
      sockets[mux].rx := Clear(sockets[mux].rx);
      assert Table() == WithRx(old(Table()), mux, Clear(old(Table())[mux].value.rx));
    }

    // -------------------------------------------------------------------------
    // Responses

    /** The `+CIPRXGET:` branch of `waitResponse`. */
    method HandleRxGet() returns (taken: bool, text: string)
      requires Valid()
      modifies stream, Clients()
      ensures Valid()
      ensures (taken, text, State()) == RxGetNote(old(State()))
    {
      var mode := ReadStringUntil(',');
      if ToInt(mode) != 1 {
        return false, mode;
      }
      var muxText := ReadStringUntil('\n');
      var mux := ToInt(muxText);
      if 0 <= mux < MUX_COUNT && sockets[mux] != null {
        MarkGotData(mux, true);
      }
      return true, "";
    }

    /** The `+RECEIVE:` branch of `waitResponse`. */
    method HandleReceive()
      requires Valid()
      modifies stream, Clients()
      ensures Valid()
      ensures State() == ReceiveNote(old(State()))
    {
      var muxText := ReadStringUntil(',');
      var lenText := ReadStringUntil('\n');
      var mux := ToInt(muxText);
      var len := ToInt(lenText);
      if 0 <= mux < MUX_COUNT && sockets[mux] != null {
        MarkGotData(mux, true);
        MarkAvailable(mux, ToUInt16(len));
      }
    }

    /** The `+IPCLOSE:` branch of `waitResponse`. */
    method HandleClose()
      requires Valid()
      modifies stream, Clients()
      ensures Valid()
      ensures State() == CloseNote(old(State()))
    {
      var muxText := ReadStringUntil(',');
      SkipUntil('\n');  // the reason code
      var mux := ToInt(muxText);
      if 0 <= mux < MUX_COUNT && sockets[mux] != null {
        MarkConnected(mux, false);
      }
    }

    /** `waitResponse(timeout, data, r1, ..., r5)`. */
    method WaitResponse(terms: Terms) returns (index: nat, data: string)
      requires Valid()
      modifies stream, Clients()
      ensures Valid()
      ensures Wait(index, data, State()) == Scan(terms, "", old(State()))
    {
      ghost var goal := Scan(terms, "", State());
      data := "";
      while true
        invariant Valid()
        invariant Scan(terms, data, State()) == goal
        decreases |stream.input|
      {
        if !stream.Available() {
          Idle();
          return 0, "";
        }
        var a := ReadByte();
        if a == 0 {
          continue;  // bytes of value 0 are dropped
        }
        data := data + [CharOf(a)];
        var k := FirstMatch(data, terms);
        if k > 0 {
          return k, data;
        }
        if EndsWith(data, NL + "+CIPRXGET:") {
          var taken, text := HandleRxGet();
          data := if taken then "" else data + text;
        } else if EndsWith(data, NL + "+RECEIVE:") {
          HandleReceive();
          data := "";
        } else if EndsWith(data, "+IPCLOSE:") {
          HandleClose();
          data := "";
        }
      }
    }

    /** `waitResponse(timeout, r1, ..., r5)` and `waitResponse(r1, ..., r5)`: the text
        is not kept. */
    method WaitIndex(terms: Terms) returns (index: nat)
      requires Valid()
      modifies stream, Clients()
      ensures Valid()
      ensures index == Scan(terms, "", old(State())).index
      ensures State() == Scan(terms, "", old(State())).state
    {
      var data;
      index, data := WaitResponse(terms);
    }

    // -------------------------------------------------------------------------
    // Sockets

    /** `modemConnect(host, port, mux)`. */
    method ModemConnect(host: string, port: UInt16, mux: nat) returns (ok: bool)
      requires Valid()
      modifies stream, Clients()
      ensures Valid()
      ensures (ok, State()) == Sim7600Spec.ModemConnect(old(State()), host, port, mux)
    {
      SendAT([Str("+CIPRXGET=1")]);
      var rsp := WaitIndex(Expected());
      if rsp != 1 {
        return false;
      }
      SendAT(OpenCommand(host, port, mux));
      rsp := WaitIndex(Expected(Some(NL + "+CIPOPEN:")));
      return rsp == 1;
    }

    /** `modemSend(buff, len, mux)`. */
    method ModemSend(payload: seq<Byte>, mux: nat) returns (n: int)
      requires Valid()
      modifies stream, Clients()
      ensures Valid()
      ensures (n, State()) == Sim7600Spec.ModemSend(old(State()), payload, mux)
    {
      SendAT(SendCommand(mux, |payload|));
      var rsp := WaitIndex(Expected(Some(">")));
      if rsp != 1 {
        return 0;
      }
      WritePayload(payload);
      rsp := WaitIndex(Expected(Some(NL + "+CIPSEND:")));
      if rsp != 1 {
        return 0;
      }
      SkipUntil(',');  // the mux
      SkipUntil(',');  // the length asked for
      var sent := ReadStringUntil('\n');
      return ToInt16(ToInt(sent));
    }

    /** The fields of a `+CIPRXGET: 2/3` reply header. */
    method ReadReplyHeader() returns (requested: nat, confirmed: nat)
      requires Valid()
      modifies stream
      ensures Valid()
      ensures Header(requested, confirmed, State().input) == ReadHeader(old(State()).input)
      ensures State() == old(State()).(input := ReadHeader(old(State()).input).rest)
    {
      SkipUntil(',');  // the mode
      SkipUntil(',');  // the mux
      var requestedText := ReadStringUntil(',');
      requested := ToSizeT(ToInt(requestedText));
      var confirmedText := ReadStringUntil('\n');
      confirmed := ToSizeT(ToInt(confirmedText));
    }

    /** The loop of `modemRead`: `n` payload bytes go into the buffer at `mux`. */
    method FillRx(mux: nat, n: nat)
      requires Valid() && mux < MUX_COUNT && sockets[mux] != null
      modifies stream, Clients()
      ensures Valid()
      ensures State() == Filling(old(State()), mux, n, useHex)
    {
      ghost var s := State();
      for i := 0 to n
        invariant Valid() && sockets[mux] != null
        invariant State() == Filling(s, mux, i, useHex)
      {
        FillingStep(s, mux, i, useHex);
        var b := ReadPayloadByte();
        PutRx(mux, b);
      }
    }

    /** `modemRead(size, mux)`. */
    method ModemRead(size: nat, mux: nat) returns (n: nat)
      requires Valid() && mux < MUX_COUNT && sockets[mux] != null
      modifies stream, Clients()
      ensures Valid()
      ensures (n, State()) == Sim7600Spec.ModemRead(old(State()), size, mux, useHex)
    {
      SendAT(ReadCommand(size, mux, useHex));
      var rsp := WaitIndex(Expected(Some("+CIPRXGET:")));
      if rsp != 1 {
        return 0;
      }
      ghost var w := State();
      assert w == ReadReply(old(State()), size, mux, useHex).state;
      var requested, confirmed := ReadReplyHeader();
      FillRx(mux, requested);
      MarkAvailable(mux, ToUInt16(confirmed));
      assert State() == Filled(w, mux, ReadHeader(w.input), useHex);
      var _ := WaitIndex(Expected());
      return requested;
    }

    /** `modemGetAvailable(mux)`. */
    method ModemGetAvailable(mux: nat) returns (result: nat)
      requires Valid() && mux < MUX_COUNT && sockets[mux] != null
      modifies stream, Clients()
      ensures Valid()
      ensures (result, State()) == Sim7600Spec.ModemGetAvailable(old(State()), mux)
    {
      SendAT([Str("+CIPRXGET=4,"), Num(mux)]);
      result := 0;
      var rsp := WaitIndex(Expected(Some("+CIPRXGET:")));
      if rsp == 1 {
        SkipUntil(',');  // the mode
        SkipUntil(',');  // the mux
        var n := ReadStringUntil('\n');
        result := ToSizeT(ToInt(n));
        var _ := WaitIndex(Expected());
      }
      assert (result, State()) == AvailableReply(old(State()), mux);
      if result == 0 {
        var c := ModemGetConnected(mux);
        MarkConnected(mux, c);
      }
    }

    /** One pass of the loop in `modemGetConnected`: the state of link `k`. */
    method ReadLink(k: nat)
      requires Valid() && k < MUX_COUNT
      modifies stream, Clients()
      ensures Valid()
      ensures State() == LinkStep(old(State()), k)
    {
      var v := ParseInt();
      if sockets[k] != null {
        MarkConnected(k, v != 0);
      }
      SkipUntil(',');
    }

    /** The loop in `modemGetConnected` over the links of a `+CIPCLOSE:` reply. */
    method ReadLinks()
      requires Valid()
      modifies stream, Clients()
      ensures Valid()
      ensures State() == LinkStates(old(State()), MUX_COUNT)
    {
      ghost var w := State();
      for muxNo := 0 to MUX_COUNT
        invariant Valid()
        invariant State() == LinkStates(w, muxNo)
      {
        ReadLink(muxNo);
      }
    }

    /** `modemGetConnected(mux)` with the missing-header return restored and the loop over
        the ten table entries (see the findings). */
    method ModemGetConnected(mux: nat) returns (c: bool)
      requires Valid() && mux < MUX_COUNT && sockets[mux] != null
      modifies stream, Clients()
      ensures Valid()
      ensures (c, State()) == Sim7600Spec.ModemGetConnected(old(State()), mux)
    {
      ghost var reply := LinkReply(State());
      SendAT([Str("+CIPCLOSE?")]);
      var rsp := WaitIndex(Expected(Some("+CIPCLOSE:")));
      assert rsp == reply.index && State() == reply.state;
      if rsp != 1 {
        return false;
      }
      ReadLinks();
      var _ := WaitIndex(Expected());
      assert State().table[mux] == Some(sockets[mux].Entry());
      return sockets[mux].sockConnected;
    }
  }
}
