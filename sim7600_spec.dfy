/**
 * The SIM7600 dialect as functions on a value `State`: the line (what is still to arrive,
 * what has been sent) and the socket table, one optional entry per mux for the client
 * registered there.  The class `Sim7600.Modem` performs these functions in place.
 */
module Sim7600Spec {
  import opened Wrappers
  import opened Arduino
  import opened Serial
  import opened RxFifo
  import opened Terminators

  const MUX_COUNT: nat := 10
  const RX_BUFFER: nat := 64
  const NL: string := "\r\n"
  const OK: string := "OK\r\n"
  const ERROR: string := "ERROR\r\n"

  /** The terminators of a `waitResponse` call; r1 and r2 default to "OK" and "ERROR". */
  function Expected(r1: Option<string> := Some(OK), r2: Option<string> := Some(ERROR),
                    r3: Option<string> := None, r4: Option<string> := None,
                    r5: Option<string> := None): Terms
  {
    Expect(r1, r2, r3, r4, r5)
  }

  /** What a `GsmClient` holds about its socket. */
  datatype Sock = Sock(connected: bool, available: UInt16, gotData: bool, rx: Fifo)

  /** `sockets[]`: `None` where no client is registered. */
  type Table = t: seq<Option<Sock>> | |t| == MUX_COUNT
    witness [None, None, None, None, None, None, None, None, None, None]

  datatype State = State(input: seq<Rx>, output: string, table: Table)

  /** What `waitResponse` returns: the terminator index, the captured text, the new state. */
  datatype Wait = Wait(index: nat, data: string, state: State)

  predicate Registered(t: Table, mux: int) {
    0 <= mux < MUX_COUNT && t[mux].Some?
  }

  predicate SameRegistration(t: Table, u: Table) {
    forall i :: 0 <= i < MUX_COUNT ==> (t[i].Some? <==> u[i].Some?)
  }

  /** What notifications may do to the table: no client is registered or dropped, no
      receive buffer changes, no socket becomes connected and none loses its data flag. */
  predicate UrcOnly(t: Table, u: Table) {
    forall i :: 0 <= i < MUX_COUNT ==>
      (t[i].Some? <==> u[i].Some?) &&
      (t[i].Some? ==> u[i].value.rx == t[i].value.rx
                      && (u[i].value.connected ==> t[i].value.connected)
                      && (t[i].value.gotData ==> u[i].value.gotData))
  }

  /** The entry for a freshly constructed client at `mux`. */
  function FreshSock(): (k: Sock)
    ensures !k.connected && k.available == 0 && !k.gotData
    ensures k.rx.items == [] && k.rx.capacity == RX_BUFFER
  {
    Sock(false, 0, false, Empty(RX_BUFFER))
  }

  /** The table a modem starts with: `memset(sockets, 0, ...)`. */
  function EmptyTable(): (t: Table)
    ensures forall i :: 0 <= i < MUX_COUNT ==> !Registered(t, i)
  {
    [None, None, None, None, None, None, None, None, None, None]
  }

  /** `GsmClient::init`: the new client takes the entry at `mux`. */
  function Register(t: Table, mux: nat): (r: Table)
    requires mux < MUX_COUNT
    ensures Registered(r, mux) && r[mux].value == FreshSock()
    ensures forall i :: 0 <= i < MUX_COUNT && i != mux ==> r[i] == t[i]
  {
    t[mux := Some(FreshSock())]
  }

  /** `sockets[mux]->sock_connected = v`. */
  function WithConnected(t: Table, mux: nat, v: bool): (r: Table)
    requires Registered(t, mux)
    ensures Registered(r, mux) && r[mux].value == t[mux].value.(connected := v)
    ensures forall i :: 0 <= i < MUX_COUNT && i != mux ==> r[i] == t[i]
  {
    t[mux := Some(t[mux].value.(connected := v))]
  }

  /** `sockets[mux]->sock_available = n`. */
  function WithAvailable(t: Table, mux: nat, n: UInt16): (r: Table)
    requires Registered(t, mux)
    ensures Registered(r, mux) && r[mux].value == t[mux].value.(available := n)
    ensures forall i :: 0 <= i < MUX_COUNT && i != mux ==> r[i] == t[i]
  {
    t[mux := Some(t[mux].value.(available := n))]
  }

  /** `sockets[mux]->got_data = v`. */
  function WithGotData(t: Table, mux: nat, v: bool): (r: Table)
    requires Registered(t, mux)
    ensures Registered(r, mux) && r[mux].value == t[mux].value.(gotData := v)
    ensures forall i :: 0 <= i < MUX_COUNT && i != mux ==> r[i] == t[i]
  {
    t[mux := Some(t[mux].value.(gotData := v))]
  }

  /** The receive buffer of the client at `mux` replaced by `q`. */
  function WithRx(t: Table, mux: nat, q: Fifo): (r: Table)
    requires Registered(t, mux)
    ensures Registered(r, mux) && r[mux].value == t[mux].value.(rx := q)
    ensures forall i :: 0 <= i < MUX_COUNT && i != mux ==> r[i] == t[i]
  {
    t[mux := Some(t[mux].value.(rx := q))]
  }

  /** `+CIPRXGET: 1,<mux>`: data is waiting at `mux`. */
  function NoteData(t: Table, mux: int): (r: Table)
    ensures forall i :: 0 <= i < MUX_COUNT && i != mux ==> r[i] == t[i]
    ensures !Registered(t, mux) ==> r == t
    ensures Registered(t, mux) ==>
              Registered(r, mux) && r[mux].value.gotData
              && r[mux].value == t[mux].value.(gotData := r[mux].value.gotData)
    ensures UrcOnly(t, r)
  {
    if Registered(t, mux) then WithGotData(t, mux, true) else t
  }

  /** `+RECEIVE:<mux>,<len>`: `len` bytes are waiting at `mux`. */
  function NoteReceive(t: Table, mux: int, len: int): (r: Table)
    ensures forall i :: 0 <= i < MUX_COUNT && i != mux ==> r[i] == t[i]
    ensures !Registered(t, mux) ==> r == t
    ensures Registered(t, mux) ==>
              Registered(r, mux) && r[mux].value.gotData
              && r[mux].value.available == ToUInt16(len)
              && r[mux].value.connected == t[mux].value.connected
              && r[mux].value.rx == t[mux].value.rx
    ensures UrcOnly(t, r)
  {
    if Registered(t, mux) then WithAvailable(WithGotData(t, mux, true), mux, ToUInt16(len))
    else t
  }

  /** `+IPCLOSE:<mux>,<reason>`: the connection at `mux` is gone. */
  function NoteClose(t: Table, mux: int): (r: Table)
    ensures forall i :: 0 <= i < MUX_COUNT && i != mux ==> r[i] == t[i]
    ensures !Registered(t, mux) ==> r == t
    ensures Registered(t, mux) ==>
              Registered(r, mux) && !r[mux].value.connected
              && r[mux].value == t[mux].value.(connected := false)
    ensures UrcOnly(t, r)
  {
    if Registered(t, mux) then WithConnected(t, mux, false) else t
  }

  /** What follows `+CIPRXGET:` inside a wait: the mode, and for mode 1 the mux that has
      data waiting.  The flag says whether the notification was taken; if it was not, the
      text of the mode is kept with the response. */
  function RxGetNote(s: State): (r: (bool, string, State))
    ensures r.2.output == s.output && |r.2.input| <= |s.input|
    ensures UrcOnly(s.table, r.2.table)
    ensures !r.0 ==> r.2.table == s.table
  {
    var mode := ReadUntil(s.input, ',');
    if ToInt(mode.value) == 1 then
      var mux := ReadUntil(mode.rest, '\n');
      (true, "", State(mux.rest, s.output, NoteData(s.table, ToInt(mux.value))))
    else (false, mode.value, s.(input := mode.rest))
  }

  /** What follows `+RECEIVE:` inside a wait: `<mux>,<len>`. */
  function ReceiveNote(s: State): (r: State)
    ensures r.output == s.output && |r.input| <= |s.input|
    ensures UrcOnly(s.table, r.table)
  {
    var mux := ReadUntil(s.input, ',');
    var len := ReadUntil(mux.rest, '\n');
    State(len.rest, s.output, NoteReceive(s.table, ToInt(mux.value), ToInt(len.value)))
  }

  /** What follows `+IPCLOSE:` inside a wait: `<mux>,<reason>`. */
  function CloseNote(s: State): (r: State)
    ensures r.output == s.output && |r.input| <= |s.input|
    ensures UrcOnly(s.table, r.table)
  {
    var mux := ReadUntil(s.input, ',');
    var reason := ReadUntil(mux.rest, '\n');
    State(reason.rest, s.output, NoteClose(s.table, ToInt(mux.value)))
  }

  /** `waitResponse(timeout, data, r1..r5)` from the text `data` accumulated so far.
      Each byte is appended and the terminators are tried in order; between them the
      notifications are handled.  A pause ends the wait with index 0 and no text. */
  function Scan(terms: Terms, data: string, s: State): (w: Wait)
    ensures w.state.output == s.output
    ensures |w.state.input| <= |s.input|
    ensures s.input != [] ==> |w.state.input| < |s.input|
    ensures w.index <= 5
    ensures w.index == 0 ==> w.data == ""
    ensures w.index > 0 ==> FirstMatch(w.data, terms) == w.index
    ensures UrcOnly(s.table, w.state.table)
    decreases |s.input|
  {
    if s.input == [] || s.input[0] == SILENCE then Wait(0, "", s.(input := TimeOut(s.input)))
    else
      var a := s.input[0];
      var s1 := s.(input := s.input[1..]);
      if a == 0 then Scan(terms, data, s1)
      else
        var d := data + [CharOf(a)];
        var k := FirstMatch(d, terms);
        if k > 0 then Wait(k, d, s1)
        else if EndsWith(d, NL + "+CIPRXGET:") then
          var u := RxGetNote(s1);
          Scan(terms, if u.0 then "" else d + u.1, u.2)
        else if EndsWith(d, NL + "+RECEIVE:") then Scan(terms, "", ReceiveNote(s1))
        else if EndsWith(d, "+IPCLOSE:") then Scan(terms, "", CloseNote(s1))
        else Scan(terms, d, s1)
  }

  /** Bytes of value 0 on the line change nothing in a scan. */
  lemma {:induction false} ScanDropsZeros(terms: Terms, data: string, zs: seq<Rx>, s: State)
    requires forall i :: 0 <= i < |zs| ==> zs[i] == 0
    ensures Scan(terms, data, s.(input := zs + s.input)) == Scan(terms, data, s)
    decreases |zs|
  {
    if zs == [] {
      assert s.(input := zs + s.input) == s;
    } else {
      assert (zs + s.input)[1..] == zs[1..] + s.input;
      ScanDropsZeros(terms, data, zs[1..], s);
    }
  }

  /** The accumulated text neither matches a terminator nor ends a notification. */
  predicate Quiet(d: string, terms: Terms) {
    FirstMatch(d, terms) == 0 && !EndsWith(d, NL + "+CIPRXGET:") && !EndsWith(d, NL + "+RECEIVE:")
    && !EndsWith(d, "+IPCLOSE:")
  }

  /** A byte whose text neither matches nor ends a notification is appended and the
      scan goes on. */
  lemma ScanAppends(terms: Terms, data: string, x: Rx, s: State)
    requires x > 0 && Quiet(data + [CharOf(x as Byte)], terms)
    ensures Scan(terms, data, s.(input := [x] + s.input)) == Scan(terms, data + [CharOf(x as Byte)], s)
  {
    assert ([x] + s.input)[1..] == s.input;
    assert s.(input := [x] + s.input).(input := s.input) == s;
  }

  /** A byte whose text matches a terminator ends the scan with the input after it. */
  lemma ScanMatchesHere(terms: Terms, data: string, x: Rx, s: State)
    requires x > 0 && FirstMatch(data + [CharOf(x as Byte)], terms) > 0
    ensures var d := data + [CharOf(x as Byte)];
            Scan(terms, data, s.(input := [x] + s.input)) == Wait(FirstMatch(d, terms), d, s)
  {
    assert ([x] + s.input)[1..] == s.input;
    assert s.(input := [x] + s.input).(input := s.input) == s;
  }

  /** Quiet texts seen from the second byte on. */
  lemma QuietShift(terms: Terms, data: string, xs: seq<Rx>)
    requires forall i :: 0 <= i < |xs| ==> xs[i] > 0
    requires forall i :: 0 < i < |xs| ==> Quiet(data + Text(Bytes(xs[..i])), terms)
    requires |xs| >= 2
    ensures Quiet(data + [CharOf(xs[0] as Byte)], terms)
    ensures forall i :: 0 < i < |xs| - 1 ==>
              Quiet(data + [CharOf(xs[0] as Byte)] + Text(Bytes(xs[1..][..i])), terms)
  {
    var d := data + [CharOf(xs[0] as Byte)];
    HeardFirst(data, xs);
    assert Quiet(data + Text(Bytes(xs[..1])), terms);
    forall i | 0 < i < |xs| - 1
      ensures Quiet(d + Text(Bytes(xs[1..][..i])), terms)
    {
      HeardPrefix(data, xs, i);
    }
  }

  /** Bytes (none 0) whose text matches a terminator only after the last of them end the
      scan right there: the index of the first terminator matched, the text accumulated,
      and the input after that byte left unread. */
  lemma {:induction false} ScanStopsAtMatch(terms: Terms, data: string, xs: seq<Rx>, s: State)
    requires forall i :: 0 <= i < |xs| ==> xs[i] > 0
    requires forall i :: 0 < i < |xs| ==> Quiet(data + Text(Bytes(xs[..i])), terms)
    requires xs != [] && FirstMatch(data + Text(Bytes(xs)), terms) > 0
    ensures Scan(terms, data, s.(input := xs + s.input)) ==
            Wait(FirstMatch(data + Text(Bytes(xs)), terms), data + Text(Bytes(xs)), s)
    decreases |xs|
  {
    var d := data + [CharOf(xs[0] as Byte)];
    HeardAll(data, xs);
    var rest := s.(input := xs[1..] + s.input);
    Unshift(xs, s.input);
    if |xs| == 1 {
      ScanMatchesHere(terms, data, xs[0], s);
    } else {
      QuietShift(terms, data, xs);
      ScanAppends(terms, data, xs[0], rest);
      ScanStopsAtMatch(terms, d, xs[1..], s);
    }
  }

  /** A byte that completes `\r\n+RECEIVE:` empties the text and the scan goes on after
      the notification. */
  lemma ScanTakesReceive(terms: Terms, data: string, x: Rx, s: State)
    requires x > 0
    requires var d := data + [CharOf(x as Byte)];
             FirstMatch(d, terms) == 0 && EndsWith(d, NL + "+RECEIVE:")
    ensures Scan(terms, data, s.(input := [x] + s.input)) == Scan(terms, "", ReceiveNote(s))
  {
    EndsApart(data + [CharOf(x as Byte)], NL + "+RECEIVE:", NL + "+CIPRXGET:", 2);
    assert ([x] + s.input)[1..] == s.input;
    assert s.(input := [x] + s.input).(input := s.input) == s;
  }

  /** A byte that completes `+IPCLOSE:` empties the text and the scan goes on after the
      notification. */
  lemma ScanTakesClose(terms: Terms, data: string, x: Rx, s: State)
    requires x > 0
    requires var d := data + [CharOf(x as Byte)];
             FirstMatch(d, terms) == 0 && EndsWith(d, "+IPCLOSE:")
    ensures Scan(terms, data, s.(input := [x] + s.input)) == Scan(terms, "", CloseNote(s))
  {
    EndsApart(data + [CharOf(x as Byte)], "+IPCLOSE:", NL + "+CIPRXGET:", 2);
    EndsApart(data + [CharOf(x as Byte)], "+IPCLOSE:", NL + "+RECEIVE:", 3);
    assert ([x] + s.input)[1..] == s.input;
    assert s.(input := [x] + s.input).(input := s.input) == s;
  }

  /** A byte that completes `\r\n+CIPRXGET:` goes on with an empty text when the mode is
      1 and with the mode's text after the accumulated one otherwise. */
  lemma ScanTakesRxGet(terms: Terms, data: string, x: Rx, s: State)
    requires x > 0
    requires var d := data + [CharOf(x as Byte)];
             FirstMatch(d, terms) == 0 && EndsWith(d, NL + "+CIPRXGET:")
    ensures var d := data + [CharOf(x as Byte)];
            var u := RxGetNote(s);
            Scan(terms, data, s.(input := [x] + s.input)) == Scan(terms, if u.0 then "" else d + u.1, u.2)
  {
    assert ([x] + s.input)[1..] == s.input;
    assert s.(input := [x] + s.input).(input := s.input) == s;
  }

  /** `<mux>,<len>\n` after `+RECEIVE:` marks data on that mux's socket and sets its count. */
  lemma ReceiveNoteReads(s: State, m: nat, n: nat, rest: seq<Rx>)
    requires s.input == Wire(Digits(m)) + [',' as int] + Wire(Digits(n)) + ['\n' as int] + rest
    ensures ReceiveNote(s) == State(rest, s.output, NoteReceive(s.table, m, n))
  {
    DigitsField(m);
    DigitsField(n);
    var tail := Wire(Digits(n)) + ['\n' as int] + rest;
    assert s.input == Wire(Digits(m)) + [',' as int] + tail;
    ReadField(Digits(m), ',', tail);
    ReadField(Digits(n), '\n', rest);
    DigitsReadBack(m);
    DigitsReadBack(n);
  }

  /** `<mux>,<reason>\n` after `+IPCLOSE:` disconnects that mux's socket. */
  lemma CloseNoteReads(s: State, m: nat, reason: string, rest: seq<Rx>)
    requires Narrow(reason) && '\n' !in reason
    requires s.input == Wire(Digits(m)) + [',' as int] + Wire(reason) + ['\n' as int] + rest
    ensures CloseNote(s) == State(rest, s.output, NoteClose(s.table, m))
  {
    DigitsField(m);
    var tail := Wire(reason) + ['\n' as int] + rest;
    assert s.input == Wire(Digits(m)) + [',' as int] + tail;
    ReadField(Digits(m), ',', tail);
    ReadField(reason, '\n', rest);
    DigitsReadBack(m);
  }

  /** `1,<mux>\n` after `+CIPRXGET:` marks data on that mux's socket and empties the text. */
  lemma RxGetNoteReads(s: State, m: nat, rest: seq<Rx>)
    requires s.input == Wire(Digits(1)) + [',' as int] + Wire(Digits(m)) + ['\n' as int] + rest
    ensures RxGetNote(s) == (true, "", State(rest, s.output, NoteData(s.table, m)))
  {
    DigitsField(1);
    DigitsField(m);
    var tail := Wire(Digits(m)) + ['\n' as int] + rest;
    assert s.input == Wire(Digits(1)) + [',' as int] + tail;
    ReadField(Digits(1), ',', tail);
    ReadField(Digits(m), '\n', rest);
    DigitsReadBack(1);
    DigitsReadBack(m);
  }

  /** Any other mode `<k>,` after `+CIPRXGET:` is given back as text and nothing changes. */
  lemma RxGetOtherMode(s: State, k: nat, rest: seq<Rx>)
    requires k != 1
    requires s.input == Wire(Digits(k)) + [',' as int] + rest
    ensures RxGetNote(s) == (false, Digits(k), s.(input := rest))
  {
    DigitsField(k);
    ReadField(Digits(k), ',', rest);
    DigitsReadBack(k);
  }

  /** `sendAT(cmd...)`: the command line goes out. */
  function Send(s: State, cmd: seq<Frag>): (r: State)
    ensures r.input == s.input && r.table == s.table
    ensures r.output == s.output + CommandLine(cmd, NL)
  {
    s.(output := s.output + CommandLine(cmd, NL))
  }

  /** `GsmClient::stop`: closes the socket at `mux` and marks it disconnected. */
  function ClientStop(s: State, mux: nat): (r: State)
    requires Registered(s.table, mux)
    ensures Registered(r.table, mux) && !r.table[mux].value.connected
    ensures r.table[mux].value.rx == s.table[mux].value.rx
    ensures UrcOnly(WithConnected(s.table, mux, false), r.table)
  {
    var s1 := Send(s, [Str("+CIPCLOSE="), Num(mux)]);
    Scan(Expected(), "", s1.(table := WithConnected(s1.table, mux, false))).state
  }

  /** `modemConnect`: switches the socket to manual receive, then opens it; false at the
      first step that does not answer as hoped. */
  function ModemConnect(s: State, host: string, port: UInt16, mux: nat): (r: (bool, State))
    ensures UrcOnly(s.table, r.1.table)
    ensures s.output + CommandLine([Str("+CIPRXGET=1")], NL) <= r.1.output
    ensures var w1 := ManualReceive(s);
            w1.index != 1 ==>
              !r.0 && r.1.output == s.output + CommandLine([Str("+CIPRXGET=1")], NL)
    ensures var w1 := ManualReceive(s);
            w1.index == 1 ==> (r.0 <==> OpenReply(w1.state, host, port, mux).index == 1)
    ensures r.0 ==> r.1.output == s.output + CommandLine([Str("+CIPRXGET=1")], NL)
                                           + CommandLine(OpenCommand(host, port, mux), NL)
  {
    var w1 := ManualReceive(s);
    if w1.index != 1 then (false, w1.state)
    else
      var w2 := OpenReply(w1.state, host, port, mux);
      (w2.index == 1, w2.state)
  }

  /** The first round trip of `modemConnect`: `+CIPRXGET=1` and the wait for "OK". */
  function ManualReceive(s: State): Wait {
    Scan(Expected(), "", Send(s, [Str("+CIPRXGET=1")]))
  }

  /** The second round trip of `modemConnect`: `+CIPOPEN` and the wait for the modem to
      announce the socket it opened. */
  function OpenReply(s: State, host: string, port: UInt16, mux: nat): Wait {
    Scan(Expected(Some(NL + "+CIPOPEN:")), "", Send(s, OpenCommand(host, port, mux)))
  }

  /** `modemConnect` succeeds exactly when "OK" answered `+CIPRXGET=1` and the reply to
      `+CIPOPEN` then reached `\r\n+CIPOPEN:`: an "ERROR" or a wait that runs out at either
      step counts as failure. */
  lemma ConnectIffOpened(s: State, host: string, port: UInt16, mux: nat)
    ensures var w1 := ManualReceive(s);
            var w2 := OpenReply(w1.state, host, port, mux);
            ModemConnect(s, host, port, mux).0 <==>
              EndsWith(w1.data, OK) && EndsWith(w2.data, NL + "+CIPOPEN:")
  {
    var w1 := ManualReceive(s);
    var w2 := OpenReply(w1.state, host, port, mux);
    if w1.index == 0 {
      assert w1.data == "";
    }
    if w2.index == 0 {
      assert w2.data == "";
    }
  }

  /** The +CIPOPEN command that opens a TCP connection on `mux`. */
  function OpenCommand(host: string, port: UInt16, mux: nat): seq<Frag> {
    [Str("+CIPOPEN="), Num(mux), Chr(','), Str("\"TCP"), Str("\",\""), Str(host), Str("\","), Num(port)]
  }

  /** The receive buffer at `mux` emptied, as `rx.clear()` does. */
  function Cleared(s: State, mux: nat): (r: State)
    requires Registered(s.table, mux)
    ensures Registered(r.table, mux) && r.table[mux].value.rx.items == []
  {
    s.(table := WithRx(s.table, mux, Clear(s.table[mux].value.rx)))
  }

  /** `GsmClient::connect`: stop, empty the receive buffer, connect; the result and the
      client's flag are those of `modemConnect` run after the stop. */
  function ClientConnect(s: State, mux: nat, host: string, port: UInt16): (r: (int, State))
    requires Registered(s.table, mux)
    ensures Registered(r.1.table, mux)
    ensures r.0 == 1 || r.0 == 0
    ensures r.1.table[mux].value.connected <==> r.0 == 1
    ensures r.1.table[mux].value.rx.items == []
    ensures r.0 == 1 <==> ModemConnect(Cleared(ClientStop(s, mux), mux), host, port, mux).0
    ensures ClientStop(s, mux).output + CommandLine([Str("+CIPRXGET=1")], NL) <= r.1.output
  {
    var s1 := Cleared(ClientStop(s, mux), mux);
    var c := ModemConnect(s1, host, port, mux);
    (if c.0 then 1 else 0, c.1.(table := WithConnected(c.1.table, mux, c.0)))
  }

  /** The line `modemSend` sends first. */
  function SendCommand(mux: nat, len: nat): seq<Frag> {
    [Str("+CIPSEND="), Num(mux), Chr(','), Num(len)]
  }

  /** `modemSend`: announce, wait for the ">" prompt, write the payload, read back the
      number of bytes the modem confirms (as `int16_t`); 0 at the first failed step. */
  function ModemSend(s: State, payload: seq<Byte>, mux: nat): (r: (int, State))
    ensures -0x8000 <= r.0 < 0x8000
    ensures UrcOnly(s.table, r.1.table)
    ensures Prompt(s, payload, mux).index != 1 ==>
              r.0 == 0 && r.1.output == s.output + CommandLine(SendCommand(mux, |payload|), NL)
    ensures Prompt(s, payload, mux).index == 1 ==>
              r.1.output == s.output + CommandLine(SendCommand(mux, |payload|), NL) + Text(payload)
    ensures var p := Prompt(s, payload, mux);
            p.index == 1 && Acceptance(p.state, payload).index != 1 ==>
              r == (0, Acceptance(p.state, payload).state)
  {
    var w1 := Prompt(s, payload, mux);
    if w1.index != 1 then (0, w1.state)
    else
      var w2 := Acceptance(w1.state, payload);
      if w2.index != 1 then (0, w2.state)
      else
        var sent := Confirmation(w2.state.input);
        (ToInt16(sent.value), w2.state.(input := sent.rest))
  }

  /** What follows `+CIPSEND:`: the mux and the requested count are skipped and the count
      the modem sent is read from the rest of the line. */
  function Confirmation(input: seq<Rx>): Taken<int> {
    var skip1 := ReadUntil(input, ',').rest;
    var skip2 := ReadUntil(skip1, ',').rest;
    var sent := ReadUntil(skip2, '\n');
    Taken(ToInt(sent.value), sent.rest)
  }

  /** The first round trip of `modemSend`: the announcement and the wait for ">". */
  function Prompt(s: State, payload: seq<Byte>, mux: nat): Wait {
    Scan(Expected(Some(">")), "", Send(s, SendCommand(mux, |payload|)))
  }

  /** The second round trip of `modemSend`: the payload and the wait for `\r\n+CIPSEND:`. */
  function Acceptance(s: State, payload: seq<Byte>): Wait {
    Scan(Expected(Some(NL + "+CIPSEND:")), "", s.(output := s.output + Text(payload)))
  }

  /** A `+CIPSEND: <mux>,<requested>,<sent>` confirmation makes `modemSend` return the
      count `sent` (wrapped to `int16_t`) and leaves the input after that line. */
  lemma SendReplyReads(s: State, payload: seq<Byte>, mux: nat, lead: string, n: nat, k: nat,
                       rest: seq<Rx>)
    requires Narrow(lead) && ',' !in lead
    requires Prompt(s, payload, mux).index == 1
    requires var a := Acceptance(Prompt(s, payload, mux).state, payload);
             a.index == 1 && a.state.input == ConfirmationLine(lead, n, k) + rest
    ensures var a := Acceptance(Prompt(s, payload, mux).state, payload);
            ModemSend(s, payload, mux) == (ToInt16(k), a.state.(input := rest))
    ensures k < 0x8000 ==> ModemSend(s, payload, mux).0 == k
  {
    var a := Acceptance(Prompt(s, payload, mux).state, payload);
    ConfirmationReads(a.state.input, lead, n, k, rest);
  }

  /** The bytes of a confirmation line after `+CIPSEND:`: `<lead>,<n>,<k>\r\n`. */
  function ConfirmationLine(lead: string, n: nat, k: nat): seq<Rx> {
    Wire(lead) + [',' as int] + Wire(Digits(n)) + [',' as int] + Wire(Digits(k) + "\r") + ['\n' as int]
  }

  /** The fields of a `+CIPSEND:` confirmation, read as `modemSend` reads them. */
  lemma ConfirmationReads(input: seq<Rx>, lead: string, n: nat, k: nat, rest: seq<Rx>)
    requires Narrow(lead) && ',' !in lead
    requires input == ConfirmationLine(lead, n, k) + rest
    ensures Confirmation(input) == Taken(k, rest)
  {
    DigitsField(n);
    var line := Digits(k) + "\r";
    LineField(k);
    var t2 := Wire(line) + ['\n' as int] + rest;
    var t1 := Wire(Digits(n)) + [',' as int] + t2;
    assert input == Wire(lead) + [',' as int] + t1;
    ReadField(lead, ',', t1);
    ReadField(Digits(n), ',', t2);
    ReadField(line, '\n', rest);
    DigitsLineReadBack(k);
  }

  /** The last field of a confirmation line fits in bytes and holds no line feed. */
  lemma LineField(k: nat)
    ensures Narrow(Digits(k) + "\r") && '\n' !in Digits(k) + "\r"
  {
    DigitsField(k);
  }

  /** One payload byte as `modemRead` takes it: a timed `read()` (a pause gives -1, which
      is stored as 0xFF), or in hex mode two reads decoded by `strtol`. */
  function NextByte(input: seq<Rx>, hex: bool): (r: Taken<Byte>)
    ensures |r.rest| <= |input|
  {
    if hex then
      var p := TimedPair(input);
      Taken(ToByte(StrtolPair(CharOf(ToByte(p.value.0)), CharOf(ToByte(p.value.1)))), p.rest)
    else
      var c := TimedByte(input);
      Taken(ToByte(c.value), c.rest)
  }

  /** The first `n` payload bytes of a `+CIPRXGET: 2/3` reply. */
  function Payload(input: seq<Rx>, n: nat, hex: bool): (r: Taken<seq<Byte>>)
    ensures |r.value| == n
    ensures |r.rest| <= |input|
    decreases n
  {
    if n == 0 then Taken([], input)
    else
      var p := Payload(input, n - 1, hex);
      var b := NextByte(p.rest, hex);
      Taken(p.value + [b.value], b.rest)
  }

  /** The fields of a `+CIPRXGET: <mode>,<mux>,<read_len>,<rest_len>` header. */
  datatype Header = Header(requested: nat, confirmed: nat, rest: seq<Rx>)

  function ReadHeader(input: seq<Rx>): (h: Header)
    ensures |h.rest| <= |input|
  {
    var skip1 := ReadUntil(input, ',').rest;
    var skip2 := ReadUntil(skip1, ',').rest;
    var requested := ReadUntil(skip2, ',');
    var confirmed := ReadUntil(requested.rest, '\n');
    Header(ToSizeT(ToInt(requested.value)), ToSizeT(ToInt(confirmed.value)), confirmed.rest)
  }

  /** The state after the first `i` payload bytes have been read from the line and put
      into the buffer at `mux`. */
  function Filling(s: State, mux: nat, i: nat, hex: bool): (r: State)
    requires Registered(s.table, mux)
    ensures Registered(r.table, mux) && SameRegistration(s.table, r.table)
    ensures forall k :: 0 <= k < MUX_COUNT && k != mux ==> r.table[k] == s.table[k]
  {
    var p := Payload(s.input, i, hex);
    s.(input := p.rest, table := WithRx(s.table, mux, PutAll(s.table[mux].value.rx, p.value)))
  }

  /** Reading one more byte and putting it into the buffer. */
  lemma FillingStep(s: State, mux: nat, i: nat, hex: bool)
    requires Registered(s.table, mux)
    ensures var f := Filling(s, mux, i, hex);
            var b := NextByte(f.input, hex);
            Filling(s, mux, i + 1, hex) ==
              f.(input := b.rest, table := WithRx(f.table, mux, Put(f.table[mux].value.rx, b.value)))
  {
    var p := Payload(s.input, i, hex);
    var b := NextByte(p.rest, hex);
    PutAllSnoc(s.table[mux].value.rx, p.value, b.value);
  }

  /** The state right after the payload of a read has gone into the buffer at `mux`. */
  function Filled(s: State, mux: nat, h: Header, hex: bool): (r: State)
    requires Registered(s.table, mux)
    ensures Registered(r.table, mux) && SameRegistration(s.table, r.table)
    ensures forall i :: 0 <= i < MUX_COUNT && i != mux ==> r.table[i] == s.table[i]
    ensures r.table[mux].value.available == ToUInt16(h.confirmed)
    ensures r.table[mux].value.connected == s.table[mux].value.connected
    ensures r.table[mux].value.gotData == s.table[mux].value.gotData
    ensures r.input == Payload(h.rest, h.requested, hex).rest && r.output == s.output
  {
    var f := Filling(s.(input := h.rest), mux, h.requested, hex);
    f.(table := WithAvailable(f.table, mux, ToUInt16(h.confirmed)))
  }

  function ReadCommand(size: nat, mux: nat, hex: bool): seq<Frag> {
    [Str(if hex then "+CIPRXGET=3," else "+CIPRXGET=2,"), Num(mux), Chr(','), Num(size)]
  }

  /** `modemRead(size, mux)`: asks for up to `size` bytes and moves the ones announced
      into the receive buffer at `mux`; 0 when the reply header does not come. */
  function ModemRead(s: State, size: nat, mux: nat, hex: bool): (r: (nat, State))
    requires Registered(s.table, mux)
    ensures SameRegistration(s.table, r.1.table)
    ensures ReadReply(s, size, mux, hex).index != 1 ==>
              r.0 == 0 && r.1.output == s.output + CommandLine(ReadCommand(size, mux, hex), NL)
              && UrcOnly(s.table, r.1.table)
  {
    var w := ReadReply(s, size, mux, hex);
    if w.index != 1 then (0, w.state)
    else
      var h := ReadHeader(w.state.input);
      var f := Filled(w.state, mux, h, hex);
      (h.requested, Scan(Expected(), "", f).state)
  }

  /** The first round trip of `modemRead`: the request and the wait for the reply header. */
  function ReadReply(s: State, size: nat, mux: nat, hex: bool): Wait {
    Scan(Expected(Some("+CIPRXGET:")), "", Send(s, ReadCommand(size, mux, hex)))
  }

  /** Once the reply header has come, `modemRead` returns the length asked for in it and
      the buffer at `mux` holds what it held before followed by as many of that many
      payload bytes as fit, in the order they arrived.  Before the closing wait the
      client's count of bytes still waiting is the header's `len_confirmed` (as
      `uint16_t`); that wait leaves it so unless a `+RECEIVE` notification arrives
      during it. */
  lemma ModemReadFills(s: State, size: nat, mux: nat, hex: bool)
    requires Registered(s.table, mux)
    requires ReadReply(s, size, mux, hex).index == 1
    ensures var w := ReadReply(s, size, mux, hex);
            var h := ReadHeader(w.state.input);
            var p := Payload(h.rest, h.requested, hex).value;
            var q := s.table[mux].value.rx;
            var f := Filled(w.state, mux, h, hex);
            var r := ModemRead(s, size, mux, hex);
            r.0 == h.requested && |p| == h.requested &&
            r.1.table[mux].value.rx.items == q.items + p[..Min(h.requested, Free(q))] &&
            f.table[mux].value.available == ToUInt16(h.confirmed) &&
            r.1 == Scan(Expected(), "", f).state
  {
    var w := ReadReply(s, size, mux, hex);
    var h := ReadHeader(w.state.input);
    var p := Payload(h.rest, h.requested, hex).value;
    var q := s.table[mux].value.rx;
    assert w.state.table[mux].value.rx == q;
    var f := Filled(w.state, mux, h, hex);
    assert f.table[mux].value.rx == PutAll(q, p);
    PutAllKeepsOrder(q, p);
  }

  /** A wait with the default terminators that reads "OK\r\n" straight away ends there
      with index 1 and changes nothing else. */
  lemma ScanReadsOk(s: State)
    ensures Scan(Expected(), "", s.(input := Wire(OK) + s.input)) == Wait(1, OK, s)
  {
    var e := Expected();
    assert Wire(OK) == [79, 75, 13, 10];
    var s3 := s.(input := [10] + s.input);
    var s2 := s.(input := [13] + s3.input);
    var s1 := s.(input := [75] + s2.input);
    assert [79] + s1.input == Wire(OK) + s.input;
    OkPrefixesQuiet();
    ScanAppends(e, "", 79, s1);
    ScanAppends(e, "O", 75, s2);
    ScanAppends(e, "OK", 13, s3);
    assert "OK\r" + [CharOf(10 as Byte)] == OK;
    ScanMatchesHere(e, "OK\r", 10, s);
  }

  /** The texts on the way to "OK\r\n" neither match nor start a notification. */
  lemma OkPrefixesQuiet()
    ensures "" + [CharOf(79 as Byte)] == "O" && Quiet("O", Expected())
    ensures "O" + [CharOf(75 as Byte)] == "OK" && Quiet("OK", Expected())
    ensures "OK" + [CharOf(13 as Byte)] == "OK\r" && Quiet("OK\r", Expected())
  {
    assert !EndsWith("OK\r", OK) && !EndsWith("OK\r", ERROR);
    assert !EndsWith("OK\r", "+IPCLOSE:") && !EndsWith("OK\r", NL + "+RECEIVE:");
    assert !EndsWith("OK\r", NL + "+CIPRXGET:");
  }

  /** When the modem ends its reply with "OK" right after the payload, the read leaves
      the client's count of bytes still waiting at the header's `len_confirmed`. */
  lemma ModemReadKeepsConfirmed(s: State, size: nat, mux: nat, hex: bool, rest: seq<Rx>)
    requires Registered(s.table, mux)
    requires ReadReply(s, size, mux, hex).index == 1
    requires var h := ReadHeader(ReadReply(s, size, mux, hex).state.input);
             Payload(h.rest, h.requested, hex).rest == Wire(OK) + rest
    ensures var h := ReadHeader(ReadReply(s, size, mux, hex).state.input);
            var r := ModemRead(s, size, mux, hex).1;
            r.table[mux].value.available == ToUInt16(h.confirmed) && r.input == rest
  {
    var w := ReadReply(s, size, mux, hex);
    var h := ReadHeader(w.state.input);
    var f := Filled(w.state, mux, h, hex);
    ScanReadsOk(f.(input := rest));
    assert f.(input := rest).(input := Wire(OK) + rest) == f;
  }

  /** One field of a `+CIPCLOSE: <link0>,...,<link9>` reply: the state of link `k`, stored
      (as `value != 0`) in the client registered there, then the comma after it. */
  function LinkStep(s: State, k: nat): (r: State)
    requires k < MUX_COUNT
    ensures r.output == s.output && SameRegistration(s.table, r.table)
    ensures forall i :: 0 <= i < MUX_COUNT && i != k ==> r.table[i] == s.table[i]
    ensures Registered(s.table, k) ==> r.table[k].value.rx == s.table[k].value.rx
    ensures Registered(s.table, k) ==>
              r.table[k].value.connected == (LeadingInt(s.input).value != 0)
  {
    var v := LeadingInt(s.input);
    var t := if Registered(s.table, k) then WithConnected(s.table, k, v.value != 0) else s.table;
    State(ReadUntil(v.rest, ',').rest, s.output, t)
  }

  /** The first `k` fields of a `+CIPCLOSE:` reply. */
  function LinkStates(s: State, k: nat): (r: State)
    requires k <= MUX_COUNT
    ensures r.output == s.output && SameRegistration(s.table, r.table)
    ensures forall i :: 0 <= i < MUX_COUNT && Registered(s.table, i) ==>
              r.table[i].value.rx == s.table[i].value.rx
    decreases k
  {
    if k == 0 then s else LinkStep(LinkStates(s, k - 1), k - 1)
  }

  /** `modemGetConnected(mux)`, with the `return false` for a missing header in place and
      the loop over the ten links of the table (see the findings). */
  function ModemGetConnected(s: State, mux: nat): (r: (bool, State))
    requires Registered(s.table, mux)
    ensures SameRegistration(s.table, r.1.table)
  {
    var w := LinkReply(s);
    if w.index != 1 then (false, w.state)
    else
      var w2 := Scan(Expected(), "", LinkStates(w.state, MUX_COUNT));
      (w2.state.table[mux].value.connected, w2.state)
  }

  /** After the first `k` fields of a `+CIPCLOSE:` reply, every registered link `j < k`
      holds whether its own field read as non-zero. */
  lemma {:induction false} LinkStatesRead(s: State, k: nat, j: nat)
    requires j < k <= MUX_COUNT && Registered(s.table, j)
    ensures LinkStates(s, k).table[j].value.connected ==
            (LeadingInt(LinkStates(s, j).input).value != 0)
    decreases k
  {
    if k - 1 != j {
      LinkStatesRead(s, k - 1, j);
    }
  }

  /** The query of `modemGetConnected` and the wait for the reply header. */
  function LinkReply(s: State): Wait {
    Scan(Expected(Some("+CIPCLOSE:")), "", Send(s, [Str("+CIPCLOSE?")]))
  }

  /** `modemGetConnected` reports a link as connected only if the reply said so: the field
      of that link read as non-zero. */
  lemma GetConnectedFollowsReply(s: State, mux: nat)
    requires Registered(s.table, mux)
    ensures var w := LinkReply(s);
            ModemGetConnected(s, mux).0 ==>
              w.index == 1 && LeadingInt(LinkStates(w.state, mux).input).value != 0
  {
    var w := LinkReply(s);
    if w.index == 1 {
      LinkStatesRead(w.state, MUX_COUNT, mux);
    }
  }

  /** `modemGetConnected` as written: the `return false` for a missing header is commented
      out, so the `for` loop is the body of the `if` and runs only when the header is missing,
      up to link 10 of a 10-entry table.  `None` stands for that out-of-bounds access (and
      for any access through an empty table entry it meets first); with the header, the
      reply is not read at all. */
  function ModemGetConnectedAsWritten(s: State, mux: nat): (r: Option<(bool, State)>)
    requires Registered(s.table, mux)
    ensures r.None? <==> LinkReply(s).index != 1
  {
    var w := LinkReply(s);
    if w.index != 1 then None
    else
      var w2 := Scan(Expected(), "", w.state);
      Some((w2.state.table[mux].value.connected, w2.state))
  }

  /** As written, a socket that was not marked connected is never reported as connected,
      whatever the modem answers. */
  lemma AsWrittenIgnoresReply(s: State, mux: nat)
    requires Registered(s.table, mux) && !s.table[mux].value.connected
    ensures var r := ModemGetConnectedAsWritten(s, mux);
            r.Some? ==> !r.value.0
  {
    var w := LinkReply(s);
    if w.index == 1 {
      var w2 := Scan(Expected(), "", w.state);
      assert UrcOnly(s.table, w.state.table);
      assert UrcOnly(w.state.table, w2.state.table);
    }
  }

  /** `modemGetAvailable(mux)`: the number of bytes the modem holds for `mux`; when
      there are none, the connection state of `mux` is refreshed. */
  function ModemGetAvailable(s: State, mux: nat): (r: (nat, State))
    requires Registered(s.table, mux)
    ensures SameRegistration(s.table, r.1.table)
    ensures r.0 == 0 ==> r.1.table[mux].value.connected == ModemGetConnected(AvailableReply(s, mux).1, mux).0
  {
    var q := AvailableReply(s, mux);
    if q.0 != 0 then q
    else
      var c := ModemGetConnected(q.1, mux);
      (0, c.1.(table := WithConnected(c.1.table, mux, c.0)))
  }

  /** The query part of `modemGetAvailable`: the count read from the reply, or 0. */
  function AvailableReply(s: State, mux: nat): (r: (nat, State))
    requires Registered(s.table, mux)
    ensures SameRegistration(s.table, r.1.table)
  {
    var w := Scan(Expected(Some("+CIPRXGET:")), "", Send(s, [Str("+CIPRXGET=4,"), Num(mux)]));
    if w.index != 1 then (0, w.state)
    else
      var skip1 := ReadUntil(w.state.input, ',').rest;
      var skip2 := ReadUntil(skip1, ',').rest;
      var n := ReadUntil(skip2, '\n');
      var w2 := Scan(Expected(), "", w.state.(input := n.rest));
      (ToSizeT(ToInt(n.value)), w2.state)
  }
}
