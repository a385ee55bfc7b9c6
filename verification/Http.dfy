/** The HTTP client of mega-http-client.c: a state machine over one connection that may be kept and
    reused, with byte counts for the request and the response body. */
module Http {
  import opened Wrappers

  // ---- What a server sends ----

  /** A stream is made of response heads and body bytes. A head that the client cannot accept (bad
      status line, status other than 200 or 201, broken header line) is not `accepted`. */
  datatype Item = Head(accepted: bool, length: Option<nat>, connection: Option<string>) | Body(b: char)

  /** The first n items are body bytes, as far as the stream goes. */
  predicate BodyFirst(s: seq<Item>, n: nat)
  {
    forall i | 0 <= i < n && i < |s| :: s[i].Body?
  }

  /** A stream of responses, each head followed by exactly the number of body bytes it announces;
      the stream may break off anywhere. What follows a head without a length is left open. */
  predicate Framed(s: seq<Item>)
    decreases |s|, 0
  {
    s == [] || (s[0].Head? && (s[0].length.Some? ==> FramedBody(s[1..], s[0].length.value)))
  }

  /** The rest of a body of n bytes, and framed responses after it. */
  predicate FramedBody(s: seq<Item>, n: nat)
    decreases |s|, 1
  {
    BodyFirst(s, n) && (n <= |s| ==> Framed(s[n..]))
  }

  lemma FramedBodyAdvance(s: seq<Item>, n: nat, k: nat)
    requires FramedBody(s, n) && k <= n && k <= |s|
    ensures FramedBody(s[k..], n - k) && BodyFirst(s, k)
  {
    if n - k <= |s[k..]| {
      assert s[k..][n - k..] == s[n..];
    }
  }

  /** At the end of a body the next response can follow. */
  lemma {:induction false} BodyEnds(s: seq<Item>)
    requires FramedBody(s, 0)
    ensures Framed(s)
  {
    assert s[0..] == s;
  }

  /** What the outside world does at one input or output step. */
  datatype Event = Event(connects: Option<seq<Item>>, works: bool, amount: nat)

  /** What the client puts on the wire: a request head announcing a length, then body bytes. */
  datatype Sent = RequestHead(length: int) | RequestBody(b: char)

  function Bodies(s: string): (r: seq<Sent>)
    ensures |r| == |s|
  {
    seq(|s|, i requires 0 <= i < |s| => RequestBody(s[i]))
  }

  /** One complete request: a head and as many body bytes as it announces */
  function Request(body: string): seq<Sent>
  {
    [RequestHead(|body|)] + Bodies(body)
  }

  ghost predicate EndsWith(s: seq<Sent>, before: seq<Sent>, body: string)
  {
    s == before + Request(body)
  }

  /** What is on the wire is some number of complete requests, one after the other. */
  ghost predicate WholeRequests(s: seq<Sent>, n: nat)
    decreases n
  {
    if n == 0 then s == [] else exists before, body :: EndsWith(s, before, body) && WholeRequests(before, n - 1)
  }

  lemma {:induction false} OneMore(before: seq<Sent>, body: string, n: nat)
    requires WholeRequests(before, n)
    ensures WholeRequests(before + Request(body), n + 1)
  {
    assert EndsWith(before + Request(body), before, body);
  }

  /** How many request heads there are */
  function Heads(s: seq<Sent>): nat
  {
    if s == [] then 0 else Heads(s[..|s| - 1]) + if s[|s| - 1].RequestHead? then 1 else 0
  }

  lemma {:induction false} HeadsOfRequest(before: seq<Sent>, length: int, body: string)
    ensures Heads(before + ([RequestHead(length)] + Bodies(body))) == Heads(before) + 1
    decreases |body|
  {
    var s := before + ([RequestHead(length)] + Bodies(body));
    if body == "" {
      assert s[..|s| - 1] == before;
    } else {
      var less := body[..|body| - 1];
      HeadsOfRequest(before, length, less);
      assert s[..|s| - 1] == before + ([RequestHead(length)] + Bodies(less));
    }
  }

  lemma {:induction false} HeadsOfWhole(s: seq<Sent>, n: nat)
    requires WholeRequests(s, n)
    ensures Heads(s) == n
    decreases n
  {
    if n > 0 {
      var before, body :| EndsWith(s, before, body) && WholeRequests(before, n - 1);
      HeadsOfWhole(before, n - 1);
      HeadsOfRequest(before, |body|, body);
    }
  }

  /** How many response heads there are */
  function ResponseHeads(items: seq<Item>): nat
  {
    if items == [] then 0 else ResponseHeads(items[..|items| - 1]) + if items[|items| - 1].Head? then 1 else 0
  }

  lemma {:induction false} HeadsSnoc(items: seq<Item>, item: Item)
    ensures ResponseHeads(items + [item]) == ResponseHeads(items) + if item.Head? then 1 else 0
  {
    assert (items + [item])[..|items|] == items;
  }

  lemma {:induction false} BodiesNoHeads(items: seq<Item>, more: seq<Item>)
    requires BodyFirst(more, |more|)
    ensures ResponseHeads(items + more) == ResponseHeads(items)
    decreases |more|
  {
    if more == [] {
      assert items + more == items;
    } else {
      var less := more[..|more| - 1];
      BodiesNoHeads(items, less);
      assert (items + more)[..|items + more| - 1] == items + less;
      assert (items + more)[|items + more| - 1] == more[|more| - 1];
    }
  }

  function Lower(s: string): string
  {
    if s == "" then "" else [if 'A' <= s[0] <= 'Z' then (s[0] as int + 32) as char else s[0]] + Lower(s[1..])
  }

  /** The same letter, in either case */
  predicate SameLetter(a: char, b: char)
  {
    a == b || ('A' <= a <= 'Z' && b as int == a as int + 32) || ('A' <= b <= 'Z' && a as int == b as int + 32)
  }

  /** The same text but for the case of letters */
  predicate SameText(a: string, b: string)
  {
    |a| == |b| && forall i | 0 <= i < |a| :: SameLetter(a[i], b[i])
  }

  lemma {:induction false} LowerLength(s: string)
    ensures |Lower(s)| == |s|
  {
    if s != "" {
      LowerLength(s[1..]);
    }
  }

  lemma {:induction false} LowerMeaning(a: string, b: string)
    ensures Lower(a) == Lower(b) <==> SameText(a, b)
  {
    LowerLength(a);
    LowerLength(b);
    if a != "" && b != "" {
      LowerMeaning(a[1..], b[1..]);
      HeadAndTail(Lower(a), Lower(b));
      assert SameText(a, b) <==> SameLetter(a[0], b[0]) && SameText(a[1..], b[1..]) by {
        SameTextTail(a, b);
      }
    }
  }

  lemma HeadAndTail(x: string, y: string)
    requires x != "" && y != ""
    ensures x == y <==> x[0] == y[0] && x[1..] == y[1..]
  {
    assert x == [x[0]] + x[1..] && y == [y[0]] + y[1..];
  }

  lemma SameTextTail(a: string, b: string)
    requires a != "" && b != ""
    ensures SameText(a, b) <==> SameLetter(a[0], b[0]) && SameText(a[1..], b[1..])
  {
    if SameText(a, b) {
      forall i | 0 <= i < |a[1..]| ensures SameLetter(a[1..][i], b[1..][i]) {
        assert SameLetter(a[i + 1], b[i + 1]);
      }
    }
    if SameLetter(a[0], b[0]) && SameText(a[1..], b[1..]) {
      forall i | 0 <= i < |a| ensures SameLetter(a[i], b[i]) {
        if i > 0 {
          assert SameLetter(a[1..][i - 1], b[1..][i - 1]);
        }
      }
    }
  }

  function BodyItems(s: string): (r: seq<Item>)
    ensures |r| == |s| && forall i | 0 <= i < |s| :: r[i] == Body(s[i])
  {
    seq(|s|, i requires 0 <= i < |s| => Body(s[i]))
  }

  function TextOf(items: seq<Item>): (s: string)
    requires BodyFirst(items, |items|)
    ensures |s| == |items| && BodyItems(s) == items
  {
    seq(|items|, i requires 0 <= i < |items| => items[i].b)
  }

  /** After what was there before, the input is an accepted response head that announces n bytes, and the bytes of the
      text. */
  ghost predicate ResponseIs(received: seq<Item>, before: seq<Item>, n: int, connection: Option<string>, text: string)
  {
    n >= 0 && received == before + [Head(true, Some(n), connection)] + BodyItems(text)
  }

  lemma ResponseStarts(before: seq<Item>, n: nat, connection: Option<string>)
    ensures ResponseIs(before + [Head(true, Some(n), connection)], before, n, connection, "")
  {
    var received := before + [Head(true, Some(n), connection)];
    assert received + [] == received;
  }

  lemma ResponseGrows(received: seq<Item>, before: seq<Item>, n: int, connection: Option<string>, text: string,
      data: string)
    requires ResponseIs(received, before, n, connection, text)
    ensures ResponseIs(received + BodyItems(data), before, n, connection, text + data)
  {
    assert BodyItems(text + data) == BodyItems(text) + BodyItems(data);
    Assoc(before + [Head(true, Some(n), connection)], BodyItems(text), BodyItems(data));
  }

  lemma SameRest<T>(a: seq<T>, x: seq<T>, y: seq<T>)
    requires a + x == a + y
    ensures x == y
  {
    assert (a + x)[|a|..] == x && (a + y)[|a|..] == y;
  }

  /** How much is left to be read */
  lemma BytesLeft(received: seq<Item>, before: seq<Item>, n: int, connection: Option<string>, text: string,
      incoming: seq<Item>)
    requires ResponseIs(received, before, n, connection, text)
    ensures |received + incoming| == |before| + 1 + |text| + |incoming|
  {
  }

  /** The head that was read is the first item that was still to come. */
  lemma HeadWasNext(before: seq<Item>, was: seq<Item>, n: int, connection: Option<string>, received: seq<Item>,
      incoming: seq<Item>)
    requires ResponseIs(received, before, n, connection, "") && before + was == received + incoming
    ensures was == [Head(true, Some(n), connection)] + incoming
  {
    var head := [Head(true, Some(n), connection)];
    assert received == before + head;
    Assoc(before, head, incoming);
    SameRest(before, was, head + incoming);
  }

  datatype Url = Url(host: string, port: nat, https: bool)

  class Connection {
    const host: string
    const port: nat
    const https: bool
    var incoming: seq<Item>
    var outgoing: seq<Sent>
    /** What has been read, and the part of what has been written that belongs to finished requests */
    ghost var received: seq<Item>
    ghost var complete: seq<Sent>
    /** What had been read before the head of the latest response */
    ghost var answered: seq<Item>
    /** All that the server ever sends */
    ghost const script: seq<Item>

    constructor (host: string, port: nat, https: bool, script: seq<Item>)
      ensures this.host == host && this.port == port && this.https == https
      ensures incoming == script && outgoing == [] && received == [] && complete == []
      ensures answered == [] && this.script == script
    {
      this.host, this.port, this.https := host, port, https;
      incoming, outgoing := script, [];
      received, complete, answered := [], [], [];
      this.script := script;
    }

    /** Read between one and `count` items, or none at the end of the stream. */
    method Take(count: nat, amount: nat) returns (items: seq<Item>)
      requires count > 0
      modifies this`incoming, this`received
      ensures items + incoming == old(incoming) && |items| <= count && received == old(received) + items
      ensures items == [] <==> old(incoming) == []
      ensures received + incoming == old(received + incoming)
    {
      var k := if amount == 0 then 1 else amount;
      k := if k > count then count else k;
      k := if k > |incoming| then |incoming| else k;
      items := incoming[..k];
      incoming := incoming[k..];
      Assoc(received, items, incoming);
      received := received + items;
    }
  }

  // ---- States ----

  datatype State = Idle | InitConnected | HeadersSent | BodySent | HeadersReceived | IdleConnected | Failed

  /** The order of the enumeration in the source, where Idle is CONN_STATE_NONE and IdleConnected is
      CONN_STATE_NONE_CONNECTED. */
  function Order(s: State): nat
  {
    match s
    case Idle => 0
    case InitConnected => 1
    case HeadersSent => 2
    case BodySent => 3
    case HeadersReceived => 4
    case IdleConnected => 5
    case Failed => 6
  }

  /** A request is under way. */
  predicate Active(s: State)
  {
    1 <= Order(s) <= 4
  }

  /** The transitions the API may ask for. */
  predicate Allowed(from: State, to: State)
  {
    || to.Idle? || to.Failed?
    || (to.InitConnected? && !Active(from))
    || (Active(from) && Order(from) <= Order(to))
  }

  /** `server_wants_to_close`: so does a server that names no connection option. */
  predicate WantsClose(connection: Option<string>)
  {
    connection.None? || Lower(connection.value) == "close"
  }

  /** The same server: the host names are the same but for the case of letters, the port and the protocol are equal. */
  lemma ServerMeaning(host: Option<string>, port: nat, https: bool, url: Url)
    ensures SameServer(host, port, https, url) <==>
      host.Some? && SameText(host.value, url.host) && https == url.https && port == url.port
  {
    if host.Some? {
      LowerMeaning(host.value, url.host);
    }
  }

  /** The server wants to close exactly when it names no option or the word close, in any letter case. */
  lemma CloseMeaning(connection: Option<string>)
    ensures WantsClose(connection) <==> connection.None? || SameText(connection.value, "close")
  {
    if connection.Some? {
      LowerMeaning(connection.value, "close");
      assert Lower("e") == "e" && Lower("se") == "se" && Lower("ose") == "ose" && Lower("lose") == "lose";
      assert Lower("close") == "close";
    }
  }

  lemma CloseExamples()
    ensures WantsClose(None) && WantsClose(Some("Close")) && !WantsClose(Some("keep-alive"))
  {
    CloseMeaning(Some("Close"));
    CloseMeaning(Some("keep-alive"));
  }

  /** The URL leads to the server the client is set to; host names compare without case. */
  predicate SameServer(host: Option<string>, port: nat, https: bool, url: Url)
  {
    host.Some? && Lower(host.value) == Lower(url.host) && https == url.https && port == url.port
  }

  lemma BodiesConcat(a: string, b: string)
    ensures Bodies(a + b) == Bodies(a) + Bodies(b)
  {
  }

  /** More body bytes on the wire after the current request's */
  lemma WireGrows(complete: seq<Sent>, head: seq<Sent>, written: string, part: string)
    ensures (complete + (head + Bodies(written))) + Bodies(part) == complete + (head + Bodies(written + part))
  {
    BodiesConcat(written, part);
    Assoc(complete, head + Bodies(written), Bodies(part));
    Assoc(head, Bodies(written), Bodies(part));
  }

  lemma StreamAdvance(stream: seq<Item>, was: string, data: string, rest: seq<Item>)
    requires stream == BodyItems(was) + (BodyItems(data) + rest)
    ensures stream == BodyItems(was + data) + rest
  {
    assert BodyItems(was + data) == BodyItems(was) + BodyItems(data);
  }

  /** Whether the loop of `goto_state` gets from s to the target: headers go out and come in as the
      world allows, the body must be complete before the response is awaited, and the response body
      must be read before the connection is idle again. */
  ghost predicate Reaches(world: nat -> Event, s: State, target: State, t: nat, writeLeft: int, readLeft: int,
      incoming: seq<Item>)
    decreases 10 - Order(s)
  {
    if s == target then true
    else match s
      case InitConnected =>
        world(t).works && Reaches(world, HeadersSent, target, t + 1, writeLeft, readLeft, incoming)
      case HeadersSent =>
        writeLeft == 0 && Reaches(world, BodySent, target, t, writeLeft, readLeft, incoming)
      case BodySent =>
        && world(t).works && incoming != [] && incoming[0].Head? && incoming[0].accepted && incoming[0].length.Some?
        && Reaches(world, HeadersReceived, target, t + 1, writeLeft, incoming[0].length.value, incoming[1..])
      case HeadersReceived =>
        readLeft == 0 && Reaches(world, IdleConnected, target, t, writeLeft, readLeft, incoming)
      case _ => false
  }

  lemma {:induction false} NoWayBack(world: nat -> Event, s: State, target: State, t: nat, writeLeft: int,
      readLeft: int, incoming: seq<Item>)
    requires Order(target) < Order(s)
    ensures !Reaches(world, s, target, t, writeLeft, readLeft, incoming)
    decreases 10 - Order(s)
  {
    match s
    case InitConnected => NoWayBack(world, HeadersSent, target, t + 1, writeLeft, readLeft, incoming);
    case HeadersSent => NoWayBack(world, BodySent, target, t, writeLeft, readLeft, incoming);
    case BodySent =>
      if incoming != [] && incoming[0].Head? && incoming[0].length.Some? {
        NoWayBack(world, HeadersReceived, target, t + 1, writeLeft, incoming[0].length.value, incoming[1..]);
      }
    case HeadersReceived => NoWayBack(world, IdleConnected, target, t, writeLeft, readLeft, incoming);
    case _ =>
  }

  /** When no input or output fails, a request can be sent from two states. */
  lemma {:induction false} ReachesSent(world: nat -> Event, s: State, t: nat, writeLeft: int, readLeft: int,
      incoming: seq<Item>)
    requires (forall i: nat :: world(i).works) && Active(s)
    ensures Reaches(world, s, HeadersSent, t, writeLeft, readLeft, incoming) <==> s.InitConnected? || s.HeadersSent?
  {
    if Order(HeadersSent) < Order(s) {
      NoWayBack(world, s, HeadersSent, t, writeLeft, readLeft, incoming);
    }
  }

  /** An accepted response head with a length comes next. */
  predicate HeadNext(incoming: seq<Item>)
  {
    incoming != [] && incoming[0].Head? && incoming[0].accepted && incoming[0].length.Some?
  }

  /** When no input or output fails, a response is reached exactly when the request body is complete and an accepted
      head with a length comes next. */
  lemma {:induction false} ReachesResponse(world: nat -> Event, s: State, t: nat, writeLeft: int, readLeft: int,
      incoming: seq<Item>)
    requires (forall i: nat :: world(i).works) && Active(s)
    ensures Reaches(world, s, HeadersReceived, t, writeLeft, readLeft, incoming) <==>
      s.HeadersReceived? || ((s.BodySent? || writeLeft == 0) && HeadNext(incoming))
    decreases 10 - Order(s)
  {
    match s
    case InitConnected =>
      ReachesResponse(world, HeadersSent, t + 1, writeLeft, readLeft, incoming);
    case HeadersSent =>
      ReachesResponse(world, BodySent, t, writeLeft, readLeft, incoming);
    case _ =>
  }

  /** A whole response of a size that is accepted comes next. */
  predicate ResponseReady(incoming: seq<Item>)
  {
    && HeadNext(incoming) && incoming[0].length.value <= 256 * 1024 * 1024
    && |incoming| >= 1 + incoming[0].length.value
  }

  class MegaHttpClient {
    const world: nat -> Event
    var tick: nat
    var conn: Connection?
    var host: Option<string>
    var port: nat
    var https: bool
    var connection: Option<string>
    var state: State
    var requestLength: int
    var responseLength: int
    var expectedWriteCount: int
    var expectedReadCount: int
    /** The body bytes of the current request the socket took, and those of the current response
        that were handed to the caller. */
    ghost var written: string
    ghost var returned: string
    /** The stream just after the head of the current response */
    ghost var stream: seq<Item>

    ghost predicate FairWorld()
    {
      forall i: nat :: world(i).connects.Some? ==> Framed(world(i).connects.value)
    }

    /** No input or output fails. */
    ghost predicate Working()
    {
      forall i: nat :: world(i).works
    }

    /** Every connection comes about as well. */
    ghost predicate AllWorks()
    {
      forall i: nat :: world(i).works && world(i).connects.Some?
    }

    /** What a server sends on the connection that a new request will use */
    ghost function NextStream(url: Url): seq<Item>
      reads this, conn
    {
      if state.IdleConnected? && SameServer(host, port, https, url) && conn != null then conn.incoming
      else if world(tick).connects.Some? then world(tick).connects.value
      else []
    }

    /** A connection exists exactly in the states that have one, it leads to the current server, and
        its unread input starts where the state says it does. */
    ghost predicate Wired()
      reads this, conn
    {
      && FairWorld()
      && (conn == null <==> state.Idle? || state.Failed?)
      && (conn != null ==>
          && host == Some(conn.host) && port == conn.port && https == conn.https
          && conn.received + conn.incoming == conn.script
          && (if state.HeadersReceived?
              then expectedReadCount >= 0 && FramedBody(conn.incoming, expectedReadCount)
              else Framed(conn.incoming)))
    }

    /** The byte counts of the request and the response under way. */
    ghost predicate Accounts()
      reads this, conn
      requires state.HeadersReceived? ==> conn != null
    {
      && (Active(state) ==>
          if requestLength >= 0 then |written| + expectedWriteCount == requestLength && expectedWriteCount >= 0
          else expectedWriteCount == requestLength)
      && (state.InitConnected? ==> written == "")
      && (state.BodySent? || state.HeadersReceived? ==> expectedWriteCount == 0)
      && (state.HeadersReceived? ==>
          && |returned| + expectedReadCount == responseLength
          && stream == BodyItems(returned) + conn.incoming
          && ResponseIs(conn.received, conn.answered, responseLength, connection, returned))
    }

    /** What is on the wire for the current request: its head and the body bytes counted so far, after
        the earlier requests. */
    ghost predicate RequestOnWire()
      reads this, conn
    {
      conn != null && conn.outgoing == conn.complete + ([RequestHead(requestLength)] + Bodies(written))
    }

    /** Requests and responses are in step. The wire holds complete requests, as many as there were response
        heads, and then the current request, if one is under way; its response head is the next one. */
    ghost predicate InStep()
      reads this, conn
    {
      conn != null ==>
        var heads := ResponseHeads(conn.received);
        if state.InitConnected? || state.IdleConnected?
          then conn.outgoing == conn.complete && WholeRequests(conn.complete, heads)
        else if state.HeadersReceived? then RequestOnWire() && heads > 0 && WholeRequests(conn.complete, heads - 1)
        else RequestOnWire() && WholeRequests(conn.complete, heads)
    }

    ghost predicate Valid()
      reads this, conn
    {
      Wired() && Accounts() && InStep()
    }

    /** The connection leads to the current server. */
    ghost predicate Connected()
      reads this, conn
    {
      && FairWorld() && conn != null && host == Some(conn.host) && port == conn.port && https == conn.https
      && conn.received + conn.incoming == conn.script
    }

    /** The whole request body is written. */
    ghost predicate RequestDone()
      reads this
    {
      requestLength >= 0 && |written| == requestLength && expectedWriteCount == 0
    }

    /** What was written and read on the connection before the current request and its response */
    ghost function Before(): (seq<Sent>, seq<Item>)
      requires conn != null
      reads this, conn
    {
      (conn.complete, if state.HeadersReceived? then conn.answered else conn.received)
    }

    constructor (world: nat -> Event)
      requires forall i: nat :: world(i).connects.Some? ==> Framed(world(i).connects.value)
      ensures Valid() && state.Idle?
    {
      this.world := world;
      tick := 0;
      conn := null;
      host := None;
      port := 0;
      https := false;
      connection := None;
      state := Idle;
      requestLength, responseLength, expectedWriteCount, expectedReadCount := 0, 0, 0, 0;
      written, returned, stream := "", "", [];
    }

    method NextEvent() returns (e: Event)
      modifies this`tick
      ensures e == world(old(tick)) && tick == old(tick) + 1
    {
      e := world(tick);
      tick := tick + 1;
    }

    /** `do_connect` */
    method DoConnect() returns (ok: bool)
      requires host.Some?
      modifies this`tick, this`conn
      ensures ok == world(old(tick)).connects.Some? && tick == old(tick) + 1
      ensures ok == (conn != null)
      ensures ok ==>
        && fresh(conn) && host == Some(conn.host) && port == conn.port && https == conn.https
        && conn.incoming == world(old(tick)).connects.value && conn.outgoing == conn.complete == []
        && conn.received == [] && conn.script == conn.incoming && conn.received + conn.incoming == conn.script
    {
      conn := null;
      var e := NextEvent();
      if e.connects.None? {
        return false;
      }
      conn := new Connection(host.value, port, https, e.connects.value);
      assert [] + conn.incoming == conn.incoming;
      ok := true;
    }

    /** `do_send_headers` */
    method DoSendHeaders() returns (ok: bool)
      requires Valid() && state.InitConnected?
      modifies this`tick, conn`outgoing
      ensures ok == world(old(tick)).works && tick == old(tick) + 1
      ensures ok ==> RequestOnWire()
    {
      var e := NextEvent();
      ok := e.works;
      if ok {
        conn.outgoing := conn.outgoing + [RequestHead(expectedWriteCount)];
        assert [RequestHead(requestLength)] + Bodies("") == [RequestHead(requestLength)];
      }
    }

    /** `do_receive_headers`: the lengths are set from the head. */
    method DoReceiveHeaders() returns (ok: bool)
      requires Valid() && state.BodySent?
      modifies this`tick, this`connection, this`expectedReadCount, this`responseLength, this`returned, this`stream,
        conn`incoming, conn`received, conn`answered
      ensures tick == old(tick) + 1
      ensures old(conn.incoming) != [] ==> old(conn.incoming)[0].Head?
      ensures ok ==>
        && old(conn.incoming) != [] && old(conn.incoming)[0].Head?
        && old(conn.incoming)[0].length == Some(responseLength)
        && connection == old(conn.incoming)[0].connection
        && conn.incoming == stream == old(conn.incoming)[1..]
        && ResponseHeads(conn.received) == ResponseHeads(old(conn.received)) + 1
        && expectedReadCount == responseLength && returned == ""
        && conn.answered == old(conn.received) && conn.received + conn.incoming == conn.script
        && ResponseIs(conn.received, conn.answered, responseLength, connection, "")
        && FramedBody(conn.incoming, expectedReadCount)
      ensures ok == (world(old(tick)).works && old(conn.incoming) != []
        && old(conn.incoming)[0].accepted && old(conn.incoming)[0].length.Some?)
    {
      var e := NextEvent();
      if !e.works || conn.incoming == [] {
        return false;
      }
      var item := conn.incoming[0];
      assert conn.incoming == [item] + conn.incoming[1..];
      Assoc(conn.received, [item], conn.incoming[1..]);
      conn.incoming := conn.incoming[1..];
      HeadsSnoc(conn.received, item);
      conn.answered := conn.received;
      conn.received := conn.received + [item];
      assert item.Head?;
      if !item.accepted {
        return false;
      }
      connection := item.connection;
      if item.length.None? {
        return false;
      }
      expectedReadCount := item.length.value;
      responseLength := expectedReadCount;
      returned := "";
      stream := conn.incoming;
      ResponseStarts(conn.answered, responseLength, connection);
      ok := true;
    }

    ghost predicate CanReach(target: State)
      reads this, conn
      requires conn != null
    {
      Reaches(world, state, target, tick, expectedWriteCount, expectedReadCount, conn.incoming)
    }

    /** `goto_state` to the two states without a connection, possible from anywhere */
    method Disconnect(target: State)
      requires FairWorld() && (target.Idle? || target.Failed?)
      modifies this`conn, this`state
      ensures Valid() && state == target && conn == null
    {
      conn := null;
      state := target;
    }

    /** Losing the connection on the way to the failed state */
    method Fail()
      requires FairWorld()
      modifies this`conn, this`state
      ensures Valid() && state.Failed? && conn == null
    {
      Disconnect(Failed);
    }

    /** One turn of the loop of `goto_state`: on to the next state, where that is possible. */
    method Step(ghost target: State) returns (ok: bool)
      requires Valid() && Active(state) && state != target
      modifies this`tick, this`connection, this`state, this`expectedReadCount, this`responseLength, this`returned,
        this`stream, conn
      ensures ok ==> Valid() && Order(state) == Order(old(state)) + 1
      ensures old(CanReach(target)) == (ok && CanReach(target))
      ensures ok && Active(state) ==> Before() == old(Before())
      ensures old(state).HeadersReceived? ==> KeepsResponse() && KeepsRecord(conn)
      ensures state.HeadersReceived? && ok ==> returned == ""
    {
      if state.InitConnected? {
        ok := SendHeaders(target);
      } else if state.HeadersSent? {
        ok := FinishBody(target);
      } else if state.BodySent? {
        ok := ReceiveHeaders(target);
      } else if state.HeadersReceived? {
        ok := FinishResponse(target);
      } else {
        assert false;
      }
    }

    method SendHeaders(ghost target: State) returns (ok: bool)
      requires Valid() && state.InitConnected? && !target.InitConnected?
      modifies this`tick, this`state, conn`outgoing
      ensures ok ==> Valid() && state.HeadersSent? && Before() == old(Before())
      ensures old(CanReach(target)) == (ok && CanReach(target))
    {
      hide Framed, FramedBody, ResponseIs;
      ok := DoSendHeaders();
      if ok {
        state := HeadersSent;
      }
    }

    method FinishBody(ghost target: State) returns (ok: bool)
      requires Valid() && state.HeadersSent? && !target.HeadersSent?
      modifies this`state
      ensures ok ==> Valid() && state.BodySent? && Before() == old(Before())
      ensures old(CanReach(target)) == (ok && CanReach(target))
    {
      ok := expectedWriteCount == 0;
      if ok {
        state := BodySent;
      }
    }

    method ReceiveHeaders(ghost target: State) returns (ok: bool)
      requires Valid() && state.BodySent? && !target.BodySent?
      modifies this`tick, this`connection, this`state, this`expectedReadCount, this`responseLength, this`returned,
        this`stream, conn`incoming, conn`received, conn`answered
      ensures ok ==> Valid() && state.HeadersReceived? && returned == "" && Before() == old(Before())
      ensures !ok ==> state.BodySent?
      ensures old(CanReach(target)) == (ok && CanReach(target))
    {
      hide Framed, FramedBody, ResponseIs;
      ok := DoReceiveHeaders();
      if ok {
        HeadersIn();
      }
    }

    /** The state once the headers are in */
    method HeadersIn()
      requires Connected() && RequestOnWire() && ResponseHeads(conn.received) > 0
      requires WholeRequests(conn.complete, ResponseHeads(conn.received) - 1)
      requires RequestDone() && returned == "" && expectedReadCount == responseLength >= 0
      requires FramedBody(conn.incoming, expectedReadCount) && stream == conn.incoming
      requires ResponseIs(conn.received, conn.answered, responseLength, connection, "")
      modifies this`state
      ensures Valid() && state.HeadersReceived?
    {
      state := HeadersReceived;
      assert BodyItems("") + conn.incoming == conn.incoming;
    }

    method FinishResponse(ghost target: State) returns (ok: bool)
      requires Valid() && state.HeadersReceived? && !target.HeadersReceived?
      modifies this`state, conn`complete
      ensures ok ==> Valid() && state.IdleConnected? && expectedReadCount == 0
      ensures old(CanReach(target)) == (ok && CanReach(target))
    {
      ok := expectedReadCount == 0;
      if ok {
        BodyEnds(conn.incoming);
        OneMore(conn.complete, written, ResponseHeads(conn.received) - 1);
        conn.complete := conn.outgoing;
        state := IdleConnected;
      }
    }

    /** The first part of `goto_state`: connecting for a new request. */
    method GotoInitConnected() returns (ok: bool)
      requires Wired() && InStep() && host.Some?
      modifies this`tick, this`conn, this`state
      ensures Wired() && InStep() && (conn == null || conn == old(conn) || fresh(conn))
      ensures ok == (!Active(old(state)) && (old(state).IdleConnected? || world(old(tick)).connects.Some?))
      ensures if ok then state.InitConnected? else state.Failed?
      ensures ok && old(state).IdleConnected? ==> conn == old(conn)
      ensures ok && !old(state).IdleConnected? ==>
        fresh(conn) && Before() == ([], []) && conn.incoming == world(old(tick)).connects.value
    {
      if Active(state) {
        Fail();
        return false;
      }
      if state.Idle? || state.Failed? {
        var connected := DoConnect();
        if !connected {
          Fail();
          return false;
        }
      }
      state := InitConnected;
      ok := true;
    }

    /** What a walk through the states leaves alone when a response was already being read */
    twostate predicate KeepsResponse()
      reads this
    {
      unchanged(`returned) && unchanged(`stream) && unchanged(`responseLength) && unchanged(`connection)
    }

    /** Nothing was written to the connection or read from it. */
    twostate predicate KeepsRecord(c: Connection)
      reads c
    {
      unchanged(c`outgoing) && unchanged(c`received)
    }

    /** The loop of `goto_state` */
    method Walk(target: State) returns (ok: bool)
      requires Valid() && Active(state) && Order(state) <= Order(target) && !target.Failed?
      modifies this`tick, this`conn, this`connection, this`state, this`expectedReadCount, this`responseLength,
        this`returned, this`stream, conn
      ensures Valid() && if ok then state == target && conn == old(conn) else state.Failed?
      ensures ok == old(CanReach(target))
      ensures target == old(state) ==> unchanged(this) && unchanged(conn)
      ensures ok && target.HeadersReceived? && old(state) != target ==> returned == ""
      ensures ok && Active(target) ==> Before() == old(Before())
      ensures old(state).HeadersReceived? ==> KeepsResponse() && KeepsRecord(old(conn))
    {
      hide Accounts, InStep, Framed, FramedBody;
      while state != target
        invariant Active(state) || state == target
        invariant Order(old(state)) <= Order(state) <= Order(target)
        invariant conn == old(conn) && conn != null && Valid()
        invariant state == old(state) ==> unchanged(this) && unchanged(conn)
        invariant old(CanReach(target)) == CanReach(target)
        invariant state.HeadersReceived? && state != old(state) ==> returned == ""
        invariant Active(state) ==> Before() == old(Before())
        invariant old(state).HeadersReceived? ==> KeepsResponse() && KeepsRecord(conn)
        decreases Order(target) - Order(state)
      {
        var next := Step(target);
        if !next {
          Fail();
          return false;
        }
      }
      ok := true;
    }

    /** `goto_state` for every target but a new connection. A transition that is not allowed, or one
        that fails on the way, ends in the failed state. */
    method GotoState(target: State) returns (ok: bool)
      requires Valid() && !target.InitConnected?
      modifies this`tick, this`conn, this`connection, this`state, this`expectedReadCount, this`responseLength,
        this`returned, this`stream, conn
      ensures Valid()
      ensures if ok then state == target && Allowed(old(state), target) else state.Failed?
      ensures ok == (target.Idle? || target.Failed? || (Active(old(state)) && old(CanReach(target))))
      ensures ok && Active(target) && target == old(state) ==>
        conn == old(conn) && unchanged(this) && (conn != null ==> unchanged(conn))
      ensures ok && !target.Idle? && !target.Failed? ==> conn == old(conn)
      ensures ok && target.HeadersReceived? && old(state) != target ==> returned == ""
      ensures ok && target.IdleConnected? && old(state).HeadersReceived? ==> old(expectedReadCount) == 0
      ensures ok && Active(target) ==> Before() == old(Before())
      ensures old(state).HeadersReceived? ==> KeepsResponse() && KeepsRecord(old(conn))
    {
      if target.Idle? || target.Failed? {
        Disconnect(target);
        return true;
      }
      if state.Failed? || state.IdleConnected? || state.Idle? || Order(target) < Order(state) {
        if Active(state) {
          NoWayBack(world, state, target, tick, expectedWriteCount, expectedReadCount, conn.incoming);
        }
        Fail();
        return false;
      }
      ok := Walk(target);
    }

    // ---- The API ----

    /** `mega_http_client_post`. None stands for an URL that does not parse. The connection is kept
        only when it is idle and leads to the same server, and then nothing of an earlier response
        is left in it. */
    method Post(url: Option<Url>, length: int) returns (ok: bool)
      requires Valid()
      modifies this
      ensures Valid()
      ensures url.None? ==> !ok && unchanged(this)
      ensures url.Some? ==> if ok then state.InitConnected? else state.Failed?
      ensures ok ==>
        && requestLength == expectedWriteCount == length && responseLength == expectedReadCount == -1 && written == ""
        && conn.port == url.value.port && conn.https == url.value.https
        && (conn.incoming == [] || conn.incoming[0].Head?)
        && (fresh(conn) || (old(state).IdleConnected? && conn == old(conn)))
        && Before() == if conn == old(conn) then (old(conn.outgoing), old(conn.received)) else ([], [])
      ensures ok ==> SameText(conn.host, url.value.host)
      ensures url.Some? ==>
        var same := old(host).Some? && SameText(old(host).value, url.value.host)
          && old(https) == url.value.https && old(port) == url.value.port;
        && ok == (!(same && Active(old(state)))
                  && ((same && old(state).IdleConnected?) || world(old(tick)).connects.Some?))
        && (ok && same && old(state).IdleConnected? ==> conn == old(conn) && unchanged(conn))
        && (ok && !(same && old(state).IdleConnected?) ==>
             fresh(conn) && conn.incoming == world(old(tick)).connects.value)
    {
      if url.None? {
        return false;
      }
      hide Lower, SameText, Accounts, InStep;
      ServerMeaning(host, port, https, url.value);
      SetServer(url.value);
      ok := GotoInitConnected();
      if ok {
        ServerMeaning(host, port, https, url.value);
        StartRequest(length);
      }
    }

    method StartRequest(length: int)
      requires Wired() && InStep() && state.InitConnected?
      modifies this`requestLength, this`expectedWriteCount, this`expectedReadCount, this`responseLength, this`written
      ensures Valid() && requestLength == expectedWriteCount == length && responseLength == expectedReadCount == -1
      ensures written == "" && Before() == old(Before())
    {
      requestLength := length;
      expectedWriteCount := length;
      expectedReadCount := -1;
      responseLength := -1;
      written := "";
    }

    /** A change of server drops the connection. */
    method SetServer(url: Url)
      requires Valid()
      modifies this`conn, this`state, this`host, this`port, this`https
      ensures Valid() && SameServer(host, port, https, url)
      ensures if SameServer(old(host), old(port), old(https), url) then unchanged(this) else state.Idle?
    {
      if !SameServer(host, port, https, url) {
        host := Some(url.host);
        https := url.https;
        port := url.port;
        Disconnect(Idle);
      }
    }

    /** `mega_http_client_write`: the number of bytes taken, or -1. Writing past the announced length
        is refused and leaves the request as it is. */
    method Write(buffer: string) returns (n: int)
      requires Valid() && |buffer| > 0
      modifies this, conn
      ensures Valid()
      ensures conn == null || conn == old(conn)
      ensures -1 <= n <= |buffer| && n != 0
      ensures n > 0 ==>
        && state.HeadersSent? && (old(state).InitConnected? || old(state).HeadersSent?)
        && written == old(written) + buffer[..n] && requestLength == old(requestLength)
        && Before() == old(Before())
      ensures old(state).HeadersSent? && 0 <= old(expectedWriteCount) < |buffer| ==>
        n == -1 && state.HeadersSent? && written == old(written)
      ensures Working() ==> (n > 0 <==>
        && (old(state).InitConnected? || old(state).HeadersSent?)
        && (old(expectedWriteCount) < 0 || |buffer| <= old(expectedWriteCount)))
      ensures n == -1 ==>
        state.Failed? || (state.HeadersSent? && requestLength >= 0 && |written| + |buffer| > requestLength)
    {
      if Active(state) && Working() {
        ReachesSent(world, state, tick, expectedWriteCount, expectedReadCount, conn.incoming);
      }
      var ok := GotoState(HeadersSent);
      if !ok {
        return -1;
      }
      if expectedWriteCount >= 0 && |buffer| > expectedWriteCount {
        return -1;
      }
      n := WriteSome(buffer);
      if n < 0 {
        Fail();
      }
    }

    /** The socket write of `mega_http_client_write` and its accounting */
    method WriteSome(buffer: string) returns (n: int)
      requires Valid() && state.HeadersSent? && |buffer| > 0
      requires expectedWriteCount >= 0 ==> |buffer| <= expectedWriteCount
      modifies this`tick, this`expectedWriteCount, this`written, conn`outgoing
      ensures Valid() && (n == -1 || 1 <= n <= |buffer|)
      ensures n > 0 ==> Valid() && written == old(written) + buffer[..n]
      ensures n > 0 <==> world(old(tick)).works
      ensures n == -1 ==> unchanged(`written) && unchanged(`expectedWriteCount)
    {
      var e := NextEvent();
      if !e.works {
        return -1;
      }
      n := if e.amount == 0 then 1 else if e.amount > |buffer| then |buffer| else e.amount;
      var part := buffer[..n];
      WireGrows(conn.complete, [RequestHead(requestLength)], written, part);
      conn.outgoing := conn.outgoing + Bodies(part);
      if expectedWriteCount >= 0 {
        expectedWriteCount := expectedWriteCount - n;
      }
      written := written + part;
    }

    /** `mega_http_client_read`: the number of bytes read and the bytes, 0 at the end, or -1. They are
        the next body bytes of the response, never anything past its end; the last one also returns
        the connection to an idle state. */
    method Read(count: nat) returns (n: int, data: string)
      requires Valid() && count > 0
      modifies this`tick, this`conn, this`connection, this`state, this`expectedReadCount, this`responseLength,
        this`returned, this`stream, conn
      ensures Valid()
      ensures conn == null || conn == old(conn)
      ensures old(state).Idle? || old(state).IdleConnected? ==> n == 0 && unchanged(this)
      ensures n >= 0 ==> n == |data| <= count
      ensures n < 0 ==> n == -1 && state.Failed? && data == ""
      ensures n >= 0 && Active(old(state)) ==>
        && returned == (if old(state).HeadersReceived? then old(returned) else "") + data
        && BodyItems(returned) <= stream && |returned| <= responseLength
        && (old(state).HeadersReceived? ==> responseLength == old(responseLength) && stream == old(stream))
        && (if |returned| < responseLength then state.HeadersReceived?
            else if connection.None? || SameText(connection.value, "close") then state.Idle? && conn == null
            else state.IdleConnected? && conn == old(conn))
      ensures Active(old(state)) && Working() ==> (n >= 0 <==> old(CanReach(HeadersReceived)))
      ensures old(state).HeadersReceived? && n == 0 ==> old(expectedReadCount) == 0 || old(conn.incoming) == []
      ensures old(state).Failed? ==> n == -1
      ensures n >= 0 && Active(old(state)) ==>
        && ResponseIs(old(conn).received, old(Before()).1, responseLength, connection, returned)
        && (state.HeadersReceived? ==> Before() == old(Before()))
        && (old(state).HeadersReceived? ==> unchanged(old(conn)`outgoing))
      ensures n > 0 ==> Active(old(state))
    {
      data := "";
      if state.Idle? || state.IdleConnected? {
        return 0, "";
      }
      var ok := GotoState(HeadersReceived);
      if !ok {
        return -1, "";
      }
      n, data := ReadBody(count);
      CloseMeaning(connection);
    }

    /** `mega_http_client_read` once the headers are in */
    method ReadBody(count: nat) returns (n: int, data: string)
      requires Valid() && state.HeadersReceived? && count > 0
      modifies this`tick, this`conn, this`connection, this`state, this`expectedReadCount, this`responseLength,
        this`returned, this`stream, conn
      ensures Valid() && (conn == null || conn == old(conn)) && KeepsHead()
      ensures if n >= 0 then n == |data| <= count && returned == old(returned) + data
        else n == -1 && state.Failed? && data == ""
      ensures n >= 0 ==> BodyItems(returned) <= stream && |returned| <= responseLength
      ensures n >= 0 ==> if |returned| == responseLength
        then state == if WantsClose(connection) then Idle else IdleConnected
        else state.HeadersReceived?
      ensures n >= 0 ==> ResponseIs(old(conn).received, old(conn.answered), responseLength, connection, returned)
      ensures Working() ==> n >= 0
      ensures n == 0 ==> old(expectedReadCount) == 0 || old(conn.incoming) == []
      ensures state.HeadersReceived? ==> Before() == old(Before())
      ensures unchanged(old(conn)`outgoing)
    {
      hide Lower, WholeRequests, ResponseHeads, ResponseIs, FramedBody, Framed;
      if expectedReadCount == 0 {
        EndResponse();
        return 0, "";
      }
      n, data := ReadSome(if count > expectedReadCount then expectedReadCount else count);
      if n < 0 {
        Fail();
        return;
      }
      if expectedReadCount == 0 {
        EndResponse();
      }
    }

    /** The connection returns to an idle state, or is given up when the server wants it closed. */
    method EndResponse()
      requires Valid() && state.HeadersReceived? && expectedReadCount == 0
      modifies this`tick, this`conn, this`connection, this`state, this`expectedReadCount, this`responseLength,
        this`returned, this`stream, conn
      ensures Valid() && (conn == null || conn == old(conn)) && KeepsResponse() && KeepsRecord(old(conn))
      ensures state == if WantsClose(connection) then Idle else IdleConnected
    {
      var ok := GotoState(if WantsClose(connection) then Idle else IdleConnected);
    }

    twostate predicate KeepsHead()
      reads this
    {
      unchanged(`stream) && unchanged(`responseLength) && unchanged(`connection)
    }

    /** The socket read of `mega_http_client_read` */
    method TakeBody(limit: nat, amount: nat) returns (data: string)
      requires Valid() && state.HeadersReceived? && 0 < limit <= expectedReadCount
      modifies conn`incoming, conn`received
      ensures |data| <= limit && InStep()
      ensures FramedBody(conn.incoming, expectedReadCount - |data|)
      ensures ResponseHeads(conn.received) == ResponseHeads(old(conn.received))
      ensures conn.received + conn.incoming == conn.script && (data == "" <==> old(conn.incoming) == [])
      ensures stream == BodyItems(returned + data) + conn.incoming
      ensures ResponseIs(conn.received, conn.answered, responseLength, connection, returned + data)
    {
      hide ResponseHeads, WholeRequests, FramedBody, ResponseIs;
      ghost var before := conn.incoming;
      var items := conn.Take(limit, amount);
      FramedBodyAdvance(before, expectedReadCount, |items|);
      assert before[..|items|] == items && before[|items|..] == conn.incoming;
      BodiesNoHeads(old(conn.received), items);
      data := TextOf(items);
      StreamAdvance(stream, returned, data, conn.incoming);
      ResponseGrows(old(conn.received), conn.answered, responseLength, connection, returned, data);
    }

    /** The socket read and its accounting */
    method ReadSome(limit: nat) returns (n: int, data: string)
      requires Valid() && state.HeadersReceived? && 0 < limit <= expectedReadCount
      modifies this`tick, this`expectedReadCount, this`returned, conn`incoming, conn`received
      ensures Valid() && (n == -1 || 0 <= n <= limit)
      ensures n >= 0 <==> world(old(tick)).works
      ensures n == 0 ==> old(conn.incoming) == []
      ensures n == -1 ==> data == "" && unchanged(`returned)
      ensures n >= 0 ==> n == |data| && returned == old(returned) + data
    {
      data := "";
      var e := NextEvent();
      if !e.works {
        return -1, "";
      }
      data := TakeBody(limit, e.amount);
      n := |data|;
      CountRead(data);
    }

    /** The counts after body bytes were taken from the connection */
    method CountRead(data: string)
      requires Connected() && state.HeadersReceived? && InStep() && RequestDone()
      requires |data| <= expectedReadCount && |returned| + expectedReadCount == responseLength
      requires FramedBody(conn.incoming, expectedReadCount - |data|)
      requires stream == BodyItems(returned + data) + conn.incoming
      requires ResponseIs(conn.received, conn.answered, responseLength, connection, returned + data)
      modifies this`expectedReadCount, this`returned
      ensures Valid() && returned == old(returned) + data
    {
      expectedReadCount := expectedReadCount - |data|;
      returned := returned + data;
    }

    /** `mega_http_client_close` */
    method Close(force: bool) returns (ok: bool)
      requires Valid()
      modifies this
      ensures Valid() && ok
      ensures if old(state).IdleConnected? && !force then unchanged(this)
        else state.Idle? && conn == null
      ensures written == old(written) && returned == old(returned) && stream == old(stream)
        && responseLength == old(responseLength) && connection == old(connection)
    {
      if state.IdleConnected? && !force {
        return true;
      }
      Disconnect(Idle);
      ok := true;
    }

    /** `mega_http_client_get_response_length` */
    method GetResponseLength() returns (n: int)
      requires Valid()
      modifies this`tick, this`conn, this`connection, this`state, this`expectedReadCount, this`responseLength,
        this`returned, this`stream, conn
      ensures Valid() && (conn == null || conn == old(conn))
      ensures if n >= 0 then state.HeadersReceived? && n == responseLength else n == -1 && state.Failed?
      ensures old(state).HeadersReceived? ==> n >= 0 && unchanged(this) && (conn != null ==> unchanged(conn))
      ensures n >= 0 <==> Active(old(state)) && old(CanReach(HeadersReceived))
    {
      var ok := GotoState(HeadersReceived);
      n := if ok then responseLength else -1;
    }

    /** g_output_stream_write_all on the request body */
    method WriteAll(body: string) returns (ok: bool)
      requires Valid() && state.InitConnected? && requestLength == |body|
      modifies this, conn
      ensures Valid() && (conn == null || conn == old(conn))
      ensures ok ==> written == body && requestLength == |body| && if body == "" then state.InitConnected?
        else state.HeadersSent?
      ensures ok ==> conn == old(conn) && Before() == old(Before()) && conn.incoming == old(conn.incoming)
      ensures Working() ==> ok
    {
      var sent := 0;
      while sent < |body|
        invariant 0 <= sent <= |body|
        invariant Valid() && conn == old(conn) && conn != null
        invariant written == body[..sent] && requestLength == |body|
        invariant if sent == 0 then state.InitConnected? else state.HeadersSent?
        invariant Before() == old(Before())
      {
        var n := Write(body[sent..]);
        if n < 0 {
          return false;
        }
        assert body[..sent] + body[sent..][..n] == body[..sent + n];
        sent := sent + n;
      }
      assert body[..sent] == body;
      SameRest(conn.received, conn.incoming, old(conn.incoming));
      ok := true;
    }

    /** g_input_stream_read_all on the response: up to `len` bytes, fewer when the stream ends. */
    method ReadAll(len: nat) returns (ok: bool, text: string)
      requires Valid() && state.HeadersReceived? && returned == "" && len == responseLength && len > 0
      modifies this, conn
      ensures Valid() && (conn == null || conn == old(conn))
      ensures ok ==> |text| <= len && responseLength == len && stream == old(stream) && BodyItems(text) <= stream
      ensures ok ==> returned == text && ResponseIs(old(conn).received, old(Before()).1, len, connection, text)
      ensures ok ==> unchanged(old(conn)`outgoing)
      ensures Working() && |old(conn.incoming)| >= len ==> ok && |text| == len
      ensures unchanged(`written)
    {
      BytesLeft(conn.received, conn.answered, len, connection, "", conn.incoming);
      text := "";
      while |text| < len
        invariant |text| <= len && text == returned && unchanged(`written)
        invariant Valid() && (conn == null || conn == old(conn))
        invariant responseLength == len && stream == old(stream) && BodyItems(text) <= stream
        invariant if |text| < len then state.HeadersReceived? else state.Idle? || state.IdleConnected?
        invariant ResponseIs(old(conn).received, old(Before()).1, len, connection, text)
        invariant unchanged(old(conn)`outgoing)
        invariant state.HeadersReceived? ==> conn == old(conn) && Before() == old(Before())
        decreases len - |text|
      {
        BytesLeft(conn.received, conn.answered, len, connection, text, conn.incoming);
        var n, data := Read(len - |text|);
        if n < 0 {
          return false, text;
        }
        text := text + data;
        if n == 0 {
          break;
        }
      }
      ok := true;
    }

    /** `mega_http_client_post_simple`: one request with the whole body is written to the connection that is used, and
        the result is the body of the one response that is read from it. */
    method PostSimple(url: Option<Url>, body: string) returns (r: Option<string>, ghost used: Connection?)
      requires Valid()
      modifies this, conn
      ensures Valid()
      ensures conn == null || conn == old(conn) || fresh(conn)
      ensures r.Some? ==>
        && url.Some? && written == body && |r.value| == responseLength <= 256 * 1024 * 1024
        && BodyItems(r.value) <= stream && (state.Idle? || state.IdleConnected?)
      ensures (&& url.Some? && AllWorks() && ResponseReady(old(NextStream(url.value)))
               && !(Active(old(state)) && SameServer(old(host), old(port), old(https), url.value)))
        ==> r.Some?
      ensures r.Some? ==> used != null && (fresh(used) || used == old(conn))
      ensures r.Some? ==>
        var sent := if used == old(conn) then old(conn.outgoing) else [];
        var read := if used == old(conn) then old(conn.received) else [];
        && used.outgoing == sent + ([RequestHead(|body|)] + Bodies(body))
        && used.received == read + [Head(true, Some(|r.value|), connection)] + BodyItems(r.value)
    {
      if url.Some? {
        ServerMeaning(host, port, https, url.value);
      }
      used := null;
      var ok := Post(url, |body|);
      if !ok {
        return None, used;
      }
      used := conn;
      r := Exchange(body);
      var closed := Close(false);
    }

    /** The part of `mega_http_client_post_simple` between opening and releasing the request */
    method Exchange(body: string) returns (r: Option<string>)
      requires Valid() && state.InitConnected? && requestLength == |body|
      modifies this, conn
      ensures Valid() && (conn == null || conn == old(conn))
      ensures r.Some? ==>
        && written == body && |r.value| == responseLength <= 256 * 1024 * 1024 && BodyItems(r.value) <= stream
        && Exchanged(old(conn), old(Before()), connection, body, r.value)
      ensures Working() && ResponseReady(old(conn.incoming)) ==> r.Some?
    {
      var ok := WriteAll(body);
      if !ok {
        return None;
      }
      ok := AwaitResponse();
      if !ok {
        return None;
      }
      r := Response(body);
    }

    /** The headers of the response to a request that is complete */
    method AwaitResponse() returns (ok: bool)
      requires Valid() && (state.InitConnected? || state.HeadersSent?) && requestLength == |written|
      modifies this`tick, this`conn, this`connection, this`state, this`expectedReadCount, this`responseLength,
        this`returned, this`stream, conn
      ensures Valid() && (conn == null || conn == old(conn))
      ensures if ok then state.HeadersReceived? && returned == "" else state.Failed?
      ensures ok ==> conn == old(conn) && Before() == old(Before())
      ensures ok ==> old(conn.incoming) == [Head(true, Some(responseLength), connection)] + conn.incoming
      ensures Working() && HeadNext(old(conn.incoming)) ==> ok
    {
      if Working() {
        ReachesResponse(world, state, tick, expectedWriteCount, expectedReadCount, conn.incoming);
      }
      ok := GotoState(HeadersReceived);
      if ok {
        HeadWasNext(conn.answered, old(conn.incoming), responseLength, connection, conn.received, conn.incoming);
      }
    }

    /** Reading the response when its headers are in */
    method Response(ghost body: string) returns (r: Option<string>)
      requires Valid() && state.HeadersReceived? && returned == "" && written == body && requestLength == |body|
      modifies this, conn
      ensures Valid() && (conn == null || conn == old(conn)) && unchanged(`written)
      ensures r.Some? ==> |r.value| == responseLength <= 256 * 1024 * 1024 && BodyItems(r.value) <= stream
      ensures r.Some? ==> Exchanged(old(conn), old(Before()), connection, body, r.value)
      ensures Working() && old(responseLength) <= 256 * 1024 * 1024 && |old(conn.incoming)| >= old(responseLength) ==>
        r.Some?
    {
      var len := GetResponseLength();
      if len < 0 || len > 256 * 1024 * 1024 {
        return None;
      }
      var response := "";
      if len > 0 {
        var ok: bool;
        ok, response := ReadAll(len);
        if !ok || |response| != len {
          return None;
        }
      }
      r := Some(response);
    }
  }

  /** On the connection, one request with the body and the response with the text followed what was there before. */
  ghost predicate Exchanged(c: Connection, before: (seq<Sent>, seq<Item>), connection: Option<string>,
      body: string, text: string)
    reads c
  {
    c.outgoing == before.0 + Request(body) && ResponseIs(c.received, before.1, |text|, connection, text)
  }

  /** On a connection that is kept, as many requests have been sent as response heads were read; while a response
      is awaited, it is one more. */
  lemma RequestsAnswered(client: MegaHttpClient)
    requires client.Valid() && client.conn != null
    ensures Heads(client.conn.outgoing) == ResponseHeads(client.conn.received)
      + if client.state.HeadersSent? || client.state.BodySent? then 1 else 0
  {
    var conn := client.conn;
    var heads := ResponseHeads(conn.received);
    HeadsOfWhole(conn.complete, if client.state.HeadersReceived? then heads - 1 else heads);
    if !client.state.InitConnected? && !client.state.IdleConnected? {
      HeadsOfRequest(conn.complete, client.requestLength, client.written);
    }
  }

  datatype Call = CallPost(url: Option<Url>, length: int) | CallWrite(buffer: string) | CallRead(count: nat)
    | CallClose(force: bool) | CallPostSimple(url: Option<Url>, body: string) | CallLength

  /** Any sequence of API calls keeps the client valid: in every reachable state the connection, its
      unread input and the byte counts are what the state says. */
  method RunCalls(client: MegaHttpClient, calls: seq<Call>)
    requires client.Valid()
    modifies client, client.conn
    ensures client.Valid()
  {
    var i := 0;
    ghost var first := client.conn;
    while i < |calls|
      invariant client.Valid()
      invariant client.conn == null || client.conn == first || fresh(client.conn)
    {
      match calls[i] {
        case CallPost(url, length) => var ok := client.Post(url, length);
        case CallWrite(buffer) => if buffer != "" { var n := client.Write(buffer); }
        case CallRead(count) => if count > 0 { var n, data := client.Read(count); }
        case CallClose(force) => var ok := client.Close(force);
        case CallPostSimple(url, body) => var r, used := client.PostSimple(url, body);
        case CallLength => var n := client.GetResponseLength();
      }
      i := i + 1;
    }
  }
}
