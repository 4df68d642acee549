/**
 The request interceptor (`IPLoggingMiddleware`).

 For every inbound request it extracts the client address, refuses the
 request when the address is blocked, and otherwise makes one best-effort
 attempt to append a log record before passing the request on. The
 blocklist is only read; the log only grows.
 */
module Middleware {
  import opened Common

  /** What the interceptor reads from an inbound request: the forwarded-for
      header (absent or a string), the direct connection address and the
      request path. */
  datatype Request = Request(forwardedFor: Option<string>, remoteAddr: string, path: string)

  /** `Deny` is the forbidden response, given without calling the downstream
      handler; `Allow` passes the request to the downstream handler. */
  datatype Decision = Allow | Deny

  /** The stores the interceptor touches: blocked addresses and the log. */
  datatype State = State(blocked: set<string>, log: seq<LogRecord>)

  datatype Outcome = Outcome(decision: Decision, state: State)

  /* ---------------------------------------------------------------------
     Splitting a header at commas, as Python's `str.split(',')` does.
     --------------------------------------------------------------------- */

  /** Rejoins pieces with a comma between neighbours. */
  function Join(parts: seq<string>): string
    requires |parts| >= 1
  {
    if |parts| == 1 then parts[0] else parts[0] + "," + Join(parts[1..])
  }

  /** The comma-separated pieces of `s`: never empty, no piece contains a
      comma, and joining them gives `s` back. */
  function Split(s: string): (parts: seq<string>)
    ensures |parts| >= 1
    ensures forall i :: 0 <= i < |parts| ==> ',' !in parts[i]
    ensures Join(parts) == s
  {
    if |s| == 0 then [""]
    else
      var rest := Split(s[1..]);
      if s[0] == ',' then
        assert s == [','] + Join(rest);
        [""] + rest
      else
        var parts := [[s[0]] + rest[0]] + rest[1..];
        assert parts[1..] == rest[1..];
        assert s == [s[0]] + Join(rest);
        parts
  }

  /** The first piece of a split is the prefix of `s` up to, and not
      including, the first comma (or all of `s` when it has none). */
  lemma {:induction false} SplitFirstIsPrefix(s: string)
    ensures Split(s)[0] <= s
    ensures |Split(s)[0]| == |s| || s[|Split(s)[0]|] == ','
  {
    if |s| > 0 && s[0] != ',' {
      SplitFirstIsPrefix(s[1..]);
    }
  }

  /** Only one string is a comma-free prefix of `s` that is followed by a
      comma or by the end of `s`: the first piece of the split. */
  lemma {:induction false} FirstPieceUnique(s: string, t: string)
    requires t <= s && ',' !in t
    requires |t| == |s| || s[|t|] == ','
    ensures t == Split(s)[0]
  {
    if |t| > 0 {
      assert t[0] == s[0];
      assert t[0] in t;
      FirstPieceUnique(s[1..], t[1..]);
      assert t == [t[0]] + t[1..];
    } else if |s| > 0 {
      assert s[0] == ',';
    }
  }

  /* ---------------------------------------------------------------------
     The interceptor.
     --------------------------------------------------------------------- */

  /** `get_client_ip`: the first comma-separated piece of a non-empty
      forwarded-for header, untrimmed; otherwise the connection address. */
  function ClientIp(req: Request): (ip: string)
    ensures req.forwardedFor.Some? && req.forwardedFor.value != "" ==>
              && ip <= req.forwardedFor.value
              && ',' !in ip
              && (|ip| == |req.forwardedFor.value| || req.forwardedFor.value[|ip|] == ',')
    ensures req.forwardedFor.None? || req.forwardedFor.value == "" ==> ip == req.remoteAddr
  {
    match req.forwardedFor
    case Some(header) =>
      if header != "" then
        SplitFirstIsPrefix(header);
        Split(header)[0]
      else req.remoteAddr
    case None => req.remoteAddr
  }

  /** `__call__` for one request at time `now`; `writeSucceeds` says whether
      the log append would succeed. */
  function Handle(st: State, req: Request, now: int, writeSucceeds: bool): (o: Outcome)
    ensures o.state.blocked == st.blocked
    ensures o.decision == Deny <==> ClientIp(req) in st.blocked
    ensures o.decision == Deny ==> o.state.log == st.log
    ensures o.decision == Allow && writeSucceeds ==> o.state.log == st.log + [LogRecord(ClientIp(req), req.path, now)]
    ensures !writeSucceeds ==> o.state.log == st.log
  {
    var ip := ClientIp(req);
    if ip in st.blocked then
      Outcome(Deny, st)
    else
      var log := if writeSucceeds then st.log + [LogRecord(ip, req.path, now)] else st.log;
      Outcome(Allow, State(st.blocked, log))
  }

  /** The decision does not depend on whether the log write succeeds. */
  lemma PersistenceIsNotAGate(st: State, req: Request, now: int)
    ensures Handle(st, req, now, true).decision == Handle(st, req, now, false).decision
    ensures Handle(st, req, now, false).state == st
  {
  }

  /* ---------------------------------------------------------------------
     Many requests in sequence.
     --------------------------------------------------------------------- */

  /** One request arriving at time `now`, with the fate of its log write. */
  datatype Arrival = Arrival(req: Request, now: int, writeSucceeds: bool)

  /** The state after handling `arrivals` in order. */
  function Run(st: State, arrivals: seq<Arrival>): State
  {
    if |arrivals| == 0 then st
    else
      var a := arrivals[|arrivals| - 1];
      Handle(Run(st, arrivals[..|arrivals| - 1]), a.req, a.now, a.writeSucceeds).state
  }

  /** Reference: the records a run should add, one per arrival whose
      address is not blocked and whose write succeeds, in arrival order. */
  function ExpectedRecords(blocked: set<string>, arrivals: seq<Arrival>): seq<LogRecord>
  {
    if |arrivals| == 0 then []
    else
      var a := arrivals[|arrivals| - 1];
      ExpectedRecords(blocked, arrivals[..|arrivals| - 1])
        + (if ClientIp(a.req) !in blocked && a.writeSucceeds
           then [LogRecord(ClientIp(a.req), a.req.path, a.now)] else [])
  }

  /** Over a run the blocklist is untouched and the log is the old log
      followed by exactly the expected records. */
  lemma {:induction false} RunAppendsExpected(st: State, arrivals: seq<Arrival>)
    ensures Run(st, arrivals).blocked == st.blocked
    ensures Run(st, arrivals).log == st.log + ExpectedRecords(st.blocked, arrivals)
  {
    if |arrivals| == 0 {
      assert st.log + [] == st.log;
    } else {
      var prefix := arrivals[..|arrivals| - 1];
      RunAppendsExpected(st, prefix);
      var a := arrivals[|arrivals| - 1];
      var mid := Run(st, prefix);
      var extra: seq<LogRecord> := if ClientIp(a.req) !in st.blocked && a.writeSucceeds
                                   then [LogRecord(ClientIp(a.req), a.req.path, a.now)] else [];
      assert Run(st, arrivals).log == mid.log + extra;
      assert st.log + ExpectedRecords(st.blocked, prefix) + extra
          == st.log + (ExpectedRecords(st.blocked, prefix) + extra);
    }
  }

  /** A log that holds no record from a blocked address keeps that
      property over any run: denied requests never leave a record. */
  lemma NoBlockedAddressLogged(st: State, arrivals: seq<Arrival>)
    requires forall r :: r in st.log ==> r.ip !in st.blocked
    ensures forall r :: r in Run(st, arrivals).log ==> r.ip !in st.blocked
  {
    RunAppendsExpected(st, arrivals);
    ExpectedRecordsNotBlocked(st.blocked, arrivals);
  }

  lemma {:induction false} ExpectedRecordsNotBlocked(blocked: set<string>, arrivals: seq<Arrival>)
    ensures forall r :: r in ExpectedRecords(blocked, arrivals) ==> r.ip !in blocked
  {
    if |arrivals| > 0 {
      ExpectedRecordsNotBlocked(blocked, arrivals[..|arrivals| - 1]);
    }
  }

  /* ---------------------------------------------------------------------
     Concrete cases of address extraction.
     --------------------------------------------------------------------- */

  /** The first listed address is taken from a forwarded-for list. */
  lemma ForwardedListExample()
    ensures ClientIp(Request(Some("a, b, c"), "10.0.0.1", "/")) == "a"
  {
    var h := "a, b, c";
    FirstPieceUnique(h, "a");
  }

  /** Whitespace around the first piece is kept. */
  lemma ForwardedNotTrimmedExample()
    ensures ClientIp(Request(Some(" a ,b"), "10.0.0.1", "/")) == " a "
  {
    var h := " a ,b";
    assert h[..3] == " a ";
    FirstPieceUnique(h, " a ");
  }

  /** An empty header falls back to the connection address. */
  lemma EmptyForwardedExample()
    ensures ClientIp(Request(Some(""), "10.0.0.1", "/")) == "10.0.0.1"
  {
  }
}
