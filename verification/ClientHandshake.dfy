/** The client handshake of ssl_clnt.c up to TLS 1.2 and DTLS: ssl3_connect as a state machine. */
module ClientHandshake {

  /** The states of ssl3_connect; the A, B, ... variants of one state are the same here. */
  datatype State = Before | Renegotiate | Connecting | ClientHelloDue | ServerHelloDue | HelloVerifyDue
                 | CertificateDue | StatusDue | ServerKeyDue | RequestDue | DoneDue
                 | ClientCertDue | ClientKeyDue | VerifyDue | ChangeDue | FinishDue
                 | TicketDue | ServerFinishDue | Flush | Established

  /** Steps of the handshake, as they are completed. The server's Finished keeps what was the case when it
      was taken: whether change cipher spec was set, whether the digest was right, and after how many
      steps of this handshake that change cipher spec had been read (-1: before this handshake). */
  datatype Step = ClientHello | ServerHello | HelloVerify
                | ServerCertificate | CertificateStatus | ServerKeyExchange | CertificateRequest | ServerDone
                | ClientCertificate | ClientKeyExchange | CertificateVerify | ClientCcs | ClientFinished
                | SessionTicket | ServerFinished(ccsSet: bool, matched: bool, readAt: int)

  /** What the outside does during one turn of the loop: results of sending, reading and checking, what the
      server's messages say, and whether a change cipher spec record turns up. */
  datatype World = World(ret: int, certRet: int, setup: bool, secretCallback: bool, cookieAsked: bool,
                         sessionKnown: bool, verifyRequest: bool,
                         ticketExpected: bool, haveTicket: bool, finishedNext: bool, anonymous: bool,
                         statusExpected: bool, algorithmsOk: bool, requested: bool, noCertificate: bool,
                         keysOk: bool, digestMatches: bool, flushed: bool, flushRetry: bool, ccs: bool,
                         transcriptFreed: bool)

  // --------------------------------------------------------------------------
  // The two handshakes of section 7.3 of RFC 5246
  // --------------------------------------------------------------------------

  predicate IsHello(s: Step) {
    s.ClientHello? || s.ServerHello? || s.HelloVerify?
  }

  ghost predicate Hellos(h: seq<Step>) {
    forall i :: 0 <= i < |h| ==> IsHello(h[i])
  }

  function Opt(b: bool, s: Step): (r: seq<Step>) {
    if b then [s] else []
  }

  /** Which optional steps a handshake takes until the keys are sent. */
  datatype Path = Path(hellos: seq<Step>, anonymous: bool, status: bool, certificate: bool, verify: bool)

  function Certificates(p: Path): (r: seq<Step>) {
    Opt(!p.anonymous, ServerCertificate) + Opt(!p.anonymous && p.status, CertificateStatus)
  }

  function ServerFlight(p: Path): (r: seq<Step>) {
    p.hellos + Certificates(p) + [ServerKeyExchange, CertificateRequest, ServerDone]
  }

  /** Up to the point where a full handshake changes its cipher. */
  function KeysSent(p: Path): (r: seq<Step>) {
    ServerFlight(p) + Opt(p.certificate, ClientCertificate) + [ClientKeyExchange] + Opt(p.verify, CertificateVerify)
  }

  /** The server's Finished, as it has to be: matched while change cipher spec was set. */
  function Proper(readAt: int): (s: Step) {
    ServerFinished(true, true, readAt)
  }

  /** A full handshake: the client finishes first. */
  function FullHandshake(p: Path, ticket: bool, readAt: int): (r: seq<Step>) {
    KeysSent(p) + [ClientCcs, ClientFinished] + Opt(ticket, SessionTicket) + [Proper(readAt)]
  }

  /** A resumed handshake: the server finishes first. */
  function ResumedHandshake(p: Path, ticket: bool, readAt: int): (r: seq<Step>) {
    p.hellos + Opt(ticket, SessionTicket) + [Proper(readAt)] + [ClientCcs] + [ClientFinished]
  }

  /** Step s is taken exactly once, at position i. */
  ghost predicate OnlyAt(log: seq<Step>, s: Step, i: nat) {
    i < |log| && forall k :: 0 <= k < |log| ==> (log[k] == s <==> k == i)
  }

  /** The server's Finished comes exactly once, at position i, and is proper. */
  ghost predicate ServerFinishes(log: seq<Step>, i: nat, readAt: int) {
    i < |log| && log[i] == Proper(readAt) && forall k :: 0 <= k < |log| ==> (log[k].ServerFinished? <==> k == i)
  }

  lemma NotFinished(p: Path)
    requires Hellos(p.hellos)
    ensures forall i :: 0 <= i < |KeysSent(p)| ==> KeysSent(p)[i] != ClientFinished && !KeysSent(p)[i].ServerFinished?
  {
    var f := ServerFlight(p);
    assert forall i :: 0 <= i < |f| ==> f[i] != ClientFinished && !f[i].ServerFinished?;
  }

  /** In a full handshake the client finishes first, in a resumed one the server, each once. */
  lemma FinishedInOrder(p: Path, ticket: bool, readAt: int) returns (c: nat, s: nat)
    requires Hellos(p.hellos)
    ensures var log := FullHandshake(p, ticket, readAt);
            OnlyAt(log, ClientFinished, c) && ServerFinishes(log, s, readAt) && |KeysSent(p)| < c < s
  {
    NotFinished(p);
    var k, log := KeysSent(p), FullHandshake(p, ticket, readAt);
    c := |k| + 1;
    s := |log| - 1;
    assert log == k + ([ClientCcs, ClientFinished] + Opt(ticket, SessionTicket) + [Proper(readAt)]);
  }

  lemma ResumedInOrder(p: Path, ticket: bool, readAt: int) returns (c: nat, s: nat)
    requires Hellos(p.hellos)
    ensures var log := ResumedHandshake(p, ticket, readAt);
            OnlyAt(log, ClientFinished, c) && ServerFinishes(log, s, readAt) && s < c
  {
    c := |ResumedHandshake(p, ticket, readAt)| - 1;
    s := c - 2;
    assert forall i :: 0 <= i < |p.hellos| ==> IsHello(p.hellos[i]);
  }

  lemma KeysAreSent(p: Path) returns (k: nat)
    ensures k < |KeysSent(p)| && KeysSent(p)[k] == ClientKeyExchange
  {
    k := |ServerFlight(p) + Opt(p.certificate, ClientCertificate)|;
  }

  // --------------------------------------------------------------------------
  // The same two handshakes, read step by step
  // --------------------------------------------------------------------------

  /** How far a handshake has come. `keys` is the number of steps until the client's keys were sent. */
  datatype Phase = Greeting | Certified | StatusKnown | ServerKeyed | Requested | ServerFlown
                 | ClientCertified | ClientKeyed(certified: bool) | ClientVerified
                 | Changed(keys: nat) | ClientDone(keys: nat) | Ticketed(keys: nat) | BothDone(keys: nat, readAt: int)
                 | EarlyTicket | ServerFirst(readAt: int) | ChangedLast(readAt: int) | Resumed(readAt: int)
                 | Astray

  /** The step s, when n steps have been taken. The server's Finished must have been matched while a change
      cipher spec was set, one read before it and, in a full handshake, after the client's keys were sent. */
  function Next(p: Phase, s: Step, n: nat): (r: Phase) {
    match p
    case Greeting =>
      if IsHello(s) then Greeting else if s.ServerCertificate? then Certified
      else if s.ServerKeyExchange? then ServerKeyed else if s.SessionTicket? then EarlyTicket
      else if Counts(s, -1, n) then ServerFirst(s.readAt) else Astray
    case Certified => if s.CertificateStatus? then StatusKnown else if s.ServerKeyExchange? then ServerKeyed else Astray
    case StatusKnown => if s.ServerKeyExchange? then ServerKeyed else Astray
    case ServerKeyed => if s.CertificateRequest? then Requested else Astray
    case Requested => if s.ServerDone? then ServerFlown else Astray
    case ServerFlown =>
      if s.ClientCertificate? then ClientCertified else if s.ClientKeyExchange? then ClientKeyed(false) else Astray
    case ClientCertified => if s.ClientKeyExchange? then ClientKeyed(true) else Astray
    case ClientKeyed(certified) =>
      if s.ClientCcs? then Changed(n) else if certified && s.CertificateVerify? then ClientVerified else Astray
    case ClientVerified => if s.ClientCcs? then Changed(n) else Astray
    case Changed(k) => if s.ClientFinished? then ClientDone(k) else Astray
    case ClientDone(k) =>
      if s.SessionTicket? then Ticketed(k) else if Counts(s, k, n) then BothDone(k, s.readAt) else Astray
    case Ticketed(k) => if Counts(s, k, n) then BothDone(k, s.readAt) else Astray
    case EarlyTicket => if Counts(s, -1, n) then ServerFirst(s.readAt) else Astray
    case ServerFirst(r) => if s.ClientCcs? then ChangedLast(r) else Astray
    case ChangedLast(r) => if s.ClientFinished? then Resumed(r) else Astray
    case _ => Astray
  }

  predicate Counts(s: Step, from: int, n: nat) {
    s.ServerFinished? && s.ccsSet && s.matched && from <= s.readAt <= n
  }

  function PhaseOf(log: seq<Step>): (p: Phase) {
    if log == [] then Greeting else Next(PhaseOf(log[..|log| - 1]), log[|log| - 1], |log| - 1)
  }

  lemma PhaseSnoc(log: seq<Step>, s: Step)
    ensures PhaseOf(log + [s]) == Next(PhaseOf(log), s, |log|)
  {
    assert (log + [s])[..|log|] == log;
  }

  /** The steps of a phase, written out. */
  ghost predicate Spelled(log: seq<Step>, ph: Phase, p: Path, ticket: bool) {
    match ph
    case Greeting => log == p.hellos
    case Certified => !p.anonymous && log == p.hellos + [ServerCertificate]
    case StatusKnown => !p.anonymous && p.status && log == p.hellos + Certificates(p)
    case ServerKeyed => log == p.hellos + Certificates(p) + [ServerKeyExchange]
    case Requested => log == p.hellos + Certificates(p) + [ServerKeyExchange, CertificateRequest]
    case ServerFlown => log == ServerFlight(p)
    case ClientCertified => p.certificate && log == ServerFlight(p) + Opt(p.certificate, ClientCertificate)
    case ClientKeyed(c) => !p.verify && p.certificate == c && log == KeysSent(p)
    case ClientVerified => p.verify && p.certificate && log == KeysSent(p)
    case Changed(k) => k == |KeysSent(p)| && log == KeysSent(p) + [ClientCcs]
    case ClientDone(k) => k == |KeysSent(p)| && log == KeysSent(p) + [ClientCcs, ClientFinished]
    case Ticketed(k) =>
      k == |KeysSent(p)| && ticket && log == KeysSent(p) + [ClientCcs, ClientFinished] + Opt(ticket, SessionTicket)
    case BothDone(k, r) => k == |KeysSent(p)| && k <= r < |log| && log == FullHandshake(p, ticket, r)
    case EarlyTicket => ticket && log == p.hellos + Opt(ticket, SessionTicket)
    case ServerFirst(r) => r < |log| && log == p.hellos + Opt(ticket, SessionTicket) + [Proper(r)]
    case ChangedLast(r) => r < |log| - 1 && log == p.hellos + Opt(ticket, SessionTicket) + [Proper(r)] + [ClientCcs]
    case Resumed(r) => r < |log| - 2 && log == ResumedHandshake(p, ticket, r)
    case Astray => true
  }

  /** Phases behind a new session ticket, or where there may have been one. */
  predicate TicketTaken(ph: Phase) {
    || ph.Ticketed? || ph.BothDone? || ph.EarlyTicket?
    || ph.ServerFirst? || ph.ChangedLast? || ph.Resumed? || ph.Astray?
  }

  ghost predicate Shaped(log: seq<Step>, ph: Phase, p: Path, ticket: bool) {
    Spelled(log, ph, p, ticket) && Hellos(p.hellos) && (p.verify ==> p.certificate) && (ticket ==> TicketTaken(ph))
  }

  lemma ServerStep(log: seq<Step>, ph: Phase, p: Path, s: Step) returns (q: Path)
    requires Shaped(log, ph, p, false)
    requires ph.Greeting? || ph.Certified? || ph.StatusKnown? || ph.ServerKeyed? || ph.Requested?
    requires ph.Greeting? ==> !s.SessionTicket? && !s.ServerFinished?
    ensures Shaped(log + [s], Next(ph, s, |log|), q, false)
  {
    q := p;
    match ph
    case Greeting =>
      if IsHello(s) {
        q := p.(hellos := log + [s]);
      } else {
        q := p.(anonymous := s.ServerKeyExchange?);
      }
    case Certified => q := p.(status := s.CertificateStatus?);
    case StatusKnown =>
    case ServerKeyed =>
    case Requested =>
  }

  lemma ClientStep(log: seq<Step>, ph: Phase, p: Path, s: Step) returns (q: Path)
    requires Shaped(log, ph, p, false)
    requires ph.ServerFlown? || ph.ClientCertified? || ph.ClientKeyed? || ph.ClientVerified? || ph.Changed?
    ensures Shaped(log + [s], Next(ph, s, |log|), q, false)
  {
    q := p;
    match ph
    case ServerFlown => q := p.(certificate := s.ClientCertificate?, verify := false);
    case ClientCertified => q := p.(verify := false);
    case ClientKeyed(_) => q := p.(verify := s.CertificateVerify? && p.certificate);
    case ClientVerified =>
    case Changed(_) => assert KeysSent(p) + [ClientCcs] + [ClientFinished] == KeysSent(p) + [ClientCcs, ClientFinished];
  }

  lemma LastStep(log: seq<Step>, ph: Phase, p: Path, ticket: bool, s: Step) returns (u: bool)
    requires Shaped(log, ph, p, ticket)
    requires (ph.Greeting? && (s.SessionTicket? || s.ServerFinished?)) || ph.ClientDone? || TicketTaken(ph)
    ensures Shaped(log + [s], Next(ph, s, |log|), p, u)
  {
    u := ticket || s.SessionTicket?;
  }

  lemma AnyStep(log: seq<Step>, ph: Phase, p: Path, ticket: bool, s: Step) returns (q: Path, u: bool)
    requires Shaped(log, ph, p, ticket)
    ensures Shaped(log + [s], Next(ph, s, |log|), q, u)
  {
    q, u := p, ticket;
    if ph.ServerFlown? || ph.ClientCertified? || ph.ClientKeyed? || ph.ClientVerified? || ph.Changed? {
      q := ClientStep(log, ph, p, s);
    } else if (ph.Greeting? && (s.SessionTicket? || s.ServerFinished?)) || ph.ClientDone? || TicketTaken(ph) {
      u := LastStep(log, ph, p, ticket, s);
    } else {
      q := ServerStep(log, ph, p, s);
    }
  }

  /** Every sequence of steps that is not astray is a beginning of one of the two handshakes. */
  lemma {:induction false} Course(log: seq<Step>) returns (p: Path, ticket: bool)
    ensures Shaped(log, PhaseOf(log), p, ticket)
  {
    if log == [] {
      p, ticket := Path([], false, false, false, false), false;
    } else {
      var init, s := log[..|log| - 1], log[|log| - 1];
      assert log == init + [s];
      p, ticket := Course(init);
      PhaseSnoc(init, s);
      p, ticket := AnyStep(init, PhaseOf(init), p, ticket, s);
    }
  }

  /** An established connection: both sides have finished in this handshake, the client first exactly when it
      was not resumed, and the server's Finished was matched while change cipher spec was set. In a full
      handshake that change cipher spec had been read after the client's key exchange (step k) was sent; in a
      resumed one it had been read in this handshake, unless one was already set when the handshake began. */
  lemma EstablishedMeans(client: Client) returns (c: nat, s: nat, k: nat, p: Path, ticket: bool)
    requires client.Inv() && client.state.Established?
    ensures OnlyAt(client.log, ClientFinished, c) && s < |client.log|
    ensures client.log[s].ServerFinished? && client.log[s].ccsSet && client.log[s].matched
    ensures ServerFinishes(client.log, s, client.log[s].readAt) && client.log[s].readAt <= s
    ensures s < c <==> client.resumed
    ensures !client.resumed ==> k < client.log[s].readAt && client.log[k] == ClientKeyExchange
    ensures client.resumed ==> client.log[s].readAt >= 0 || client.staleCcs
    ensures client.log == if client.resumed then ResumedHandshake(p, ticket, client.log[s].readAt)
                          else FullHandshake(p, ticket, client.log[s].readAt)
  {
    k := 0;
    if client.resumed {
      c, s, p, ticket := ResumedMeans(client.log);
    } else {
      c, s, k, p, ticket := FullMeans(client.log);
    }
  }

  lemma ResumedMeans(log: seq<Step>) returns (c: nat, s: nat, p: Path, ticket: bool)
    requires PhaseOf(log).Resumed?
    ensures OnlyAt(log, ClientFinished, c) && ServerFinishes(log, s, PhaseOf(log).readAt)
    ensures s < c && PhaseOf(log).readAt <= s && log == ResumedHandshake(p, ticket, PhaseOf(log).readAt)
  {
    p, ticket := Course(log);
    c, s := ResumedInOrder(p, ticket, PhaseOf(log).readAt);
  }

  lemma FullMeans(log: seq<Step>) returns (c: nat, s: nat, k: nat, p: Path, ticket: bool)
    requires PhaseOf(log).BothDone?
    ensures OnlyAt(log, ClientFinished, c) && ServerFinishes(log, s, PhaseOf(log).readAt)
    ensures c < s && k < PhaseOf(log).readAt <= s && log[k] == ClientKeyExchange
    ensures log == FullHandshake(p, ticket, PhaseOf(log).readAt)
  {
    p, ticket := Course(log);
    c, s := FinishedInOrder(p, ticket, PhaseOf(log).readAt);
    k := KeysAreSent(p);
    KeysFirst(p, ticket, PhaseOf(log).readAt, k);
  }

  lemma KeysFirst(p: Path, ticket: bool, readAt: int, k: nat)
    requires k < |KeysSent(p)|
    ensures k < |FullHandshake(p, ticket, readAt)| && FullHandshake(p, ticket, readAt)[k] == KeysSent(p)[k]
  {
  }

  // --------------------------------------------------------------------------
  // One turn, as a function of what the client keeps
  // --------------------------------------------------------------------------

  /** All that a client keeps between two turns, besides the log. */
  datatype View = View(state: State, nextState: State, hit: bool, changeCipherSpec: bool, ccsOk: bool,
                       sendCookie: bool, certRequest: nat, renegotiate: bool,
                       ccsMark: int, staleCcs: bool, resumed: bool)

  /** What a turn does to the log: nothing, start it anew, or add a step. */
  datatype Entry = Nothing | Anew | Completed(step: Step)

  function Extended(log: seq<Step>, e: Entry): (r: seq<Step>) {
    match e case Nothing => log case Anew => [] case Completed(s) => log + [s]
  }

  /** After a turn: what is kept, the entry in the log, and whether the loop goes on. */
  datatype Turned = Turned(view: View, entry: Entry, go: bool)

  function Stuck(u: View): (r: Turned) {
    Turned(u, Nothing, false)
  }

  /** The step s is completed, and `next` is the state after it. */
  function Took(u: View, s: Step, next: State): (r: Turned) {
    Turned(u.(state := next), Completed(s), true)
  }

  function OnSuccess(ret: int, u: View, r: Turned): (r': Turned) {
    if ret > 0 then r else Stuck(u)
  }

  /** A change cipher spec record is taken if one is expected; n steps have been completed. */
  function CcsTaken(u: View, n: nat): (v: View) {
    if u.ccsOk then u.(ccsOk := false, changeCipherSpec := true, ccsMark := n) else u
  }

  predicate Starting(s: State) {
    s.Before? || s.Renegotiate? || s.Connecting?
  }

  predicate Greets(s: State) {
    s.ClientHelloDue? || s.ServerHelloDue? || s.HelloVerifyDue?
  }

  predicate ServerSpeaks(s: State) {
    s.CertificateDue? || s.StatusDue? || s.ServerKeyDue? || s.RequestDue? || s.DoneDue?
  }

  predicate ClientSpeaks(s: State) {
    s.ClientCertDue? || s.ClientKeyDue? || s.VerifyDue? || s.ChangeDue?
  }

  predicate Sends(s: State) {
    s.FinishDue? || s.Flush?
  }

  predicate Ends(s: State) {
    s.TicketDue? || s.ServerFinishDue?
  }

  function StartOf(dtls: bool, u: View, w: World): (r: Turned) {
    if w.setup then
      Turned(u.(renegotiate := u.renegotiate || u.state.Renegotiate?, state := ClientHelloDue, ccsMark := -1,
                staleCcs := u.changeCipherSpec, sendCookie := !dtls && u.sendCookie, hit := !dtls && u.hit), Anew, true)
    else
      Stuck(u.(renegotiate := u.renegotiate || u.state.Renegotiate?,
               state := if u.state.Before? then Before else Connecting))
  }

  function ServerHelloOf(dtls: bool, u: View, w: World): (r: Turned) {
    if dtls && w.verifyRequest && w.ret > 0 then
      if u.sendCookie then Stuck(u) else Took(u, ServerHello, AfterHello(dtls, u.hit, w.ticketExpected))
    else
      var v := u.(ccsOk := u.ccsOk || (!dtls && (w.secretCallback || w.sessionKnown)), hit := w.sessionKnown);
      OnSuccess(w.ret, v, Took(v, ServerHello, AfterHello(dtls, v.hit, w.ticketExpected)))
  }

  function AfterHello(dtls: bool, hit: bool, ticketExpected: bool): (s: State) {
    if !hit then (if dtls then HelloVerifyDue else CertificateDue)
    else if !dtls && ticketExpected then TicketDue
    else ServerFinishDue
  }

  function HelloTurnOf(dtls: bool, u: View, w: World): (r: Turned)
    requires Greets(u.state)
  {
    match u.state
    case ClientHelloDue =>
      OnSuccess(w.ret, u, if dtls && u.sendCookie then Took(u.(nextState := ServerHelloDue), ClientHello, Flush)
                          else Took(u, ClientHello, ServerHelloDue))
    case ServerHelloDue => ServerHelloOf(dtls, u, w)
    case HelloVerifyDue =>
      OnSuccess(w.ret, u, Took(u.(sendCookie := w.cookieAsked), HelloVerify,
                               if w.cookieAsked then ClientHelloDue else CertificateDue))
  }

  function CertificateOf(u: View, w: World): (r: Turned) {
    if w.haveTicket && w.ret <= 0 then Stuck(u)
    else if w.haveTicket && w.finishedNext then
      Turned(u.(hit := true, state := if w.ticketExpected then TicketDue else ServerFinishDue), Nothing, true)
    else if w.anonymous then Turned(u.(state := ServerKeyDue), Nothing, true)
    else OnSuccess(w.certRet, u, Took(u, ServerCertificate, if w.statusExpected then StatusDue else ServerKeyDue))
  }

  function ServerTurnOf(u: View, w: World): (r: Turned)
    requires ServerSpeaks(u.state)
  {
    match u.state
    case CertificateDue => CertificateOf(u, w)
    case StatusDue => OnSuccess(w.ret, u, Took(u, CertificateStatus, ServerKeyDue))
    case ServerKeyDue => OnSuccess(w.ret, u, Took(u, ServerKeyExchange, RequestDue).(go := w.algorithmsOk))
    case RequestDue =>
      var v := u.(certRequest := if w.ret > 0 && w.requested then 1 else 0);
      OnSuccess(w.ret, v, Took(v, CertificateRequest, DoneDue))
    case DoneDue =>
      OnSuccess(w.ret, u, Took(u, ServerDone, if u.certRequest != 0 then ClientCertDue else ClientKeyDue))
  }

  function ClientTurnOf(u: View, w: World): (r: Turned)
    requires ClientSpeaks(u.state)
  {
    match u.state
    case ClientCertDue =>
      var v := u.(certRequest := if w.noCertificate then 2 else u.certRequest);
      OnSuccess(w.ret, v, Took(v, ClientCertificate, ClientKeyDue))
    case ClientKeyDue =>
      OnSuccess(w.ret, u, if u.certRequest == 1 then Took(u, ClientKeyExchange, VerifyDue)
                          else Took(u.(changeCipherSpec := false), ClientKeyExchange, ChangeDue))
    case VerifyDue => OnSuccess(w.ret, u, Took(u.(changeCipherSpec := false), CertificateVerify, ChangeDue))
    case ChangeDue => OnSuccess(w.ret, u, Took(u, ClientCcs, FinishDue).(go := w.keysOk))
  }

  function ServerFinishOf(u: View, n: nat, w: World): (r: Turned) {
    var v := if w.ccs then CcsTaken(u.(ccsOk := true), n) else u.(ccsOk := true);
    if w.ret <= 0 || !v.changeCipherSpec then Stuck(v)
    else if !w.digestMatches then Stuck(v.(changeCipherSpec := false))
    else Took(v.(changeCipherSpec := false, resumed := v.hit), Proper(v.ccsMark),
              if v.hit then ChangeDue else Established)
  }

  function SendTurnOf(dtls: bool, u: View, w: World): (r: Turned)
    requires Sends(u.state)
  {
    match u.state
    case FinishDue =>
      OnSuccess(w.ret, u, Took(u.(ccsOk := u.ccsOk || !dtls,
                                  nextState := if u.hit then Established
                                               else if w.ticketExpected then TicketDue else ServerFinishDue),
                               ClientFinished, Flush))
    case Flush =>
      Turned(if w.flushed || (dtls && !w.flushRetry) then u.(resumed := u.hit, state := u.nextState) else u,
             Nothing, w.flushed)
  }

  function LastTurnOf(u: View, n: nat, w: World): (r: Turned)
    requires Ends(u.state)
  {
    match u.state
    case TicketDue => OnSuccess(w.ret, u, Took(u, SessionTicket, ServerFinishDue))
    case ServerFinishDue => ServerFinishOf(u, n, w)
  }

  /** One turn of the loop in ssl3_connect, n steps having been completed. */
  function TurnOf(dtls: bool, u: View, n: nat, w: World): (r: Turned)
    requires !u.state.Established?
  {
    var v := if w.ccs && !u.state.ServerFinishDue? then CcsTaken(u, n) else u;
    if Starting(v.state) then StartOf(dtls, v, w)
    else if Greets(v.state) then HelloTurnOf(dtls, v, w)
    else if ServerSpeaks(v.state) then ServerTurnOf(v, w)
    else if ClientSpeaks(v.state) then ClientTurnOf(v, w)
    else if Sends(v.state) then SendTurnOf(dtls, v, w)
    else LastTurnOf(v, n, w)
  }

  // The turns with the most branches, on what is kept.

  lemma HelloExact(dtls: bool, u: View, v: View, w: World, go: bool)
    requires u.state.ClientHelloDue? && v == u.(nextState := v.nextState, state := v.state) && go == (w.ret > 0)
    requires v.state == if !go then ClientHelloDue else if dtls && u.sendCookie then Flush else ServerHelloDue
    requires v.nextState == if go && dtls && u.sendCookie then ServerHelloDue else u.nextState
    ensures HelloTurnOf(dtls, u, w) == Turned(v, if go then Completed(ClientHello) else Nothing, go)
  {
  }

  lemma ClientKeyExact(u: View, v: View, w: World, go: bool)
    requires u.state.ClientKeyDue? && go == (w.ret > 0)
    requires v == u.(changeCipherSpec := v.changeCipherSpec, state := v.state)
    requires v.state == if !go then ClientKeyDue else if u.certRequest == 1 then VerifyDue else ChangeDue
    requires v.changeCipherSpec == (u.changeCipherSpec && !(go && v.state.ChangeDue?))
    ensures ClientTurnOf(u, w) == Turned(v, if go then Completed(ClientKeyExchange) else Nothing, go)
  {
  }

  lemma ServerHelloExact(dtls: bool, u: View, v: View, w: World, go: bool)
    requires u.state.ServerHelloDue? && v == u.(hit := v.hit, ccsOk := v.ccsOk, state := v.state)
    requires go <==> w.ret > 0 && !(dtls && w.verifyRequest && u.sendCookie)
    requires v.hit == if dtls && w.verifyRequest && w.ret > 0 then u.hit else w.sessionKnown
    requires v.ccsOk == (u.ccsOk || (!dtls && (w.secretCallback || w.sessionKnown)))
    requires v.state == if go then AfterHello(dtls, v.hit, w.ticketExpected) else ServerHelloDue
    ensures HelloTurnOf(dtls, u, w) == Turned(v, if go then Completed(ServerHello) else Nothing, go)
  {
  }

  lemma CertificateExact(u: View, v: View, w: World, go: bool)
    requires u.state.CertificateDue? && !u.hit && v == u.(hit := v.hit, state := v.state)
    requires v.hit <==> w.haveTicket && w.finishedNext && w.ret > 0
    requires go <==> v.hit || ((w.haveTicket ==> w.ret > 0) && (!w.anonymous ==> w.certRet > 0))
    requires v.state == if !go then CertificateDue
                        else if v.hit then (if w.ticketExpected then TicketDue else ServerFinishDue)
                        else if !w.anonymous && w.statusExpected then StatusDue else ServerKeyDue
    ensures ServerTurnOf(u, w)
         == Turned(v, if go && !v.hit && !w.anonymous then Completed(ServerCertificate) else Nothing, go)
  {
  }

  lemma FinishExact(dtls: bool, u: View, v: View, w: World, go: bool)
    requires u.state.FinishDue? && v == u.(ccsOk := v.ccsOk, nextState := v.nextState, state := v.state)
    requires go == (w.ret > 0) && v.ccsOk == (u.ccsOk || (go && !dtls))
    requires v.state == if go then Flush else FinishDue
    requires v.nextState == if !go then u.nextState else if u.hit then Established
                            else if w.ticketExpected then TicketDue else ServerFinishDue
    ensures SendTurnOf(dtls, u, w) == Turned(v, if go then Completed(ClientFinished) else Nothing, go)
  {
  }

  lemma ServerFinishExact(u: View, v: View, n: nat, w: World, go: bool)
    requires u.state.ServerFinishDue?
    requires v == u.(changeCipherSpec := v.changeCipherSpec, ccsOk := v.ccsOk, ccsMark := v.ccsMark,
                     resumed := v.resumed, state := v.state)
    requires go <==> w.ret > 0 && (u.changeCipherSpec || w.ccs) && w.digestMatches
    requires v.ccsMark == (if w.ccs then n else u.ccsMark) && v.ccsOk == !w.ccs
    requires v.changeCipherSpec == ((u.changeCipherSpec || w.ccs) && w.ret <= 0)
    requires v.resumed == if go then u.hit else u.resumed
    requires v.state == if !go then ServerFinishDue else if u.hit then ChangeDue else Established
    ensures LastTurnOf(u, n, w) == Turned(v, if go then Completed(Proper(v.ccsMark)) else Nothing, go)
  {
  }

  /** On entry, unless a handshake is under way. */
  function Entered(u: View, cleared: bool): (v: View) {
    if !u.state.Established? && !u.state.Before? then u
    else if u.renegotiate || !cleared then u.(hit := false)
    else u.(hit := false, state := Before, changeCipherSpec := false, ccsOk := false)
  }

  /** When the loop ends: what is kept, the log, and what is returned. */
  datatype Ended = Ended(view: View, log: seq<Step>, ret: int)

  /** The loop from turn i on. */
  function LoopOf(dtls: bool, u: View, log: seq<Step>, worlds: seq<World>, i: nat): (r: Ended)
    decreases |worlds| - i
  {
    if i >= |worlds| then Ended(u, log, -1)
    else if u.state.Established? then
      if worlds[i].transcriptFreed then Ended(u.(renegotiate := false), log, 1) else Ended(u, log, -1)
    else
      var t := TurnOf(dtls, u, |log|, worlds[i]);
      if t.go then LoopOf(dtls, t.view, Extended(log, t.entry), worlds, i + 1)
      else Ended(t.view, Extended(log, t.entry), -1)
  }

  /** What one more pass of the loop leads to. */
  ghost predicate Looped(dtls: bool, u: View, log: seq<Step>, worlds: seq<World>, i: nat, go: bool, now: Ended) {
    LoopOf(dtls, u, log, worlds, i) == if go then LoopOf(dtls, now.view, now.log, worlds, i + 1) else now
  }

  lemma TurnLoops(dtls: bool, u: View, log: seq<Step>, worlds: seq<World>, i: nat)
    requires i < |worlds| && !u.state.Established?
    ensures var t := TurnOf(dtls, u, |log|, worlds[i]);
            Looped(dtls, u, log, worlds, i, t.go, Ended(t.view, Extended(log, t.entry), -1))
  {
  }

  // --------------------------------------------------------------------------
  // The machine
  // --------------------------------------------------------------------------

  class Client {
    const dtls: bool
    var state: State
    var nextState: State
    var hit: bool
    var changeCipherSpec: bool
    var ccsOk: bool
    var sendCookie: bool
    var certRequest: nat
    var renegotiate: bool
    ghost var log: seq<Step>    // steps completed in this handshake
    ghost var ccsMark: int      // steps completed when change cipher spec was last read, -1 before this handshake
    ghost var staleCcs: bool    // change cipher spec was already set when this handshake began
    ghost var resumed: bool     // hit, when the handshake was established

    constructor (isDtls: bool)
      ensures Inv() && dtls == isDtls
      ensures Look() == View(Before, Before, false, false, false, false, 0, false, -1, false, false) && log == []
    {
      dtls, state, nextState, hit := isDtls, Before, Before, false;
      changeCipherSpec, ccsOk, sendCookie, certRequest, renegotiate := false, false, false, 0, false;
      log, ccsMark, staleCcs, resumed := [], -1, false, false;
    }

    ghost function Look(): (v: View)
      reads this
    {
      View(state, nextState, hit, changeCipherSpec, ccsOk, sendCookie, certRequest, renegotiate,
           ccsMark, staleCcs, resumed)
    }

    /** A turn has brought the client from u and the log `was` to where it is now. */
    ghost predicate Came(t: Turned, was: seq<Step>, go: bool)
      reads this
    {
      Look() == t.view && log == Extended(was, t.entry) && go == t.go
    }

    /** How far the steps taken must have come when a state is reached. */
    ghost predicate OnTrack(p: Phase)
      reads this`state, this`nextState, this`hit, this`certRequest, this`resumed
    {
      match state
      case HelloVerifyDue => !hit && p.Greeting?
      case CertificateDue => !hit && p.Greeting?
      case StatusDue => !hit && p.Certified?
      case ServerKeyDue => !hit && (p.Greeting? || p.Certified? || p.StatusKnown?)
      case RequestDue => !hit && p.ServerKeyed?
      case DoneDue => !hit && p.Requested?
      case ClientCertDue => !hit && p.ServerFlown?
      case ClientKeyDue => !hit && (p.ClientCertified? || (p.ServerFlown? && certRequest != 1))
      case VerifyDue => !hit && p == ClientKeyed(true)
      case ChangeDue => if hit then p.ServerFirst? else p.ClientKeyed? || p.ClientVerified?
      case FinishDue => if hit then p.ChangedLast? else p.Changed?
      case TicketDue => if hit then p.Greeting? else p.ClientDone?
      case ServerFinishDue => if hit then p.Greeting? || p.EarlyTicket? else p.ClientDone? || p.Ticketed?
      case Flush =>
        if nextState.ServerHelloDue? then p.Greeting?
        else if nextState.Established? then hit && p.Resumed?
        else (nextState.TicketDue? || nextState.ServerFinishDue?) && !hit && p.ClientDone?
      case Established => if resumed then p.Resumed? else p.BothDone?
      case _ => p.Greeting?
    }

    /** Where the change cipher spec that is set comes from: once the client's keys are sent in a full
        handshake, only one read since then counts. */
    ghost predicate CcsFresh(p: Phase)
      reads this
    {
      && -1 <= ccsMark <= |log|
      && (changeCipherSpec ==> ccsMark >= 0 || staleCcs)
      && (changeCipherSpec && state.ChangeDue? && !hit ==> ccsMark == |log|)
      && (p.Changed? || p.ClientDone? || p.Ticketed? ==> p.keys <= |log| && (changeCipherSpec ==> ccsMark >= p.keys))
      && (p.ServerFirst? || p.ChangedLast? || p.Resumed? ==> p.readAt >= 0 || staleCcs)
    }

    /** Between the start of a handshake and the next one. */
    ghost predicate Started()
      reads this`state
    {
      !state.Before? && !state.Renegotiate? && !state.Connecting?
    }

    ghost predicate Inv()
      reads this
    {
      Started() ==> OnTrack(PhaseOf(log)) && CcsFresh(PhaseOf(log))
    }

    /** Keeps account of a completed step. */
    ghost method Log(s: Step)
      modifies this`log
      ensures log == old(log) + [s] && PhaseOf(log) == Next(PhaseOf(old(log)), s, |old(log)|)
    {
      PhaseSnoc(log, s);
      log := log + [s];
    }

    /** ssl3_read_change_cipher_spec: accepted only while one is expected. */
    method ReadCcs()
      requires Inv()
      modifies this`changeCipherSpec, this`ccsOk, this`ccsMark
      ensures Inv() && (changeCipherSpec <==> old(changeCipherSpec) || old(ccsOk)) && !ccsOk
      ensures ccsMark == if old(ccsOk) then |log| else old(ccsMark)
    {
      if ccsOk {
        ccsOk := false;
        changeCipherSpec := true;
        ccsMark := |log|;
      }
    }

    /** SSL_clear on entry; it may refuse. */
    method Clear(ok: bool)
      requires Inv() && (state.Before? || state.Established?)
      modifies this`hit, this`state, this`changeCipherSpec, this`ccsOk
      ensures Inv() && (state.Before? || state == old(state))
      ensures Look() == Entered(old(Look()), ok)
    {
      hit := false;
      if !renegotiate && ok {
        state := Before;
        changeCipherSpec, ccsOk := false, false;
      }
    }

    /** SSL_ST_BEFORE, SSL_ST_CONNECT and SSL_ST_RENEGOTIATE: a new handshake. When it cannot be set up, a
        renegotiation is left in SSL_ST_CONNECT, which the next call does not clear. */
    method Start(w: World) returns (go: bool)
      requires Inv() && Starting(state)
      modifies this`renegotiate, this`state, this`log, this`ccsMark, this`staleCcs, this`sendCookie, this`hit
      ensures Inv() && Came(StartOf(dtls, old(Look()), w), old(log), go)
      ensures go == w.setup && (go ==> staleCcs == changeCipherSpec && ccsMark == -1 && (dtls ==> !sendCookie && !hit))
      ensures renegotiate == (old(renegotiate) || old(state).Renegotiate?)
      ensures !go || !dtls ==> hit == old(hit) && sendCookie == old(sendCookie)
      ensures !go ==> ccsMark == old(ccsMark) && staleCcs == old(staleCcs)
      ensures if go then state.ClientHelloDue? && log == []
              else state == (if old(state).Before? then Before else Connecting) && log == old(log)
    {
      if state.Renegotiate? {
        renegotiate := true;
        state := Connecting;
      }
      go := w.setup;
      if go {
        Begin();
      }
    }

    method Begin()
      modifies this`state, this`log, this`ccsMark, this`staleCcs, this`sendCookie, this`hit
      ensures Inv() && state.ClientHelloDue? && log == []
      ensures staleCcs == changeCipherSpec && ccsMark == -1
      ensures if dtls then !sendCookie && !hit else hit == old(hit) && sendCookie == old(sendCookie)
    {
      state := ClientHelloDue;
      log, ccsMark, staleCcs := [], -1, changeCipherSpec;
      if dtls {
        sendCookie := false;
        hit := false;
      }
    }

    method SendHello(w: World) returns (go: bool)
      requires Inv() && state.ClientHelloDue?
      modifies this`log, this`state, this`nextState
      ensures Inv()
      ensures go == (w.ret > 0) && (!go ==> state == old(state) && log == old(log))
      ensures go ==> log == old(log) + [ClientHello] && state == (if dtls && sendCookie then Flush else ServerHelloDue)
      ensures nextState == if go && dtls && sendCookie then ServerHelloDue else old(nextState)
    {
      go := w.ret > 0;
      if go {
        Log(ClientHello);
        if dtls && sendCookie {
          state, nextState := Flush, ServerHelloDue;
        } else {
          state := ServerHelloDue;
        }
      }
    }

    /** ssl3_get_server_hello: whether the session is resumed. It may set hit and still fail. */
    method GetServerHello(w: World) returns (ret: int)
      requires Inv() && state.ServerHelloDue?
      modifies this`hit, this`ccsOk
      ensures Inv()
      ensures dtls && w.verifyRequest && w.ret > 0 ==>
                hit == old(hit) && ccsOk == old(ccsOk) && (ret > 0 <==> !sendCookie)
      ensures !(dtls && w.verifyRequest && w.ret > 0) ==> hit == w.sessionKnown && ret == w.ret
      ensures !(dtls && w.verifyRequest && w.ret > 0) ==>
                ccsOk == (old(ccsOk) || (!dtls && (w.secretCallback || w.sessionKnown)))
    {
      ret := w.ret;
      if ret > 0 && dtls && w.verifyRequest {
        if sendCookie {
          ret := -1;
        }
      } else {
        ccsOk := ccsOk || (!dtls && (w.secretCallback || w.sessionKnown));
        hit := w.sessionKnown;
      }
    }

    method ServerHelloTurn(w: World) returns (go: bool)
      requires Inv() && state.ServerHelloDue?
      modifies this`hit, this`ccsOk, this`log, this`state
      ensures Inv()
      ensures go <==> w.ret > 0 && !(dtls && w.verifyRequest && sendCookie)
      ensures hit == if dtls && w.verifyRequest && w.ret > 0 then old(hit) else w.sessionKnown
      ensures ccsOk == (old(ccsOk) || (!dtls && (w.secretCallback || w.sessionKnown)))
      ensures !go ==> state == old(state) && log == old(log)
      ensures go ==> log == old(log) + [ServerHello]
      ensures go ==>
                state == if !hit then (if dtls then HelloVerifyDue else CertificateDue)
                         else if !dtls && w.ticketExpected then TicketDue
                         else ServerFinishDue
    {
      var ret := GetServerHello(w);
      go := ret > 0;
      if go {
        TakeHello(w.ticketExpected);
      }
    }

    method TakeHello(ticketExpected: bool)
      requires Inv() && state.ServerHelloDue?
      modifies this`log, this`state
      ensures Inv() && log == old(log) + [ServerHello]
      ensures state == if !hit then (if dtls then HelloVerifyDue else CertificateDue)
                       else if !dtls && ticketExpected then TicketDue
                       else ServerFinishDue
    {
      Log(ServerHello);
      if hit {
        state := ServerFinishDue;
        if !dtls && ticketExpected {
          state := TicketDue;
        }
      } else if dtls {
        state := HelloVerifyDue;
      } else {
        state := CertificateDue;
      }
    }

    method HelloVerifyTurn(w: World) returns (go: bool)
      requires Inv() && state.HelloVerifyDue?
      modifies this`sendCookie, this`log, this`state
      ensures Inv() && Came(HelloTurnOf(dtls, old(Look()), w), old(log), go)
      ensures go == (w.ret > 0)
      ensures !go ==> state == old(state) && log == old(log)
      ensures sendCookie == if go then w.cookieAsked else old(sendCookie)
      ensures go ==>
                log == old(log) + [HelloVerify] && state == if w.cookieAsked then ClientHelloDue else CertificateDue
    {
      go := w.ret > 0;
      if go {
        sendCookie := w.cookieAsked;
        Log(HelloVerify);
        state := if sendCookie then ClientHelloDue else CertificateDue;
      }
    }

    /** ssl3_check_finished: with a ticket, the next message tells whether the session is resumed. */
    method CheckFinished(w: World) returns (ret: int)
      ensures ret == 2 <==> w.haveTicket && w.finishedNext && w.ret > 0
      ensures ret <= 0 <==> w.haveTicket && w.ret <= 0
    {
      ret := if !w.haveTicket then 1 else if w.ret <= 0 then w.ret else if w.finishedNext then 2 else 1;
    }

    method CertificateTurn(w: World) returns (go: bool)
      requires Inv() && state.CertificateDue?
      modifies this`hit, this`log, this`state
      ensures Inv()
      ensures !go ==> state == old(state) && log == old(log)
      ensures hit <==> w.haveTicket && w.finishedNext && w.ret > 0
      ensures go <==> hit || ((w.haveTicket ==> w.ret > 0) && (!w.anonymous ==> w.certRet > 0))
      ensures hit ==> log == old(log) && state == (if w.ticketExpected then TicketDue else ServerFinishDue)
      ensures go && !hit ==> log == old(log) + Opt(!w.anonymous, ServerCertificate)
      ensures go && !hit ==> state == if !w.anonymous && w.statusExpected then StatusDue else ServerKeyDue
    {
      var ret := CheckFinished(w);
      go := ret > 0;
      if ret == 2 {
        hit := true;
        state := if w.ticketExpected then TicketDue else ServerFinishDue;
      } else if go {
        go := TakeCertificate(w);
      }
    }

    method TakeCertificate(w: World) returns (go: bool)
      requires Inv() && state.CertificateDue?
      modifies this`log, this`state
      ensures Inv() && go == (!w.anonymous ==> w.certRet > 0)
      ensures !go ==> state == old(state) && log == old(log)
      ensures go ==> log == old(log) + Opt(!w.anonymous, ServerCertificate)
      ensures go ==> state == if !w.anonymous && w.statusExpected then StatusDue else ServerKeyDue
    {
      go := w.anonymous || w.certRet > 0;
      if w.anonymous {
        state := ServerKeyDue;
      } else if go {
        Log(ServerCertificate);
        state := if w.statusExpected then StatusDue else ServerKeyDue;
      }
    }

    method StatusTurn(w: World) returns (go: bool)
      requires Inv() && state.StatusDue?
      modifies this`log, this`state
      ensures Inv() && Came(ServerTurnOf(old(Look()), w), old(log), go)
      ensures go == (w.ret > 0)
      ensures !go ==> state == old(state) && log == old(log)
      ensures go ==> log == old(log) + [CertificateStatus] && state == ServerKeyDue
    {
      go := w.ret > 0;
      if go {
        Log(CertificateStatus);
        state := ServerKeyDue;
      }
    }

    method ServerKeyTurn(w: World) returns (go: bool)
      requires Inv() && state.ServerKeyDue?
      modifies this`log, this`state
      ensures Inv() && Came(ServerTurnOf(old(Look()), w), old(log), go)
      ensures w.ret <= 0 ==> !go && state == old(state) && log == old(log)
      ensures w.ret > 0 ==> log == old(log) + [ServerKeyExchange] && state == RequestDue && go == w.algorithmsOk
    {
      go := w.ret > 0;
      if go {
        Log(ServerKeyExchange);
        state := RequestDue;
        go := w.algorithmsOk;
      }
    }

    method RequestTurn(w: World) returns (go: bool)
      requires Inv() && state.RequestDue?
      modifies this`certRequest, this`log, this`state
      ensures Inv() && Came(ServerTurnOf(old(Look()), w), old(log), go)
      ensures go == (w.ret > 0)
      ensures !go ==> state == old(state) && log == old(log)
      ensures certRequest == if go && w.requested then 1 else 0
      ensures go ==> log == old(log) + [CertificateRequest] && state == DoneDue
    {
      certRequest := 0;
      go := w.ret > 0;
      if go {
        certRequest := if w.requested then 1 else 0;
        Log(CertificateRequest);
        state := DoneDue;
      }
    }

    method DoneTurn(w: World) returns (go: bool)
      requires Inv() && state.DoneDue?
      modifies this`log, this`state
      ensures Inv() && Came(ServerTurnOf(old(Look()), w), old(log), go)
      ensures go == (w.ret > 0)
      ensures !go ==> state == old(state) && log == old(log)
      ensures go ==> log == old(log) + [ServerDone] && state == if certRequest != 0 then ClientCertDue else ClientKeyDue
    {
      go := w.ret > 0;
      if go {
        Log(ServerDone);
        state := if certRequest != 0 then ClientCertDue else ClientKeyDue;
      }
    }

    method ClientCertTurn(w: World) returns (go: bool)
      requires Inv() && state.ClientCertDue?
      modifies this`certRequest, this`log, this`state
      ensures Inv() && Came(ClientTurnOf(old(Look()), w), old(log), go)
      ensures go == (w.ret > 0)
      ensures !go ==> state == old(state) && log == old(log)
      ensures certRequest == if w.noCertificate then 2 else old(certRequest)
      ensures go ==> log == old(log) + [ClientCertificate] && state == ClientKeyDue
    {
      if w.noCertificate {
        certRequest := 2;
      }
      go := w.ret > 0;
      if go {
        Log(ClientCertificate);
        state := ClientKeyDue;
      }
    }

    method ClientKeyTurn(w: World) returns (go: bool)
      requires Inv() && state.ClientKeyDue?
      modifies this`log, this`state, this`changeCipherSpec
      ensures Inv()
      ensures go == (w.ret > 0)
      ensures !go ==> state == old(state) && log == old(log)
      ensures go ==> log == old(log) + [ClientKeyExchange] && state == if certRequest == 1 then VerifyDue else ChangeDue
      ensures changeCipherSpec == (old(changeCipherSpec) && !(go && state.ChangeDue?))
    {
      go := w.ret > 0;
      if go {
        Log(ClientKeyExchange);
        if certRequest == 1 {
          state := VerifyDue;
        } else {
          state := ChangeDue;
          changeCipherSpec := false;
        }
      }
    }

    method VerifyTurn(w: World) returns (go: bool)
      requires Inv() && state.VerifyDue?
      modifies this`log, this`state, this`changeCipherSpec
      ensures Inv() && Came(ClientTurnOf(old(Look()), w), old(log), go)
      ensures go == (w.ret > 0)
      ensures !go ==> state == old(state) && log == old(log)
      ensures go ==> log == old(log) + [CertificateVerify] && state == ChangeDue
      ensures changeCipherSpec == (old(changeCipherSpec) && !go)
    {
      go := w.ret > 0;
      if go {
        Log(CertificateVerify);
        state := ChangeDue;
        changeCipherSpec := false;
      }
    }

    method ChangeTurn(w: World) returns (go: bool)
      requires Inv() && state.ChangeDue?
      modifies this`log, this`state
      ensures Inv() && Came(ClientTurnOf(old(Look()), w), old(log), go)
      ensures w.ret <= 0 ==> !go && state == old(state) && log == old(log)
      ensures w.ret > 0 ==> log == old(log) + [ClientCcs] && state == FinishDue && go == w.keysOk
    {
      go := w.ret > 0;
      if go {
        Log(ClientCcs);
        state := FinishDue;
        go := w.keysOk;
      }
    }

    /** ssl3_send_client_finished returns a positive value once the message is fully written. */
    method FinishTurn(w: World) returns (go: bool)
      requires Inv() && state.FinishDue?
      modifies this`ccsOk, this`log, this`state, this`nextState
      ensures Inv()
      ensures go == (w.ret > 0) && (!go ==> state == old(state) && log == old(log))
      ensures go ==> log == old(log) + [ClientFinished] && state == Flush
      ensures go ==> nextState == if hit then Established else if w.ticketExpected then TicketDue else ServerFinishDue
      ensures ccsOk == (old(ccsOk) || (go && !dtls)) && (!go ==> nextState == old(nextState))
    {
      go := w.ret > 0;
      if go {
        if !dtls {
          ccsOk := true;
        }
        if hit {
          FinishResumed();
        } else {
          FinishFull(w.ticketExpected);
        }
      }
    }

    method FinishResumed()
      requires Inv() && state.FinishDue? && hit
      modifies this`log, this`state, this`nextState
      ensures Inv()
      ensures log == old(log) + [ClientFinished] && state == Flush && nextState == Established
    {
      Log(ClientFinished);
      state, nextState := Flush, Established;
    }

    method FinishFull(ticketExpected: bool)
      requires Inv() && state.FinishDue? && !hit
      modifies this`log, this`state, this`nextState
      ensures Inv()
      ensures log == old(log) + [ClientFinished] && state == Flush
      ensures nextState == if ticketExpected then TicketDue else ServerFinishDue
    {
      Log(ClientFinished);
      state, nextState := Flush, if ticketExpected then TicketDue else ServerFinishDue;
    }

    method TicketTurn(w: World) returns (go: bool)
      requires Inv() && state.TicketDue?
      modifies this`log, this`state
      ensures Inv() && Came(LastTurnOf(old(Look()), |old(log)|, w), old(log), go)
      ensures go == (w.ret > 0)
      ensures !go ==> state == old(state) && log == old(log)
      ensures go ==> log == old(log) + [SessionTicket] && state == ServerFinishDue
    {
      go := w.ret > 0;
      if go {
        Log(SessionTicket);
        state := ServerFinishDue;
      }
    }

    /** ssl3_get_server_finished: only after change cipher spec, and only if the digest is right. */
    method GetServerFinished(w: World) returns (ret: int)
      requires Inv() && Started()
      modifies this`changeCipherSpec
      ensures Inv() && (ret > 0 <==> w.ret > 0 && old(changeCipherSpec) && w.digestMatches)
      ensures changeCipherSpec == (old(changeCipherSpec) && w.ret <= 0)
      ensures ret > 0 ==> ccsMark >= 0 || staleCcs
    {
      ret := w.ret;
      if ret > 0 {
        if !changeCipherSpec {
          ret := 0;
        } else {
          changeCipherSpec := false;
          if !w.digestMatches {
            ret := 0;
          }
        }
      }
    }

    method ServerFinishTurn(w: World) returns (go: bool)
      requires Inv() && state.ServerFinishDue?
      modifies this`changeCipherSpec, this`ccsOk, this`ccsMark, this`log, this`resumed, this`state
      ensures Inv()
      ensures go <==> w.ret > 0 && (old(changeCipherSpec) || w.ccs) && w.digestMatches
      ensures ccsMark == (if w.ccs then |old(log)| else old(ccsMark)) && ccsOk == !w.ccs
      ensures changeCipherSpec == ((old(changeCipherSpec) || w.ccs) && w.ret <= 0)
      ensures !go ==> state == old(state) && log == old(log) && resumed == old(resumed)
      ensures go ==> log == old(log) + [Proper(ccsMark)] && resumed == hit
      ensures go ==> state == if hit then ChangeDue else Established
    {
      ghost var seen;
      go, seen := AwaitFinished(w);
      if go {
        Log(seen);
        resumed := hit;
        state := if hit then ChangeDue else Established;
      }
    }

    /** Reads until the server's Finished, and keeps what was the case when it came. */
    method AwaitFinished(w: World) returns (ok: bool, ghost seen: Step)
      requires Inv() && state.ServerFinishDue?
      modifies this`changeCipherSpec, this`ccsOk, this`ccsMark
      ensures Inv() && seen == ServerFinished(old(changeCipherSpec) || w.ccs, w.digestMatches, ccsMark)
      ensures ccsOk == !w.ccs && changeCipherSpec == ((old(changeCipherSpec) || w.ccs) && w.ret <= 0)
      ensures ok ==> Counts(seen, if hit then -1 else PhaseOf(log).keys, |log|)
      ensures ok ==> ccsMark >= 0 || staleCcs
      ensures ok <==> w.ret > 0 && (old(changeCipherSpec) || w.ccs) && w.digestMatches
      ensures ccsMark == if w.ccs then |log| else old(ccsMark)
    {
      ccsOk := true;
      if w.ccs {
        ReadCcs();
      }
      seen := ServerFinished(changeCipherSpec, w.digestMatches, ccsMark);
      var ret := GetServerFinished(w);
      ok := ret > 0;
    }

    method FlushTurn(w: World) returns (go: bool)
      requires Inv() && state.Flush?
      modifies this`resumed, this`state
      ensures Inv() && Came(SendTurnOf(dtls, old(Look()), w), old(log), go)
      ensures log == old(log) && go == w.flushed
      ensures resumed == if go || (dtls && !w.flushRetry) then hit else old(resumed)
      ensures state == if go || (dtls && !w.flushRetry) then old(nextState) else Flush
    {
      go := w.flushed;
      if go || (dtls && !w.flushRetry) {
        resumed := hit;
        state := nextState;
      }
    }

    method HelloTurn(w: World) returns (go: bool)
      requires Inv() && Greets(state)
      modifies this`hit, this`ccsOk, this`sendCookie, this`log, this`state, this`nextState
      ensures Inv() && Came(HelloTurnOf(dtls, old(Look()), w), old(log), go)
    {
      if state.ClientHelloDue? {
        go := SendHello(w);
        HelloExact(dtls, old(Look()), Look(), w, go);
      } else if state.HelloVerifyDue? {
        go := HelloVerifyTurn(w);
      } else {
        go := ServerHelloTurn(w);
        ServerHelloExact(dtls, old(Look()), Look(), w, go);
      }
    }

    method ServerTurn(w: World) returns (go: bool)
      requires Inv() && ServerSpeaks(state)
      modifies this`hit, this`certRequest, this`log, this`state
      ensures Inv() && Came(ServerTurnOf(old(Look()), w), old(log), go)
    {
      match state
      case CertificateDue =>
        go := CertificateTurn(w);
        CertificateExact(old(Look()), Look(), w, go);
      case StatusDue => go := StatusTurn(w);
      case ServerKeyDue => go := ServerKeyTurn(w);
      case RequestDue => go := RequestTurn(w);
      case DoneDue => go := DoneTurn(w);
    }

    method ClientTurn(w: World) returns (go: bool)
      requires Inv() && ClientSpeaks(state)
      modifies this`certRequest, this`log, this`state, this`changeCipherSpec
      ensures Inv() && Came(ClientTurnOf(old(Look()), w), old(log), go)
    {
      match state
      case ClientCertDue => go := ClientCertTurn(w);
      case ClientKeyDue =>
        go := ClientKeyTurn(w);
        ClientKeyExact(old(Look()), Look(), w, go);
      case VerifyDue => go := VerifyTurn(w);
      case ChangeDue => go := ChangeTurn(w);
    }

    method SendTurn(w: World) returns (go: bool)
      requires Inv() && Sends(state)
      modifies this`ccsOk, this`log, this`resumed, this`state, this`nextState
      ensures Inv() && Came(SendTurnOf(dtls, old(Look()), w), old(log), go)
    {
      if state.FinishDue? {
        go := FinishTurn(w);
        FinishExact(dtls, old(Look()), Look(), w, go);
      } else {
        go := FlushTurn(w);
      }
    }

    method LastTurn(w: World) returns (go: bool)
      requires Inv() && Ends(state)
      modifies this`changeCipherSpec, this`ccsOk, this`ccsMark, this`log, this`resumed, this`state
      ensures Inv() && Came(LastTurnOf(old(Look()), |old(log)|, w), old(log), go)
    {
      if state.ServerFinishDue? {
        go := ServerFinishTurn(w);
        ServerFinishExact(old(Look()), Look(), |old(log)|, w, go);
      } else {
        go := TicketTurn(w);
      }
    }

    /** One turn of the loop in ssl3_connect. */
    method Turn(w: World) returns (go: bool)
      requires Inv() && !state.Established?
      modifies this
      ensures Inv() && Came(TurnOf(dtls, old(Look()), |old(log)|, w), old(log), go)
    {
      hide StartOf, HelloTurnOf, ServerTurnOf, ClientTurnOf, SendTurnOf, LastTurnOf;
      if w.ccs && !state.ServerFinishDue? {
        ReadCcs();
      }
      if Starting(state) {
        go := Start(w);
      } else if Greets(state) {
        go := HelloTurn(w);
      } else if ServerSpeaks(state) {
        go := ServerTurn(w);
      } else if ClientSpeaks(state) {
        go := ClientTurn(w);
      } else if Sends(state) {
        go := SendTurn(w);
      } else {
        go := LastTurn(w);
      }
    }

    /** On entry, unless a handshake is under way. */
    method Enter(cleared: bool)
      requires Inv()
      modifies this`hit, this`state, this`changeCipherSpec, this`ccsOk
      ensures Inv() && Look() == Entered(old(Look()), cleared)
    {
      if state.Established? || state.Before? {
        Clear(cleared);
      }
    }

    /** The loop body: a turn, or the end of an established handshake. */
    method Iterate(worlds: seq<World>, i: nat) returns (go: bool, ret: int)
      requires Inv() && i < |worlds|
      modifies this
      ensures Inv() && (ret == 1 ==> state.Established?) && (go ==> ret == -1)
      ensures Looped(dtls, old(Look()), old(log), worlds, i, go, Ended(Look(), log, ret))
    {
      ret := -1;
      if state.Established? {
        go := false;
        if worlds[i].transcriptFreed {
          renegotiate := false;
          ret := 1;
        }
      } else {
        go := Turn(worlds[i]);
        TurnLoops(dtls, old(Look()), old(log), worlds, i);
      }
    }

    /** ssl3_connect, for any behaviour of the outside. */
    method Connect(worlds: seq<World>, cleared: bool) returns (ret: int)
      requires Inv()
      modifies this
      ensures Inv() && (ret == 1 ==> state.Established?)
      ensures Ended(Look(), log, ret) == LoopOf(dtls, Entered(old(Look()), cleared), old(log), worlds, 0)
    {
      Enter(cleared);
      ret := -1;
      var i, go := 0, true;
      ghost var all := LoopOf(dtls, Look(), log, worlds, 0);
      while i < |worlds| && go
        invariant Inv() && (ret == 1 ==> state.Established?) && i <= |worlds| && (go ==> ret == -1)
        invariant all == if go then LoopOf(dtls, Look(), log, worlds, i) else Ended(Look(), log, ret)
        decreases |worlds| - i
      {
        go, ret := Iterate(worlds, i);
        i := i + 1;
      }
    }
  }

  /** An outside that resumes the session. */
  predicate Resuming(w: World) {
    && w.ret > 0 && w.setup && w.sessionKnown && !w.verifyRequest && !w.ticketExpected && w.keysOk
    && w.digestMatches && w.flushed
  }

  method GreetResuming(c: Client, w: World)
    requires c.Inv() && c.state.ClientHelloDue? && c.log == [] && (c.dtls ==> !c.sendCookie) && Resuming(w)
    modifies c`log, c`state, c`nextState, c`hit, c`ccsOk
    ensures c.Inv() && c.state.ServerFinishDue? && c.hit && c.log == [ClientHello, ServerHello]
  {
    var go := c.SendHello(w);
    go := c.ServerHelloTurn(w);
  }

  method FinishResuming(c: Client, w: World)
    requires c.Inv() && c.state.ServerFinishDue? && c.hit && Resuming(w) && (c.changeCipherSpec || w.ccs)
    modifies c`changeCipherSpec, c`ccsOk, c`ccsMark, c`log, c`resumed, c`state, c`nextState
    ensures c.Inv() && c.state.Established? && c.resumed && (!c.dtls ==> c.ccsOk)
    ensures c.log == old(c.log) + [Proper(if w.ccs then |old(c.log)| else old(c.ccsMark))]
                     + [ClientCcs] + [ClientFinished]
  {
    var go := c.ServerFinishTurn(w);
    go := c.ChangeTurn(w);
    go := c.FinishTurn(w);
    go := c.FlushTurn(w);
  }

  /** A resumed handshake, with change cipher spec set already or brought by the outside. */
  method Resume(c: Client, w: World)
    requires c.Inv() && (c.state.Before? || c.state.Renegotiate?) && Resuming(w) && (c.changeCipherSpec || w.ccs)
    modifies c
    ensures c.Inv() && c.state.Established? && c.resumed && (!c.dtls ==> c.ccsOk)
    ensures c.staleCcs == old(c.changeCipherSpec)
    ensures c.log == [ClientHello, ServerHello, Proper(if w.ccs then 2 else -1), ClientCcs, ClientFinished]
  {
    var go := c.Start(w);
    GreetResuming(c, w);
    FinishResuming(c, w);
  }

  /** The exception in a resumed handshake is real: with change cipher spec still set when a renegotiation
      begins, the session can be resumed without another being read. */
  method StaleCcsSuffices(c: Client, w: World)
    requires c.Inv() && c.state.Renegotiate? && c.changeCipherSpec && Resuming(w) && !w.ccs
    modifies c
    ensures c.Inv() && c.state.Established? && c.resumed && c.staleCcs
    ensures c.log == [ClientHello, ServerHello, Proper(-1), ClientCcs, ClientFinished]
  {
    Resume(c, w);
  }

  /** And it is reached: a new TLS client resumes a session, which leaves change cipher spec expected; one more
      is taken, and the renegotiation after it is established without reading any. */
  method StaleCcsReached(first: World, later: World) returns (c: Client)
    requires Resuming(first) && first.ccs && Resuming(later) && !later.ccs
    ensures c.Inv() && c.state.Established? && c.resumed && c.staleCcs
    ensures c.log == [ClientHello, ServerHello, Proper(-1), ClientCcs, ClientFinished]
  {
    c := new Client(false);
    Resume(c, first);
    c.state := Renegotiate;
    c.ReadCcs();
    StaleCcsSuffices(c, later);
  }

  /** Any number of calls, with requests to renegotiate in between. */
  method Run(c: Client, calls: seq<(seq<World>, bool, bool)>)
    requires c.Inv()
    modifies c
    ensures c.Inv()
  {
    for i := 0 to |calls|
      invariant c.Inv()
    {
      if calls[i].2 && c.state.Established? {
        c.state := Renegotiate;
      }
      var _ := c.Connect(calls[i].0, calls[i].1);
    }
  }
}
