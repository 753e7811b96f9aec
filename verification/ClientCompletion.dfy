/** Every client handshake comes to its end, on the path that the outside tells, when no call fails. */
module ClientCompletion {
  import opened ClientHandshake

  /** A full handshake; a session that the server's hello resumes; or one that is resumed by ticket, so that
      the server's Finished (or a new ticket) comes in place of its certificate. */
  datatype Route = Full | Known | InPlace

  /** What the outside has in store. */
  datatype Plan = Plan(dtls: bool, route: Route, cookie: bool, anonymous: bool, status: bool, requested: bool,
                       noCertificate: bool, ticket: bool)

  /** The steps of a first round that asks for a cookie, and those of every handshake. */
  function CookieRound(p: Plan): (r: seq<Step>) {
    if p.dtls && p.cookie then [ClientHello, ServerHello, HelloVerify] else []
  }

  function PathOf(p: Plan): (r: Path) {
    Path(CookieRound(p) + [ClientHello, ServerHello] + Opt(p.dtls && !p.route.Known?, HelloVerify),
         p.anonymous, p.status, p.requested, p.requested && !p.noCertificate)
  }

  /** A DTLS client takes no new ticket when the server's hello resumes the session. */
  predicate TicketComes(p: Plan) {
    p.ticket && !(p.dtls && p.route.Known?)
  }

  /** The handshake of the plan. */
  function Handshake(p: Plan, readAt: int): (r: seq<Step>) {
    if p.route.Full? then FullHandshake(PathOf(p), p.ticket, readAt)
    else ResumedHandshake(PathOf(p), TicketComes(p), readAt)
  }

  /** What a client keeps, without the account of change cipher spec. */
  datatype Place = Place(state: State, nextState: State, hit: bool, sendCookie: bool, certRequest: nat, resumed: bool)

  function At(u: View): (a: Place) {
    Place(u.state, u.nextState, u.hit, u.sendCookie, u.certRequest, u.resumed)
  }

  /** In this turn nothing fails that the turn asks for, what it is told is as planned, and change cipher
      spec comes before the server's Finished. */
  predicate Suits(p: Plan, u: View, w: World) {
    (u.state.ServerFinishDue? ==> u.changeCipherSpec || w.ccs) && Agrees(p, At(u), w)
  }

  predicate Agrees(p: Plan, u: Place, w: World) {
    match u.state
    case Before => w.setup
    case ServerHelloDue => w.ret > 0 && GreetsAsPlanned(p, u.sendCookie, w)
    case HelloVerifyDue => w.ret > 0 && w.cookieAsked == (p.cookie && !u.sendCookie)
    case CertificateDue =>
      if p.route.InPlace? then w.haveTicket && w.finishedNext && w.ret > 0 && w.ticketExpected == p.ticket
      else (w.haveTicket ==> w.ret > 0 && !w.finishedNext) && w.anonymous == p.anonymous
           && (!p.anonymous ==> w.certRet > 0 && w.statusExpected == p.status)
    case ServerKeyDue => w.ret > 0 && w.algorithmsOk
    case RequestDue => w.ret > 0 && w.requested == p.requested
    case ClientCertDue => w.ret > 0 && w.noCertificate == p.noCertificate
    case ChangeDue => w.ret > 0 && w.keysOk
    case FinishDue => w.ret > 0 && (p.route.Full? ==> w.ticketExpected == p.ticket)
    case ServerFinishDue => w.ret > 0 && w.digestMatches
    case Flush => w.flushed
    case Established => w.transcriptFreed
    case Renegotiate => false
    case Connecting => false
    case _ => w.ret > 0
  }

  predicate GreetsAsPlanned(p: Plan, sendCookie: bool, w: World) {
    if p.dtls && p.cookie && !sendCookie then w.verifyRequest || !w.sessionKnown
    else if p.route.Known? then w.sessionKnown && !(p.dtls && w.verifyRequest) && w.ticketExpected == p.ticket
    else if p.dtls && w.verifyRequest then !sendCookie
    else !w.sessionKnown
  }

  /** Every turn from turn i on suits, as long as the outside lasts. */
  ghost predicate Obliging(p: Plan, u: View, log: seq<Step>, worlds: seq<World>, i: nat)
    decreases |worlds| - i
  {
    i >= |worlds| ||
    (&& Suits(p, u, worlds[i])
     && (u.state.Established? ||
         var t := TurnOf(p.dtls, u, |log|, worlds[i]);
         Obliging(p, t.view, Extended(log, t.entry), worlds, i + 1)))
  }

  /** The server's Finished between the steps before and after it. */
  ghost predicate Around(log: seq<Step>, before: seq<Step>, after: seq<Step>) {
    exists r :: log == before + [Proper(r)] + after
  }

  /** Where a handshake stands that has gone as planned so far. */
  ghost predicate Doing(p: Plan, u: Place, log: seq<Step>) {
    && (u.sendCookie ==> p.dtls && p.cookie)
    && match u.state
       case Before => !u.hit && !u.sendCookie
       case ClientHelloDue => !u.hit && log == FirstRound(p, u)
       case ServerHelloDue => !u.hit && log == FirstRound(p, u) + [ClientHello]
       case HelloVerifyDue =>
         && !u.hit && p.dtls && (p.route.Known? ==> p.cookie && !u.sendCookie)
         && log == FirstRound(p, u) + [ClientHello] + [ServerHello]
       case CertificateDue => !u.hit && !p.route.Known? && log == PathOf(p).hellos
       case StatusDue => ServerSends(p, u) && !p.anonymous && p.status && log == PathOf(p).hellos + [ServerCertificate]
       case ServerKeyDue => ServerSends(p, u) && log == PathOf(p).hellos + Certificates(PathOf(p))
       case RequestDue =>
         ServerSends(p, u) && log == PathOf(p).hellos + Certificates(PathOf(p)) + [ServerKeyExchange]
       case DoneDue =>
         && ServerSends(p, u) && u.certRequest == (if p.requested then 1 else 0)
         && log == PathOf(p).hellos + Certificates(PathOf(p)) + [ServerKeyExchange] + [CertificateRequest]
       case ClientCertDue => ServerSends(p, u) && p.requested && u.certRequest == 1 && log == ServerFlight(PathOf(p))
       case ClientKeyDue =>
         && ServerSends(p, u) && u.certRequest == (if !p.requested then 0 else if p.noCertificate then 2 else 1)
         && log == ServerFlight(PathOf(p)) + Opt(p.requested, ClientCertificate)
       case VerifyDue =>
         && ServerSends(p, u) && PathOf(p).verify
         && log == ServerFlight(PathOf(p)) + Opt(p.requested, ClientCertificate) + [ClientKeyExchange]
       case ChangeDue => if u.hit then ServerIsDone(p, log, []) else p.route.Full? && log == KeysSent(PathOf(p))
       case FinishDue =>
         if u.hit then ServerIsDone(p, log, [ClientCcs]) else p.route.Full? && log == KeysSent(PathOf(p)) + [ClientCcs]
       case Flush =>
         if u.nextState.ServerHelloDue? then !u.hit && u.sendCookie && log == FirstRound(p, u) + [ClientHello]
         else if u.hit then u.nextState.Established? && ServerIsDone(p, log, [ClientCcs, ClientFinished])
         else u.nextState == (if p.ticket then TicketDue else ServerFinishDue) && ClientIsDone(p, log)
       case TicketDue =>
         TicketComes(p) && if u.hit then !p.route.Full? && log == PathOf(p).hellos else ClientIsDone(p, log)
       case ServerFinishDue =>
         if u.hit then !p.route.Full? && log == PathOf(p).hellos + Opt(TicketComes(p), SessionTicket)
         else && p.route.Full?
              && log == KeysSent(PathOf(p)) + [ClientCcs] + [ClientFinished] + Opt(p.ticket, SessionTicket)
       case Established => u.resumed == !p.route.Full? && exists r :: log == Handshake(p, r)
       case Renegotiate => false
       case Connecting => false
  }

  function FirstRound(p: Plan, u: Place): (r: seq<Step>) {
    if u.sendCookie then CookieRound(p) else []
  }

  predicate ServerSends(p: Plan, u: Place) {
    !u.hit && p.route.Full?
  }

  ghost predicate ServerIsDone(p: Plan, log: seq<Step>, after: seq<Step>) {
    !p.route.Full? && Around(log, PathOf(p).hellos + Opt(TicketComes(p), SessionTicket), after)
  }

  predicate ClientIsDone(p: Plan, log: seq<Step>) {
    p.route.Full? && log == KeysSent(PathOf(p)) + [ClientCcs] + [ClientFinished]
  }

  const TURNS: nat := 23

  /** A bound for the turns that are left. */
  function Left(p: Plan, u: Place): (n: nat)
    ensures n < TURNS
  {
    match u.state
    case Established => 0
    case ServerFinishDue => if u.hit then 4 else 1
    case TicketDue => if u.hit then 5 else 2
    case Flush => if u.nextState.ServerHelloDue? then 16 else if u.hit then 1 else 3
    case FinishDue => if u.hit then 2 else 4
    case ChangeDue => if u.hit then 3 else 5
    case VerifyDue => 6
    case ClientKeyDue => 7
    case ClientCertDue => 8
    case DoneDue => 9
    case RequestDue => 10
    case ServerKeyDue => 11
    case StatusDue => 12
    case CertificateDue => 13
    case HelloVerifyDue => if p.cookie && !u.sendCookie then 18 else 14
    case ServerHelloDue => if p.cookie && !u.sendCookie then 19 else 15
    case ClientHelloDue => if p.cookie && !u.sendCookie then 20 else 17
    case _ => 21
  }

  /** The turn t has gone as planned and left fewer turns. */
  ghost predicate Advances(p: Plan, u: View, log: seq<Step>, t: Turned) {
    t.go && Doing(p, At(t.view), Extended(log, t.entry)) && Left(p, At(t.view)) < Left(p, At(u))
  }

  lemma StartAdvances(p: Plan, u: View, log: seq<Step>, w: World)
    requires Starting(u.state) && Doing(p, At(u), log) && Suits(p, u, w)
    ensures Advances(p, u, log, StartOf(p.dtls, u, w))
  {
  }

  lemma HellosSpelled(p: Plan)
    ensures p.dtls && p.cookie ==> [ClientHello] + [ServerHello] + [HelloVerify] == CookieRound(p)
    ensures PathOf(p).hellos
         == CookieRound(p) + [ClientHello] + [ServerHello] + Opt(p.dtls && !p.route.Known?, HelloVerify)
  {
    var r := CookieRound(p);
    assert r + [ClientHello, ServerHello] == r + [ClientHello] + [ServerHello];
  }

  lemma NoMore(log: seq<Step>)
    ensures log + [] == log && [] + log == log
  {
  }

  lemma ClientHelloAdvances(p: Plan, u: View, log: seq<Step>, w: World)
    requires u.state.ClientHelloDue? && Doing(p, At(u), log) && Suits(p, u, w)
    ensures Advances(p, u, log, HelloTurnOf(p.dtls, u, w))
  {
  }

  lemma ResumedHelloAdvances(p: Plan, u: View, log: seq<Step>, w: World)
    requires u.state.ServerHelloDue? && Doing(p, At(u), log) && Suits(p, u, w)
    requires p.route.Known? && !(p.dtls && w.verifyRequest) && (p.dtls && p.cookie ==> u.sendCookie)
    ensures Advances(p, u, log, ServerHelloOf(p.dtls, u, w))
  {
    HellosSpelled(p);
    NoMore(log + [ServerHello]);
    assert log + [ServerHello] == PathOf(p).hellos;
    assert ServerHelloOf(p.dtls, u, w).view.hit;
  }

  lemma TlsHelloAdvances(p: Plan, u: View, log: seq<Step>, w: World)
    requires u.state.ServerHelloDue? && Doing(p, At(u), log) && Suits(p, u, w) && !p.route.Known? && !p.dtls
    ensures Advances(p, u, log, ServerHelloOf(p.dtls, u, w))
  {
    HellosSpelled(p);
    NoMore(log + [ServerHello]);
    assert log + [ServerHello] == PathOf(p).hellos;
    assert ServerHelloOf(p.dtls, u, w).view.state == CertificateDue;
  }

  lemma DtlsHelloTold(p: Plan, u: View, log: seq<Step>, w: World)
    requires u.state.ServerHelloDue? && Doing(p, At(u), log) && Suits(p, u, w) && p.dtls
    requires !p.route.Known? || w.verifyRequest || (p.cookie && !u.sendCookie)
    ensures var t := ServerHelloOf(p.dtls, u, w);
            && t.go && t.entry == Completed(ServerHello) && t.view.state.HelloVerifyDue? && !t.view.hit
            && t.view.sendCookie == u.sendCookie && Left(p, At(t.view)) < Left(p, At(u))
            && (u.sendCookie ==> p.cookie) && (p.route.Known? ==> p.cookie && !u.sendCookie)
            && log == FirstRound(p, At(u)) + [ClientHello]
  {
  }

  lemma DtlsHelloAdvances(p: Plan, u: View, log: seq<Step>, w: World)
    requires u.state.ServerHelloDue? && Doing(p, At(u), log) && Suits(p, u, w) && p.dtls
    requires !p.route.Known? || w.verifyRequest || (p.cookie && !u.sendCookie)
    ensures Advances(p, u, log, ServerHelloOf(p.dtls, u, w))
  {
    hide Doing, ServerHelloOf, Agrees, Left;
    DtlsHelloTold(p, u, log, w);
    VerifyComes(p, At(ServerHelloOf(p.dtls, u, w).view), log + [ServerHello]);
  }

  lemma VerifyComes(p: Plan, a: Place, log: seq<Step>)
    requires a.state.HelloVerifyDue? && !a.hit && p.dtls && (p.route.Known? ==> p.cookie && !a.sendCookie)
    requires (a.sendCookie ==> p.cookie) && log == FirstRound(p, a) + [ClientHello] + [ServerHello]
    ensures Doing(p, a, log)
  {
  }

  lemma ServerHelloAdvances(p: Plan, u: View, log: seq<Step>, w: World)
    requires u.state.ServerHelloDue? && Doing(p, At(u), log) && Suits(p, u, w)
    ensures Advances(p, u, log, ServerHelloOf(p.dtls, u, w))
  {
    if p.route.Known? && !(p.dtls && w.verifyRequest) && (p.dtls && p.cookie ==> u.sendCookie) {
      ResumedHelloAdvances(p, u, log, w);
    } else if p.dtls {
      DtlsHelloAdvances(p, u, log, w);
    } else {
      TlsHelloAdvances(p, u, log, w);
    }
  }

  lemma HelloVerifyAdvances(p: Plan, u: View, log: seq<Step>, w: World)
    requires u.state.HelloVerifyDue? && Doing(p, At(u), log) && Suits(p, u, w)
    ensures Advances(p, u, log, HelloTurnOf(p.dtls, u, w))
  {
    HellosSpelled(p);
    NoMore([ClientHello]);
  }

  lemma InPlaceAdvances(p: Plan, u: View, log: seq<Step>, w: World)
    requires u.state.CertificateDue? && Doing(p, At(u), log) && Suits(p, u, w) && p.route.InPlace?
    ensures Advances(p, u, log, CertificateOf(u, w))
  {
    NoMore(log);
  }

  lemma CertificateTold(p: Plan, u: View, w: World)
    requires u.state.CertificateDue? && !u.hit && p.route.Full? && Agrees(p, At(u), w)
    ensures var t := CertificateOf(u, w);
            && t.go && t.view == u.(state := if !p.anonymous && p.status then StatusDue else ServerKeyDue)
            && t.entry == if p.anonymous then Nothing else Completed(ServerCertificate)
  {
  }

  lemma AtCertificate(p: Plan, a: Place, log: seq<Step>)
    requires a.state.CertificateDue? && Doing(p, a, log)
    ensures !a.hit && (a.sendCookie ==> p.dtls && p.cookie) && !p.route.Known? && log == PathOf(p).hellos
  {
  }

  lemma CertificateAdvances(p: Plan, u: View, log: seq<Step>, w: World)
    requires u.state.CertificateDue? && Doing(p, At(u), log) && Suits(p, u, w) && !p.route.InPlace?
    ensures Advances(p, u, log, CertificateOf(u, w))
  {
    hide Doing, CertificateOf, Agrees;
    AtCertificate(p, At(u), log);
    CertificateTold(p, u, w);
    NoMore(log);
    NoMore([ServerCertificate]);
    var t := CertificateOf(u, w);
    ServerGoesOn(p, At(t.view), Extended(log, t.entry));
  }

  lemma ServerGoesOn(p: Plan, a: Place, log: seq<Step>)
    requires (a.sendCookie ==> p.dtls && p.cookie) && ServerSends(p, a)
    requires if a.state.StatusDue? then !p.anonymous && p.status && log == PathOf(p).hellos + [ServerCertificate]
             else a.state.ServerKeyDue? && log == PathOf(p).hellos + Certificates(PathOf(p))
    ensures Doing(p, a, log)
  {
  }

  lemma StatusAdvances(p: Plan, u: View, log: seq<Step>, w: World)
    requires u.state.StatusDue? && Doing(p, At(u), log) && Suits(p, u, w)
    ensures Advances(p, u, log, ServerTurnOf(u, w))
  {
    var q := PathOf(p);
    assert q.hellos + [ServerCertificate] + [CertificateStatus] == q.hellos + [ServerCertificate, CertificateStatus];
  }

  lemma ServerKeyAdvances(p: Plan, u: View, log: seq<Step>, w: World)
    requires u.state.ServerKeyDue? && Doing(p, At(u), log) && Suits(p, u, w)
    ensures Advances(p, u, log, ServerTurnOf(u, w))
  {
  }

  lemma RequestAdvances(p: Plan, u: View, log: seq<Step>, w: World)
    requires u.state.RequestDue? && Doing(p, At(u), log) && Suits(p, u, w)
    ensures Advances(p, u, log, ServerTurnOf(u, w))
  {
  }

  lemma DoneAdvances(p: Plan, u: View, log: seq<Step>, w: World)
    requires u.state.DoneDue? && Doing(p, At(u), log) && Suits(p, u, w)
    ensures Advances(p, u, log, ServerTurnOf(u, w))
  {
    var q := PathOf(p);
    var told := q.hellos + Certificates(q);
    assert told + [ServerKeyExchange] + [CertificateRequest] + [ServerDone] == ServerFlight(q);
    NoMore(ServerFlight(q));
  }

  lemma ClientCertAdvances(p: Plan, u: View, log: seq<Step>, w: World)
    requires u.state.ClientCertDue? && Doing(p, At(u), log) && Suits(p, u, w)
    ensures Advances(p, u, log, ClientTurnOf(u, w))
  {
  }

  lemma ClientKeyTold(p: Plan, u: View, w: World)
    requires u.state.ClientKeyDue? && Agrees(p, At(u), w)
    requires u.certRequest == if !p.requested then 0 else if p.noCertificate then 2 else 1
    ensures var t := ClientTurnOf(u, w);
            && t.go && t.entry == Completed(ClientKeyExchange)
            && t.view == u.(state := if p.requested && !p.noCertificate then VerifyDue else ChangeDue,
                            changeCipherSpec := t.view.changeCipherSpec)
  {
  }

  lemma AtClientKey(p: Plan, a: Place, log: seq<Step>)
    requires a.state.ClientKeyDue? && Doing(p, a, log)
    ensures ServerSends(p, a) && (a.sendCookie ==> p.dtls && p.cookie)
    ensures a.certRequest == if !p.requested then 0 else if p.noCertificate then 2 else 1
    ensures log == ServerFlight(PathOf(p)) + Opt(p.requested, ClientCertificate)
  {
  }

  lemma ClientKeyAdvances(p: Plan, u: View, log: seq<Step>, w: World)
    requires u.state.ClientKeyDue? && Doing(p, At(u), log) && Suits(p, u, w)
    ensures Advances(p, u, log, ClientTurnOf(u, w))
  {
    hide Doing, ClientTurnOf, Agrees, ServerFlight;
    AtClientKey(p, At(u), log);
    ClientKeyTold(p, u, w);
    KeysAreOut(p, At(ClientTurnOf(u, w).view), log + [ClientKeyExchange]);
  }

  lemma KeysAreOut(p: Plan, a: Place, log: seq<Step>)
    requires (a.sendCookie ==> p.dtls && p.cookie) && ServerSends(p, a)
    requires log == ServerFlight(PathOf(p)) + Opt(p.requested, ClientCertificate) + [ClientKeyExchange]
    requires a.state == if PathOf(p).verify then VerifyDue else ChangeDue
    ensures Doing(p, a, log)
  {
    NoMore(log);
  }

  lemma VerifyAdvances(p: Plan, u: View, log: seq<Step>, w: World)
    requires u.state.VerifyDue? && Doing(p, At(u), log) && Suits(p, u, w)
    ensures Advances(p, u, log, ClientTurnOf(u, w))
  {
  }

  lemma ChangeAdvances(p: Plan, u: View, log: seq<Step>, w: World)
    requires u.state.ChangeDue? && Doing(p, At(u), log) && Suits(p, u, w)
    ensures Advances(p, u, log, ClientTurnOf(u, w))
  {
    if u.hit {
      AroundMore(log, PathOf(p).hellos + Opt(TicketComes(p), SessionTicket), [], ClientCcs);
    }
  }

  lemma AroundMore(log: seq<Step>, before: seq<Step>, after: seq<Step>, s: Step)
    requires Around(log, before, after)
    ensures Around(log + [s], before, after + [s])
  {
    var r :| log == before + [Proper(r)] + after;
    assert log + [s] == before + [Proper(r)] + (after + [s]);
  }

  lemma ResumedFinishAdvances(p: Plan, u: View, log: seq<Step>, w: World)
    requires u.state.FinishDue? && Doing(p, At(u), log) && Suits(p, u, w) && u.hit
    ensures Advances(p, u, log, SendTurnOf(p.dtls, u, w))
  {
    AroundMore(log, PathOf(p).hellos + Opt(TicketComes(p), SessionTicket), [ClientCcs], ClientFinished);
    assert ServerIsDone(p, log + [ClientFinished], [ClientCcs] + [ClientFinished]);
  }

  lemma FinishAdvances(p: Plan, u: View, log: seq<Step>, w: World)
    requires u.state.FinishDue? && Doing(p, At(u), log) && Suits(p, u, w) && !u.hit
    ensures Advances(p, u, log, SendTurnOf(p.dtls, u, w))
  {
  }

  lemma FlushAdvances(p: Plan, u: View, log: seq<Step>, w: World)
    requires u.state.Flush? && Doing(p, At(u), log) && Suits(p, u, w)
    ensures Advances(p, u, log, SendTurnOf(p.dtls, u, w))
  {
    NoMore(log);
    if u.hit {
      var r :| log == PathOf(p).hellos + Opt(TicketComes(p), SessionTicket) + [Proper(r)]
                      + [ClientCcs, ClientFinished];
      assert log == Handshake(p, r);
    }
  }

  lemma TicketAdvances(p: Plan, u: View, log: seq<Step>, n: nat, w: World)
    requires u.state.TicketDue? && Doing(p, At(u), log) && Suits(p, u, w)
    ensures Advances(p, u, log, LastTurnOf(u, n, w))
  {
  }

  lemma ServerFirstTold(p: Plan, u: View, n: nat, w: World)
    requires u.state.ServerFinishDue? && Suits(p, u, w) && u.hit
    ensures var t := ServerFinishOf(u, n, w);
            && t.go && t.entry == Completed(Proper(t.view.ccsMark))
            && At(t.view) == At(u).(state := ChangeDue, resumed := true)
  {
  }

  lemma AtServerFirst(p: Plan, a: Place, log: seq<Step>)
    requires a.state.ServerFinishDue? && Doing(p, a, log) && a.hit
    ensures !p.route.Full? && (a.sendCookie ==> p.dtls && p.cookie)
    ensures log == PathOf(p).hellos + Opt(TicketComes(p), SessionTicket)
  {
  }

  lemma ServerFirstAdvances(p: Plan, u: View, log: seq<Step>, n: nat, w: World)
    requires u.state.ServerFinishDue? && Doing(p, At(u), log) && Suits(p, u, w) && u.hit
    ensures Advances(p, u, log, ServerFinishOf(u, n, w))
  {
    hide Doing, ServerFinishOf, Agrees, PathOf;
    AtServerFirst(p, At(u), log);
    ServerFirstTold(p, u, n, w);
    var v := ServerFinishOf(u, n, w).view;
    NoMore(log + [Proper(v.ccsMark)]);
    ChangeComes(p, At(v), log + [Proper(v.ccsMark)]);
  }

  lemma ChangeComes(p: Plan, a: Place, log: seq<Step>)
    requires a.state.ChangeDue? && (a.sendCookie ==> p.dtls && p.cookie) && a.hit && ServerIsDone(p, log, [])
    ensures Doing(p, a, log)
  {
  }

  lemma Sealed(keys: seq<Step>, ticket: seq<Step>, last: Step)
    ensures keys + [ClientCcs] + [ClientFinished] + ticket + [last]
         == keys + [ClientCcs, ClientFinished] + ticket + [last]
  {
    assert keys + [ClientCcs] + [ClientFinished] == keys + [ClientCcs, ClientFinished];
  }

  lemma ServerLastAdvances(p: Plan, u: View, log: seq<Step>, n: nat, w: World)
    requires u.state.ServerFinishDue? && Doing(p, At(u), log) && Suits(p, u, w) && !u.hit
    ensures Advances(p, u, log, ServerFinishOf(u, n, w))
  {
    var t := ServerFinishOf(u, n, w);
    Sealed(KeysSent(PathOf(p)), Opt(p.ticket, SessionTicket), t.entry.step);
    Concludes(p, t.view, Extended(log, t.entry), t.entry.step.readAt);
    hide Doing, ServerFinishOf;
  }

  lemma Concludes(p: Plan, v: View, log: seq<Step>, readAt: int)
    requires v.state.Established? && (v.sendCookie ==> p.dtls && p.cookie)
    requires v.resumed == !p.route.Full? && log == Handshake(p, readAt)
    ensures Doing(p, At(v), log) && Left(p, At(v)) == 0
  {
  }

  lemma ServerTurnAdvances(p: Plan, u: View, log: seq<Step>, w: World)
    requires ServerSpeaks(u.state) && Doing(p, At(u), log) && Suits(p, u, w)
    ensures Advances(p, u, log, ServerTurnOf(u, w))
  {
    match u.state
    case CertificateDue =>
      if p.route.InPlace? {
        InPlaceAdvances(p, u, log, w);
      } else {
        CertificateAdvances(p, u, log, w);
      }
    case StatusDue => StatusAdvances(p, u, log, w);
    case ServerKeyDue => ServerKeyAdvances(p, u, log, w);
    case RequestDue => RequestAdvances(p, u, log, w);
    case DoneDue => DoneAdvances(p, u, log, w);
  }

  lemma ClientTurnAdvances(p: Plan, u: View, log: seq<Step>, w: World)
    requires ClientSpeaks(u.state) && Doing(p, At(u), log) && Suits(p, u, w)
    ensures Advances(p, u, log, ClientTurnOf(u, w))
  {
    match u.state
    case ClientCertDue => ClientCertAdvances(p, u, log, w);
    case ClientKeyDue => ClientKeyAdvances(p, u, log, w);
    case VerifyDue => VerifyAdvances(p, u, log, w);
    case ChangeDue => ChangeAdvances(p, u, log, w);
  }

  lemma HelloTurnAdvances(p: Plan, u: View, log: seq<Step>, w: World)
    requires Greets(u.state) && Doing(p, At(u), log) && Suits(p, u, w)
    ensures Advances(p, u, log, HelloTurnOf(p.dtls, u, w))
  {
    match u.state
    case ClientHelloDue => ClientHelloAdvances(p, u, log, w);
    case ServerHelloDue => ServerHelloAdvances(p, u, log, w);
    case HelloVerifyDue => HelloVerifyAdvances(p, u, log, w);
  }

  lemma EndAdvances(p: Plan, u: View, log: seq<Step>, n: nat, w: World)
    requires (Sends(u.state) || Ends(u.state)) && Doing(p, At(u), log) && Suits(p, u, w)
    ensures Sends(u.state) ==> Advances(p, u, log, SendTurnOf(p.dtls, u, w))
    ensures Ends(u.state) ==> Advances(p, u, log, LastTurnOf(u, n, w))
  {
    match u.state
    case FinishDue =>
      if u.hit {
        ResumedFinishAdvances(p, u, log, w);
      } else {
        FinishAdvances(p, u, log, w);
      }
    case Flush => FlushAdvances(p, u, log, w);
    case TicketDue => TicketAdvances(p, u, log, n, w);
    case ServerFinishDue =>
      if u.hit {
        ServerFirstAdvances(p, u, log, n, w);
      } else {
        ServerLastAdvances(p, u, log, n, w);
      }
  }

  lemma CcsAside(u: View, n: nat)
    ensures At(CcsTaken(u, n)) == At(u) && CcsTaken(u, n).state == u.state
  {
  }

  lemma TurnAdvances(p: Plan, u: View, log: seq<Step>, w: World)
    requires Doing(p, At(u), log) && Suits(p, u, w) && !u.state.Established?
    ensures Advances(p, u, log, TurnOf(p.dtls, u, |log|, w))
  {
    hide Doing, Agrees, Left, At, CcsTaken;
    hide StartOf, HelloTurnOf, ServerTurnOf, ClientTurnOf, SendTurnOf, LastTurnOf;
    CcsAside(u, |log|);
    var v := if w.ccs && !u.state.ServerFinishDue? then CcsTaken(u, |log|) else u;
    if Starting(v.state) {
      StartAdvances(p, v, log, w);
    } else if Greets(v.state) {
      HelloTurnAdvances(p, v, log, w);
    } else if ServerSpeaks(v.state) {
      ServerTurnAdvances(p, v, log, w);
    } else if ClientSpeaks(v.state) {
      ClientTurnAdvances(p, v, log, w);
    } else {
      EndAdvances(p, v, log, |log|, w);
    }
  }

  // --------------------------------------------------------------------------
  // The whole handshake
  // --------------------------------------------------------------------------

  /** The loop ends with an established connection and the log of the planned handshake. */
  ghost predicate Concluded(p: Plan, e: Ended) {
    && e.ret == 1 && e.view.state.Established? && e.view.resumed == !p.route.Full?
    && exists r :: e.log == Handshake(p, r)
  }

  lemma {:induction false} LoopConcludes(p: Plan, u: View, log: seq<Step>, worlds: seq<World>, i: nat)
    requires Doing(p, At(u), log) && Obliging(p, u, log, worlds, i) && i + Left(p, At(u)) < |worlds|
    ensures Concluded(p, LoopOf(p.dtls, u, log, worlds, i))
    decreases |worlds| - i
  {
    if !u.state.Established? {
      TurnAdvances(p, u, log, worlds[i]);
      var t := TurnOf(p.dtls, u, |log|, worlds[i]);
      LoopConcludes(p, t.view, Extended(log, t.entry), worlds, i + 1);
    }
  }

  /** A client that has just been made. */
  const NEW: View := View(Before, Before, false, false, false, false, 0, false, -1, false, false)

  /** A new client against an outside in which every call succeeds that is made: the connection is established
      within 23 turns, by exactly the steps of section 7.3 of RFC 5246 that the outside has in store. */
  method Completes(p: Plan, worlds: seq<World>, cleared: bool) returns (c: Client, ret: int, ghost readAt: int)
    requires Obliging(p, NEW, [], worlds, 0) && |worlds| >= TURNS
    ensures ret == 1 && c.Inv() && c.state.Established? && c.resumed == !p.route.Full?
    ensures c.log == if p.route.Full? then FullHandshake(PathOf(p), p.ticket, readAt)
                     else ResumedHandshake(PathOf(p), TicketComes(p), readAt)
  {
    c := new Client(p.dtls);
    LoopConcludes(p, NEW, [], worlds, 0);
    ret := c.Connect(worlds, cleared);
    readAt :| c.log == Handshake(p, readAt);
  }

  /** A turn in which nothing fails and everything is as planned; a cookie is asked for if it is the first round. */
  predicate Steady(p: Plan, w: World, first: bool) {
    && w.ret > 0 && w.certRet > 0 && w.setup && w.algorithmsOk && w.keysOk && w.digestMatches && w.flushed && w.ccs
    && w.transcriptFreed && w.verifyRequest == w.cookieAsked == (first && p.dtls && p.cookie)
    && w.sessionKnown == p.route.Known? && w.haveTicket == w.finishedNext == p.route.InPlace?
    && w.anonymous == p.anonymous && w.statusExpected == p.status && w.requested == p.requested
    && w.noCertificate == p.noCertificate && w.ticketExpected == p.ticket
  }

  /** With a cookie to come, the first four turns are the start and the first round. */
  predicate InTime(p: Plan, a: Place, i: nat) {
    p.dtls && p.cookie ==>
      if i == 0 then a.state.Before?
      else if i == 1 then a.state.ClientHelloDue? && !a.sendCookie
      else if i == 2 then a.state.ServerHelloDue? && !a.sendCookie
      else if i == 3 then a.state.HelloVerifyDue? && !a.sendCookie
      else Left(p, a) <= 17
  }

  lemma SteadySuits(p: Plan, u: View, log: seq<Step>, w: World, i: nat)
    requires Doing(p, At(u), log) && InTime(p, At(u), i) && Steady(p, w, i < 4)
    ensures Suits(p, u, w)
  {
  }

  lemma FirstRoundNext(p: Plan, u: View, log: seq<Step>, w: World, i: nat)
    requires Doing(p, At(u), log) && InTime(p, At(u), i) && Steady(p, w, i < 4)
    requires i < 4 && p.dtls && p.cookie
    ensures InTime(p, At(TurnOf(p.dtls, u, |log|, w).view), i + 1)
  {
  }

  /** Such turns are an obliging outside, so every plan can be carried out. */
  lemma {:induction false} SteadyObliges(p: Plan, u: View, log: seq<Step>, worlds: seq<World>, i: nat)
    requires Doing(p, At(u), log) && InTime(p, At(u), i)
    requires forall j :: 0 <= j < |worlds| ==> Steady(p, worlds[j], j < 4)
    ensures Obliging(p, u, log, worlds, i)
    decreases |worlds| - i
  {
    if i < |worlds| {
      SteadySuits(p, u, log, worlds[i], i);
      if !u.state.Established? {
        var t := TurnOf(p.dtls, u, |log|, worlds[i]);
        TurnAdvances(p, u, log, worlds[i]);
        if i < 4 && p.dtls && p.cookie {
          FirstRoundNext(p, u, log, worlds[i], i);
        }
        SteadyObliges(p, t.view, Extended(log, t.entry), worlds, i + 1);
      }
    }
  }
}
