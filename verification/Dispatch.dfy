/** One request to the server (src/server_dispatch.cpp). Rebuilding key material and answering
    a query are parameters; they may fail, as every step may in the sources. */
module Dispatch {
  import opened MachineInts
  import opened Codecs
  import opened Messages
  import opened WireProtocol
  import opened WireTheorems
  import opened Sessions

  datatype MessageType = Registration | RegistrationAck | Query | QueryResponse | Error

  datatype Message = Message(kind: MessageType, payload: seq<byte>)

  /** Why a request was answered with an error. */
  datatype Reply = Reply(message: Message) | UnknownSession | UnexpectedType | ServerError

  datatype Server<!M> = Server(
    reconstruct: SeededPublicMaterial -> Option<M>,
    process: (M, SeededQuery) -> Option<seq<byte>>)

  /** What a request does to the session history. */
  ghost function Recorded<M>(server: Server<M>, request: Message, now: int): seq<Event<M>> {
    match request.kind
    case Registration =>
      (match DecodedRegistration(request.payload)
       case None => []
       case Some(req) =>
         match server.reconstruct(req.material)
         case None => []
         case Some(pub) => [Register(req.sessionId, pub, now)])
    case Query =>
      (match DecodedQueryMessage(request.payload)
       case None => []
       case Some(req) => [Lookup(req.sessionId, now)])
    case _ => []
  }

  /** The reply, from the request and the session history alone. */
  ghost function Answered<M>(server: Server<M>, history: seq<Event<M>>, ttl: int, request: Message, now: int): Reply {
    match request.kind
    case Registration =>
      (match DecodedRegistration(request.payload)
       case None => ServerError
       case Some(req) =>
         if server.reconstruct(req.material).None? then ServerError else Reply(Message(RegistrationAck, [])))
    case Query =>
      (match DecodedQueryMessage(request.payload)
       case None => ServerError
       case Some(req) =>
         match Answer(history, req.sessionId, now, ttl)
         case None => UnknownSession
         case Some(pub) =>
           match server.process(pub, req.query)
           case None => ServerError
           case Some(bytes) => Reply(Message(QueryResponse, bytes)))
    case _ => UnexpectedType
  }

  /** A failing registration leaves no trace; a query that fails while being processed has
      already refreshed its session. */
  method HandleMessage<M>(server: Server<M>, sessions: SessionStore<M>, request: Message, now: int)
    returns (reply: Reply)
    requires sessions.Valid()
    modifies sessions
    ensures sessions.Valid()
    ensures sessions.history == old(sessions.history) + Recorded(server, request, now)
    ensures reply == Answered(server, old(sessions.history), sessions.ttl, request, now)
    ensures request.kind == Registration ==>
              match DecodedRegistration(request.payload)
              case None => reply == ServerError && sessions.history == old(sessions.history)
              case Some(req) =>
                match server.reconstruct(req.material)
                case None => reply == ServerError && sessions.history == old(sessions.history)
                case Some(pub) =>
                  && reply == Reply(Message(RegistrationAck, []))
                  && sessions.history == old(sessions.history) + [Register(req.sessionId, pub, now)]
    ensures request.kind == Query ==>
              match DecodedQueryMessage(request.payload)
              case None => reply == ServerError && sessions.history == old(sessions.history)
              case Some(req) =>
                && sessions.history == old(sessions.history) + [Lookup(req.sessionId, now)]
                && match Answer(old(sessions.history), req.sessionId, now, sessions.ttl)
                   case None => reply == UnknownSession
                   case Some(pub) =>
                     match server.process(pub, req.query)
                     case None => reply == ServerError
                     case Some(bytes) => reply == Reply(Message(QueryResponse, bytes))
    ensures request.kind != Registration && request.kind != Query ==>
              reply == UnexpectedType && sessions.history == old(sessions.history)
  {
    match request.kind
    case Registration =>
      var req := DeserializeRegistrationMessage(request.payload);
      if req.None? {
        return ServerError;
      }
      var pub := server.reconstruct(req.value.material);
      if pub.None? {
        return ServerError;
      }
      sessions.RegisterSession(req.value.sessionId, pub.value, now);
      return Reply(Message(RegistrationAck, []));
    case Query =>
      var req := DeserializeQueryMessage(request.payload);
      if req.None? {
        return ServerError;
      }
      var pub := sessions.GetAndTouch(req.value.sessionId, now);
      if pub.None? {
        return UnknownSession;
      }
      var response := server.process(pub.value, req.value.query);
      if response.None? {
        return ServerError;
      }
      return Reply(Message(QueryResponse, response.value));
    case _ =>
      return UnexpectedType;
  }

  /** A registration whose keys are rebuilt is acknowledged, whatever happened before. */
  lemma RegistrationAcknowledged<M>(server: Server<M>, history: seq<Event<M>>, ttl: int, m: RegistrationMessage,
                                    now: int)
    requires WellTypedRegistration(m) && MaterialCountsFit(m.material)
    requires server.reconstruct(m.material).Some?
    ensures Answered(server, history, ttl, Message(Registration, RegistrationBytes(m)), now)
            == Reply(Message(RegistrationAck, []))
  {
    hide DecodedRegistration, RegistrationBytes, WellTypedRegistration, MaterialCountsFit;
    RegistrationRoundTrip(m, []);
    assert RegistrationBytes(m) + [] == RegistrationBytes(m);
  }

  // ---- Whole runs -----------------------------------------------------------------------------

  datatype Request = Request(message: Message, time: int)

  /** The session history after a run of requests against an empty store. */
  ghost function History<M>(server: Server<M>, requests: seq<Request>): seq<Event<M>> {
    if |requests| == 0 then []
    else
      var k := |requests| - 1;
      History(server, requests[..k]) + Recorded(server, requests[k].message, requests[k].time)
  }

  /** Serving a run of requests: the replies are those the history determines. */
  method Serve<M>(server: Server<M>, ttl: int, requests: seq<Request>) returns (replies: seq<Reply>)
    ensures |replies| == |requests|
    ensures forall i :: 0 <= i < |requests| ==>
              replies[i] == Answered(server, History(server, requests[..i]), ttl, requests[i].message, requests[i].time)
  {
    hide Answered, Recorded, Answer, DecodedRegistration, DecodedQueryMessage;
    var sessions := new SessionStore<M>(ttl);
    replies := [];
    for i := 0 to |requests|
      invariant sessions.Valid() && sessions.ttl == ttl
      invariant sessions.history == History(server, requests[..i])
      invariant |replies| == i
      invariant forall k :: 0 <= k < i ==>
                  replies[k] == Answered(server, History(server, requests[..k]), ttl, requests[k].message,
                                         requests[k].time)
    {
      var reply := HandleMessage(server, sessions, requests[i].message, requests[i].time);
      assert requests[..i + 1][..i] == requests[..i];
      replies := replies + [reply];
    }
  }

  /** A registered id: some earlier request of the run carried it in a registration that
      succeeded. */
  ghost predicate RegisteredBy<M>(server: Server<M>, request: Message, id: SessionId, pub: M) {
    && request.kind == Registration
    && DecodedRegistration(request.payload).Some?
    && DecodedRegistration(request.payload).value.sessionId == id
    && server.reconstruct(DecodedRegistration(request.payload).value.material) == Some(pub)
  }

  lemma {:induction false} TraceHasRegistration<M>(server: Server<M>, requests: seq<Request>, id: SessionId)
    returns (i: nat)
    requires Trace(History(server, requests), id).Some?
    ensures i < |requests|
    ensures RegisteredBy(server, requests[i].message, id, Trace(History(server, requests), id).value.0)
  {
    hide DecodedQueryMessage, DecodedRegistration;
    var k := |requests| - 1;
    var before, added := History(server, requests[..k]), Recorded(server, requests[k].message, requests[k].time);
    if added == [] {
      assert before + added == before;
      i := TraceHasRegistration(server, requests[..k], id);
    } else {
      TracePush(before, added[0], id);
      assert added == [added[0]];
      if added[0].Register? && added[0].id == id {
        i := k;
      } else {
        i := TraceHasRegistration(server, requests[..k], id);
      }
    }
  }

  // ---- One client's session over a run ----------------------------------------------------------

  ghost predicate CarriesRegistration(request: Message, id: SessionId) {
    && request.kind == Registration
    && DecodedRegistration(request.payload).Some?
    && DecodedRegistration(request.payload).value.sessionId == id
  }

  ghost predicate CarriesQuery(request: Message, id: SessionId) {
    && request.kind == Query
    && DecodedQueryMessage(request.payload).Some?
    && DecodedQueryMessage(request.payload).value.sessionId == id
  }

  /** When the id sent its queries. */
  ghost function QueryTimes(requests: seq<Request>, id: SessionId): seq<int> {
    if |requests| == 0 then []
    else
      var k := |requests| - 1;
      QueryTimes(requests[..k], id) + if CarriesQuery(requests[k].message, id) then [requests[k].time] else []
  }

  /** After a registration, and requests that do not register the id again, the id's trace is the
      registered material and the times since. */
  lemma {:induction false} TraceSinceRegistration<M>(server: Server<M>, before: seq<Request>, registration: Request,
                                                    between: seq<Request>, id: SessionId, pub: M)
    requires RegisteredBy(server, registration.message, id, pub)
    requires forall i :: 0 <= i < |between| ==> !CarriesRegistration(between[i].message, id)
    ensures Trace(History(server, before + [registration] + between), id)
            == Some((pub, [registration.time] + QueryTimes(between, id)))
  {
    hide DecodedQueryMessage, DecodedRegistration, Recorded, CarriesQuery, CarriesRegistration, Trace;
    var all := before + [registration] + between;
    var k := |all| - 1;
    if |between| == 0 {
      assert all[..k] == before && all[k] == registration;
      RegistrationRecorded(server, registration, id, pub);
      TracePush(History(server, before), Register(id, pub, registration.time), id);
      assert [registration.time] + QueryTimes(between, id) == [registration.time];
    } else {
      var last := between[|between| - 1];
      var rest := between[..|between| - 1];
      assert all[..k] == before + [registration] + rest && all[k] == last;
      TraceSinceRegistration(server, before, registration, rest, id, pub);
      assert [registration.time] + QueryTimes(between, id)
             == [registration.time] + QueryTimes(rest, id)
                + if CarriesQuery(last.message, id) then [last.time] else [];
      TraceAfterRequest(server, History(server, all[..k]), last, id, pub, [registration.time] + QueryTimes(rest, id));
    }
  }

  lemma RegistrationRecorded<M>(server: Server<M>, registration: Request, id: SessionId, pub: M)
    requires RegisteredBy(server, registration.message, id, pub)
    ensures Recorded(server, registration.message, registration.time) == [Register(id, pub, registration.time)]
  {
  }

  lemma TraceAfterRequest<M>(server: Server<M>, history: seq<Event<M>>, request: Request, id: SessionId, pub: M,
                             times: seq<int>)
    requires Trace(history, id) == Some((pub, times))
    requires !CarriesRegistration(request.message, id)
    ensures Trace(history + Recorded(server, request.message, request.time), id)
            == Some((pub, times + if CarriesQuery(request.message, id) then [request.time] else []))
  {
    hide DecodedQueryMessage, DecodedRegistration;
    var added := Recorded(server, request.message, request.time);
    assert times + [] == times;
    if added == [] {
      assert history + added == history;
    } else {
      assert added == [added[0]];
      TracePush(history, added[0], id);
    }
  }

  /** A query is processed, under the material its id registered, when no gap since exceeded the
      lifetime. */
  lemma LiveQueryProcessed<M>(server: Server<M>, before: seq<Request>, registration: Request, between: seq<Request>,
                              id: SessionId, pub: M, query: SeededQuery, payload: seq<byte>, now: int, ttl: int)
    requires RegisteredBy(server, registration.message, id, pub)
    requires forall i :: 0 <= i < |between| ==> !CarriesRegistration(between[i].message, id)
    requires DecodedQueryMessage(payload) == Some(QueryMessage(id, query))
    requires Steady([registration.time] + QueryTimes(between, id) + [now], ttl)
    ensures Answered(server, History(server, before + [registration] + between), ttl, Message(Query, payload), now)
            == match server.process(pub, query)
               case None => ServerError
               case Some(bytes) => Reply(Message(QueryResponse, bytes))
  {
    hide DecodedQueryMessage, DecodedRegistration, Steady;
    TraceSinceRegistration(server, before, registration, between, id, pub);
  }

  /** Query processing is reached, over any run, only for an id whose material some earlier
      request of the run registered and whose session has not expired; the processed
      material is that one. */
  lemma ProcessedOnlyWhenLive<M>(server: Server<M>, requests: seq<Request>, ttl: int, request: Message, now: int)
    requires var reply := Answered(server, History(server, requests), ttl, request, now);
             reply.Reply? && reply.message.kind == QueryResponse
    ensures request.kind == Query && DecodedQueryMessage(request.payload).Some?
    ensures var req := DecodedQueryMessage(request.payload).value;
            var live := Answer(History(server, requests), req.sessionId, now, ttl);
            && live.Some?
            && server.process(live.value, req.query).Some?
            && exists i :: 0 <= i < |requests| && RegisteredBy(server, requests[i].message, req.sessionId, live.value)
  {
    hide DecodedQueryMessage, DecodedRegistration;
    var req := DecodedQueryMessage(request.payload).value;
    var i := TraceHasRegistration(server, requests, req.sessionId);
  }

  /** A query message as a client sends it, for an id that is not live, is answered with the
      request to register again. */
  lemma DeadSessionRefused<M>(server: Server<M>, history: seq<Event<M>>, ttl: int, m: QueryMessage, now: int)
    requires WellTypedQuery(m) && QueryCountsFit(m.query)
    requires Answer(history, m.sessionId, now, ttl) == None
    ensures Answered(server, history, ttl, Message(Query, QueryMessageBytes(m)), now) == UnknownSession
  {
    hide DecodedQueryMessage, QueryMessageBytes, Answer, WellTypedQuery, QueryCountsFit;
    QueryMessageRoundTrip(m, []);
    assert QueryMessageBytes(m) + [] == QueryMessageBytes(m);
  }
}
