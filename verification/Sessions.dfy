/** The session store with its lazy eviction (src/server_session.cpp), refined to the history
    of what was done to it. The clock is a parameter of every operation. */
module Sessions {
  import opened MachineInts
  import opened Codecs

  type SessionId = seq<byte>

  // ---- Histories -----------------------------------------------------------------------------

  /** A registration or a lookup, and when it happened. */
  datatype Event<+M> = Register(id: SessionId, pub: M, time: int) | Lookup(id: SessionId, time: int)

  /** The material registered last for `id`, and the times of that registration and of every
      lookup of `id` since. */
  ghost function Trace<M>(history: seq<Event<M>>, id: SessionId): (r: Option<(M, seq<int>)>)
    ensures r.Some? ==> |r.value.1| > 0
  {
    if |history| == 0 then None
    else
      var k := |history| - 1;
      match history[k]
      case Register(i, pub, t) => if i == id then Some((pub, [t])) else Trace(history[..k], id)
      case Lookup(i, t) =>
        match Trace(history[..k], id)
        case None => None
        case Some((pub, times)) => Some((pub, if i == id then times + [t] else times))
  }

  /** No two consecutive times are further apart than `ttl`. */
  ghost predicate Steady(times: seq<int>, ttl: int) {
    forall i :: 0 < i < |times| ==> times[i] - times[i - 1] <= ttl
  }

  /** What a lookup of `id` at `now` must answer, as a matter of history alone: the material
      registered last, if no gap since then, up to now, is longer than `ttl`. */
  ghost function Answer<M>(history: seq<Event<M>>, id: SessionId, now: int, ttl: int): Option<M> {
    match Trace(history, id)
    case None => None
    case Some((pub, times)) => if Steady(times + [now], ttl) then Some(pub) else None
  }

  lemma TracePush<M>(history: seq<Event<M>>, e: Event<M>, id: SessionId)
    ensures Trace(history + [e], id)
            == match e
               case Register(i, pub, t) => if i == id then Some((pub, [t])) else Trace(history, id)
               case Lookup(i, t) =>
                 match Trace(history, id)
                 case None => None
                 case Some((pub, times)) => Some((pub, if i == id then times + [t] else times))
  {
    assert (history + [e])[..|history|] == history;
  }

  lemma SteadyPush(times: seq<int>, t: int, ttl: int)
    requires |times| > 0
    ensures Steady(times + [t], ttl) <==> Steady(times, ttl) && t - times[|times| - 1] <= ttl
  {
    var longer := times + [t];
    if Steady(longer, ttl) {
      forall i | 0 < i < |times|
        ensures times[i] - times[i - 1] <= ttl
      {
        assert longer[i] == times[i] && longer[i - 1] == times[i - 1];
      }
      assert longer[|times|] - longer[|times| - 1] <= ttl;
    }
  }

  // ---- The store -----------------------------------------------------------------------------

  datatype Session<+M> = Session(pub: M, lastUsed: int)

  class SessionStore<M> {
    const ttl: int
    var sessions: map<SessionId, Session<M>>
    ghost var history: seq<Event<M>>

    /** The map holds exactly the ids whose history is steady, with their last time. */
    ghost predicate Valid()
      reads this
    {
      forall id: SessionId :: Reflects(Trace(history, id), id)
    }

    ghost predicate Reflects(trace: Option<(M, seq<int>)>, id: SessionId)
      requires trace.Some? ==> |trace.value.1| > 0
      reads this
    {
      match trace
      case None => id !in sessions
      case Some((pub, times)) =>
        if Steady(times, ttl) then id in sessions && sessions[id] == Session(pub, times[|times| - 1])
        else id !in sessions
    }

    constructor (ttl: int)
      ensures Valid() && this.ttl == ttl && history == []
    {
      this.ttl, sessions, history := ttl, map[], [];
    }

    method RegisterSession(id: SessionId, pub: M, now: int)
      requires Valid()
      modifies this
      ensures Valid() && history == old(history) + [Register(id, pub, now)]
    {
      sessions := sessions[id := Session(pub, now)];
      history := history + [Register(id, pub, now)];
      forall other: SessionId
        ensures Reflects(Trace(history, other), other)
      {
        TracePush(old(history), Register(id, pub, now), other);
        assert old(Reflects(Trace(history, other), other));
      }
    }

    /** Answers from history alone: that dead entries are only dropped when they are looked
        up cannot be observed. */
    method GetAndTouch(id: SessionId, now: int) returns (r: Option<M>)
      requires Valid()
      modifies this
      ensures Valid() && history == old(history) + [Lookup(id, now)]
      ensures r == Answer(old(history), id, now, ttl)
    {
      assert Reflects(Trace(history, id), id);
      if Trace(history, id).Some? {
        SteadyPush(Trace(history, id).value.1, now, ttl);
      }
      history := history + [Lookup(id, now)];
      if id !in sessions {
        r := None;
      } else if now - sessions[id].lastUsed > ttl {
        sessions := sessions - {id};
        r := None;
      } else {
        r := Some(sessions[id].pub);
        sessions := sessions[id := sessions[id].(lastUsed := now)];
      }
      forall other: SessionId
        ensures Reflects(Trace(history, other), other)
      {
        TracePush(old(history), Lookup(id, now), other);
        assert old(Reflects(Trace(history, other), other));
      }
    }
  }

  // ---- What histories say ----------------------------------------------------------------------

  ghost predicate Registers<M>(e: Event<M>, id: SessionId) {
    e.Register? && e.id == id
  }

  /** Once a gap was too long, the id stays dead whatever happens, until it is registered
      again. */
  lemma {:induction false} DeadUntilRegistered<M>(history: seq<Event<M>>, later: seq<Event<M>>, id: SessionId, ttl: int)
    requires Trace(history, id).None? || !Steady(Trace(history, id).value.1, ttl)
    requires forall i :: 0 <= i < |later| ==> !Registers(later[i], id)
    ensures Trace(history + later, id).None? || !Steady(Trace(history + later, id).value.1, ttl)
    ensures forall now :: Answer(history + later, id, now, ttl) == None
  {
    var all := history + later;
    if |later| == 0 {
      assert all == history;
    } else {
      var k := |later| - 1;
      DeadUntilRegistered(history, later[..k], id, ttl);
      assert all == (history + later[..k]) + [later[k]];
      TracePush(history + later[..k], later[k], id);
      var before := Trace(history + later[..k], id);
      if before.Some? && later[k].Lookup? && later[k].id == id {
        SteadyPush(before.value.1, later[k].time, ttl);
      }
    }
    forall now
      ensures Answer(all, id, now, ttl) == None
    {
      if Trace(all, id).Some? {
        SteadyPush(Trace(all, id).value.1, now, ttl);
      }
    }
  }

  /** With a clock that does not run back, an id that has expired by `now` has expired by every
      later time, looked up in between or not. */
  lemma ExpiryIsFinal<M>(history: seq<Event<M>>, id: SessionId, now: int, later: int, ttl: int)
    requires now <= later
    requires Answer(history, id, now, ttl) == None
    ensures Answer(history, id, later, ttl) == None
    ensures Answer(history + [Lookup(id, now)], id, later, ttl) == None
  {
    TracePush(history, Lookup(id, now), id);
    if Trace(history, id).Some? {
      var times := Trace(history, id).value.1;
      SteadyPush(times, now, ttl);
      SteadyPush(times, later, ttl);
      SteadyPush(times + [now], later, ttl);
    }
  }

  /** Right after registering, the new material is there for `ttl`, whatever came before. */
  lemma RegistrationRevives<M>(history: seq<Event<M>>, id: SessionId, pub: M, time: int, now: int, ttl: int)
    ensures Answer(history + [Register(id, pub, time)], id, now, ttl)
            == if now - time <= ttl then Some(pub) else None
  {
    TracePush(history, Register(id, pub, time), id);
    assert [time] + [now] == [time, now];
    SteadyPush([time], now, ttl);
  }

  /** Nobody is known before anything happened. */
  lemma UnknownAtFirst<M>(id: SessionId, now: int, ttl: int)
    ensures Answer<M>([], id, now, ttl) == None
  {
  }

  /** A lookup that succeeds refreshes the session: the same material is there for `ttl` more. */
  lemma LookupRefreshes<M>(history: seq<Event<M>>, id: SessionId, time: int, now: int, ttl: int)
    requires Answer(history, id, time, ttl).Some?
    ensures Answer(history + [Lookup(id, time)], id, now, ttl)
            == if now - time <= ttl then Answer(history, id, time, ttl) else None
  {
    TracePush(history, Lookup(id, time), id);
    var times := Trace(history, id).value.1;
    SteadyPush(times, time, ttl);
    SteadyPush(times + [time], now, ttl);
  }

  /** Other ids are not affected. */
  lemma OthersUnaffected<M>(history: seq<Event<M>>, e: Event<M>, id: SessionId, now: int, ttl: int)
    requires e.id != id
    ensures Answer(history + [e], id, now, ttl) == Answer(history, id, now, ttl)
  {
    TracePush(history, e, id);
  }
}
