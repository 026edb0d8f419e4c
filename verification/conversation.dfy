/** The in-memory conversation store of backend/conversation_manager.py.
    Time is an explicit argument `now`, in milliseconds since the epoch
    (the source reads `time.time()` in seconds as a float). The store is the
    sequence of sessions in the order Python's dict iterates them, because
    that order breaks ties in the least-recently-active eviction. */
module Conversation {
  import opened Wrappers
  import opened Text

  datatype Message = Message(sender: string, text: string, timestamp: nat, sessionId: string)

  datatype Session = Session(sessionId: string, messages: seq<Message>, lastActivity: nat, createdAt: nat)

  /** The constructor arguments of `ConversationManager`. */
  datatype Config = Config(
    maxSessions: nat,
    sessionTimeoutMinutes: int,
    maxMessagesPerSession: nat,
    maxContextLength: int,
    consecutiveTimeoutMinutes: int)

  const DefaultConfig := Config(100, 30, 50, 4000, 5)

  const MillisPerMinute := 60_000

  /** Sessions in dict iteration (insertion) order. */
  type Store = seq<Session>

  /** The dict's keys are unique. */
  predicate WellFormed(st: Store) {
    forall i, j :: 0 <= i < j < |st| ==> st[i].sessionId != st[j].sessionId
  }

  function Ids(st: Store): set<string> {
    set s | s in st :: s.sessionId
  }

  /** `self.sessions.get(id)` */
  function Lookup(st: Store, id: string): (r: Option<Session>)
    ensures r.Some? ==> r.value in st && r.value.sessionId == id
    ensures r.None? <==> id !in Ids(st)
    decreases |st|
  {
    if |st| == 0 then None
    else if st[0].sessionId == id then Some(st[0])
    else Lookup(st[1..], id)
  }

  lemma WellFormedCons(x: Session, t: Store)
    ensures WellFormed([x] + t) <==> WellFormed(t) && x.sessionId !in Ids(t)
  {
    var s := [x] + t;
    if WellFormed(s) {
      forall i, j | 0 <= i < j < |t|
        ensures t[i].sessionId != t[j].sessionId
      {
        assert s[i + 1] == t[i] && s[j + 1] == t[j];
      }
      forall y | y in t
        ensures y.sessionId != x.sessionId
      {
        var j :| 0 <= j < |t| && t[j] == y;
        assert s[0] == x && s[j + 1] == y;
      }
    }
    if WellFormed(t) && x.sessionId !in Ids(t) {
      forall i, j | 0 <= i < j < |s|
        ensures s[i].sessionId != s[j].sessionId
      {
        if i == 0 {
          assert s[j] == t[j - 1] && s[j] in t;
        } else {
          assert s[i] == t[i - 1] && s[j] == t[j - 1];
        }
      }
    }
  }

  /** In a well-formed store, a session is found exactly under its own id. */
  lemma LookupMember(st: Store, s: Session)
    requires WellFormed(st) && s in st
    ensures Lookup(st, s.sessionId) == Some(s)
    decreases |st|
  {
    if st[0] != s {
      WellFormedCons(st[0], st[1..]);
      assert st == [st[0]] + st[1..];
      assert s in st[1..];
      LookupMember(st[1..], s);
    }
  }

  /** `self.sessions[s.session_id] = s`: an existing key keeps its position,
      a new key goes to the end. */
  function Put(st: Store, s: Session): (r: Store)
    requires WellFormed(st)
    ensures WellFormed(r)
    ensures Lookup(r, s.sessionId) == Some(s)
    ensures forall id :: id != s.sessionId ==> Lookup(r, id) == Lookup(st, id)
    ensures Ids(r) == Ids(st) + {s.sessionId}
    ensures forall x :: x in r ==> x == s || x in st
    ensures |r| == if s.sessionId in Ids(st) then |st| else |st| + 1
    decreases |st|
  {
    if |st| == 0 then [s]
    else if st[0].sessionId == s.sessionId then
      WellFormedCons(st[0], st[1..]);
      assert st == [st[0]] + st[1..];
      WellFormedCons(s, st[1..]);
      [s] + st[1..]
    else
      WellFormedCons(st[0], st[1..]);
      assert st == [st[0]] + st[1..];
      var rest := Put(st[1..], s);
      WellFormedCons(st[0], rest);
      assert ([st[0]] + rest)[1..] == rest;
      [st[0]] + rest
  }

  // ---------------------------------------------------------------------
  // Session ids

  /** `_generate_session_id()`: "default_" followed by the integer seconds
      of the clock. */
  function GenerateSessionId(now: nat): (id: string)
    ensures |id| > 8 && id[..8] == "default_" && AllDigits(id[8..])
  {
    "default_" + NatToString(now / 1000)
  }

  /** Two generated ids coincide exactly when they are generated in the same
      second, so two id-less creations within one second collide. */
  lemma GeneratedIdsCollideWithinSecond(a: nat, b: nat)
    ensures GenerateSessionId(a) == GenerateSessionId(b) <==> a / 1000 == b / 1000
  {
    if GenerateSessionId(a) == GenerateSessionId(b) {
      assert GenerateSessionId(a)[8..] == NatToString(a / 1000);
      assert GenerateSessionId(b)[8..] == NatToString(b / 1000);
    }
    NatToStringInjective(a / 1000, b / 1000);
  }

  // ---------------------------------------------------------------------
  // Eviction (`_cleanup_expired_sessions`)

  /** More than `session_timeout_minutes` have passed since the last activity. */
  predicate Expired(cfg: Config, s: Session, now: nat) {
    now - s.lastActivity > cfg.sessionTimeoutMinutes * MillisPerMinute
  }

  /** Phase one: drop every expired session, keeping the order of the rest. */
  function RemoveExpired(cfg: Config, st: Store, now: nat): (r: Store)
    requires WellFormed(st)
    ensures WellFormed(r)
    ensures forall s :: s in r <==> s in st && !Expired(cfg, s, now)
    ensures |r| <= |st|
    decreases |st|
  {
    if |st| == 0 then []
    else
      WellFormedCons(st[0], st[1..]);
      assert st == [st[0]] + st[1..];
      var rest := RemoveExpired(cfg, st[1..], now);
      if Expired(cfg, st[0], now) then rest
      else
        WellFormedCons(st[0], rest);
        [st[0]] + rest
  }

  /** Position of the least recently active session; among equals, the
      first in dict order (what a stable sort puts first). */
  function OldestIndex(st: Store): (i: nat)
    requires |st| > 0
    ensures i < |st|
    ensures forall j :: 0 <= j < |st| ==> st[i].lastActivity <= st[j].lastActivity
    ensures forall j :: 0 <= j < i ==> st[j].lastActivity > st[i].lastActivity
    decreases |st|
  {
    if |st| == 1 then 0
    else
      var k := OldestIndex(st[1..]) + 1;
      if st[0].lastActivity <= st[k].lastActivity then 0 else k
  }

  function RemoveAt(st: Store, i: nat): (r: Store)
    requires i < |st|
    requires WellFormed(st)
    ensures WellFormed(r)
    ensures |r| == |st| - 1
    ensures forall x :: x in r ==> x in st
    ensures forall x :: x in st && x != st[i] ==> x in r
  {
    var r := st[..i] + st[i + 1..];
    forall a, b | 0 <= a < b < |r|
      ensures r[a].sessionId != r[b].sessionId
    {
      var a' := if a < i then a else a + 1;
      var b' := if b < i then b else b + 1;
      assert r[a] == st[a'] && r[b] == st[b'];
    }
    forall x | x in st && x != st[i]
      ensures x in r
    {
      var j :| 0 <= j < |st| && st[j] == x;
      if j < i { assert r[j] == x; } else { assert r[j - 1] == x; }
    }
    r
  }

  /** Phase two: while over capacity, remove the least recently active
      session. Taking the stable sort by `last_activity` and deleting its
      first `len - max_sessions` entries removes the same sessions. */
  function EvictOldest(st: Store, max: nat): (r: Store)
    requires WellFormed(st)
    ensures WellFormed(r)
    ensures |r| == if |st| <= max then |st| else max
    ensures |st| <= max ==> r == st
    ensures forall x :: x in r ==> x in st
    ensures forall x, y :: x in st && x !in r && y in r ==> x.lastActivity <= y.lastActivity
    decreases |st|
  {
    if |st| <= max then st
    else
      var i := OldestIndex(st);
      EvictOldest(RemoveAt(st, i), max)
  }

  /** `_cleanup_expired_sessions()` */
  function Cleanup(cfg: Config, st: Store, now: nat): (r: Store)
    requires WellFormed(st)
    ensures WellFormed(r)
    ensures forall s :: s in r ==> s in st && !Expired(cfg, s, now)
    ensures |r| <= cfg.maxSessions
    ensures forall x, y :: x in st && !Expired(cfg, x, now) && x !in r && y in r ==>
              x.lastActivity <= y.lastActivity
    ensures |RemoveExpired(cfg, st, now)| <= cfg.maxSessions ==>
              forall s :: s in st && !Expired(cfg, s, now) ==> s in r
  {
    EvictOldest(RemoveExpired(cfg, st, now), cfg.maxSessions)
  }

  // ---------------------------------------------------------------------
  // get_or_create_session

  /** Python treats both `None` and `""` as "no id given". */
  predicate Given(requested: Option<string>) {
    requested.Some? && requested.value != ""
  }

  datatype Resolved = Resolved(store: Store, sessionId: string)

  /** `get_or_create_session(session_id)`: evict, then refresh a live session
      or register a new empty one (under the given id, or a generated one). */
  function GetOrCreateSession(cfg: Config, st: Store, requested: Option<string>, now: nat): (r: Resolved)
    requires WellFormed(st)
    ensures WellFormed(r.store)
    ensures Lookup(r.store, r.sessionId).Some?
    ensures |r.store| <= cfg.maxSessions + 1
    ensures forall s :: s in r.store && s.sessionId != r.sessionId ==> s in st && !Expired(cfg, s, now)
    ensures forall s: Session :: s.sessionId != r.sessionId ==> (s in r.store <==> s in Cleanup(cfg, st, now))
    ensures Given(requested) ==> r.sessionId == requested.value
    ensures !Given(requested) ==> r.sessionId == GenerateSessionId(now)
    ensures Given(requested) && Lookup(Cleanup(cfg, st, now), requested.value).Some? ==>
              var prev := Lookup(Cleanup(cfg, st, now), requested.value).value;
              Lookup(r.store, r.sessionId) == Some(prev.(lastActivity := now))
    ensures (!Given(requested) || Lookup(Cleanup(cfg, st, now), requested.value).None?) ==>
              Lookup(r.store, r.sessionId) == Some(Session(r.sessionId, [], now, now))
  {
    var live := Cleanup(cfg, st, now);
    if Given(requested) && Lookup(live, requested.value).Some? then
      var s := Lookup(live, requested.value).value;
      var r := Resolved(Put(live, s.(lastActivity := now)), requested.value);
      PutStaysLive(cfg, st, now, live, s.(lastActivity := now));
      r
    else
      var id := if Given(requested) then requested.value else GenerateSessionId(now);
      PutStaysLive(cfg, st, now, live, Session(id, [], now, now));
      Resolved(Put(live, Session(id, [], now, now)), id)
  }

  /** The sessions under other ids are exactly the ones that survived
      the cleanup. */
  lemma PutStaysLive(cfg: Config, st: Store, now: nat, live: Store, s: Session)
    requires WellFormed(st) && live == Cleanup(cfg, st, now)
    ensures forall x :: x in Put(live, s) && x.sessionId != s.sessionId ==> x in st && !Expired(cfg, x, now)
    ensures forall x: Session :: x.sessionId != s.sessionId ==> (x in Put(live, s) <==> x in live)
  {
    forall x: Session | x.sessionId != s.sessionId
      ensures x in Put(live, s) <==> x in live
    {
      if x in live {
        LookupMember(live, x);
        assert Lookup(Put(live, s), x.sessionId) == Some(x);
      }
    }
  }

  /** Eviction runs before the insertion, so with `max_sessions` live
      sessions a new id leaves `max_sessions + 1` sessions in the store. */
  lemma CreationCanExceedCapacity(cfg: Config, st: Store, id: string, now: nat)
    requires WellFormed(st) && |st| == cfg.maxSessions
    requires forall s :: s in st ==> !Expired(cfg, s, now)
    requires id != "" && id !in Ids(st)
    ensures |GetOrCreateSession(cfg, st, Some(id), now).store| == cfg.maxSessions + 1
  {
    var live := Cleanup(cfg, st, now);
    var filtered := RemoveExpired(cfg, st, now);
    FilterKeepsAll(cfg, st, now);
    assert filtered == st;
    assert live == st;
    assert Lookup(live, id).None?;
  }

  lemma {:induction false} FilterKeepsAll(cfg: Config, st: Store, now: nat)
    requires WellFormed(st)
    requires forall s :: s in st ==> !Expired(cfg, s, now)
    ensures RemoveExpired(cfg, st, now) == st
    decreases |st|
  {
    if |st| > 0 {
      WellFormedCons(st[0], st[1..]);
      assert st == [st[0]] + st[1..];
      FilterKeepsAll(cfg, st[1..], now);
    }
  }

  /** An id-less creation in the same second as an existing generated
      session replaces that session with an empty one. */
  lemma SameSecondCreationOverwrites(cfg: Config, st: Store, now: nat)
    requires WellFormed(st)
    requires GenerateSessionId(now) in Ids(st)
    ensures var r := GetOrCreateSession(cfg, st, None, now);
      r.sessionId == GenerateSessionId(now) &&
      Lookup(r.store, r.sessionId).value.messages == [] &&
      |r.store| <= |st|
  {
    var live := Cleanup(cfg, st, now);
    var id := GenerateSessionId(now);
    if id !in Ids(live) {
      var s :| s in st && s.sessionId == id;
      assert s !in live;
      if Expired(cfg, s, now) {
        RemoveExpiredDropsOne(cfg, st, now, s);
      } else {
        assert s in RemoveExpired(cfg, st, now);
      }
    }
  }

  lemma RemoveExpiredDropsOne(cfg: Config, st: Store, now: nat, s: Session)
    requires WellFormed(st) && s in st && Expired(cfg, s, now)
    ensures |RemoveExpired(cfg, st, now)| < |st|
    decreases |st|
  {
    WellFormedCons(st[0], st[1..]);
    assert st == [st[0]] + st[1..];
    if st[0] != s {
      assert s in st[1..];
      RemoveExpiredDropsOne(cfg, st[1..], now, s);
    }
  }

  // ---------------------------------------------------------------------
  // add_message

  /** The last message is more than `consecutive_timeout_minutes` old. */
  predicate GapExceeded(cfg: Config, s: Session, now: nat) {
    |s.messages| > 0 && now - s.messages[|s.messages| - 1].timestamp > cfg.consecutiveTimeoutMinutes * MillisPerMinute
  }

  /** The most recent `max` messages, in order. */
  function KeepRecent(msgs: seq<Message>, max: nat): (r: seq<Message>)
    ensures |r| == if |msgs| <= max then |msgs| else max
    ensures r == msgs[|msgs| - |r|..]
  {
    if |msgs| > max then msgs[|msgs| - max..] else msgs
  }

  /** Step one of `add_message`: a missing session is recreated under the same id. */
  function Recover(cfg: Config, st: Store, id: string, now: nat): (r: Resolved)
    requires WellFormed(st)
    ensures WellFormed(r.store) && Lookup(r.store, r.sessionId).Some?
  {
    if Lookup(st, id).Some? then Resolved(st, id)
    else GetOrCreateSession(cfg, st, Some(id), now)
  }

  /** Step two: where the message lands, after the time-gap rollover. */
  function Target(cfg: Config, st: Store, id: string, now: nat): (r: Resolved)
    requires WellFormed(st)
    ensures WellFormed(r.store) && Lookup(r.store, r.sessionId).Some?
  {
    var r1 := Recover(cfg, st, id, now);
    if GapExceeded(cfg, Lookup(r1.store, r1.sessionId).value, now) then
      GetOrCreateSession(cfg, r1.store, None, now)
    else r1
  }

  datatype Added = Added(store: Store, sessionId: string, ok: bool)

  /** `add_message(session_id, sender, text)`; `sessionId` in the result is
      the session the message landed in. */
  function AddMessage(cfg: Config, st: Store, id: string, sender: string, text: string, now: nat): (r: Added)
    requires WellFormed(st)
    ensures r.ok
    ensures WellFormed(r.store)
    ensures Lookup(r.store, r.sessionId).Some?
    ensures var s := Lookup(r.store, r.sessionId).value;
      && |s.messages| <= cfg.maxMessagesPerSession
      && s.lastActivity == now
      && (cfg.maxMessagesPerSession > 0 ==>
            |s.messages| > 0 && s.messages[|s.messages| - 1] == Message(sender, text, now, r.sessionId))
  {
    var t := Target(cfg, st, id, now);
    var s := Lookup(t.store, t.sessionId).value;
    var msg := Message(sender, text, now, t.sessionId);
    var s' := s.(messages := KeepRecent(s.messages + [msg], cfg.maxMessagesPerSession), lastActivity := now);
    Added(Put(t.store, s'), t.sessionId, true)
  }

  /** The session that receives the message keeps the most recent suffix of
      its previous messages followed by the new one, bounded by
      `max_messages_per_session`. */
  lemma AddMessageKeepsRecentSuffix(cfg: Config, st: Store, id: string, sender: string, text: string, now: nat)
    requires WellFormed(st)
    ensures var t := Target(cfg, st, id, now);
      var before := Lookup(t.store, t.sessionId).value.messages;
      var r := AddMessage(cfg, st, id, sender, text, now);
      var after := before + [Message(sender, text, now, r.sessionId)];
      && r.sessionId == t.sessionId
      && Lookup(r.store, r.sessionId).value.messages == after[|after| - |Lookup(r.store, r.sessionId).value.messages|..]
      && |Lookup(r.store, r.sessionId).value.messages| == if |after| <= cfg.maxMessagesPerSession then |after| else cfg.maxMessagesPerSession
  {
    var t := Target(cfg, st, id, now);
    var s := Lookup(t.store, t.sessionId).value;
    var kept := KeepRecent(s.messages + [Message(sender, text, now, t.sessionId)], cfg.maxMessagesPerSession);
    var s' := s.(messages := kept, lastActivity := now);
    assert AddMessage(cfg, st, id, sender, text, now) == Added(Put(t.store, s'), t.sessionId, true);
    assert Lookup(Put(t.store, s'), t.sessionId) == Some(s');
  }

  /** A live session whose last message is recent receives the message in
      place, and no other session changes. */
  lemma AddMessageToLiveSession(cfg: Config, st: Store, id: string, sender: string, text: string, now: nat)
    requires WellFormed(st)
    requires Lookup(st, id).Some? && !GapExceeded(cfg, Lookup(st, id).value, now)
    ensures var r := AddMessage(cfg, st, id, sender, text, now);
      && r.sessionId == id
      && Lookup(r.store, id).value.messages ==
           KeepRecent(Lookup(st, id).value.messages + [Message(sender, text, now, id)], cfg.maxMessagesPerSession)
      && forall other :: other != id ==> Lookup(r.store, other) == Lookup(st, other)
  {
  }

  /** A missing (non-empty) id is recreated under that same id, and the
      new session holds just the message. */
  lemma AddMessageRecreatesMissing(cfg: Config, st: Store, id: string, sender: string, text: string, now: nat)
    requires WellFormed(st)
    requires id != "" && Lookup(st, id).None?
    ensures var r := AddMessage(cfg, st, id, sender, text, now);
      && r.sessionId == id
      && Lookup(r.store, id).value.messages ==
           KeepRecent([Message(sender, text, now, id)], cfg.maxMessagesPerSession)
      && Lookup(r.store, id).value.createdAt == now
  {
    var r1 := Recover(cfg, st, id, now);
    assert Lookup(r1.store, r1.sessionId) == Some(Session(id, [], now, now));
    assert [] + [Message(sender, text, now, id)] == [Message(sender, text, now, id)];
  }

  /** After a time gap the message goes into a freshly generated session;
      the old session, if eviction kept it and the ids differ, is untouched. */
  lemma AddMessageRollsOverAfterGap(cfg: Config, st: Store, id: string, sender: string, text: string, now: nat)
    requires WellFormed(st)
    requires Lookup(st, id).Some? && GapExceeded(cfg, Lookup(st, id).value, now)
    ensures var r := AddMessage(cfg, st, id, sender, text, now);
      && r.sessionId == GenerateSessionId(now)
      && (id != r.sessionId ==> Lookup(r.store, id).None? || Lookup(r.store, id) == Lookup(st, id))
  {
    var r1 := Recover(cfg, st, id, now);
    assert r1 == Resolved(st, id);
    var t := GetOrCreateSession(cfg, st, None, now);
    var gen := GenerateSessionId(now);
    if id != gen && Lookup(t.store, id).Some? {
      var x := Lookup(t.store, id).value;
      assert x in st;
      LookupMember(st, x);
    }
  }

  // ---------------------------------------------------------------------
  // get_conversation_context

  /** `f"{message.sender}: {message.text}"` */
  function Render(m: Message): string {
    m.sender + ": " + m.text
  }

  function RenderAll(msgs: seq<Message>): (lines: seq<string>)
    ensures |lines| == |msgs|
    ensures forall i :: 0 <= i < |msgs| ==> lines[i] == Render(msgs[i])
  {
    seq(|msgs|, i requires 0 <= i < |msgs| => Render(msgs[i]))
  }

  /** `f"user: {current_question}"` */
  function QuestionLine(question: string): string {
    "user: " + question
  }

  /** Reference for the backward scan: how many of the most recent lines fit
      into `limit` on top of `used` characters, stopping at the first line
      that does not fit. */
  function FitFromEnd(lines: seq<string>, used: nat, limit: int): (k: nat)
    ensures k <= |lines|
    decreases |lines|
  {
    if |lines| == 0 || used + |lines[|lines| - 1]| > limit then 0
    else 1 + FitFromEnd(lines[..|lines| - 1], used + |lines[|lines| - 1]|, limit)
  }

  /** The lines `get_conversation_context` joins: the fitting history suffix,
      then the question line if it still fits. */
  function ContextParts(msgs: seq<Message>, question: string, limit: int): seq<string> {
    var lines := RenderAll(msgs);
    var hist := lines[|lines| - FitFromEnd(lines, 0, limit)..];
    if TotalLength(hist) + |QuestionLine(question)| <= limit then hist + [QuestionLine(question)] else hist
  }

  /** The `debug_info` dict: the two early returns carry only three keys. */
  datatype ContextStats =
    | Brief(sessionId: string, contextLength: nat, messageCount: nat)
    | Full(sessionId: string, contextLength: nat, messageCount: nat, totalSessionMessages: nat, contextTruncated: bool)

  /** The backward scan of `get_conversation_context`: walk from the most
      recent message towards the oldest, prepending each rendered line while
      the running total stays within `limit`, and stop at the first line
      that does not fit. */
  method RecentHistory(msgs: seq<Message>, limit: int) returns (hist: seq<string>, total: nat)
    ensures hist == RenderAll(msgs)[|msgs| - FitFromEnd(RenderAll(msgs), 0, limit)..]
    ensures total == TotalLength(hist)
  {
    hist, total := ScanFromEnd(RenderAll(msgs), limit);
  }

  /** The scan itself, over the rendered lines. */
  method ScanFromEnd(lines: seq<string>, limit: int) returns (hist: seq<string>, total: nat)
    ensures hist == lines[|lines| - FitFromEnd(lines, 0, limit)..]
    ensures total == TotalLength(hist)
  {
    hist, total := [], 0;
    var i := |lines|;
    ghost var unread := lines;
    while i > 0
      invariant 0 <= i <= |lines|
      invariant hist == lines[i..]
      invariant total == TotalLength(hist)
      invariant unread == lines[..i]
      invariant FitFromEnd(lines, 0, limit) == (|lines| - i) + FitFromEnd(unread, total, limit)
    {
      var line := lines[i - 1];
      if total + |line| > limit {
        break;
      }
      PrependLine(lines, i, hist);
      hist := [line] + hist;
      total := total + |line|;
      unread := unread[..|unread| - 1];
      i := i - 1;
    }
    assert FitFromEnd(unread, total, limit) == 0;
  }

  /** Taking one more line from the front of the unread part. */
  lemma PrependLine(lines: seq<string>, i: nat, hist: seq<string>)
    requires 0 < i <= |lines| && hist == lines[i..]
    ensures [lines[i - 1]] + hist == lines[i - 1..]
    ensures TotalLength([lines[i - 1]] + hist) == |lines[i - 1]| + TotalLength(hist)
    ensures lines[..i][..i - 1] == lines[..i - 1]
  {
    assert ([lines[i - 1]] + hist)[1..] == hist;
  }

  /** `get_conversation_context(session_id, current_question)` */
  method GetConversationContext(cfg: Config, st: Store, sessionId: string, question: string)
    returns (context: string, stats: ContextStats)
    ensures Lookup(st, sessionId).None? || Lookup(st, sessionId).value.messages == [] ==>
              context == "" && stats == Brief(sessionId, 0, 0)
    ensures Lookup(st, sessionId).Some? && Lookup(st, sessionId).value.messages != [] ==>
              var msgs := Lookup(st, sessionId).value.messages;
              var parts := ContextParts(msgs, question, cfg.maxContextLength);
              && context == Join("\n", parts)
              && stats == Full(sessionId, TotalLength(parts), |parts|, |msgs|, |parts| < |msgs|)
  {
    var found := Lookup(st, sessionId);
    if found.None? || found.value.messages == [] {
      return "", Brief(sessionId, 0, 0);
    }
    var msgs := found.value.messages;
    var parts, total := RecentHistory(msgs, cfg.maxContextLength);
    var q := QuestionLine(question);
    if total + |q| <= cfg.maxContextLength {
      TotalLengthAppend(parts, [q]);
      assert TotalLength([q]) == |q| by { assert [q][1..] == []; }
      parts := parts + [q];
      total := total + |q|;
    }
    context := Join("\n", parts);
    stats := Full(sessionId, total, |parts|, |msgs|, |parts| < |msgs|);
  }

  /** The history lines are a contiguous most-recent suffix whose summed
      lengths fit the budget, and the scan stops at the first line that
      does not fit. */
  lemma FitFromEndBudget(lines: seq<string>, used: nat, limit: int)
    ensures var k := FitFromEnd(lines, used, limit);
      && (k > 0 ==> used + TotalLength(lines[|lines| - k..]) <= limit)
      && (k < |lines| ==> used + TotalLength(lines[|lines| - k..]) + |lines[|lines| - k - 1]| > limit)
  {
    FitFromEndFits(lines, used, limit);
    FitFromEndStops(lines, used, limit);
  }

  /** Peeling the last line off a non-empty fitting suffix. */
  lemma SuffixSplit(lines: seq<string>, k: nat)
    requires 0 < k <= |lines|
    ensures var n := |lines|;
      TotalLength(lines[n - k..]) == TotalLength(lines[..n - 1][n - 1 - (k - 1)..]) + |lines[n - 1]|
  {
    var n := |lines|;
    assert lines[n - k..] == lines[..n - 1][n - 1 - (k - 1)..] + [lines[n - 1]];
    TotalLengthAppend(lines[..n - 1][n - 1 - (k - 1)..], [lines[n - 1]]);
    assert TotalLength([lines[n - 1]]) == |lines[n - 1]| by { assert [lines[n - 1]][1..] == []; }
  }

  lemma {:induction false} FitFromEndFits(lines: seq<string>, used: nat, limit: int)
    ensures var k := FitFromEnd(lines, used, limit);
      k > 0 ==> used + TotalLength(lines[|lines| - k..]) <= limit
    decreases |lines|
  {
    var k := FitFromEnd(lines, used, limit);
    if k > 0 {
      var n := |lines|;
      FitFromEndFits(lines[..n - 1], used + |lines[n - 1]|, limit);
      SuffixSplit(lines, k);
    }
  }

  lemma {:induction false} FitFromEndStops(lines: seq<string>, used: nat, limit: int)
    ensures var k := FitFromEnd(lines, used, limit);
      k < |lines| ==> used + TotalLength(lines[|lines| - k..]) + |lines[|lines| - k - 1]| > limit
    decreases |lines|
  {
    var k := FitFromEnd(lines, used, limit);
    var n := |lines|;
    if k == 0 {
      assert lines[n..] == [];
    } else if k < n {
      var init := lines[..n - 1];
      FitFromEndStops(init, used + |lines[n - 1]|, limit);
      SuffixSplit(lines, k);
      assert lines[n - k - 1] == init[|init| - (k - 1) - 1];
    }
  }

  /** The summed line lengths reported as `context_length` never exceed
      `max_context_length` unless nothing at all was included. */
  lemma ContextWithinBudget(msgs: seq<Message>, question: string, limit: int)
    ensures var parts := ContextParts(msgs, question, limit);
      parts == [] || TotalLength(parts) <= limit
  {
    var lines := RenderAll(msgs);
    var hist := lines[|lines| - FitFromEnd(lines, 0, limit)..];
    HistoryWithinBudget(lines, limit);
    AppendLineWithinBudget(hist, QuestionLine(question), limit);
  }

  /** The history suffix alone fits the budget, or is empty. */
  lemma HistoryWithinBudget(lines: seq<string>, limit: int)
    ensures var hist := lines[|lines| - FitFromEnd(lines, 0, limit)..];
      hist == [] || TotalLength(hist) <= limit
  {
    FitFromEndBudget(lines, 0, limit);
  }

  /** Appending a line only when the sum still fits keeps the budget. */
  lemma AppendLineWithinBudget(hist: seq<string>, q: string, limit: int)
    ensures TotalLength(hist) + |q| <= limit ==> TotalLength(hist + [q]) <= limit
  {
    TotalLengthAppend(hist, [q]);
    assert TotalLength([q]) == |q| by { assert [q][1..] == []; }
  }

  /** The budget ignores the "\n" separators: the text is one character
      longer than `context_length` per line after the first. */
  lemma ContextTextLength(msgs: seq<Message>, question: string, limit: int)
    ensures var parts := ContextParts(msgs, question, limit);
      parts != [] ==> |Join("\n", parts)| == TotalLength(parts) + |parts| - 1
  {
    var parts := ContextParts(msgs, question, limit);
    if parts != [] {
      JoinLength("\n", parts);
    }
  }

  /** `message_count` counts the question line too, so `context_truncated`
      can be false although a history message was left out: here the older
      of two messages does not fit but the question does. */
  lemma TruncationFlagMissesDroppedMessage()
    ensures var msgs := [Message("user", "aaaaaaaaaa", 0, "s"), Message("agent", "b", 1, "s")];
      var parts := ContextParts(msgs, "q", 20);
      && |parts| == |msgs|
      && !(|parts| < |msgs|)
      && parts == [Render(msgs[1]), QuestionLine("q")]
  {
    var msgs := [Message("user", "aaaaaaaaaa", 0, "s"), Message("agent", "b", 1, "s")];
    var lines := RenderAll(msgs);
    assert |lines[1]| == 8;
    assert |lines[0]| == 16;
    assert lines[..1] == [lines[0]];
    assert FitFromEnd(lines[..1], 8, 20) == 0;
    assert FitFromEnd(lines, 0, 20) == 1;
    var hist := lines[1..];
    assert hist == [lines[1]];
    assert TotalLength(hist) == 8 by { assert hist[1..] == []; }
  }

  /** Whether some history message was left out of the context: the
      history count compared with the session's message count. */
  function HistoryTruncated(msgs: seq<Message>, limit: int): (t: bool)
    ensures t <==> exists i :: 0 <= i < |msgs| && !IncludedInHistory(msgs, limit, i)
  {
    var k := FitFromEnd(RenderAll(msgs), 0, limit);
    if k < |msgs| then
      assert !IncludedInHistory(msgs, limit, |msgs| - k - 1);
      true
    else false
  }

  /** Message `i` is among the history lines of the context. */
  predicate IncludedInHistory(msgs: seq<Message>, limit: int, i: int) {
    |msgs| - FitFromEnd(RenderAll(msgs), 0, limit) <= i < |msgs|
  }

  /** The history lines of the context are the included messages, rendered
      in order; at most the question line follows them. */
  lemma IncludedMessagesAreHistoryLines(msgs: seq<Message>, question: string, limit: int)
    ensures var parts := ContextParts(msgs, question, limit);
      var first := |msgs| - FitFromEnd(RenderAll(msgs), 0, limit);
      && |msgs| - first <= |parts| <= |msgs| - first + 1
      && (forall i :: 0 <= i < |msgs| && IncludedInHistory(msgs, limit, i) ==> parts[i - first] == RenderAll(msgs)[i])
      && (|parts| > |msgs| - first ==> parts[|parts| - 1] == QuestionLine(question))
  {
    var lines := RenderAll(msgs);
    var first := |msgs| - FitFromEnd(lines, 0, limit);
    var parts := ContextParts(msgs, question, limit);
    ContextPartsShape(msgs, question, limit);
    HistoryPrefix(msgs, first, parts, QuestionLine(question));
  }

  lemma ContextPartsShape(msgs: seq<Message>, question: string, limit: int)
    ensures var hist := RenderAll(msgs)[|msgs| - FitFromEnd(RenderAll(msgs), 0, limit)..];
      ContextParts(msgs, question, limit) in {hist, hist + [QuestionLine(question)]}
  {
  }

  lemma HistoryPrefix(msgs: seq<Message>, first: nat, parts: seq<string>, q: string)
    requires first <= |msgs|
    requires parts in {RenderAll(msgs)[first..], RenderAll(msgs)[first..] + [q]}
    ensures |msgs| - first <= |parts| <= |msgs| - first + 1
    ensures forall i :: first <= i < |msgs| ==> parts[i - first] == RenderAll(msgs)[i]
    ensures |parts| > |msgs| - first ==> parts[|parts| - 1] == q
  {
    var hist := RenderAll(msgs)[first..];
    ExtendedByAtMostOne(hist, parts, q);
  }

  lemma ExtendedByAtMostOne(hist: seq<string>, parts: seq<string>, q: string)
    requires parts in {hist, hist + [q]}
    ensures |hist| <= |parts| <= |hist| + 1
    ensures forall j :: 0 <= j < |hist| ==> parts[j] == hist[j]
    ensures |parts| > |hist| ==> parts[|parts| - 1] == q
  {
  }
}
