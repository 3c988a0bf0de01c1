/** The room and presence state of the chat server (server.js): the message
    log of each room, who is typing in it and when each user was last active,
    with one method per request handler and the idle sweep. */
module Chat {
  import Markup

  datatype Option<T> = None | Some(value: T)

  /** A request field: absent, or the string the client sent. */
  type Field = Option<string>

  /** JavaScript truthiness of a request field: present and not empty. */
  predicate Given(f: Field)
  {
    f.Some? && f.value != ""
  }

  /** The property key a field selects: an absent field converts to "undefined". */
  function Key(f: Field): string
  {
    if f.Some? then f.value else "undefined"
  }

  /** A stored message: `{ system: true, text }` or `{ system: false, user, text }`;
      `typing` is the flag the message listing sets on stored posts. */
  datatype Message =
    | Notice(text: string)
    | Post(author: string, text: string, typing: bool)

  /** The HTTP outcome of a handler: 200, 400, a redirect to "/", or 500. */
  datatype Status = Ok | BadRequest | Redirect | ServerError

  const MAX_MESSAGES := 100
  const IDLE_TIMEOUT := 30000

  /* ---------- messages the handlers store ---------- */

  function CreatedNotice(stamp: string): Message
  {
    Notice(stamp + " Chat room created.")
  }

  function EnteredNotice(stamp: string, user: string): Message
  {
    Notice(stamp + " " + user + " has entered the room.")
  }

  function LeftNotice(stamp: string, user: string): Message
  {
    Notice(stamp + " " + user + " has left the room.")
  }

  function IdleNotice(stamp: string, user: string): Message
  {
    Notice(stamp + " " + user + " has been idle and left.")
  }

  function TextPost(stamp: string, user: string, text: string): Message
  {
    Post(user, stamp + " " + Markup.FormatMessage(text), false)
  }

  /** The post an upload stores; outputName is the file the re-encoded image
      was written to under uploads/. */
  function ImagePost(stamp: string, user: string, outputName: string): Message
  {
    var url := "/uploads/" + outputName;
    Post(user, stamp + "<br><a href=\"" + url + "\" target=\"_blank\"><img src=\"" + url + "\" width=\"150\"></a>", false)
  }

  /* ---------- the bounded log ---------- */

  /** addMessage on a log: append, then drop the oldest entry if the log is
      now longer than MAX_MESSAGES. */
  function Push(log: seq<Message>, m: Message): seq<Message>
  {
    var longer := log + [m];
    if |longer| > MAX_MESSAGES then longer[1..] else longer
  }

  /** The new message is last, the bound is kept, and the oldest entry is
      dropped exactly when the log was full; the rest keep their order. */
  lemma PushFifo(log: seq<Message>, m: Message)
    requires |log| <= MAX_MESSAGES
    ensures var r := Push(log, m);
      && |r| <= MAX_MESSAGES
      && r[|r| - 1] == m
      && (|log| < MAX_MESSAGES ==> r == log + [m])
      && (|log| == MAX_MESSAGES ==> r == log[1..] + [m])
  {
    if |log| == MAX_MESSAGES {
      assert (log + [m])[1..] == log[1..] + [m];
    }
  }

  /** Several messages pushed in order. */
  function PushAll(log: seq<Message>, ms: seq<Message>): seq<Message>
    decreases |ms|
  {
    if ms == [] then log else Push(PushAll(log, ms[..|ms| - 1]), ms[|ms| - 1])
  }

  /** The last MAX_MESSAGES entries of s. */
  function Newest(s: seq<Message>): (r: seq<Message>)
  {
    if |s| <= MAX_MESSAGES then s else s[|s| - MAX_MESSAGES..]
  }

  lemma NewestPush(s: seq<Message>, m: Message)
    ensures Push(Newest(s), m) == Newest(s + [m])
  {
    if |s| >= MAX_MESSAGES {
      var k := |s| - MAX_MESSAGES;
      assert (s[k..] + [m])[1..] == s[k + 1..] + [m];
      assert (s + [m])[k + 1..] == s[k + 1..] + [m];
    }
  }

  /** However many messages arrive, a log holds exactly the newest
      MAX_MESSAGES of everything appended, oldest first. */
  lemma {:induction false} PushAllKeepsNewest(log: seq<Message>, ms: seq<Message>)
    requires |log| <= MAX_MESSAGES
    ensures PushAll(log, ms) == Newest(log + ms)
    decreases |ms|
  {
    if ms == [] {
      assert log + ms == log;
    } else {
      var init, m := ms[..|ms| - 1], ms[|ms| - 1];
      PushAllKeepsNewest(log, init);
      assert ms == init + [m];
      assert log + ms == (log + init) + [m];
      NewestPush(log + init, m);
    }
  }

  /* ---------- the message listing ---------- */

  /** Whether the typing map says `user` is typing (`typing[room]?.[m.user]`). */
  predicate IsTyping(flags: map<string, bool>, user: string)
  {
    user in flags && flags[user]
  }

  /** The message listing's side effect on one stored message: a post whose
      author is typing gets its typing flag set; nothing ever clears it. */
  function Mark(m: Message, flags: map<string, bool>): Message
  {
    match m
    case Notice(_) => m
    case Post(author, text, typing) =>
      if IsTyping(flags, author) then Post(author, text, true) else m
  }

  function MarkAll(log: seq<Message>, flags: map<string, bool>): seq<Message>
  {
    seq(|log|, i requires 0 <= i < |log| => Mark(log[i], flags))
  }

  /** Marking keeps the log's length, order, kinds, authors and texts; a post
      is flagged afterwards iff it was before or its author is typing now. */
  lemma MarkAllMeaning(log: seq<Message>, flags: map<string, bool>, i: int)
    requires 0 <= i < |log|
    ensures |MarkAll(log, flags)| == |log|
    ensures var r, m := MarkAll(log, flags)[i], log[i];
      && r.Notice? == m.Notice?
      && r.text == m.text
      && (r.Notice? ==> r == m)
      && (r.Post? ==> r.author == m.author && (r.typing <==> m.typing || IsTyping(flags, m.author)))
  {
  }

  /** Listing twice with the same typing map stores the same log as listing once. */
  lemma {:induction false} MarkAllIdempotent(log: seq<Message>, flags: map<string, bool>)
    ensures MarkAll(MarkAll(log, flags), flags) == MarkAll(log, flags)
  {
    var once := MarkAll(log, flags);
    forall i | 0 <= i < |log|
      ensures MarkAll(once, flags)[i] == once[i]
    {
      match log[i]
      case Notice(_) =>
      case Post(a, t, ty) =>
    }
  }

  /* ---------- idle eviction ---------- */

  /** Users of one room whose last activity is more than IDLE_TIMEOUT before now. */
  function Idle(active: map<string, int>, now: int): set<string>
  {
    set u | u in active && now - active[u] > IDLE_TIMEOUT
  }

  /** Whoever is idle at some time is still idle later. */
  lemma IdleGrows(active: map<string, int>, now: int, later: int)
    requires now <= later
    ensures Idle(active, now) <= Idle(active, later)
  {
  }

  /** A user whose activity was just refreshed is not idle at that time, and
      refreshing one user leaves everyone else's idleness as it was. */
  lemma TouchedNotIdle(active: map<string, int>, u: string, now: int)
    ensures u !in Idle(active[u := now], now)
    ensures Idle(active[u := now], now) == Idle(active, now) - {u}
  {
  }

  /** `order` lists every element of `s` exactly once. */
  ghost predicate Ordering(order: seq<string>, s: set<string>)
  {
    && (forall i, j :: 0 <= i < j < |order| ==> order[i] != order[j])
    && (forall u :: u in order <==> u in s)
  }

  /** The notices a sweep appends for the users it evicts, in eviction order. */
  function IdleNotices(stamp: string, order: seq<string>): (ns: seq<Message>)
    ensures |ns| == |order|
    ensures forall i :: 0 <= i < |order| ==> ns[i] == IdleNotice(stamp, order[i])
    decreases |order|
  {
    if order == [] then []
    else IdleNotices(stamp, order[..|order| - 1]) + [IdleNotice(stamp, order[|order| - 1])]
  }

  /** After evicting the idle users nobody left is idle at the same time. */
  lemma NoneIdleAfterEviction(active: map<string, int>, now: int)
    ensures Idle(active - Idle(active, now), now) == {}
  {
    var rest := active - Idle(active, now);
    forall u | u in rest
      ensures now - rest[u] <= IDLE_TIMEOUT
    {
      assert u !in Idle(active, now);
    }
  }

  /** So a second sweep at the same time evicts nobody and appends nothing. */
  lemma SecondSweepAppendsNothing(active: map<string, int>, now: int, log: seq<Message>, stamp: string, order: seq<string>)
    requires Ordering(order, Idle(active - Idle(active, now), now))
    ensures order == []
    ensures PushAll(log, IdleNotices(stamp, order)) == log
  {
    NoneIdleAfterEviction(active, now);
    OrderingOfNothing(order);
  }

  /** Nobody to visit means an empty visit order. */
  lemma OrderingOfNothing(order: seq<string>)
    requires Ordering(order, {})
    ensures order == []
  {
    FirstIsMember(order);
  }

  lemma FirstIsMember(o: seq<string>)
    ensures o != [] ==> o[0] in o
  {
  }

  lemma OrderingSnoc(order: seq<string>, s: set<string>, u: string)
    requires Ordering(order, s) && u !in s
    ensures Ordering(order + [u], s + {u})
  {
    var o := order + [u];
    forall i, j | 0 <= i < j < |o|
      ensures o[i] != o[j]
    {
      if j == |order| {
        assert o[i] == order[i] && order[i] in order;
      } else {
        assert o[i] == order[i] && o[j] == order[j];
      }
    }
    forall v
      ensures v in o <==> v in s + {u}
    {
      if v in o {
        var k :| 0 <= k < |o| && o[k] == v;
        if k < |order| {
          assert order[k] == v;
        }
      }
      if v in order {
        var k :| 0 <= k < |order| && order[k] == v;
        assert o[k] == v;
      }
      assert o[|order|] == u;
    }
  }

  /** One room after a sweep at `now`, compared with before it: the idle users
      were evicted in the order `order`, each with one notice, and every other
      user keeps both entries. */
  ghost predicate RoomSwept(log0: seq<Message>, typing0: map<string, bool>, active0: map<string, int>,
                            log: seq<Message>, typing: map<string, bool>, active: map<string, int>,
                            order: seq<string>, now: int, stamp: string)
  {
    var idle := Idle(active0, now);
    && Ordering(order, idle)
    && log == PushAll(log0, IdleNotices(stamp, order))
    && active == active0 - idle
    && typing == typing0 - idle
  }

  /** A swept room has nobody idle left at the time of the sweep. */
  lemma SweptRoomHasNoIdle(log0: seq<Message>, typing0: map<string, bool>, active0: map<string, int>,
                            log: seq<Message>, typing: map<string, bool>, active: map<string, int>,
                            order: seq<string>, now: int, stamp: string)
    requires RoomSwept(log0, typing0, active0, log, typing, active, order, now, stamp)
    ensures Idle(active, now) == {}
  {
    NoneIdleAfterEviction(active0, now);
  }

  lemma RemoveOneMore<V>(m: map<string, V>, gone: set<string>, u: string)
    ensures (m - gone) - {u} == m - (gone + {u})
  {
  }

  lemma PushAllIdleSnoc(log0: seq<Message>, stamp: string, evicted: seq<string>, u: string)
    ensures PushAll(log0, IdleNotices(stamp, evicted + [u]))
         == Push(PushAll(log0, IdleNotices(stamp, evicted)), IdleNotice(stamp, u))
  {
    var e := evicted + [u];
    assert e[..|e| - 1] == evicted;
    var ns := IdleNotices(stamp, e);
    assert ns[..|ns| - 1] == IdleNotices(stamp, evicted);
  }

  /** Loop invariant of EvictIdle: `pending` users are still to be visited,
      the idle users visited so far (`gone`) were evicted in the order
      `evicted`, and the log holds their notices. */
  ghost predicate Evicting(log0: seq<Message>, flags0: map<string, bool>, active0: map<string, int>,
                           now: int, stamp: string, pending: set<string>, gone: set<string>, evicted: seq<string>,
                           log: seq<Message>, flags: map<string, bool>, active: map<string, int>)
  {
    && pending <= active0.Keys
    && gone == Idle(active0, now) - pending
    && Ordering(evicted, gone)
    && active == active0 - gone
    && flags == flags0 - gone
    && log == PushAll(log0, IdleNotices(stamp, evicted))
    && |log| <= MAX_MESSAGES
  }

  /** One visit of the eviction loop keeps its invariant. */
  lemma EvictStep(log0: seq<Message>, flags0: map<string, bool>, active0: map<string, int>,
                  now: int, stamp: string, pending: set<string>, gone: set<string>, evicted: seq<string>,
                  log: seq<Message>, flags: map<string, bool>, active: map<string, int>, u: string)
    requires Evicting(log0, flags0, active0, now, stamp, pending, gone, evicted, log, flags, active)
    requires u in pending
    ensures u in active && active[u] == active0[u]
    ensures now - active[u] > IDLE_TIMEOUT ==>
      Evicting(log0, flags0, active0, now, stamp, pending - {u}, gone + {u}, evicted + [u],
               Push(log, IdleNotice(stamp, u)), flags - {u}, active - {u})
    ensures now - active[u] <= IDLE_TIMEOUT ==>
      Evicting(log0, flags0, active0, now, stamp, pending - {u}, gone, evicted, log, flags, active)
  {
    IdleVisit(active0, now, pending, u);
    if now - active0[u] > IDLE_TIMEOUT {
      PushFifo(log, IdleNotice(stamp, u));
      PushAllIdleSnoc(log0, stamp, evicted, u);
      RemoveOneMore(active0, gone, u);
      RemoveOneMore(flags0, gone, u);
      OrderingSnoc(evicted, gone, u);
    }
  }

  /** Visiting `u` moves it from the pending users to the visited ones. */
  lemma IdleVisit(active0: map<string, int>, now: int, pending: set<string>, u: string)
    requires u in pending && pending <= active0.Keys
    ensures now - active0[u] > IDLE_TIMEOUT ==>
      Idle(active0, now) - (pending - {u}) == (Idle(active0, now) - pending) + {u}
    ensures now - active0[u] <= IDLE_TIMEOUT ==>
      Idle(active0, now) - (pending - {u}) == Idle(active0, now) - pending
    ensures u !in Idle(active0, now) - pending
  {
  }

  /** The inner loop of the idle sweep over one room's users: every user
      idle at `now` is evicted, in the visiting order `evicted`, with one
      notice each; everyone else keeps both entries. */
  method EvictIdle(log0: seq<Message>, flags0: map<string, bool>, active0: map<string, int>, now: int, stamp: string)
    returns (log: seq<Message>, flags: map<string, bool>, active: map<string, int>, ghost evicted: seq<string>)
    requires |log0| <= MAX_MESSAGES && flags0.Keys == active0.Keys
    ensures |log| <= MAX_MESSAGES && flags.Keys == active.Keys
    ensures RoomSwept(log0, flags0, active0, log, flags, active, evicted, now, stamp)
  {
    log, flags, active := log0, flags0, active0;
    var pending := active.Keys;
    evicted := [];
    ghost var gone: set<string> := {};
    assert active0 - {} == active0 && flags0 - {} == flags0;
    while pending != {}
      invariant Evicting(log0, flags0, active0, now, stamp, pending, gone, evicted, log, flags, active)
      decreases pending
    {
      var u :| u in pending;
      EvictStep(log0, flags0, active0, now, stamp, pending, gone, evicted, log, flags, active, u);
      if now - active[u] > IDLE_TIMEOUT {
        log := Push(log, IdleNotice(stamp, u));
        active := active - {u};
        flags := flags - {u};
        evicted := evicted + [u];
        gone := gone + {u};
      }
      pending := pending - {u};
    }
  }

  /** The rooms in `pending` are as they were before the sweep. */
  ghost predicate Untouched(R0: map<string, seq<Message>>, T0: map<string, map<string, bool>>, A0: map<string, map<string, int>>,
                            R: map<string, seq<Message>>, T: map<string, map<string, bool>>, A: map<string, map<string, int>>,
                            pending: set<string>)
  {
    forall r :: r in pending ==>
      && r in R0 && r in T0 && r in A0 && r in R && r in T && r in A
      && R[r] == R0[r] && T[r] == T0[r] && A[r] == A0[r]
  }

  /** Every room in `order` has been swept, its idle users evicted in the order `order[r]`. */
  ghost predicate AllSwept(R0: map<string, seq<Message>>, T0: map<string, map<string, bool>>, A0: map<string, map<string, int>>,
                           R: map<string, seq<Message>>, T: map<string, map<string, bool>>, A: map<string, map<string, int>>,
                           order: map<string, seq<string>>, now: int, stamp: string)
  {
    forall r :: r in order ==>
      && r in R0 && r in T0 && r in A0 && r in R && r in T && r in A
      && RoomSwept(R0[r], T0[r], A0[r], R[r], T[r], A[r], order[r], now, stamp)
  }

  /** Loop invariant of the sweep over rooms: the rooms in `pending` are as
      they were, every other room has been swept with the order `order[r]`. */
  ghost predicate SweepProgress(R0: map<string, seq<Message>>, T0: map<string, map<string, bool>>, A0: map<string, map<string, int>>,
                                R: map<string, seq<Message>>, T: map<string, map<string, bool>>, A: map<string, map<string, int>>,
                                pending: set<string>, order: map<string, seq<string>>, now: int, stamp: string)
  {
    && R.Keys == R0.Keys
    && pending <= R0.Keys
    && order.Keys == R0.Keys - pending
    && Untouched(R0, T0, A0, R, T, A, pending)
    && AllSwept(R0, T0, A0, R, T, A, order, now, stamp)
  }

  lemma UntouchedStep(R0: map<string, seq<Message>>, T0: map<string, map<string, bool>>, A0: map<string, map<string, int>>,
                      R: map<string, seq<Message>>, T: map<string, map<string, bool>>, A: map<string, map<string, int>>,
                      pending: set<string>, r: string,
                      log: seq<Message>, flags: map<string, bool>, active: map<string, int>)
    requires Untouched(R0, T0, A0, R, T, A, pending)
    ensures Untouched(R0, T0, A0, R[r := log], T[r := flags], A[r := active], pending - {r})
  {
  }

  lemma AllSweptStep(R0: map<string, seq<Message>>, T0: map<string, map<string, bool>>, A0: map<string, map<string, int>>,
                     R: map<string, seq<Message>>, T: map<string, map<string, bool>>, A: map<string, map<string, int>>,
                     order: map<string, seq<string>>, r: string,
                     log: seq<Message>, flags: map<string, bool>, active: map<string, int>, ev: seq<string>,
                     now: int, stamp: string)
    requires AllSwept(R0, T0, A0, R, T, A, order, now, stamp)
    requires r in R0 && r in T0 && r in A0
    requires RoomSwept(R0[r], T0[r], A0[r], log, flags, active, ev, now, stamp)
    ensures AllSwept(R0, T0, A0, R[r := log], T[r := flags], A[r := active], order[r := ev], now, stamp)
  {
  }

  /** Sweeping one more pending room keeps SweepProgress. */
  lemma SweepStep(R0: map<string, seq<Message>>, T0: map<string, map<string, bool>>, A0: map<string, map<string, int>>,
                  R: map<string, seq<Message>>, T: map<string, map<string, bool>>, A: map<string, map<string, int>>,
                  pending: set<string>, order: map<string, seq<string>>, r: string,
                  log: seq<Message>, flags: map<string, bool>, active: map<string, int>, ev: seq<string>,
                  now: int, stamp: string)
    requires SweepProgress(R0, T0, A0, R, T, A, pending, order, now, stamp)
    requires r in pending
    requires RoomSwept(R[r], T[r], A[r], log, flags, active, ev, now, stamp)
    ensures SweepProgress(R0, T0, A0, R[r := log], T[r := flags], A[r := active], pending - {r}, order[r := ev], now, stamp)
  {
    UntouchedStep(R0, T0, A0, R, T, A, pending, r, log, flags, active);
    AllSweptStep(R0, T0, A0, R, T, A, order, r, log, flags, active, ev, now, stamp);
  }

  /* ---------- the server state ---------- */

  /** The three maps the server keeps: room -> log, room -> user -> typing,
      room -> user -> last activity time. */
  class ChatServer {
    var rooms: map<string, seq<Message>>
    var typing: map<string, map<string, bool>>
    var lastActive: map<string, map<string, int>>

    /** Every room has all three entries, no log exceeds MAX_MESSAGES, and
        a user has a typing flag in a room iff it has an activity time there. */
    ghost predicate Valid()
      reads this
    {
      && rooms.Keys == typing.Keys == lastActive.Keys
      && (forall r :: r in rooms ==> |rooms[r]| <= MAX_MESSAGES)
      && (forall r :: r in typing ==> r in lastActive && typing[r].Keys == lastActive[r].Keys)
    }

    constructor ()
      ensures Valid()
      ensures rooms == map[] && typing == map[] && lastActive == map[]
    {
      rooms, typing, lastActive := map[], map[], map[];
    }

    /** addMessage: push onto a known room's log; an unknown room is ignored. */
    method AddMessage(room: string, msg: Message)
      requires Valid()
      modifies this
      ensures Valid()
      ensures typing == old(typing) && lastActive == old(lastActive)
      ensures room !in old(rooms) ==> rooms == old(rooms)
      ensures room in old(rooms) ==> rooms == old(rooms)[room := Push(old(rooms)[room], msg)]
    {
      if room in rooms {
        var log := rooms[room] + [msg];
        if |log| > MAX_MESSAGES {
          log := log[1..];
        }
        rooms := rooms[room := log];
      }
    }

    /** `rooms[name] = []; typing[name] = {}; lastActive[name] = {}`. */
    method OpenRoom(n: string)
      requires Valid() && n !in rooms
      modifies this
      ensures Valid()
      ensures rooms == old(rooms)[n := []]
      ensures typing == old(typing)[n := map[]]
      ensures lastActive == old(lastActive)[n := map[]]
    {
      rooms := rooms[n := []];
      typing := typing[n := map[]];
      lastActive := lastActive[n := map[]];
    }

    /** `typing[room][user] = flag; lastActive[room][user] = now`. */
    method Touch(r: string, u: string, flag: bool, now: int)
      requires Valid() && r in rooms
      modifies this
      ensures Valid()
      ensures rooms == old(rooms)
      ensures typing == old(typing)[r := old(typing)[r][u := flag]]
      ensures lastActive == old(lastActive)[r := old(lastActive)[r][u := now]]
    {
      typing := typing[r := typing[r][u := flag]];
      lastActive := lastActive[r := lastActive[r][u := now]];
    }

    /** `delete typing[room][user]; delete lastActive[room][user]`. */
    method Forget(r: string, u: string)
      requires Valid() && r in rooms
      modifies this
      ensures Valid()
      ensures rooms == old(rooms)
      ensures typing == old(typing)[r := old(typing)[r] - {u}]
      ensures lastActive == old(lastActive)[r := old(lastActive)[r] - {u}]
    {
      typing := typing[r := typing[r] - {u}];
      lastActive := lastActive[r := lastActive[r] - {u}];
    }

    /** POST /create-room: a new name gets empty presence maps and a log holding
        one creation notice; an existing name is left as it is. Always 200. */
    method CreateRoom(name: Field, stamp: string) returns (status: Status)
      requires Valid()
      modifies this
      ensures Valid()
      ensures status == Ok
      ensures Key(name) in old(rooms) ==> unchanged(this)
      ensures Key(name) !in old(rooms) ==>
        && rooms == old(rooms)[Key(name) := [CreatedNotice(stamp)]]
        && typing == old(typing)[Key(name) := map[]]
        && lastActive == old(lastActive)[Key(name) := map[]]
    {
      var n := Key(name);
      if n !in rooms {
        OpenRoom(n);
        AddMessage(n, CreatedNotice(stamp));
        assert [] + [CreatedNotice(stamp)] == [CreatedNotice(stamp)];
      }
      status := Ok;
    }

    /** GET /messages: the log of a known room in stored order, after flagging
        the posts whose authors are typing (which also changes the stored log);
        an empty list for an unknown room. */
    method Messages(room: Field) returns (msgs: seq<Message>)
      requires Valid()
      modifies this
      ensures Valid()
      ensures typing == old(typing) && lastActive == old(lastActive)
      ensures Key(room) !in old(rooms) ==> msgs == [] && rooms == old(rooms)
      ensures Key(room) in old(rooms) ==>
        && msgs == MarkAll(old(rooms)[Key(room)], typing[Key(room)])
        && rooms == old(rooms)[Key(room) := msgs]
    {
      var r := Key(room);
      if r !in rooms {
        return [];
      }
      msgs := MarkAll(rooms[r], typing[r]);
      rooms := rooms[r := msgs];
    }

    /** The precondition the presence handlers share: room and user given and
        the room known. */
    predicate Accepts(room: Field, user: Field)
      reads this
    {
      Given(room) && Given(user) && room.value in rooms
    }

    /** POST /join: an entry notice on every call, typing cleared, activity refreshed. */
    method Join(room: Field, user: Field, now: int, stamp: string) returns (status: Status)
      requires Valid()
      modifies this
      ensures Valid()
      ensures status == (if old(Accepts(room, user)) then Ok else BadRequest)
      ensures status == BadRequest ==> unchanged(this)
      ensures status == Ok ==>
        var r, u := room.value, user.value;
        && rooms == old(rooms)[r := Push(old(rooms)[r], EnteredNotice(stamp, u))]
        && typing == old(typing)[r := old(typing)[r][u := false]]
        && lastActive == old(lastActive)[r := old(lastActive)[r][u := now]]
    {
      if !Given(room) || !Given(user) {
        return BadRequest;
      }
      var r, u := room.value, user.value;
      if r !in rooms {
        return BadRequest;
      }
      AddMessage(r, EnteredNotice(stamp, u));
      Touch(r, u, false, now);
      status := Ok;
    }

    /** POST /leave: a departure notice (even for a user who never joined) and
        the user's presence entries removed. */
    method Leave(room: Field, user: Field, stamp: string) returns (status: Status)
      requires Valid()
      modifies this
      ensures Valid()
      ensures status == (if old(Accepts(room, user)) then Ok else BadRequest)
      ensures status == BadRequest ==> unchanged(this)
      ensures status == Ok ==>
        var r, u := room.value, user.value;
        && rooms == old(rooms)[r := Push(old(rooms)[r], LeftNotice(stamp, u))]
        && typing == old(typing)[r := old(typing)[r] - {u}]
        && lastActive == old(lastActive)[r := old(lastActive)[r] - {u}]
    {
      if !Given(room) || !Given(user) {
        return BadRequest;
      }
      var r, u := room.value, user.value;
      if r !in rooms {
        return BadRequest;
      }
      AddMessage(r, LeftNotice(stamp, u));
      Forget(r, u);
      status := Ok;
    }

    /** POST /send: one formatted post by the user, activity refreshed and
        typing cleared. */
    method Send(room: Field, user: Field, text: Field, now: int, stamp: string) returns (status: Status)
      requires Valid()
      modifies this
      ensures Valid()
      ensures status == (if old(Accepts(room, user)) && Given(text) then Ok else BadRequest)
      ensures status == BadRequest ==> unchanged(this)
      ensures status == Ok ==>
        var r, u := room.value, user.value;
        && rooms == old(rooms)[r := Push(old(rooms)[r], TextPost(stamp, u, text.value))]
        && typing == old(typing)[r := old(typing)[r][u := false]]
        && lastActive == old(lastActive)[r := old(lastActive)[r][u := now]]
    {
      if !Given(room) || !Given(user) || !Given(text) {
        return BadRequest;
      }
      var r, u := room.value, user.value;
      if r !in rooms {
        return BadRequest;
      }
      AddMessage(r, TextPost(stamp, u, text.value));
      Touch(r, u, false, now);
      status := Ok;
    }

    /** POST /typing: the flag becomes the truthiness of the submitted value and
        activity is refreshed; no message is stored. */
    method SetTyping(room: Field, user: Field, isTyping: bool, now: int) returns (status: Status)
      requires Valid()
      modifies this
      ensures Valid()
      ensures status == (if old(Accepts(room, user)) then Ok else BadRequest)
      ensures rooms == old(rooms)
      ensures status == BadRequest ==> unchanged(this)
      ensures status == Ok ==>
        var r, u := room.value, user.value;
        && typing == old(typing)[r := old(typing)[r][u := isTyping]]
        && lastActive == old(lastActive)[r := old(lastActive)[r][u := now]]
    {
      if !Given(room) || !Given(user) {
        return BadRequest;
      }
      var r, u := room.value, user.value;
      if r !in rooms {
        return BadRequest;
      }
      Touch(r, u, isTyping, now);
      status := Ok;
    }

    /** POST /upload, after the image has been accepted and re-encoded:
        `hasImage` says whether the upload filter passed a file on, and `stored`
        is the name the re-encoded image was written under, or None when the
        image library or the file removal threw. */
    method Upload(room: Field, user: Field, hasImage: bool, stored: Option<string>, now: int, stamp: string)
      returns (status: Status)
      requires Valid()
      modifies this
      ensures Valid()
      ensures !(old(Accepts(room, user)) && hasImage) ==> status == BadRequest
      ensures old(Accepts(room, user)) && hasImage ==> status == (if stored.Some? then Redirect else ServerError)
      ensures status != Redirect ==> unchanged(this)
      ensures status == Redirect ==>
        var r, u := room.value, user.value;
        && rooms == old(rooms)[r := Push(old(rooms)[r], ImagePost(stamp, u, stored.value))]
        && typing == old(typing)[r := old(typing)[r][u := false]]
        && lastActive == old(lastActive)[r := old(lastActive)[r][u := now]]
    {
      if !Given(room) || !Given(user) || !hasImage {
        return BadRequest;
      }
      var r, u := room.value, user.value;
      if r !in rooms {
        return BadRequest;
      }
      if stored.None? {
        return ServerError;
      }
      AddMessage(r, ImagePost(stamp, u, stored.value));
      Touch(r, u, false, now);
      status := Redirect;
    }

    /** The idle check for one room, written back into the three maps. */
    method SweepRoom(r: string, now: int, stamp: string) returns (ghost evicted: seq<string>)
      requires Valid() && r in rooms
      modifies this
      ensures Valid()
      ensures rooms.Keys == old(rooms).Keys
      ensures rooms == old(rooms)[r := rooms[r]]
      ensures typing == old(typing)[r := typing[r]]
      ensures lastActive == old(lastActive)[r := lastActive[r]]
      ensures RoomSwept(old(rooms)[r], old(typing)[r], old(lastActive)[r], rooms[r], typing[r], lastActive[r], evicted, now, stamp)
    {
      var log, flags, active;
      log, flags, active, evicted := EvictIdle(rooms[r], typing[r], lastActive[r], now, stamp);
      rooms := rooms[r := log];
      typing := typing[r := flags];
      lastActive := lastActive[r := active];
    }

    /** The idle-sweep callback: each room swept in turn. `order` records the
        order in which each room's idle users were evicted. */
    method Sweep(now: int, stamp: string) returns (ghost order: map<string, seq<string>>)
      requires Valid()
      modifies this
      ensures Valid()
      ensures rooms.Keys == old(rooms).Keys && order.Keys == rooms.Keys
      ensures forall r :: r in rooms ==>
        RoomSwept(old(rooms)[r], old(typing)[r], old(lastActive)[r], rooms[r], typing[r], lastActive[r], order[r], now, stamp)
      ensures forall r :: r in lastActive ==> Idle(lastActive[r], now) == {}
    {
      var pending := lastActive.Keys;
      order := map[];
      while pending != {}
        invariant Valid()
        invariant SweepProgress(old(rooms), old(typing), old(lastActive), rooms, typing, lastActive, pending, order, now, stamp)
        decreases pending
      {
        var r :| r in pending;
        ghost var R, T, A := rooms, typing, lastActive;
        ghost var ev := SweepRoom(r, now, stamp);
        SweepStep(old(rooms), old(typing), old(lastActive), R, T, A, pending, order, r, rooms[r], typing[r], lastActive[r], ev, now, stamp);
        order := order[r := ev];
        pending := pending - {r};
      }
      forall r | r in lastActive
        ensures Idle(lastActive[r], now) == {}
      {
        SweptRoomHasNoIdle(old(rooms)[r], old(typing)[r], old(lastActive)[r], rooms[r], typing[r], lastActive[r], order[r], now, stamp);
      }
    }
  }
}
