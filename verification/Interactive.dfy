/** Waiting for an interactive reply: unrelated messages are set aside and put back. */
module Interactive {
  import opened Bytes

  const BUS_QUEUE_LEN: nat := 16
  const DEFERRED_MAX: nat := 16
  const VALUE_LEN: nat := 2048

  /** "__interactive_reply__:" */
  const REPLY_PREFIX: Bytes :=
    [95, 95, 105, 110, 116, 101, 114, 97, 99, 116, 105, 118, 101, 95, 114, 101, 112, 108, 121, 95, 95, 58]

  // ----- The reply format -----

  datatype Reply = Reply(value: Bytes, cancelled: bool)

  predicate ColonFree(s: Bytes) {
    forall i :: 0 <= i < |s| ==> s[i] != COLON
  }

  datatype Halves = Halves(left: Bytes, right: Bytes)

  /** The text in front of and behind the first colon. */
  function SplitFirst(s: Bytes): Option<Halves> {
    if s == [] then None
    else if s[0] == COLON then Some(Halves([], s[1..]))
    else
      match SplitFirst(s[1..])
      case None => None
      case Some(h) => Some(Halves([s[0]] + h.left, h.right))
  }

  /** The text in front of and behind the last colon. */
  function SplitLast(s: Bytes): Option<Halves> {
    if s == [] then None
    else
      var n := |s| - 1;
      if s[n] == COLON then Some(Halves(s[..n], []))
      else
        match SplitLast(s[..n])
        case None => None
        case Some(h) => Some(Halves(h.left, h.right + [s[n]]))
  }

  /** At most 2047 bytes of a value are kept. */
  function Cut(value: Bytes): Bytes {
    if |value| >= VALUE_LEN then value[..VALUE_LEN - 1] else value
  }

  /** parse_interactive_reply. */
  function ParseReply(payload: Bytes, kind: Bytes, id: Bytes): Option<Reply> {
    if !(REPLY_PREFIX <= payload) then None
    else
      match SplitFirst(payload[|REPLY_PREFIX|..])
      case None => None
      case Some(first) =>
        match SplitFirst(first.right)
        case None => None
        case Some(second) =>
          match SplitLast(second.right)
          case None => None
          case Some(third) =>
            if first.left != kind || second.left != id then None
            else Some(Reply(Cut(third.left), third.right != [] && third.right[0] == 49))
  }

  /** The payload the gateway builds: prefix, kind, id, value and flag, with colons between them. */
  function Payload(kind: Bytes, id: Bytes, value: Bytes, flag: Bytes): Bytes {
    REPLY_PREFIX + (kind + [COLON] + (id + [COLON] + (value + [COLON] + flag)))
  }

  lemma {:induction false} SplitFirstIs(s: Bytes, a: Bytes, b: Bytes)
    ensures SplitFirst(s) == Some(Halves(a, b)) <==> s == a + [COLON] + b && ColonFree(a)
  {
    if s != [] && s[0] == COLON {
      if a == [] {
        assert s == [COLON] + s[1..];
      }
    } else if s != [] && a != [] {
      SplitFirstIs(s[1..], a[1..], b);
      assert a == [a[0]] + a[1..];
      assert (a + [COLON] + b)[1..] == a[1..] + [COLON] + b;
      assert s == [s[0]] + s[1..];
    }
  }

  lemma {:induction false} SplitLastIs(s: Bytes, a: Bytes, b: Bytes)
    ensures SplitLast(s) == Some(Halves(a, b)) <==> s == a + [COLON] + b && ColonFree(b)
  {
    var n, m := |s| - 1, |b| - 1;
    if s != [] && s[n] == COLON {
      if b == [] {
        assert s == s[..n] + [COLON];
        assert a + [COLON] + b == a + [COLON];
      }
    } else if s != [] && b != [] {
      SplitLastIs(s[..n], a, b[..m]);
      assert b == b[..m] + [b[m]];
      assert (a + [COLON] + b)[..|a| + 1 + m] == a + [COLON] + b[..m];
      assert s == s[..n] + [s[n]];
    }
  }

  ghost predicate Formatted(payload: Bytes, kind: Bytes, id: Bytes, value: Bytes, flag: Bytes, reply: Reply) {
    && payload == Payload(kind, id, value, flag) && ColonFree(kind) && ColonFree(id) && ColonFree(flag)
    && reply == Reply(Cut(value), flag != [] && flag[0] == 49)
  }

  /** A reply is recognised exactly when it has the format, with the wanted kind and id. */
  lemma ReplyFormat(payload: Bytes, kind: Bytes, id: Bytes, reply: Reply)
    ensures ParseReply(payload, kind, id) == Some(reply) <==>
      exists value, flag :: Formatted(payload, kind, id, value, flag, reply)
  {
    if ParseReply(payload, kind, id) == Some(reply) {
      hide SplitFirst, SplitLast, ColonFree, Cut;
      var rest := payload[|REPLY_PREFIX|..];
      assert payload == REPLY_PREFIX + rest;
      var first := SplitFirst(rest).value;
      SplitFirstIs(rest, first.left, first.right);
      var second := SplitFirst(first.right).value;
      SplitFirstIs(first.right, second.left, second.right);
      var third := SplitLast(second.right).value;
      SplitLastIs(second.right, third.left, third.right);
      assert Formatted(payload, kind, id, third.left, third.right, reply);
    }
    if exists value, flag :: Formatted(payload, kind, id, value, flag, reply) {
      var value, flag :| Formatted(payload, kind, id, value, flag, reply);
      PayloadParses(kind, id, value, flag);
    }
  }

  /** What the gateway sends is read back, with the value cut to the reply buffer. */
  lemma PayloadParses(kind: Bytes, id: Bytes, value: Bytes, flag: Bytes)
    requires ColonFree(kind) && ColonFree(id) && ColonFree(flag)
    ensures ParseReply(Payload(kind, id, value, flag), kind, id) == Some(Reply(Cut(value), flag != [] && flag[0] == 49))
  {
    hide SplitFirst, SplitLast, ColonFree, Cut;
    var tail := value + [COLON] + flag;
    var after := id + [COLON] + tail;
    var rest := kind + [COLON] + after;
    assert Payload(kind, id, value, flag)[|REPLY_PREFIX|..] == rest;
    SplitFirstIs(rest, kind, after);
    SplitFirstIs(after, id, tail);
    SplitLastIs(tail, value, flag);
  }

  // ----- The inbound queue -----

  datatype Message = Message(channel: Bytes, chat: Bytes, content: Bytes)

  /** What the waiting turn is about: its channel and chat, and the chat of its parent or []. */
  datatype Turn = Turn(channel: Bytes, chat: Bytes, parentChat: Bytes)

  predicate Matches(m: Message, turn: Turn, kind: Bytes, id: Bytes) {
    && m.channel == turn.channel
    && (m.chat == turn.chat || (turn.parentChat != [] && m.chat == turn.parentChat))
    && ParseReply(m.content, kind, id).Some?
  }

  function Push(q: seq<Message>, m: Message): seq<Message> {
    if |q| < BUS_QUEUE_LEN then q + [m] else q
  }

  /** What another thread does with the queue. */
  datatype Event = Put(message: Message) | Take

  function Next(q: seq<Message>, e: Event): seq<Message> {
    match e
    case Put(m) => Push(q, m)
    case Take => if q == [] then [] else q[1..]
  }

  function After(q: seq<Message>, events: seq<Event>): (r: seq<Message>)
    ensures |q| <= BUS_QUEUE_LEN ==> |r| <= BUS_QUEUE_LEN
    decreases events
  {
    if events == [] then q else After(Next(q, events[0]), events[1..])
  }

  function Puts(ms: seq<Message>): seq<Event> {
    seq(|ms|, i requires 0 <= i < |ms| => Put(ms[i]))
  }

  /** The messages that find room behind q. */
  function Accepted(q: seq<Message>, ms: seq<Message>): seq<Message>
    requires |q| <= BUS_QUEUE_LEN
  {
    if |ms| <= BUS_QUEUE_LEN - |q| then ms else ms[..BUS_QUEUE_LEN - |q|]
  }

  /** Pushing keeps everything that fits, in order, and drops the rest. */
  lemma {:induction false} PushAllKeeps(q: seq<Message>, ms: seq<Message>)
    requires |q| <= BUS_QUEUE_LEN
    ensures After(q, Puts(ms)) == q + Accepted(q, ms)
    ensures Accepted(q, ms) == ms <==> |q| + |ms| <= BUS_QUEUE_LEN
    decreases ms
  {
    if ms != [] {
      PushAllKeeps(Push(q, ms[0]), ms[1..]);
      assert ms == [ms[0]] + ms[1..] && Puts(ms)[1..] == Puts(ms[1..]);
    }
  }

  class Bus {
    var inbound: seq<Message>

    ghost predicate Valid()
      reads this
    {
      |inbound| <= BUS_QUEUE_LEN
    }

    /** message_bus_push_inbound: a message that finds the queue full is dropped. */
    method PushInbound(m: Message) returns (ok: bool)
      requires Valid()
      modifies this
      ensures Valid() && inbound == Push(old(inbound), m) && ok == (|old(inbound)| < 16)
    {
      ok := |inbound| < BUS_QUEUE_LEN;
      if ok {
        inbound := inbound + [m];
      }
    }

    method PopInbound() returns (m: Option<Message>)
      requires Valid()
      modifies this
      ensures Valid() && m.None? == (old(inbound) == [])
      ensures old(inbound) == (if m.Some? then [m.value] else []) + inbound
    {
      if inbound == [] {
        return None;
      }
      m := Some(inbound[0]);
      inbound := inbound[1..];
    }

    /** Other producers and consumers. */
    method Others(events: seq<Event>)
      requires Valid()
      modifies this
      ensures Valid() && inbound == After(old(inbound), events)
    {
      for i := 0 to |events|
        invariant Valid() && After(inbound, events[i..]) == After(old(inbound), events)
      {
        match events[i]
        case Put(m) => var ok := PushInbound(m);
        case Take => var taken := PopInbound();
      }
    }
  }

  // ----- The wait -----

  /** What other threads do in one round: before the pop, and between the pop and a push back. */
  datatype Round = Round(before: seq<Event>, between: seq<Event>)

  /** The queue, the messages set aside, the reply, what arrived from others and what they took, what was lost, and
      the lengths of the queue that the wait's own pushes met. */
  datatype State = State(queue: seq<Message>, aside: seq<Message>, reply: Option<Message>,
                         arrived: seq<Message>, taken: seq<Message>, lost: seq<Message>, met: seq<nat>)

  function Start(q: seq<Message>): State {
    State(q, [], None, [], [], [], [])
  }

  predicate Bounded(st: State) {
    |st.queue| <= BUS_QUEUE_LEN && |st.aside| <= DEFERRED_MAX
  }

  /** An event of another thread, with what arrived or was taken. */
  function Noted(st: State, e: Event): State {
    match e
    case Put(m) =>
      if |st.queue| < BUS_QUEUE_LEN then st.(queue := st.queue + [m], arrived := st.arrived + [m]) else st
    case Take =>
      if st.queue == [] then st else st.(queue := st.queue[1..], taken := st.taken + [st.queue[0]])
  }

  function Acted(st: State, events: seq<Event>): (r: State)
    ensures r.queue == After(st.queue, events)
    ensures r == st.(queue := r.queue, arrived := r.arrived, taken := r.taken)
    decreases events
  {
    if events == [] then st else Acted(Noted(st, events[0]), events[1..])
  }

  /** A push of the wait itself; it has no second try when the queue stays full. */
  function Pushed(st: State, m: Message): State {
    var met := st.(met := st.met + [|st.queue|]);
    if |st.queue| < BUS_QUEUE_LEN then met.(queue := st.queue + [m]) else met.(lost := st.lost + [m])
  }

  function Taken(st: State, round: Round, turn: Turn, kind: Bytes, id: Bytes): (r: State)
    requires Bounded(st)
    ensures Bounded(r)
  {
    var now := Acted(st, round.before);
    if now.queue == [] then now
    else
      var m, rest := now.queue[0], now.(queue := now.queue[1..]);
      if Matches(m, turn, kind, id) then rest.(reply := Some(m))
      else if |rest.aside| < DEFERRED_MAX then rest.(aside := rest.aside + [m])
      else Pushed(Acted(rest, round.between), m)
  }

  /** The loop, up to the reply. */
  function Loop(st: State, rounds: seq<Round>, turn: Turn, kind: Bytes, id: Bytes): (r: State)
    requires Bounded(st)
    ensures Bounded(r)
    decreases rounds
  {
    if rounds == [] || st.reply.Some? then st
    else Loop(Taken(st, rounds[0], turn, kind, id), rounds[1..], turn, kind, id)
  }

  /** Pushing back what was set aside, with events before every push. */
  function Requeued(st: State, late: seq<seq<Event>>): (r: State)
    requires Bounded(st)
    ensures Bounded(r) && r.aside == [] && r.reply == st.reply
    decreases |st.aside|
  {
    if st.aside == [] then st
    else
      var now := Acted(st, if late == [] then [] else late[0]);
      Requeued(Pushed(now.(aside := st.aside[1..]), st.aside[0]), if late == [] then [] else late[1..])
  }

  /** The whole wait. */
  function Waited(q: seq<Message>, rounds: seq<Round>, late: seq<seq<Event>>, turn: Turn, kind: Bytes,
                  id: Bytes): State
    requires |q| <= BUS_QUEUE_LEN
  {
    Requeued(Loop(Start(q), rounds, turn, kind, id), late)
  }

  /** channel_runtime_wait_interactive_reply; the rounds are the times the deadline test passes. */
  method WaitInteractiveReply(bus: Bus, turn: Turn, kind: Bytes, id: Bytes, rounds: seq<Round>, late: seq<seq<Event>>)
    returns (reply: Option<Reply>)
    requires bus.Valid()
    modifies bus
    ensures bus.Valid() && (kind == [] || id == [] ==> reply == None && bus.inbound == old(bus.inbound))
    ensures kind != [] && id != [] ==>
      var st := Waited(old(bus.inbound), rounds, late, turn, kind, id);
      && bus.inbound == st.queue
      && reply == if st.reply.Some? then ParseReply(st.reply.value.content, kind, id) else None
  {
    reply := None;
    if kind == [] || id == [] {
      return;
    }
    var deferred := [];
    ghost var st := Start(bus.inbound);
    ghost var all := Loop(st, rounds, turn, kind, id);
    var n := 0;
    while n < |rounds| && reply.None?
      invariant 0 <= n <= |rounds| && bus.Valid() && Bounded(st)
      invariant st.queue == bus.inbound && st.aside == deferred
      invariant reply == if st.reply.Some? then ParseReply(st.reply.value.content, kind, id) else None
      invariant st.reply.Some? == reply.Some? && Loop(st, rounds[n..], turn, kind, id) == all
    {
      hide Taken, ParseReply;
      st := Taken(st, rounds[n], turn, kind, id);
      reply, deferred := TakeMessage(bus, deferred, rounds[n], turn, kind, id);
      n := n + 1;
    }
    PutBack(bus, deferred, late);
    SameRequeue(st, State(st.queue, st.aside, None, [], [], [], []), late);
  }

  /** One round: a message is the reply, set aside, or pushed back. */
  method TakeMessage(bus: Bus, deferred: seq<Message>, round: Round, turn: Turn, kind: Bytes, id: Bytes)
    returns (reply: Option<Reply>, deferred': seq<Message>)
    requires bus.Valid() && |deferred| <= DEFERRED_MAX
    modifies bus
    ensures bus.Valid()
    ensures forall st: State ::
      Bounded(st) && st.queue == old(bus.inbound) && st.aside == deferred && st.reply.None? ==>
      var r := Taken(st, round, turn, kind, id);
      && r.queue == bus.inbound && r.aside == deferred' && r.reply.Some? == reply.Some?
      && reply == if r.reply.Some? then ParseReply(r.reply.value.content, kind, id) else None
  {
    hide ParseReply;
    reply, deferred' := None, deferred;
    bus.Others(round.before);
    var incoming := bus.PopInbound();
    if incoming.None? {
      return;
    }
    if Matches(incoming.value, turn, kind, id) {
      reply := ParseReply(incoming.value.content, kind, id);
    } else if |deferred| < DEFERRED_MAX {
      deferred' := deferred + [incoming.value];
    } else {
      bus.Others(round.between);
      var ok := bus.PushInbound(incoming.value);
    }
  }

  /** The pushes behind the loop. */
  method PutBack(bus: Bus, deferred: seq<Message>, late: seq<seq<Event>>)
    requires bus.Valid() && |deferred| <= DEFERRED_MAX
    modifies bus
    ensures bus.Valid() && bus.inbound == Requeued(State(old(bus.inbound), deferred, None, [], [], [], []), late).queue
  {
    ghost var st := State(bus.inbound, deferred, None, [], [], [], []);
    ghost var final := Requeued(st, late);
    var k := 0;
    while k < |deferred|
      invariant 0 <= k <= |deferred| && bus.Valid() && Bounded(st)
      invariant st.queue == bus.inbound && st.aside == deferred[k..]
      invariant Requeued(st, if k <= |late| then late[k..] else []) == final
    {
      var events := if k < |late| then late[k] else [];
      bus.Others(events);
      var ok := bus.PushInbound(deferred[k]);
      st := Pushed(Acted(st, events).(aside := st.aside[1..]), st.aside[0]);
      k := k + 1;
    }
  }

  /** What is pushed back depends on the queue and the messages set aside alone. */
  lemma {:induction false} SameRequeue(a: State, b: State, late: seq<seq<Event>>)
    requires Bounded(a) && a.queue == b.queue && a.aside == b.aside
    ensures Requeued(a, late).queue == Requeued(b, late).queue
    decreases |a.aside|
  {
    if a.aside != [] {
      var events := if late == [] then [] else late[0];
      SameRequeue(Pushed(Acted(a, events).(aside := a.aside[1..]), a.aside[0]),
                  Pushed(Acted(b, events).(aside := b.aside[1..]), b.aside[0]), if late == [] then [] else late[1..]);
    }
  }

  // ----- No message is lost -----

  /** How often a message occurs. */
  function Times(ms: seq<Message>, m: Message): nat {
    multiset(ms)[m]
  }

  lemma TimesConcat(a: seq<Message>, b: seq<Message>, m: Message)
    ensures Times(a + b, m) == Times(a, m) + Times(b, m)
  {
  }

  function Replied(reply: Option<Message>): multiset<Message> {
    if reply.Some? then multiset{reply.value} else multiset{}
  }

  /** Copies of m that are somewhere, lost and taken ones included, less those that arrived. */
  function Balance(st: State, m: Message): int {
    Times(st.queue, m) + Times(st.aside, m) + Replied(st.reply)[m] + Times(st.taken, m) + Times(st.lost, m)
    - Times(st.arrived, m)
  }

  /** Something is lost exactly when an own push met a full queue. */
  ghost predicate LostWhenFull(st: State) {
    st.lost == [] <==> forall p <- st.met :: p < BUS_QUEUE_LEN
  }

  lemma NotedBalance(st: State, e: Event)
    ensures forall m :: Balance(Noted(st, e), m) == Balance(st, m)
  {
    hide Times;
    forall m ensures Balance(Noted(st, e), m) == Balance(st, m) {
      if e.Put? {
        TimesConcat(st.queue, [e.message], m);
        TimesConcat(st.arrived, [e.message], m);
      } else if st.queue != [] {
        FirstTaken(st.queue, m);
        TimesConcat(st.taken, [st.queue[0]], m);
      }
    }
  }

  lemma {:induction false} ActedBalance(st: State, events: seq<Event>)
    ensures forall m :: Balance(Acted(st, events), m) == Balance(st, m)
    ensures LostWhenFull(st) ==> LostWhenFull(Acted(st, events))
    decreases events
  {
    hide Balance;
    if events != [] {
      NotedBalance(st, events[0]);
      ActedBalance(Noted(st, events[0]), events[1..]);
    }
  }

  lemma PushedBalance(st: State, x: Message)
    ensures forall m :: Balance(Pushed(st, x), m) == Balance(st, m) + Times([x], m)
    ensures LostWhenFull(st) ==> LostWhenFull(Pushed(st, x))
  {
    hide Times;
    forall m ensures Balance(Pushed(st, x), m) == Balance(st, m) + Times([x], m) {
      TimesConcat(st.queue, [x], m);
      TimesConcat(st.lost, [x], m);
    }
    PushedLoses(st, x);
  }

  lemma PushedLoses(st: State, x: Message)
    ensures LostWhenFull(st) ==> LostWhenFull(Pushed(st, x))
  {
    var after, length := Pushed(st, x), |st.queue|;
    assert after.met == st.met + [length] && length in after.met;
    assert forall p :: p in after.met <==> p in st.met || p == length;
    assert length >= BUS_QUEUE_LEN ==> after.lost == st.lost + [x];
  }

  /** Taking the first message off a sequence. */
  lemma FirstTaken(ms: seq<Message>, m: Message)
    requires ms != []
    ensures Times(ms, m) == Times([ms[0]], m) + Times(ms[1..], m)
  {
    assert ms == [ms[0]] + ms[1..];
  }

  lemma TakenBalance(st: State, round: Round, turn: Turn, kind: Bytes, id: Bytes)
    requires Bounded(st) && st.reply.None? && LostWhenFull(st)
    ensures var r := Taken(st, round, turn, kind, id);
      LostWhenFull(r) && forall m :: Balance(r, m) == Balance(st, m)
  {
    hide Matches, Times;
    var now := Acted(st, round.before);
    ActedBalance(st, round.before);
    if now.queue != [] {
      var x, rest := now.queue[0], now.(queue := now.queue[1..]);
      forall m ensures Balance(rest, m) + Times([x], m) == Balance(now, m) {
        FirstTaken(now.queue, m);
      }
      SameLosses(now, rest);
      ActedBalance(rest, round.between);
      PushedBalance(Acted(rest, round.between), x);
      hide Acted, Pushed, LostWhenFull;
      SameLosses(rest, rest.(aside := rest.aside + [x]));
      SameLosses(rest, rest.(reply := Some(x)));
      forall m ensures Balance(Taken(st, round, turn, kind, id), m) == Balance(st, m) {
        TimesConcat(rest.aside, [x], m);
        TimesOne(x, m);
      }
    }
  }

  lemma TimesOne(x: Message, m: Message)
    ensures Times([x], m) == multiset{x}[m]
  {
  }

  /** At the end of the loop every message is in the queue, set aside, the reply, taken by another thread, or lost,
      and one is lost exactly when a push back met a full queue. */
  lemma {:induction false} LoopConserves(st: State, rounds: seq<Round>, turn: Turn, kind: Bytes, id: Bytes)
    requires Bounded(st) && LostWhenFull(st)
    ensures var r := Loop(st, rounds, turn, kind, id);
      LostWhenFull(r) && forall m :: Balance(r, m) == Balance(st, m)
    decreases rounds
  {
    hide Taken, Balance, LostWhenFull;
    if rounds != [] && st.reply.None? {
      TakenBalance(st, rounds[0], turn, kind, id);
      LoopConserves(Taken(st, rounds[0], turn, kind, id), rounds[1..], turn, kind, id);
    }
  }

  lemma {:induction false} RequeueConserves(st: State, late: seq<seq<Event>>)
    requires Bounded(st) && LostWhenFull(st)
    ensures var r := Requeued(st, late); LostWhenFull(r) && forall m :: Balance(r, m) == Balance(st, m)
    decreases |st.aside|
  {
    hide Times, LostWhenFull;
    if st.aside != [] {
      var events := if late == [] then [] else late[0];
      var now := Acted(st, events);
      ActedBalance(st, events);
      var rest := now.(aside := st.aside[1..]);
      forall m ensures Balance(rest, m) + Times([st.aside[0]], m) == Balance(now, m) {
        FirstTaken(st.aside, m);
      }
      SameLosses(now, rest);
      PushedBalance(rest, st.aside[0]);
      RequeueConserves(Pushed(rest, st.aside[0]), if late == [] then [] else late[1..]);
    }
  }

  lemma SameLosses(a: State, b: State)
    requires LostWhenFull(a) && a.lost == b.lost && a.met == b.met
    ensures LostWhenFull(b)
  {
  }

  /** Whatever other threads do: all messages that they do not take survive the wait if and only if none of its own
      pushes, in the loop and behind it, meets a full queue. */
  lemma WaitConserves(q: seq<Message>, rounds: seq<Round>, late: seq<seq<Event>>, turn: Turn, kind: Bytes, id: Bytes)
    requires |q| <= BUS_QUEUE_LEN
    ensures var st := Waited(q, rounds, late, turn, kind, id);
      multiset(st.queue) + Replied(st.reply) + multiset(st.taken) == multiset(q) + multiset(st.arrived)
      <==> forall p <- st.met :: p < BUS_QUEUE_LEN
  {
    var loop := Loop(Start(q), rounds, turn, kind, id);
    LoopConserves(Start(q), rounds, turn, kind, id);
    RequeueConserves(loop, late);
    hide Loop, Requeued;
    var st := Waited(q, rounds, late, turn, kind, id);
    var have := multiset(st.queue) + Replied(st.reply) + multiset(st.taken);
    var had := multiset(q) + multiset(st.arrived);
    forall m ensures have[m] + Times(st.lost, m) == had[m] {
      assert Balance(st, m) == Balance(Start(q), m);
    }
    if st.lost != [] {
      assert Times(st.lost, st.lost[0]) > 0 by { FirstTaken(st.lost, st.lost[0]); }
    }
  }

  // ----- When nothing is lost -----

  function PutsIn(events: seq<Event>): nat {
    if events == [] then 0 else (if events[0].Put? then 1 else 0) + PutsIn(events[1..])
  }

  function PutsInRounds(rounds: seq<Round>): nat {
    if rounds == [] then 0 else PutsIn(rounds[0].before) + PutsIn(rounds[0].between) + PutsInRounds(rounds[1..])
  }

  function PutsInLate(late: seq<seq<Event>>): nat {
    if late == [] then 0 else PutsIn(late[0]) + PutsInLate(late[1..])
  }

  lemma {:induction false} ActedGrows(st: State, events: seq<Event>)
    ensures |Acted(st, events).queue| <= |st.queue| + PutsIn(events)
    decreases events
  {
    if events != [] {
      ActedGrows(Noted(st, events[0]), events[1..]);
    }
  }

  lemma TakenFits(st: State, round: Round, turn: Turn, kind: Bytes, id: Bytes, n: nat)
    requires Bounded(st) && |st.queue| + |st.aside| + PutsIn(round.before) + PutsIn(round.between) + n <= BUS_QUEUE_LEN
    ensures var r := Taken(st, round, turn, kind, id);
      r.lost == st.lost && |r.queue| + |r.aside| + n <= BUS_QUEUE_LEN
  {
    hide Matches;
    var now := Acted(st, round.before);
    ActedGrows(st, round.before);
    if now.queue != [] {
      ActedGrows(now.(queue := now.queue[1..]), round.between);
    }
  }

  lemma {:induction false} LoopFits(st: State, rounds: seq<Round>, turn: Turn, kind: Bytes, id: Bytes, n: nat)
    requires Bounded(st) && |st.queue| + |st.aside| + PutsInRounds(rounds) + n <= BUS_QUEUE_LEN
    ensures var r := Loop(st, rounds, turn, kind, id);
      r.lost == st.lost && |r.queue| + |r.aside| + n <= BUS_QUEUE_LEN
    decreases rounds
  {
    hide Taken;
    if rounds != [] && st.reply.None? {
      TakenFits(st, rounds[0], turn, kind, id, PutsInRounds(rounds[1..]) + n);
      LoopFits(Taken(st, rounds[0], turn, kind, id), rounds[1..], turn, kind, id, n);
    }
  }

  lemma {:induction false} RequeueFits(st: State, late: seq<seq<Event>>)
    requires Bounded(st) && |st.queue| + |st.aside| + PutsInLate(late) <= BUS_QUEUE_LEN
    ensures Requeued(st, late).lost == st.lost
    decreases |st.aside|
  {
    if st.aside != [] {
      var events := if late == [] then [] else late[0];
      var now := Acted(st, events);
      ActedGrows(st, events);
      RequeueFits(Pushed(now.(aside := st.aside[1..]), st.aside[0]), if late == [] then [] else late[1..]);
    }
  }

  /** A condition that can be checked beforehand: what is queued and what others push meanwhile fits the queue. */
  lemma NothingLostWhenAllFits(q: seq<Message>, rounds: seq<Round>, late: seq<seq<Event>>, turn: Turn, kind: Bytes,
                               id: Bytes)
    requires |q| + PutsInRounds(rounds) + PutsInLate(late) <= BUS_QUEUE_LEN
    ensures Waited(q, rounds, late, turn, kind, id).lost == []
  {
    LoopFits(Start(q), rounds, turn, kind, id, PutsInLate(late));
    hide Loop, Requeued;
    RequeueFits(Loop(Start(q), rounds, turn, kind, id), late);
  }

  lemma {:induction false} TakesOnly(st: State, events: seq<Event>)
    requires forall e <- events :: e.Take?
    ensures |Acted(st, events).queue| <= |st.queue|
    decreases events
  {
    if events != [] {
      assert events[0] in events;
      TakesOnly(Noted(st, events[0]), events[1..]);
    }
  }

  /** Without arrivals between pop and push back no push in the loop meets a full queue. */
  lemma {:induction false} LoopLosesNothing(st: State, rounds: seq<Round>, turn: Turn, kind: Bytes, id: Bytes)
    requires Bounded(st) && forall r <- rounds :: forall e <- r.between :: e.Take?
    ensures Loop(st, rounds, turn, kind, id).lost == st.lost
    decreases rounds
  {
    if rounds != [] && st.reply.None? {
      assert rounds[0] in rounds;
      var now := Acted(st, rounds[0].before);
      if now.queue != [] {
        TakesOnly(now.(queue := now.queue[1..]), rounds[0].between);
      }
      LoopLosesNothing(Taken(st, rounds[0], turn, kind, id), rounds[1..], turn, kind, id);
    }
  }

  // ----- Without other producers -----

  function Quiet(rounds: nat): seq<Round> {
    seq(rounds, _ => Round([], []))
  }

  /** Position of the first matching message, or the number of messages. */
  function FirstMatch(q: seq<Message>, turn: Turn, kind: Bytes, id: Bytes): (k: nat)
    ensures k <= |q| && (k < |q| ==> Matches(q[k], turn, kind, id))
    ensures forall i :: 0 <= i < k ==> !Matches(q[i], turn, kind, id)
  {
    if q == [] || Matches(q[0], turn, kind, id) then 0
    else
      assert forall i :: 1 <= i < |q| ==> q[i] == q[1..][i - 1];
      1 + FirstMatch(q[1..], turn, kind, id)
  }

  /** The loop alone: it stops at the first match, or after n messages, or when there are no more. */
  function QuietResult(q: seq<Message>, aside: seq<Message>, n: nat, k: nat): State
    requires k <= |q|
  {
    if k < |q| && k < n then State(q[k + 1..], aside + q[..k], Some(q[k]), [], [], [], [])
    else if n < |q| then State(q[n..], aside + q[..n], None, [], [], [], [])
    else State([], aside + q, None, [], [], [], [])
  }

  lemma QuietStep(q: seq<Message>, aside: seq<Message>, n: nat, k: nat)
    requires q != [] && 0 < k <= |q| && n > 0
    ensures QuietResult(q, aside, n, k) == QuietResult(q[1..], aside + [q[0]], n - 1, k - 1)
  {
    assert aside + [q[0]] + q[1..] == aside + q;
    assert aside + [q[0]] + q[1..][..k - 1] == aside + q[..k];
    if n <= |q| {
      assert aside + [q[0]] + q[1..][..n - 1] == aside + q[..n];
    }
  }

  lemma {:induction false} QuietLoop(q: seq<Message>, aside: seq<Message>, n: nat, turn: Turn, kind: Bytes, id: Bytes)
    requires |q| + |aside| <= BUS_QUEUE_LEN
    ensures Loop(State(q, aside, None, [], [], [], []), Quiet(n), turn, kind, id) ==
      QuietResult(q, aside, n, FirstMatch(q, turn, kind, id))
    decreases n
  {
    hide Matches;
    var st := State(q, aside, None, [], [], [], []);
    if n > 0 {
      assert Quiet(n)[1..] == Quiet(n - 1) && Quiet(n)[0] == Round([], []);
      assert Acted(st, []) == st;
      if q == [] {
        QuietLoop(q, aside, n - 1, turn, kind, id);
      } else if !Matches(q[0], turn, kind, id) {
        QuietLoop(q[1..], aside + [q[0]], n - 1, turn, kind, id);
        QuietStep(q, aside, n, FirstMatch(q, turn, kind, id));
      } else {
        assert aside + q[..0] == aside;
      }
    } else {
      assert aside + q[..0] == aside && (q == [] ==> aside + q == aside);
    }
  }

  /** Requeueing into a queue with room for everything. */
  lemma {:induction false} QuietRequeue(st: State)
    requires Bounded(st) && |st.queue| + |st.aside| <= BUS_QUEUE_LEN && st.lost == []
    ensures Requeued(st, []).queue == st.queue + st.aside && Requeued(st, []).lost == []
    decreases |st.aside|
  {
    if st.aside != [] {
      var now := Acted(st, []);
      assert now.queue == st.queue;
      QuietRequeue(Pushed(now.(aside := st.aside[1..]), st.aside[0]));
      assert st.queue + [st.aside[0]] + st.aside[1..] == st.queue + st.aside;
    }
  }

  /** With no other producer: the first matching message that is reached is taken out, the ones in
      front of it move behind the rest, and nothing else changes. */
  lemma QuietWait(q: seq<Message>, n: nat, turn: Turn, kind: Bytes, id: Bytes)
    requires |q| <= BUS_QUEUE_LEN
    ensures var st := Waited(q, Quiet(n), [], turn, kind, id);
      var k := FirstMatch(q, turn, kind, id);
      if k < |q| && k < n then st.reply == Some(q[k]) && st.queue == q[k + 1..] + q[..k] && st.lost == []
      else st.reply == None && st.queue == (if n < |q| then q[n..] + q[..n] else q) && st.lost == []
  {
    var k := FirstMatch(q, turn, kind, id);
    QuietLoop(q, [], n, turn, kind, id);
    hide Loop, FirstMatch, Requeued, Matches;
    QuietRequeue(QuietResult(q, [], n, k));
    assert [] + q == q && [] + q[..k] == q[..k];
    if n < |q| {
      assert [] + q[..n] == q[..n];
    }
  }

  // ----- How a message is lost inside the loop -----

  lemma {:induction false} LoopConcat(st: State, first: seq<Round>, second: seq<Round>, turn: Turn, kind: Bytes,
                                      id: Bytes)
    requires Bounded(st)
    ensures Loop(st, first + second, turn, kind, id) ==
      Loop(Loop(st, first, turn, kind, id), second, turn, kind, id)
    decreases first
  {
    hide Taken;
    if first == [] {
      assert first + second == second;
    } else if st.reply.None? {
      assert (first + second)[1..] == first[1..] + second;
      LoopConcat(Taken(st, first[0], turn, kind, id), first[1..], second, turn, kind, id);
    }
  }

  function Copies(m: Message): (ms: seq<Message>)
    ensures |ms| == BUS_QUEUE_LEN && forall i :: 0 <= i < |ms| ==> ms[i] == m
  {
    seq(BUS_QUEUE_LEN, _ => m)
  }

  /** The wait empties a full queue; other producers fill it, and the slot of the next popped message as well. */
  function Refilled(m: Message): seq<Round> {
    Quiet(BUS_QUEUE_LEN) + [Round(Puts(Copies(m)), Puts([m]))]
  }

  /** From a full queue of messages that are for others, the push back in the loop loses the message it popped. */
  lemma PushBackCanFail(m: Message, turn: Turn, kind: Bytes, id: Bytes)
    requires !Matches(m, turn, kind, id)
    ensures Loop(Start(Copies(m)), Refilled(m), turn, kind, id).lost == [m]
    ensures Waited(Copies(m), Refilled(m), [], turn, kind, id).lost != []
  {
    var q, last := Copies(m), Round(Puts(Copies(m)), Puts([m]));
    LoopConcat(Start(q), Quiet(BUS_QUEUE_LEN), [last], turn, kind, id);
    QuietlyEmptied(m, turn, kind, id);
    var full := State([], q, None, [], [], [], []);
    RefilledRound(m, turn, kind, id);
    var end := Taken(full, last, turn, kind, id);
    OneRound(full, last, turn, kind, id);
    hide *;
    Unfolded(m, turn, kind, id);
    LossStays(end, []);
  }

  lemma Unfolded(m: Message, turn: Turn, kind: Bytes, id: Bytes)
    ensures Refilled(m) == Quiet(BUS_QUEUE_LEN) + [Round(Puts(Copies(m)), Puts([m]))]
    ensures |Copies(m)| <= BUS_QUEUE_LEN
    ensures Waited(Copies(m), Refilled(m), [], turn, kind, id) ==
      Requeued(Loop(Start(Copies(m)), Refilled(m), turn, kind, id), [])
  {
    hide Quiet, Puts, Loop, Requeued;
  }

  lemma OneRound(st: State, round: Round, turn: Turn, kind: Bytes, id: Bytes)
    requires Bounded(st) && st.reply.None?
    ensures Loop(st, [round], turn, kind, id) == Taken(st, round, turn, kind, id)
  {
    hide Taken;
    assert [round][1..] == [];
  }

  /** After 16 quiet rounds all messages are set aside. */
  lemma QuietlyEmptied(m: Message, turn: Turn, kind: Bytes, id: Bytes)
    requires !Matches(m, turn, kind, id)
    ensures Loop(Start(Copies(m)), Quiet(BUS_QUEUE_LEN), turn, kind, id) == State([], Copies(m), None, [], [], [], [])
  {
    var q := Copies(m);
    QuietLoop(q, [], BUS_QUEUE_LEN, turn, kind, id);
    assert FirstMatch(q, turn, kind, id) == |q|;
    hide Matches, Loop, Quiet, FirstMatch;
    assert [] + q == q && [] + q[..|q|] == q;
  }

  /** The round that finds the queue filled again. */
  lemma RefilledRound(m: Message, turn: Turn, kind: Bytes, id: Bytes)
    requires !Matches(m, turn, kind, id)
    ensures var full := State([], Copies(m), None, [], [], [], []);
      Taken(full, Round(Puts(Copies(m)), Puts([m])), turn, kind, id).lost == [m]
  {
    var q := Copies(m);
    var full := State([], q, None, [], [], [], []);
    PushAllKeeps([], q);
    PushAllKeeps(q[1..], [m]);
    hide Matches, After, Puts;
    assert [] + q == q;
  }

  lemma {:induction false} LossStays(st: State, late: seq<seq<Event>>)
    requires Bounded(st)
    ensures st.lost != [] ==> Requeued(st, late).lost != []
    decreases |st.aside|
  {
    if st.aside != [] {
      var events := if late == [] then [] else late[0];
      LossStays(Pushed(Acted(st, events).(aside := st.aside[1..]), st.aside[0]), if late == [] then [] else late[1..]);
    }
  }

  // ----- Which message is the reply -----

  /** "__interactive_reply__:", kind, id, value and flag with colons between them; kind, id and flag have no colon. */
  predicate IsPayload(content: Bytes, kind: Bytes, id: Bytes, value: Bytes, flag: Bytes) {
    && 58 !in kind && 58 !in id && 58 !in flag
    && content ==
         [95, 95, 105, 110, 116, 101, 114, 97, 99, 116, 105, 118, 101, 95, 114, 101, 112, 108, 121, 95, 95, 58] +
         (kind + [58] + (id + [58] + (value + [58] + flag)))
  }

  /** The message answers the request: it has the channel, the chat or a non-empty parent chat, and the payload. */
  ghost predicate Answers(m: Message, channel: Bytes, chat: Bytes, parentChat: Bytes, kind: Bytes, id: Bytes) {
    && m.channel == channel && (m.chat == chat || (parentChat != [] && m.chat == parentChat))
    && exists value, flag :: IsPayload(m.content, kind, id, value, flag)
  }

  lemma PayloadMeans(content: Bytes, kind: Bytes, id: Bytes, value: Bytes, flag: Bytes)
    requires IsPayload(content, kind, id, value, flag)
    ensures ParseReply(content, kind, id) ==
      Some(Reply(if |value| <= 2047 then value else value[..2047], flag != [] && flag[0] == 49))
  {
    assert content == Payload(kind, id, value, flag);
    PayloadParses(kind, id, value, flag);
  }

  lemma MatchesMeans(m: Message, turn: Turn, kind: Bytes, id: Bytes)
    ensures Matches(m, turn, kind, id) <==> Answers(m, turn.channel, turn.chat, turn.parentChat, kind, id)
  {
    hide ParseReply, Cut;
    if ParseReply(m.content, kind, id).Some? {
      var reply := ParseReply(m.content, kind, id).value;
      ReplyFormat(m.content, kind, id, reply);
      var value, flag :| Formatted(m.content, kind, id, value, flag, reply);
      assert IsPayload(m.content, kind, id, value, flag);
    }
    if value, flag :| IsPayload(m.content, kind, id, value, flag) {
      PayloadMeans(m.content, kind, id, value, flag);
    }
  }

  /** On a quiet queue the wait takes out exactly the first message that answers, when it gets that far; what it
      returns is that message's value, cut at 2047 bytes, and whether its flag starts with '1'. */
  lemma FirstAnswerIsReturned(q: seq<Message>, n: nat, channel: Bytes, chat: Bytes, parentChat: Bytes, kind: Bytes,
                              id: Bytes, k: nat, value: Bytes, flag: Bytes)
    requires k < |q| <= 16 && k < n && Answers(q[k], channel, chat, parentChat, kind, id)
    requires IsPayload(q[k].content, kind, id, value, flag)
    requires forall i :: 0 <= i < k ==> !Answers(q[i], channel, chat, parentChat, kind, id)
    ensures var st := Waited(q, Quiet(n), [], Turn(channel, chat, parentChat), kind, id);
      && st.reply == Some(q[k]) && st.queue == q[k + 1..] + q[..k]
      && ParseReply(st.reply.value.content, kind, id) ==
           Some(Reply(if |value| <= 2047 then value else value[..2047], flag != [] && flag[0] == 49))
  {
    var turn := Turn(channel, chat, parentChat);
    forall i | 0 <= i < |q|
      ensures Matches(q[i], turn, kind, id) <==> Answers(q[i], channel, chat, parentChat, kind, id)
    {
      MatchesMeans(q[i], turn, kind, id);
    }
    PayloadMeans(q[k].content, kind, id, value, flag);
    hide Matches, Answers, ParseReply;
    assert FirstMatch(q, turn, kind, id) == k;
    hide Waited, FirstMatch;
    QuietWait(q, n, turn, kind, id);
  }

  /** Without a message that answers among the first n the wait returns none. */
  lemma NoAnswerNoReply(q: seq<Message>, n: nat, channel: Bytes, chat: Bytes, parentChat: Bytes, kind: Bytes, id: Bytes)
    requires |q| <= 16 && forall i :: 0 <= i < |q| && i < n ==> !Answers(q[i], channel, chat, parentChat, kind, id)
    ensures Waited(q, Quiet(n), [], Turn(channel, chat, parentChat), kind, id).reply == None
  {
    var turn := Turn(channel, chat, parentChat);
    var k := FirstMatch(q, turn, kind, id);
    if k < |q| {
      MatchesMeans(q[k], turn, kind, id);
    }
    hide Waited, FirstMatch, Matches, Answers;
    QuietWait(q, n, turn, kind, id);
  }

  /** Whatever other threads do, no other message is ever returned. */
  lemma {:induction false} OnlyAnswersAreReturned(q: seq<Message>, rounds: seq<Round>, late: seq<seq<Event>>,
                                                  turn: Turn, kind: Bytes, id: Bytes)
    requires |q| <= 16
    ensures var st := Waited(q, rounds, late, turn, kind, id);
      st.reply.Some? ==> Answers(st.reply.value, turn.channel, turn.chat, turn.parentChat, kind, id)
  {
    LoopReturnsAMatch(Start(q), rounds, turn, kind, id);
    hide Loop, Matches, Answers;
    var st := Loop(Start(q), rounds, turn, kind, id);
    if st.reply.Some? {
      MatchesMeans(st.reply.value, turn, kind, id);
    }
  }

  lemma {:induction false} LoopReturnsAMatch(st: State, rounds: seq<Round>, turn: Turn, kind: Bytes, id: Bytes)
    requires Bounded(st) && (st.reply.Some? ==> Matches(st.reply.value, turn, kind, id))
    ensures var r := Loop(st, rounds, turn, kind, id); r.reply.Some? ==> Matches(r.reply.value, turn, kind, id)
    decreases rounds
  {
    hide Matches, ParseReply;
    if rounds != [] && st.reply.None? {
      LoopReturnsAMatch(Taken(st, rounds[0], turn, kind, id), rounds[1..], turn, kind, id);
    }
  }
}
