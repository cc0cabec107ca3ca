/** Cancellation tokens: one generation counter for every chat. */
module Cancel {
  import opened Bytes

  const CANCEL_SLOT_MAX: nat := 32
  const CHAT_LEN: nat := 64
  const TOKEN_LIMIT: nat := 0x1_0000_0000_0000_0000

  datatype Slot = Slot(chat: Bytes, generation: nat, cancelled: bool)

  // ----- The history of a run -----

  datatype Event = Begin(chat: Bytes) | Request(chat: Bytes)

  /** Number of begins and requests of the chat. */
  function Count(log: seq<Event>, chat: Bytes): (n: nat)
    ensures n <= |log|
  {
    if log == [] then 0
    else Count(log[..|log| - 1], chat) + if log[|log| - 1].chat == chat then 1 else 0
  }

  /** The last event of the chat is a request. */
  predicate Requested(log: seq<Event>, chat: Bytes) {
    log != [] &&
    var last := log[|log| - 1];
    if last.chat == chat then last.Request? else Requested(log[..|log| - 1], chat)
  }

  /** What the check answers after the history. */
  predicate Cancelled(log: seq<Event>, chat: Bytes, token: nat) {
    chat != [] && Count(log, chat) > 0 && (Count(log, chat) != token || Requested(log, chat))
  }

  /** The token handed out by a begin after the history. */
  function Token(log: seq<Event>, chat: Bytes): nat {
    if chat == [] then 0 else Count(log, chat) + 1
  }

  function Chats(log: seq<Event>): set<Bytes> {
    set e <- log :: e.chat
  }

  lemma {:induction false} CountConcat(a: seq<Event>, b: seq<Event>, chat: Bytes)
    ensures Count(a + b, chat) == Count(a, chat) + Count(b, chat)
    ensures Count(b, chat) == 0 <==> forall e <- b :: e.chat != chat
    ensures Count(b, chat) == 0 ==> (Requested(a + b, chat) <==> Requested(a, chat))
  {
    if b == [] {
      assert a + b == a;
    } else {
      var n := |b| - 1;
      assert (a + b)[..|a| + n] == a + b[..n];
      CountConcat(a, b[..n], chat);
      assert b == b[..n] + [b[n]];
    }
  }

  /** Two begins of a chat, however far apart: the later token is larger. */
  lemma TokensIncrease(before: seq<Event>, between: seq<Event>, chat: Bytes)
    requires chat != []
    ensures 0 < Token(before, chat) < Token(before + [Begin(chat)] + between, chat)
  {
    CountConcat(before + [Begin(chat)], between, chat);
    CountConcat(before, [Begin(chat)], chat);
  }

  /** A token is live exactly while no later begin or request happened on its chat. */
  lemma LiveUntilNextEvent(before: seq<Event>, after: seq<Event>, chat: Bytes)
    requires chat != []
    ensures !Cancelled(before + [Begin(chat)] + after, chat, Token(before, chat)) <==>
      forall e <- after :: e.chat != chat
  {
    var mid := before + [Begin(chat)];
    CountConcat(mid, after, chat);
    CountConcat(before, [Begin(chat)], chat);
    assert !Requested(mid, chat);
  }

  /** A token that has been handed out and is cancelled stays cancelled in every continuation. */
  lemma CancelledForever(before: seq<Event>, after: seq<Event>, more: seq<Event>, chat: Bytes)
    requires chat != [] && Cancelled(before + [Begin(chat)] + after, chat, Token(before, chat))
    ensures Cancelled(before + [Begin(chat)] + (after + more), chat, Token(before, chat))
  {
    LiveUntilNextEvent(before, after, chat);
    LiveUntilNextEvent(before, after + more, chat);
    var e :| e in after && e.chat == chat;
    assert e in after + more;
  }

  /** Nothing is cancelled for the empty chat, nor for a chat without a begin or a request. */
  lemma UnknownIsLive(log: seq<Event>, chat: Bytes, token: nat)
    requires chat == [] || forall e <- log :: e.chat != chat
    ensures !Cancelled(log, chat, token)
  {
    if chat != [] {
      CountConcat([], log, chat);
      assert [] + log == log;
    }
  }

  // ----- The table -----

  ghost predicate Faithful(slots: seq<Slot>, log: seq<Event>) {
    && |slots| == CANCEL_SLOT_MAX
    && (forall i, k :: 0 <= i < k < |slots| && slots[i].chat == slots[k].chat ==> slots[i].chat == [])
    && (forall i :: 0 <= i < |slots| && slots[i].chat != [] ==> Describes(slots[i], log))
    && (forall chat <- Chats(log) :: chat != [] && exists i :: 0 <= i < |slots| && slots[i].chat == chat)
  }

  ghost predicate Describes(s: Slot, log: seq<Event>) {
    s.chat in Chats(log) && s.generation == Count(log, s.chat) && s.cancelled == Requested(log, s.chat)
  }

  /** With at most 32 chats there is a slot for every one of them. */
  lemma SlotForChat(slots: seq<Slot>, log: seq<Event>, chat: Bytes)
    requires Faithful(slots, log) && chat != [] && |Chats(log) + {chat}| <= CANCEL_SLOT_MAX
    ensures exists i :: 0 <= i < |slots| && (slots[i].chat == chat || slots[i].chat == [])
  {
    if forall i :: 0 <= i < |slots| ==> slots[i].chat != chat && slots[i].chat != [] {
      var used := ChatsOf(slots, |slots|);
      assert used + {chat} <= Chats(log) + {chat};
      SubsetCount(used + {chat}, Chats(log) + {chat});
    }
  }

  /** The distinct chats of the first n slots. */
  lemma {:induction false} ChatsOf(slots: seq<Slot>, n: nat) returns (used: set<Bytes>)
    requires n <= |slots| && forall i, k :: 0 <= i < k < |slots| ==> slots[i].chat != slots[k].chat
    ensures |used| == n && forall chat :: chat in used <==> exists i :: 0 <= i < n && slots[i].chat == chat
  {
    if n == 0 {
      used := {};
    } else {
      var front := ChatsOf(slots, n - 1);
      used := front + {slots[n - 1].chat};
    }
  }

  class Table {
    const slots: array<Slot>
    ghost var log: seq<Event>

    ghost predicate Valid()
      reads this, slots
    {
      slots.Length == CANCEL_SLOT_MAX && Faithful(slots[..], log)
    }

    constructor ()
      ensures Valid() && fresh(slots) && slots.Length == 32 && log == []
    {
      slots := new Slot[CANCEL_SLOT_MAX](_ => Slot([], 0, false));
      log := [];
    }

    method FindSlot(chat: Bytes) returns (slot: Option<nat>)
      ensures slot.Some? ==> slot.value < slots.Length && slots[slot.value].chat == chat && chat != []
      ensures slot.None? ==> chat == [] || forall i :: 0 <= i < slots.Length ==> slots[i].chat != chat
    {
      if chat == [] {
        return None;
      }
      for i := 0 to slots.Length
        invariant forall k :: 0 <= k < i ==> slots[k].chat != chat
      {
        if slots[i].chat == chat {
          return Some(i);
        }
      }
      slot := None;
    }

    method FindEmpty() returns (i: nat)
      requires exists k :: 0 <= k < slots.Length && slots[k].chat == []
      ensures i < slots.Length && slots[i].chat == []
    {
      i := 0;
      while slots[i].chat != []
        invariant 0 <= i < slots.Length && forall k :: 0 <= k < i ==> slots[k].chat != []
        decreases slots.Length - i
      {
        i := i + 1;
      }
    }

    /** find_or_create_slot_locked, while no eviction is needed. */
    method SlotOf(chat: Bytes) returns (slot: Option<nat>)
      requires Valid() && |Chats(log) + {chat}| <= CANCEL_SLOT_MAX
      modifies slots
      ensures slot.None? <==> chat == []
      ensures slot.None? ==> slots[..] == old(slots[..])
      ensures slot.Some? ==> (
        && slot.value < slots.Length && slots[slot.value].chat == chat
        && (forall i :: 0 <= i < slots.Length && i != slot.value ==> slots[i] == old(slots[i]) && slots[i].chat != chat)
        && slots[slot.value].generation == Count(log, chat)
        && (slots[slot.value] == old(slots[slot.value]) || (old(slots[slot.value].chat) == [] && chat !in Chats(log))))
    {
      hide Requested, Count;
      slot := FindSlot(chat);
      if slot.Some? || chat == [] {
        assert slot.Some? ==> Describes(slots[..][slot.value], log);
        return;
      }
      SlotForChat(slots[..], log, chat);
      hide Faithful, Chats;
      var i := FindEmpty();
      Unseen(log, chat);
      slots[i] := Slot(chat, 0, false);
      slot := Some(i);
    }

    /** agent_cancel_begin_turn. */
    method BeginTurn(chat: Bytes) returns (token: nat)
      requires Valid() && |Chats(log) + {chat}| <= CANCEL_SLOT_MAX
      requires |chat| < CHAT_LEN && |log| + 1 < TOKEN_LIMIT
      modifies this, slots
      ensures Valid() && token == Token(old(log), chat)
      ensures log == if chat == [] then old(log) else old(log) + [Begin(chat)]
    {
      hide Count, Requested, Chats, Describes;
      var slot := SlotOf(chat);
      if slot.None? {
        return 0;
      }
      var i := slot.value;
      token := Next(slots[i].generation);
      slots[i] := slots[i].(generation := token, cancelled := false);
      Step(old(slots[..]), slots[..], i, log, Begin(chat));
      log := log + [Begin(chat)];
    }

    /** agent_cancel_request. */
    method RequestCancel(chat: Bytes)
      requires Valid() && |Chats(log) + {chat}| <= CANCEL_SLOT_MAX
      requires |chat| < CHAT_LEN && |log| + 1 < TOKEN_LIMIT
      modifies this, slots
      ensures Valid() && log == if chat == [] then old(log) else old(log) + [Request(chat)]
    {
      hide Count, Requested, Chats, Describes;
      var slot := SlotOf(chat);
      if slot.None? {
        return;
      }
      var i := slot.value;
      slots[i] := slots[i].(generation := Next(slots[i].generation), cancelled := true);
      Step(old(slots[..]), slots[..], i, log, Request(chat));
      log := log + [Request(chat)];
    }

    /** agent_cancel_is_cancelled. */
    method IsCancelled(chat: Bytes, token: nat) returns (r: bool)
      requires Valid()
      ensures r == Cancelled(log, chat, token)
    {
      if chat == [] {
        return false;
      }
      var slot := FindSlot(chat);
      if slot.None? {
        Unseen(log, chat);
        return false;
      }
      var s := slots[slot.value];
      assert Describes(slots[..][slot.value], log);
      Seen(log, chat);
      r := s.generation != token || s.cancelled;
    }
  }

  /** 64-bit increment that skips 0. */
  function Next(generation: nat): nat {
    var g := (generation + 1) % TOKEN_LIMIT;
    if g == 0 then 1 else g
  }

  lemma Unseen(log: seq<Event>, chat: Bytes)
    requires chat !in Chats(log)
    ensures Count(log, chat) == 0 && !Requested(log, chat)
  {
    CountConcat([], log, chat);
    assert [] + log == log;
    assert forall e <- log :: e.chat in Chats(log);
  }

  lemma Seen(log: seq<Event>, chat: Bytes)
    requires chat in Chats(log)
    ensures Count(log, chat) > 0
  {
    CountConcat([], log, chat);
  }

  /** One event changes the slot of its chat, and keeps everything. */
  lemma Step(before: seq<Slot>, after: seq<Slot>, i: nat, log: seq<Event>, e: Event)
    requires Faithful(before, log) && |after| == |before| && i < |after| && e.chat != []
    requires forall k :: 0 <= k < |after| && k != i ==> after[k] == before[k] && before[k].chat != e.chat
    requires before[i].chat == e.chat || before[i].chat == []
    requires after[i] == Slot(e.chat, Count(log, e.chat) + 1, e.Request?)
    ensures Faithful(after, log + [e])
  {
    var longer := log + [e];
    hide Count, Requested;
    forall k | 0 <= k < |after| && after[k].chat != [] ensures Describes(after[k], longer) {
      hide Describes;
      if k != i {
        DescribesStep(before[k], log, e);
      } else {
        DescribesNew(after[i], log, e);
      }
    }
    assert Chats(longer) == Chats(log) + {e.chat};
    hide Describes, Chats;
    forall chat | chat in Chats(longer) ensures chat != [] && exists k :: 0 <= k < |after| && after[k].chat == chat {
      if chat == e.chat {
        assert after[i].chat == chat;
      } else {
        var k :| 0 <= k < |before| && before[k].chat == chat;
        assert after[k].chat == chat;
      }
    }
  }

  lemma DescribesStep(s: Slot, log: seq<Event>, e: Event)
    requires Describes(s, log) && s.chat != e.chat
    ensures Describes(s, log + [e])
  {
    var longer := log + [e];
    assert longer[..|longer| - 1] == log && longer[|longer| - 1] == e;
    assert Chats(log) <= Chats(longer);
  }

  lemma DescribesNew(s: Slot, log: seq<Event>, e: Event)
    requires s == Slot(e.chat, Count(log, e.chat) + 1, e.Request?)
    ensures Describes(s, log + [e])
  {
    var longer := log + [e];
    assert longer[..|longer| - 1] == log && longer[|longer| - 1] == e;
    assert e in longer;
  }
}
