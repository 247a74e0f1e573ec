/** The kernel's pending messages as a value: one list, newest first, in which every user has a stack of their own. */
module Mail {

  /** A string that fits its 256-byte field with its terminator. */
  type Text = s: string | |s| < 256

  datatype Message = Message(to: Text, msg: Text, from: Text)

  /** What a call copies out, cut off where a buffer ends. */
  datatype Delivery = Delivery(msg: string, from: string)

  function Clip(text: string, length: nat): string {
    if |text| <= length then text else text[..length]
  }

  function Deliver(m: Message, msgLen: nat, fromLen: nat): Delivery {
    Delivery(Clip(m.msg, msgLen), Clip(m.from, fromLen))
  }

  function Shorter(a: nat, b: nat): nat {
    if a <= b then a else b
  }

  /** A delivery carries the text and the sender of its message, each as far as its buffer reaches. */
  ghost predicate Carries(d: Delivery, m: Message, msgLen: nat, fromLen: nat) {
    && d.msg <= m.msg && |d.msg| == Shorter(|m.msg|, msgLen)
    && d.from <= m.from && |d.from| == Shorter(|m.from|, fromLen)
  }

  lemma DeliverCarries(m: Message, msgLen: nat, fromLen: nat)
    ensures Carries(Deliver(m, msgLen, fromLen), m, msgLen, fromLen)
  {
  }

  /** The messages for one user, in order. */
  function For(list: seq<Message>, user: Text): seq<Message> {
    if list == [] then []
    else (if list[0].to == user then [list[0]] else []) + For(list[1..], user)
  }

  /** The messages for everybody else, in order. */
  function NotFor(list: seq<Message>, user: Text): seq<Message> {
    if list == [] then []
    else (if list[0].to == user then [] else [list[0]]) + NotFor(list[1..], user)
  }

  /** The position of the first message for `user`; the length of the list if there is none. */
  function First(list: seq<Message>, user: Text): (i: nat)
    ensures i <= |list|
    ensures i < |list| ==> list[i].to == user
    ensures forall j :: 0 <= j < i ==> list[j].to != user
  {
    if list == [] || list[0].to == user then 0 else 1 + First(list[1..], user)
  }

  function Without(list: seq<Message>, i: nat): seq<Message>
    requires i < |list|
  {
    list[..i] + list[i + 1..]
  }

  lemma {:induction false} ForConcat(a: seq<Message>, b: seq<Message>, user: Text)
    ensures For(a + b, user) == For(a, user) + For(b, user)
  {
    if a == [] {
      assert a + b == b;
    } else {
      assert (a + b)[1..] == a[1..] + b;
      ForConcat(a[1..], b, user);
      var mine := if a[0].to == user then [a[0]] else [];
      assert mine + (For(a[1..], user) + For(b, user)) == (mine + For(a[1..], user)) + For(b, user);
    }
  }

  lemma {:induction false} NotForConcat(a: seq<Message>, b: seq<Message>, user: Text)
    ensures NotFor(a + b, user) == NotFor(a, user) + NotFor(b, user)
  {
    if a == [] {
      assert a + b == b;
    } else {
      assert (a + b)[1..] == a[1..] + b;
      NotForConcat(a[1..], b, user);
    }
  }

  lemma {:induction false} NothingFor(list: seq<Message>, user: Text)
    requires forall j :: 0 <= j < |list| ==> list[j].to != user
    ensures For(list, user) == [] && NotFor(list, user) == list
  {
    if list != [] {
      NothingFor(list[1..], user);
    }
  }

  lemma {:induction false} ForEmpty(list: seq<Message>, user: Text)
    ensures For(list, user) == [] <==> forall j :: 0 <= j < |list| ==> list[j].to != user
  {
    if list != [] {
      ForEmpty(list[1..], user);
      if For(list, user) == [] {
        forall j | 0 <= j < |list|
          ensures list[j].to != user
        {
          if j > 0 {
            assert list[j] == list[1..][j - 1];
          }
        }
      }
    }
  }

  /** Sending pushes onto the stack of one user; taking a user's first message pops their stack; no other stack
      changes either time. */
  lemma SendPushes(list: seq<Message>, m: Message, user: Text)
    ensures For([m] + list, user) == if m.to == user then [m] + For(list, user) else For(list, user)
  {
    assert ([m] + list)[1..] == list;
  }

  /** A user's messages before, at and after one place of the list. */
  lemma ForAround(before: seq<Message>, m: Message, after: seq<Message>, user: Text)
    ensures For(before + ([m] + after), user) ==
            For(before, user) + ((if m.to == user then [m] else []) + For(after, user))
    ensures For(before + after, user) == For(before, user) + For(after, user)
  {
    assert ([m] + after)[1..] == after;
    ForConcat(before, [m] + after, user);
    ForConcat(before, after, user);
  }

  lemma TakePops(list: seq<Message>, taker: Text, user: Text)
    requires First(list, taker) < |list|
    ensures var i := First(list, taker);
      && NotFor(Without(list, i), taker) == NotFor(list, taker)
      && For(list, taker) != [] && For(list, taker)[0] == list[i]
      && For(Without(list, i), user) == if user == taker then For(list, user)[1..] else For(list, user)
  {
    var i := First(list, taker);
    var before, m, after := list[..i], list[i], list[i + 1..];
    assert list == before + ([m] + after);
    NothingFor(before, taker);
    ForAround(before, m, after, user);
    ForAround(before, m, after, taker);
    NotForConcat(before, [m] + after, taker);
    NotForConcat(before, after, taker);
    assert ([m] + after)[1..] == after;
  }

  // ---------- runs of calls ----------

  datatype Call = Send(message: Message) | Take(user: Text)

  /** The list after one call. */
  function Applied(list: seq<Message>, call: Call): seq<Message> {
    match call
    case Send(m) => [m] + list
    case Take(user) => if First(list, user) < |list| then Without(list, First(list, user)) else list
  }

  /** The lists before each call and after the last one, from the empty list on. */
  ghost predicate IsRun(calls: seq<Call>, lists: seq<seq<Message>>) {
    && |lists| == |calls| + 1
    && lists[0] == []
    && forall k :: 0 <= k < |calls| ==> Follows(calls, lists, k)
  }

  ghost predicate Follows(calls: seq<Call>, lists: seq<seq<Message>>, k: nat)
    requires k < |calls| < |lists|
  {
    lists[k + 1] == Applied(lists[k], calls[k])
  }

  /** What one call does to one user's stack, were it the only one. */
  function Restacked(stack: seq<Message>, call: Call, user: Text): seq<Message> {
    match call
    case Send(m) => if m.to == user then [m] + stack else stack
    case Take(taker) => if taker == user && stack != [] then stack[1..] else stack
  }

  /** One user's stack: pushed and popped by that user's calls alone. */
  function Stack(calls: seq<Call>, k: nat, user: Text): seq<Message>
    requires k <= |calls|
  {
    if k == 0 then [] else Restacked(Stack(calls, k - 1, user), calls[k - 1], user)
  }

  lemma CallRestacks(list: seq<Message>, call: Call, user: Text)
    ensures For(Applied(list, call), user) == Restacked(For(list, user), call, user)
  {
    match call {
      case Send(m) => SendPushes(list, m, user);
      case Take(taker) =>
        if First(list, taker) < |list| {
          TakePops(list, taker, user);
        } else {
          NothingFor(list, taker);
        }
    }
  }

  lemma OneMoreCall(list: seq<Message>, call: Call, user: Text, after: seq<Message>, stack: seq<Message>)
    requires For(list, user) == stack && after == Applied(list, call)
    ensures For(after, user) == Restacked(stack, call, user)
  {
    CallRestacks(list, call, user);
  }

  /** After any calls, the shared list holds each user's own stack, whatever the others did. */
  lemma {:induction false} UsersAreIndependent(calls: seq<Call>, lists: seq<seq<Message>>, k: nat, user: Text)
    requires IsRun(calls, lists) && k <= |calls|
    ensures For(lists[k], user) == Stack(calls, k, user)
  {
    if k > 0 {
      UsersAreIndependent(calls, lists, k - 1, user);
      assert Follows(calls, lists, k - 1);
      OneMoreCall(lists[k - 1], calls[k - 1], user, lists[k], Stack(calls, k - 1, user));
    }
  }

  /** How often `m` is pending. */
  function Pending(list: seq<Message>, m: Message): nat {
    multiset(list)[m]
  }

  function SentBy(call: Call, m: Message): nat {
    if call == Send(m) then 1 else 0
  }

  function TakenBy(list: seq<Message>, call: Call, m: Message): nat {
    if call.Take? && First(list, call.user) < |list| && list[First(list, call.user)] == m then 1 else 0
  }

  /** How often the first `k` calls have sent `m`. */
  function Sent(calls: seq<Call>, k: nat, m: Message): nat
    requires k <= |calls|
  {
    if k == 0 then 0 else Sent(calls, k - 1, m) + SentBy(calls[k - 1], m)
  }

  /** How often the first `k` calls have taken `m`. */
  function Taken(calls: seq<Call>, lists: seq<seq<Message>>, k: nat, m: Message): nat
    requires k <= |calls| < |lists|
  {
    if k == 0 then 0 else Taken(calls, lists, k - 1, m) + TakenBy(lists[k - 1], calls[k - 1], m)
  }

  lemma WithoutOne(list: seq<Message>, i: nat, m: Message)
    requires i < |list|
    ensures Pending(list, m) == Pending(Without(list, i), m) + if list[i] == m then 1 else 0
  {
    assert list == list[..i] + ([list[i]] + list[i + 1..]);
  }

  lemma CallConserves(list: seq<Message>, call: Call, m: Message)
    ensures Pending(Applied(list, call), m) + TakenBy(list, call, m) == Pending(list, m) + SentBy(call, m)
  {
    if call.Take? && First(list, call.user) < |list| {
      WithoutOne(list, First(list, call.user), m);
    }
  }

  lemma OneMoreBalance(list: seq<Message>, call: Call, after: seq<Message>, m: Message, sent: nat, taken: nat)
    requires sent == taken + Pending(list, m) && after == Applied(list, call)
    ensures sent + SentBy(call, m) == taken + TakenBy(list, call, m) + Pending(after, m)
  {
    CallConserves(list, call, m);
  }

  /** Every message has been taken or is still pending as often as it has been sent. */
  lemma {:induction false} NothingIsLost(calls: seq<Call>, lists: seq<seq<Message>>, k: nat, m: Message)
    requires IsRun(calls, lists) && k <= |calls|
    ensures Sent(calls, k, m) == Taken(calls, lists, k, m) + Pending(lists[k], m)
  {
    if k > 0 {
      NothingIsLost(calls, lists, k - 1, m);
      assert Follows(calls, lists, k - 1);
      OneMoreBalance(lists[k - 1], calls[k - 1], lists[k], m, Sent(calls, k - 1, m), Taken(calls, lists, k - 1, m));
    }
  }

  // ---------- draining one user's messages ----------

  lemma OnlyOthers(list: seq<Message>, user: Text)
    ensures For(list, user) == [] <==> First(list, user) == |list|
    ensures For(list, user) == [] ==> NotFor(list, user) == list
  {
    ForEmpty(list, user);
    if For(list, user) == [] {
      NothingFor(list, user);
    }
  }

  /** What a client has been given: every message of the list once, in the order of the list. */
  ghost predicate AllCarried(printed: seq<Delivery>, list: seq<Message>, msgLen: nat, fromLen: nat) {
    && |printed| == |list|
    && forall i :: 0 <= i < |list| ==> Carries(printed[i], list[i], msgLen, fromLen)
  }

  /** What is sent is what is received: the next `get` of the recipient, with buffers large enough, returns exactly the
      text and the sender of the message sent last, and leaves the list as it was before the `send`. */
  lemma SentIsReceived(list: seq<Message>, m: Message, msgLen: nat, fromLen: nat, d: Delivery)
    requires |m.msg| <= msgLen && |m.from| <= fromLen
    requires Carries(d, ([m] + list)[First([m] + list, m.to)], msgLen, fromLen)
    ensures d == Delivery(m.msg, m.from)
    ensures Applied(Applied(list, Send(m)), Take(m.to)) == list
  {
    assert First([m] + list, m.to) == 0;
    assert d.msg == m.msg[..|m.msg|] && d.from == m.from[..|m.from|];
    assert Without([m] + list, 0) == list;
  }
}
