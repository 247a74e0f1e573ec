/** The message system calls on the kernel's linked list, and the client loop that drains a user's messages. */
module MessageList {
  import opened Options
  import opened Mail

  lemma FirstIsUnique(list: seq<Message>, to: Text, i: nat)
    requires i <= |list| && (i < |list| ==> list[i].to == to)
    requires forall j :: 0 <= j < i ==> list[j].to != to
    ensures First(list, to) == i
  {
    assert First(list, to) < |list| ==> list[First(list, to)].to == to;
  }

  lemma ForFrom(list: seq<Message>, to: Text, i: nat)
    requires i <= |list| && (i < |list| ==> list[i].to == to)
    requires forall j :: 0 <= j < i ==> list[j].to != to
    ensures For(list, to) == [] <==> i == |list|
  {
    ForEmpty(list, to);
  }

  class MessageNode {
    const to: Text
    const msg: Text
    const from: Text
    var next: MessageNode?

    constructor (to: Text, msg: Text, from: Text, next: MessageNode?)
      ensures this.to == to && this.msg == msg && this.from == from && this.next == next
    {
      this.to, this.msg, this.from, this.next := to, msg, from, next;
    }

    function Value(): Message {
      Message(to, msg, from)
    }
  }

  /** Node `i`, or null past the end. */
  ghost function NodeAt(nodes: seq<MessageNode>, i: nat): MessageNode? {
    if i < |nodes| then nodes[i] else null
  }

  ghost function Values(nodes: seq<MessageNode>): (list: seq<Message>)
    ensures |list| == |nodes|
    ensures forall i :: 0 <= i < |nodes| ==> list[i] == nodes[i].Value()
  {
    seq(|nodes|, i requires 0 <= i < |nodes| => nodes[i].Value())
  }

  ghost function Removed(nodes: seq<MessageNode>, i: nat): seq<MessageNode>
    requires i < |nodes|
  {
    nodes[..i] + nodes[i + 1..]
  }

  lemma ValuesWithout(nodes: seq<MessageNode>, i: nat)
    requires i < |nodes|
    ensures Values(Removed(nodes, i)) == Without(Values(nodes), i)
  {
  }

  ghost predicate DistinctNodes(nodes: seq<MessageNode>) {
    forall i, j :: 0 <= i < j < |nodes| ==> nodes[i] != nodes[j]
  }

  lemma RemovedKeepsOrder(nodes: seq<MessageNode>, i: nat)
    requires i < |nodes| && DistinctNodes(nodes)
    ensures DistinctNodes(Removed(nodes, i))
    ensures forall k :: 0 <= k < |nodes| - 1 ==> Removed(nodes, i)[k] == nodes[if k < i then k else k + 1]
    ensures forall k :: 0 <= k <= |nodes| - 1 ==>
              NodeAt(Removed(nodes, i), k) == NodeAt(nodes, if k < i then k else k + 1)
  {
  }

  lemma PushedKeepsOrder(nodes: seq<MessageNode>, node: MessageNode)
    requires DistinctNodes(nodes) && node !in nodes
    ensures DistinctNodes([node] + nodes)
    ensures forall k :: 0 < k <= |nodes| + 1 ==> NodeAt([node] + nodes, k) == NodeAt(nodes, k - 1)
    ensures Values([node] + nodes) == [node.Value()] + Values(nodes)
  {
  }

  /** Once the node before node `i` points past it, what is left is linked up. */
  lemma SplicedLinks(nodes: seq<MessageNode>, i: nat)
    requires i < |nodes| && DistinctNodes(nodes)
    requires forall j :: 0 <= j < |nodes| && j != i - 1 ==> nodes[j].next == NodeAt(nodes, j + 1)
    requires i > 0 ==> nodes[i - 1].next == NodeAt(nodes, i + 1)
    ensures forall k :: 0 <= k < |nodes| - 1 ==> Removed(nodes, i)[k].next == NodeAt(Removed(nodes, i), k + 1)
  {
    var after := Removed(nodes, i);
    RemovedKeepsOrder(nodes, i);
    forall k | 0 <= k < |nodes| - 1
      ensures after[k].next == NodeAt(after, k + 1)
    {
      assert after[k] == nodes[if k < i then k else k + 1];
    }
  }

  class MessageQueue {
    var head: MessageNode?
    /** The nodes from head on. */
    ghost var nodes: seq<MessageNode>

    ghost function Nodes(): set<MessageNode>
      reads this
    {
      set node | node in nodes
    }

    ghost predicate Valid()
      reads this, nodes
    {
      && head == NodeAt(nodes, 0)
      && (forall i :: 0 <= i < |nodes| ==> nodes[i].next == NodeAt(nodes, i + 1))
      && DistinctNodes(nodes)
    }

    ghost function Contents(): seq<Message>
      reads this
    {
      Values(nodes)
    }

    constructor ()
      ensures Valid() && Contents() == []
    {
      head, nodes := null, [];
    }

    /** `cs1550_send_msg`: a new message becomes the head; a null argument is refused. */
    method SendMsg(to: Option<Text>, msg: Option<Text>, from: Option<Text>) returns (code: int)
      requires Valid()
      modifies this
      ensures Valid() && fresh(Nodes() - old(Nodes()))
      ensures if to.None? || msg.None? || from.None? then code == -1 && Contents() == old(Contents())
              else code == 0 && Contents() == [Message(to.value, msg.value, from.value)] + old(Contents())
    {
      if to.None? || msg.None? || from.None? {
        return -1;
      }
      var node := new MessageNode(to.value, msg.value, from.value, head);
      head := node;
      PushedKeepsOrder(nodes, node);
      nodes := [node] + nodes;
      return 0;
    }

    /** The first node for `to`, and the node before it. */
    method Find(to: Text) returns (curr: MessageNode?, prev: MessageNode?, ghost i: nat)
      requires Valid()
      ensures i == First(Contents(), to) <= |nodes| && curr == NodeAt(nodes, i)
      ensures forall j :: 0 <= j < i ==> nodes[j].to != to
      ensures prev == if i == 0 then null else nodes[i - 1]
    {
      curr, prev, i := head, null, 0;
      while curr != null && curr.to != to
        invariant 0 <= i <= |nodes| && curr == NodeAt(nodes, i)
        invariant prev == if i == 0 then null else nodes[i - 1]
        invariant forall j :: 0 <= j < i ==> nodes[j].to != to
        decreases |nodes| - i
      {
        prev := curr;
        curr := curr.next;
        i := i + 1;
      }
      FirstIsUnique(Contents(), to, i);
    }

    /** Take node `i`, after `prev`, out of the list. */
    method Splice(prev: MessageNode?, rest: MessageNode?, ghost i: nat)
      requires Valid() && i < |nodes| && rest == nodes[i].next
      requires prev == if i == 0 then null else nodes[i - 1]
      modifies this, prev
      ensures Valid() && nodes == Removed(old(nodes), i)
      ensures Contents() == Without(old(Contents()), i)
    {
      ValuesWithout(nodes, i);
      RemovedKeepsOrder(nodes, i);
      if prev == null {
        head := rest;
      } else {
        prev.next := rest;
      }
      SplicedLinks(nodes, i);
      nodes := Removed(nodes, i);
    }

    /** `cs1550_get_msg`: the first message for `to` is copied out and spliced from the list; the code says whether
        another one is left. */
    method GetMsg(to: Text, msgLen: nat, fromLen: nat) returns (code: int, delivered: Option<Delivery>)
      requires Valid()
      modifies this, Nodes()
      ensures Valid() && Nodes() <= old(Nodes())
      ensures var list, i := old(Contents()), First(old(Contents()), to);
        if i == |list| then
          code == -1 && delivered == None && Contents() == list
        else
          && delivered.Some? && Carries(delivered.value, list[i], msgLen, fromLen)
          && Contents() == Without(list, i)
          && code == if For(Contents(), to) != [] then 1 else 0
    {
      var curr, prev, i := Find(to);
      if curr == null {
        return -1, None;
      }
      DeliverCarries(curr.Value(), msgLen, fromLen);
      delivered := Some(Deliver(curr.Value(), msgLen, fromLen));
      var rest := curr.next;
      Splice(prev, rest, i);
      code := MoreFor(rest, i, to);
    }

    /** Whether a message for `to` is found from node `from` on. */
    method MoreFor(start: MessageNode?, ghost from: nat, to: Text) returns (code: int)
      requires Valid() && from <= |nodes| && start == NodeAt(nodes, from)
      requires forall j :: 0 <= j < from ==> nodes[j].to != to
      ensures code == if For(Contents(), to) != [] then 1 else 0
    {
      var curr := start;
      ghost var i := from;
      while curr != null && curr.to != to
        invariant from <= i <= |nodes| && curr == NodeAt(nodes, i)
        invariant forall j :: 0 <= j < i ==> nodes[j].to != to
        decreases |nodes| - i
      {
        curr := curr.next;
        i := i + 1;
      }
      ForFrom(Contents(), to, i);
      code := if curr != null then 1 else 0;
    }
  }

  /** The system call as its caller sees it: the caller's own messages come out one by one, newest first. */
  method Receive(queue: MessageQueue, to: Text, msgLen: nat, fromLen: nat)
    returns (code: int, delivered: Option<Delivery>)
    requires queue.Valid()
    modifies queue, queue.Nodes()
    ensures queue.Valid() && queue.Nodes() <= old(queue.Nodes())
    ensures NotFor(queue.Contents(), to) == NotFor(old(queue.Contents()), to)
    ensures var pending, left := For(old(queue.Contents()), to), For(queue.Contents(), to);
      if pending == [] then
        code == -1 && queue.Contents() == old(queue.Contents())
      else
        && delivered.Some? && Carries(delivered.value, pending[0], msgLen, fromLen)
        && left == pending[1..]
        && code == if left != [] then 1 else 0
  {
    ghost var list := queue.Contents();
    OnlyOthers(list, to);
    code, delivered := queue.GetMsg(to, msgLen, fromLen);
    if First(list, to) < |list| {
      TakePops(list, to, to);
    }
  }

  /** What is printed, the delivery in hand and the messages left are, in this order, those pending at first. */
  ghost predicate InHand(pending: seq<Message>, printed: seq<Delivery>, current: Delivery, left: seq<Message>,
                         msgLen: nat, fromLen: nat) {
    && |printed| < |pending|
    && left == pending[|printed| + 1..]
    && Carries(current, pending[|printed|], msgLen, fromLen)
    && forall i :: 0 <= i < |printed| ==> Carries(printed[i], pending[i], msgLen, fromLen)
  }

  /** Printing the delivery in hand: either it was the last one, or the next one follows it. */
  lemma PrintOne(pending: seq<Message>, printed: seq<Delivery>, current: Delivery, left: seq<Message>, msgLen: nat,
                 fromLen: nat)
    requires InHand(pending, printed, current, left, msgLen, fromLen)
    ensures left == [] ==> AllCarried(printed + [current], pending, msgLen, fromLen)
    ensures forall next :: left != [] && Carries(next, left[0], msgLen, fromLen) ==>
              InHand(pending, printed + [current], next, left[1..], msgLen, fromLen)
  {
    var more := printed + [current];
    assert forall i :: 0 <= i < |more| ==> Carries(more[i], pending[i], msgLen, fromLen);
  }

  /** The client's `receive_messages`: it prints every pending message for `to` exactly once, newest first, and leaves
      the messages of all other users as they were. */
  method ReceiveMessages(queue: MessageQueue, to: Text, msgLen: nat, fromLen: nat)
    returns (result: int, printed: seq<Delivery>)
    requires queue.Valid()
    modifies queue, queue.Nodes()
    ensures queue.Valid()
    ensures AllCarried(printed, For(old(queue.Contents()), to), msgLen, fromLen)
    ensures queue.Contents() == NotFor(old(queue.Contents()), to)
    ensures result == if For(old(queue.Contents()), to) == [] then -1 else 0
  {
    ghost var list := queue.Contents();
    ghost var pending := For(list, to);
    printed := [];
    OnlyOthers(list, to);
    var delivered;
    result, delivered := Receive(queue, to, msgLen, fromLen);
    if result < 0 {
      return;
    }
    ghost var left := For(queue.Contents(), to);
    while result == 1
      invariant queue.Valid() && queue.Nodes() <= old(queue.Nodes())
      invariant NotFor(queue.Contents(), to) == NotFor(list, to)
      invariant left == For(queue.Contents(), to) && result == if left != [] then 1 else 0
      invariant delivered.Some? && InHand(pending, printed, delivered.value, left, msgLen, fromLen)
      decreases |left|
    {
      PrintOne(pending, printed, delivered.value, left, msgLen, fromLen);
      printed := printed + [delivered.value];
      result, delivered := Receive(queue, to, msgLen, fromLen);
      left := For(queue.Contents(), to);
    }
    PrintOne(pending, printed, delivered.value, left, msgLen, fromLen);
    printed := printed + [delivered.value];
    OnlyOthers(queue.Contents(), to);
  }
}
