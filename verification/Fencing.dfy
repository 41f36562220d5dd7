/** Round fencing at one node: delivery order, duplicates and losses do not matter. */
module Fencing {
  import opened Seqs
  import Gcra
  import opened Rounds

  datatype Message = Message(round: nat, quota: int)

  /** A node after handling the messages in the order they arrived. */
  function Deliver(node: Node, messages: seq<Message>): Node {
    if messages == [] then node
    else Apply(Deliver(node, Init(messages)), Last(messages).round, Last(messages).quota).0
  }

  /** No two messages for this node share a round number and differ in quota. */
  ghost predicate OneQuotaPerRound(messages: seq<Message>) {
    forall i, j :: 0 <= i < |messages| && 0 <= j < |messages| && messages[i].round == messages[j].round ==>
      messages[i].quota == messages[j].quota
  }

  ghost predicate Highest(m: Message, messages: seq<Message>) {
    m in messages && forall k :: k in messages ==> k.round <= m.round
  }

  lemma {:induction false} HighestExists(messages: seq<Message>) returns (m: Message)
    requires messages != []
    ensures Highest(m, messages)
  {
    m := Last(messages);
    if Init(messages) != [] {
      var k := HighestExists(Init(messages));
      if m.round < k.round { m := k; }
      forall x | x in messages ensures x.round <= m.round {
        assert x in Init(messages) || x == Last(messages);
      }
      assert k in messages;
    }
  }

  /** The node ends at the quota of the highest round delivered, if that is above where
      it started, and otherwise holds what it held. */
  lemma {:induction false} HighestRoundWins(node: Node, messages: seq<Message>, m: Message)
    requires OneQuotaPerRound(messages) && Highest(m, messages)
    ensures
      var start, end := Apply(node, 0, 0).0, Deliver(node, messages);
      end == if m.round > start.lastApplied then Known(m.quota, m.round, start.globalLimit) else start
  {
    var last, before := Last(messages), Init(messages);
    assert messages == before + [last];
    if before != [] {
      var k := HighestExists(before);
      assert OneQuotaPerRound(before);
      HighestRoundWins(node, before, k);
      assert k in messages && last in messages;
      assert m in before || m == last;
      var i :| 0 <= i < |messages| && messages[i] == k;
      var j :| 0 <= j < |messages| && messages[j] == m;
      assert m.round == Gcra.Max(k.round, last.round);
    } else {
      assert m == last;
    }
  }

  /** Two deliveries of the same messages, in any order and with any repeats, agree. */
  lemma OrderDoesNotMatter(node: Node, first: seq<Message>, second: seq<Message>)
    requires OneQuotaPerRound(first)
    requires forall m :: m in first <==> m in second
    ensures Deliver(node, first) == Deliver(node, second)
  {
    if first != [] {
      var m := HighestExists(first);
      forall i, j | 0 <= i < |second| && 0 <= j < |second| && second[i].round == second[j].round
        ensures second[i].quota == second[j].quota
      {
        assert second[i] in first && second[j] in first;
      }
      HighestRoundWins(node, first, m);
      HighestRoundWins(node, second, m);
    } else if second != [] {
      var m := HighestExists(second);
      assert false;
    }
  }

  /** Whether the node reports the k-th message applied. */
  predicate Applied(node: Node, messages: seq<Message>, k: nat)
    requires k < |messages|
  {
    Apply(Deliver(node, messages[..k]), messages[k].round, messages[k].quota).1
  }

  lemma DeliverOneMore(node: Node, messages: seq<Message>, k: nat)
    requires k < |messages|
    ensures Applied(node, messages, k) <==> LastApplied(Deliver(node, messages[..k])) < messages[k].round
    ensures LastApplied(Deliver(node, messages[..k + 1]))
         == if Applied(node, messages, k) then messages[k].round else LastApplied(Deliver(node, messages[..k]))
  {
    assert Init(messages[..k + 1]) == messages[..k];
  }

  lemma {:induction false} FenceNeverFalls(node: Node, messages: seq<Message>, k: nat, l: nat)
    requires k <= l <= |messages|
    ensures LastApplied(Deliver(node, messages[..k])) <= LastApplied(Deliver(node, messages[..l]))
  {
    hide Deliver, Apply, Applied;
    if k < l {
      FenceNeverFalls(node, messages, k, l - 1);
      DeliverOneMore(node, messages, l - 1);
    }
  }

  /** The applied messages of a run carry ever higher rounds, and a message is refused
      exactly when an earlier applied one, or the start, stands at its round or above. */
  lemma AppliedRoundsIncrease(node: Node, messages: seq<Message>, l: nat)
    requires l < |messages|
    ensures forall k :: 0 <= k < l && Applied(node, messages, k) && Applied(node, messages, l) ==>
      messages[k].round < messages[l].round
    ensures Applied(node, messages, l) <==>
      && LastApplied(node) < messages[l].round
      && forall k :: 0 <= k < l && Applied(node, messages, k) ==> messages[k].round < messages[l].round
  {
    hide Deliver, Apply, Applied;
    DeliverOneMore(node, messages, l);
    FenceIsSomeRound(node, messages, l);
    forall k | 0 <= k < l && Applied(node, messages, k)
      ensures messages[k].round <= LastApplied(Deliver(node, messages[..l]))
    {
      DeliverOneMore(node, messages, k);
      FenceNeverFalls(node, messages, k + 1, l);
    }
    FenceNeverFalls(node, messages, 0, l);
    NothingDelivered(node, messages);
  }

  lemma NothingDelivered(node: Node, messages: seq<Message>)
    ensures Deliver(node, messages[..0]) == node
  {
  }

  /** A node stands at its first round or at that of a message it applied. */
  lemma {:induction false} FenceIsSomeRound(node: Node, messages: seq<Message>, l: nat)
    requires l <= |messages|
    ensures
      var fence := LastApplied(Deliver(node, messages[..l]));
      || fence == LastApplied(node)
      || exists k :: 0 <= k < l && Applied(node, messages, k) && messages[k].round == fence
  {
    hide Deliver, Apply, Applied;
    if l == 0 {
      NothingDelivered(node, messages);
    } else {
      FenceIsSomeRound(node, messages, l - 1);
      DeliverOneMore(node, messages, l - 1);
    }
  }

  /** Without one quota per round the first arrival wins, so order decides. */
  lemma RepeatedRoundsDepend(node: Node, round: nat, a: int, b: int)
    requires LastApplied(node) < round
    ensures
      var (ab, ba) := ([Message(round, a), Message(round, b)], [Message(round, b), Message(round, a)]);
      Deliver(node, ab) == Deliver(node, ba) <==> a == b
  {
    assert Init([Message(round, a), Message(round, b)]) == [Message(round, a)] && Init([Message(round, a)]) == [];
    assert Init([Message(round, b), Message(round, a)]) == [Message(round, b)] && Init([Message(round, b)]) == [];
    assert Deliver(node, [Message(round, a)]).share == a;
    assert Deliver(node, [Message(round, b)]).share == b;
  }
}
