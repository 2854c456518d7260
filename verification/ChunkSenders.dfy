/**
 The keys under which a tree of forked senders sends its payloads.  The process id is fixed
 when the sender object is built and the message id counts on from the value inherited at a
 fork, so different processes can send under one key.
 */
module ChunkSenders {
  import opened ChunkedMessages
  import Common

  datatype Event = Send(i: nat) | Fork(i: nat)

  /** The number of processes after the events. */
  function Count(es: seq<Event>): nat {
    if es == [] then 1 else Count(es[..|es| - 1]) + if es[|es| - 1].Fork? then 1 else 0
  }

  /** Only processes that exist send or fork. */
  predicate Possible(es: seq<Event>) {
    es == [] || (Possible(es[..|es| - 1]) && es[|es| - 1].i < Count(es[..|es| - 1]))
  }

  /** The message id of each process. */
  function MsgIds(es: seq<Event>): (ids: seq<nat>)
    requires Possible(es)
    ensures |ids| == Count(es)
  {
    if es == [] then [0]
    else
      var ids := MsgIds(es[..|es| - 1]);
      match es[|es| - 1]
      case Send(i) => ids[i := (ids[i] + 1) % MSG_IDS]
      case Fork(i) => ids + [ids[i]]
  }

  /** The keys sent, in order; the process id is that of the first process. */
  function KeysSent(pid: nat, es: seq<Event>): seq<Key>
    requires Possible(es)
  {
    if es == [] then []
    else
      var before := es[..|es| - 1];
      match es[|es| - 1]
      case Send(i) => KeysSent(pid, before) + [Key(pid, (MsgIds(before)[i] + 1) % MSG_IDS)]
      case Fork(_) => KeysSent(pid, before)
  }

  function Sends(es: seq<Event>): nat {
    if es == [] then 0 else Sends(es[..|es| - 1]) + if es[|es| - 1].Send? then 1 else 0
  }

  /** Every payload so far was sent by process j or by the one that it descends from at the time. */
  predicate OnLineOf(es: seq<Event>, j: nat)
    requires Possible(es) && j < Count(es)
  {
    if es == [] then true
    else
      var before := es[..|es| - 1];
      match es[|es| - 1]
      case Send(i) => i == j && OnLineOf(before, j)
      case Fork(i) => OnLineOf(before, if j == Count(before) then i else j)
  }

  /** No two processes both send after their common fork: whoever sends has all earlier sends
      on its own line of descent. */
  predicate NoRivals(es: seq<Event>)
    requires Possible(es)
  {
    if es == [] then true
    else
      var before := es[..|es| - 1];
      && NoRivals(before)
      && (es[|es| - 1].Send? ==> OnLineOf(before, es[|es| - 1].i))
  }

  /** A process has counted the sends on its line, so it is behind unless that is all of them. */
  lemma {:induction false} CountsItsLine(es: seq<Event>, j: nat)
    requires Possible(es) && j < Count(es) && Sends(es) < MSG_IDS
    ensures MsgIds(es)[j] <= Sends(es)
    ensures MsgIds(es)[j] == Sends(es) <==> OnLineOf(es, j)
  {
    if es != [] {
      var before := es[..|es| - 1];
      match es[|es| - 1]
      case Send(i) => CountsItsLine(before, j);
      case Fork(i) => CountsItsLine(before, if j == Count(before) then i else j);
    }
  }

  predicate Distinct(keys: seq<Key>) {
    forall a, b | 0 <= a < b < |keys| :: keys[a] != keys[b]
  }

  lemma {:induction false} KeyCount(pid: nat, es: seq<Event>)
    requires Possible(es)
    ensures |KeysSent(pid, es)| == Sends(es)
  {
    if es != [] { KeyCount(pid, es[..|es| - 1]); }
  }

  /** Without rivals the n-th payload has the message id n. */
  lemma {:induction false} KeysWithoutRivals(pid: nat, es: seq<Event>, k: nat)
    requires Possible(es) && NoRivals(es) && Sends(es) < MSG_IDS && k < Sends(es)
    ensures |KeysSent(pid, es)| == Sends(es) && KeysSent(pid, es)[k] == Key(pid, k + 1)
  {
    var before := es[..|es| - 1];
    KeyCount(pid, es);
    KeyCount(pid, before);
    if k < Sends(before) {
      KeysWithoutRivals(pid, before, k);
    } else {
      CountsItsLine(before, es[|es| - 1].i);
    }
  }

  lemma {:induction false} RivalsShareKey(pid: nat, es: seq<Event>)
    requires Possible(es) && !NoRivals(es) && Sends(es) < MSG_IDS
    ensures !Distinct(KeysSent(pid, es))
  {
    var n := |es| - 1;
    var before := es[..n];
    var keys := KeysSent(pid, before);
    if !NoRivals(before) {
      RivalsShareKey(pid, before);
      var a, b :| 0 <= a < b < |keys| && keys[a] == keys[b];
      assert KeysSent(pid, es)[a] == KeysSent(pid, es)[b];
    } else {
      var j := es[n].i;
      CountsItsLine(before, j);
      KeyCount(pid, before);
      var v := MsgIds(before)[j] + 1;
      assert v <= Sends(before);
      KeysWithoutRivals(pid, before, v - 1);
      assert KeysSent(pid, es)[v - 1] == KeysSent(pid, es)[Sends(before)];
    }
  }

  /** As long as the message ids do not wrap around, the keys of all payloads differ exactly
      when no two processes both send after their common fork. */
  lemma KeysAreDistinctIff(pid: nat, es: seq<Event>)
    requires Possible(es) && Sends(es) < 0x1_0000_0000_0000_0000
    ensures Distinct(KeysSent(pid, es)) <==> NoRivals(es)
  {
    if NoRivals(es) {
      KeyCount(pid, es);
      forall a, b | 0 <= a < b < |KeysSent(pid, es)|
        ensures KeysSent(pid, es)[a] != KeysSent(pid, es)[b]
      {
        KeysWithoutRivals(pid, es, a);
        KeysWithoutRivals(pid, es, b);
      }
    } else {
      RivalsShareKey(pid, es);
    }
  }

  /** Then the payloads sent are a map from keys, as the theorems about delivery assume. */
  lemma SentIsAMap(pid: nat, es: seq<Event>, payloads: seq<seq<Byte>>) returns (sent: Payloads)
    requires Possible(es) && NoRivals(es) && Sends(es) < 0x1_0000_0000_0000_0000 && |payloads| == Sends(es)
    ensures |KeysSent(pid, es)| == |payloads|
    ensures forall k | 0 <= k < |payloads| :: KeysSent(pid, es)[k] in sent && sent[KeysSent(pid, es)[k]] == payloads[k]
  {
    sent := map n: nat | 1 <= n <= |payloads| :: Key(pid, n) := payloads[n - 1];
    KeyCount(pid, es);
    forall k | 0 <= k < |payloads|
      ensures KeysSent(pid, es)[k] in sent && sent[KeysSent(pid, es)[k]] == payloads[k]
    {
      KeysWithoutRivals(pid, es, k);
      assert Key(pid, k + 1) in sent;
    }
  }

  /** Parent and child both send after the fork: one key for two payloads. */
  lemma SiblingsShareKey(pid: nat) returns (es: seq<Event>)
    ensures Possible(es) && es == [Fork(0), Send(0), Send(1)]
    ensures KeysSent(pid, es) == [Key(pid, 1), Key(pid, 1)]
  {
    es := [Fork(0), Send(0), Send(1)];
    var e1, e2 := [Fork(0)], [Fork(0), Send(0)];
    assert e1[..0] == [] && e2[..1] == e1 && es[..2] == e2;
    assert MsgIds(e1) == [0, 0] && KeysSent(pid, e1) == [];
    assert MsgIds(e2) == [1, 0] && KeysSent(pid, e2) == [Key(pid, 1)];
    assert KeysSent(pid, es) == KeysSent(pid, e2) + [Key(pid, 1)];
  }

  /** What the receiver makes of two payloads under one key when the first chunk of the one is
      followed by the second chunk of the other: a message that nobody sent. */
  lemma MixedDelivery(key: Key, a: seq<Byte>, b: seq<Byte>, now: int, later: int)
    requires |a| == |b| == 2 * 4064
    ensures ChunkCount(a) == ChunkCount(b) == 2
    ensures
      var first := Receive(map[], ChunkAt(key, a, 0), now);
      var second := Receive(first.table, ChunkAt(key, b, 1), later);
      && !first.error && first.delivered.None? && !second.error
      && second.delivered == Common.Some(a[..4064] + b[4064..])
  {
    var r: Table := map[];
    var c0 := ChunkAt(key, a, 0);
    assert c0.data == a[..CHUNK_SIZE];
    PutEntry(r, key, Message(c0.total, [], EPOCH));
    var first := Receive(r, c0, now);
    assert [] + c0.data == c0.data;
    PutEntry(Put(r, key, Message(c0.total, [], EPOCH)), key, Message(c0.total, c0.data, now));
    assert Entry(first.table, key) == Common.Some(Message(c0.total, c0.data, now));
    PutSame(first.table, key);
    assert ChunkAt(key, b, 1).data == b[CHUNK_SIZE..];
  }
}
