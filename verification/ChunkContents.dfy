/**
 What chunks carry, and what the receiver makes of arbitrary chunks: whoever sends them and
 whatever they announce, nothing grows beyond the announced length and nothing of another
 length is delivered.
 */
module ChunkContents {
  import opened Common
  import opened ChunkedMessages

  // What is sent ------------------------------------------------------------------------

  /** Every chunk but the last carries 4064 bytes of the payload, the last one the rest, never nothing. */
  lemma ChunkCarries(key: Key, payload: seq<Byte>, k: nat)
    requires k < ChunkCount(payload)
    ensures
      var c := ChunkAt(key, payload, k);
      && c.key == key && c.total == |payload| && c.offset == 4064 * k
      && 0 < |c.data| && |c.data| == (if k + 1 < ChunkCount(payload) then 4064 else |payload| - 4064 * k) <= 4064
      && c.data == payload[c.offset..c.offset + |c.data|]
  {
  }

  /** The data of the first n chunks, one after the other. */
  function Joined(key: Key, payload: seq<Byte>, n: nat): seq<Byte>
    requires n <= ChunkCount(payload)
  {
    if n == 0 then [] else Joined(key, payload, n - 1) + ChunkAt(key, payload, n - 1).data
  }

  lemma {:induction false} JoinedIsPrefix(key: Key, payload: seq<Byte>, n: nat)
    requires n <= ChunkCount(payload)
    ensures Joined(key, payload, n) == payload[..Min(4064 * n, |payload|)]
  {
    if n > 0 { JoinedIsPrefix(key, payload, n - 1); }
  }

  /** The chunks of a payload, one after the other, are the payload. */
  lemma ChunksMakePayload(key: Key, payload: seq<Byte>)
    ensures Joined(key, payload, ChunkCount(payload)) == payload
    ensures ChunkCount(payload) == 0 <==> payload == []
  {
    JoinedIsPrefix(key, payload, ChunkCount(payload));
    assert payload[..|payload|] == payload;
  }

  /** The chunks of one payload, given to the receiver in turn, are a trace without loss: the payload
      is delivered and nothing is left in the table. */
  lemma OnePayloadArrives(key: Key, payload: seq<Byte>, now: int) returns (es: seq<Event>)
    requires payload != []
    ensures |es| == ChunkCount(payload) && forall k | 0 <= k < |es| :: es[k] == Arrive(key, k, now)
    ensures Lossless(map[key := payload], es)
    ensures
      var s := Run(map[key := payload], es);
      s.errors == 0 && s.table == map[] && exists i :: 0 <= i < |s.delivered| && s.delivered[i] == (key, payload)
  {
    var sent := map[key := payload];
    es := seq(ChunkCount(payload), k requires 0 <= k < ChunkCount(payload) => Arrive(key, k, now));
    forall k: nat | k < ChunkCount(payload)
      ensures Arrived(es, key, k)
    {
      assert es[k] == Arrive(key, k, now);
    }
    LosslessDeliveryIsComplete(sent, es);
    var s := Run(sent, es);
    assert key in sent && IsDelivered(s.delivered, key);
    var i: nat :| i < |s.delivered| && s.delivered[i].0 == key;
    LossyDeliveryIsSafe(sent, es, s, key, i, i);
    assert s.delivered[i] == (key, payload);
  }

  // What is received ---------------------------------------------------------------------

  /** The data that the table holds for a message, or would begin with. */
  function DataFor(r: Table, c: Chunk): seq<Byte> {
    if Entry(r, c.key).Some? then Entry(r, c.key).value.data else []
  }

  /** The length announced by the first chunk of the message. */
  function Announced(r: Table, c: Chunk): nat {
    if Entry(r, c.key).Some? then Entry(r, c.key).value.total else c.total
  }

  /** Any chunk at all: it is an error when it does not continue what is held or when it runs over
      the length that it announces or that the message has announced.  Otherwise its data is
      appended, and the message is delivered exactly when it has its announced length. */
  lemma AnyChunk(r: Table, c: Chunk, now: int)
    ensures
      var out, held, total := Receive(r, c, now), DataFor(r, c), Announced(r, c);
      && (out.error <==> c.offset != |held| || c.offset + |c.data| > c.total || |held| + |c.data| > total)
      && (out.delivered.Some? <==> !out.error && |held| + |c.data| == total)
      && (out.delivered.Some? ==> out.delivered.value == held + c.data && Entry(out.table, c.key) == None)
      && (out.error ==>
            Entry(out.table, c.key) == if Entry(r, c.key).Some? then Entry(r, c.key) else Some(Message(total, [], 0)))
      && (!out.error && out.delivered.None? ==> Entry(out.table, c.key) == Some(Message(total, held + c.data, now)))
      && (forall other | other != c.key :: Entry(out.table, other) == Entry(r, other))
  {
    var m := if Entry(r, c.key).Some? then Entry(r, c.key).value else Message(c.total, [], EPOCH);
    PutEntry(r, c.key, m);
    EraseEntry(Put(r, c.key, m), c.key);
    PutEntry(Put(r, c.key, m), c.key, Message(m.total, m.data + c.data, now));
  }

  datatype Input = Given(c: Chunk, now: int) | Cleaning(at: int, maxAge: int)

  function TableAfter(ins: seq<Input>): Table {
    if ins == [] then map[]
    else
      var n := |ins| - 1;
      match ins[n]
      case Given(c, now) => Receive(TableAfter(ins[..n]), c, now).table
      case Cleaning(at, maxAge) => CleanedUp(TableAfter(ins[..n]), at, maxAge)
  }

  /** Some chunk for the key has announced this length. */
  ghost predicate WasAnnounced(ins: seq<Input>, key: Key, total: nat) {
    exists m :: 0 <= m < |ins| && ins[m].Given? && ins[m].c.key == key && ins[m].c.total == total
  }

  ghost predicate Within(ins: seq<Input>, key: Key, entry: Option<Message>) {
    entry.Some? ==> |entry.value.data| <= entry.value.total && WasAnnounced(ins, key, entry.value.total)
  }

  lemma StillAnnounced(ins: seq<Input>, key: Key, total: nat)
    requires ins != [] && WasAnnounced(ins[..|ins| - 1], key, total)
    ensures WasAnnounced(ins, key, total)
  {
    var before := ins[..|ins| - 1];
    var m :| 0 <= m < |before| && before[m].Given? && before[m].c.key == key && before[m].c.total == total;
    assert ins[m] == before[m];
  }

  /** After any chunks and cleanups no message under reassembly exceeds the length announced for it. */
  lemma {:induction false} NothingOverruns(ins: seq<Input>, key: Key)
    ensures Within(ins, key, Entry(TableAfter(ins), key))
  {
    if ins != [] {
      var n := |ins| - 1;
      var r := TableAfter(ins[..n]);
      NothingOverruns(ins[..n], key);
      if Entry(r, key).Some? { StillAnnounced(ins, key, Entry(r, key).value.total); }
      match ins[n]
      case Given(c, now) => AnyChunk(r, c, now);
      case Cleaning(at, maxAge) => CleanedUpEntry(r, at, maxAge, key);
    }
  }

  /** Whoever sends what, everything delivered has exactly a length that a chunk of its message has announced. */
  lemma DeliveredAsAnnounced(ins: seq<Input>, n: nat)
    requires n < |ins| && ins[n].Given?
    ensures
      var out := Receive(TableAfter(ins[..n]), ins[n].c, ins[n].now);
      out.delivered.Some? ==> WasAnnounced(ins[..n + 1], ins[n].c.key, |out.delivered.value|)
  {
    var r, c := TableAfter(ins[..n]), ins[n].c;
    AnyChunk(r, c, ins[n].now);
    NothingOverruns(ins[..n], c.key);
    assert ins[..n + 1][..n] == ins[..n];
    if Entry(r, c.key).Some? {
      StillAnnounced(ins[..n + 1], c.key, Entry(r, c.key).value.total);
    } else {
      assert ins[..n + 1][n] == ins[n];
    }
  }
}
