/**
 The chunked message protocol between the workers and the coordinator process.

 A payload is cut into chunks of at most 4064 bytes that travel over one queue shared by
 all senders.  The queue keeps the order of each sender and may lose any chunk: a failed
 try_send goes unnoticed.  The receiver reassembles messages per (pid, msgId).
 That this pair names one payload only is an assumption of every theorem here: `sent` is a
 map from pairs to payloads.  `ChunkSenders` tells exactly when the senders meet it.
 */
module ChunkedMessages {
  import opened Common

  type Byte = b: int | 0 <= b < 256

  const CHUNK_SIZE := 4064
  const MSG_IDS := 0x1_0000_0000_0000_0000

  // A fresh entry carries the default time point of the clock.
  const EPOCH := 0

  datatype Key = Key(pid: nat, msgId: nat)

  datatype Chunk = Chunk(key: Key, total: nat, offset: nat, data: seq<Byte>)

  datatype Message = Message(total: nat, data: seq<Byte>, lastUpdated: int)

  /** pid -> msgId -> message under reassembly */
  type Table = map<nat, map<nat, Message>>

  function Min(a: nat, b: nat): nat { if a <= b then a else b }

  // The sending side ------------------------------------------------------------

  function ChunkCount(payload: seq<Byte>): nat {
    (|payload| + CHUNK_SIZE - 1) / CHUNK_SIZE
  }

  function ChunkAt(key: Key, payload: seq<Byte>, k: nat): Chunk
    requires k < ChunkCount(payload)
  {
    var from := k * CHUNK_SIZE;
    Chunk(key, |payload|, from, payload[from..Min(from + CHUNK_SIZE, |payload|)])
  }

  // The receiving side ----------------------------------------------------------

  function Entry(r: Table, key: Key): Option<Message> {
    if key.pid in r && key.msgId in r[key.pid] then Some(r[key.pid][key.msgId]) else None
  }

  function Put(r: Table, key: Key, m: Message): Table {
    r[key.pid := (if key.pid in r then r[key.pid] else map[])[key.msgId := m]]
  }

  function Erase(r: Table, key: Key): Table
    requires key.pid in r
  {
    var rest := r[key.pid] - {key.msgId};
    if |rest| == 0 then r - {key.pid} else r[key.pid := rest]
  }

  predicate NoEmptyTable(r: Table) {
    forall pid | pid in r :: |r[pid]| != 0
  }

  datatype Reception = Reception(table: Table, delivered: Option<seq<Byte>>, error: bool)

  function Receive(r: Table, c: Chunk, now: int): Reception {
    var found := Entry(r, c.key);
    var m := if found.Some? then found.value else Message(c.total, [], EPOCH);
    var r1 := Put(r, c.key, m);
    var data := m.data + c.data;
    if |m.data| != c.offset || c.offset + |c.data| > c.total || |data| > m.total then Reception(r1, None, true)
    else if |data| == m.total then Reception(Erase(r1, c.key), Some(data), false)
    else Reception(Put(r1, c.key, Message(m.total, data, now)), None, false)
  }

  predicate Stale(m: Message, now: int, maxAge: int) {
    now - m.lastUpdated > maxAge
  }

  function Recent(t: map<nat, Message>, now: int, maxAge: int): map<nat, Message> {
    map id | id in t && !Stale(t[id], now, maxAge) :: t[id]
  }

  function CleanedUp(r: Table, now: int, maxAge: int): Table {
    map pid | pid in r && |Recent(r[pid], now, maxAge)| != 0 :: Recent(r[pid], now, maxAge)
  }

  // Tables ----------------------------------------------------------------------

  lemma PutEntry(r: Table, key: Key, m: Message)
    ensures Entry(Put(r, key, m), key) == Some(m)
    ensures forall other | other != key :: Entry(Put(r, key, m), other) == Entry(r, other)
    ensures NoEmptyTable(r) ==> NoEmptyTable(Put(r, key, m))
  {
    var inner := Put(r, key, m)[key.pid];
    assert key.msgId in inner;
  }

  lemma PutSame(r: Table, key: Key)
    requires Entry(r, key).Some?
    ensures Put(r, key, Entry(r, key).value) == r
  {
    var inner := r[key.pid];
    assert inner[key.msgId := inner[key.msgId]] == inner;
  }

  lemma EraseEntry(r: Table, key: Key)
    requires Entry(r, key).Some?
    ensures Entry(Erase(r, key), key) == None
    ensures forall other | other != key :: Entry(Erase(r, key), other) == Entry(r, other)
    ensures NoEmptyTable(r) ==> NoEmptyTable(Erase(r, key))
  {
    var rest := r[key.pid] - {key.msgId};
    forall other | other != key
      ensures Entry(Erase(r, key), other) == Entry(r, other)
    {
      if other.pid == key.pid && other.msgId in r[key.pid] {
        assert other.msgId in rest;
      }
    }
  }

  lemma CleanedUpEntry(r: Table, now: int, maxAge: int, key: Key)
    ensures Entry(CleanedUp(r, now, maxAge), key)
         == if Entry(r, key).Some? && now - Entry(r, key).value.lastUpdated <= maxAge then Entry(r, key) else None
    ensures NoEmptyTable(CleanedUp(r, now, maxAge))
  {
    if Entry(r, key).Some? && !Stale(Entry(r, key).value, now, maxAge) {
      assert key.msgId in Recent(r[key.pid], now, maxAge);
    }
  }

  // ---------------------------------------------------------------------------
  // Runs of the receiver
  // ---------------------------------------------------------------------------

  datatype Event = Arrive(key: Key, k: nat, now: int) | Cleanup(at: int, maxAge: int)

  datatype State = State(table: Table, delivered: seq<(Key, seq<Byte>)>, errors: nat)

  type Payloads = map<Key, seq<Byte>>

  /** Chunks that exist, those of one message in sending order, each at most once. */
  ghost predicate LossyTrace(sent: Payloads, es: seq<Event>) {
    && (forall i | 0 <= i < |es| && es[i].Arrive? :: es[i].key in sent && es[i].k < ChunkCount(sent[es[i].key]))
    && (forall i, j | 0 <= i < j < |es| && es[i].Arrive? && es[j].Arrive? && es[i].key == es[j].key ::
          es[i].k < es[j].k)
  }

  predicate NoCleanup(es: seq<Event>) {
    forall i | 0 <= i < |es| :: es[i].Arrive?
  }

  function Step(sent: Payloads, s: State, e: Event): State
    requires e.Arrive? ==> e.key in sent && e.k < ChunkCount(sent[e.key])
  {
    match e
    case Arrive(key, k, now) =>
      var r := Receive(s.table, ChunkAt(key, sent[key], k), now);
      State(r.table,
            if r.delivered.Some? then s.delivered + [(key, r.delivered.value)] else s.delivered,
            if r.error then s.errors + 1 else s.errors)
    case Cleanup(at, maxAge) => s.(table := CleanedUp(s.table, at, maxAge))
  }

  function Run(sent: Payloads, es: seq<Event>): State
    requires LossyTrace(sent, es)
  {
    if es == [] then State(map[], [], 0)
    else
      var n := |es| - 1;
      Step(sent, Run(sent, es[..n]), es[n])
  }

  predicate Arrived(es: seq<Event>, key: Key, k: nat) {
    exists i :: 0 <= i < |es| && es[i].Arrive? && es[i].key == key && es[i].k == k
  }

  // Safety: loss and cleanup at any time ----------------------------------------

  ghost predicate PartsOf(sent: Payloads, r: Table) {
    forall key | Entry(r, key).Some? ::
      key in sent && PartOf(sent[key], Entry(r, key).value)
  }

  /** A strict prefix of the payload. */
  predicate PartOf(payload: seq<Byte>, m: Message) {
    && m.total == |payload|
    && |m.data| < |payload|
    && m.data == payload[..|m.data|]
  }

  ghost predicate DeliveredFrom(sent: Payloads, es: seq<Event>, delivered: seq<(Key, seq<Byte>)>) {
    && (forall i | 0 <= i < |delivered| ::
          && delivered[i].0 in sent
          && delivered[i].1 == sent[delivered[i].0] != []
          && Arrived(es, delivered[i].0, ChunkCount(sent[delivered[i].0]) - 1))
    && (forall i, j | 0 <= i < j < |delivered| :: delivered[i].0 != delivered[j].0)
  }

  function Held(r: Table, key: Key): seq<Byte> {
    if Entry(r, key).Some? then Entry(r, key).value.data else []
  }

  /** What a chunk does to its own message: an unexpected offset changes no data, the
      expected one appends, and the last chunk hands the payload over. */
  ghost predicate Received(payload: seq<Byte>, held: seq<Byte>, key: Key, k: nat, now: int, out: Reception) {
    && out.error == (|held| != k * CHUNK_SIZE)
    && (out.error ==> out.delivered.None? && Entry(out.table, key).Some? && Held(out.table, key) == held)
    && (!out.error && k + 1 < ChunkCount(payload) ==>
          && out.delivered.None?
          && Entry(out.table, key) == Some(Message(|payload|, payload[..(k + 1) * CHUNK_SIZE], now)))
    && (!out.error && k + 1 == ChunkCount(payload) ==>
          out.delivered == Some(payload) && Entry(out.table, key) == None)
  }

  ghost predicate OthersKept(r: Table, r': Table, key: Key) {
    forall other | other != key :: Entry(r', other) == Entry(r, other)
  }

  ghost predicate IsReceived(payload: seq<Byte>, r: Table, key: Key, k: nat, now: int, out: Reception) {
    && Received(payload, Held(r, key), key, k, now, out) && OthersKept(r, out.table, key) && NoEmptyTable(out.table)
    && (Entry(out.table, key).Some? ==> PartOf(payload, Entry(out.table, key).value))
  }

  lemma ReceiveUnexpected(payload: seq<Byte>, r: Table, key: Key, k: nat, now: int)
    requires NoEmptyTable(r) && k < ChunkCount(payload)
    requires Entry(r, key).Some? ==> PartOf(payload, Entry(r, key).value)
    requires |Held(r, key)| != k * CHUNK_SIZE
    ensures IsReceived(payload, r, key, k, now, Receive(r, ChunkAt(key, payload, k), now))
  {
    var m := if Entry(r, key).Some? then Entry(r, key).value else Message(|payload|, [], EPOCH);
    PutEntry(r, key, m);
  }

  /** The entry that the expected chunk is appended to, and the data after it. */
  lemma ExpectedData(payload: seq<Byte>, r: Table, key: Key, k: nat)
    requires k < ChunkCount(payload) && |Held(r, key)| == k * CHUNK_SIZE
    requires Entry(r, key).Some? ==> PartOf(payload, Entry(r, key).value)
    ensures
      var c := ChunkAt(key, payload, k);
      Held(r, key) + c.data == payload[..Min(c.offset + CHUNK_SIZE, |payload|)]
  {}

  lemma ReceiveMiddle(payload: seq<Byte>, r: Table, key: Key, k: nat, now: int)
    requires NoEmptyTable(r) && k + 1 < ChunkCount(payload)
    requires Entry(r, key).Some? ==> PartOf(payload, Entry(r, key).value)
    requires |Held(r, key)| == k * CHUNK_SIZE
    ensures IsReceived(payload, r, key, k, now, Receive(r, ChunkAt(key, payload, k), now))
  {
    var c := ChunkAt(key, payload, k);
    var m := if Entry(r, key).Some? then Entry(r, key).value else Message(|payload|, [], EPOCH);
    PutEntry(r, key, m);
    ExpectedData(payload, r, key, k);
    PutEntry(Put(r, key, m), key, Message(m.total, m.data + c.data, now));
  }

  lemma ReceiveLast(payload: seq<Byte>, r: Table, key: Key, k: nat, now: int)
    requires NoEmptyTable(r) && k + 1 == ChunkCount(payload)
    requires Entry(r, key).Some? ==> PartOf(payload, Entry(r, key).value)
    requires |Held(r, key)| == k * CHUNK_SIZE
    ensures IsReceived(payload, r, key, k, now, Receive(r, ChunkAt(key, payload, k), now))
  {
    var m := if Entry(r, key).Some? then Entry(r, key).value else Message(|payload|, [], EPOCH);
    PutEntry(r, key, m);
    ExpectedData(payload, r, key, k);
    assert payload[..|payload|] == payload;
    EraseEntry(Put(r, key, m), key);
  }

  /** The effect of one chunk on a table of prefixes. */
  lemma ReceiveChunk(sent: Payloads, r: Table, key: Key, k: nat, now: int)
    requires PartsOf(sent, r) && NoEmptyTable(r) && key in sent && k < ChunkCount(sent[key])
    ensures
      var out := Receive(r, ChunkAt(key, sent[key], k), now);
      && Received(sent[key], Held(r, key), key, k, now, out) && OthersKept(r, out.table, key)
      && NoEmptyTable(out.table) && PartsOf(sent, out.table)
  {
    if |Held(r, key)| != k * CHUNK_SIZE {
      ReceiveUnexpected(sent[key], r, key, k, now);
    } else {
      if k + 1 < ChunkCount(sent[key]) {
        ReceiveMiddle(sent[key], r, key, k, now);
      } else {
        ReceiveLast(sent[key], r, key, k, now);
      }
    }
  }

  ghost predicate Safe(sent: Payloads, es: seq<Event>, s: State) {
    PartsOf(sent, s.table) && NoEmptyTable(s.table) && DeliveredFrom(sent, es, s.delivered)
  }

  lemma CleanupIsSafe(sent: Payloads, es: seq<Event>, s: State, s': State)
    requires es != [] && LossyTrace(sent, es) && es[|es| - 1].Cleanup?
    requires Safe(sent, es[..|es| - 1], s) && s' == Step(sent, s, es[|es| - 1])
    ensures Safe(sent, es, s')
  {
    var e := es[|es| - 1];
    StillDelivered(sent, es, s.delivered);
    CleanedUpEntry(s.table, e.at, e.maxAge, Key(0, 0));
    forall key | Entry(s'.table, key).Some?
      ensures key in sent && PartOf(sent[key], Entry(s'.table, key).value)
    {
      CleanedUpEntry(s.table, e.at, e.maxAge, key);
    }
  }

  lemma {:induction false} RunIsSafe(sent: Payloads, es: seq<Event>)
    requires LossyTrace(sent, es)
    ensures Safe(sent, es, Run(sent, es))
  {
    if es != [] {
      var n := |es| - 1;
      var before := es[..n];
      TracePrefix(sent, es, n);
      RunIsSafe(sent, before);
      if es[n].Arrive? {
        ArrivalIsSafe(sent, es, Run(sent, before), Run(sent, es));
      } else {
        CleanupIsSafe(sent, es, Run(sent, before), Run(sent, es));
      }
    }
  }

  lemma TracePrefix(sent: Payloads, es: seq<Event>, n: nat)
    requires LossyTrace(sent, es) && n <= |es|
    ensures LossyTrace(sent, es[..n])
  {}

  lemma ArrivalIsSafe(sent: Payloads, es: seq<Event>, s: State, s': State)
    requires es != [] && LossyTrace(sent, es) && es[|es| - 1].Arrive?
    requires Safe(sent, es[..|es| - 1], s) && s' == Step(sent, s, es[|es| - 1])
    ensures Safe(sent, es, s')
  {
    var e := es[|es| - 1];
    var r := Receive(s.table, ChunkAt(e.key, sent[e.key], e.k), e.now);
    StillDelivered(sent, es, s.delivered);
    ReceiveChunk(sent, s.table, e.key, e.k, e.now);
    if r.delivered.Some? {
      DeliverOne(sent, es, s.delivered, e.key);
    }
  }

  lemma DeliverOne(sent: Payloads, es: seq<Event>, delivered: seq<(Key, seq<Byte>)>, key: Key)
    requires DeliveredFrom(sent, es, delivered) && key in sent && sent[key] != []
    requires Arrived(es, key, ChunkCount(sent[key]) - 1)
    requires forall i | 0 <= i < |delivered| :: delivered[i].0 != key
    ensures DeliveredFrom(sent, es, delivered + [(key, sent[key])])
  {
  }

  lemma StillDelivered(sent: Payloads, es: seq<Event>, delivered: seq<(Key, seq<Byte>)>)
    requires es != [] && DeliveredFrom(sent, es[..|es| - 1], delivered)
    ensures DeliveredFrom(sent, es, delivered)
  {
    forall i | 0 <= i < |delivered|
      ensures Arrived(es, delivered[i].0, ChunkCount(sent[delivered[i].0]) - 1)
    {
      var key, k := delivered[i].0, ChunkCount(sent[delivered[i].0]) - 1;
      var a :| 0 <= a < |es| - 1 && es[a].Arrive? && es[a].key == key && es[a].k == k;
    }
  }

  /** With any chunks lost and cleanups at any time: what is under reassembly is a strict
      prefix of the payload sent under its key, what was delivered is what was sent, and
      nothing is delivered twice. */
  lemma LossyDeliveryIsSafe(sent: Payloads, es: seq<Event>, s: State, key: Key, i: nat, j: nat)
    requires LossyTrace(sent, es) && s == Run(sent, es)
    ensures Entry(s.table, key).Some? ==>
              && key in sent
              && |Entry(s.table, key).value.data| < |sent[key]|
              && Entry(s.table, key).value.data <= sent[key]
    ensures i < |s.delivered| ==> s.delivered[i].0 in sent && s.delivered[i].1 == sent[s.delivered[i].0]
    ensures i < j < |s.delivered| ==> s.delivered[i].0 != s.delivered[j].0
    ensures NoEmptyTable(s.table)
  {
    RunIsSafe(sent, es);
  }

  predicate IsDelivered(delivered: seq<(Key, seq<Byte>)>, key: Key) {
    exists i :: 0 <= i < |delivered| && delivered[i].0 == key
  }

  lemma DeliveredGrows(s: State, s': State, key: Key)
    requires s.delivered == s'.delivered
          || exists data :: s'.delivered == s.delivered + [data]
    ensures IsDelivered(s.delivered, key) ==> IsDelivered(s'.delivered, key)
    ensures IsDelivered(s'.delivered, key) ==>
              || IsDelivered(s.delivered, key)
              || (|s'.delivered| > |s.delivered| && s'.delivered[|s.delivered|].0 == key)
  {
    if IsDelivered(s.delivered, key) {
      var i :| 0 <= i < |s.delivered| && s.delivered[i].0 == key;
      assert s'.delivered[i].0 == key;
    }
    if IsDelivered(s'.delivered, key) {
      var i :| 0 <= i < |s'.delivered| && s'.delivered[i].0 == key;
      assert i < |s.delivered| ==> s.delivered[i].0 == key;
    }
  }

  ghost predicate AllArrived(sent: Payloads, es: seq<Event>, key: Key)
    requires key in sent
  {
    forall k: nat | k < ChunkCount(sent[key]) :: Arrived(es, key, k)
  }

  // Loss and cleanup together ------------------------------------------------------

  /** How far a message has come: its first `chunks` chunks arrived and nothing else, the last
      of them at time `last`; or it can no longer be completed. */
  datatype Progress = Growing(chunks: nat, last: int) | Dead

  function Advance(pr: Progress, e: Event, key: Key, n: nat): Progress {
    match pr
    case Dead => Dead
    case Growing(c, last) =>
      match e
      case Arrive(other, k, now) =>
        if other != key then pr else if k == c then Growing(c + 1, now) else Dead
      case Cleanup(at, maxAge) => if 0 < c < n && at - last > maxAge then Dead else pr
  }

  function ProgressOf(es: seq<Event>, key: Key, n: nat): Progress {
    if es == [] then Growing(0, EPOCH)
    else Advance(ProgressOf(es[..|es| - 1], key, n), es[|es| - 1], key, n)
  }

  predicate ArrivalOf(e: Event, key: Key) {
    e.Arrive? && e.key == key
  }

  /** A cleanup at p finds the message stale that chunk es[i].k, not the last one, touched last. */
  predicate StaleAt(es: seq<Event>, key: Key, n: nat, i: nat, p: nat) {
    && i < p < |es| && ArrivalOf(es[i], key) && es[i].k + 1 < n
    && es[p].Cleanup? && es[p].at - es[i].now > es[p].maxAge
    && forall q | i < q < p :: !ArrivalOf(es[q], key)
  }

  ghost predicate StaleCleanup(es: seq<Event>, key: Key, n: nat) {
    exists i: nat, p: nat :: StaleAt(es, key, n, i, p)
  }

  /** A chunk is missing although a later one of its message has arrived. */
  ghost predicate Gap(es: seq<Event>, key: Key) {
    exists i: nat, k: nat {:trigger es[i], Arrived(es, key, k)} ::
      i < |es| && ArrivalOf(es[i], key) && k < es[i].k && !Arrived(es, key, k)
  }

  /** What growing means: exactly the first chunks are in, and no cleanup found them stale. */
  ghost predicate GrowingMeans(es: seq<Event>, key: Key, n: nat, c: nat, last: int) {
    && (forall k: nat :: Arrived(es, key, k) <==> k < c)
    && (c > 0 ==> exists i: nat :: i < |es| && IsLatest(es, key, i) && es[i].k == c - 1 && es[i].now == last)
    && !StaleCleanup(es, key, n)
  }

  predicate IsLatest(es: seq<Event>, key: Key, i: nat)
    requires i < |es|
  {
    ArrivalOf(es[i], key) && forall q | i < q < |es| :: !ArrivalOf(es[q], key)
  }

  lemma ArrivedMore(es: seq<Event>, key: Key, k: nat)
    requires es != []
    ensures
      var n := |es| - 1;
      Arrived(es, key, k) <==> Arrived(es[..n], key, k) || (ArrivalOf(es[n], key) && es[n].k == k)
  {
    var n := |es| - 1;
    if Arrived(es[..n], key, k) {
      var i :| 0 <= i < n && es[..n][i].Arrive? && es[..n][i].key == key && es[..n][i].k == k;
      assert es[i] == es[..n][i];
    }
    if Arrived(es, key, k) {
      var i :| 0 <= i < |es| && es[i].Arrive? && es[i].key == key && es[i].k == k;
      assert i < n ==> es[..n][i] == es[i];
    }
  }

  lemma StaleStays(es: seq<Event>, key: Key, n: nat)
    requires es != [] && StaleCleanup(es[..|es| - 1], key, n)
    ensures StaleCleanup(es, key, n)
  {
    var end := |es| - 1;
    var i: nat, p: nat :| StaleAt(es[..end], key, n, i, p);
    StaleInPrefix(es, key, n, end, i, p);
  }

  lemma GapStays(sent: Payloads, es: seq<Event>, key: Key)
    requires LossyTrace(sent, es) && es != [] && Gap(es[..|es| - 1], key)
    ensures Gap(es, key)
  {
    var before := es[..|es| - 1];
    var i: nat, k: nat :| i < |before| && ArrivalOf(before[i], key) && k < before[i].k && !Arrived(before, key, k);
    ArrivedMore(es, key, k);
    assert es[i] == before[i];
  }

  lemma StaleInPrefix(es: seq<Event>, key: Key, n: nat, end: nat, i: nat, p: nat)
    requires p < end <= |es|
    ensures StaleAt(es[..end], key, n, i, p) <==> StaleAt(es, key, n, i, p)
  {
    var before := es[..end];
    assert forall q | 0 <= q < end :: before[q] == es[q];
  }

  /** A cleanup that finds nothing stale now is no stale cleanup of the longer trace. */
  lemma NoStaleMore(es: seq<Event>, key: Key, n: nat, end: nat)
    requires end + 1 == |es| && !StaleCleanup(es[..end], key, n)
    requires forall i: nat :: !StaleAt(es, key, n, i, end)
    ensures !StaleCleanup(es, key, n)
  {
    forall i: nat, p: nat
      ensures !StaleAt(es, key, n, i, p)
    {
      if p < end {
        StaleInPrefix(es, key, n, end, i, p);
        assert !StaleAt(es[..end], key, n, i, p);
      }
    }
  }

  lemma LatestStays(es: seq<Event>, key: Key, i: nat)
    requires es != [] && i + 1 < |es| && !ArrivalOf(es[|es| - 1], key)
    ensures IsLatest(es[..|es| - 1], key, i) <==> IsLatest(es, key, i)
  {
    var before := es[..|es| - 1];
    assert forall q | 0 <= q < |before| :: before[q] == es[q];
  }

  /** A chunk of another message, or a cleanup that finds this one not stale, changes nothing. */
  lemma KeepsGrowing(es: seq<Event>, key: Key, n: nat, c: nat, last: int)
    requires es != [] && !ArrivalOf(es[|es| - 1], key)
    requires GrowingMeans(es[..|es| - 1], key, n, c, last)
    requires es[|es| - 1].Cleanup? ==> c == 0 || c >= n || es[|es| - 1].at - last <= es[|es| - 1].maxAge
    ensures GrowingMeans(es, key, n, c, last)
  {
    var end := |es| - 1;
    var before := es[..end];
    assert forall q | 0 <= q < end :: before[q] == es[q];
    forall k: nat
      ensures Arrived(es, key, k) <==> k < c
    {
      ArrivedMore(es, key, k);
    }
    if c > 0 {
      var l: nat :| l < |before| && IsLatest(before, key, l) && before[l].k == c - 1 && before[l].now == last;
      LatestStays(es, key, l);
    }
    forall i: nat
      ensures !StaleAt(es, key, n, i, end)
    {
      NotStaleNow(es, key, n, c, last, i);
    }
    NoStaleMore(es, key, n, end);
  }

  lemma NotStaleNow(es: seq<Event>, key: Key, n: nat, c: nat, last: int, i: nat)
    requires es != [] && GrowingMeans(es[..|es| - 1], key, n, c, last)
    requires es[|es| - 1].Cleanup? ==> c == 0 || c >= n || es[|es| - 1].at - last <= es[|es| - 1].maxAge
    ensures !StaleAt(es, key, n, i, |es| - 1)
  {
    var end := |es| - 1;
    var before := es[..end];
    assert forall q | 0 <= q < end :: before[q] == es[q];
    if i < end && ArrivalOf(es[i], key) {
      assert Arrived(before, key, es[i].k);
      var l: nat :| l < |before| && IsLatest(before, key, l) && before[l].k == c - 1 && before[l].now == last;
      assert i != l ==> i < l;
    }
  }

  lemma NextChunk(es: seq<Event>, key: Key, n: nat, c: nat, last: int)
    requires es != [] && ArrivalOf(es[|es| - 1], key) && es[|es| - 1].k == c
    requires GrowingMeans(es[..|es| - 1], key, n, c, last)
    ensures GrowingMeans(es, key, n, c + 1, es[|es| - 1].now)
  {
    var end := |es| - 1;
    forall k: nat
      ensures Arrived(es, key, k) <==> k < c + 1
    {
      ArrivedMore(es, key, k);
    }
    assert IsLatest(es, key, end);
    NoStaleMore(es, key, n, end);
  }

  /** A chunk that is not the next one comes too early: the next one is lost. */
  lemma OtherChunkLeavesGap(sent: Payloads, es: seq<Event>, key: Key, n: nat, c: nat, last: int)
    requires LossyTrace(sent, es) && es != [] && ArrivalOf(es[|es| - 1], key) && es[|es| - 1].k != c
    requires GrowingMeans(es[..|es| - 1], key, n, c, last)
    ensures es[|es| - 1].k > c && Gap(es, key)
  {
    ArrivedMore(es, key, c);
    assert !Arrived(es, key, c);
  }

  lemma CleanupKills(es: seq<Event>, key: Key, n: nat, c: nat, last: int)
    requires es != [] && es[|es| - 1].Cleanup? && 0 < c < n && es[|es| - 1].at - last > es[|es| - 1].maxAge
    requires GrowingMeans(es[..|es| - 1], key, n, c, last)
    ensures StaleCleanup(es, key, n)
  {
    var before := es[..|es| - 1];
    var l: nat :| l < |before| && IsLatest(before, key, l) && before[l].k == c - 1 && before[l].now == last;
    LatestStays(es, key, l);
    assert StaleAt(es, key, n, l, |es| - 1);
  }

  ghost predicate ProgressMeans(sent: Payloads, es: seq<Event>, key: Key)
    requires key in sent
  {
    var n := ChunkCount(sent[key]);
    match ProgressOf(es, key, n)
    case Growing(c, last) => c <= n && GrowingMeans(es, key, n, c, last)
    case Dead => Gap(es, key) || StaleCleanup(es, key, n)
  }

  lemma {:induction false} ProgressIsMeant(sent: Payloads, es: seq<Event>, key: Key)
    requires LossyTrace(sent, es) && key in sent
    ensures ProgressMeans(sent, es, key)
  {
    if es != [] {
      var n, end := ChunkCount(sent[key]), |es| - 1;
      ProgressIsMeant(sent, es[..end], key);
      match ProgressOf(es[..end], key, n)
      case Dead =>
        if Gap(es[..end], key) { GapStays(sent, es, key); } else { StaleStays(es, key, n); }
      case Growing(c, last) =>
        if ArrivalOf(es[end], key) {
          if es[end].k == c { NextChunk(es, key, n, c, last); } else { OtherChunkLeavesGap(sent, es, key, n, c, last); }
        } else if es[end].Cleanup? && 0 < c < n && es[end].at - last > es[end].maxAge {
          CleanupKills(es, key, n, c, last);
        } else {
          KeepsGrowing(es, key, n, c, last);
        }
    }
  }

  predicate HoldsChunks(entry: Option<Message>, c: nat, n: nat, last: int) {
    if entry.None? then c == 0 || c == n
    else 0 < c < n && |entry.value.data| == c * CHUNK_SIZE && entry.value.lastUpdated == last
  }

  /** Some chunk has arrived after which every later one comes unexpected. */
  ghost predicate Outrun(es: seq<Event>, r: Table, key: Key) {
    exists i: nat :: i < |es| && IsLatest(es, key, i) && |Held(r, key)| <= es[i].k * CHUNK_SIZE
  }

  /** The receiver's state of a message, with cleanups, is a function of its progress. */
  ghost predicate Follows(pr: Progress, es: seq<Event>, s: State, key: Key, n: nat) {
    match pr
    case Growing(c, last) =>
      && (IsDelivered(s.delivered, key) <==> n > 0 && c == n)
      && HoldsChunks(Entry(s.table, key), c, n, last)
    case Dead => !IsDelivered(s.delivered, key) && Outrun(es, s.table, key)
  }

  lemma NextIsReceived(sent: Payloads, s: State, e: Event, key: Key, c: nat, last: int)
    requires key in sent && ArrivalOf(e, key) && e.k == c < ChunkCount(sent[key])
    requires PartsOf(sent, s.table) && NoEmptyTable(s.table)
    requires !IsDelivered(s.delivered, key) && HoldsChunks(Entry(s.table, key), c, ChunkCount(sent[key]), last)
    ensures
      var t := Step(sent, s, e);
      && (IsDelivered(t.delivered, key) <==> c + 1 == ChunkCount(sent[key]))
      && HoldsChunks(Entry(t.table, key), c + 1, ChunkCount(sent[key]), e.now)
  {
    var t := Step(sent, s, e);
    ReceiveChunk(sent, s.table, key, e.k, e.now);
    DeliveredGrows(s, t, key);
    if c + 1 == ChunkCount(sent[key]) {
      assert t.delivered[|s.delivered|].0 == key;
    }
  }

  lemma FollowsArrival(sent: Payloads, es: seq<Event>, s: State, key: Key, pr: Progress)
    requires LossyTrace(sent, es) && es != [] && key in sent && ArrivalOf(es[|es| - 1], key)
    requires PartsOf(sent, s.table) && NoEmptyTable(s.table)
    requires pr.Growing? ==> GrowingMeans(es[..|es| - 1], key, ChunkCount(sent[key]), pr.chunks, pr.last)
    requires Follows(pr, es[..|es| - 1], s, key, ChunkCount(sent[key]))
    ensures
      var n := ChunkCount(sent[key]);
      Follows(Advance(pr, es[|es| - 1], key, n), es, Step(sent, s, es[|es| - 1]), key, n)
  {
    var end := |es| - 1;
    var before, e := es[..end], es[end];
    match pr
    case Growing(c, last) =>
      if e.k == c {
        NextIsReceived(sent, s, e, key, c, last);
      } else {
        OtherChunkLeavesGap(sent, es, key, ChunkCount(sent[key]), c, last);
      }
    case Dead =>
      var i: nat :| i < |before| && IsLatest(before, key, i) && |Held(s.table, key)| <= before[i].k * CHUNK_SIZE;
      assert before[i] == es[i] && es[i].k < e.k;
  }

  lemma FollowsOther(sent: Payloads, es: seq<Event>, s: State, key: Key, pr: Progress)
    requires LossyTrace(sent, es) && es != [] && key in sent && es[|es| - 1].Arrive? && es[|es| - 1].key != key
    requires PartsOf(sent, s.table) && NoEmptyTable(s.table)
    requires Follows(pr, es[..|es| - 1], s, key, ChunkCount(sent[key]))
    ensures Follows(pr, es, Step(sent, s, es[|es| - 1]), key, ChunkCount(sent[key]))
  {
    var e := es[|es| - 1];
    ReceiveChunk(sent, s.table, e.key, e.k, e.now);
    DeliveredGrows(s, Step(sent, s, e), key);
    OutrunStays(es, key, s.table);
  }

  lemma OutrunStays(es: seq<Event>, key: Key, r: Table)
    requires es != [] && !ArrivalOf(es[|es| - 1], key)
    ensures Outrun(es[..|es| - 1], r, key) ==> Outrun(es, r, key)
  {
    var before := es[..|es| - 1];
    if i: nat :| i < |before| && IsLatest(before, key, i) && |Held(r, key)| <= before[i].k * CHUNK_SIZE {
      LatestStays(es, key, i);
      assert es[i] == before[i];
    }
  }

  lemma StaleIsRemoved(sent: Payloads, es: seq<Event>, s: State, key: Key, n: nat, c: nat, last: int)
    requires es != [] && es[|es| - 1].Cleanup? && 0 < c < n && es[|es| - 1].at - last > es[|es| - 1].maxAge
    requires GrowingMeans(es[..|es| - 1], key, n, c, last)
    requires Follows(Growing(c, last), es[..|es| - 1], s, key, n)
    ensures Follows(Dead, es, Step(sent, s, es[|es| - 1]), key, n)
  {
    var e, before := es[|es| - 1], es[..|es| - 1];
    CleanedUpEntry(s.table, e.at, e.maxAge, key);
    var l: nat :| l < |before| && IsLatest(before, key, l) && before[l].k == c - 1 && before[l].now == last;
    LatestStays(es, key, l);
    assert es[l] == before[l];
  }

  lemma RecentIsKept(sent: Payloads, es: seq<Event>, s: State, key: Key, n: nat, c: nat, last: int)
    requires es != [] && es[|es| - 1].Cleanup? && !(0 < c < n && es[|es| - 1].at - last > es[|es| - 1].maxAge)
    requires Follows(Growing(c, last), es[..|es| - 1], s, key, n)
    ensures Follows(Growing(c, last), es, Step(sent, s, es[|es| - 1]), key, n)
  {
    CleanedUpEntry(s.table, es[|es| - 1].at, es[|es| - 1].maxAge, key);
  }

  lemma DeadStaysDead(sent: Payloads, es: seq<Event>, s: State, key: Key, n: nat)
    requires es != [] && es[|es| - 1].Cleanup? && Follows(Dead, es[..|es| - 1], s, key, n)
    ensures Follows(Dead, es, Step(sent, s, es[|es| - 1]), key, n)
  {
    CleanedUpEntry(s.table, es[|es| - 1].at, es[|es| - 1].maxAge, key);
    OutrunStays(es, key, s.table);
  }

  lemma {:induction false} RunFollows(sent: Payloads, es: seq<Event>, key: Key)
    requires LossyTrace(sent, es) && key in sent
    ensures
      var n := ChunkCount(sent[key]);
      Follows(ProgressOf(es, key, n), es, Run(sent, es), key, n)
  {
    if es != [] {
      var end, n := |es| - 1, ChunkCount(sent[key]);
      var pr := ProgressOf(es[..end], key, n);
      TracePrefix(sent, es, end);
      RunFollows(sent, es[..end], key);
      RunIsSafe(sent, es[..end]);
      ProgressIsMeant(sent, es[..end], key);
      if es[end].Cleanup? {
        match pr
        case Dead => DeadStaysDead(sent, es, Run(sent, es[..end]), key, n);
        case Growing(c, last) =>
          if 0 < c < n && es[end].at - last > es[end].maxAge {
            StaleIsRemoved(sent, es, Run(sent, es[..end]), key, n, c, last);
          } else {
            RecentIsKept(sent, es, Run(sent, es[..end]), key, n, c, last);
          }
      } else if es[end].key == key {
        FollowsArrival(sent, es, Run(sent, es[..end]), key, pr);
      } else {
        FollowsOther(sent, es, Run(sent, es[..end]), key, pr);
      }
    }
  }

  /** With any chunks lost and cleanups at any time, a non-empty message is delivered exactly
      when all its chunks arrive and no cleanup finds it stale between two of them. */
  lemma DeliveredIffArrivedInTime(sent: Payloads, es: seq<Event>, key: Key)
    requires LossyTrace(sent, es) && key in sent && sent[key] != []
    ensures IsDelivered(Run(sent, es).delivered, key)
       <==> AllArrived(sent, es, key) && !StaleCleanup(es, key, ChunkCount(sent[key]))
  {
    var n := ChunkCount(sent[key]);
    RunFollows(sent, es, key);
    ProgressIsMeant(sent, es, key);
    if AllArrived(sent, es, key) {
      match ProgressOf(es, key, n)
      case Growing(c, _) => assert !Arrived(es, key, c);
      case Dead =>
    }
  }

  /** Without cleanup a message is delivered exactly when none of its chunks is lost. */
  lemma DeliveredIffNothingLost(sent: Payloads, es: seq<Event>, key: Key)
    requires LossyTrace(sent, es) && NoCleanup(es) && key in sent && sent[key] != []
    ensures IsDelivered(Run(sent, es).delivered, key) <==> AllArrived(sent, es, key)
  {
    DeliveredIffArrivedInTime(sent, es, key);
  }

  // Nothing lost ----------------------------------------------------------------

  ghost predicate Lossless(sent: Payloads, es: seq<Event>) {
    && LossyTrace(sent, es) && NoCleanup(es)
    && forall key | key in sent :: AllArrived(sent, es, key)
  }

  /** In a lossless trace no prefix has lost a chunk for good. */
  lemma LosslessHasNoGap(sent: Payloads, es: seq<Event>, m: nat, key: Key)
    requires Lossless(sent, es) && m <= |es| && key in sent
    ensures !Gap(es[..m], key) && !StaleCleanup(es[..m], key, ChunkCount(sent[key]))
  {
    var before := es[..m];
    assert forall q | 0 <= q < m :: before[q] == es[q];
    forall i: nat, k: nat | i < m && ArrivalOf(before[i], key) && k < before[i].k
      ensures Arrived(before, key, k)
    {
      assert Arrived(es, key, k);
      var j :| 0 <= j < |es| && es[j].Arrive? && es[j].key == key && es[j].k == k;
      assert es[j].k < es[i].k;
    }
  }

  /** In a lossless trace every chunk is the one its message waits for. */
  lemma ArrivesInTurn(sent: Payloads, es: seq<Event>, m: nat)
    requires Lossless(sent, es) && m < |es|
    ensures
      var pr := ProgressOf(es[..m], es[m].key, ChunkCount(sent[es[m].key]));
      pr.Growing? && pr.chunks == es[m].k
  {
    var key, k := es[m].key, es[m].k;
    var pr := ProgressOf(es[..m], key, ChunkCount(sent[key]));
    assert es[..m + 1][..m] == es[..m];
    LosslessHasNoGap(sent, es, m, key);
    LosslessHasNoGap(sent, es, m + 1, key);
    ProgressIsMeant(sent, es[..m], key);
    assert !Arrived(es[..m], key, k) && k >= pr.chunks;
    ArrivedMore(es[..m + 1], key, pr.chunks);
    assert ArrivalOf(es[..m + 1][m], key);
  }

  /** Each chunk is received without error, and exactly a last chunk delivers its message. */
  lemma DeliversAtLastChunk(sent: Payloads, es: seq<Event>, m: nat)
    requires Lossless(sent, es) && m < |es|
    requires LossyTrace(sent, es[..m]) && LossyTrace(sent, es[..m + 1])
    ensures
      var s, s' := Run(sent, es[..m]), Run(sent, es[..m + 1]);
      var key := es[m].key;
      && s'.errors == s.errors
      && s'.delivered == if es[m].k + 1 == ChunkCount(sent[key]) then s.delivered + [(key, sent[key])] else s.delivered
  {
    var e, s := es[m], Run(sent, es[..m]);
    assert es[..m + 1][..m] == es[..m];
    ArrivesInTurn(sent, es, m);
    RunIsSafe(sent, es[..m]);
    RunFollows(sent, es[..m], e.key);
    ReceiveChunk(sent, s.table, e.key, e.k, e.now);
  }

  lemma {:induction false} NoErrors(sent: Payloads, es: seq<Event>, m: nat)
    requires Lossless(sent, es) && m <= |es| && LossyTrace(sent, es[..m])
    ensures Run(sent, es[..m]).errors == 0
  {
    if m > 0 {
      NoErrors(sent, es, m - 1);
      DeliversAtLastChunk(sent, es, m - 1);
    }
  }

  lemma NonEmptyTable(r: Table)
    requires NoEmptyTable(r) && r != map[]
    ensures exists key :: Entry(r, key).Some?
  {
    var pid :| pid in r;
    var id :| id in r[pid];
    assert Entry(r, Key(pid, id)).Some?;
  }

  lemma CompleteAtTheEnd(sent: Payloads, es: seq<Event>, key: Key)
    requires Lossless(sent, es) && key in sent
    ensures Entry(Run(sent, es).table, key).None?
    ensures IsDelivered(Run(sent, es).delivered, key) <==> sent[key] != []
  {
    var pr := ProgressOf(es, key, ChunkCount(sent[key]));
    assert es[..|es|] == es && AllArrived(sent, es, key);
    LosslessHasNoGap(sent, es, |es|, key);
    ProgressIsMeant(sent, es, key);
    RunFollows(sent, es, key);
    assert !Arrived(es, key, pr.chunks);
  }

  /** Any order-preserving interleaving of complete chunk streams raises no error, delivers
      every non-empty payload, and leaves nothing behind in the table. */
  lemma LosslessDeliveryIsComplete(sent: Payloads, es: seq<Event>)
    requires Lossless(sent, es)
    ensures
      var s := Run(sent, es);
      && s.errors == 0
      && s.table == map[]
      && forall key | key in sent :: IsDelivered(s.delivered, key) <==> sent[key] != []
  {
    var s := Run(sent, es);
    assert es[..|es|] == es;
    NoErrors(sent, es, |es|);
    RunIsSafe(sent, es);
    forall key
      ensures Entry(s.table, key).None?
      ensures key in sent ==> (IsDelivered(s.delivered, key) <==> sent[key] != [])
    {
      if key in sent {
        CompleteAtTheEnd(sent, es, key);
      }
    }
    if s.table != map[] { NonEmptyTable(s.table); }
  }

  // ---------------------------------------------------------------------------
  // The class
  // ---------------------------------------------------------------------------

  class ChunkedMessageProcessor {
    const senderProcessId: nat
    var msgId: nat
    var received: Table

    constructor (pid: nat)
      ensures senderProcessId == pid && msgId == 0 && received == map[]
    {
      senderProcessId, msgId, received := pid, 0, map[];
    }

    /** Cuts the payload into chunks and hands them to the queue until one is refused;
        `accepted(k)` says whether the queue takes the k-th chunk. */
    method SendPayload(payload: seq<Byte>, accepted: nat -> bool) returns (ok: bool, chunks: seq<Chunk>)
      modifies this`msgId
      ensures msgId == (old(msgId) + 1) % 0x1_0000_0000_0000_0000
      ensures |chunks| <= ChunkCount(payload)
      ensures forall k | 0 <= k < |chunks| ::
                chunks[k] == ChunkAt(Key(senderProcessId, msgId), payload, k) && accepted(k)
      ensures ok <==> |chunks| == ChunkCount(payload)
      ensures !ok ==> !accepted(|chunks|)
    {
      msgId := (msgId + 1) % MSG_IDS;
      chunks := [];
      var offset := 0;
      while offset < |payload|
        invariant offset == Min(|chunks| * CHUNK_SIZE, |payload|)
        invariant |chunks| <= ChunkCount(payload)
        invariant forall k | 0 <= k < |chunks| ::
                    chunks[k] == ChunkAt(Key(senderProcessId, msgId), payload, k) && accepted(k)
      {
        var size := Min(CHUNK_SIZE, |payload| - offset);
        var chunk := Chunk(Key(senderProcessId, msgId), |payload|, offset, payload[offset..offset + size]);
        if !accepted(|chunks|) {
          return false, chunks;
        }
        chunks := chunks + [chunk];
        offset := offset + size;
      }
      return true, chunks;
    }

    method ProcessReceivedChunk(chunk: Chunk, now: int) returns (delivered: Option<seq<Byte>>, error: bool)
      modifies this`received
      ensures Reception(received, delivered, error) == Receive(old(received), chunk, now)
    {
      delivered, error := None, false;
      var found := Entry(received, chunk.key);
      if found.None? {
        received := Put(received, chunk.key, Message(chunk.total, [], EPOCH));
      }
      if found.Some? {
        PutSame(received, chunk.key);
      }
      var message := received[chunk.key.pid][chunk.key.msgId];
      if |message.data| != chunk.offset {
        return None, true;
      }
      if chunk.offset + |chunk.data| > chunk.total {
        return None, true;
      }
      if |message.data| + |chunk.data| > message.total {
        return None, true;
      }
      var data := message.data + chunk.data;
      if |data| == message.total {
        received := Erase(received, chunk.key);
        return Some(data), false;
      }
      received := Put(received, chunk.key, Message(message.total, data, now));
    }

    method CleanupAbandonedMessages(now: int, maxAge: int)
      modifies this`received
      ensures received == CleanedUp(old(received), now, maxAge)
    {
      received := RemoveStaleOfAll(received, now, maxAge);
    }
  }

  method RemoveStaleOfAll(r: Table, now: int, maxAge: int) returns (rest: Table)
    ensures rest == CleanedUp(r, now, maxAge)
  {
    rest := map[];
    var senders := r.Keys;
    while |senders| != 0
      invariant senders <= r.Keys
      invariant rest == map pid | pid in CleanedUp(r, now, maxAge) && pid !in senders :: CleanedUp(r, now, maxAge)[pid]
    {
      var pid :| pid in senders;
      var messages := RemoveStale(r[pid], now, maxAge);
      if |messages| != 0 {
        rest := rest[pid := messages];
      }
      senders := senders - {pid};
    }
  }

  method RemoveStale(messages: map<nat, Message>, now: int, maxAge: int) returns (rest: map<nat, Message>)
    ensures rest == Recent(messages, now, maxAge)
  {
    rest := messages;
    var ids := messages.Keys;
    while |ids| != 0
      invariant ids <= rest.Keys <= messages.Keys
      invariant forall id | id in rest :: rest[id] == messages[id]
      invariant forall id | id in messages && id !in ids :: id in rest <==> !Stale(messages[id], now, maxAge)
    {
      var id :| id in ids;
      if now - messages[id].lastUpdated > maxAge {
        rest := rest - {id};
      }
      ids := ids - {id};
    }
  }
}
