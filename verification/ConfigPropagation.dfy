/**
 How a remote configuration travels from the server to a request: the OpAMP client replaces
 its files when the hash changes, the coordinator process merges them into shared memory under
 a revision, each worker process copies them when that revision differs from its own, its
 configuration manager numbers the copy, and the storage that requests read pulls it.
 */
module ConfigPropagation {
  import opened Strings

  type Files = map<string, string>

  // The server's messages and the OpAMP client ----------------------------------------

  datatype Message = Message(hash: string, config: Files)

  /** The hash held after the messages: each message either carries it already or replaces it. */
  function HashAfter(ms: seq<Message>): string {
    if ms == [] then "" else ms[|ms| - 1].hash
  }

  predicate Accepts(before: seq<Message>, m: Message) {
    HashAfter(before) != m.hash
  }

  /** The configurations handed on, oldest first. */
  function Accepted(ms: seq<Message>): seq<Files> {
    if ms == [] then []
    else
      var n := |ms| - 1;
      Accepted(ms[..n]) + if Accepts(ms[..n], ms[n]) then [ms[n].config] else []
  }

  function LatestOf(configs: seq<Files>): Files {
    if configs == [] then map[] else configs[|configs| - 1]
  }

  /** The configuration of the last message, as the server means it to be in force. */
  function Meant(ms: seq<Message>): Files {
    if ms == [] then map[] else ms[|ms| - 1].config
  }

  /** A message that repeats the hash before it repeats the configuration too; at first there is no hash and no file. */
  predicate HashTellsConfig(ms: seq<Message>) {
    forall n | 0 <= n < |ms| :: FollowsOn(ms[..n], ms[n])
  }

  predicate FollowsOn(before: seq<Message>, m: Message) {
    m.hash == HashAfter(before) ==> m.config == Meant(before)
  }

  lemma ClientAfterMore(before: seq<Message>, m: Message)
    ensures
      LatestOf(Accepted(before + [m])) == if Accepts(before, m) then m.config else LatestOf(Accepted(before))
    ensures Accepted(before + [m]) == Accepted(before) + if Accepts(before, m) then [m.config] else []
  {
    var ms := before + [m];
    assert ms[..|ms| - 1] == before;
  }

  predicate HeldAfter(ms: seq<Message>) {
    LatestOf(Accepted(ms)) == Meant(ms)
  }

  /** After each message the client held what the server meant. */
  predicate Followed(ms: seq<Message>) {
    forall n | 0 <= n <= |ms| :: HeldAfter(ms[..n])
  }

  lemma FollowedMore(before: seq<Message>, m: Message)
    ensures Followed(before + [m]) <==> Followed(before) && HeldAfter(before + [m])
  {
    var ms := before + [m];
    assert ms[..|ms|] == ms;
    assert forall n | 0 <= n <= |before| :: ms[..n] == before[..n];
  }

  lemma TellsMore(before: seq<Message>, m: Message)
    ensures HashTellsConfig(before + [m]) <==> HashTellsConfig(before) && FollowsOn(before, m)
  {
    var ms := before + [m];
    assert ms[..|before|] == before;
    assert forall n | 0 <= n < |before| :: ms[..n] == before[..n] && ms[n] == before[n];
  }

  /** The client follows the server exactly when the hash tells the configuration. */
  lemma {:induction false} ClientFollowsServerIff(ms: seq<Message>)
    ensures Followed(ms) <==> HashTellsConfig(ms)
  {
    if ms == [] {
      assert ms[..0] == ms;
    } else {
      var last := |ms| - 1;
      var before, m := ms[..last], ms[last];
      assert ms == before + [m];
      ClientFollowsServerIff(before);
      FollowedMore(before, m);
      TellsMore(before, m);
      ClientAfterMore(before, m);
      if Followed(before) { assert before[..last] == before && HeldAfter(before[..last]); }
    }
  }

  // The shared files ---------------------------------------------------------------------

  /** Later configurations override earlier ones, file by file; nothing is ever removed. */
  function MergeAll(configs: seq<Files>): Files {
    if configs == [] then map[]
    else MergeAll(configs[..|configs| - 1]) + configs[|configs| - 1]
  }

  lemma MergeMore(configs: seq<Files>, c: Files)
    ensures MergeAll(configs + [c]) == MergeAll(configs) + c
  {
    var more := configs + [c];
    assert more[..|more| - 1] == configs;
  }

  lemma {:induction false} MergedNames(configs: seq<Files>, name: string)
    ensures name in MergeAll(configs) <==> exists c | c in configs :: name in c
  {
    if configs != [] {
      var n := |configs| - 1;
      MergedNames(configs[..n], name);
      assert configs == configs[..n] + [configs[n]];
    }
  }

  predicate AllNamesIn(configs: seq<Files>, latest: Files) {
    forall c | c in configs :: c.Keys <= latest.Keys
  }

  /** The text of a file is that of the newest accepted configuration that has the file. */
  lemma {:induction false} NewestTextWins(configs: seq<Files>, n: nat, name: string)
    requires n < |configs| && name in configs[n]
    requires forall k | n < k < |configs| :: name !in configs[k]
    ensures name in MergeAll(configs) && MergeAll(configs)[name] == configs[n][name]
  {
    var last := |configs| - 1;
    if n < last { NewestTextWins(configs[..last], n, name); }
  }

  lemma MergedNamesIn(configs: seq<Files>, latest: Files)
    ensures MergeAll(configs).Keys <= latest.Keys <==> AllNamesIn(configs, latest)
  {
    if AllNamesIn(configs, latest) {
      forall name | name in MergeAll(configs)
        ensures name in latest
      {
        MergedNames(configs, name);
        var c :| c in configs && name in c;
        assert c.Keys <= latest.Keys;
      }
    }
    if MergeAll(configs).Keys <= latest.Keys {
      forall c, name | c in configs && name in c.Keys
        ensures name in latest.Keys
      {
        MergedNames(configs, name);
        assert name in MergeAll(configs).Keys;
      }
    }
  }

  /** The shared files are the latest configuration exactly when it still has every file ever accepted. */
  lemma SharedIsLatestIff(configs: seq<Files>)
    ensures MergeAll(configs) == LatestOf(configs) <==> AllNamesIn(configs, LatestOf(configs))
  {
    var latest := LatestOf(configs);
    MergedNamesIn(configs, latest);
    if configs != [] {
      var earlier := MergeAll(configs[..|configs| - 1]);
      assert MergeAll(configs) == earlier + latest;
      if (earlier + latest).Keys <= latest.Keys {
        assert earlier + latest == latest;
      }
    }
  }

  // Reading strings back out of shared memory -----------------------------------------------

  const NUL := '\0'

  /** What a C string shows of a string: the part before the first NUL. */
  function CString(s: string): string {
    if s == [] || s[0] == NUL then [] else [s[0]] + CString(s[1..])
  }

  lemma {:induction false} CStringKeepsIff(s: string)
    ensures CString(s) == s <==> '\0' !in s
    ensures '\0' !in CString(s)
  {
    if s != [] && s[0] != NUL {
      CStringKeepsIff(s[1..]);
      assert s == [s[0]] + s[1..];
    }
  }

  predicate IsLeast(names: set<string>, k: string) {
    k in names && forall other | other in names :: other == k || Before(k, other)
  }

  lemma {:induction false} LeastExists(names: set<string>) returns (k: string)
    requires |names| != 0
    ensures IsLeast(names, k)
    decreases |names|
  {
    var any :| any in names;
    var rest := names - {any};
    if |rest| == 0 {
      k := any;
      assert names == {any};
    } else {
      var least := LeastExists(rest);
      BeforeIsTotal(any, least);
      if Before(any, least) {
        k := any;
        forall other | other in names
          ensures other == k || Before(k, other)
        {
          if other != any && other != least { BeforeIsTransitive(any, least, other); }
        }
      } else {
        k := least;
        assert forall other | other in names :: other == any || other in rest;
      }
    }
  }

  /** No earlier name reads the same. */
  predicate LeastOfItsKind(m: Files, k: string) {
    k in m && forall other | other in m && CString(other) == CString(k) :: other == k || Before(k, other)
  }

  /** `v` is what a process reads of the shared files `m`: C strings, the first name of a kind winning. */
  ghost predicate IsView(m: Files, v: Files) {
    && (forall k | k in m :: CString(k) in v)
    && (forall t {:trigger Reads(m, v, t)} | t in v :: Reads(m, v, t))
  }

  ghost predicate Reads(m: Files, v: Files, t: string)
    requires t in v
  {
    exists k | k in m :: ReadFrom(m, v, t, k)
  }

  predicate ReadFrom(m: Files, v: Files, t: string, k: string)
    requires t in v && k in m
  {
    CString(k) == t && LeastOfItsKind(m, k) && v[t] == CString(m[k])
  }

  lemma OneReading(m: Files, v: Files, w: Files, t: string)
    requires IsView(m, v) && IsView(m, w) && t in v
    ensures t in w && v[t] == w[t]
  {
    assert Reads(m, v, t);
    var k :| k in m && ReadFrom(m, v, t, k);
    assert CString(k) in w;
    assert Reads(m, w, t);
    var l :| l in m && ReadFrom(m, w, t, l);
    BeforeIsTotal(k, l);
  }

  lemma ViewIsUnique(m: Files, v: Files, w: Files)
    requires IsView(m, v) && IsView(m, w)
    ensures v == w
  {
    forall t | t in v
      ensures t in w && v[t] == w[t]
    {
      OneReading(m, v, w, t);
    }
    forall t | t in w
      ensures t in v
    {
      OneReading(m, w, v, t);
    }
  }

  /** Of the names that read alike the first in byte order is the one whose text is read. */
  lemma FirstNameIsRead(m: Files, v: Files, k: string)
    requires IsView(m, v) && k in m
    requires forall other | other in m && other != k && CString(other) == CString(k) :: !Before(other, k)
    ensures CString(k) in v && v[CString(k)] == CString(m[k])
  {
    assert Reads(m, v, CString(k));
    var l :| l in m && ReadFrom(m, v, CString(k), l);
    BeforeIsTotal(k, l);
  }

  predicate NulFree(m: Files) {
    forall k | k in m :: NUL !in k && NUL !in m[k]
  }

  lemma NulFreeIsItsView(m: Files)
    requires NulFree(m)
    ensures IsView(m, m)
  {
    forall k | k in m
      ensures CString(k) == k && CString(m[k]) == m[k]
    {
      CStringKeepsIff(k);
      CStringKeepsIff(m[k]);
    }
    forall t | t in m
      ensures ReadFrom(m, m, t, t)
    {}
  }

  lemma ReadingsHaveNoNul(m: Files, v: Files, t: string)
    requires IsView(m, v) && t in v
    ensures NUL !in t && NUL !in v[t]
  {
    assert Reads(m, v, t);
    var k :| k in m && ReadFrom(m, v, t, k);
    CStringKeepsIff(k);
    CStringKeepsIff(m[k]);
  }

  /** A process reads the shared files as they are exactly when no name and no text has a NUL. */
  lemma ViewIsFaithfulIff(m: Files, v: Files)
    requires IsView(m, v)
    ensures v == m <==> NulFree(m)
  {
    if NulFree(m) {
      NulFreeIsItsView(m);
      ViewIsUnique(m, m, v);
    } else if v == m {
      var t :| t in m && !(NUL !in t && NUL !in m[t]);
      ReadingsHaveNoNul(m, v, t);
    }
  }

  // From the shared files to the latest configuration ----------------------------------------

  /** The latest configuration has no NUL, and no accepted name reads as one that it lacks. */
  predicate ReadsAsLatest(configs: seq<Files>) {
    && NulFree(LatestOf(configs))
    && forall c | c in configs :: ReadsWithin(c, LatestOf(configs))
  }

  predicate ReadsWithin(c: Files, latest: Files) {
    forall k | k in c :: CString(k) in latest
  }

  lemma {:induction false} PrefixComesBefore(k: string)
    ensures CString(k) == k || Before(CString(k), k)
  {
    if k != [] && k[0] != NUL {
      PrefixComesBefore(k[1..]);
      assert k == [k[0]] + k[1..];
    }
  }

  lemma LatestIsMerged(configs: seq<Files>, t: string)
    requires t in LatestOf(configs)
    ensures t in MergeAll(configs) && MergeAll(configs)[t] == LatestOf(configs)[t]
  {}

  lemma AcceptedNamesRead(configs: seq<Files>, k: string)
    requires k in MergeAll(configs) && forall c | c in configs :: ReadsWithin(c, LatestOf(configs))
    ensures CString(k) in LatestOf(configs)
  {
    MergedNames(configs, k);
    var c :| c in configs && k in c;
    assert ReadsWithin(c, LatestOf(configs));
  }

  /** A name of the latest configuration is the first of its kind, so its own text is read. */
  lemma LatestIsRead(configs: seq<Files>, v: Files, t: string)
    requires IsView(MergeAll(configs), v) && ReadsAsLatest(configs) && t in LatestOf(configs)
    ensures t in v && v[t] == LatestOf(configs)[t]
  {
    var m := MergeAll(configs);
    LatestIsMerged(configs, t);
    CStringKeepsIff(t);
    CStringKeepsIff(m[t]);
    assert CString(t) in v;
    assert Reads(m, v, t);
    var k :| k in m && ReadFrom(m, v, t, k);
    PrefixComesBefore(k);
    BeforeIsTotal(t, k);
  }

  lemma ReadIsLatest(configs: seq<Files>, v: Files, t: string)
    requires IsView(MergeAll(configs), v) && ReadsAsLatest(configs) && t in v
    ensures t in LatestOf(configs)
  {
    var m := MergeAll(configs);
    assert Reads(m, v, t);
    var k :| k in m && ReadFrom(m, v, t, k);
    AcceptedNamesRead(configs, k);
  }

  lemma LatestHasNoNul(configs: seq<Files>, v: Files)
    requires IsView(MergeAll(configs), v) && v == LatestOf(configs)
    ensures ReadsAsLatest(configs)
  {
    forall t | t in v
      ensures NUL !in t && NUL !in v[t]
    {
      ReadingsHaveNoNul(MergeAll(configs), v, t);
    }
    forall c, k | c in configs && k in c
      ensures CString(k) in LatestOf(configs)
    {
      MergedNames(configs, k);
      assert CString(k) in v;
    }
  }

  /** A process reads the latest accepted configuration exactly when that one has no NUL and
      every name ever accepted, up to its first NUL, is a name of it. */
  lemma ProcessReadsLatestIff(configs: seq<Files>, v: Files)
    requires IsView(MergeAll(configs), v)
    ensures v == LatestOf(configs) <==> ReadsAsLatest(configs)
  {
    var latest := LatestOf(configs);
    if v == latest { LatestHasNoNul(configs, v); }
    if ReadsAsLatest(configs) {
      forall t | t in latest
        ensures t in v && v[t] == latest[t]
      {
        LatestIsRead(configs, v, t);
      }
      forall t | t in v
        ensures t in latest
      {
        ReadIsLatest(configs, v, t);
      }
    }
  }

  // Inputs for which the server's configuration does not arrive -----------------------------------

  /** A file that the server withdraws stays in the shared files. */
  lemma WithdrawnFileStays(first: Files, second: Files, name: string)
    requires name in first && name !in second
    ensures name in MergeAll([first, second]) && name !in LatestOf([first, second])
  {
    var configs := [first, second];
    MergedNames(configs, name);
    assert first in configs;
  }

  /** A configuration whose hash is empty is ignored when it is the first one. */
  lemma EmptyHashIsIgnored(config: Files)
    ensures
      var ms := [Message("", config)];
      Accepted(ms) == [] && (HeldAfter(ms) <==> config == map[])
  {
    ClientAfterMore([], Message("", config));
    assert [] + [Message("", config)] == [Message("", config)];
  }

  /** A new configuration under the hash of the one before is ignored; the hash is reported as held. */
  lemma RepeatedHashIsIgnored(hash: string, first: Files, second: Files)
    requires hash != ""
    ensures
      var ms := [Message(hash, first), Message(hash, second)];
      Accepted(ms) == [first] && HashAfter(ms) == hash && (HeldAfter(ms) <==> first == second)
  {
    var m1, m2 := Message(hash, first), Message(hash, second);
    ClientAfterMore([], m1);
    assert [] + [m1] == [m1];
    ClientAfterMore([m1], m2);
    assert [m1] + [m2] == [m1, m2];
  }

  /** A text that contains a NUL is cut short. */
  lemma NulCutsText(name: string, before: string, after: string, v: Files)
    requires '\0' !in name && '\0' !in before
    requires IsView(map[name := before + ['\0'] + after], v)
    ensures v == map[name := before]
  {
    var m := map[name := before + [NUL] + after];
    CStringKeepsIff(name);
    CStringStops(before, after);
    assert name in m && CString(name) in v;
    forall t | t in v
      ensures t == name && v[t] == before
    {
      assert Reads(m, v, t);
      var k :| k in m && ReadFrom(m, v, t, k);
    }
  }

  lemma {:induction false} CStringStops(before: string, after: string)
    requires '\0' !in before
    ensures CString(before + ['\0'] + after) == before
  {
    var s := before + [NUL] + after;
    if before == [] {
      assert s[0] == NUL;
    } else {
      CStringStops(before[1..], after);
      assert s[0] == before[0] && s[1..] == before[1..] + [NUL] + after;
    }
  }

  // The system ---------------------------------------------------------------------------------

  datatype Snapshot = Snapshot(revision: nat, files: Files)

  datatype Shared = Shared(revision: nat, files: Files)

  /** A worker process: its copy of the shared revision, its manager and the storage that requests read. */
  datatype Worker = Worker(localRevision: nat, upcoming: nat, current: Snapshot, storage: Snapshot)

  datatype System = System(messages: seq<Message>, hash: string, files: Files, shared: Shared, workers: seq<Worker>)

  datatype Event =
    | Receive(m: Message)
    | Trigger(worker: nat)
    | Pull(worker: nat)
    | Fork(worker: nat)

  function Stored(s: Shared, config: Files): Shared {
    Shared(s.revision + 1, s.files + config)
  }

  /** The watchers of the worker update its manager when the shared revision is not its own. */
  ghost predicate IsTriggered(w: Worker, s: Shared, after: Worker) {
    if s.revision == w.localRevision then after == w
    else
      && after.localRevision == s.revision
      && after.upcoming == w.upcoming + 1
      && after.current.revision == after.upcoming
      && IsView(s.files, after.current.files)
      && after.storage == w.storage
  }

  function Pulled(w: Worker): Worker {
    if w.storage.revision != w.current.revision then w.(storage := w.current) else w
  }

  ghost predicate Next(s: System, e: Event, t: System) {
    match e
    case Receive(m) =>
      t == if s.hash == m.hash then s.(messages := s.messages + [m])
           else System(s.messages + [m], m.hash, m.config, Stored(s.shared, m.config), s.workers)
    case Trigger(i) =>
      && i < |s.workers| == |t.workers|
      && IsTriggered(s.workers[i], s.shared, t.workers[i])
      && t == s.(workers := s.workers[i := t.workers[i]])
    case Pull(i) =>
      i < |s.workers| && t == s.(workers := s.workers[i := Pulled(s.workers[i])])
    case Fork(i) =>
      i < |s.workers| && t == s.(workers := s.workers + [s.workers[i]])
  }

  /** After module initialisation up to the start of the coordinator: one process, nothing received. */
  ghost predicate Init(s: System) {
    && s.messages == [] && s.hash == "" && |s.files| == 0
    && s.shared.revision == 1 && |s.shared.files| == 0
    && |s.workers| == 1
    && s.workers[0].localRevision == 0
    && s.workers[0].upcoming == 2
    && s.workers[0].current.revision == 2 && |s.workers[0].current.files| == 0
    && s.workers[0].storage == s.workers[0].current
  }

  /** The shared files as they were at a revision. */
  function ContentAt(ms: seq<Message>, revision: nat): Files
    requires 1 <= revision <= 1 + |Accepted(ms)|
  {
    MergeAll(Accepted(ms)[..revision - 1])
  }

  ghost predicate SharedOk(s: System) {
    && s.hash == HashAfter(s.messages)
    && s.files == LatestOf(Accepted(s.messages))
    && s.shared.revision == 1 + |Accepted(s.messages)|
    && s.shared.files == MergeAll(Accepted(s.messages))
  }

  ghost predicate WorkerOk(ms: seq<Message>, w: Worker) {
    && w.localRevision <= 1 + |Accepted(ms)|
    && (w.localRevision > 0 ==> IsView(ContentAt(ms, w.localRevision), w.current.files))
    && w.current.revision == w.upcoming
    && w.storage.revision <= w.upcoming
    && (w.storage.revision == w.current.revision ==> w.storage == w.current)
  }

  /** The hash, the merged files and the revisions of every cache agree with the messages received. */
  ghost predicate Inv(s: System) {
    SharedOk(s) && forall i | 0 <= i < |s.workers| :: WorkerOk(s.messages, s.workers[i])
  }

  lemma InitIsOk(s: System)
    requires Init(s)
    ensures Inv(s)
  {}

  lemma WorkerStaysOk(ms: seq<Message>, m: Message, w: Worker)
    requires WorkerOk(ms, w)
    ensures WorkerOk(ms + [m], w)
  {
    ClientAfterMore(ms, m);
    if w.localRevision > 0 {
      assert Accepted(ms + [m])[..w.localRevision - 1] == Accepted(ms)[..w.localRevision - 1];
    }
  }

  lemma ReceiveKeepsShared(s: System, m: Message, t: System)
    requires SharedOk(s) && Next(s, Receive(m), t)
    ensures SharedOk(t)
  {
    var configs := Accepted(s.messages);
    ClientAfterMore(s.messages, m);
    if Accepts(s.messages, m) {
      MergeMore(configs, m.config);
    } else {
      assert configs + [] == configs;
    }
  }

  lemma TriggerKeepsWorker(s: System, w: Worker, after: Worker)
    requires SharedOk(s) && WorkerOk(s.messages, w) && IsTriggered(w, s.shared, after)
    ensures WorkerOk(s.messages, after)
  {
    var configs := Accepted(s.messages);
    assert configs[..|configs|] == configs;
  }

  lemma ReceiveKeepsInv(s: System, m: Message, t: System)
    requires Inv(s) && Next(s, Receive(m), t)
    ensures Inv(t)
  {
    ReceiveKeepsShared(s, m, t);
    forall i | 0 <= i < |t.workers|
      ensures WorkerOk(t.messages, t.workers[i])
    {
      WorkerStaysOk(s.messages, m, s.workers[i]);
    }
  }

  lemma TriggerKeepsInv(s: System, i: nat, t: System)
    requires Inv(s) && Next(s, Trigger(i), t)
    ensures Inv(t)
  {
    TriggerKeepsWorker(s, s.workers[i], t.workers[i]);
  }

  lemma LocalKeepsInv(s: System, e: Event, t: System)
    requires Inv(s) && Next(s, e, t) && (e.Pull? || e.Fork?)
    ensures Inv(t)
  {
    assert t.messages == s.messages && SharedOk(t);
    forall j | 0 <= j < |t.workers|
      ensures WorkerOk(t.messages, t.workers[j])
    {
      assert WorkerOk(s.messages, s.workers[if j < |s.workers| then j else e.worker]);
    }
  }

  /** Every event keeps all the caches in agreement. */
  lemma StepKeepsInv(s: System, e: Event, t: System)
    requires Inv(s) && Next(s, e, t)
    ensures Inv(t)
  {
    match e
    case Receive(m) => ReceiveKeepsInv(s, m, t);
    case Trigger(i) => TriggerKeepsInv(s, i, t);
    case _ => LocalKeepsInv(s, e, t);
  }

  ghost predicate IsRun(ss: seq<System>, es: seq<Event>) {
    && |ss| == |es| + 1
    && forall k {:trigger es[k]} | 0 <= k < |es| :: Next(ss[k], es[k], ss[k + 1])
  }

  lemma {:induction false} RunKeepsInv(ss: seq<System>, es: seq<Event>, n: nat)
    requires IsRun(ss, es) && Inv(ss[0]) && n <= |es|
    ensures Inv(ss[n])
  {
    if n > 0 {
      RunKeepsInv(ss, es, n - 1);
      assert Next(ss[n - 1], es[n - 1], ss[n]);
      StepKeepsInv(ss[n - 1], es[n - 1], ss[n]);
    }
  }

  /** Runs begin with the state that module initialisation leaves and go on with any event. */
  lemma RunsGoOn(ss: seq<System>, es: seq<Event>, e: Event, s': System)
    ensures
      var w := Worker(0, 2, Snapshot(2, map[]), Snapshot(2, map[]));
      Init(System([], "", map[], Shared(1, map[]), [w]))
    ensures |ss| == 1 && es == [] ==> IsRun(ss, es)
    ensures IsRun(ss, es) && Next(ss[|es|], e, s') ==> IsRun(ss + [s'], es + [e])
  {
    if IsRun(ss, es) && Next(ss[|es|], e, s') {
      var ss', es' := ss + [s'], es + [e];
      forall k {:trigger es'[k]} | 0 <= k < |es'|
        ensures Next(ss'[k], es'[k], ss'[k + 1])
      {
        if k < |es| { assert es'[k] == es[k]; }
      }
    }
  }

  predicate Touches(e: Event, i: nat) {
    (e.Trigger? || e.Pull?) && e.worker == i
  }

  lemma {:induction false} OthersKeepWorker(ss: seq<System>, es: seq<Event>, i: nat, from: nat, to: nat)
    requires IsRun(ss, es) && from <= to <= |es| && i < |ss[from].workers|
    requires forall k | from <= k < to :: !Touches(es[k], i)
    ensures i < |ss[to].workers| && ss[to].workers[i] == ss[from].workers[i]
  {
    if from < to {
      OthersKeepWorker(ss, es, i, from, to - 1);
      assert !Touches(es[to - 1], i) && Next(ss[to - 1], es[to - 1], ss[to]);
    }
  }

  lemma TriggerReadsShared(s: System, i: nat, t: System)
    requires Inv(s) && Next(s, Trigger(i), t)
    ensures IsView(s.shared.files, t.workers[i].current.files)
    ensures Inv(t)
  {
    TriggerKeepsInv(s, i, t);
    var configs := Accepted(s.messages);
    assert configs[..|configs|] == configs;
    assert WorkerOk(s.messages, s.workers[i]);
  }

  /** The storage of a request holds the shared files as they were at its trigger, whatever else happens before it pulls. */
  lemma RequestReadsTheTrigger(ss: seq<System>, es: seq<Event>, i: nat, start: nat, end: nat)
    requires IsRun(ss, es) && Init(ss[0])
    requires start < end < |es| && es[start] == Trigger(i) && es[end] == Pull(i)
    requires forall k | start < k < end :: !Touches(es[k], i)
    ensures i < |ss[end + 1].workers|
    ensures IsView(MergeAll(Accepted(ss[start].messages)), ss[end + 1].workers[i].storage.files)
  {
    InitIsOk(ss[0]);
    RunKeepsInv(ss, es, start);
    assert Next(ss[start], es[start], ss[start + 1]);
    TriggerReadsShared(ss[start], i, ss[start + 1]);
    OthersKeepWorker(ss, es, i, start + 1, end);
    RunKeepsInv(ss, es, end);
    assert WorkerOk(ss[end].messages, ss[end].workers[i]);
    assert Next(ss[end], es[end], ss[end + 1]);
  }

  /** From the server to the request.  The storage of a request holds what the client held at
      its trigger exactly when the accepted configurations read as the latest one.  Where the
      client held what the server meant, this decides whether the request reads that; where they
      do read as the latest one, the request reads what the server meant exactly when the client
      held it. */
  lemma RequestReadsWhatTheServerMeant(ss: seq<System>, es: seq<Event>, i: nat, start: nat, end: nat)
    requires IsRun(ss, es) && Init(ss[0])
    requires start < end < |es| && es[start] == Trigger(i) && es[end] == Pull(i)
    requires forall k | start < k < end :: !Touches(es[k], i)
    ensures i < |ss[end + 1].workers|
    ensures
      var ms, read := ss[start].messages, ss[end + 1].workers[i].storage.files;
      var faithful := ReadsAsLatest(Accepted(ms));
      && (read == LatestOf(Accepted(ms)) <==> faithful)
      && (HeldAfter(ms) ==> (read == Meant(ms) <==> faithful))
      && (faithful ==> (read == Meant(ms) <==> HeldAfter(ms)))
  {
    RequestReadsTheTrigger(ss, es, i, start, end);
    ProcessReadsLatestIff(Accepted(ss[start].messages), ss[end + 1].workers[i].storage.files);
  }

  /** Two workers with the same copy of the revision hold the same files, and neither is ahead of the coordinator. */
  lemma EqualRevisionsEqualFiles(ss: seq<System>, es: seq<Event>, n: nat, i: nat, j: nat)
    requires IsRun(ss, es) && Init(ss[0]) && n <= |es|
    requires i < |ss[n].workers| && j < |ss[n].workers|
    requires 0 < ss[n].workers[i].localRevision == ss[n].workers[j].localRevision
    ensures ss[n].workers[i].current.files == ss[n].workers[j].current.files
    ensures ss[n].workers[i].localRevision <= ss[n].shared.revision
    ensures
      var w := ss[n].workers[i];
      w.storage.revision == w.current.revision ==> w.storage == w.current
  {
    InitIsOk(ss[0]);
    RunKeepsInv(ss, es, n);
    var ms, v, w := ss[n].messages, ss[n].workers[i], ss[n].workers[j];
    assert WorkerOk(ms, v) && WorkerOk(ms, w);
    ViewIsUnique(ContentAt(ms, v.localRevision), v.current.files, w.current.files);
  }
}
