/**
 The objects along which a remote configuration travels, each proved against the steps of
 `ConfigPropagation`.
 */
module ConfigComponents {
  import opened Common
  import opened ConfigPropagation
  import opened Strings

  /** The OpAMP client's part that keeps the remote configuration. */
  class OpAmp {
    var currentConfigHash: string
    var configFiles: Files
    ghost var received: seq<Message>

    ghost predicate Valid()
      reads this
    {
      && currentConfigHash == HashAfter(received)
      && configFiles == LatestOf(Accepted(received))
    }

    constructor ()
      ensures Valid() && received == []
    {
      currentConfigHash, configFiles, received := "", map[], [];
    }

    /** `updated` is what the watchers are called with, `None` when they are not. */
    method HandleServerToAgent(m: Message) returns (updated: Option<Files>)
      requires Valid()
      modifies this
      ensures Valid() && received == old(received) + [m]
      ensures updated == if Accepts(old(received), m) then Some(m.config) else None
      ensures currentConfigHash == m.hash
      ensures configFiles == if updated.Some? then m.config else old(configFiles)
    {
      ClientAfterMore(received, m);
      received := received + [m];
      if currentConfigHash == m.hash {
        return None;
      }
      configFiles := map[];
      currentConfigHash := m.hash;
      FillConfigFiles(m.config);
      return Some(configFiles);
    }

    method FillConfigFiles(config: Files)
      requires configFiles == map[]
      modifies `configFiles
      ensures configFiles == config
    {
      var rest := config.Keys;
      while |rest| != 0
        invariant rest <= config.Keys
        invariant configFiles == config - rest
        decreases |rest|
        modifies `configFiles
      {
        var name :| name in rest;
        rest := rest - {name};
        configFiles := configFiles[name := config[name]];
      }
      assert config - rest == config;
    }

    /** The hash that the heartbeat acknowledges as applied. */
    method HeartbeatHash() returns (reported: Option<string>)
      requires Valid()
      ensures reported == if HashAfter(received) == "" then None else Some(HashAfter(received))
    {
      reported := if currentConfigHash != "" then Some(currentConfigHash) else None;
    }
  }

  /** The shared files when the names in `rest` are still to be stored. */
  ghost predicate PartlyStored(was: Files, config: Files, rest: set<string>, now: Files) {
    rest <= config.Keys && now == was + (config - rest)
  }

  lemma OneMoreStored(was: Files, config: Files, rest: set<string>, now: Files, name: string)
    requires name in rest && PartlyStored(was, config, rest, now)
    ensures PartlyStored(was, config, rest - {name}, now[name := config[name]])
  {
    assert (config - rest)[name := config[name]] == config - (rest - {name});
  }

  lemma AllStored(was: Files, config: Files, rest: set<string>, now: Files)
    requires PartlyStored(was, config, rest, now) && |rest| == 0
    ensures now == was + config
  {
    assert config - rest == config;
  }

  /** What lies in the memory that the coordinator shares with the workers. */
  class SharedData {
    var configRevision: nat
    var configFiles: Files

    ghost function State(): Shared
      reads this
    {
      Shared(configRevision, configFiles)
    }

    constructor ()
      ensures State() == Shared(1, map[])
    {
      configRevision, configFiles := 1, map[];
    }

    /** Run in the coordinator process when the client has a new configuration. */
    method StoreConfigFiles(config: Files)
      modifies this
      ensures State() == Stored(old(State()), config)
    {
      ghost var was := configFiles;
      configRevision := configRevision + 1;
      var rest := config.Keys;
      while |rest| != 0
        invariant PartlyStored(was, config, rest, configFiles)
        decreases |rest|
        modifies `configFiles
      {
        var name :| name in rest;
        assert name in config.Keys;
        OneMoreStored(was, config, rest, configFiles, name);
        configFiles := configFiles[name := config[name]];
        rest := rest - {name};
      }
      AllStored(was, config, rest, configFiles);
    }

    /** The files as C strings, in the order of their names, the first of equal names kept. */
    method GetConfigurationNoLock() returns (result: Files)
      ensures IsView(configFiles, result)
    {
      var m := configFiles;
      result := map[];
      var rest := m.Keys;
      while |rest| != 0
        invariant ReadSoFar(m, rest, result)
        decreases |rest|
      {
        ghost var least := LeastExists(rest);
        var name :| name in rest && IsLeast(rest, name);
        ReadOneMore(m, rest, result, name);
        if CString(name) !in result {
          result := result[CString(name) := CString(m[name])];
        }
        rest := rest - {name};
      }
    }
  }

  /** What has been read when the names in `rest`, the greatest ones, are still to come. */
  ghost predicate ReadSoFar(m: Files, rest: set<string>, v: Files) {
    && rest <= m.Keys
    && (forall k, l {:trigger k in m, l in rest} | k in m && k !in rest && l in rest :: Before(k, l))
    && (forall k | k in m && k !in rest :: CString(k) in v)
    && (forall t {:trigger Reads(m, v, t)} | t in v :: Reads(m, v, t))
    && (forall t {:trigger ReadFromDone(m, rest, t)} | t in v :: ReadFromDone(m, rest, t))
  }

  ghost predicate ReadFromDone(m: Files, rest: set<string>, t: string) {
    exists k | k in m :: k !in rest && CString(k) == t
  }

  lemma ReadOneMore(m: Files, rest: set<string>, v: Files, name: string)
    requires ReadSoFar(m, rest, v) && IsLeast(rest, name)
    ensures
      var c := CString(name);
      ReadSoFar(m, rest - {name}, if c in v then v else v[c := CString(m[name])])
  {
    var c := CString(name);
    var w := if c in v then v else v[c := CString(m[name])];
    var fewer := rest - {name};
    if c !in v {
      assert ReadFrom(m, w, c, name);
    }
    forall t | t in w
      ensures Reads(m, w, t) && ReadFromDone(m, fewer, t)
    {
      if t in v {
        assert Reads(m, v, t) && ReadFromDone(m, rest, t);
      }
    }
  }

  class ConfigurationManager {
    var upcomingConfigRevision: nat
    var current: Snapshot

    constructor ()
      ensures upcomingConfigRevision == 1 && current == Snapshot(1, map[])
    {
      upcomingConfigRevision := 1;
      current := Snapshot(1, map[]);
    }

    method GetNextRevision() returns (revision: nat)
      modifies `upcomingConfigRevision
      ensures revision == upcomingConfigRevision == old(upcomingConfigRevision) + 1
    {
      upcomingConfigRevision := upcomingConfigRevision + 1;
      revision := upcomingConfigRevision;
    }

    method Update(configFiles: Files)
      modifies this
      ensures upcomingConfigRevision == old(upcomingConfigRevision) + 1
      ensures current == Snapshot(upcomingConfigRevision, configFiles)
    {
      var revision := GetNextRevision();
      current := Snapshot(revision, configFiles);
    }

    method UpdateIfChanged(snapshot: Snapshot) returns (changed: bool, latest: Snapshot)
      ensures changed <==> snapshot.revision != current.revision
      ensures latest == if changed then current else snapshot
    {
      if snapshot.revision != current.revision {
        return true, current;
      }
      return false, snapshot;
    }
  }

  class ConfigurationStorage {
    var config: Snapshot

    constructor ()
      ensures config == Snapshot(0, map[])
    {
      config := Snapshot(0, map[]);
    }

    /** `changed` tells whether the watchers are called. */
    method Update(manager: ConfigurationManager) returns (changed: bool)
      modifies this
      ensures changed <==> old(config).revision != manager.current.revision
      ensures config == if changed then manager.current else old(config)
    {
      changed, config := manager.UpdateIfChanged(config);
    }
  }

  /** The objects of one worker process, with the provider's copy of the shared revision. */
  class WorkerProcess {
    const shared: SharedData
    const manager: ConfigurationManager
    const storage: ConfigurationStorage
    var localConfigRevision: nat

    ghost predicate Valid()
      reads this, shared, manager, storage
    {
      manager.current.revision == manager.upcomingConfigRevision
    }

    ghost function State(): Worker
      reads this, manager, storage
    {
      Worker(localConfigRevision, manager.upcomingConfigRevision, manager.current, storage.config)
    }

    /** Module initialisation up to the start of the coordinator. */
    constructor (data: SharedData)
      ensures Valid() && shared == data && fresh(manager) && fresh(storage)
      ensures State() == Worker(0, 2, Snapshot(2, map[]), Snapshot(2, map[]))
    {
      shared := data;
      var m := new ConfigurationManager();
      var s := new ConfigurationStorage();
      m.Update(map[]);
      var _ := s.Update(m);
      manager, storage, localConfigRevision := m, s, 0;
    }

    method TriggerUpdateIfChanged() returns (changed: bool)
      requires Valid()
      modifies this, manager
      ensures Valid()
      ensures changed <==> shared.configRevision != old(localConfigRevision)
      ensures IsTriggered(old(State()), shared.State(), State())
    {
      if shared.configRevision != localConfigRevision {
        localConfigRevision := shared.configRevision;
        var configFiles := shared.GetConfigurationNoLock();
        manager.Update(configFiles);
        return true;
      }
      return false;
    }

    method Pull()
      requires Valid()
      modifies storage
      ensures Valid() && State() == Pulled(old(State()))
    {
      var _ := storage.Update(manager);
    }

    /** What a request does before anything else. */
    method OnRequestInit()
      requires Valid()
      modifies this, manager, storage
      ensures Valid()
      ensures exists t :: IsTriggered(old(State()), shared.State(), t) && State() == Pulled(t)
    {
      var _ := TriggerUpdateIfChanged();
      ghost var triggered := State();
      Pull();
      assert IsTriggered(old(State()), shared.State(), triggered);
    }
  }
}
