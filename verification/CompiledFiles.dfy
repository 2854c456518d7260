/**
 The index of files compiled in a request.  The engine's class and function tables are read
 from a cursor; the guard keeps the files that the distribution delivered and decides whether
 a copy of one of them in the application's own vendor directory is to be compiled.
 */
module CompiledFiles {
  import opened Common
  import opened Strings

  type Path = string

  const VENDOR := "/vendor/"
  const COMPOSER := "/composer/"

  /** A slot of an engine table: unused, an entry without a file to record, or a user entry. */
  datatype Slot = Hole | Unrecorded | User(file: Path)

  type Table = seq<Slot>

  datatype Tables = Tables(classes: Table, functions: Table)

  /** Tables only grow at their end within a request. */
  predicate GrownInto(a: Tables, b: Tables) {
    a.classes <= b.classes && a.functions <= b.functions
  }

  // Scanning ------------------------------------------------------------------------

  function Recorded(t: Table): seq<Path> {
    if t == [] then []
    else (if t[0].User? then [t[0].file] else []) + Recorded(t[1..])
  }

  /** The number of slots that a scan visits: unused ones are skipped. */
  function Visited(t: Table): (n: nat)
    ensures n <= |t|
  {
    if t == [] then 0 else (if t[0].Hole? then 0 else 1) + Visited(t[1..])
  }

  lemma OneSlotMore(t: Table, i: nat, done: seq<Path>)
    requires i < |t|
    ensures done + Recorded(t[i..])
      == (if t[i].User? then done + [t[i].file] else done) + Recorded(t[i + 1..])
    ensures Visited(t[i..]) == (if t[i].Hole? then 0 else 1) + Visited(t[i + 1..])
  {
    assert t[i..][1..] == t[i + 1..];
    if t[i].User? { Regroup(done, [t[i].file], Recorded(t[i + 1..])); }
  }

  /** What one more slot at the end of a table adds to a scan. */
  lemma {:induction false} ScanOneMore(t: Table, s: Slot)
    ensures Recorded(t + [s]) == Recorded(t) + if s.User? then [s.file] else []
    ensures Visited(t + [s]) == Visited(t) + if s == Hole then 0 else 1
  {
    if t != [] {
      ScanOneMore(t[1..], s);
      assert (t + [s])[1..] == t[1..] + [s];
      Regroup(if t[0].User? then [t[0].file] else [], Recorded(t[1..]), if s.User? then [s.file] else []);
    }
  }

  method ScanFrom(t: Table, from: nat) returns (recorded: seq<Path>, cursor: nat)
    requires from <= |t|
    ensures recorded == Recorded(t[from..])
    ensures cursor == from + Visited(t[from..])
  {
    recorded, cursor := [], from;
    for i := from to |t|
      invariant recorded + Recorded(t[i..]) == Recorded(t[from..])
      invariant cursor + Visited(t[i..]) == from + Visited(t[from..])
    {
      OneSlotMore(t, i, recorded);
      if t[i].Hole? {
        continue;
      }
      cursor := cursor + 1;
      if t[i].User? {
        recorded := recorded + [t[i].file];
      }
    }
  }

  lemma {:induction false} RecordedIff(t: Table, f: Path)
    ensures f in Recorded(t) <==> User(f) in t
  {
    if t != [] { RecordedIff(t[1..], f); }
  }

  method GetCompiledFiles(ts: Tables) returns (recorded: seq<Path>)
    ensures recorded == Recorded(ts.classes) + Recorded(ts.functions)
  {
    assert ts.classes[0..] == ts.classes && ts.functions[0..] == ts.functions;
    var classes, _ := ScanFrom(ts.classes, 0);
    var functions, _ := ScanFrom(ts.functions, 0);
    recorded := classes + functions;
  }

  method GetNewlyCompiledFiles(ts: Tables, lastClass: nat, lastFunction: nat)
    returns (recorded: seq<Path>, nextClass: nat, nextFunction: nat)
    requires lastClass <= |ts.classes| && lastFunction <= |ts.functions|
    ensures recorded == Recorded(ts.classes[lastClass..]) + Recorded(ts.functions[lastFunction..])
    ensures nextClass == lastClass + Visited(ts.classes[lastClass..])
    ensures nextFunction == lastFunction + Visited(ts.functions[lastFunction..])
  {
    var classes, functions;
    classes, nextClass := ScanFrom(ts.classes, lastClass);
    functions, nextFunction := ScanFrom(ts.functions, lastFunction);
    recorded := classes + functions;
  }

  // The decision ----------------------------------------------------------------------

  /** Delivered files are stored, except those of the autoloader, which have to be compiled. */
  predicate Stored(vendor: Path, f: Path) {
    vendor <= f && !(COMPOSER <= f[|vendor|..])
  }

  function StoredOf(vendor: Path, recorded: seq<Path>): set<Path> {
    set f | f in recorded && Stored(vendor, f)
  }

  /** What follows the first "/vendor/". */
  function AfterVendor(name: Path): Option<Path> {
    if VENDOR <= name then Some(name[|VENDOR|..])
    else if name == [] then None
    else AfterVendor(name[1..])
  }

  predicate Throws(vendor: Path, files: set<Path>) {
    vendor in files
  }

  /** The file, relative to its vendor directory, is one of the delivered ones. */
  predicate Delivered(vendor: Path, files: set<Path>, name: Path) {
    && AfterVendor(name).Some?
    && !Throws(vendor, files)
    && exists f | f in files :: |vendor| < |f| && f[|vendor| + 1..] == AfterVendor(name).value
  }

  /** The decision that a scan of all the tables leads to. */
  predicate FullDecision(vendor: Path, ts: Tables, name: Path) {
    && !(vendor <= name)
    && Delivered(vendor, StoredOf(vendor, Recorded(ts.classes) + Recorded(ts.functions)), name)
  }

  /** The relative path begins behind the first "/vendor/" and nowhere else. */
  lemma {:induction false} AfterVendorIsFirst(before: Path, rest: Path)
    requires forall i | 0 <= i < |before| :: !("/vendor/" <= (before + "/vendor/" + rest)[i..])
    ensures AfterVendor(before + "/vendor/" + rest) == Some(rest)
  {
    var name := before + VENDOR + rest;
    if before == [] {
      assert name[|VENDOR|..] == rest && name[..|VENDOR|] == VENDOR;
    } else {
      var tail := before[1..] + VENDOR + rest;
      assert name[1..] == tail && name[0..] == name;
      forall i | 0 <= i < |before[1..]|
        ensures !(VENDOR <= tail[i..])
      {
        assert name[i + 1..] == tail[i..];
      }
      AfterVendorIsFirst(before[1..], rest);
    }
  }

  lemma {:induction false} WithoutVendorNothingFollows(name: Path)
    requires forall i | 0 <= i < |name| :: !("/vendor/" <= name[i..])
    ensures AfterVendor(name).None?
  {
    if name != [] {
      assert name[0..] == name;
      forall i | 0 <= i < |name[1..]|
        ensures !("/vendor/" <= name[1..][i..])
      {
        assert name[i + 1..] == name[1..][i..];
      }
      WithoutVendorNothingFollows(name[1..]);
    }
  }

  /** The vendor path, whose suffix cannot be taken, would be the first stored file to be looked at. */
  lemma VendorPathComesFirst(vendor: Path, f: Path)
    requires vendor <= f && f != vendor
    ensures Before(vendor, f)
  {
    FirstDifferenceDecides(vendor, f, |vendor|);
  }

  // The guard as a state machine ----------------------------------------------------------

  datatype Guard = Guard(vendor: Path, files: set<Path>, lastClass: nat, lastFunction: nat)

  function Cleared(g: Guard): Guard {
    g.(files := {}, lastClass := 0, lastFunction := 0)
  }

  /** Files and cursors after a scan. */
  function Scanned(g: Guard, ts: Tables): Guard
    requires g.lastClass <= |ts.classes| && g.lastFunction <= |ts.functions|
  {
    var cs, fs := ts.classes[g.lastClass..], ts.functions[g.lastFunction..];
    Guard(g.vendor, g.files + StoredOf(g.vendor, Recorded(cs) + Recorded(fs)),
          g.lastClass + Visited(cs), g.lastFunction + Visited(fs))
  }

  /** The guard agrees with a full scan of the tables as they were at the last scan. */
  ghost predicate AgreesWith(g: Guard, scanned: Tables) {
    && g.lastClass <= |scanned.classes|
    && g.lastFunction <= |scanned.functions|
    && g.files == StoredOf(g.vendor, Recorded(scanned.classes) + Recorded(scanned.functions))
  }

  lemma StoredIff(vendor: Path, ts: Tables, f: Path)
    ensures f in StoredOf(vendor, Recorded(ts.classes) + Recorded(ts.functions))
      <==> Stored(vendor, f) && (User(f) in ts.classes || User(f) in ts.functions)
  {
    RecordedIff(ts.classes, f);
    RecordedIff(ts.functions, f);
  }

  /** A scan from the cursors of grown tables leaves what a full scan would have found. */
  lemma ScanKeepsAgreement(g: Guard, scanned: Tables, ts: Tables)
    requires AgreesWith(g, scanned) && GrownInto(scanned, ts)
    ensures AgreesWith(Scanned(g, ts), ts)
  {
    var rest := Tables(ts.classes[g.lastClass..], ts.functions[g.lastFunction..]);
    forall f
      ensures f in Scanned(g, ts).files
        <==> f in StoredOf(g.vendor, Recorded(ts.classes) + Recorded(ts.functions))
    {
      StoredIff(g.vendor, scanned, f);
      StoredIff(g.vendor, rest, f);
      StoredIff(g.vendor, ts, f);
    }
  }

  /** A file is discarded exactly when it lies outside the distribution's vendor directory and some
      file that the tables name lies inside it, not under "/composer/", with the same path there as
      the file has behind its first "/vendor/"; and the tables do not name that directory itself. */
  lemma FullDecisionIff(vendor: Path, ts: Tables, name: Path)
    ensures FullDecision(vendor, ts, name) <==>
      && !(vendor <= name)
      && AfterVendor(name).Some?
      && User(vendor) !in ts.classes && User(vendor) !in ts.functions
      && exists f :: (User(f) in ts.classes || User(f) in ts.functions)
           && vendor < f && !("/composer/" <= f[|vendor|..])
           && f[|vendor| + 1..] == AfterVendor(name).value
  {
    var files := StoredOf(vendor, Recorded(ts.classes) + Recorded(ts.functions));
    forall f
      ensures f in files <==> Stored(vendor, f) && (User(f) in ts.classes || User(f) in ts.functions)
    {
      StoredIff(vendor, ts, f);
    }
  }

  /** Files of the autoloader never make another one be discarded. */
  lemma ComposerFilesDiscardNothing(vendor: Path, ts: Tables, name: Path)
    requires forall f | (User(f) in ts.classes || User(f) in ts.functions) && vendor < f ::
               "/composer/" <= f[|vendor|..]
    ensures !FullDecision(vendor, ts, name)
  {
    FullDecisionIff(vendor, ts, name);
  }

  // Whole requests ----------------------------------------------------------------------

  datatype Event =
    | NewRequest(vendor: Path, tables: Tables)
    | Compiled(classes: Table, functions: Table)
    | Ask(name: Path)

  /** The engine's tables, the guard, the answers given and the tables at the last scan. */
  datatype World = World(tables: Tables, guard: Guard, scanned: Tables, answers: seq<bool>)

  ghost predicate Good(w: World) {
    AgreesWith(w.guard, w.scanned) && GrownInto(w.scanned, w.tables)
  }

  function Next(w: World, e: Event): World
    requires Good(w)
  {
    match e
    case NewRequest(vendor, tables) =>
      World(tables, Cleared(w.guard.(vendor := vendor)), Tables([], []), w.answers)
    case Compiled(classes, functions) =>
      w.(tables := Tables(w.tables.classes + classes, w.tables.functions + functions))
    case Ask(name) =>
      if w.guard.vendor <= name then w.(answers := w.answers + [false])
      else
        var guard := Scanned(w.guard, w.tables);
        World(w.tables, guard, w.tables, w.answers + [Delivered(guard.vendor, guard.files, name)])
  }

  lemma StepKeepsGood(w: World, e: Event)
    requires Good(w)
    ensures Good(Next(w, e))
  {
    if e.Ask? { ScanKeepsAgreement(w.guard, w.scanned, w.tables); }
  }

  /** Every answer is the one that a scan of the whole tables would have given. */
  lemma AnswerIsFullDecision(w: World, name: Path)
    requires Good(w)
    ensures Next(w, Ask(name)).answers == w.answers + [FullDecision(w.guard.vendor, w.tables, name)]
  {
    ScanKeepsAgreement(w.guard, w.scanned, w.tables);
  }

  function Run(w: World, es: seq<Event>): World
    requires Good(w)
    decreases |es|
  {
    if es == [] then w
    else
      StepKeepsGood(w, es[0]);
      Run(Next(w, es[0]), es[1..])
  }

  /** The answers of a guard that keeps nothing and scans all the tables at each question. */
  function StatelessAnswers(vendor: Path, ts: Tables, es: seq<Event>): seq<bool>
    decreases |es|
  {
    if es == [] then []
    else
      match es[0]
      case NewRequest(v, tables) => StatelessAnswers(v, tables, es[1..])
      case Compiled(cs, fs) =>
        StatelessAnswers(vendor, Tables(ts.classes + cs, ts.functions + fs), es[1..])
      case Ask(name) => [FullDecision(vendor, ts, name)] + StatelessAnswers(vendor, ts, es[1..])
  }

  /** Over any run of requests the incremental guard answers as the stateless one does. */
  lemma {:induction false} IncrementalRefinesStateless(w: World, es: seq<Event>)
    requires Good(w)
    ensures Run(w, es).answers == w.answers + StatelessAnswers(w.guard.vendor, w.tables, es)
    ensures Good(Run(w, es))
    decreases |es|
  {
    if es != [] {
      StepKeepsGood(w, es[0]);
      IncrementalRefinesStateless(Next(w, es[0]), es[1..]);
      if es[0].Ask? { AnswerIsFullDecision(w, es[0].name); }
    }
  }

  // The guard as an object -----------------------------------------------------------------

  class DependencyAutoLoaderGuard {
    var vendorPath: Path
    var compiledFiles: set<Path>
    var lastClass: nat
    var lastFunction: nat
    ghost var scanned: Tables

    ghost function State(): Guard
      reads this
    {
      Guard(vendorPath, compiledFiles, lastClass, lastFunction)
    }

    ghost predicate Valid()
      reads this
    {
      AgreesWith(State(), scanned)
    }

    constructor ()
      ensures Valid() && scanned == Tables([], []) && State() == Guard("", {}, 0, 0)
    {
      vendorPath, compiledFiles, lastClass, lastFunction := "", {}, 0, 0;
      scanned := Tables([], []);
    }

    /** A new vendor path is set when a request starts, before the guard is cleared. */
    method OnRequestInit(newVendorPath: Option<Path>)
      modifies this
      ensures Valid() && scanned == Tables([], [])
      ensures State() == Cleared(old(State()).(
        vendor := if newVendorPath.Some? then newVendorPath.value else old(vendorPath)))
    {
      if newVendorPath.Some? {
        vendorPath := newVendorPath.value;
      }
      Clear();
    }

    method Clear()
      modifies this
      ensures Valid() && scanned == Tables([], [])
      ensures State() == Cleared(old(State()))
    {
      lastClass, lastFunction := 0, 0;
      compiledFiles := {};
      scanned := Tables([], []);
    }

    /** `None` stands for the exception of taking the suffix of the vendor path itself. */
    method WasDeliveredByEDOT(fileName: Path) returns (r: Option<bool>)
      ensures r.None? <==> AfterVendor(fileName).Some? && Throws(vendorPath, compiledFiles)
      ensures r.Some? ==> r.value == Delivered(vendorPath, compiledFiles, fileName)
    {
      var afterVendor := AfterVendor(fileName);
      if afterVendor.None? {
        return Some(false);
      }
      if vendorPath in compiledFiles {
        return None;
      }
      return Some(exists f | f in compiledFiles ::
                    |vendorPath| < |f| && f[|vendorPath| + 1..] == afterVendor.value);
    }

    method Store(recorded: seq<Path>)
      modifies `compiledFiles
      ensures compiledFiles == old(compiledFiles) + StoredOf(vendorPath, recorded)
    {
      for i := 0 to |recorded|
        invariant compiledFiles == old(compiledFiles) + StoredOf(vendorPath, recorded[..i])
        modifies `compiledFiles
      {
        var name := recorded[i];
        assert recorded[..i + 1] == recorded[..i] + [name];
        if vendorPath <= name {
          if !(COMPOSER <= name[|vendorPath|..]) {
            compiledFiles := compiledFiles + {name};
          }
        }
      }
      assert recorded[..|recorded|] == recorded;
    }

    /** `path` is the canonical path of the file, `None` when it could not be found out. */
    method ShouldDiscardFileCompilation(ts: Tables, path: Option<Path>) returns (discard: bool)
      requires Valid() && GrownInto(scanned, ts)
      modifies this
      ensures Valid()
      ensures path.None? || vendorPath <= path.value ==> !discard && State() == old(State()) && scanned == old(scanned)
      ensures path.Some? && !(vendorPath <= path.value) ==> State() == Scanned(old(State()), ts) && scanned == ts
      ensures path.Some? ==> discard == FullDecision(vendorPath, ts, path.value)
    {
      if path.None? {
        return false;
      }
      if vendorPath <= path.value {
        return false;
      }
      ScanKeepsAgreement(State(), scanned, ts);
      var recorded, nextClass, nextFunction := GetNewlyCompiledFiles(ts, lastClass, lastFunction);
      Store(recorded);
      lastClass, lastFunction := nextClass, nextFunction;
      scanned := ts;
      var delivered := WasDeliveredByEDOT(path.value);
      return delivered == Some(true);
    }
  }
}
