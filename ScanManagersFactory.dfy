/**
 * The scan-manager registry and the guarded scan entry points
 * (ScanManagersFactory.java).
 *
 * The registry maps an integer project key to the manager scanning that
 * project. A manager is a value whose `id` stands for its object identity;
 * the factory allocates ids from a counter, so a manager whose id is at
 * least the counter's earlier value was created after that point. The IDE
 * services the source consults (indexing state, credentials, applicability,
 * project keys, package-file discovery, each manager's in-progress flag) are
 * fields of a `Workspace` value, and every `asyncScanAndUpdateResults` call
 * is recorded as an event.
 */
module ScanManagers {
  import opened Wrappers
  import MavenScan

  datatype ManagerKind = Maven | Gradle | Npm | Go

  /** A scan manager: `dir` is the package directory of an npm or Go manager, "" otherwise. */
  datatype Manager = Manager(id: nat, kind: ManagerKind, dir: string)

  /** What package-file discovery reports: the package.json and go.mod directories, or an I/O error. */
  datatype Discovery = Found(npmDirs: seq<string>, goDirs: seq<string>) | DiscoveryFailed

  /** The library dependencies handed on to the managers (nullable in the source). */
  type LibraryDependencies = Option<seq<string>>

  /** The host services, as seen by one call. */
  datatype Workspace = Workspace(
    indexing: bool,                           // the IDE is still indexing the project
    scanning: set<nat>,                       // ids of the managers that report a scan in progress
    credentialsSet: bool,
    issuesTreeExists: bool,
    licensesTreeExists: bool,
    mainKey: int,                             // the main project's identifier
    basePath: string,                         // the main project's base path
    mavenApplicable: bool,
    gradleApplicable: bool,
    mavenProjects: seq<MavenScan.MavenProject>,
    otherProjectPaths: Manager -> set<string>, // project paths of a non-Maven manager
    discover: set<string> -> Discovery,       // package-file discovery under the given roots
    dirKey: string -> int,                    // the identifier of a package directory; may collide
    failingCreations: set<(ManagerKind, string)>, // manager constructions that throw
    keyOrder: map<int, Manager> -> seq<int>)  // the iteration order of a HashMap with these entries

  /** The registry together with the next free manager id. */
  datatype Registry = Registry(managers: map<int, Manager>, nextId: nat)

  /** Every registered manager was allocated before `nextId`. */
  ghost predicate Allocated(reg: Registry)
  {
    forall k :: k in reg.managers ==> reg.managers[k].id < reg.nextId
  }

  /** A manager of the given kind created with the next free id, or None when its constructor throws (createScanManager). */
  function CreateScanManager(ws: Workspace, kind: ManagerKind, dir: string, id: nat): (r: Option<Manager>)
    ensures r.None? <==> (kind, dir) in ws.failingCreations
    ensures r.Some? ==> r.value.id == id && r.value.kind == kind && r.value.dir == dir
  {
    if (kind, dir) in ws.failingCreations then None else Some(Manager(id, kind, dir))
  }

  /** `reg` with a newly created manager put under `key`, or None when creation throws. */
  function PutNew(reg: Registry, key: int, ws: Workspace, kind: ManagerKind, dir: string): Option<Registry>
  {
    match CreateScanManager(ws, kind, dir, reg.nextId)
    case None => None
    case Some(m) => Some(Registry(reg.managers[key := m], reg.nextId + 1))
  }

  /** Creating the main project's Maven or Gradle manager throws. */
  predicate MainCreationFails(ws: Workspace)
  {
    || (ws.mavenApplicable && (Maven, "") in ws.failingCreations)
    || (ws.gradleApplicable && (Gradle, "") in ws.failingCreations)
  }

  /**
   * The new registry's entry for the main project: the old manager when
   * there is one, otherwise a Maven manager if applicable, then a Gradle one,
   * which replaces the Maven one under the same key.
   */
  function MainManagers(reg: Registry, ws: Workspace): (r: Option<Registry>)
    ensures ws.mainKey in reg.managers ==>
      r == Some(Registry(map[ws.mainKey := reg.managers[ws.mainKey]], reg.nextId))
    ensures ws.mainKey !in reg.managers ==> (r.None? <==> MainCreationFails(ws))
    ensures ws.mainKey !in reg.managers && r.Some? ==>
      && r.value.managers.Keys == (if ws.mavenApplicable || ws.gradleApplicable then {ws.mainKey} else {})
      && reg.nextId <= r.value.nextId
      && (ws.mainKey in r.value.managers ==>
            var m := r.value.managers[ws.mainKey];
            reg.nextId <= m.id < r.value.nextId && m.dir == "" &&
            m.kind == (if ws.gradleApplicable then Gradle else Maven))
  {
    if ws.mainKey in reg.managers then
      Some(Registry(map[ws.mainKey := reg.managers[ws.mainKey]], reg.nextId))
    else
      var empty := Registry(map[], reg.nextId);
      var afterMaven := if ws.mavenApplicable then PutNew(empty, ws.mainKey, ws, Maven, "") else Some(empty);
      if afterMaven.None? then None
      else if ws.gradleApplicable then PutNew(afterMaven.value, ws.mainKey, ws, Gradle, "")
      else afterMaven
  }

  /** The project paths of a manager: those of all Maven projects for a Maven manager. */
  function ProjectPathsOf(m: Manager, ws: Workspace): set<string>
  {
    if m.kind == Maven then MavenScan.GetProjectPaths(ws.mavenProjects) else ws.otherProjectPaths(m)
  }

  /** `paths` with the project paths of every registered manager added. */
  function SearchPaths(paths: set<string>, managers: map<int, Manager>, ws: Workspace): set<string>
  {
    paths + set m, d | m in managers.Values && d in ProjectPathsOf(m, ws) :: d
  }

  /** The keys of the given package directories. */
  function DirKeys(dirs: seq<string>, ws: Workspace): set<int>
  {
    set i | 0 <= i < |dirs| :: ws.dirKey(dirs[i])
  }

  /** Directory `i` is the first in `dirs` with its key. */
  ghost predicate FirstWithKey(dirs: seq<string>, i: int, ws: Workspace)
    requires 0 <= i < |dirs|
  {
    forall j :: 0 <= j < i ==> ws.dirKey(dirs[j]) != ws.dirKey(dirs[i])
  }

  /**
   * One package directory: the entry already under its key in the map being
   * built is kept (put back), otherwise a new manager is put there.
   */
  function PutDir(prev: Registry, dir: string, kind: ManagerKind, ws: Workspace): Option<Registry>
  {
    var key := ws.dirKey(dir);
    if key in prev.managers then Some(prev) else PutNew(prev, key, ws, kind, dir)
  }

  /** createScanManagersForPackageDirs: the directories in order, stopping at the first creation that throws. */
  function PutDirs(reg: Registry, dirs: seq<string>, kind: ManagerKind, ws: Workspace): Option<Registry>
  {
    if dirs == [] then Some(reg)
    else
      match PutDirs(reg, dirs[..|dirs| - 1], kind, ws)
      case None => None
      case Some(prev) => PutDir(prev, dirs[|dirs| - 1], kind, ws)
  }

  lemma PutDirsStep(reg: Registry, dirs: seq<string>, i: nat, kind: ManagerKind, ws: Workspace)
    requires i < |dirs|
    ensures PutDirs(reg, dirs[..i + 1], kind, ws) ==
      match PutDirs(reg, dirs[..i], kind, ws)
      case None => None
      case Some(prev) => PutDir(prev, dirs[i], kind, ws)
  {
    assert dirs[..i + 1][..i] == dirs[..i];
  }

  lemma DirKeysSnoc(dirs: seq<string>, ws: Workspace)
    requires dirs != []
    ensures DirKeys(dirs, ws) == DirKeys(dirs[..|dirs| - 1], ws) + {ws.dirKey(dirs[|dirs| - 1])}
  {
    var prefix := dirs[..|dirs| - 1];
    assert forall i :: 0 <= i < |prefix| ==> prefix[i] == dirs[i];
    assert forall i :: 0 <= i < |dirs| - 1 ==> ws.dirKey(dirs[i]) in DirKeys(prefix, ws);
  }

  /**
   * A successful fold adds exactly the directories' keys, keeps every entry
   * already in the map, and fills each new key with a new manager of `kind`.
   */
  lemma {:induction false} PutDirsRegistry(reg: Registry, dirs: seq<string>, kind: ManagerKind, ws: Workspace)
    requires PutDirs(reg, dirs, kind, ws).Some?
    ensures var r := PutDirs(reg, dirs, kind, ws).value;
      && r.managers.Keys == reg.managers.Keys + DirKeys(dirs, ws)
      && (forall k :: k in reg.managers ==> r.managers[k] == reg.managers[k])
      && reg.nextId <= r.nextId
      && (forall k :: k in r.managers && k !in reg.managers ==>
            reg.nextId <= r.managers[k].id < r.nextId && r.managers[k].kind == kind)
  {
    if dirs != [] {
      DirKeysSnoc(dirs, ws);
      PutDirsRegistry(reg, dirs[..|dirs| - 1], kind, ws);
    }
  }

  /** The manager under the key of `dir` was created for `dir`. */
  ghost predicate PlacedAt(r: Registry, dir: string, ws: Workspace)
  {
    ws.dirKey(dir) in r.managers && r.managers[ws.dirKey(dir)].dir == dir
  }

  /** One directory keeps every entry already there, and places a manager for `dir` under a new key. */
  lemma PutDirKeeps(prev: Registry, dir: string, kind: ManagerKind, ws: Workspace)
    requires PutDir(prev, dir, kind, ws).Some?
    ensures var r := PutDir(prev, dir, kind, ws).value;
      && (forall k :: k in prev.managers ==> k in r.managers && r.managers[k] == prev.managers[k])
      && (ws.dirKey(dir) !in prev.managers ==> PlacedAt(r, dir, ws))
  {
  }

  lemma FirstWithKeyPrefix(dirs: seq<string>, n: nat, i: nat, ws: Workspace)
    requires i < n <= |dirs|
    ensures FirstWithKey(dirs[..n], i, ws) <==> FirstWithKey(dirs, i, ws)
  {
    assert forall j :: 0 <= j <= i ==> dirs[..n][j] == dirs[j];
  }

  /** The last directory, when first with its key, has a key none of the earlier ones has. */
  lemma LastKeyFresh(dirs: seq<string>, ws: Workspace)
    requires dirs != [] && FirstWithKey(dirs, |dirs| - 1, ws)
    ensures ws.dirKey(dirs[|dirs| - 1]) !in DirKeys(dirs[..|dirs| - 1], ws)
  {
    var prefix := dirs[..|dirs| - 1];
    assert forall j :: 0 <= j < |prefix| ==> prefix[j] == dirs[j];
  }

  /** The first directory with a new key gets the manager; a later one with the same key is skipped. */
  lemma {:induction false} PutDirsFirstWins(reg: Registry, dirs: seq<string>, kind: ManagerKind, ws: Workspace)
    requires PutDirs(reg, dirs, kind, ws).Some?
    ensures forall i :: 0 <= i < |dirs| && ws.dirKey(dirs[i]) !in reg.managers && FirstWithKey(dirs, i, ws) ==>
      PlacedAt(PutDirs(reg, dirs, kind, ws).value, dirs[i], ws)
  {
    if dirs != [] {
      var last := |dirs| - 1;
      var prefix := dirs[..last];
      var prev := PutDirs(reg, prefix, kind, ws).value;
      var r := PutDirs(reg, dirs, kind, ws).value;
      assert PutDir(prev, dirs[last], kind, ws) == Some(r);
      PutDirsFirstWins(reg, prefix, kind, ws);
      PutDirKeeps(prev, dirs[last], kind, ws);
      assert ws.dirKey(dirs[last]) !in reg.managers && FirstWithKey(dirs, last, ws) ==> PlacedAt(r, dirs[last], ws) by {
        if ws.dirKey(dirs[last]) !in reg.managers && FirstWithKey(dirs, last, ws) {
          PutDirsRegistry(reg, prefix, kind, ws);
          LastKeyFresh(dirs, ws);
        }
      }
      forall i | 0 <= i < last && ws.dirKey(dirs[i]) !in reg.managers && FirstWithKey(dirs, i, ws)
        ensures PlacedAt(r, dirs[i], ws)
      {
        FirstWithKeyPrefix(dirs, last, i, ws);
        assert prefix[i] == dirs[i];
        assert PlacedAt(prev, dirs[i], ws);
      }
    }
  }

  /** Directory `i` is the first with its key, that key is not yet registered, and creating its manager throws. */
  ghost predicate FailsAt(reg: Registry, dirs: seq<string>, i: int, kind: ManagerKind, ws: Workspace)
  {
    && 0 <= i < |dirs| && ws.dirKey(dirs[i]) !in reg.managers && FirstWithKey(dirs, i, ws)
    && (kind, dirs[i]) in ws.failingCreations
  }

  lemma FailsAtPrefix(reg: Registry, dirs: seq<string>, n: nat, i: int, kind: ManagerKind, ws: Workspace)
    requires n <= |dirs| && 0 <= i < n
    ensures FailsAt(reg, dirs[..n], i, kind, ws) <==> FailsAt(reg, dirs, i, kind, ws)
  {
    assert forall j :: 0 <= j <= i ==> dirs[..n][j] == dirs[j];
  }

  /** The fold fails exactly when creating the manager of some first directory with a new key throws. */
  lemma {:induction false} PutDirsFails(reg: Registry, dirs: seq<string>, kind: ManagerKind, ws: Workspace)
    ensures PutDirs(reg, dirs, kind, ws).None? <==> exists i :: FailsAt(reg, dirs, i, kind, ws)
  {
    if dirs != [] {
      var last := |dirs| - 1;
      var prefix := dirs[..last];
      PutDirsFails(reg, prefix, kind, ws);
      if PutDirs(reg, prefix, kind, ws).Some? {
        var prev := PutDirs(reg, prefix, kind, ws).value;
        PutDirsRegistry(reg, prefix, kind, ws);
        var key := ws.dirKey(dirs[last]);
        forall i | 0 <= i < last ensures !FailsAt(reg, dirs, i, kind, ws) {
          FailsAtPrefix(reg, dirs, last, i, kind, ws);
        }
        if !FirstWithKey(dirs, last, ws) {
          var j :| 0 <= j < last && ws.dirKey(dirs[j]) == key;
          assert ws.dirKey(prefix[j]) == key;
          assert key in DirKeys(prefix, ws);
        } else {
          assert forall j :: 0 <= j < last ==> ws.dirKey(prefix[j]) != key by {
            assert forall j :: 0 <= j < last ==> prefix[j] == dirs[j];
          }
          assert key !in DirKeys(prefix, ws);
          assert PutDirs(reg, dirs, kind, ws) == PutDir(prev, dirs[last], kind, ws);
          assert FailsAt(reg, dirs, last, kind, ws) <==>
            key !in reg.managers && (kind, dirs[last]) in ws.failingCreations;
        }
      } else {
        var i :| FailsAt(reg, prefix, i, kind, ws);
        FailsAtPrefix(reg, dirs, last, i, kind, ws);
      }
    }
  }

  /**
   * createScanManagers: discovery under `paths` and the managers' project
   * paths, then one manager per npm directory, then per Go directory.
   */
  function PackageManagers(reg: Registry, paths: set<string>, ws: Workspace): Option<Registry>
  {
    match ws.discover(SearchPaths(paths, reg.managers, ws))
    case DiscoveryFailed => None
    case Found(npmDirs, goDirs) =>
      match PutDirs(reg, npmDirs, Npm, ws)
      case None => None
      case Some(afterNpm) => PutDirs(afterNpm, goDirs, Go, ws)
  }

  /** What discovery reports for a refresh whose main-project step gave `main`. */
  function DiscoveryFor(main: Registry, ws: Workspace): Discovery
  {
    ws.discover(SearchPaths({ws.basePath}, main.managers, ws))
  }

  /**
   * The registry after refreshScanManagers, or None when it throws (the
   * field then keeps its old value).
   */
  function Refresh(reg: Registry, ws: Workspace): Option<Registry>
  {
    match MainManagers(reg, ws)
    case None => None
    case Some(main) => PackageManagers(main, {ws.basePath}, ws)
  }

  /** Discovery failing makes the refresh fail. */
  lemma RefreshFailsWithDiscovery(reg: Registry, ws: Workspace)
    requires MainManagers(reg, ws).Some? && DiscoveryFor(MainManagers(reg, ws).value, ws).DiscoveryFailed?
    ensures Refresh(reg, ws).None?
  {
  }

  /**
   * A successful refresh: the new keys are the main project's (if it has a
   * manager) and those of the discovered directories, nothing else; the main
   * project's entry is the one the main-project step chose; a key first taken
   * by an npm directory holds an npm manager, even when a Go directory has it
   * too; a key only Go directories have holds a Go manager; every entry other
   * than the main project's was created by this refresh.
   */
  lemma {:induction false} RefreshRegistry(reg: Registry, ws: Workspace)
    requires Refresh(reg, ws).Some?
    ensures MainManagers(reg, ws).Some?
    ensures var main := MainManagers(reg, ws).value;
      var found := DiscoveryFor(main, ws);
      var r := Refresh(reg, ws).value;
      && found.Found?
      && main.nextId <= r.nextId
      && r.managers.Keys == main.managers.Keys + DirKeys(found.npmDirs, ws) + DirKeys(found.goDirs, ws)
      && (forall k :: k in main.managers ==> r.managers[k] == main.managers[k])
      && (forall k :: k in DirKeys(found.npmDirs, ws) && k !in main.managers ==> r.managers[k].kind == Npm)
      && (forall k :: k in DirKeys(found.goDirs, ws) && k !in main.managers && k !in DirKeys(found.npmDirs, ws) ==>
            r.managers[k].kind == Go)
      && (forall k :: k in r.managers && k !in main.managers ==>
            r.managers[k].kind in {Npm, Go} && main.nextId <= r.managers[k].id < r.nextId)
  {
    var main := MainManagers(reg, ws).value;
    var found := DiscoveryFor(main, ws);
    var afterNpm := PutDirs(main, found.npmDirs, Npm, ws).value;
    PutDirsRegistry(main, found.npmDirs, Npm, ws);
    PutDirsRegistry(afterNpm, found.goDirs, Go, ws);
  }

  /**
   * Each new entry belongs to the first directory with its key: the first npm
   * directory for a key new to the refresh, and the first Go directory for a
   * new key no npm directory has.
   */
  lemma RefreshPlacesFirstDirectories(reg: Registry, ws: Workspace)
    requires Refresh(reg, ws).Some?
    ensures MainManagers(reg, ws).Some? && DiscoveryFor(MainManagers(reg, ws).value, ws).Found?
    ensures var main := MainManagers(reg, ws).value;
      var found := DiscoveryFor(main, ws);
      var r := Refresh(reg, ws).value;
      && (forall i ::
            (0 <= i < |found.npmDirs| && ws.dirKey(found.npmDirs[i]) !in main.managers &&
             FirstWithKey(found.npmDirs, i, ws)) ==> PlacedAt(r, found.npmDirs[i], ws))
      && (forall i ::
            (0 <= i < |found.goDirs| && ws.dirKey(found.goDirs[i]) !in main.managers &&
             ws.dirKey(found.goDirs[i]) !in DirKeys(found.npmDirs, ws) &&
             FirstWithKey(found.goDirs, i, ws)) ==> PlacedAt(r, found.goDirs[i], ws))
  {
    var main := MainManagers(reg, ws).value;
    var found := DiscoveryFor(main, ws);
    var afterNpm := PutDirs(main, found.npmDirs, Npm, ws).value;
    PutDirsRegistry(main, found.npmDirs, Npm, ws);
    PutDirsFirstWins(main, found.npmDirs, Npm, ws);
    PutDirsRegistry(afterNpm, found.goDirs, Go, ws);
    PutDirsFirstWins(afterNpm, found.goDirs, Go, ws);
  }

  /** The main project's existing manager is carried over unchanged. */
  lemma RefreshKeepsMainManager(reg: Registry, ws: Workspace)
    requires Refresh(reg, ws).Some? && ws.mainKey in reg.managers
    ensures ws.mainKey in Refresh(reg, ws).value.managers
    ensures Refresh(reg, ws).value.managers[ws.mainKey] == reg.managers[ws.mainKey]
  {
    RefreshRegistry(reg, ws);
  }

  /** A refresh allocates only fresh ids. */
  lemma RefreshAllocates(reg: Registry, ws: Workspace)
    requires Allocated(reg) && Refresh(reg, ws).Some?
    ensures Allocated(Refresh(reg, ws).value)
  {
    RefreshRegistry(reg, ws);
  }

  /** A failed prefix makes the whole fold fail. */
  lemma {:induction false} PutDirsStaysFailed(reg: Registry, dirs: seq<string>, n: nat, kind: ManagerKind, ws: Workspace)
    requires n <= |dirs| && PutDirs(reg, dirs[..n], kind, ws).None?
    ensures PutDirs(reg, dirs, kind, ws).None?
    decreases |dirs| - n
  {
    if n < |dirs| {
      assert dirs[..n + 1][..n] == dirs[..n];
      PutDirsStaysFailed(reg, dirs, n + 1, kind, ws);
    } else {
      assert dirs[..n] == dirs;
    }
  }

  /**
   * npm and Go managers are recreated on every refresh: an old entry under a
   * package directory's key is never reused, even when the same key comes back.
   */
  lemma RefreshRecreatesPackageManagers(reg: Registry, ws: Workspace, k: int)
    requires Allocated(reg) && Refresh(reg, ws).Some?
    requires k in reg.managers && k in Refresh(reg, ws).value.managers && k != ws.mainKey
    ensures Refresh(reg, ws).value.managers[k] != reg.managers[k]
  {
    RefreshRegistry(reg, ws);
  }

  /** No key occurs twice. */
  predicate Distinct(ks: seq<int>)
  {
    forall i, j :: 0 <= i < j < |ks| ==> ks[i] != ks[j]
  }

  /** `ks` lists every key of `m` exactly once. */
  predicate ListsKeys(ks: seq<int>, m: map<int, Manager>)
  {
    Distinct(ks) && (forall i :: 0 <= i < |ks| ==> ks[i] in m) && (forall k :: k in m ==> k in ks)
  }

  /** A HashMap iterates over each of its keys exactly once. */
  ghost predicate HashOrder(ws: Workspace)
  {
    forall m: map<int, Manager> :: ListsKeys(ws.keyOrder(m), m)
  }

  /** One asyncScanAndUpdateResults call per key of `ks`, in that order. */
  function ScanEvents(ks: seq<int>, managers: map<int, Manager>, quickScan: bool, deps: LibraryDependencies): (es: seq<Event>)
    requires forall i :: 0 <= i < |ks| ==> ks[i] in managers
    ensures |es| == |ks|
    ensures forall i :: 0 <= i < |ks| ==> es[i] == AsyncScan(ks[i], managers[ks[i]], quickScan, deps)
  {
    if ks == [] then []
    else ScanEvents(ks[..|ks| - 1], managers, quickScan, deps) + [AsyncScan(ks[|ks| - 1], managers[ks[|ks| - 1]], quickScan, deps)]
  }

  lemma ScanEventsSnoc(ks: seq<int>, k: int, managers: map<int, Manager>, quickScan: bool, deps: LibraryDependencies)
    requires forall i :: 0 <= i < |ks| ==> ks[i] in managers
    requires k in managers
    ensures ScanEvents(ks + [k], managers, quickScan, deps) ==
      ScanEvents(ks, managers, quickScan, deps) + [AsyncScan(k, managers[k], quickScan, deps)]
  {
    assert (ks + [k])[..|ks|] == ks;
  }

  /** A listing of every key once is as long as the map. */
  lemma ListingCard(ks: seq<int>, m: map<int, Manager>)
    requires ListsKeys(ks, m)
    ensures |ks| == |m|
  {
    DistinctCard(ks);
    var s := set i | 0 <= i < |ks| :: ks[i];
    forall k | k in m ensures k in s {
      var i :| 0 <= i < |ks| && ks[i] == k;
    }
    assert s == m.Keys;
  }

  /** Scanning a duplicate-free listing of all the keys scans every manager exactly once. */
  lemma ScanEventsEachOnce(ks: seq<int>, managers: map<int, Manager>, quickScan: bool, deps: LibraryDependencies)
    requires ListsKeys(ks, managers)
    ensures ScansEachOnce(ScanEvents(ks, managers, quickScan, deps), managers, quickScan, deps)
  {
    var es := ScanEvents(ks, managers, quickScan, deps);
    ListingCard(ks, managers);
    forall k | k in managers ensures exists i :: 0 <= i < |es| && es[i].key == k {
      var i :| 0 <= i < |ks| && ks[i] == k;
      assert es[i].key == k;
    }
  }

  /** Events made of `base` followed by a scan along a listing of every key: `base` is kept and every manager is scanned once. */
  lemma ScansAppended(base: seq<Event>, es: seq<Event>, ks: seq<int>, managers: map<int, Manager>,
                      quickScan: bool, deps: LibraryDependencies)
    requires ListsKeys(ks, managers)
    requires es == base + ScanEvents(ks, managers, quickScan, deps)
    ensures |es| >= |base| && es[..|base|] == base
    ensures ScansEachOnce(es[|base|..], managers, quickScan, deps)
  {
    assert es[|base|..] == ScanEvents(ks, managers, quickScan, deps);
    ScanEventsEachOnce(ks, managers, quickScan, deps);
  }

  /** A duplicate-free sequence has as many elements as its set of elements. */
  lemma {:induction false} DistinctCard(ks: seq<int>)
    requires Distinct(ks)
    ensures |set i | 0 <= i < |ks| :: ks[i]| == |ks|
  {
    if ks != [] {
      var prefix := ks[..|ks| - 1];
      DistinctCard(prefix);
      var last := ks[|ks| - 1];
      assert (set i | 0 <= i < |ks| :: ks[i]) == (set i | 0 <= i < |prefix| :: prefix[i]) + {last} by {
        assert forall i :: 0 <= i < |prefix| ==> prefix[i] == ks[i];
      }
      assert last !in (set i | 0 <= i < |prefix| :: prefix[i]);
    }
  }

  /** The outcome of a scan request. */
  datatype StartOutcome =
    | Indexing             // the project is still being indexed
    | PreviousScanRunning  // some registered manager is still scanning
    | CredentialsNotSet
    | ViewsMissing         // the issues tree or the licenses tree does not exist
    | RefreshFailed        // refreshing the registry threw; nothing is scanned
    | Started

  /** What the factory does that others observe, in order. */
  datatype Event =
    | ViewsReset
    | AsyncScan(key: int, manager: Manager, quickScan: bool, deps: LibraryDependencies)

  /** Some registered manager reports a scan in progress (isScanInProgress). */
  predicate AnyScanInProgress(managers: map<int, Manager>, ws: Workspace)
  {
    exists k :: k in managers && managers[k].id in ws.scanning
  }

  /** The guard of startScan that refuses the request, checked in the source's order. */
  function StartScanRefusal(managers: map<int, Manager>, ws: Workspace): (r: Option<StartOutcome>)
    ensures r == Some(Indexing) <==> ws.indexing
    ensures r == Some(PreviousScanRunning) <==> !ws.indexing && AnyScanInProgress(managers, ws)
    ensures r == Some(CredentialsNotSet) <==>
      !ws.indexing && !AnyScanInProgress(managers, ws) && !ws.credentialsSet
    ensures r == Some(ViewsMissing) <==>
      !ws.indexing && !AnyScanInProgress(managers, ws) && ws.credentialsSet &&
      !(ws.issuesTreeExists && ws.licensesTreeExists)
    ensures r.None? || r.value in {Indexing, PreviousScanRunning, CredentialsNotSet, ViewsMissing}
  {
    if ws.indexing then Some(Indexing)
    else if AnyScanInProgress(managers, ws) then Some(PreviousScanRunning)
    else if !ws.credentialsSet then Some(CredentialsNotSet)
    else if !ws.issuesTreeExists || !ws.licensesTreeExists then Some(ViewsMissing)
    else None
  }

  /** `es` calls asyncScanAndUpdateResults exactly once on every manager of `managers`, with these arguments. */
  ghost predicate ScansEachOnce(es: seq<Event>, managers: map<int, Manager>, quickScan: bool, deps: LibraryDependencies)
  {
    && |es| == |managers|
    && (forall i :: 0 <= i < |es| ==>
          es[i].AsyncScan? && es[i].key in managers && es[i].manager == managers[es[i].key] &&
          es[i].quickScan == quickScan && es[i].deps == deps)
    && (forall i, j :: 0 <= i < j < |es| ==> es[i].key != es[j].key)
    && (forall k :: k in managers ==> exists i :: 0 <= i < |es| && es[i].key == k)
  }

  /**
   * The effect of startScan: a refused request changes nothing; otherwise the
   * registry is refreshed, the views are reset and every manager of the new
   * registry is scanned once; a failing refresh changes nothing and scans nothing.
   */
  ghost predicate StartScanEffect(before: Registry, log: seq<Event>, ws: Workspace, quickScan: bool,
                                  deps: LibraryDependencies, after: Registry, log': seq<Event>, outcome: StartOutcome)
  {
    match StartScanRefusal(before.managers, ws)
    case Some(refusal) => outcome == refusal && after == before && log' == log
    case None =>
      match Refresh(before, ws)
      case None => outcome == RefreshFailed && after == before && log' == log
      case Some(r) =>
        && outcome == Started && after == r
        && |log'| == |log| + 1 + |r.managers|
        && log'[..|log|] == log && log'[|log|] == ViewsReset
        && ScansEachOnce(log'[|log| + 1..], r.managers, quickScan, deps)
  }

  class ScanManagersFactory {
    var scanManagers: map<int, Manager>
    var nextId: nat
    var events: seq<Event>

    ghost predicate Valid()
      reads this
    {
      Allocated(Registry(scanManagers, nextId))
    }

    function State(): Registry
      reads this
    {
      Registry(scanManagers, nextId)
    }

    constructor ()
      ensures Valid() && scanManagers == map[] && events == []
    {
      scanManagers, nextId, events := map[], 0, [];
    }

    /** Some registered manager reports a scan in progress. */
    predicate IsScanInProgress(ws: Workspace)
      reads this
      ensures IsScanInProgress(ws) ==> exists m :: m in scanManagers.Values && m.id in ws.scanning
      ensures forall k :: k in scanManagers && scanManagers[k].id in ws.scanning ==> IsScanInProgress(ws)
    {
      AnyScanInProgress(scanManagers, ws)
    }

    /** One manager per package directory, into the map being built. */
    method CreateScanManagersForPackageDirs(reg: Registry, dirs: seq<string>, kind: ManagerKind, ws: Workspace)
      returns (r: Option<Registry>)
      ensures r == PutDirs(reg, dirs, kind, ws)
    {
      var managers, next := reg.managers, reg.nextId;
      for i := 0 to |dirs|
        invariant PutDirs(reg, dirs[..i], kind, ws) == Some(Registry(managers, next))
      {
        PutDirsStep(reg, dirs, i, kind, ws);
        ghost var old_managers := managers;
        var projectHash := ws.dirKey(dirs[i]);
        if projectHash in managers {
          // the lookup is in the map being built: the entry found there is put back
          managers := managers[projectHash := managers[projectHash]];
          assert managers == old_managers;
        } else {
          var created := CreateScanManager(ws, kind, dirs[i], next);
          if created.None? {
            PutDirsStaysFailed(reg, dirs, i + 1, kind, ws);
            return None;
          }
          managers, next := managers[projectHash := created.value], next + 1;
        }
      }
      assert dirs[..|dirs|] == dirs;
      r := Some(Registry(managers, next));
    }

    /** Collects the search paths, discovers package directories and creates their managers. */
    method CreateScanManagers(reg: Registry, paths: set<string>, ws: Workspace) returns (r: Option<Registry>)
      ensures r == PackageManagers(reg, paths, ws)
    {
      var searchPaths := SearchPaths(paths, reg.managers, ws);
      var found := ws.discover(searchPaths);
      if found.DiscoveryFailed? {
        return None;
      }
      r := CreateScanManagersForPackageDirs(reg, found.npmDirs, Npm, ws);
      if r.Some? {
        r := CreateScanManagersForPackageDirs(r.value, found.goDirs, Go, ws);
      }
    }

    /** Rebuilds the registry; the field is replaced only when nothing threw. */
    method RefreshScanManagers(ws: Workspace) returns (ok: bool)
      requires Valid()
      modifies this`scanManagers, this`nextId
      ensures Valid()
      ensures ok == Refresh(old(State()), ws).Some?
      ensures ok ==> State() == Refresh(old(State()), ws).value
      ensures !ok ==> State() == old(State())
    {
      var managers: map<int, Manager> := map[];
      var next := nextId;
      var projectHash := ws.mainKey;
      if projectHash in scanManagers {
        managers := managers[projectHash := scanManagers[projectHash]];
      } else {
        if ws.mavenApplicable {
          var created := CreateScanManager(ws, Maven, "", next);
          if created.None? {
            return false;
          }
          managers, next := managers[projectHash := created.value], next + 1;
        }
        if ws.gradleApplicable {
          var created := CreateScanManager(ws, Gradle, "", next);
          if created.None? {
            return false;
          }
          managers, next := managers[projectHash := created.value], next + 1;
        }
      }
      var paths := {ws.basePath};
      var r := CreateScanManagers(Registry(managers, next), paths, ws);
      if r.None? {
        return false;
      }
      assert Refresh(old(State()), ws) == r;
      RefreshAllocates(old(State()), ws);
      scanManagers, nextId := r.value.managers, r.value.nextId;
      ok := true;
    }

    /** Calls asyncScanAndUpdateResults on every registered manager, in the map's iteration order. */
    method ScanAll(ws: Workspace, quickScan: bool, deps: LibraryDependencies)
      requires HashOrder(ws)
      modifies this`events
      ensures |events| >= |old(events)| && events[..|old(events)|] == old(events)
      ensures ScansEachOnce(events[|old(events)|..], scanManagers, quickScan, deps)
    {
      var order := ws.keyOrder(scanManagers);
      ghost var managers := scanManagers;
      ghost var base := events;
      assert ListsKeys(order, managers);
      for i := 0 to |order|
        invariant events == base + ScanEvents(order[..i], managers, quickScan, deps)
      {
        var k := order[i];
        events := events + [AsyncScan(k, scanManagers[k], quickScan, deps)];
        assert order[..i + 1] == order[..i] + [k];
        ScanEventsSnoc(order[..i], k, managers, quickScan, deps);
      }
      assert order[..|order|] == order;
      ScansAppended(base, events, order, managers, quickScan, deps);
    }

    /** Starts a scan of all projects, unless a guard refuses it (startScan). */
    method StartScan(ws: Workspace, quickScan: bool, deps: LibraryDependencies) returns (outcome: StartOutcome)
      requires Valid() && HashOrder(ws)
      modifies this
      ensures Valid()
      ensures StartScanEffect(old(State()), old(events), ws, quickScan, deps, State(), events, outcome)
    {
      if ws.indexing {
        return Indexing;
      }
      if IsScanInProgress(ws) {
        return PreviousScanRunning;
      }
      if !ws.credentialsSet {
        return CredentialsNotSet;
      }
      if !ws.issuesTreeExists || !ws.licensesTreeExists {
        return ViewsMissing;
      }
      var ok := RefreshScanManagers(ws);
      if !ok {
        return RefreshFailed;
      }
      events := events + [ViewsReset];
      ScanAll(ws, quickScan, deps);
      outcome := Started;
    }

    /**
     * Scans only the manager registered under `projectKey`, as a quick scan,
     * or falls back to a full quick scan when there is none (tryScanSingleProject).
     */
    method TryScanSingleProject(ws: Workspace, projectKey: int, deps: LibraryDependencies)
      returns (fullScan: Option<StartOutcome>)
      requires Valid() && HashOrder(ws)
      modifies this
      ensures Valid()
      ensures projectKey in old(scanManagers) ==>
        && fullScan.None? && State() == old(State())
        && events == old(events) + [AsyncScan(projectKey, old(scanManagers)[projectKey], true, deps)]
      ensures projectKey !in old(scanManagers) ==>
        fullScan.Some? && StartScanEffect(old(State()), old(events), ws, true, deps, State(), events, fullScan.value)
    {
      if projectKey in scanManagers {
        events := events + [AsyncScan(projectKey, scanManagers[projectKey], true, deps)];
        return None;
      }
      var outcome := StartScan(ws, true, deps);
      fullScan := Some(outcome);
    }
  }
}
