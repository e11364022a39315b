# Scan managers, Maven dependency trees and the issues count of the JFrog IntelliJ plugin

This project models three pieces of the plugin's core in Dafny and proves
properties of them.

- **The scan-manager registry** (`ScanManagers`, ScanManagersFactory.java).
  The registry maps an integer project key to the manager that scans that project.
  - `refreshScanManagers` builds a new map. It keeps the main project's manager by key, or creates a Maven manager and then a Gradle manager. It then adds one npm or Go manager per discovered package directory. Only at the end does it replace the field.
  - `startScan` returns early on four guards. Otherwise it refreshes, resets the views and asks every manager to scan.
  - `tryScanSingleProject` scans one known manager, or falls back to a full quick scan.
  - Managers are values. Their `id` stands for object identity and is allocated from a counter kept beside the map.
  - The IDE services are fields of a `Workspace` value: indexing, credentials, tool windows, applicability, project keys, package-file discovery, HashMap iteration order, and each manager's in-progress flag.
  - Every `asyncScanAndUpdateResults` call and every view reset is recorded as an event.
- **Maven dependency-tree construction** (`MavenScan`, MavenScanManager.java).
  - This is a depth-first walk over the root modules and their submodules, with one `added` set of display strings shared by the whole pass.
  - A module's node lists its accepted direct dependencies first, each copied with its whole transitive tree. Its submodules follow.
  - A synthetic root with exactly one child collapses to that child.
  - The walk is written as methods. They take the children built so far and the `added` set, and return the new ones. This stands for the source's `node.add` calls and its mutation of the shared HashSet.
  - Each method is proved equal to a specification function, and the properties are proved about those functions.
  - Which dependencies are listed is also stated without the walk. `Accepted` keeps, in order, each declared dependency whose display string is new, not a module key and not declared earlier. The tree lists exactly the accepted ones among all modules' declarations in visiting order.
  - Termination of the walk over module files uses a ghost height map. It witnesses that the module graph has no cycle.
- **The issues view** (`IssuesView`, IssuesTree.java).
  - The count is the sum of the sizes of the distinct issue sets among the root's children. Its label reads `Issues (<n>) `.
  - `applyFilters` checks its guard, then clones, clears, filters, re-aggregates, publishes and recounts, in that order.
  - Resetting the count panels does anything only when both the label and the panel exist.
  - Cloning, the filter manager, `processTreeIssues` and `appendProjectWhenReady` are library code. They are passed in as functions.

`DependencyTree` holds the tree node shared by the Maven builder and the issues view. `Wrappers` holds `Option`, which stands for Java's null.

One behaviour of the code is worth stating plainly. Only direct dependencies are deduplicated against `added` (MavenScanManager.java:108). An artifact that is both a transitive dependency of one direct dependency and a direct dependency itself is listed twice in a module, once under the first and once directly, when its display string is not yet in `added` and is not a module key. The model follows the code (`MavenScan.TransitiveDependenciesNotDeduplicated`).

## Model

| member | source | states |
|---|---|---|
| MavenScan.GetProjectPaths | src/main/java/com/jfrog/ide/idea/scan/MavenScanManager.java:50-55 | a path is in the result iff it is the directory of some Maven project |
| MavenScan.GetModuleByVirtualFile | src/main/java/com/jfrog/ide/idea/scan/MavenScanManager.java:97-103 | a project is found iff some project has that file; the one found is a project with that file, the first in the list |
| MavenScan.DependencyPass | src/main/java/com/jfrog/ide/idea/scan/MavenScanManager.java:105-111 | every direct dependency's display string ends up in `added`, including those rejected as module keys |
| MavenScan.DependencyPassFresh | src/main/java/com/jfrog/ide/idea/scan/MavenScanManager.java:105-111 | every accepted dependency was not in `added` before and is not a module key; no two accepted dependencies share a display string |
| MavenScan.DependencyPassFirst | src/main/java/com/jfrog/ide/idea/scan/MavenScanManager.java:105-111 | every accepted node is the exact copy of the first direct dependency with its display string |
| MavenScan.DependencyPassComplete | src/main/java/com/jfrog/ide/idea/scan/MavenScanManager.java:105-111 | every direct dependency whose display string is neither in `added` nor a module key is accepted |
| MavenScan.DependencyPassOrder | src/main/java/com/jfrog/ide/idea/scan/MavenScanManager.java:105-111 | the nodes a module gets from its direct dependencies are exactly the copies of the accepted ones (`Accepted`: first with their display string, not in `added`, not a module key), in declaration order |
| MavenScan.AcceptedDisplays | src/main/java/com/jfrog/ide/idea/scan/MavenScanManager.java:105-111 | a display string is accepted iff some dependency has it and it was neither in `added` nor a module key |
| MavenScan.AcceptedConcat | src/main/java/com/jfrog/ide/idea/scan/MavenScanManager.java:105-111 | accepting two runs of declarations in a row is accepting the first, then the second against `added` grown by the first's display strings |
| MavenScan.ModulePassNode | src/main/java/com/jfrog/ide/idea/scan/MavenScanManager.java:116-124 | the node `populateMavenModuleNode` makes (`PopulateMavenModuleNode`) is named by the module's artifactId and carries its groupId, artifactId, version and pkgType "maven"; a module yields exactly that one node |
| MavenScan.SubmodulesPassNodes | src/main/java/com/jfrog/ide/idea/scan/MavenScanManager.java:80-88 | one module node per submodule file that resolves to a project, in file order; unresolved files are skipped |
| MavenScan.RootsPassNodes | src/main/java/com/jfrog/ide/idea/scan/MavenScanManager.java:70 | one module node per root project, in order |
| MavenScan.TreeShape | src/main/java/com/jfrog/ide/idea/scan/MavenScanManager.java:71-77 | with exactly one root project the tree is that module's node; otherwise it is the synthetic root named after the project, with the base path, pkgType "maven" and one module node per root project, in order |
| MavenScan.ModuleChildrenOrder | src/main/java/com/jfrog/ide/idea/scan/MavenScanManager.java:90-95 | a module's children are the copies of its accepted dependencies, in declaration order and with no general info, followed by the submodule pass's nodes |
| MavenScan.ModulePassFresh | src/main/java/com/jfrog/ide/idea/scan/MavenScanManager.java:90-95 | the direct dependencies listed anywhere under a module are pairwise distinct, were not in `added` before the module, are not module keys, and are recorded in `added` after it |
| MavenScan.SubmodulesPassFresh | src/main/java/com/jfrog/ide/idea/scan/MavenScanManager.java:80-88 | the same for a module's submodules taken together |
| MavenScan.RootsPassFresh | src/main/java/com/jfrog/ide/idea/scan/MavenScanManager.java:70 | the same for all root modules taken together |
| MavenScan.TreeListsEachDependencyOnce | src/main/java/com/jfrog/ide/idea/scan/MavenScanManager.java:64-70 | in the whole tree no direct dependency is listed twice and none is a module of the workspace |
| MavenScan.ModulePassListing | src/main/java/com/jfrog/ide/idea/scan/MavenScanManager.java:90-95 | a module's part of the walk adds to `added` exactly the display strings declared by the module and, recursively, its submodules, and lists exactly the accepted ones among those declarations, in visiting order |
| MavenScan.SubmodulesPassListing | src/main/java/com/jfrog/ide/idea/scan/MavenScanManager.java:80-88 | the same for a module's submodules taken together: nothing but their declarations enters `added` between siblings |
| MavenScan.RootsPassListing | src/main/java/com/jfrog/ide/idea/scan/MavenScanManager.java:70 | the same for all root modules taken together |
| MavenScan.TreeListsFirstDeclarations | src/main/java/com/jfrog/ide/idea/scan/MavenScanManager.java:66-111 | the tree's direct dependencies, in pre-order, are the accepted declarations of all modules in visiting order: a dependency declared by several modules is listed where the first visited declares it, and every declared dependency that is not a module is listed |
| MavenScan.TransitiveDependenciesNotDeduplicated | src/main/java/com/jfrog/ide/idea/scan/MavenScanManager.java:108-133 | with direct dependencies libA(libB) and libB, both are accepted, so libB appears under libA and again directly |
| MavenScan.CopyRoundTrip | src/main/java/com/jfrog/ide/idea/scan/MavenScanManager.java:127-133 | a copied node gives back the artifact tree it was copied from: one node per artifact, children in dependency order |
| MavenScan.CopiesRoundTrip | src/main/java/com/jfrog/ide/idea/scan/MavenScanManager.java:130-131 | the same for a sequence of artifacts |
| MavenScan.UpdateChildrenNodes | src/main/java/com/jfrog/ide/idea/scan/MavenScanManager.java:127-133 | the parent's children get exactly one new node, the full copy of the artifact tree, appended last |
| MavenScan.AddMavenProjectDependencies | src/main/java/com/jfrog/ide/idea/scan/MavenScanManager.java:105-111 | the node's children are extended by exactly the accepted dependencies, and `added` becomes the pass's set |
| MavenScan.PopulateMavenModule | src/main/java/com/jfrog/ide/idea/scan/MavenScanManager.java:90-95 | the parent's children are extended by exactly the module's node as specified, and `added` becomes the pass's set |
| MavenScan.AddSubmodules | src/main/java/com/jfrog/ide/idea/scan/MavenScanManager.java:80-88 | the module node's children are extended by exactly the submodule nodes as specified |
| MavenScan.BuildTree | src/main/java/com/jfrog/ide/idea/scan/MavenScanManager.java:63-78 | the tree built is the specified tree of the workspace |
| ScanManagers.CreateScanManager | src/main/java/com/jfrog/ide/idea/scan/ScanManagersFactory.java:155-167 | creation fails exactly for the failing constructions; otherwise the manager has the requested kind, directory and the next id |
| ScanManagers.MainManagers | src/main/java/com/jfrog/ide/idea/scan/ScanManagersFactory.java:103-116 | an existing main manager is carried over alone and unchanged; otherwise creation fails iff an applicable constructor throws, the key is present iff Maven or Gradle applies, and the manager is new and Gradle when Gradle applies (overwriting Maven), else Maven |
| ScanManagers.PutDirsRegistry | src/main/java/com/jfrog/ide/idea/scan/ScanManagersFactory.java:135-146 | a successful pass adds exactly the directories' keys, keeps every entry already in the map being built, and fills each new key with a new manager of the pass's kind |
| ScanManagers.PutDirsFirstWins | src/main/java/com/jfrog/ide/idea/scan/ScanManagersFactory.java:137-145 | of several directories with the same new key, the first gets the manager |
| ScanManagers.PutDirsFails | src/main/java/com/jfrog/ide/idea/scan/ScanManagersFactory.java:137-145 | the pass throws iff the manager of some first directory with a key not yet in the map fails to be created |
| ScanManagers.PutDirsStaysFailed | src/main/java/com/jfrog/ide/idea/scan/ScanManagersFactory.java:137-145 | once creation has thrown, the rest of the directories cannot undo it |
| ScanManagers.RefreshFailsWithDiscovery | src/main/java/com/jfrog/ide/idea/scan/ScanManagersFactory.java:122-125 | a failing package-file discovery makes the refresh fail |
| ScanManagers.RefreshRegistry | src/main/java/com/jfrog/ide/idea/scan/ScanManagersFactory.java:102-133 | the new registry's keys are the main project's (if it has a manager) and the discovered directories' keys, nothing else; main entries are kept; a key an npm directory has holds an npm manager; a key only Go directories have holds a Go manager; every other entry was newly allocated by this refresh |
| ScanManagers.RefreshPlacesFirstDirectories | src/main/java/com/jfrog/ide/idea/scan/ScanManagersFactory.java:127-145 | each new entry is the manager of the first directory with its key: the first npm directory for a key new to the refresh, the first Go directory for a new key no npm directory has |
| ScanManagers.RefreshKeepsMainManager | src/main/java/com/jfrog/ide/idea/scan/ScanManagersFactory.java:105-108 | the main project's existing manager is carried over unchanged |
| ScanManagers.RefreshAllocates | src/main/java/com/jfrog/ide/idea/scan/ScanManagersFactory.java:102-120 | every manager of the new registry was allocated before the new counter value |
| ScanManagers.RefreshRecreatesPackageManagers | src/main/java/com/jfrog/ide/idea/scan/ScanManagersFactory.java:139 | an old entry other than the main project's is never reused, even when its key comes back: npm and Go managers are recreated on every refresh |
| ScanManagers.StartScanRefusal | src/main/java/com/jfrog/ide/idea/scan/ScanManagersFactory.java:55-71 | the request is refused for indexing, then a scan in progress, then unset credentials, then a missing tree, each iff the earlier guards pass |
| ScanManagers.ScanEventsEachOnce | src/main/java/com/jfrog/ide/idea/scan/ScanManagersFactory.java:74-76 | scanning along a listing of every key once calls every manager exactly once with the given arguments |
| ScanManagers.ScanManagersFactory.IsScanInProgress | src/main/java/com/jfrog/ide/idea/scan/ScanManagersFactory.java:169-171 | true iff some registered manager reports a scan in progress |
| ScanManagers.ScanManagersFactory.CreateScanManagersForPackageDirs | src/main/java/com/jfrog/ide/idea/scan/ScanManagersFactory.java:135-146 | the loop over the directories computes exactly the specified pass, lookups going to the map being built |
| ScanManagers.ScanManagersFactory.CreateScanManagers | src/main/java/com/jfrog/ide/idea/scan/ScanManagersFactory.java:122-133 | discovery under the given paths and every manager's project paths, then npm directories, then Go directories |
| ScanManagers.ScanManagersFactory.RefreshScanManagers | src/main/java/com/jfrog/ide/idea/scan/ScanManagersFactory.java:102-120 | on success the field becomes the refreshed registry and ids stay allocated; on failure the field keeps its old value |
| ScanManagers.ScanManagersFactory.ScanAll | src/main/java/com/jfrog/ide/idea/scan/ScanManagersFactory.java:74-76 | appends one scan per registered manager, each manager exactly once, with the given quickScan and dependencies |
| ScanManagers.ScanManagersFactory.StartScan | src/main/java/com/jfrog/ide/idea/scan/ScanManagersFactory.java:54-80 | a refused request or a failing refresh changes nothing and scans nothing; otherwise the registry is refreshed, the views are reset, then every manager of the new registry is scanned once |
| ScanManagers.ScanManagersFactory.TryScanSingleProject | src/main/java/com/jfrog/ide/idea/scan/ScanManagersFactory.java:90-97 | a known key scans only that manager, as a quick scan, and changes no state; an unknown key behaves exactly like a full quick scan |
| IssuesView.DistinctSets | src/main/java/com/jfrog/ide/idea/ui/issues/IssuesTree.java:101 | no set occurs twice, and the result holds exactly the sets of the input |
| IssuesView.IssuesCountEmpty | src/main/java/com/jfrog/ide/idea/ui/issues/IssuesTree.java:98-103 | a root without children counts zero |
| IssuesView.IssuesCountSnoc | src/main/java/com/jfrog/ide/idea/ui/issues/IssuesTree.java:98-103 | the count `IssuesCount` (the stream sum of the distinct issue-set sizes): one more child adds the size of its issue set, unless an earlier child has an equal issue set, in which case the count is unchanged |
| IssuesView.IssuesCountPair | src/main/java/com/jfrog/ide/idea/ui/issues/IssuesTree.java:98-103 | two children with equal issue sets are counted once; unequal ones, even overlapping, are both counted |
| IssuesView.IssuesCountAtMostSum | src/main/java/com/jfrog/ide/idea/ui/issues/IssuesTree.java:98-103 | the count is at most the plain sum of the children's issue-set sizes |
| IssuesView.IssuesCountAtLeastUnion | src/main/java/com/jfrog/ide/idea/ui/issues/IssuesTree.java:98-103 | the count is at least the number of distinct issues among the children |
| IssuesView.NatToString | src/main/java/com/jfrog/ide/idea/ui/issues/IssuesTree.java:104 | the count is rendered as a non-empty string of decimal digits without a leading zero |
| IssuesView.NatToStringRoundTrip | src/main/java/com/jfrog/ide/idea/ui/issues/IssuesTree.java:104 | reading the digits back gives the count |
| IssuesView.LabelRoundTrip | src/main/java/com/jfrog/ide/idea/ui/issues/IssuesTree.java:104 | the label `LabelText(n)`, `Issues (<n>) `, shows exactly the count it was made from |
| IssuesView.LabelTextInjective | src/main/java/com/jfrog/ide/idea/ui/issues/IssuesTree.java:104 | different counts give different labels |
| IssuesView.ResetTextIsZeroCount | src/main/java/com/jfrog/ide/idea/ui/issues/IssuesTree.java:91 | the text written on reset is the label of a zero count |
| IssuesView.IssuesTree.CalculateIssuesCount | src/main/java/com/jfrog/ide/idea/ui/issues/IssuesTree.java:96-106 | the label shows the count of the root's children |
| IssuesView.IssuesTree.ApplyFilters | src/main/java/com/jfrog/ide/idea/ui/issues/IssuesTree.java:63-75 | an unknown key changes nothing; otherwise the stored projects are untouched, a clone with its issues cleared is filtered, its issues are replaced by the re-aggregated set, it is published to the root, and the label is recounted |
| IssuesView.IssuesTree.ResetIssuesCountPanels | src/main/java/com/jfrog/ide/idea/ui/issues/IssuesTree.java:89-94 | with both the label and the panel present, the label reads `Issues (0) ` and the panel is emptied; otherwise nothing changes |

## Left out

- Asynchronous scanning and threading. `asyncScanAndUpdateResults` is a recorded event. The `invokeLater` around the count runs synchronously.
- The `ScanManager` base class is not part of this model: its scan cache, its in-progress flag (an input set of busy ids here) and `populateDependenciesTreeNode`. Dependency nodes therefore carry no general info in the model.
- The other scan managers (Gradle, npm, Go) are not part of this model. Their project paths are a workspace input.
- The Maven projects listener registered by the constructor, `refreshDependencies`, logging, and `getScanManagers`.
- Package-file discovery. Its HashSet results are given as sequences, in iteration order.
- HashMap iteration order is an input (`keyOrder`). StartScan and TryScanSingleProject require that it lists every key once, as a HashMap iteration does.
- The project-identifier hash is an abstract function. It is not assumed injective, so collisions are modelled.
- MavenScan.GetModuleByVirtualFile: returns the first project with the file. `findAny` may return any of them, so a workspace where two projects share a canonical file is modelled more narrowly than the source allows.
- Null canonical paths, which `Objects.equals` treats as equal to each other, are not modelled. Files are plain strings.
- A cyclic module graph, on which the source recurses forever. The Maven walk requires a height map that shows the graph has no cycle.
- The unreachable `IOException` for an unknown manager type (ScanManagersFactory.java:166). The four kinds are a closed datatype.
- Runtime exceptions thrown by a manager's scan call inside `startScan`'s loop. The scan calls are recorded and never fail.
- IssuesView.IssuesCount: the Java int sum can overflow; the model's count is unbounded.
- `DependenciesTree.clone`, `FilterManager.applyFilters`, `processTreeIssues` and `appendProjectWhenReady` are abstract function parameters. Whether `clone` shares the issue set with the stored project is aliasing that values cannot express. The model's stored projects are unchanged by construction.
- IssuesView.IssuesTree.CalculateIssuesCount: with no label the source's deferred call would throw on the UI thread. The model leaves the state unchanged.
- `reset`, `applyFiltersForAllProjects`, `populateTree` and the tree-expansion listener of IssuesTree belong to the base tree and its listeners, which are not part of this model.
- The per-path count panels that the expansion listener puts into the count panel. The panel is modelled only as a sequence of components that reset empties.
