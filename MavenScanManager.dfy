/**
 * The Maven scan manager's tree builder (MavenScanManager.java): a depth-first
 * walk over the workspace's Maven modules and their resolved dependency trees.
 *
 * The walk is written as methods that take the node's children and the
 * pass-wide `added` set by value and return the updated ones, the way the
 * source appends to a parent node and adds to a shared HashSet. Each method is
 * proved equal to a specification function (`CopyOf`, `DependencyPass`,
 * `ModulePass`, `SubmodulesPass`, `RootsPass`, `Tree`), and the properties of
 * the pass are proved about those functions.
 */
module MavenScan {
  import opened Wrappers
  import opened DependencyTree

  datatype MavenId = MavenId(groupId: string, artifactId: string, version: string)

  /**
   * A resolved artifact and its own resolved dependencies (`MavenArtifactNode`).
   * `display` is the artifact's display string for library names.
   */
  datatype ArtifactNode = ArtifactNode(display: string, dependencies: seq<ArtifactNode>)

  /**
   * A Maven project of the workspace. `key` is the key of its Maven id, `file`
   * the canonical path of its pom, `moduleFiles` the canonical paths of its
   * existing module files, in declaration order.
   */
  datatype MavenProject = MavenProject(
    id: MavenId,
    key: string,
    file: string,
    directory: string,
    dependencyTree: seq<ArtifactNode>,
    moduleFiles: seq<string>)

  /** What the IDE's Maven projects manager and the IDE project report. */
  datatype MavenWorkspace = MavenWorkspace(
    name: string,
    basePath: string,
    projects: seq<MavenProject>,
    rootProjects: seq<MavenProject>)

  /** The nodes a step of the walk appended, and the shared `added` set after it. */
  datatype Pass = Pass(nodes: seq<Node>, added: set<string>)

  // ---------------------------------------------------------------------------
  // Lookups

  /** The directories of all Maven projects. */
  function GetProjectPaths(projects: seq<MavenProject>): (paths: set<string>)
    ensures forall d :: d in paths <==> exists i :: 0 <= i < |projects| && projects[i].directory == d
  {
    if projects == [] then {}
    else
      var prefix := projects[..|projects| - 1];
      var paths := GetProjectPaths(prefix);
      assert forall i :: 0 <= i < |prefix| ==> prefix[i] == projects[i];
      paths + {projects[|projects| - 1].directory}
  }

  /** The project whose pom has the given canonical path, or None (the first one if several do). */
  function GetModuleByVirtualFile(projects: seq<MavenProject>, file: string): (r: Option<MavenProject>)
    ensures r.Some? <==> exists i :: 0 <= i < |projects| && projects[i].file == file
    ensures r.Some? ==> r.value in projects && r.value.file == file
    ensures r.Some? ==> exists i :: 0 <= i < |projects| && projects[i] == r.value &&
                                  forall j :: 0 <= j < i ==> projects[j].file != file
  {
    if projects == [] then None
    else if projects[0].file == file then Some(projects[0])
    else
      var r := GetModuleByVirtualFile(projects[1..], file);
      assert forall i :: 1 <= i < |projects| ==> projects[1..][i - 1] == projects[i];
      r
  }

  /** The keys of all Maven projects: these are modules, never dependency leaves. */
  function ModuleKeys(projects: seq<MavenProject>): set<string>
  {
    set p | p in projects :: p.key
  }

  /** The projects the given module files resolve to, unresolved files skipped. */
  function Resolved(projects: seq<MavenProject>, files: seq<string>): seq<MavenProject>
  {
    if files == [] then []
    else
      Resolved(projects, files[..|files| - 1]) +
      match GetModuleByVirtualFile(projects, files[|files| - 1])
      case None => []
      case Some(m) => [m]
  }

  // ---------------------------------------------------------------------------
  // Nodes

  /** The general info of a module node. */
  function ModuleInfo(p: MavenProject): GeneralInfo
  {
    GeneralInfo(p.id.groupId, p.id.artifactId, p.id.version, "", MavenPkgType)
  }

  /** A fresh module node, named by its artifact id (populateMavenModuleNode). */
  function PopulateMavenModuleNode(p: MavenProject): Node
  {
    Node(p.id.artifactId, Some(ModuleInfo(p)), {}, [])
  }

  /** The synthetic root's general info. */
  function RootInfo(ws: MavenWorkspace): GeneralInfo
  {
    GeneralInfo("", ws.name, "", ws.basePath, MavenPkgType)
  }

  /** The node copied from an artifact and, recursively, its dependencies. */
  function CopyOf(a: ArtifactNode): Node
  {
    Node(a.display, None, {}, CopiesOf(a.dependencies))
  }

  function CopiesOf(s: seq<ArtifactNode>): seq<Node>
  {
    if s == [] then [] else CopiesOf(s[..|s| - 1]) + [CopyOf(s[|s| - 1])]
  }

  /** The artifact a copied node was made from: the inverse of CopyOf. */
  function ArtifactOf(n: Node): ArtifactNode
  {
    ArtifactNode(n.name, ArtifactsOf(n.children))
  }

  function ArtifactsOf(s: seq<Node>): seq<ArtifactNode>
  {
    if s == [] then [] else ArtifactsOf(s[..|s| - 1]) + [ArtifactOf(s[|s| - 1])]
  }

  // ---------------------------------------------------------------------------
  // The walk, as specification functions

  /** The display strings of a sequence of artifacts. */
  function Displays(deps: seq<ArtifactNode>): set<string>
  {
    set i | 0 <= i < |deps| :: deps[i].display
  }

  /**
   * A module's direct dependencies: each one's display string is added to
   * `added`, and it becomes a child only if it was not in `added` before and
   * is not a module key.
   */
  function DependencyPass(deps: seq<ArtifactNode>, added: set<string>, moduleKeys: set<string>): (r: Pass)
    ensures r.added == added + Displays(deps)
  {
    if deps == [] then Pass([], added)
    else
      var prefix := deps[..|deps| - 1];
      var prev := DependencyPass(prefix, added, moduleKeys);
      var d := deps[|deps| - 1];
      assert Displays(deps) == Displays(prefix) + {d.display} by {
        assert forall i :: 0 <= i < |prefix| ==> prefix[i] == deps[i];
        assert forall i :: 0 <= i < |deps| - 1 ==> deps[i].display in Displays(prefix);
      }
      if d.display !in prev.added && d.display !in moduleKeys then
        Pass(prev.nodes + [CopyOf(d)], prev.added + {d.display})
      else
        Pass(prev.nodes, prev.added + {d.display})
  }

  /** Dependency `i` is the first in `deps` with its display string. */
  ghost predicate FirstWithDisplay(deps: seq<ArtifactNode>, i: int)
    requires 0 <= i < |deps|
  {
    forall j :: 0 <= j < i ==> deps[j].display != deps[i].display
  }

  /**
   * The children a module gets from its direct dependencies repeat no string
   * recorded earlier in the pass, name no module, and are pairwise distinct.
   */
  lemma {:induction false} DependencyPassFresh(deps: seq<ArtifactNode>, added: set<string>, moduleKeys: set<string>)
    ensures var r := DependencyPass(deps, added, moduleKeys);
      && (forall n :: n in r.nodes ==> n.name !in added && n.name !in moduleKeys && n.name in Displays(deps))
      && (forall i, j :: 0 <= i < j < |r.nodes| ==> r.nodes[i].name != r.nodes[j].name)
  {
    if deps != [] {
      var prefix := deps[..|deps| - 1];
      var prev := DependencyPass(prefix, added, moduleKeys);
      DependencyPassFresh(prefix, added, moduleKeys);
      assert Displays(prefix) <= Displays(deps) by {
        forall x | x in Displays(prefix) ensures x in Displays(deps) {
          var i :| 0 <= i < |prefix| && prefix[i].display == x;
          assert deps[i] == prefix[i];
        }
      }
    }
  }

  /** Each such child is the copy of the first dependency with its display string. */
  lemma {:induction false} DependencyPassFirst(deps: seq<ArtifactNode>, added: set<string>, moduleKeys: set<string>)
    ensures forall n :: n in DependencyPass(deps, added, moduleKeys).nodes ==>
      exists i :: 0 <= i < |deps| && n == CopyOf(deps[i]) && FirstWithDisplay(deps, i)
  {
    if deps != [] {
      var prefix := deps[..|deps| - 1];
      var prev := DependencyPass(prefix, added, moduleKeys);
      var d := deps[|deps| - 1];
      DependencyPassFirst(prefix, added, moduleKeys);
      forall n | n in DependencyPass(deps, added, moduleKeys).nodes
        ensures exists i :: 0 <= i < |deps| && n == CopyOf(deps[i]) && FirstWithDisplay(deps, i)
      {
        if n in prev.nodes {
          var i :| 0 <= i < |prefix| && n == CopyOf(prefix[i]) && FirstWithDisplay(prefix, i);
          assert forall j :: 0 <= j <= i ==> deps[j] == prefix[j];
          assert FirstWithDisplay(deps, i);
        } else {
          forall j | 0 <= j < |deps| - 1 ensures deps[j].display != d.display {
            assert deps[j] == prefix[j];
            assert prefix[j].display in Displays(prefix);
          }
          assert FirstWithDisplay(deps, |deps| - 1);
        }
      }
    }
  }

  /** Every dependency that is new to the pass and not a module gets a child of its name. */
  lemma {:induction false} DependencyPassComplete(deps: seq<ArtifactNode>, added: set<string>, moduleKeys: set<string>)
    ensures forall i :: 0 <= i < |deps| && deps[i].display !in added && deps[i].display !in moduleKeys ==>
      exists n :: n in DependencyPass(deps, added, moduleKeys).nodes && n.name == deps[i].display
  {
    if deps != [] {
      var r := DependencyPass(deps, added, moduleKeys);
      var prefix := deps[..|deps| - 1];
      var prev := DependencyPass(prefix, added, moduleKeys);
      var d := deps[|deps| - 1];
      DependencyPassComplete(prefix, added, moduleKeys);
      assert forall n :: n in prev.nodes ==> n in r.nodes;
      forall i | 0 <= i < |deps| && deps[i].display !in added && deps[i].display !in moduleKeys
        ensures exists n :: n in r.nodes && n.name == deps[i].display
      {
        if i < |deps| - 1 {
          assert prefix[i] == deps[i];
          var n :| n in prev.nodes && n.name == prefix[i].display;
        } else if d.display in prev.added {
          var k :| 0 <= k < |prefix| && prefix[k].display == d.display;
          var n :| n in prev.nodes && n.name == prefix[k].display;
        } else {
          assert CopyOf(d) in r.nodes;
        }
      }
    }
  }

  /** The display strings of a sequence of artifacts, in order. */
  function DisplayList(deps: seq<ArtifactNode>): (r: seq<string>)
    ensures |r| == |deps| && forall i :: 0 <= i < |deps| ==> r[i] == deps[i].display
  {
    seq(|deps|, i requires 0 <= i < |deps| => deps[i].display)
  }

  lemma DisplayListConcat(a: seq<ArtifactNode>, b: seq<ArtifactNode>)
    ensures DisplayList(a + b) == DisplayList(a) + DisplayList(b)
  {
  }

  lemma DisplaysConcat(a: seq<ArtifactNode>, b: seq<ArtifactNode>)
    ensures Displays(a + b) == Displays(a) + Displays(b)
  {
    forall x | x in Displays(a + b) ensures x in Displays(a) + Displays(b) {
      var i :| 0 <= i < |a + b| && (a + b)[i].display == x;
      if i < |a| {
        assert a[i].display == x;
      } else {
        assert b[i - |a|].display == x;
      }
    }
    forall x | x in Displays(a) + Displays(b) ensures x in Displays(a + b) {
      if x in Displays(a) {
        var i :| 0 <= i < |a| && a[i].display == x;
        assert (a + b)[i] == a[i];
      } else {
        var i :| 0 <= i < |b| && b[i].display == x;
        assert (a + b)[|a| + i] == b[i];
      }
    }
  }

  /**
   * The dependencies a pass starting from `seen` accepts, in declaration
   * order: each one whose display string is not in `seen`, is not a module
   * key, and is not the display string of an earlier dependency.
   */
  function Accepted(deps: seq<ArtifactNode>, seen: set<string>, moduleKeys: set<string>): seq<ArtifactNode>
  {
    if deps == [] then []
    else
      var prefix := deps[..|deps| - 1];
      var d := deps[|deps| - 1];
      Accepted(prefix, seen, moduleKeys) +
        if d.display in seen || d.display in moduleKeys || d.display in Displays(prefix) then [] else [d]
  }

  /** Filtering a concatenation: the second part is filtered against what the first part declared. */
  lemma {:induction false} AcceptedConcat(xs: seq<ArtifactNode>, ys: seq<ArtifactNode>, seen: set<string>,
                                          moduleKeys: set<string>)
    ensures Accepted(xs + ys, seen, moduleKeys) ==
      Accepted(xs, seen, moduleKeys) + Accepted(ys, seen + Displays(xs), moduleKeys)
    decreases |ys|
  {
    if ys == [] {
      assert xs + ys == xs;
    } else {
      var ys' := ys[..|ys| - 1];
      assert (xs + ys)[..|xs + ys| - 1] == xs + ys';
      assert (xs + ys)[|xs + ys| - 1] == ys[|ys| - 1];
      AcceptedConcat(xs, ys', seen, moduleKeys);
      DisplaysConcat(xs, ys');
    }
  }

  /** A display string is accepted iff some dependency has it and it is neither in `seen` nor a module key. */
  lemma {:induction false} AcceptedDisplays(deps: seq<ArtifactNode>, seen: set<string>, moduleKeys: set<string>)
    ensures Displays(Accepted(deps, seen, moduleKeys)) == Displays(deps) - seen - moduleKeys
  {
    if deps != [] {
      var prefix := deps[..|deps| - 1];
      var d := deps[|deps| - 1];
      var a := Accepted(prefix, seen, moduleKeys);
      AcceptedDisplays(prefix, seen, moduleKeys);
      assert prefix + [d] == deps;
      DisplaysConcat(prefix, [d]);
      assert Displays([d]) == {d.display};
      if d.display in seen || d.display in moduleKeys || d.display in Displays(prefix) {
        assert a + [] == a;
      } else {
        DisplaysConcat(a, [d]);
      }
    }
  }

  lemma CopiesOfSnoc(s: seq<ArtifactNode>, a: ArtifactNode)
    ensures CopiesOf(s + [a]) == CopiesOf(s) + [CopyOf(a)]
  {
    assert (s + [a])[..|s|] == s;
  }

  /** The nodes a dependency pass appends are the copies of the accepted dependencies, in declaration order. */
  lemma {:induction false} DependencyPassOrder(deps: seq<ArtifactNode>, added: set<string>, moduleKeys: set<string>)
    ensures DependencyPass(deps, added, moduleKeys).nodes == CopiesOf(Accepted(deps, added, moduleKeys))
  {
    if deps != [] {
      var prefix := deps[..|deps| - 1];
      var d := deps[|deps| - 1];
      var a := Accepted(prefix, added, moduleKeys);
      DependencyPassOrder(prefix, added, moduleKeys);
      if d.display in added || d.display in moduleKeys || d.display in Displays(prefix) {
        assert a + [] == a;
      } else {
        CopiesOfSnoc(a, d);
      }
    }
  }

  /**
   * The module graph has no cycle: every project has a height, and a project
   * listed among another's module files sits strictly lower.
   */
  ghost predicate Nested(projects: seq<MavenProject>, height: map<string, nat>)
  {
    && (forall p :: p in projects ==> p.file in height)
    && (forall p, q :: p in projects && q in projects && q.file in p.moduleFiles ==>
          height[q.file] < height[p.file])
  }

  /**
   * One module (populateMavenModule): its node, whose children are its
   * accepted dependencies followed by its submodules.
   */
  ghost function ModulePass(projects: seq<MavenProject>, p: MavenProject, added: set<string>,
                            moduleKeys: set<string>, height: map<string, nat>): Pass
    requires Nested(projects, height) && p in projects
    decreases height[p.file], 1
  {
    var deps := DependencyPass(p.dependencyTree, added, moduleKeys);
    var subs := SubmodulesPass(projects, p, p.moduleFiles, deps.added, moduleKeys, height);
    Pass([PopulateMavenModuleNode(p).(children := deps.nodes + subs.nodes)], subs.added)
  }

  /** The submodules listed in `files`, in order (addSubmodules). */
  ghost function SubmodulesPass(projects: seq<MavenProject>, parent: MavenProject, files: seq<string>,
                                added: set<string>, moduleKeys: set<string>, height: map<string, nat>): Pass
    requires Nested(projects, height) && parent in projects
    requires forall f :: f in files ==> f in parent.moduleFiles
    decreases height[parent.file], 0, |files|
  {
    if files == [] then Pass([], added)
    else
      var prev := SubmodulesPass(projects, parent, files[..|files| - 1], added, moduleKeys, height);
      match GetModuleByVirtualFile(projects, files[|files| - 1])
      case None => prev
      case Some(m) =>
        var st := ModulePass(projects, m, prev.added, moduleKeys, height);
        Pass(prev.nodes + st.nodes, st.added)
  }

  /** One more module file: the pass over `files[..i + 1]` extends the pass over `files[..i]`. */
  lemma SubmodulesPassStep(projects: seq<MavenProject>, parent: MavenProject, files: seq<string>, i: nat,
                           added: set<string>, moduleKeys: set<string>, height: map<string, nat>)
    requires Nested(projects, height) && parent in projects
    requires files == parent.moduleFiles && i < |files|
    ensures var prev := SubmodulesPass(projects, parent, files[..i], added, moduleKeys, height);
      SubmodulesPass(projects, parent, files[..i + 1], added, moduleKeys, height) ==
        match GetModuleByVirtualFile(projects, files[i])
        case None => prev
        case Some(m) =>
          var st := ModulePass(projects, m, prev.added, moduleKeys, height);
          Pass(prev.nodes + st.nodes, st.added)
  {
    assert files[..i + 1][..i] == files[..i];
  }

  /** The root projects, in order. */
  ghost function RootsPass(projects: seq<MavenProject>, roots: seq<MavenProject>, added: set<string>,
                           moduleKeys: set<string>, height: map<string, nat>): Pass
    requires Nested(projects, height) && forall q :: q in roots ==> q in projects
  {
    if roots == [] then Pass([], added)
    else
      var prev := RootsPass(projects, roots[..|roots| - 1], added, moduleKeys, height);
      var st := ModulePass(projects, roots[|roots| - 1], prev.added, moduleKeys, height);
      Pass(prev.nodes + st.nodes, st.added)
  }

  /** What the IDE guarantees: root projects are projects and the module graph is acyclic. */
  ghost predicate WellFormed(ws: MavenWorkspace, height: map<string, nat>)
  {
    Nested(ws.projects, height) && forall q :: q in ws.rootProjects ==> q in ws.projects
  }

  /**
   * The tree of one build pass: the synthetic root over all root modules, or
   * its only child when there is exactly one.
   */
  ghost function Tree(ws: MavenWorkspace, height: map<string, nat>): Node
    requires WellFormed(ws, height)
  {
    var pass := RootsPass(ws.projects, ws.rootProjects, {}, ModuleKeys(ws.projects), height);
    if |pass.nodes| == 1 then pass.nodes[0]
    else Node(ws.name, Some(RootInfo(ws)), {}, pass.nodes)
  }

  // ---------------------------------------------------------------------------
  // The shape of the tree

  /** `n` is the module node of project `q`: named by its artifactId, with its general info. */
  ghost predicate ModuleNodeOf(n: Node, q: MavenProject)
  {
    n.name == q.id.artifactId && n.info == Some(ModuleInfo(q))
  }

  /** One module yields exactly one node, its module node. */
  lemma ModulePassNode(projects: seq<MavenProject>, p: MavenProject, added: set<string>,
                       moduleKeys: set<string>, height: map<string, nat>)
    requires Nested(projects, height) && p in projects
    ensures var r := ModulePass(projects, p, added, moduleKeys, height);
      |r.nodes| == 1 && ModuleNodeOf(r.nodes[0], p)
  {
  }

  /** The submodule pass yields one module node per module file that resolves to a project, in order. */
  lemma {:induction false} SubmodulesPassNodes(projects: seq<MavenProject>, parent: MavenProject, files: seq<string>,
                                               added: set<string>, moduleKeys: set<string>, height: map<string, nat>)
    requires Nested(projects, height) && parent in projects
    requires forall f :: f in files ==> f in parent.moduleFiles
    ensures var r := SubmodulesPass(projects, parent, files, added, moduleKeys, height);
      var resolved := Resolved(projects, files);
      |r.nodes| == |resolved| && forall j :: 0 <= j < |resolved| ==> ModuleNodeOf(r.nodes[j], resolved[j])
  {
    if files != [] {
      var prefix := files[..|files| - 1];
      var prev := SubmodulesPass(projects, parent, prefix, added, moduleKeys, height);
      SubmodulesPassNodes(projects, parent, prefix, added, moduleKeys, height);
      match GetModuleByVirtualFile(projects, files[|files| - 1])
      case None =>
      case Some(m) =>
        ModulePassNode(projects, m, prev.added, moduleKeys, height);
    }
  }

  /** The roots pass yields one module node per root project, in order. */
  lemma {:induction false} RootsPassNodes(projects: seq<MavenProject>, roots: seq<MavenProject>, added: set<string>,
                                          moduleKeys: set<string>, height: map<string, nat>)
    requires Nested(projects, height) && forall q :: q in roots ==> q in projects
    ensures var r := RootsPass(projects, roots, added, moduleKeys, height);
      |r.nodes| == |roots| && forall j :: 0 <= j < |roots| ==> ModuleNodeOf(r.nodes[j], roots[j])
  {
    if roots != [] {
      var prefix := roots[..|roots| - 1];
      var prev := RootsPass(projects, prefix, added, moduleKeys, height);
      RootsPassNodes(projects, prefix, added, moduleKeys, height);
      var st := ModulePass(projects, roots[|roots| - 1], prev.added, moduleKeys, height);
      ModulePassNode(projects, roots[|roots| - 1], prev.added, moduleKeys, height);
      var r := RootsPass(projects, roots, added, moduleKeys, height);
      assert r.nodes == prev.nodes + st.nodes;
      forall j | 0 <= j < |roots| ensures ModuleNodeOf(r.nodes[j], roots[j]) {
        if j < |prefix| {
          assert r.nodes[j] == prev.nodes[j] && roots[j] == prefix[j];
        } else {
          assert r.nodes[j] == st.nodes[0];
        }
      }
    }
  }

  /**
   * With exactly one root project the tree is that module's node; otherwise
   * it is the synthetic root over one module node per root project.
   */
  lemma TreeShape(ws: MavenWorkspace, height: map<string, nat>)
    requires WellFormed(ws, height)
    ensures var r := Tree(ws, height);
      && (|ws.rootProjects| == 1 ==> ModuleNodeOf(r, ws.rootProjects[0]))
      && (|ws.rootProjects| != 1 ==>
            && r.name == ws.name && r.info == Some(RootInfo(ws)) && |r.children| == |ws.rootProjects|
            && forall j :: 0 <= j < |ws.rootProjects| ==> ModuleNodeOf(r.children[j], ws.rootProjects[j]))
  {
    RootsPassNodes(ws.projects, ws.rootProjects, {}, ModuleKeys(ws.projects), height);
  }
  // ---------------------------------------------------------------------------
  // Properties of the whole pass

  /**
   * The display strings of the direct dependencies listed under the module
   * nodes among `ns`, in pre-order: a node without general info is a
   * dependency, one with general info is a module whose children are visited.
   */
  function DirectDependencies(ns: seq<Node>): seq<string>
  {
    if ns == [] then []
    else
      DirectDependencies(ns[..|ns| - 1]) +
      var n := ns[|ns| - 1];
      if n.info.None? then [n.name] else DirectDependencies(n.children)
  }

  lemma {:induction false} DirectDependenciesAppend(a: seq<Node>, b: seq<Node>)
    ensures DirectDependencies(a + b) == DirectDependencies(a) + DirectDependencies(b)
    decreases |b|
  {
    if b != [] {
      assert (a + b)[..|a + b| - 1] == a + b[..|b| - 1];
      assert (a + b)[|a + b| - 1] == b[|b| - 1];
      DirectDependenciesAppend(a, b[..|b| - 1]);
    } else {
      assert a + b == a;
    }
  }

  lemma {:induction false} DirectDependenciesOfLeaves(ns: seq<Node>)
    requires forall n :: n in ns ==> n.info.None?
    ensures |DirectDependencies(ns)| == |ns|
    ensures forall i :: 0 <= i < |ns| ==> DirectDependencies(ns)[i] == ns[i].name
  {
    if ns != [] {
      DirectDependenciesOfLeaves(ns[..|ns| - 1]);
    }
  }

  /** `xs` has no repetition, and each of its strings is new after `before`, recorded by `after`, and no module. */
  ghost predicate FreshIn(xs: seq<string>, before: set<string>, after: set<string>, moduleKeys: set<string>)
  {
    && (forall i, j :: 0 <= i < j < |xs| ==> xs[i] != xs[j])
    && (forall x :: x in xs ==> x !in before && x !in moduleKeys && x in after)
  }

  lemma FreshInConcat(xs: seq<string>, ys: seq<string>, a: set<string>, b: set<string>, c: set<string>,
                      moduleKeys: set<string>)
    requires FreshIn(xs, a, b, moduleKeys) && FreshIn(ys, b, c, moduleKeys) && a <= b <= c
    ensures FreshIn(xs + ys, a, c, moduleKeys)
  {
    forall i, j | 0 <= i < j < |xs + ys| ensures (xs + ys)[i] != (xs + ys)[j] {
      if i < |xs| && |xs| <= j {
        assert (xs + ys)[i] in xs && (xs + ys)[j] in ys;
      }
    }
  }

  lemma {:induction false} ModulePassFresh(projects: seq<MavenProject>, p: MavenProject, added: set<string>,
                                           moduleKeys: set<string>, height: map<string, nat>)
    requires Nested(projects, height) && p in projects
    ensures var r := ModulePass(projects, p, added, moduleKeys, height);
      added <= r.added && FreshIn(DirectDependencies(r.nodes), added, r.added, moduleKeys)
    decreases height[p.file], 1
  {
    var deps := DependencyPass(p.dependencyTree, added, moduleKeys);
    var subs := SubmodulesPass(projects, p, p.moduleFiles, deps.added, moduleKeys, height);
    var node := PopulateMavenModuleNode(p).(children := deps.nodes + subs.nodes);
    DependencyPassFresh(p.dependencyTree, added, moduleKeys);
    DependencyPassFirst(p.dependencyTree, added, moduleKeys);
    DirectDependenciesOfLeaves(deps.nodes);
    assert FreshIn(DirectDependencies(deps.nodes), added, deps.added, moduleKeys);
    SubmodulesPassFresh(projects, p, p.moduleFiles, deps.added, moduleKeys, height);
    FreshInConcat(DirectDependencies(deps.nodes), DirectDependencies(subs.nodes), added, deps.added, subs.added, moduleKeys);
    DirectDependenciesAppend(deps.nodes, subs.nodes);
    assert DirectDependencies([node]) == DirectDependencies(deps.nodes + subs.nodes);
  }

  lemma {:induction false} SubmodulesPassFresh(projects: seq<MavenProject>, parent: MavenProject, files: seq<string>,
                                               added: set<string>, moduleKeys: set<string>, height: map<string, nat>)
    requires Nested(projects, height) && parent in projects
    requires forall f :: f in files ==> f in parent.moduleFiles
    ensures var r := SubmodulesPass(projects, parent, files, added, moduleKeys, height);
      added <= r.added && FreshIn(DirectDependencies(r.nodes), added, r.added, moduleKeys)
    decreases height[parent.file], 0, |files|
  {
    if files != [] {
      var prev := SubmodulesPass(projects, parent, files[..|files| - 1], added, moduleKeys, height);
      SubmodulesPassFresh(projects, parent, files[..|files| - 1], added, moduleKeys, height);
      match GetModuleByVirtualFile(projects, files[|files| - 1])
      case None =>
      case Some(m) =>
        ModulePassFresh(projects, m, prev.added, moduleKeys, height);
        var st := ModulePass(projects, m, prev.added, moduleKeys, height);
        FreshInConcat(DirectDependencies(prev.nodes), DirectDependencies(st.nodes), added, prev.added, st.added, moduleKeys);
        DirectDependenciesAppend(prev.nodes, st.nodes);
    }
  }

  lemma {:induction false} RootsPassFresh(projects: seq<MavenProject>, roots: seq<MavenProject>, added: set<string>,
                                          moduleKeys: set<string>, height: map<string, nat>)
    requires Nested(projects, height) && forall q :: q in roots ==> q in projects
    ensures var r := RootsPass(projects, roots, added, moduleKeys, height);
      added <= r.added && FreshIn(DirectDependencies(r.nodes), added, r.added, moduleKeys)
  {
    if roots != [] {
      var prev := RootsPass(projects, roots[..|roots| - 1], added, moduleKeys, height);
      RootsPassFresh(projects, roots[..|roots| - 1], added, moduleKeys, height);
      ModulePassFresh(projects, roots[|roots| - 1], prev.added, moduleKeys, height);
      var st := ModulePass(projects, roots[|roots| - 1], prev.added, moduleKeys, height);
      FreshInConcat(DirectDependencies(prev.nodes), DirectDependencies(st.nodes), added, prev.added, st.added, moduleKeys);
      DirectDependenciesAppend(prev.nodes, st.nodes);
    }
  }

  /**
   * The direct dependencies declared by a module and, recursively, by its
   * resolved submodules, in the order the walk visits them.
   */
  ghost function ModuleDeclared(projects: seq<MavenProject>, p: MavenProject, height: map<string, nat>): seq<ArtifactNode>
    requires Nested(projects, height) && p in projects
    decreases height[p.file], 1
  {
    p.dependencyTree + SubmodulesDeclared(projects, p, p.moduleFiles, height)
  }

  ghost function SubmodulesDeclared(projects: seq<MavenProject>, parent: MavenProject, files: seq<string>,
                                    height: map<string, nat>): seq<ArtifactNode>
    requires Nested(projects, height) && parent in projects
    requires forall f :: f in files ==> f in parent.moduleFiles
    decreases height[parent.file], 0, |files|
  {
    if files == [] then []
    else
      SubmodulesDeclared(projects, parent, files[..|files| - 1], height) +
      match GetModuleByVirtualFile(projects, files[|files| - 1])
      case None => []
      case Some(m) => ModuleDeclared(projects, m, height)
  }

  ghost function RootsDeclared(projects: seq<MavenProject>, roots: seq<MavenProject>, height: map<string, nat>): seq<ArtifactNode>
    requires Nested(projects, height) && forall q :: q in roots ==> q in projects
  {
    if roots == [] then []
    else RootsDeclared(projects, roots[..|roots| - 1], height) + ModuleDeclared(projects, roots[|roots| - 1], height)
  }

  /**
   * A step of the walk over the modules that declare `declared` records
   * exactly those display strings in `added`, and lists exactly the accepted
   * declarations, in order.
   */
  ghost predicate ListsAccepted(r: Pass, declared: seq<ArtifactNode>, added: set<string>, moduleKeys: set<string>)
  {
    && r.added == added + Displays(declared)
    && DirectDependencies(r.nodes) == DisplayList(Accepted(declared, added, moduleKeys))
  }

  lemma {:induction false} CopiesListing(s: seq<ArtifactNode>)
    ensures DirectDependencies(CopiesOf(s)) == DisplayList(s)
  {
    if s != [] {
      var prefix := s[..|s| - 1];
      CopiesListing(prefix);
      CopiesOfSnoc(prefix, s[|s| - 1]);
      assert prefix + [s[|s| - 1]] == s;
      var c := CopiesOf(s);
      assert c[..|c| - 1] == CopiesOf(prefix);
      DisplayListConcat(prefix, [s[|s| - 1]]);
    }
  }

  lemma {:induction false} ModulePassListing(projects: seq<MavenProject>, p: MavenProject, added: set<string>,
                                             moduleKeys: set<string>, height: map<string, nat>)
    requires Nested(projects, height) && p in projects
    ensures ListsAccepted(ModulePass(projects, p, added, moduleKeys, height), ModuleDeclared(projects, p, height), added, moduleKeys)
    decreases height[p.file], 1
  {
    var deps := DependencyPass(p.dependencyTree, added, moduleKeys);
    var subs := SubmodulesPass(projects, p, p.moduleFiles, deps.added, moduleKeys, height);
    var sd := SubmodulesDeclared(projects, p, p.moduleFiles, height);
    var node := PopulateMavenModuleNode(p).(children := deps.nodes + subs.nodes);
    var accepted := Accepted(p.dependencyTree, added, moduleKeys);
    DependencyPassOrder(p.dependencyTree, added, moduleKeys);
    CopiesListing(accepted);
    SubmodulesPassListing(projects, p, p.moduleFiles, deps.added, moduleKeys, height);
    DirectDependenciesAppend(deps.nodes, subs.nodes);
    assert DirectDependencies([node]) == DirectDependencies(deps.nodes + subs.nodes);
    DisplaysConcat(p.dependencyTree, sd);
    AcceptedConcat(p.dependencyTree, sd, added, moduleKeys);
    DisplayListConcat(accepted, Accepted(sd, deps.added, moduleKeys));
  }

  lemma {:induction false} SubmodulesPassListing(projects: seq<MavenProject>, parent: MavenProject, files: seq<string>,
                                                 added: set<string>, moduleKeys: set<string>, height: map<string, nat>)
    requires Nested(projects, height) && parent in projects
    requires forall f :: f in files ==> f in parent.moduleFiles
    ensures ListsAccepted(SubmodulesPass(projects, parent, files, added, moduleKeys, height),
                          SubmodulesDeclared(projects, parent, files, height), added, moduleKeys)
    decreases height[parent.file], 0, |files|
  {
    if files != [] {
      var prefix := files[..|files| - 1];
      var prev := SubmodulesPass(projects, parent, prefix, added, moduleKeys, height);
      var pd := SubmodulesDeclared(projects, parent, prefix, height);
      SubmodulesPassListing(projects, parent, prefix, added, moduleKeys, height);
      match GetModuleByVirtualFile(projects, files[|files| - 1])
      case None =>
        assert pd + [] == pd;
      case Some(m) =>
        var md := ModuleDeclared(projects, m, height);
        var st := ModulePass(projects, m, prev.added, moduleKeys, height);
        ModulePassListing(projects, m, prev.added, moduleKeys, height);
        DirectDependenciesAppend(prev.nodes, st.nodes);
        DisplaysConcat(pd, md);
        AcceptedConcat(pd, md, added, moduleKeys);
        DisplayListConcat(Accepted(pd, added, moduleKeys), Accepted(md, prev.added, moduleKeys));
    }
  }

  lemma {:induction false} RootsPassListing(projects: seq<MavenProject>, roots: seq<MavenProject>, added: set<string>,
                                            moduleKeys: set<string>, height: map<string, nat>)
    requires Nested(projects, height) && forall q :: q in roots ==> q in projects
    ensures ListsAccepted(RootsPass(projects, roots, added, moduleKeys, height), RootsDeclared(projects, roots, height),
                          added, moduleKeys)
  {
    if roots != [] {
      var prefix := roots[..|roots| - 1];
      var last := roots[|roots| - 1];
      var prev := RootsPass(projects, prefix, added, moduleKeys, height);
      var pd := RootsDeclared(projects, prefix, height);
      var md := ModuleDeclared(projects, last, height);
      var st := ModulePass(projects, last, prev.added, moduleKeys, height);
      RootsPassListing(projects, prefix, added, moduleKeys, height);
      ModulePassListing(projects, last, prev.added, moduleKeys, height);
      DirectDependenciesAppend(prev.nodes, st.nodes);
      DisplaysConcat(pd, md);
      AcceptedConcat(pd, md, added, moduleKeys);
      DisplayListConcat(Accepted(pd, added, moduleKeys), Accepted(md, prev.added, moduleKeys));
    }
  }

  /** The tree lists the direct dependencies of the root modules' nodes, whether or not the root collapses. */
  lemma TreeDirectDependencies(ws: MavenWorkspace, height: map<string, nat>)
    requires WellFormed(ws, height)
    ensures DirectDependencies([Tree(ws, height)]) ==
      DirectDependencies(RootsPass(ws.projects, ws.rootProjects, {}, ModuleKeys(ws.projects), height).nodes)
  {
    var pass := RootsPass(ws.projects, ws.rootProjects, {}, ModuleKeys(ws.projects), height);
    if |pass.nodes| == 1 {
      assert pass.nodes == [] + [pass.nodes[0]];
    }
  }

  /**
   * The direct dependencies listed in the whole tree are exactly the accepted
   * ones among all declarations, taken in the order the walk visits the
   * modules: a dependency declared by several modules is listed where the
   * first visited module declares it and nowhere else, and every declared
   * dependency that is not a module is listed.
   */
  lemma TreeListsFirstDeclarations(ws: MavenWorkspace, height: map<string, nat>)
    requires WellFormed(ws, height)
    ensures var declared := RootsDeclared(ws.projects, ws.rootProjects, height);
      var keys := ModuleKeys(ws.projects);
      && DirectDependencies([Tree(ws, height)]) == DisplayList(Accepted(declared, {}, keys))
      && Displays(Accepted(declared, {}, keys)) == Displays(declared) - keys
  {
    var keys := ModuleKeys(ws.projects);
    TreeDirectDependencies(ws, height);
    RootsPassListing(ws.projects, ws.rootProjects, {}, keys, height);
    AcceptedDisplays(RootsDeclared(ws.projects, ws.rootProjects, height), {}, keys);
  }

  /**
   * Because `added` is shared by the whole pass, a direct dependency is listed
   * under at most one module node of the tree, and no module of the workspace
   * is ever listed as a dependency (which module lists it is stated by
   * `TreeListsFirstDeclarations`).
   */
  lemma TreeListsEachDependencyOnce(ws: MavenWorkspace, height: map<string, nat>)
    requires WellFormed(ws, height)
    ensures var deps := DirectDependencies([Tree(ws, height)]);
      && (forall i, j :: 0 <= i < j < |deps| ==> deps[i] != deps[j])
      && (forall x :: x in deps ==> x !in ModuleKeys(ws.projects))
  {
    TreeDirectDependencies(ws, height);
    RootsPassFresh(ws.projects, ws.rootProjects, {}, ModuleKeys(ws.projects), height);
  }

  /**
   * A module node's children: the copies of its accepted dependencies first,
   * in declaration order and as dependency nodes (no general info), then the
   * nodes of its submodules, which are listed one per resolved module file
   * (`SubmodulesPass`).
   */
  lemma ModuleChildrenOrder(projects: seq<MavenProject>, p: MavenProject, added: set<string>,
                            moduleKeys: set<string>, height: map<string, nat>)
    requires Nested(projects, height) && p in projects
    ensures var deps := DependencyPass(p.dependencyTree, added, moduleKeys);
      var subs := SubmodulesPass(projects, p, p.moduleFiles, deps.added, moduleKeys, height);
      var children := ModulePass(projects, p, added, moduleKeys, height).nodes[0].children;
      && children == deps.nodes + subs.nodes
      && deps.nodes == CopiesOf(Accepted(p.dependencyTree, added, moduleKeys))
      && (forall i :: 0 <= i < |deps.nodes| ==> children[i].info.None?)
  {
    var deps := DependencyPass(p.dependencyTree, added, moduleKeys);
    DependencyPassFirst(p.dependencyTree, added, moduleKeys);
    DependencyPassOrder(p.dependencyTree, added, moduleKeys);
    forall i | 0 <= i < |deps.nodes| ensures deps.nodes[i].info.None? {
      assert deps.nodes[i] in deps.nodes;
    }
  }

  /**
   * Only direct dependencies are deduplicated: with direct dependencies
   * libA (which depends on libB) and libB, in a pass where neither is yet in
   * `added` nor a module key, both are listed, so libB appears twice in the
   * module, once under libA and once directly.
   */
  lemma TransitiveDependenciesNotDeduplicated()
    ensures var libB := ArtifactNode("libB", []);
      var libA := ArtifactNode("libA", [libB]);
      var nodes := DependencyPass([libA, libB], {}, {}).nodes;
      && nodes == [CopyOf(libA), CopyOf(libB)]
      && nodes[0].children == [CopyOf(libB)]
  {
    var libB := ArtifactNode("libB", []);
    var libA := ArtifactNode("libA", [libB]);
    assert [libA, libB][..1] == [libA];
    assert [libA][..0] == [];
    assert [libB][..0] == [];
    assert CopiesOf([libB]) == [CopyOf(libB)];
    var first := DependencyPass([libA], {}, {});
    assert DependencyPass([], {}, {}) == Pass([], {});
    assert first.nodes == [] + [CopyOf(libA)];
    assert "libB"[3] != "libA"[3];
    assert "libB" !in Displays([libA]);
    assert "libB" !in first.added;
  }

  /** Copying keeps every artifact node, its name and its dependencies' order: ArtifactOf undoes CopyOf. */
  lemma {:induction false} CopyRoundTrip(a: ArtifactNode)
    ensures ArtifactOf(CopyOf(a)) == a
  {
    CopiesRoundTrip(a.dependencies);
  }

  lemma {:induction false} CopiesRoundTrip(s: seq<ArtifactNode>)
    ensures ArtifactsOf(CopiesOf(s)) == s
  {
    if s != [] {
      CopiesRoundTrip(s[..|s| - 1]);
      CopyRoundTrip(s[|s| - 1]);
      assert CopiesOf(s)[..|CopiesOf(s)| - 1] == CopiesOf(s[..|s| - 1]);
    }
  }

  // ---------------------------------------------------------------------------
  // The walk, as the source performs it

  /** Appends to `parentChildren` the copy of `a` and of its dependencies, without dedup (updateChildrenNodes). */
  method UpdateChildrenNodes(parentChildren: seq<Node>, a: ArtifactNode) returns (r: seq<Node>)
    ensures r == parentChildren + [CopyOf(a)]
    decreases a
  {
    var current: seq<Node> := [];
    for i := 0 to |a.dependencies|
      invariant current == CopiesOf(a.dependencies[..i])
    {
      current := UpdateChildrenNodes(current, a.dependencies[i]);
      assert a.dependencies[..i + 1][..i] == a.dependencies[..i];
    }
    assert a.dependencies[..|a.dependencies|] == a.dependencies;
    r := parentChildren + [Node(a.display, None, {}, current)];
  }

  /** Appends a module's accepted direct dependencies to its children (addMavenProjectDependencies). */
  method AddMavenProjectDependencies(children: seq<Node>, p: MavenProject, added: set<string>, moduleKeys: set<string>)
    returns (children': seq<Node>, added': set<string>)
    ensures var pass := DependencyPass(p.dependencyTree, added, moduleKeys);
      children' == children + pass.nodes && added' == pass.added
  {
    var deps := p.dependencyTree;
    children', added' := children, added;
    for i := 0 to |deps|
      invariant var pass := DependencyPass(deps[..i], added, moduleKeys);
        children' == children + pass.nodes && added' == pass.added
    {
      assert deps[..i + 1][..i] == deps[..i];
      var display := deps[i].display;
      // added.add(...) is evaluated first, so the string is recorded either way
      var isNew := display !in added';
      added' := added' + {display};
      if isNew && display !in moduleKeys {
        children' := UpdateChildrenNodes(children', deps[i]);
      }
    }
    assert deps[..|deps|] == deps;
  }

  /** Appends a module's node to `siblings`: dependencies first, then submodules (populateMavenModule). */
  method PopulateMavenModule(siblings: seq<Node>, projects: seq<MavenProject>, p: MavenProject, added: set<string>,
                             moduleKeys: set<string>, ghost height: map<string, nat>)
    returns (siblings': seq<Node>, added': set<string>)
    requires Nested(projects, height) && p in projects
    ensures var pass := ModulePass(projects, p, added, moduleKeys, height);
      siblings' == siblings + pass.nodes && added' == pass.added
    decreases height[p.file], 1
  {
    var node := PopulateMavenModuleNode(p);
    var children: seq<Node> := [];
    children, added' := AddMavenProjectDependencies(children, p, added, moduleKeys);
    ghost var deps := DependencyPass(p.dependencyTree, added, moduleKeys);
    assert children == deps.nodes;
    children, added' := AddSubmodules(children, projects, p, added', moduleKeys, height);
    siblings' := siblings + [node.(children := children)];
  }

  /** Appends the node of every module file that resolves to a project; the others are skipped (addSubmodules). */
  method AddSubmodules(children: seq<Node>, projects: seq<MavenProject>, p: MavenProject, added: set<string>,
                       moduleKeys: set<string>, ghost height: map<string, nat>)
    returns (children': seq<Node>, added': set<string>)
    requires Nested(projects, height) && p in projects
    ensures var pass := SubmodulesPass(projects, p, p.moduleFiles, added, moduleKeys, height);
      children' == children + pass.nodes && added' == pass.added
    decreases height[p.file], 0
  {
    var files := p.moduleFiles;
    children', added' := children, added;
    for i := 0 to |files|
      invariant var pass := SubmodulesPass(projects, p, files[..i], added, moduleKeys, height);
        children' == children + pass.nodes && added' == pass.added
    {
      SubmodulesPassStep(projects, p, files, i, added, moduleKeys, height);
      ghost var prev := SubmodulesPass(projects, p, files[..i], added, moduleKeys, height);
      var mavenModule := GetModuleByVirtualFile(projects, files[i]);
      if mavenModule.Some? {
        assert mavenModule.value in projects && mavenModule.value.file == files[i];
        assert height[mavenModule.value.file] < height[p.file];
        children', added' := PopulateMavenModule(children', projects, mavenModule.value, added', moduleKeys, height);
        assert children' == children + (prev.nodes + ModulePass(projects, mavenModule.value, prev.added, moduleKeys, height).nodes);
      }
    }
    assert files[..|files|] == files;
  }

  /** Builds the tree of one scan pass (buildTree). */
  method BuildTree(ws: MavenWorkspace, ghost height: map<string, nat>) returns (root: Node)
    requires WellFormed(ws, height)
    ensures root == Tree(ws, height)
  {
    var moduleKeys: set<string> := {};
    for i := 0 to |ws.projects|
      invariant moduleKeys == ModuleKeys(ws.projects[..i])
    {
      assert ws.projects[..i + 1] == ws.projects[..i] + [ws.projects[i]];
      moduleKeys := moduleKeys + {ws.projects[i].key};
    }
    assert ws.projects[..|ws.projects|] == ws.projects;
    var added: set<string> := {};
    var children: seq<Node> := [];
    for i := 0 to |ws.rootProjects|
      invariant var pass := RootsPass(ws.projects, ws.rootProjects[..i], {}, moduleKeys, height);
        children == pass.nodes && added == pass.added
    {
      assert ws.rootProjects[..i + 1][..i] == ws.rootProjects[..i];
      children, added := PopulateMavenModule(children, ws.projects, ws.rootProjects[i], added, moduleKeys, height);
    }
    assert ws.rootProjects[..|ws.rootProjects|] == ws.rootProjects;
    var rootNode := Node(ws.name, Some(RootInfo(ws)), {}, children);
    if |children| == 1 {
      root := children[0];
    } else {
      root := rootNode;
    }
  }
}
