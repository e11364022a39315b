/**
 * The dependency-tree node shared by the tree builders and the issues view
 * (the library class `DependenciesTree` with its `GeneralInfo`).
 */
module DependencyTree {
  import opened Wrappers

  /** Metadata of a node; a field the source never sets is the empty string. */
  datatype GeneralInfo = GeneralInfo(
    groupId: string,
    artifactId: string,
    version: string,
    path: string,
    pkgType: string)

  /** A vulnerability reported by the scan service. */
  datatype Issue = Issue(component: string, severity: string, summary: string)

  /**
   * A node of a dependency tree. `info` is `None` where the general info is
   * filled in by code outside this model (library dependencies).
   */
  datatype Node = Node(
    name: string,
    info: Option<GeneralInfo>,
    issues: set<Issue>,
    children: seq<Node>)

  const MavenPkgType := "maven"
}
