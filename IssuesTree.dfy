/**
 * The issues view's filter entry point and its issue counter (IssuesTree.java).
 *
 * The count shown above the tree is the sum of the sizes of the distinct
 * issue sets among the root's children: children whose issue sets are equal
 * are counted once. The library calls the view makes (cloning a tree, the
 * filter manager, re-aggregating a tree's issues, publishing a filtered
 * project) are passed in as functions.
 */
module IssuesView {
  import opened Wrappers
  import opened DependencyTree

  /** The key of a scanned project in the view's project map. */
  datatype ProjectKey = ProjectKey(name: string, path: string)

  // ---------------------------------------------------------------- count

  /** No element occurs twice. */
  predicate NoDuplicates(ss: seq<set<Issue>>)
  {
    forall i, j :: 0 <= i < j < |ss| ==> ss[i] != ss[j]
  }

  /** The issue sets of the children, in order. */
  function IssueSets(children: seq<Node>): (ss: seq<set<Issue>>)
    ensures |ss| == |children|
    ensures forall i :: 0 <= i < |children| ==> ss[i] == children[i].issues
  {
    if children == [] then []
    else IssueSets(children[..|children| - 1]) + [children[|children| - 1].issues]
  }

  /** Stream `distinct()`: the first occurrence of each set, in order. */
  function DistinctSets(ss: seq<set<Issue>>): (r: seq<set<Issue>>)
    ensures NoDuplicates(r)
    ensures forall x :: x in r <==> x in ss
    ensures |r| <= |ss|
  {
    if ss == [] then []
    else
      var prefix := DistinctSets(ss[..|ss| - 1]);
      var last := ss[|ss| - 1];
      if last in ss[..|ss| - 1] then prefix else prefix + [last]
  }

  /** The sum of the sizes of the sets. */
  function SumSizes(ss: seq<set<Issue>>): nat
  {
    if ss == [] then 0 else SumSizes(ss[..|ss| - 1]) + |ss[|ss| - 1]|
  }

  /** calculateIssuesCount: the sum of the sizes of the distinct issue sets of the children. */
  function IssuesCount(children: seq<Node>): nat
  {
    SumSizes(DistinctSets(IssueSets(children)))
  }

  /** Every issue of some child. */
  function AllIssues(children: seq<Node>): (u: set<Issue>)
    ensures forall i :: 0 <= i < |children| ==> children[i].issues <= u
  {
    if children == [] then {}
    else AllIssues(children[..|children| - 1]) + children[|children| - 1].issues
  }

  lemma IssueSetsSnoc(children: seq<Node>, c: Node)
    ensures IssueSets(children + [c]) == IssueSets(children) + [c.issues]
  {
    assert (children + [c])[..|children|] == children;
  }

  /**
   * Adding a child adds the size of its issue set, unless an earlier child
   * has an equal issue set, in which case the count is unchanged.
   */
  lemma IssuesCountSnoc(children: seq<Node>, c: Node)
    ensures IssuesCount(children + [c]) ==
      IssuesCount(children) + if c.issues in IssueSets(children) then 0 else |c.issues|
  {
    IssueSetsSnoc(children, c);
    var ss := IssueSets(children);
    var ss' := ss + [c.issues];
    assert ss'[..|ss'| - 1] == ss;
    var d := DistinctSets(ss);
    assert (d + [c.issues])[..|d|] == d;
  }

  /** The empty root counts no issues. */
  lemma IssuesCountEmpty()
    ensures IssuesCount([]) == 0
  {
  }

  /** Two children: equal issue sets are counted once, unequal (even overlapping) ones both. */
  lemma IssuesCountPair(a: Node, b: Node)
    ensures IssuesCount([a, b]) == if a.issues == b.issues then |a.issues| else |a.issues| + |b.issues|
  {
    IssuesCountSnoc([], a);
    assert [] + [a] == [a];
    IssuesCountSnoc([a], b);
    assert [a] + [b] == [a, b];
    assert IssueSets([a]) == [a.issues];
  }

  /** The count is at most the plain sum of the sizes of the children's issue sets. */
  lemma {:induction false} IssuesCountAtMostSum(children: seq<Node>)
    ensures IssuesCount(children) <= SumSizes(IssueSets(children))
  {
    if children != [] {
      var prefix := children[..|children| - 1];
      var c := children[|children| - 1];
      assert prefix + [c] == children;
      IssuesCountAtMostSum(prefix);
      IssuesCountSnoc(prefix, c);
      IssueSetsSnoc(prefix, c);
      var ss := IssueSets(prefix) + [c.issues];
      assert ss[..|ss| - 1] == IssueSets(prefix);
    }
  }

  /** Adding a subset adds nothing. */
  lemma UnionOfSubset(u: set<Issue>, c: set<Issue>)
    requires c <= u
    ensures |u + c| == |u|
  {
    assert u + c == u;
  }

  /** A union is no larger than its two parts together. */
  lemma UnionSize(u: set<Issue>, c: set<Issue>)
    ensures |u + c| <= |u| + |c|
  {
    assert |u + c| + |u * c| == |u| + |c|;
  }

  /** The count is at least the number of distinct issues among the children. */
  lemma {:induction false} IssuesCountAtLeastUnion(children: seq<Node>)
    ensures |AllIssues(children)| <= IssuesCount(children)
  {
    if children != [] {
      var prefix := children[..|children| - 1];
      var c := children[|children| - 1];
      assert prefix + [c] == children;
      IssuesCountAtLeastUnion(prefix);
      IssuesCountSnoc(prefix, c);
      var u := AllIssues(prefix);
      assert AllIssues(children) == u + c.issues;
      if c.issues in IssueSets(prefix) {
        var i :| 0 <= i < |prefix| && IssueSets(prefix)[i] == c.issues;
        UnionOfSubset(u, c.issues);
      } else {
        UnionSize(u, c.issues);
      }
    }
  }

  // ---------------------------------------------------------------- label

  /** The character of a decimal digit. */
  function DigitChar(d: nat): (c: char)
    requires d < 10
    ensures '0' <= c <= '9' && c as int - '0' as int == d
  {
    ('0' as int + d) as char
  }

  /** Decimal text without leading zeros, as Java's string concatenation renders an int. */
  function NatToString(n: nat): (s: string)
    ensures |s| >= 1
    ensures forall i :: 0 <= i < |s| ==> '0' <= s[i] <= '9'
    ensures s[0] == '0' ==> n == 0 && s == "0"
    decreases n
  {
    if n < 10 then [DigitChar(n)] else NatToString(n / 10) + [DigitChar(n % 10)]
  }

  /** The value of a string of decimal digits. */
  function DigitsValue(s: string): nat
    requires forall i :: 0 <= i < |s| ==> '0' <= s[i] <= '9'
  {
    if s == [] then 0 else DigitsValue(s[..|s| - 1]) * 10 + (s[|s| - 1] as int - '0' as int)
  }

  /** Reading the digits back gives the number. */
  lemma {:induction false} NatToStringRoundTrip(n: nat)
    ensures DigitsValue(NatToString(n)) == n
    decreases n
  {
    var s := NatToString(n);
    if n < 10 {
      assert s[..0] == [];
    } else {
      NatToStringRoundTrip(n / 10);
      assert s[..|s| - 1] == NatToString(n / 10);
    }
  }

  /** The text of the count label. */
  function LabelText(n: nat): string
  {
    "Issues (" + NatToString(n) + ") "
  }

  /** The count a label shows, or None when the text is not a count label. */
  function CountInLabel(text: string): Option<nat>
  {
    if |text| >= 11 && text[..8] == "Issues (" && text[|text| - 2..] == ") " then
      var digits := text[8..|text| - 2];
      if forall i :: 0 <= i < |digits| ==> '0' <= digits[i] <= '9' then Some(DigitsValue(digits)) else None
    else None
  }

  /** The label shows exactly the count it was made from. */
  lemma LabelRoundTrip(n: nat)
    ensures CountInLabel(LabelText(n)) == Some(n)
  {
    var text := LabelText(n);
    assert text[..8] == "Issues (";
    assert text[|text| - 2..] == ") ";
    assert text[8..|text| - 2] == NatToString(n);
    NatToStringRoundTrip(n);
  }

  /** Different counts give different labels. */
  lemma LabelTextInjective(m: nat, n: nat)
    requires LabelText(m) == LabelText(n)
    ensures m == n
  {
    LabelRoundTrip(m);
    LabelRoundTrip(n);
  }

  /** The text written on reset is the label of a zero count. */
  lemma ResetTextIsZeroCount()
    ensures CountInLabel("Issues (0) ") == Some(0)
  {
    assert "Issues (0) " == LabelText(0);
    LabelRoundTrip(0);
  }

  // ---------------------------------------------------------------- view

  class IssuesTree {
    var projects: map<ProjectKey, Node>
    var root: Node                          // the root of the tree model
    var countLabel: Option<string>          // the text of the count label; None while it is not set
    var countPanel: Option<seq<string>>     // the count panel's components; None while it is not set

    constructor (projects: map<ProjectKey, Node>, root: Node, countLabel: Option<string>, countPanel: Option<seq<string>>)
      ensures this.projects == projects && this.root == root
      ensures this.countLabel == countLabel && this.countPanel == countPanel
    {
      this.projects, this.root := projects, root;
      this.countLabel, this.countPanel := countLabel, countPanel;
    }

    /** Writes the count of the root's children on the text (when there is one). */
    method CalculateIssuesCount()
      modifies this`countLabel
      ensures old(countLabel).Some? ==> countLabel == Some(LabelText(IssuesCount(root.children)))
      ensures old(countLabel).None? ==> countLabel == None
    {
      if countLabel.Some? {
        var sum := IssuesCount(root.children);
        countLabel := Some(LabelText(sum));
      }
    }

    /**
     * Re-filters one project: a clone of the stored project, with its issues
     * cleared, is filtered, its issues are recomputed from the filtered tree,
     * it is published, and the count is recalculated. An unknown key changes
     * nothing.
     */
    method ApplyFilters(projectKey: ProjectKey, clone: Node -> Node, filter: (Node, Node) -> Node,
                        processTreeIssues: Node -> set<Issue>, appendProjectWhenReady: (Node, Node) -> Node)
      modifies this`root, this`countLabel
      ensures projects == old(projects) && countPanel == old(countPanel)
      ensures projectKey !in projects ==> root == old(root) && countLabel == old(countLabel)
      ensures projectKey in projects ==>
        var project := projects[projectKey];
        var cleared := clone(project).(issues := {});
        var filtered := filter(project, cleared);
        && root == appendProjectWhenReady(old(root), filtered.(issues := processTreeIssues(filtered)))
        && countLabel == if old(countLabel).Some? then Some(LabelText(IssuesCount(root.children))) else None
    {
      if projectKey !in projects {
        return;
      }
      var project := projects[projectKey];
      var filteredRoot := clone(project);
      filteredRoot := filteredRoot.(issues := {});
      filteredRoot := filter(project, filteredRoot);
      filteredRoot := filteredRoot.(issues := processTreeIssues(filteredRoot));
      root := appendProjectWhenReady(root, filteredRoot);
      CalculateIssuesCount();
    }

    /** Sets the label to a zero count and empties the panel, only when both exist. */
    method ResetIssuesCountPanels()
      modifies this`countLabel, this`countPanel
      ensures old(countLabel).Some? && old(countPanel).Some? ==> countLabel == Some("Issues (0) ") && countPanel == Some([])
      ensures old(countLabel).None? || old(countPanel).None? ==>
        countLabel == old(countLabel) && countPanel == old(countPanel)
    {
      if countLabel.Some? && countPanel.Some? {
        countLabel := Some("Issues (0) ");
        countPanel := Some([]);
      }
    }
  }
}
