/** getExamplePaths: the walk over the examples tree that decides which manifests
    become test cases. */
module ExampleWalk {
  import opened Wrappers
  import opened FilePath

  /** A directory entry as `filepath.Walk` sees it. A directory's children are listed
      in the order Walk visits them (lexical order of their names); a file has none. */
  datatype Node = Node(name: string, isDir: bool, children: seq<Node>)

  /** The optional TEST_EXAMPLES_IGNORES pattern, as the predicate "the pattern
      matches somewhere in this path". */
  type IgnorePattern = Option<string -> bool>

  predicate Ignored(ignore: IgnorePattern, path: string) {
    ignore.Some? && ignore.value(path)
  }

  // ---------------------------------------------------------------------------
  // Specification

  /** The manifest paths under `n`, which sits at `path`, in walk order: `.yaml`
      files not matched by the ignore pattern, outside any `no-ci` directory. */
  function Collect(n: Node, path: string, ignore: IgnorePattern): (paths: seq<string>)
    decreases n, 1
  {
    if !n.isDir then
      if EndsWith(n.name, ".yaml") && !Ignored(ignore, path) then [path] else []
    else if n.name == "no-ci" then []
    else CollectChildren(n, |n.children|, path, ignore)
  }

  /** The manifests under the first `k` children of directory `n`. */
  function CollectChildren(n: Node, k: nat, path: string, ignore: IgnorePattern): (paths: seq<string>)
    requires k <= |n.children|
    decreases n, 0, k
  {
    if k == 0 then []
    else
      var c := n.children[k - 1];
      CollectChildren(n, k - 1, path, ignore) + Collect(c, path + "/" + c.name, ignore)
  }

  /** `p` is a path the walk should report: it names a `.yaml` file that the ignore
      pattern does not match, and no directory on its route from `n` is `no-ci`. */
  ghost predicate Eligible(n: Node, path: string, p: string, ignore: IgnorePattern)
    decreases n
  {
    if !n.isDir then p == path && EndsWith(n.name, ".yaml") && !Ignored(ignore, p)
    else n.name != "no-ci" &&
         exists j :: 0 <= j < |n.children| && Eligible(n.children[j], path + "/" + n.children[j].name, p, ignore)
  }

  /** Entry names as a file system gives them: no separator in a name, and no two
      entries of one directory with the same name. */
  ghost predicate WellFormed(n: Node)
    decreases n
  {
    '/' !in n.name &&
    (forall i, j :: 0 <= i < j < |n.children| ==> n.children[i].name != n.children[j].name) &&
    (forall i :: 0 <= i < |n.children| ==> WellFormed(n.children[i]))
  }

  ghost predicate Distinct(s: seq<string>) {
    forall i, j :: 0 <= i < j < |s| ==> s[i] != s[j]
  }

  /** `p` is `path` itself or lies below it. */
  ghost predicate Under(p: string, path: string) {
    p == path || (|path| < |p| && p[..|path|] == path && p[|path|] == '/')
  }

  // ---------------------------------------------------------------------------
  // The walk (lines 171-208)

  datatype Visit = Visit(skipDir: bool, added: Option<string>)

  /** The callback passed to `filepath.Walk`: whether to prune the directory, and
      the path appended to `examplePaths`, if any. */
  function WalkCallback(name: string, isDir: bool, path: string, ignore: IgnorePattern): (v: Visit)
    ensures v.skipDir <==> isDir && name == "no-ci"
    ensures v.added.Some? <==> !isDir && EndsWith(name, ".yaml") && !Ignored(ignore, path)
    ensures v.added.Some? ==> v.added.value == path
  {
    ExtIsYaml(name);
    if name == "examples" && isDir then Visit(false, None)
    else if name == "no-ci" && isDir then Visit(true, None)
    else if !isDir && Ext(name) == ".yaml" then
      if ignore.Some? && ignore.value(path) then Visit(false, None)
      else Visit(false, Some(path))
    else Visit(false, None)
  }

  /** `filepath.Walk(path, callback)` with the callback appending to `examplePaths`:
      visits `n`, then, unless pruned, its children in order. */
  method Walk(n: Node, path: string, ignore: IgnorePattern, examplePaths: seq<string>)
    returns (result: seq<string>)
    ensures result == examplePaths + Collect(n, path, ignore)
    decreases n
  {
    var v := WalkCallback(n.name, n.isDir, path, ignore);
    result := examplePaths;
    if v.added.Some? {
      result := result + [v.added.value];
    }
    if n.isDir && !v.skipDir {
      var i := 0;
      while i < |n.children|
        invariant 0 <= i <= |n.children|
        invariant result == examplePaths + CollectChildren(n, i, path, ignore)
      {
        var c := n.children[i];
        result := Walk(c, path + "/" + c.name, ignore, result);
        i := i + 1;
      }
    }
  }

  /** `getExamplePaths(t, dir)`: every eligible manifest under `root`, in walk order,
      and each of them once. */
  method GetExamplePaths(root: Node, dir: string, ignore: IgnorePattern) returns (examplePaths: seq<string>)
    ensures examplePaths == Collect(root, dir, ignore)
    ensures forall p :: p in examplePaths <==> Eligible(root, dir, p, ignore)
    ensures WellFormed(root) ==> Distinct(examplePaths)
  {
    examplePaths := Walk(root, dir, ignore, []);
    forall p ensures p in examplePaths <==> Eligible(root, dir, p, ignore) {
      CollectIsEligible(root, dir, p, ignore);
    }
    if WellFormed(root) {
      CollectDistinct(root, dir, ignore);
    }
  }

  // ---------------------------------------------------------------------------
  // Properties

  lemma {:induction false} CollectChildrenMembers(n: Node, k: nat, path: string, p: string, ignore: IgnorePattern)
    requires k <= |n.children|
    ensures p in CollectChildren(n, k, path, ignore) <==>
              exists j :: 0 <= j < k && p in Collect(n.children[j], path + "/" + n.children[j].name, ignore)
    decreases k
  {
    if k > 0 {
      CollectChildrenMembers(n, k - 1, path, p, ignore);
    }
  }

  /** The walk reports exactly the eligible paths. */
  lemma {:induction false} CollectIsEligible(n: Node, path: string, p: string, ignore: IgnorePattern)
    ensures p in Collect(n, path, ignore) <==> Eligible(n, path, p, ignore)
    decreases n
  {
    if n.isDir && n.name != "no-ci" {
      CollectChildrenMembers(n, |n.children|, path, p, ignore);
      forall j | 0 <= j < |n.children|
        ensures p in Collect(n.children[j], path + "/" + n.children[j].name, ignore)
                <==> Eligible(n.children[j], path + "/" + n.children[j].name, p, ignore)
      {
        CollectIsEligible(n.children[j], path + "/" + n.children[j].name, p, ignore);
      }
    }
  }

  lemma UnderChild(p: string, path: string, name: string)
    requires Under(p, path + "/" + name)
    ensures Under(p, path)
  {
    var q := path + "/" + name;
    assert q[..|path|] == path && q[|path|] == '/';
    if p != q {
      assert p[..|q|] == q;
      assert p[..|path|] == p[..|q|][..|path|];
    }
  }

  /** Every reported path lies below the directory the walk started from. */
  lemma {:induction false} CollectUnder(n: Node, path: string, p: string, ignore: IgnorePattern)
    ensures p in Collect(n, path, ignore) ==> Under(p, path)
    decreases n
  {
    if p in Collect(n, path, ignore) && n.isDir {
      CollectChildrenMembers(n, |n.children|, path, p, ignore);
      var j :| 0 <= j < |n.children| && p in Collect(n.children[j], path + "/" + n.children[j].name, ignore);
      CollectUnder(n.children[j], path + "/" + n.children[j].name, p, ignore);
      UnderChild(p, path, n.children[j].name);
    }
  }

  /** No path lies below two sibling entries with different names. */
  lemma SiblingsDisjoint(p: string, path: string, a: string, b: string)
    requires '/' !in a && '/' !in b && a != b
    ensures !(Under(p, path + "/" + a) && Under(p, path + "/" + b))
  {
    if |a| <= |b| {
      ShorterSiblingDisjoint(p, path, a, b);
    } else {
      ShorterSiblingDisjoint(p, path, b, a);
    }
  }

  lemma ShorterSiblingDisjoint(p: string, path: string, a: string, b: string)
    requires '/' !in a && '/' !in b && a != b && |a| <= |b|
    ensures !(Under(p, path + "/" + a) && Under(p, path + "/" + b))
  {
    var d := |path| + 1;
    var pa, pb := path + "/" + a, path + "/" + b;
    if Under(p, pb) {
      assert p[..d + |b|] == pb;
      if |a| == |b| {
        assert p[..d + |a|] != pa by {
          assert pa[d..] == a && pb[d..] == b;
        }
      } else {
        assert p[d + |a|] == b[|a|];
        assert b[|a|] in b;
      }
    }
  }

  lemma DistinctAppend(s: seq<string>, t: seq<string>)
    requires Distinct(s) && Distinct(t)
    requires forall x :: x in s ==> x !in t
    ensures Distinct(s + t)
  {
    forall i, j | 0 <= i < j < |s + t| ensures (s + t)[i] != (s + t)[j] {
      if i < |s| && |s| <= j {
        assert (s + t)[i] in s && (s + t)[j] in t;
      }
    }
  }

  /** In a well-formed tree the walk reports each path once. */
  lemma {:induction false} CollectDistinct(n: Node, path: string, ignore: IgnorePattern)
    requires WellFormed(n)
    ensures Distinct(Collect(n, path, ignore))
    decreases n, 1
  {
    if n.isDir && n.name != "no-ci" {
      CollectChildrenDistinct(n, |n.children|, path, ignore);
    }
  }

  lemma {:induction false} CollectChildrenDistinct(n: Node, k: nat, path: string, ignore: IgnorePattern)
    requires WellFormed(n) && k <= |n.children|
    ensures Distinct(CollectChildren(n, k, path, ignore))
    decreases n, 0, k
  {
    if k > 0 {
      var c := n.children[k - 1];
      var cpath := path + "/" + c.name;
      CollectChildrenDistinct(n, k - 1, path, ignore);
      CollectDistinct(c, cpath, ignore);
      forall x | x in CollectChildren(n, k - 1, path, ignore)
        ensures x !in Collect(c, cpath, ignore)
      {
        CollectChildrenMembers(n, k - 1, path, x, ignore);
        var j :| 0 <= j < k - 1 && x in Collect(n.children[j], path + "/" + n.children[j].name, ignore);
        CollectUnder(n.children[j], path + "/" + n.children[j].name, x, ignore);
        CollectUnder(c, cpath, x, ignore);
        assert WellFormed(n.children[j]) && WellFormed(c);
        SiblingsDisjoint(x, path, n.children[j].name, c.name);
      }
      DistinctAppend(CollectChildren(n, k - 1, path, ignore), Collect(c, cpath, ignore));
    }
  }
}
