/** `filepath.Ext` from Go's path/filepath package, which the walk callback uses to
    recognise manifests. */
module FilePath {

  predicate EndsWith(s: string, suffix: string) {
    |suffix| <= |s| && s[|s| - |suffix|..] == suffix
  }

  /** The suffix of `path[..i]`'s last element that starts at its last dot, scanning
      back from `i`; empty when the element has no dot. */
  function ExtBefore(path: string, i: nat): (e: string)
    requires i <= |path|
    ensures e == [] || exists j :: 0 <= j < i && path[j] == '.' && e == path[j..] &&
                                   forall k :: j < k < i ==> path[k] != '.' && path[k] != '/'
    ensures e == [] ==> forall k :: 0 <= k < i && path[k] == '.' ==> exists j :: k < j < i && path[j] == '/'
    decreases i
  {
    if i == 0 || path[i - 1] == '/' then []
    else if path[i - 1] == '.' then path[i - 1..]
    else ExtBefore(path, i - 1)
  }

  /** `filepath.Ext(path)`: the extension, from the final dot of the final element;
      it is empty or a dot followed by neither dots nor separators, ending the path,
      and it is empty only when every dot is followed by a separator. */
  function Ext(path: string): (r: string)
    ensures r == [] || (r[0] == '.' && EndsWith(path, r) && forall k :: 0 < k < |r| ==> r[k] != '.' && r[k] != '/')
    ensures r == [] ==> forall k :: 0 <= k < |path| && path[k] == '.' ==> exists j :: k < j < |path| && path[j] == '/'
  {
    var e := ExtBefore(path, |path|);
    assert e != [] ==> forall k :: 0 < k < |e| ==> e[k] != '.' && e[k] != '/' by {
      if e != [] {
        var j :| 0 <= j < |path| && path[j] == '.' && e == path[j..] &&
                 forall k :: j < k < |path| ==> path[k] != '.' && path[k] != '/';
        forall k | 0 < k < |e| ensures e[k] != '.' && e[k] != '/' {
          assert e[k] == path[j + k];
        }
      }
    }
    e
  }

  /** The walk callback's test `filepath.Ext(name) == ".yaml"` holds exactly for names
      ending in ".yaml". */
  lemma ExtIsYaml(name: string)
    ensures Ext(name) == ".yaml" <==> EndsWith(name, ".yaml")
  {
    if EndsWith(name, ".yaml") {
      YamlNameHasYamlExt(name);
    }
    if Ext(name) == ".yaml" {
      var j :| 0 <= j < |name| && name[j] == '.' && ".yaml" == name[j..];
      assert |name| - j == 5;
    }
  }

  /** Scanning back over characters that are neither '.' nor '/' reaches the dot at
      `d`. */
  lemma {:induction false} ExtBeforeSkips(path: string, d: nat, i: nat)
    requires d < i <= |path| && path[d] == '.'
    requires forall k :: d < k < i ==> path[k] != '.' && path[k] != '/'
    ensures ExtBefore(path, i) == path[d..]
    decreases i
  {
    if i - 1 != d {
      ExtBeforeSkips(path, d, i - 1);
    }
  }

  lemma YamlNameHasYamlExt(name: string)
    requires EndsWith(name, ".yaml")
    ensures Ext(name) == ".yaml"
  {
    var d := |name| - 5;
    assert name[d..] == ".yaml";
    forall k | d < k < |name| ensures name[k] != '.' && name[k] != '/' {
      assert name[k] == ".yaml"[k - d];
    }
    ExtBeforeSkips(name, d, |name|);
  }
}
