/**
 * Go's `path/filepath` as rmtrash uses it on macOS, where the only path
 * separator is '/' and there are no volume names: `Split` cuts a path after
 * its last separator and `Ext` is the suffix that starts at the last '.'
 * of the final element.
 */
module PathNames {

  /** Index of the last '/' in `p`, or -1 when `p` has none. */
  function LastSeparator(p: string): (i: int)
    ensures -1 <= i < |p|
    ensures 0 <= i ==> p[i] == '/'
    ensures forall k :: i < k < |p| ==> p[k] != '/'
  {
    if p == [] then -1
    else if p[|p| - 1] == '/' then |p| - 1
    else LastSeparator(p[..|p| - 1])
  }

  /**
   * `filepath.Split`: the directory part keeps its trailing separator, the
   * file part is everything after the last separator.
   */
  function Split(p: string): (r: (string, string))
    ensures |r.0| <= |p| && r.0 == p[..|r.0|] && r.1 == p[|r.0|..]
    ensures '/' !in r.1
    ensures r.0 == [] || r.0[|r.0| - 1] == '/'
  {
    var i := LastSeparator(p);
    (p[..i + 1], p[i + 1..])
  }

  /** The final element of `p`, the second result of `filepath.Split`. */
  function Base(p: string): (b: string)
    ensures '/' !in b
    ensures |b| <= |p| && b == p[|p| - |b|..]
  {
    Split(p).1
  }

  /**
   * Index of the '.' that `filepath.Ext` stops at: it scans from the end
   * and gives up at the first separator; -1 when no '.' is found.
   */
  function LastDot(p: string): (i: int)
    ensures -1 <= i < |p|
    ensures 0 <= i ==> p[i] == '.'
    ensures 0 <= i ==> forall k :: i < k < |p| ==> p[k] != '.' && p[k] != '/'
    ensures i == -1 ==> forall k :: LastSeparator(p) < k < |p| ==> p[k] != '.'
  {
    if p == [] then -1
    else if p[|p| - 1] == '.' then |p| - 1
    else if p[|p| - 1] == '/' then -1
    else LastDot(p[..|p| - 1])
  }

  /**
   * `filepath.Ext`: the suffix of the final element from its last '.' on,
   * or empty. A leading dot is not special, so `.bashrc` is all extension.
   */
  function Ext(p: string): (e: string)
    ensures |e| <= |p| && e == p[|p| - |e|..]
    ensures e == [] || (e[0] == '.' && '.' !in e[1..] && '/' !in e)
  {
    var i := LastDot(p);
    if i < 0 then [] else p[i..]
  }

  /** The file name without its extension: `file[0 : len(file)-len(fext)]`. */
  function Stem(file: string): (s: string)
    ensures |s| + |Ext(file)| == |file| && s == file[..|s|] && Ext(file) == file[|s|..]
  {
    file[..|file| - |Ext(file)|]
  }

  /** Stem and extension put back together give the file name. */
  lemma StemExtJoin(file: string)
    ensures Stem(file) + Ext(file) == file
  {
  }

  /** A name without separators splits into a stem and extension without separators. */
  lemma StemExtNoSeparator(file: string)
    requires '/' !in file
    ensures '/' !in Stem(file) && '/' !in Ext(file)
  {
  }

  /** Split is determined by its three properties: a directory part ending in '/' and a file part without one. */
  lemma {:induction false} SplitUnique(p: string, dir: string, file: string)
    requires p == dir + file && '/' !in file
    requires dir == [] || dir[|dir| - 1] == '/'
    ensures Split(p) == (dir, file)
  {
    var i := LastSeparator(p);
    assert forall k :: |dir| <= k < |p| ==> p[k] == file[k - |dir|];
    if dir != [] {
      assert p[|dir| - 1] == '/';
    }
    assert i == |dir| - 1;
  }

  /** For a name without a separator, the extension is empty exactly when the name has no '.'. */
  lemma ExtEmptyIff(file: string)
    requires '/' !in file
    ensures Ext(file) == [] <==> '.' !in file
  {
  }

  /** Whatever ends with a '.' followed by text without '.' or '/' has that as its extension. */
  lemma {:induction false} ExtOfSuffix(a: string, e: string)
    requires e != [] && e[0] == '.' && '.' !in e[1..] && '/' !in e
    ensures Ext(a + e) == e
    decreases |e|
  {
    var p := a + e;
    if |e| == 1 {
      assert p[|p| - 1] == '.';
    } else {
      var last := e[|e| - 1];
      assert last in e[1..];
      assert p[|p| - 1] == last;
      var e' := e[..|e| - 1];
      assert e'[1..] == e[1..|e| - 1];
      assert p[..|p| - 1] == a + e';
      ExtOfSuffix(a, e');
      assert LastDot(p) == LastDot(p[..|p| - 1]) == |a|;
    }
  }
}
