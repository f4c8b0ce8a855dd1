/** Node's POSIX path handling as far as the image files need it:
    `path.join(process.cwd(), p)` glues the working directory and `p`
    with a '/' and normalises the result, so repeated slashes, `.`
    segments and `..` segments in `p` all lead to the same file. */
module NodePath {
  import opened JsText

  /** An absolute path as its segments below the root. */
  type FilePath = seq<string>

  /** A segment that names a directory entry. */
  predicate PlainSegment(seg: string) {
    seg != "" && seg != "." && seg != ".."
  }

  /** A normalised absolute path. */
  predicate Normal(p: FilePath) {
    forall k :: 0 <= k < |p| ==> PlainSegment(p[k])
  }

  /** One segment read from `base`: an empty or `.` segment stays, `..`
      goes up one level and stays at the root. */
  function Step(base: FilePath, seg: string): (r: FilePath)
    ensures Normal(base) ==> Normal(r)
    ensures PlainSegment(seg) ==> r == base + [seg]
    ensures |r| <= |base| + 1
  {
    if seg == "" || seg == "." then base
    else if seg == ".." then (if |base| == 0 then [] else base[..|base| - 1])
    else base + [seg]
  }

  /** The segments read from `base` one after the other. */
  function Resolve(base: FilePath, segs: seq<string>): (r: FilePath)
    ensures Normal(base) ==> Normal(r)
    ensures |r| <= |base| + |segs|
    decreases |segs|
  {
    if |segs| == 0 then base else Resolve(Step(base, segs[0]), segs[1..])
  }

  /** The segments of `path.join(cwd, p)` for an absolute working directory
      `cwd`; whether the joined path ends in a separator is
      `TrailingSeparator(p)`. */
  function JoinPath(cwd: FilePath, p: string): (r: FilePath)
    ensures Normal(cwd) ==> Normal(r)
  {
    Resolve(cwd, Split(p, '/'))
  }

  /** Whether `path.join(cwd, p)` keeps a trailing separator: `normalize`
      keeps the one its input ends with, and for a non-empty `p` the joined
      text ends as `p` does. Only a directory answers to such a path. */
  predicate TrailingSeparator(p: string) {
    |p| > 0 && p[|p| - 1] == '/'
  }

  /** A trailing separator does not change the segments reached, so
      `JoinPath` and `TrailingSeparator` together tell the paths apart. */
  lemma SeparatorAppended(cwd: FilePath, p: string)
    requires p != ""
    ensures TrailingSeparator(p + "/")
    ensures JoinPath(cwd, p + "/") == JoinPath(cwd, p)
  {
    SplitSnoc(p, '/');
    assert p + "/" == p + ['/'];
    ResolveAppend(cwd, Split(p, '/'), [""]);
  }

  /** Reading two runs of segments is reading the first, then the second. */
  lemma {:induction false} ResolveAppend(base: FilePath, a: seq<string>, b: seq<string>)
    ensures Resolve(base, a + b) == Resolve(Resolve(base, a), b)
    decreases |a|
  {
    if |a| > 0 {
      assert (a + b)[0] == a[0] && (a + b)[1..] == a[1..] + b;
      ResolveAppend(Step(base, a[0]), a[1..], b);
    } else {
      assert a + b == b;
    }
  }

  /** Plain segments are appended as they are: a normalised path resolves
      to itself. */
  lemma {:induction false} ResolvePlain(base: FilePath, segs: seq<string>)
    requires Normal(segs)
    ensures Resolve(base, segs) == base + segs
    decreases |segs|
  {
    if |segs| > 0 {
      assert Normal(segs[1..]) by {
        forall k | 0 <= k < |segs[1..]| ensures PlainSegment(segs[1..][k]) {
          assert segs[1..][k] == segs[k + 1];
        }
      }
      ResolvePlain(base + [segs[0]], segs[1..]);
      assert base + [segs[0]] + segs[1..] == base + segs;
    } else {
      assert base + segs == base;
    }
  }

  /** Going below and back up again lands where it started. */
  lemma DownAndUp(base: FilePath, seg: string)
    requires PlainSegment(seg)
    ensures Resolve(base, [seg, ".."]) == base
  {
    var segs := [seg, ".."];
    assert segs[1..] == [".."];
    assert (base + [seg])[..|base|] == base;
    assert Resolve(base + [seg], [".."]) == Resolve(base, []);
  }
}
