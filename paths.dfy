/** POSIX path handling as `os.path` and `zipfile` do it, on path strings.
    Paths are compared as strings: `normpath`/`abspath` are not modelled. */
module Paths {
  import opened Strings

  /** `os.path.join(a, b)` on POSIX: an absolute `b` replaces `a`; otherwise one
      `/` is put between them unless `a` is empty or already ends with one. */
  function Join(a: string, b: string): string
  {
    if |b| > 0 && b[0] == '/' then b
    else if a == [] || a[|a| - 1] == '/' then a + b
    else a + "/" + b
  }

  /** The shapes `Join` produces: `b` itself when absolute, else `a` and `b`
      with exactly one separator between them (none when `a` is empty or
      already ends in `/`); `b` is always a suffix of the result. */
  lemma JoinShape(a: string, b: string)
    ensures StartsWith(b, "/") ==> Join(a, b) == b
    ensures !StartsWith(b, "/") ==> (Join(a, b) == a + b || Join(a, b) == a + "/" + b)
    ensures !StartsWith(b, "/") && a != [] && !EndsWith(a, "/") ==> Join(a, b) == a + "/" + b
    ensures EndsWith(Join(a, b), b)
  {
    var p := Join(a, b);
    if !(|b| > 0 && b[0] == '/') {
      if a == [] || a[|a| - 1] == '/' {
        assert p[|p| - |b|..] == b;
      } else {
        assert p[|p| - |b|..] == b;
      }
    }
  }

  /** `os.path.basename(p)`: the text after the last `/`. */
  function Basename(p: string): (r: string)
    ensures '/' !in r && EndsWith(p, r)
  {
    LastSegment(p, '/')
  }

  lemma LastSegmentAfterSep(x: string, n: string)
    requires '/' !in n
    requires x == [] || x[|x| - 1] == '/'
    ensures LastSegment(x + n, '/') == n
  {
    var s := x + n;
    assert s[|x|..] == n;
  }

  /** A file put into a directory under a plain name is found again by its basename:
      the flattened destination `join(dir, basename(entry))` has basename `basename(entry)`. */
  lemma BasenameOfJoin(dir: string, name: string)
    requires '/' !in name
    ensures Basename(Join(dir, name)) == name
  {
    if dir == [] || dir[|dir| - 1] == '/' {
      LastSegmentAfterSep(dir, name);
    } else {
      LastSegmentAfterSep(dir + "/", name);
      assert dir + "/" + name == (dir + "/") + name;
    }
  }

  /** A path component that `zipfile` keeps when it extracts a member. */
  predicate PlainComponent(c: string) { c != "" && c != "." && c != ".." }

  function PlainComponents(parts: seq<string>): (r: seq<string>)
    ensures forall k :: 0 <= k < |r| ==> PlainComponent(r[k])
    ensures (forall k :: 0 <= k < |parts| ==> PlainComponent(parts[k])) ==> r == parts
  {
    if parts == [] then []
    else if PlainComponent(parts[0]) then [parts[0]] + PlainComponents(parts[1..])
    else PlainComponents(parts[1..])
  }

  /** The member path `zipfile.extract` writes under: empty, `.` and `..`
      components are dropped (so nothing escapes the target directory). */
  function SanitizedMember(name: string): (r: string)
  {
    Strings.Join("/", PlainComponents(Split(name, '/')))
  }

  predicate PlainMemberName(name: string)
  {
    var parts := Split(name, '/');
    forall k :: 0 <= k < |parts| ==> PlainComponent(parts[k])
  }

  /** For an ordinary member name (no empty, `.` or `..` component) the
      sanitised name is the name itself. */
  lemma SanitizedPlainMember(name: string)
    requires PlainMemberName(name)
    ensures SanitizedMember(name) == name
  {
    JoinSplit(name, '/');
  }

  /** Where `zipfile.extract(name, path=dir)` puts the member's bytes. */
  function ExtractTarget(dir: string, name: string): (p: string)
    ensures PlainMemberName(name) ==> p == Join(dir, name)
  {
    var p := Join(dir, SanitizedMember(name));
    if PlainMemberName(name) then SanitizedPlainMember(name); p else p
  }
}
