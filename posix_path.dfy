/**
 * Node's `path` module (posix flavour) on '/'-separated strings: `dirname`,
 * `basename`, `extname`, `basename(p, ext)` and `join(dir, name)`. Node strips
 * trailing '/' and keeps a leading "//" before it looks for the last '/'; these
 * functions do not, so they agree with Node on paths with neither.
 */
module PosixPath {

  /** `s.lastIndexOf(c)`: the index of the last `c` in `s`, or -1 when there is none. */
  function LastIndex(s: string, c: char): int {
    if s == [] then -1 else if s[|s| - 1] == c then |s| - 1 else LastIndex(s[..|s| - 1], c)
  }

  /** The index is -1 or an occurrence of `c`, and no `c` follows it. */
  lemma {:induction false} LastIndexSpec(s: string, c: char)
    ensures var i := LastIndex(s, c);
            && -1 <= i < |s|
            && (i >= 0 ==> s[i] == c)
            && forall j :: i < j < |s| ==> s[j] != c
  {
    if s != [] && s[|s| - 1] != c {
      LastIndexSpec(s[..|s| - 1], c);
    }
  }

  /** `path.basename(p)`: the text after the last '/'. */
  function Basename(p: string): (b: string)
    ensures '/' !in b
    ensures |b| <= |p| && b == p[|p| - |b|..]
  {
    LastIndexSpec(p, '/');
    p[LastIndex(p, '/') + 1..]
  }

  /** `path.dirname(p)`: the text before the last '/', "/" at the root and "." for a bare name. */
  function Dirname(p: string): (d: string)
    ensures d != ""
  {
    LastIndexSpec(p, '/');
    var i := LastIndex(p, '/');
    if i < 0 then "." else if i == 0 then "/" else p[..i]
  }

  /** `path.join(dir, name)`: "." disappears, the root gets no second '/'. */
  function Join(dir: string, name: string): string {
    if dir == "." then name else if dir == "/" then "/" + name else dir + "/" + name
  }

  /**
   * The extension of a file name: from its last '.' to its end, or "" when the
   * name has no '.', its only '.' leads it (a hidden file such as ".bashrc") or it is "..".
   */
  function NameExtension(name: string): string {
    LastIndexSpec(name, '.');
    var i := LastIndex(name, '.');
    if i <= 0 || name == ".." then "" else name[i..]
  }

  /** `path.extname(p)`: the extension of the base name. */
  function Extname(p: string): string {
    NameExtension(Basename(p))
  }

  /** `path.basename(p, path.extname(p))`: the base name without its last extension. */
  function Stem(p: string): (s: string)
  {
    var name := Basename(p);
    NameExtensionShape(name);
    name[..|name| - |NameExtension(name)|]
  }

  /** The extension of a name ends it, and is "" or one '.' and no other after a non-empty head. */
  lemma NameExtensionShape(name: string)
    ensures var e := NameExtension(name);
            |e| <= |name| && e == name[|name| - |e|..]
            && (e == "" || (e[0] == '.' && '.' !in e[1..] && |e| < |name|))
  {
    LastIndexSpec(name, '.');
    var i := LastIndex(name, '.');
    if !(i <= 0 || name == "..") {
      assert name[i..][1..] == name[i + 1..];
    }
  }

  /** The base name is the stem followed by the extension; the extension is "" or one '.' and no other. */
  lemma StemAndExtension(p: string)
    ensures Basename(p) == Stem(p) + Extname(p)
    ensures var e := Extname(p); e == "" || (e[0] == '.' && '.' !in e[1..])
    ensures Extname(p) != "" ==> Stem(p) != ""
  {
    var name := Basename(p);
    NameExtensionShape(name);
    assert name == name[..|name| - |NameExtension(name)|] + NameExtension(name);
  }

  /** The stem, being the head of the base name, holds no '/'. */
  lemma StemHasNoSlash(p: string)
    ensures '/' !in Stem(p)
  {
    StemAndExtension(p);
    assert '/' in Stem(p) ==> '/' in Basename(p);
  }

  lemma {:induction false} LastIndexAfter(x: string, c: char, rest: string)
    requires c !in rest
    ensures LastIndex(x + [c] + rest, c) == |x|
  {
    if rest != [] {
      var s := x + [c] + rest;
      assert s[..|s| - 1] == x + [c] + rest[..|rest| - 1];
      LastIndexAfter(x, c, rest[..|rest| - 1]);
    }
  }

  lemma {:induction false} LastIndexNone(s: string, c: char)
    requires c !in s
    ensures LastIndex(s, c) == -1
  {
    if s != [] {
      LastIndexNone(s[..|s| - 1], c);
    }
  }

  /** Joining a directory and a name without '/' can be taken apart again by dirname and basename. */
  lemma JoinParts(dir: string, name: string)
    requires dir != "" && '/' !in name
    ensures Dirname(Join(dir, name)) == dir
    ensures Basename(Join(dir, name)) == name
  {
    if dir == "." {
      LastIndexNone(name, '/');
    } else if dir == "/" {
      LastIndexAfter("", '/', name);
      assert "" + "/" + name == "/" + name;
    } else {
      LastIndexAfter(dir, '/', name);
      assert (dir + "/" + name)[..|dir|] == dir;
      assert (dir + "/" + name)[|dir| + 1..] == name;
    }
  }

  /** Whatever the name, the base name of a join is a tail of that name. */
  lemma JoinBasenameTail(dir: string, name: string)
    ensures var b := Basename(Join(dir, name)); |b| <= |name| && b == name[|name| - |b|..]
  {
    var p := Join(dir, name);
    if dir != "." {
      var x := if dir == "/" then "/" else dir + "/";
      assert p == x + name;
      assert p[|x| - 1] == '/';
      assert p[|x|..] == name;
      TailOfTail(p, name, Basename(p));
    }
  }

  /** A tail of `p` no longer than the tail `name` of `p` is a tail of `name`. */
  lemma TailOfTail(p: string, name: string, b: string)
    requires |b| <= |name| <= |p| && name == p[|p| - |name|..] && b == p[|p| - |b|..]
    ensures b == name[|name| - |b|..]
  {
  }

  /** A name "stem.ext" with a non-empty stem has extension ".ext" and stem "stem". */
  lemma NameParts(dir: string, stem: string, ext: string)
    requires dir != "" && stem != "" && '/' !in stem && '/' !in ext && '.' !in ext
    requires stem + "." + ext != ".."
    ensures Extname(Join(dir, stem + "." + ext)) == "." + ext
    ensures Stem(Join(dir, stem + "." + ext)) == stem
  {
    var name := stem + "." + ext;
    JoinParts(dir, name);
    NameExtensionOf(stem, ext);
    assert name[..|name| - |ext| - 1] == stem;
  }

  lemma NameExtensionOf(stem: string, ext: string)
    requires stem != "" && '.' !in ext && stem + "." + ext != ".."
    ensures NameExtension(stem + "." + ext) == "." + ext
  {
    LastIndexAfter(stem, '.', ext);
    assert (stem + "." + ext)[|stem|..] == "." + ext;
  }
}
