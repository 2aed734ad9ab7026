/** The parts of Node's `path` library the core relies on, over plain
    slash-separated strings. A directory in the upward search is a list of
    segments below the filesystem root; `[]` is the root itself.
    Assumed behaviour: `join(a, b)` is `a + "/" + b` (no normalisation of
    `..`, `.` or doubled slashes), `dirname` drops the last segment and keeps
    the root, `extname` looks at the text after the last '/'. */
module Paths {
  import opened Text

  function JoinPath(dir: string, name: string): string {
    dir + "/" + name
  }

  /** An absolute directory or file path from its segments. */
  function AbsPath(segments: seq<string>): string {
    "/" + Join(segments, "/")
  }

  /** `path.dirname` on a directory: its parent, or the root for the root. */
  function Dirname(dir: seq<string>): (parent: seq<string>)
    ensures parent == dir <==> dir == []
    ensures dir != [] ==> parent == dir[..|dir| - 1]
  {
    if |dir| == 0 then [] else dir[..|dir| - 1]
  }

  /** The text after the last '/'. */
  function Basename(p: string): (b: string)
    ensures '/' !in b
    ensures |b| <= |p| && b == p[|p| - |b|..]
    decreases |p|
  {
    if |p| == 0 || p[|p| - 1] == '/' then ""
    else Basename(p[..|p| - 1]) + [p[|p| - 1]]
  }

  /** The base name is the whole path or starts right after a '/': with the
      contract of `Basename`, it is the text after the last '/'. */
  lemma {:induction false} BasenameShape(p: string)
    ensures var b := Basename(p);
      b == p || (|b| < |p| && p[|p| - |b| - 1] == '/')
    decreases |p|
  {
    if |p| > 0 && p[|p| - 1] != '/' {
      var q := p[..|p| - 1];
      var t := Basename(q);
      assert Basename(p) == t + [p[|p| - 1]];
      BasenameShape(q);
      if t == q {
        assert p == q + [p[|p| - 1]];
      } else {
        var k := |q| - |t| - 1;
        assert p[k] == q[k] == '/';
      }
    }
  }

  lemma {:induction false} BasenameAfterSlash(dir: string, name: string)
    ensures Basename(JoinPath(dir, name)) == Basename(name)
    decreases |name|
  {
    var p := JoinPath(dir, name);
    if |name| > 0 {
      assert p[..|p| - 1] == JoinPath(dir, name[..|name| - 1]);
      BasenameAfterSlash(dir, name[..|name| - 1]);
    }
  }

  /** The position of the last `c` in `s`, or -1. */
  function LastIndexOf(s: string, c: char): (i: int)
    ensures -1 <= i < |s|
    ensures i >= 0 ==> s[i] == c && c !in s[i + 1..]
    ensures i == -1 ==> c !in s
    decreases |s|
  {
    if |s| == 0 then -1
    else if s[|s| - 1] == c then |s| - 1
    else
      var i := LastIndexOf(s[..|s| - 1], c);
      assert s == s[..|s| - 1] + [s[|s| - 1]];
      assert i >= 0 ==> s[i + 1..] == s[..|s| - 1][i + 1..] + [s[|s| - 1]];
      i
  }

  /** The extension of one path segment: from its last '.' to its end;
      empty when it has no '.', when its only '.' is the leading one (a
      dot-file), and for "..". */
  function SegmentExt(b: string): (ext: string)
    ensures ext == "" || (ext[0] == '.' && '.' !in ext[1..])
    ensures |ext| <= |b| && ext == b[|b| - |ext|..]
    ensures ext != "" <==> LastIndexOf(b, '.') > 0 && b != ".."
    ensures ext != "" ==> ext == b[LastIndexOf(b, '.')..]
  {
    var i := LastIndexOf(b, '.');
    if i <= 0 || b == ".." then ""
    else
      assert b[i..][1..] == b[i + 1..];
      b[i..]
  }

  /** `path.extname`: the extension of the last segment. */
  function Extname(p: string): (ext: string)
    ensures ext == "" || (ext[0] == '.' && '.' !in ext[1..] && '/' !in ext)
    ensures |ext| <= |p| && ext == p[|p| - |ext|..]
  {
    SegmentExt(Basename(p))
  }

  /** The extension of `dir/name`, for a name with no '/' whose last '.' is
      at `i` (or that has none, for `i == -1`). */
  lemma ExtnameOfName(dir: string, name: string, i: int)
    requires '/' !in name && -1 <= i < |name|
    requires i >= 0 ==> name[i] == '.' && '.' !in name[i + 1..]
    requires i == -1 ==> '.' !in name
    ensures Extname(JoinPath(dir, name)) == if i <= 0 || name == ".." then "" else name[i..]
  {
    BasenameAfterSlash(dir, name);
    BasenameOfName(name);
    LastIndexOfUnique(name, '.', i);
  }

  lemma BasenameOfName(name: string)
    requires '/' !in name
    ensures Basename(name) == name
  {
    BasenameShape(name);
  }

  /** `LastIndexOf` is the one position that its contract describes. */
  lemma LastIndexOfUnique(s: string, c: char, i: int)
    requires -1 <= i < |s|
    requires i >= 0 ==> s[i] == c && c !in s[i + 1..]
    requires i == -1 ==> c !in s
    ensures LastIndexOf(s, c) == i
  {
  }

  /** The extension is non-empty exactly when the last segment has a '.'
      after its first character and is not "..", and then it runs from that
      segment's last '.' to the end; its '.' is never the first character of
      the last segment. */
  lemma ExtnameOfSegment(p: string)
    ensures var b := Basename(p);
      && (Extname(p) != "" <==> LastIndexOf(b, '.') > 0 && b != "..")
      && (Extname(p) != "" ==> Extname(p) == b[LastIndexOf(b, '.')..])
    ensures var ext := Extname(p);
      ext != "" ==> |ext| < |p| && p[|p| - |ext| - 1] != '/'
  {
    var b := Basename(p);
    var ext := Extname(p);
    if ext != "" {
      var i := LastIndexOf(b, '.');
      assert |ext| == |b| - i;
      assert p[|p| - |b|..][i - 1] == b[i - 1];
    }
  }

  lemma ExtnameAfterSlash(dir: string, name: string)
    ensures Extname(JoinPath(dir, name)) == Extname(name)
  {
    BasenameAfterSlash(dir, name);
  }

  /** Lower-casing commutes with `extname`: it changes neither '/' nor '.'. */
  lemma {:induction false} BasenameLower(p: string)
    ensures Basename(Lower(p)) == Lower(Basename(p))
    decreases |p|
  {
    if |p| > 0 {
      assert Lower(p)[..|p| - 1] == Lower(p[..|p| - 1]);
      BasenameLower(p[..|p| - 1]);
      LowerAppend(Basename(p[..|p| - 1]), [p[|p| - 1]]);
    }
  }

  lemma {:induction false} LastIndexOfLower(s: string)
    ensures LastIndexOf(Lower(s), '.') == LastIndexOf(s, '.')
    decreases |s|
  {
    if |s| > 0 {
      assert Lower(s)[..|s| - 1] == Lower(s[..|s| - 1]);
      LastIndexOfLower(s[..|s| - 1]);
    }
  }

  lemma LowerDotDot(b: string)
    ensures Lower(b) == ".." <==> b == ".."
  {
    if Lower(b) == ".." {
      assert |b| == 2;
      assert Lower(b)[0] == '.' && Lower(b)[1] == '.';
      assert LowerChar(b[0]) == '.' && LowerChar(b[1]) == '.';
      assert b == [b[0], b[1]];
    }
  }

  lemma SegmentExtLower(b: string)
    ensures SegmentExt(Lower(b)) == Lower(SegmentExt(b))
  {
    LastIndexOfLower(b);
    LowerDotDot(b);
    var i := LastIndexOf(b, '.');
    if i > 0 && b != ".." {
      assert Lower(b)[i..] == Lower(b[i..]);
    }
  }

  lemma ExtnameLower(p: string)
    ensures Extname(Lower(p)) == Lower(Extname(p))
  {
    BasenameLower(p);
    SegmentExtLower(Basename(p));
  }
}
