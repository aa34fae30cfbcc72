/**
 * `createRelativeImportPath`: the module reference from the file being
 * generated to another file. Paths are '/'-separated; `path.relative` and
 * `path.dirname` are modelled on normalised segment lists.
 */
module RelativeImportPath {

  /** `p.split("/")`: the pieces between slashes, empty pieces included. */
  function SplitPath(p: string): (parts: seq<string>)
    ensures |parts| >= 1
    ensures forall k :: 0 <= k < |parts| ==> '/' !in parts[k]
  {
    if p == [] then [[]]
    else
      var rest := SplitPath(p[1..]);
      if p[0] == '/' then [[]] + rest else [[p[0]] + rest[0]] + rest[1..]
  }

  /** `segments.join("/")`. */
  function JoinPath(segments: seq<string>): string
  {
    if |segments| == 0 then []
    else if |segments| == 1 then segments[0]
    else segments[0] + "/" + JoinPath(segments[1..])
  }

  /** A piece without a slash splits to itself. */
  lemma {:induction false} SplitPlain(a: string)
    requires '/' !in a
    ensures SplitPath(a) == [a]
  {
    if a != [] {
      assert a[0] in a;
      SplitPlain(a[1..]);
      assert [a[0]] + a[1..] == a;
    }
  }

  /** Splitting `a/b` gives `a`, then the pieces of `b`. */
  lemma {:induction false} SplitAtSlash(a: string, b: string)
    requires '/' !in a
    ensures SplitPath(a + "/" + b) == [a] + SplitPath(b)
  {
    if a == [] {
      assert a + "/" + b == "/" + b;
      assert ("/" + b)[1..] == b;
    } else {
      var p := a + "/" + b;
      assert a[0] in a;
      assert p[0] == a[0] && p[1..] == a[1..] + "/" + b;
      SplitAtSlash(a[1..], b);
      assert [p[0]] + a[1..] == a;
    }
  }

  /** Joining then splitting gives the segments back. */
  lemma {:induction false} SplitJoin(segments: seq<string>)
    requires |segments| >= 1
    requires forall k :: 0 <= k < |segments| ==> '/' !in segments[k]
    ensures SplitPath(JoinPath(segments)) == segments
  {
    if |segments| == 1 {
      SplitPlain(segments[0]);
    } else {
      SplitAtSlash(segments[0], JoinPath(segments[1..]));
      SplitJoin(segments[1..]);
    }
  }

  /** A normalised segment: non-empty, not `.` or `..`, without a slash. */
  predicate ProperSegment(s: string)
  {
    s != "" && s != "." && s != ".." && '/' !in s
  }

  predicate ProperSegments(segments: seq<string>)
  {
    forall k :: 0 <= k < |segments| ==> ProperSegment(segments[k])
  }

  /**
   * Walking `parts` from directory `base`: empty pieces and `.` stay, `..`
   * goes up (not above the root), anything else goes down.
   */
  function Resolve(base: seq<string>, parts: seq<string>): seq<string>
    decreases |parts|
  {
    if |parts| == 0 then base
    else
      var p := parts[0];
      var next :=
        if p == "" || p == "." then base
        else if p == ".." then (if |base| == 0 then [] else base[..|base| - 1])
        else base + [p];
      Resolve(next, parts[1..])
  }

  /** Walking from a normalised directory keeps it normalised. */
  lemma {:induction false} ResolveProper(base: seq<string>, parts: seq<string>)
    requires ProperSegments(base)
    requires forall k :: 0 <= k < |parts| ==> '/' !in parts[k]
    ensures ProperSegments(Resolve(base, parts))
    decreases |parts|
  {
    if |parts| > 0 {
      var p := parts[0];
      var next :=
        if p == "" || p == "." then base
        else if p == ".." then (if |base| == 0 then [] else base[..|base| - 1])
        else base + [p];
      assert ProperSegments(next);
      ResolveProper(next, parts[1..]);
    }
  }

  /** The normalised segments of a rooted path (`path.resolve`). */
  function Segments(p: string): (r: seq<string>)
    ensures ProperSegments(r)
  {
    ResolveProper([], SplitPath(p));
    Resolve([], SplitPath(p))
  }

  /** `path.dirname`: the directory holding a file, that is, all but its last segment. */
  function Dirname(segments: seq<string>): (r: seq<string>)
    ensures |segments| == 0 ==> r == []
    ensures |segments| > 0 ==> r + [segments[|segments| - 1]] == segments
  {
    if |segments| == 0 then [] else segments[..|segments| - 1]
  }

  /** The length of the longest common prefix. */
  function CommonPrefixLength(a: seq<string>, b: seq<string>): (c: nat)
    ensures c <= |a| && c <= |b|
    ensures a[..c] == b[..c]
    ensures c < |a| && c < |b| ==> a[c] != b[c]
  {
    if |a| == 0 || |b| == 0 || a[0] != b[0] then 0
    else
      var c := 1 + CommonPrefixLength(a[1..], b[1..]);
      assert a[..c] == [a[0]] + a[1..][..c - 1];
      assert b[..c] == [b[0]] + b[1..][..c - 1];
      c
  }

  /** `n` steps up. */
  function Ups(n: nat): (r: seq<string>)
    ensures |r| == n && forall k :: 0 <= k < n ==> r[k] == ".."
  {
    if n == 0 then [] else [".."] + Ups(n - 1)
  }

  /**
   * `path.relative(from, to)` on segments: up out of what `from` does not
   * share with `to`, then down into the rest of `to`.
   */
  function Relative(from: seq<string>, to: seq<string>): (r: seq<string>)
    // a target at or below `from` is reached by going down only
    ensures from <= to ==> r == to[|from|..]
    // an ancestor of `from` is reached by going up only
    ensures to <= from ==> r == Ups(|from| - |to|)
  {
    CommonPrefixOfNested(from, to);
    CommonPrefixOfNested(to, from);
    var c := CommonPrefixLength(from, to);
    assert to <= from ==> to[c..] == [];
    Ups(|from| - c) + to[c..]
  }

  /** When one path is a prefix of the other, they share all of the shorter one. */
  lemma CommonPrefixOfNested(a: seq<string>, b: seq<string>)
    ensures a <= b ==> CommonPrefixLength(a, b) == |a| && CommonPrefixLength(b, a) == |a|
  {
    if a <= b {
      var rest := b[|a|..];
      assert a + [] == a && a + rest == b;
      CommonPrefixOfShared(a, [], rest);
      CommonPrefixOfShared(a, rest, []);
    }
  }

  /** Going up `n` steps drops the last `n` directories. */
  lemma {:induction false} ResolveUps(base: seq<string>, n: nat, rest: seq<string>)
    requires n <= |base|
    ensures Resolve(base, Ups(n) + rest) == Resolve(base[..|base| - n], rest)
    decreases n
  {
    if n > 0 {
      var parts := Ups(n) + rest;
      assert parts[0] == "..";
      assert parts[1..] == Ups(n - 1) + rest;
      var up := base[..|base| - 1];
      assert Resolve(base, parts) == Resolve(up, parts[1..]);
      assert up[..|up| - (n - 1)] == base[..|base| - n];
      ResolveUps(up, n - 1, rest);
    } else {
      assert Ups(n) + rest == rest && base[..|base|] == base;
    }
  }

  /** Going down through normalised segments appends them. */
  lemma {:induction false} ResolveDown(base: seq<string>, rest: seq<string>)
    requires ProperSegments(rest)
    ensures Resolve(base, rest) == base + rest
    decreases |rest|
  {
    if |rest| > 0 {
      ResolveDown(base + [rest[0]], rest[1..]);
      assert base + [rest[0]] + rest[1..] == base + rest;
    }
  }

  /** Walking the relative path from `from` arrives at `to`. */
  lemma RelativeResolves(from: seq<string>, to: seq<string>)
    requires ProperSegments(to)
    ensures Resolve(from, Relative(from, to)) == to
  {
    var c := CommonPrefixLength(from, to);
    ResolveUps(from, |from| - c, to[c..]);
    assert ProperSegments(to[c..]);
    ResolveDown(from[..c], to[c..]);
    assert to[..c] + to[c..] == to;
  }

  /** `path.relative(path.dirname(currentPath), pathToImportFrom)`. */
  function RelativePath(currentPath: string, pathToImportFrom: string): (r: string)
    // a file at or below the current file's directory is reached by going down only
    ensures var dir, target := Dirname(Segments(currentPath)), Segments(pathToImportFrom);
      dir <= target ==> r == JoinPath(target[|dir|..])
  {
    JoinPath(Relative(Dirname(Segments(currentPath)), Segments(pathToImportFrom)))
  }

  /**
   * Following the relative path from the current file's directory reaches
   * the imported file.
   */
  lemma RelativePathReachesTarget(currentPath: string, pathToImportFrom: string)
    ensures Resolve(Dirname(Segments(currentPath)), SplitPath(RelativePath(currentPath, pathToImportFrom))) ==
            Segments(pathToImportFrom)
  {
    var from, to := Dirname(Segments(currentPath)), Segments(pathToImportFrom);
    var rel := Relative(from, to);
    RelativeResolves(from, to);
    if |rel| == 0 {
      assert SplitPath(JoinPath(rel)) == [""];
    } else {
      var c := CommonPrefixLength(from, to);
      assert forall k :: 0 <= k < |rel| ==> '/' !in rel[k] by {
        forall k | 0 <= k < |rel| ensures '/' !in rel[k] {
          if k >= |from| - c { assert rel[k] == to[c + k - (|from| - c)]; }
        }
      }
      SplitJoin(rel);
    }
  }

  predicate IsLowerLetter(ch: char) { 'a' <= ch <= 'z' }

  /** How many lower-case letters end `s`. */
  function TrailingLetters(s: string): (n: nat)
    ensures n <= |s|
    ensures forall k :: |s| - n <= k < |s| ==> IsLowerLetter(s[k])
    ensures n < |s| ==> !IsLowerLetter(s[|s| - n - 1])
  {
    if |s| == 0 || !IsLowerLetter(s[|s| - 1]) then 0
    else
      var n := 1 + TrailingLetters(s[..|s| - 1]);
      assert forall k :: |s| - n <= k < |s| - 1 ==> s[k] == s[..|s| - 1][k];
      n
  }

  /** The pattern `/\.[a-z]+$/` matches `s` from position `p` on. */
  ghost predicate ExtensionAt(s: string, p: int)
  {
    0 <= p < |s| - 1 && s[p] == '.' && forall k :: p < k < |s| ==> IsLowerLetter(s[k])
  }

  /**
   * `s.replace(/\.[a-z]+$/, '')`: cut a final dot followed by one or more
   * lower-case letters, and nothing else.
   */
  function StripExtension(s: string): (r: string)
    ensures forall p :: ExtensionAt(s, p) ==> r == s[..p]
    ensures (forall p :: !ExtensionAt(s, p)) ==> r == s
  {
    var n := TrailingLetters(s);
    if n > 0 && n < |s| && s[|s| - n - 1] == '.' then
      assert ExtensionAt(s, |s| - n - 1);
      s[..|s| - n - 1]
    else s
  }

  function StartsWith(s: string, prefix: string): bool
  {
    |prefix| <= |s| && s[..|prefix|] == prefix
  }

  /**
   * The module reference for an import of `pathToImportFrom` into the file
   * at `currentPath`.
   */
  function CreateRelativeImportPath(currentPath: string, pathToImportFrom: string): (r: string)
    ensures StartsWith(r, "./") || StartsWith(r, "../")
    ensures var stripped := StripExtension(RelativePath(currentPath, pathToImportFrom));
            (r == stripped || r == "./" + stripped) &&
            (StartsWith(stripped, "./") || StartsWith(stripped, "../") ==> r == stripped)
  {
    var fromPath := StripExtension(RelativePath(currentPath, pathToImportFrom));
    if !StartsWith(fromPath, "../") && !StartsWith(fromPath, "./") then
      assert ("./" + fromPath)[..2] == "./";
      "./" + fromPath
    else fromPath
  }

  /** A rooted path written out from normalised segments has exactly those segments. */
  lemma {:induction false} SegmentsOfRooted(segments: seq<string>)
    requires ProperSegments(segments)
    ensures Segments(JoinPath([""] + segments)) == segments
  {
    SplitJoin([""] + segments);
    assert ([""] + segments)[1..] == segments;
    ResolveDown([], segments);
  }

  /** A shared prefix adds its length to the common prefix. */
  lemma {:induction false} CommonPrefixOfShared(p: seq<string>, a: seq<string>, b: seq<string>)
    ensures CommonPrefixLength(p + a, p + b) == |p| + CommonPrefixLength(a, b)
  {
    if |p| > 0 {
      assert (p + a)[1..] == p[1..] + a;
      assert (p + b)[1..] == p[1..] + b;
      CommonPrefixOfShared(p[1..], a, b);
    } else {
      assert p + a == a && p + b == b;
    }
  }

  /** Joining with one more segment at the end. */
  lemma {:induction false} JoinPathSnoc(segments: seq<string>, last: string)
    requires |segments| >= 1
    ensures JoinPath(segments + [last]) == JoinPath(segments) + "/" + last
  {
    if |segments| > 1 {
      assert (segments + [last])[1..] == segments[1..] + [last];
      JoinPathSnoc(segments[1..], last);
    }
  }

  /** A joined list of normalised segments starts neither with `./` nor with `../`. */
  lemma JoinedNotDotted(segments: seq<string>)
    requires |segments| >= 1 && ProperSegments(segments)
    ensures !StartsWith(JoinPath(segments), "./") && !StartsWith(JoinPath(segments), "../")
  {
    var rest := if |segments| == 1 then "" else "/" + JoinPath(segments[1..]);
    assert JoinPath(segments) == segments[0] + rest;
    SegmentNotDotted(segments[0], rest);
  }

  /** A normalised first segment, followed by nothing or by a slash, is not `.` or `..`. */
  lemma SegmentNotDotted(first: string, rest: string)
    requires ProperSegment(first)
    requires rest == "" || rest[0] == '/'
    ensures !StartsWith(first + rest, "./") && !StartsWith(first + rest, "../")
  {
    var j := first + rest;
    assert forall k :: 0 <= k < |first| ==> j[k] == first[k];
    assert first[0] in first;
    if |first| == 1 {
      assert first == [first[0]];
      assert |j| >= 2 ==> j[1] == '/';
    } else if |first| == 2 {
      assert first[1] in first;
      assert first == [first[0], first[1]];
    } else {
      assert first[1] in first && first[2] in first;
    }
  }

  /** Cutting `.ext` off the last segment. */
  lemma StripLastExtension(segments: seq<string>, base: string, ext: string)
    requires |ext| >= 1 && forall k :: 0 <= k < |ext| ==> IsLowerLetter(ext[k])
    ensures StripExtension(JoinPath(segments + [base + "." + ext])) == JoinPath(segments + [base])
  {
    var prefix := if |segments| == 0 then "" else JoinPath(segments) + "/";
    if |segments| > 0 {
      JoinPathSnoc(segments, base + "." + ext);
      JoinPathSnoc(segments, base);
    } else {
      assert segments + [base + "." + ext] == [base + "." + ext];
      assert segments + [base] == [base];
    }
    var s := prefix + base + "." + ext;
    assert JoinPath(segments + [base + "." + ext]) == s;
    assert JoinPath(segments + [base]) == prefix + base;
    var p := |prefix| + |base|;
    assert forall k :: p < k < |s| ==> s[k] == ext[k - p - 1];
    assert ExtensionAt(s, p);
    assert s[..p] == prefix + base;
  }

  /** A base name with an extension is a normalised segment. */
  lemma ProperWithExtension(base: string, ext: string)
    requires ProperSegment(base)
    requires |ext| >= 1 && forall k :: 0 <= k < |ext| ==> IsLowerLetter(ext[k])
    ensures ProperSegment(base + "." + ext)
  {
    assert '/' !in ext by {
      forall k | 0 <= k < |ext| ensures ext[k] != '/' { assert IsLowerLetter(ext[k]); }
    }
    assert |base + "." + ext| >= 3;
  }

  /** The relative path from a file in a directory to a file at or below it. */
  lemma RelativePathDown(dir: seq<string>, file: string, down: seq<string>)
    requires ProperSegments(dir) && ProperSegment(file) && ProperSegments(down)
    ensures RelativePath(JoinPath([""] + dir + [file]), JoinPath([""] + dir + down)) == JoinPath(down)
  {
    assert ProperSegments(dir + down);
    assert [""] + dir + [file] == [""] + (dir + [file]);
    assert [""] + dir + down == [""] + (dir + down);
    SegmentsOfRooted(dir + [file]);
    SegmentsOfRooted(dir + down);
    assert Dirname(dir + [file]) == dir;
    assert (dir + down)[|dir|..] == down;
  }

  /**
   * Importing a file at or below the current file's directory: the
   * reference is `./`, the sub-directories and the file's base name.
   */
  lemma RelativeImportPathDown(dir: seq<string>, file: string, sub: seq<string>, base: string, ext: string)
    requires ProperSegments(dir) && ProperSegment(file) && ProperSegments(sub) && ProperSegment(base)
    requires |ext| >= 1 && forall k :: 0 <= k < |ext| ==> IsLowerLetter(ext[k])
    ensures CreateRelativeImportPath(JoinPath([""] + dir + [file]), JoinPath([""] + dir + sub + [base + "." + ext])) ==
            "./" + JoinPath(sub + [base])
  {
    var down := sub + [base + "." + ext];
    ProperWithExtension(base, ext);
    assert ProperSegments(down);
    assert [""] + dir + sub + [base + "." + ext] == [""] + dir + down;
    RelativePathDown(dir, file, down);
    StripLastExtension(sub, base, ext);
    assert ProperSegments(sub + [base]);
    JoinedNotDotted(sub + [base]);
  }

  /** Leaving directory `x` for sibling `y`: one step up, then down. */
  lemma RelativeToSibling(dir: seq<string>, x: string, down: seq<string>)
    requires |down| >= 1 && x != down[0]
    ensures Relative(dir + [x], dir + down) == [".."] + down
  {
    CommonPrefixOfShared(dir, [x], down);
    assert (dir + down)[|dir|..] == down;
  }

  /** The relative path from a file in directory `x` to a file below its sibling. */
  lemma RelativePathToSibling(dir: seq<string>, x: string, file: string, down: seq<string>)
    requires ProperSegments(dir) && ProperSegment(x) && ProperSegment(file)
    requires ProperSegments(down) && |down| >= 1 && x != down[0]
    ensures RelativePath(JoinPath([""] + dir + [x, file]), JoinPath([""] + dir + down)) == JoinPath([".."] + down)
  {
    assert ProperSegments(dir + down);
    assert [""] + dir + [x, file] == [""] + (dir + [x, file]);
    assert [""] + dir + down == [""] + (dir + down);
    SegmentsOfRooted(dir + [x, file]);
    SegmentsOfRooted(dir + down);
    assert Dirname(dir + [x, file]) == dir + [x];
    RelativeToSibling(dir, x, down);
  }

  /**
   * Importing a file from a sibling directory: the reference goes up once
   * and then down through the other directory.
   */
  lemma RelativeImportPathSibling(dir: seq<string>, x: string, file: string, y: string, sub: seq<string>,
                                  base: string, ext: string)
    requires ProperSegments(dir) && ProperSegment(x) && ProperSegment(file) && ProperSegment(y) && x != y
    requires ProperSegments(sub) && ProperSegment(base)
    requires |ext| >= 1 && forall k :: 0 <= k < |ext| ==> IsLowerLetter(ext[k])
    ensures CreateRelativeImportPath(JoinPath([""] + dir + [x, file]), JoinPath([""] + dir + [y] + sub + [base + "." + ext])) ==
            "../" + JoinPath([y] + sub + [base])
  {
    var down := [y] + sub + [base + "." + ext];
    ProperWithExtension(base, ext);
    assert ProperSegments(down);
    assert [""] + dir + [y] + sub + [base + "." + ext] == [""] + dir + down;
    RelativePathToSibling(dir, x, file, down);
    var up := [".."] + ([y] + sub);
    assert [".."] + down == up + [base + "." + ext];
    StripLastExtension(up, base, ext);
    var rest := JoinPath([y] + sub + [base]);
    assert up + [base] == [".."] + ([y] + sub + [base]);
    assert JoinPath(up + [base]) == "../" + rest by {
      assert ([".."] + ([y] + sub + [base]))[1..] == [y] + sub + [base];
    }
    assert StartsWith("../" + rest, "../") by { assert ("../" + rest)[..3] == "../"; }
  }
}
