/** Node's `path.extname` on POSIX paths, stated by what it returns: the part of the last
    path component from its last `.` on; "" when that component has no `.`, when its last
    `.` is its first character, or when it is `..`. */
module NodePath {
  import opened Wrappers

  /** The path with its trailing `/` characters taken off. */
  function StripTrailingSlashes(p: string): (r: string)
    decreases |p|
  {
    if |p| > 0 && p[|p| - 1] == '/' then StripTrailingSlashes(p[..|p| - 1]) else p
  }

  /** The characters after the last `/` (all of `p` when it has none). */
  function LastSegment(p: string): (r: string)
    decreases |p|
  {
    if |p| == 0 || p[|p| - 1] == '/' then "" else LastSegment(p[..|p| - 1]) + [p[|p| - 1]]
  }

  function Basename(p: string): string {
    LastSegment(StripTrailingSlashes(p))
  }

  /** The position of the last `.` of `s`, if any. */
  function LastDot(s: string): (r: Option<nat>)
    ensures r.Some? ==> r.value < |s| && s[r.value] == '.' && forall j :: r.value < j < |s| ==> s[j] != '.'
    ensures r.None? ==> forall j :: 0 <= j < |s| ==> s[j] != '.'
    decreases |s|
  {
    if |s| == 0 then None
    else if s[|s| - 1] == '.' then Some(|s| - 1)
    else LastDot(s[..|s| - 1])
  }

  function Extname(p: string): string {
    var base := Basename(p);
    match LastDot(base)
    case None => ""
    case Some(k) => if k == 0 || base == ".." then "" else base[k..]
  }

  predicate NoChar(s: string, c: char) {
    forall i :: 0 <= i < |s| ==> s[i] != c
  }

  /** A path without `/` is its own last component. */
  lemma {:induction false} LastSegmentWithoutSlash(p: string)
    requires NoChar(p, '/')
    ensures LastSegment(p) == p
    decreases |p|
  {
    if |p| > 0 {
      LastSegmentWithoutSlash(p[..|p| - 1]);
      assert p == p[..|p| - 1] + [p[|p| - 1]];
    }
  }

  /** An extension is empty, or a `.` followed by no other `.` and no `/`. */
  lemma ExtnameShape(p: string)
    ensures IsExtension(Extname(p))
  {
    var base := Basename(p);
    BasenameWithoutSlash(p);
    match LastDot(base)
    case None =>
    case Some(k) =>
      if k != 0 && base != ".." {
        var e := base[k..];
        assert forall i :: 0 <= i < |e| ==> e[i] == base[k + i];
      }
  }

  lemma {:induction false} LastSegmentNoSlash(p: string)
    ensures NoChar(LastSegment(p), '/')
    decreases |p|
  {
    if |p| > 0 && p[|p| - 1] != '/' {
      LastSegmentNoSlash(p[..|p| - 1]);
    }
  }

  lemma BasenameWithoutSlash(p: string)
    ensures NoChar(Basename(p), '/')
  {
    LastSegmentNoSlash(StripTrailingSlashes(p));
  }

  lemma StripWithoutSlashAtEnd(p: string)
    requires |p| == 0 || p[|p| - 1] != '/'
    ensures StripTrailingSlashes(p) == p
  {
  }

  /** The shape `ExtnameShape` gives an extension. */
  predicate IsExtension(e: string) {
    e == "" || (e[0] == '.' && NoChar(e[1..], '.') && NoChar(e, '/'))
  }

  /** A name made of a non-empty stem with no `.` and no `/`, followed by an extension,
      has exactly that extension. */
  lemma ExtnameAfterStem(stem: string, e: string)
    requires |stem| > 0 && NoChar(stem, '.') && NoChar(stem, '/')
    requires IsExtension(e)
    ensures Extname(stem + e) == e
  {
    var s := stem + e;
    assert NoChar(s, '/') by {
      forall i | 0 <= i < |s| ensures s[i] != '/' {
        if i >= |stem| { assert s[i] == e[i - |stem|]; }
      }
    }
    StripWithoutSlashAtEnd(s);
    LastSegmentWithoutSlash(s);
    assert Basename(s) == s;
    if e == "" {
      assert s == stem;
      assert LastDot(s).None?;
    } else {
      var k := |stem|;
      assert s[k] == '.';
      forall j | k < j < |s| ensures s[j] != '.' {
        assert s[j] == e[1..][j - k - 1];
      }
      assert LastDot(s) == Some(k);
      assert s[0] != '.';
      assert s[k..] == e;
    }
  }
}
