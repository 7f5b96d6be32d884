/** The two JavaScript string operations the message builder relies on:
    `Array.prototype.join` with a separator and `String.prototype.trim`. */
module JsText {

  const CRLF: string := "\r\n"

  /** `lines.join(sep)`: the lines in order with `sep` between neighbours. */
  function Join(lines: seq<string>, sep: string): string
    decreases |lines|
  {
    if |lines| == 0 then ""
    else if |lines| == 1 then lines[0]
    else lines[0] + sep + Join(lines[1..], sep)
  }

  /** The joined text starts with the first line. */
  lemma JoinStartsWithFirst(lines: seq<string>, sep: string)
    requires |lines| > 0
    ensures |lines[0]| <= |Join(lines, sep)| && Join(lines, sep)[..|lines[0]|] == lines[0]
  {
  }

  /** The joined text ends with the last line. */
  lemma {:induction false} JoinEndsWithLast(lines: seq<string>, sep: string)
    requires |lines| > 0
    ensures var j, last := Join(lines, sep), lines[|lines| - 1];
      |last| <= |j| && j[|j| - |last|..] == last
    decreases |lines|
  {
    if |lines| > 1 {
      JoinEndsWithLast(lines[1..], sep);
      var rest := Join(lines[1..], sep);
      var j := Join(lines, sep);
      var last := lines[|lines| - 1];
      assert j == (lines[0] + sep) + rest;
      assert j[|j| - |last|..] == rest[|rest| - |last|..];
    }
  }

  /** WhiteSpace and LineTerminator of ECMAScript (sections 12.2 and 12.3 of ECMA-262):
      what `trim` removes. */
  predicate IsWhiteSpace(c: char) {
    var n := c as int;
    // TAB, VT, FF, SP, NBSP, ZWNBSP and the space separators (Zs)
    n == 0x09 || n == 0x0B || n == 0x0C || n == 0x20 || n == 0xA0 || n == 0xFEFF
    || n == 0x1680 || (0x2000 <= n <= 0x200A) || n == 0x202F || n == 0x205F || n == 0x3000
    // LF, CR, LINE SEPARATOR, PARAGRAPH SEPARATOR
    || n == 0x0A || n == 0x0D || n == 0x2028 || n == 0x2029
  }

  function TrimStart(s: string): string
    decreases |s|
  {
    if |s| > 0 && IsWhiteSpace(s[0]) then TrimStart(s[1..]) else s
  }

  function TrimEnd(s: string): string
    decreases |s|
  {
    if |s| > 0 && IsWhiteSpace(s[|s| - 1]) then TrimEnd(s[..|s| - 1]) else s
  }

  /** `s.trim()`. */
  function Trim(s: string): string {
    TrimEnd(TrimStart(s))
  }

  /** What `trim` means: the longest slice of `s` that does not start or end with white
      space, everything cut off on either side being white space. */
  predicate IsTrimOf(r: string, s: string) {
    exists i, j :: 0 <= i <= j <= |s| && r == s[i..j]
      && (forall k :: 0 <= k < i ==> IsWhiteSpace(s[k]))
      && (forall k :: j <= k < |s| ==> IsWhiteSpace(s[k]))
      && (i < j ==> !IsWhiteSpace(s[i]) && !IsWhiteSpace(s[j - 1]))
  }

  lemma {:induction false} TrimStartSlice(s: string) returns (i: nat)
    ensures i <= |s| && TrimStart(s) == s[i..]
    ensures forall k :: 0 <= k < i ==> IsWhiteSpace(s[k])
    ensures i < |s| ==> !IsWhiteSpace(s[i])
    decreases |s|
  {
    if |s| > 0 && IsWhiteSpace(s[0]) {
      var i' := TrimStartSlice(s[1..]);
      i := i' + 1;
      assert s[1..][i'..] == s[i..];
    } else {
      i := 0;
    }
  }

  lemma {:induction false} TrimEndSlice(s: string) returns (j: nat)
    ensures j <= |s| && TrimEnd(s) == s[..j]
    ensures forall k :: j <= k < |s| ==> IsWhiteSpace(s[k])
    ensures j > 0 ==> !IsWhiteSpace(s[j - 1])
    decreases |s|
  {
    if |s| > 0 && IsWhiteSpace(s[|s| - 1]) {
      j := TrimEndSlice(s[..|s| - 1]);
      assert s[..|s| - 1][..j] == s[..j];
    } else {
      j := |s|;
    }
  }

  lemma TrimIsTrim(s: string)
    ensures IsTrimOf(Trim(s), s)
  {
    var i := TrimStartSlice(s);
    var t := s[i..];
    var j := TrimEndSlice(t);
    assert t[..j] == s[i..i + j];
    forall k | i + j <= k < |s| ensures IsWhiteSpace(s[k]) {
      assert s[k] == t[k - i];
    }
    if j > 0 {
      assert s[i + j - 1] == t[j - 1];
    }
  }

  /** A text that neither starts nor ends with white space is left as it is. */
  lemma TrimUnchanged(s: string)
    requires |s| > 0 && !IsWhiteSpace(s[0]) && !IsWhiteSpace(s[|s| - 1])
    ensures Trim(s) == s
  {
  }
}
