/** The .NET string and regular-expression primitives the configuration
    layer relies on: white space, ordinal case folding, ordinal prefix
    tests, `String.Trim`, the `.` of a regular expression, and the greedy,
    backtracking match of `X*` / `X+` followed by `.+`. */
module Text {
  import opened Wrappers

  /** `Char.IsWhiteSpace`, which is also the class `\s` of .NET regular
      expressions: the control characters TAB to CR, NEL, and the Unicode
      space, line and paragraph separators. */
  predicate IsWhiteSpace(c: char)
  {
    ('\t' <= c <= '\r') || c == ' ' || c == '\U{85}' || c == '\U{A0}' || c == '\U{1680}'
    || ('\U{2000}' <= c <= '\U{200A}') || c == '\U{2028}' || c == '\U{2029}'
    || c == '\U{202F}' || c == '\U{205F}' || c == '\U{3000}'
  }

  predicate IsColon(c: char)
  {
    c == ':'
  }

  /** `String.IsNullOrWhiteSpace` on a non-null string. */
  predicate IsAllWhiteSpace(s: string)
  {
    forall i :: 0 <= i < |s| ==> IsWhiteSpace(s[i])
  }

  /** Upper-casing of one character, restricted to ASCII letters. */
  function ToUpperAscii(c: char): (u: char)
    ensures 'a' <= c <= 'z' ==> u as int == c as int - 32
    ensures !('a' <= c <= 'z') ==> u == c
  {
    if 'a' <= c <= 'z' then (c as int - 32) as char else c
  }

  /** `ToUpperInvariant` on ASCII text. */
  function ToUpper(s: string): (u: string)
    ensures |u| == |s|
    ensures forall i :: 0 <= i < |s| ==> u[i] == ToUpperAscii(s[i])
  {
    seq(|s|, i requires 0 <= i < |s| => ToUpperAscii(s[i]))
  }

  /** Case-insensitive comparison of two strings, character by character. */
  predicate EqualsIgnoreCase(a: string, b: string)
  {
    |a| == |b| && forall i :: 0 <= i < |a| ==> ToUpperAscii(a[i]) == ToUpperAscii(b[i])
  }

  /** Ordinal `String.StartsWith`. */
  predicate StartsWith(s: string, prefix: string)
  {
    |prefix| <= |s| && s[..|prefix|] == prefix
  }

  function TrimStart(s: string): string
  {
    if |s| > 0 && IsWhiteSpace(s[0]) then TrimStart(s[1..]) else s
  }

  function TrimEnd(s: string): string
  {
    if |s| > 0 && IsWhiteSpace(s[|s| - 1]) then TrimEnd(s[..|s| - 1]) else s
  }

  /** `String.Trim()`: white space removed from both ends. */
  function Trim(s: string): string
  {
    TrimEnd(TrimStart(s))
  }

  /** What a greedy `.+` (or `.*`) takes from `s`: everything up to the first
      line feed, since `.` matches any character but `\n`. */
  function TakeLine(s: string): (r: string)
    ensures |r| <= |s| && r == s[..|r|]
    ensures forall i :: 0 <= i < |r| ==> r[i] != '\n'
    ensures |r| == |s| || s[|r|] == '\n'
  {
    if |s| == 0 || s[0] == '\n' then [] else [s[0]] + TakeLine(s[1..])
  }

  /** The end of the run of characters of class `inClass` that starts at `i`. */
  function RunEnd(t: string, inClass: char -> bool, i: nat): (n: nat)
    requires i <= |t|
    ensures i <= n <= |t|
    ensures forall j :: i <= j < n ==> inClass(t[j])
    ensures n < |t| ==> !inClass(t[n])
    decreases |t| - i
  {
    if i < |t| && inClass(t[i]) then RunEnd(t, inClass, i + 1) else i
  }

  /** The pattern `C{least,}(.+)` can start its `.+` at position `k` of `t`:
      the `k` characters before it are of class C and `t[k]` is not a line feed. */
  predicate SplitOk(t: string, inClass: char -> bool, least: nat, k: int)
  {
    least <= k < |t| && (forall j :: 0 <= j < k ==> inClass(t[j])) && t[k] != '\n'
  }

  /** The largest `k'` in `least..k` at which `t[k']` is not a line feed. */
  function LastSplit(t: string, least: nat, k: int): (r: Option<nat>)
    requires k < |t|
    ensures r.Some? ==> least <= r.value <= k && t[r.value] != '\n'
    ensures r.Some? ==> forall k' :: r.value < k' <= k ==> t[k'] == '\n'
    ensures r.None? ==> forall k' :: least <= k' <= k ==> t[k'] == '\n'
    decreases k - least + 1
  {
    if k < least then None
    else if t[k] != '\n' then Some(k)
    else LastSplit(t, least, k - 1)
  }

  /** Where a .NET regular expression `C{least,}(.+)`, matched at the start of
      `t`, splits it. The class run is tried longest first and given back one
      character at a time until `.+` can take a character, so the split is the
      LARGEST admissible one; None when there is none and the match fails. */
  function GreedySplit(t: string, inClass: char -> bool, least: nat): (r: Option<nat>)
    ensures r.Some? ==> SplitOk(t, inClass, least, r.value)
    ensures r.Some? ==> forall k :: r.value < k ==> !SplitOk(t, inClass, least, k)
    ensures r.None? ==> forall k :: !SplitOk(t, inClass, least, k)
  {
    if |t| == 0 then None
    else
      var n := RunEnd(t, inClass, 0);
      LastSplit(t, least, if n < |t| then n else |t| - 1)
  }
}
