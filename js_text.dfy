/**
 * The ECMAScript string built-ins the content script relies on:
 * `String.prototype.trim`, `includes`, `replace` with a string pattern,
 * `substr`, and `parseInt(s, 16)`.  Strings are sequences of characters;
 * `NaN` is `None`.
 */
module JsText {
  import opened Optional

  /**
   * ECMAScript WhiteSpace and LineTerminator code points (what `trim` and
   * `parseInt` skip): TAB, LF, VT, FF, CR, SPACE, NBSP, OGHAM SPACE MARK,
   * U+2000 to U+200A, LINE and PARAGRAPH SEPARATOR, NNBSP, MMSP,
   * IDEOGRAPHIC SPACE and the byte order mark.
   */
  predicate IsWhiteSpace(c: char) {
    || '\t' <= c <= '\r' || c == ' ' || c == '\U{00A0}' || c == '\U{1680}'
    || '\U{2000}' <= c <= '\U{200A}' || c == '\U{2028}' || c == '\U{2029}'
    || c == '\U{202F}' || c == '\U{205F}' || c == '\U{3000}' || c == '\U{FEFF}'
  }

  ghost predicate AllWhiteSpace(s: string) {
    forall i :: 0 <= i < |s| ==> IsWhiteSpace(s[i])
  }

  /** Drops leading white space: the result is the suffix of `s` starting at its first non-blank. */
  function TrimStart(s: string): (r: string)
    ensures |r| <= |s| && r == s[|s| - |r|..]
    ensures AllWhiteSpace(s[..|s| - |r|])
    ensures r == [] || !IsWhiteSpace(r[0])
  {
    if s != [] && IsWhiteSpace(s[0]) then
      var r := TrimStart(s[1..]);
      TrimStartStep(s, r);
      r
    else s
  }

  lemma TrimStartStep(s: string, r: string)
    requires s != [] && IsWhiteSpace(s[0])
    requires |r| <= |s[1..]| && r == s[1..][|s[1..]| - |r|..] && AllWhiteSpace(s[1..][..|s[1..]| - |r|])
    ensures |r| <= |s| && r == s[|s| - |r|..] && AllWhiteSpace(s[..|s| - |r|])
  {
    var k := |s| - |r|;
    forall i | 0 <= i < k ensures IsWhiteSpace(s[..k][i]) {
      if i > 0 { assert s[..k][i] == s[1..][..k - 1][i - 1]; }
    }
  }

  /** Drops trailing white space: the result is the prefix of `s` ending at its last non-blank. */
  function TrimEnd(s: string): (r: string)
    ensures |r| <= |s| && r == s[..|r|]
    ensures AllWhiteSpace(s[|r|..])
    ensures r == [] || !IsWhiteSpace(r[|r| - 1])
  {
    if s != [] && IsWhiteSpace(s[|s| - 1]) then
      var r := TrimEnd(s[..|s| - 1]);
      TrimEndStep(s, r);
      r
    else s
  }

  lemma TrimEndStep(s: string, r: string)
    requires s != [] && IsWhiteSpace(s[|s| - 1])
    requires |r| <= |s| - 1 && r == s[..|s| - 1][..|r|] && AllWhiteSpace(s[..|s| - 1][|r|..])
    ensures |r| <= |s| && r == s[..|r|] && AllWhiteSpace(s[|r|..])
  {
    var t := s[|r|..];
    forall i | 0 <= i < |t| ensures IsWhiteSpace(t[i]) {
      if i < |t| - 1 { assert t[i] == s[..|s| - 1][|r|..][i]; }
    }
  }

  /** `s.trim()`: the slice of `s` between its leading and its trailing white space. */
  function Trim(s: string): (r: string)
    ensures exists i :: TrimmedAt(s, r, i)
    ensures r == [] || (!IsWhiteSpace(r[0]) && !IsWhiteSpace(r[|r| - 1]))
    ensures r == [] <==> AllWhiteSpace(s)
  {
    var t := TrimStart(s);
    var r := TrimEnd(t);
    TrimParts(s, t, r);
    r
  }

  lemma TrimParts(s: string, t: string, r: string)
    requires |t| <= |s| && t == s[|s| - |t|..] && AllWhiteSpace(s[..|s| - |t|])
    requires t == [] || !IsWhiteSpace(t[0])
    requires |r| <= |t| && r == t[..|r|] && AllWhiteSpace(t[|r|..])
    ensures TrimmedAt(s, r, |s| - |t|)
    ensures r == [] <==> AllWhiteSpace(s)
  {
    var n := |s| - |t|;
    var p := s[..n];
    var q := t[|r|..];
    assert s == p + t;
    assert t == r + q;
    assert s[n..n + |r|] == r;
    assert s[n + |r|..] == q;
    if r == [] {
      AllWhiteSpaceConcat(p, q);
      assert s == p + q;
    } else {
      assert s[n] == r[0];
    }
  }

  lemma AllWhiteSpaceConcat(p: string, q: string)
    requires AllWhiteSpace(p) && AllWhiteSpace(q)
    ensures AllWhiteSpace(p + q)
  {
    forall i | 0 <= i < |p + q| ensures IsWhiteSpace((p + q)[i]) {
      if i >= |p| { assert (p + q)[i] == q[i - |p|]; }
    }
  }

  /** `r` sits at index `i` of `s` with only white space on either side of it. */
  ghost predicate TrimmedAt(s: string, r: string, i: int) {
    0 <= i && i + |r| <= |s| && r == s[i..i + |r|] && AllWhiteSpace(s[..i]) && AllWhiteSpace(s[i + |r|..])
  }

  ghost predicate OccursAt(s: string, k: string, i: int) {
    0 <= i && i + |k| <= |s| && s[i..i + |k|] == k
  }

  /** `s.includes(k)`: `k` occurs somewhere in `s` (the empty string occurs everywhere). */
  function Includes(s: string, k: string): (r: bool)
    ensures r <==> exists i :: OccursAt(s, k, i)
    decreases |s|
  {
    if |k| > |s| then false
    else if s[..|k|] == k then
      assert OccursAt(s, k, 0);
      true
    else
      IncludesShift(s, k);
      Includes(s[1..], k)
  }

  /** When `k` is not a prefix of `s`, it occurs in `s` exactly when it occurs in `s[1..]`. */
  lemma IncludesShift(s: string, k: string)
    requires |k| <= |s| && s[..|k|] != k
    ensures (exists i :: OccursAt(s, k, i)) <==> (exists i :: OccursAt(s[1..], k, i))
  {
    forall i | OccursAt(s[1..], k, i) ensures OccursAt(s, k, i + 1) {
      assert s[i + 1..i + 1 + |k|] == s[1..][i..i + |k|];
    }
    forall i | OccursAt(s, k, i) ensures OccursAt(s[1..], k, i - 1) {
      assert i != 0;
      assert s[1..][i - 1..i - 1 + |k|] == s[i..i + |k|];
    }
  }

  /** `s.replace(c, '')` for a one-character pattern: only the first occurrence is removed. */
  function RemoveFirst(s: string, c: char): (r: string)
    ensures c !in s ==> r == s
    ensures c in s ==> exists i :: RemovedAt(s, c, r, i)
  {
    if s == [] then []
    else if s[0] == c then
      assert RemovedAt(s, c, s[1..], 0);
      s[1..]
    else
      var t := RemoveFirst(s[1..], c);
      RemoveFirstCons(s, c, t);
      [s[0]] + t
  }

  /** `r` is `s` without its character at `i`, which is the first `c` of `s`. */
  ghost predicate RemovedAt(s: string, c: char, r: string, i: int) {
    0 <= i < |s| && s[i] == c && c !in s[..i] && r == s[..i] + s[i + 1..]
  }

  lemma RemoveFirstCons(s: string, c: char, t: string)
    requires s != [] && s[0] != c
    requires c !in s[1..] ==> t == s[1..]
    requires c in s[1..] ==> exists i :: RemovedAt(s[1..], c, t, i)
    ensures c !in s ==> [s[0]] + t == s
    ensures c in s ==> exists i :: RemovedAt(s, c, [s[0]] + t, i)
  {
    if c in s[1..] {
      var i :| RemovedAt(s[1..], c, t, i);
      assert s[..i + 1] == [s[0]] + s[1..][..i];
      assert s[i + 2..] == s[1..][i + 1..];
      assert RemovedAt(s, c, [s[0]] + t, i + 1);
    } else {
      assert s == [s[0]] + s[1..];
    }
  }

  /** `s.substr(start, len)`: at most `len` characters of `s` from `start`, empty past the end. */
  function Substr(s: string, start: nat, len: nat): (r: string)
    ensures |r| <= len
    ensures start < |s| ==> |r| == (if start + len <= |s| then len else |s| - start) && r == s[start..start + |r|]
    ensures start >= |s| ==> r == []
  {
    if start >= |s| then [] else if start + len <= |s| then s[start..start + len] else s[start..]
  }

  function HexDigit(c: char): Option<nat> {
    if '0' <= c <= '9' then Some(c as nat - '0' as nat)
    else if 'a' <= c <= 'f' then Some(c as nat - 'a' as nat + 10)
    else if 'A' <= c <= 'F' then Some(c as nat - 'A' as nat + 10)
    else None
  }

  /** The longest prefix of `s` made of hexadecimal digits. */
  function HexPrefix(s: string): (r: string)
    ensures |r| <= |s| && r == s[..|r|]
    ensures forall i :: 0 <= i < |r| ==> HexDigit(r[i]).Some?
    ensures |r| < |s| ==> HexDigit(s[|r|]).None?
  {
    if s != [] && HexDigit(s[0]).Some? then [s[0]] + HexPrefix(s[1..]) else []
  }

  /** The value of a string of hexadecimal digits, most significant first. */
  function HexValue(d: string): (v: nat)
    requires forall i :: 0 <= i < |d| ==> HexDigit(d[i]).Some?
    ensures v < Pow16(|d|)
  {
    if d == [] then 0 else HexValue(d[..|d| - 1]) * 16 + HexDigit(d[|d| - 1]).value
  }

  function Pow16(n: nat): (p: nat)
    ensures p > 0
  {
    if n == 0 then 1 else 16 * Pow16(n - 1)
  }

  /**
   * `parseInt(s, 16)`: skip leading white space, take an optional sign, drop a
   * `0x`/`0X` prefix, then read the longest run of hex digits; no digit is `NaN`.
   */
  function ParseIntHex(s: string): Option<int> {
    var d := HexPrefix(HexBody(s));
    if d == [] then None else Some(HexSign(s) * HexValue(d))
  }

  /** -1 when the first non-blank character of `s` is `-`, else 1. */
  function HexSign(s: string): int {
    var t := TrimStart(s);
    if t != [] && t[0] == '-' then -1 else 1
  }

  /** What `parseInt` reads digits from: `s` after white space, sign and `0x` prefix. */
  function HexBody(s: string): string {
    var t := TrimStart(s);
    var u := if t != [] && (t[0] == '-' || t[0] == '+') then t[1..] else t;
    if |u| >= 2 && u[0] == '0' && (u[1] == 'x' || u[1] == 'X') then u[2..] else u
  }
}
