/**
 * The string operations the handlers borrow from JavaScript: `String.prototype.trim`,
 * `indexOf` and `split` with a one-character separator, and `toLowerCase` restricted to ASCII.
 */
module Text {

  /**
   * ECMAScript's WhiteSpace and LineTerminator code points, the characters `trim` removes:
   * TAB, LF, VT, FF, CR, the space separators (category Zs) and U+2028, U+2029, U+FEFF.
   */
  predicate IsJsSpace(c: char)
  {
    JsSpaceCode(c as int)
  }

  /** The code points of `IsJsSpace`, written as numbers. */
  predicate JsSpaceCode(n: int)
  {
    (9 <= n <= 13) || n == 32 || n == 0xA0 || n == 0x1680 || (0x2000 <= n <= 0x200A)
    || n == 0x2028 || n == 0x2029 || n == 0x202F || n == 0x205F || n == 0x3000 || n == 0xFEFF
  }

  /** `s` without its leading white space. */
  function TrimStart(s: string): (r: string)
    ensures |r| <= |s| && r == s[|s| - |r|..]
    ensures forall k :: 0 <= k < |s| - |r| ==> IsJsSpace(s[k])
    ensures r != [] ==> !IsJsSpace(r[0])
  {
    if s != [] && IsJsSpace(s[0]) then
      var r := TrimStart(s[1..]);
      assert forall k :: 1 <= k < |s| ==> s[1..][k - 1] == s[k];
      r
    else s
  }

  /** `s` without its trailing white space. */
  function TrimEnd(s: string): (r: string)
    ensures |r| <= |s| && r == s[..|r|]
    ensures forall k :: |r| <= k < |s| ==> IsJsSpace(s[k])
    ensures r != [] ==> !IsJsSpace(r[|r| - 1])
  {
    if s != [] && IsJsSpace(s[|s| - 1]) then
      var init := s[..|s| - 1];
      var r := TrimEnd(init);
      assert r == s[..|r|] by { assert init[..|r|] == s[..|r|]; }
      assert forall k :: |r| <= k < |init| ==> init[k] == s[k];
      r
    else s
  }

  /** `s.trim()`: the text between the leading and the trailing white space. */
  function Trim(s: string): (r: string)
    ensures r == [] <==> forall k :: 0 <= k < |s| ==> IsJsSpace(s[k])
    ensures r != [] ==> !IsJsSpace(r[0]) && !IsJsSpace(r[|r| - 1])
    ensures (s == [] || (!IsJsSpace(s[0]) && !IsJsSpace(s[|s| - 1]))) ==> r == s
    ensures exists a :: Surrounded(s, r, a)
  {
    var r := TrimEnd(TrimStart(s));
    TrimSpec(s);
    assert Surrounded(s, r, |s| - |TrimStart(s)|) by { TrimFrame(s); }
    r
  }

  lemma TrimFrame(s: string)
    ensures Surrounded(s, TrimEnd(TrimStart(s)), |s| - |TrimStart(s)|)
  {
    var t := TrimStart(s);
    SliceFrame(s, t, TrimEnd(t));
  }

  /** White space before a suffix `t` of `s`, and white space after a prefix `r` of `t`, frame `r` in `s`. */
  lemma SliceFrame(s: string, t: string, r: string)
    requires |t| <= |s| && t == s[|s| - |t|..] && (forall k :: 0 <= k < |s| - |t| ==> IsJsSpace(s[k]))
    requires |r| <= |t| && r == t[..|r|] && (forall k :: |r| <= k < |t| ==> IsJsSpace(t[k]))
    ensures Surrounded(s, r, |s| - |t|)
  {
    var n := |s| - |t|;
    assert t[..|r|] == s[n..n + |r|];
    forall k | n + |r| <= k < |s| ensures IsJsSpace(s[k]) {
      assert s[k] == t[k - n];
    }
  }

  /** `r` is the slice of `s` at `a`, and everything of `s` before and after it is white space. */
  predicate Surrounded(s: string, r: string, a: nat)
  {
    && a + |r| <= |s|
    && r == s[a..a + |r|]
    && (forall k :: 0 <= k < a ==> IsJsSpace(s[k]))
    && (forall k :: a + |r| <= k < |s| ==> IsJsSpace(s[k]))
  }

  lemma TrimSpec(s: string)
    ensures TrimEnd(TrimStart(s)) == [] <==> forall k :: 0 <= k < |s| ==> IsJsSpace(s[k])
    ensures (s == [] || (!IsJsSpace(s[0]) && !IsJsSpace(s[|s| - 1]))) ==> TrimEnd(TrimStart(s)) == s
  {
    var t := TrimStart(s);
    var n := |s| - |t|;
    assert t == s[n..];
    if TrimEnd(t) == [] {
      AllSpaceSuffix(s, n);
    }
    if s != [] && !IsJsSpace(s[0]) && !IsJsSpace(s[|s| - 1]) {
      assert n == 0;
    }
  }

  lemma AllSpaceSuffix(s: string, n: nat)
    requires n <= |s|
    requires forall k :: 0 <= k < n ==> IsJsSpace(s[k])
    requires TrimEnd(s[n..]) == []
    ensures forall k :: 0 <= k < |s| ==> IsJsSpace(s[k])
  {
    var t := s[n..];
    assert forall k :: 0 <= k < |t| ==> IsJsSpace(t[k]);
    forall k | n <= k < |s| ensures IsJsSpace(s[k]) {
      assert s[k] == t[k - n];
    }
  }

  /** `s.indexOf(c)`: the position of the first `c` in `s`, or -1. */
  function IndexOf(s: string, c: char): (r: int)
    ensures -1 <= r < |s|
    ensures r == -1 <==> c !in s
    ensures r >= 0 ==> s[r] == c && c !in s[..r]
  {
    if s == [] then -1
    else if s[0] == c then 0
    else
      var r := IndexOf(s[1..], c);
      assert s[1..][..if r < 0 then 0 else r] == s[1..if r < 0 then 1 else r + 1];
      if r < 0 then -1 else r + 1
  }

  /** `s.split(sep)` for a one-character separator: the pieces between the separators. */
  function Split(s: string, sep: char): (parts: seq<string>)
    ensures |parts| >= 1
    ensures forall p :: p in parts ==> sep !in p
    decreases |s|
  {
    var i := IndexOf(s, sep);
    if i < 0 then [s] else [s[..i]] + Split(s[i + 1..], sep)
  }

  /** `parts.join(sep)`, the inverse of `Split`. */
  function Join(parts: seq<string>, sep: char): string
  {
    if parts == [] then []
    else if |parts| == 1 then parts[0]
    else parts[0] + [sep] + Join(parts[1..], sep)
  }

  lemma {:induction false} JoinSplit(s: string, sep: char)
    ensures Join(Split(s, sep), sep) == s
    decreases |s|
  {
    var i := IndexOf(s, sep);
    if i >= 0 {
      var head, tail := s[..i], s[i + 1..];
      assert s == head + [sep] + tail by { assert s[i] == sep; }
      var rest := Split(tail, sep);
      JoinSplit(tail, sep);
      JoinCons(head, rest, sep);
    }
  }

  lemma JoinCons(head: string, rest: seq<string>, sep: char)
    requires |rest| >= 1
    ensures Join([head] + rest, sep) == head + [sep] + Join(rest, sep)
  {
    assert ([head] + rest)[1..] == rest;
  }

  lemma {:induction false} SplitJoin(parts: seq<string>, sep: char)
    requires |parts| >= 1
    requires forall p :: p in parts ==> sep !in p
    ensures Split(Join(parts, sep), sep) == parts
  {
    if |parts| > 1 {
      var s := Join(parts, sep);
      var head := parts[0];
      assert s == head + ([sep] + Join(parts[1..], sep));
      assert s[|head|] == sep;
      assert s[..|head|] == head;
      IndexOfAt(s, sep, |head|);
      assert s[|head| + 1..] == Join(parts[1..], sep);
      assert forall p :: p in parts[1..] ==> p in parts;
      SplitJoin(parts[1..], sep);
      assert parts == [head] + parts[1..];
    }
  }

  /** The first `c` is at `n` when `s[n]` is a `c` and none comes before it. */
  lemma IndexOfAt(s: string, c: char, n: nat)
    requires n < |s| && s[n] == c && c !in s[..n]
    ensures IndexOf(s, c) == n
  {
    assert s[n] in s;
    var i := IndexOf(s, c);
    assert forall k :: 0 <= k < n ==> s[k] == s[..n][k];
    assert forall k :: 0 <= k < i ==> s[k] == s[..i][k];
  }

  /** ASCII `toLowerCase` of one character. */
  function LowerChar(c: char): (d: char)
    ensures !('A' <= d <= 'Z')
    ensures ('A' <= c <= 'Z') ==> d as int == c as int + 32
    ensures !('A' <= c <= 'Z') ==> d == c
  {
    if 'A' <= c <= 'Z' then (c as int + 32) as char else c
  }

  /** `s.toLowerCase()` on the ASCII letters; every other character is kept. */
  function ToLower(s: string): (r: string)
    ensures |r| == |s|
    ensures forall k :: 0 <= k < |r| ==> !('A' <= r[k] <= 'Z')
    ensures forall k :: 0 <= k < |s| ==> r[k] == LowerChar(s[k])
  {
    seq(|s|, k requires 0 <= k < |s| => LowerChar(s[k]))
  }

  /** No ASCII capital letter occurs in `s`. */
  predicate IsLower(s: string)
  {
    forall k :: 0 <= k < |s| ==> !('A' <= s[k] <= 'Z')
  }

  /** Lowercasing is idempotent: text without capitals comes back unchanged. */
  lemma ToLowerKeeps(s: string)
    requires IsLower(s)
    ensures ToLower(s) == s
  {
  }
}
