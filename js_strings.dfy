/** The JavaScript string and regular-expression primitives that the subscription
    form applies to what the user types, as functions on Dafny strings. A Dafny
    `char` is a Unicode scalar value, and lengths here count scalar values,
    whereas JavaScript's `.length` counts UTF-16 code units (`Utf16Length`).
    Every character these primitives look for (digits, `@`, `.`, whitespace) is
    in the Basic Multilingual Plane, so the searches agree either way; the two
    lengths agree on strings of such characters (`Utf16LengthOfBmp`). */
module JsStrings {

  datatype Option<+T> = None | Some(value: T)

  /** `\d` in a regular expression without the `u` flag: an ASCII decimal digit. */
  predicate IsDigit(c: char) {
    '0' <= c <= '9'
  }

  predicate AllDigits(s: string) {
    forall i :: 0 <= i < |s| ==> IsDigit(s[i])
  }

  /** `\s`, and the characters `String.prototype.trim` removes: the ECMAScript
      WhiteSpace and LineTerminator code points. */
  predicate IsWhitespace(c: char) {
    || c == '\t' || c == '\n' || c == '\U{B}' || c == '\U{C}' || c == '\r' || c == ' '
    || c == '\U{A0}' || c == '\U{1680}' || '\U{2000}' <= c <= '\U{200A}'
    || c == '\U{2028}' || c == '\U{2029}' || c == '\U{202F}' || c == '\U{205F}'
    || c == '\U{3000}' || c == '\U{FEFF}'
  }

  predicate NoWhitespace(s: string) {
    forall i :: 0 <= i < |s| ==> !IsWhitespace(s[i])
  }

  // ---------------------------------------------------------------------------
  // s.replace(/\D/g, '')

  /** The digits of `s`, in their original order: `s.replace(/\D/g, '')`. */
  function KeepDigits(s: string): (r: string)
    ensures AllDigits(r)
    ensures |r| <= |s|
  {
    if s == [] then []
    else if IsDigit(s[0]) then [s[0]] + KeepDigits(s[1..])
    else KeepDigits(s[1..])
  }

  /** `r` can be obtained from `s` by deleting characters. */
  ghost predicate IsSubsequence(r: string, s: string)
    decreases |s|
  {
    r == [] || (s != [] && if r[0] == s[0] then IsSubsequence(r[1..], s[1..]) else IsSubsequence(r, s[1..]))
  }

  /** Stripping non-digits distributes over concatenation: what is kept of a
      string is what is kept of each of its parts, in the same order. */
  lemma {:induction false} KeepDigitsAppend(a: string, b: string)
    ensures KeepDigits(a + b) == KeepDigits(a) + KeepDigits(b)
  {
    if a == [] {
      assert a + b == b;
    } else {
      assert (a + b)[0] == a[0];
      assert (a + b)[1..] == a[1..] + b;
      KeepDigitsAppend(a[1..], b);
    }
  }

  /** The result keeps the order of the input: it is a subsequence of it. */
  lemma {:induction false} KeepDigitsIsSubsequence(s: string)
    ensures IsSubsequence(KeepDigits(s), s)
  {
    if s != [] {
      KeepDigitsIsSubsequence(s[1..]);
    }
  }

  /** Every digit occurs in the result as often as in the input, and nothing else occurs. */
  lemma {:induction false} KeepDigitsCounts(s: string, c: char)
    ensures multiset(KeepDigits(s))[c] == if IsDigit(c) then multiset(s)[c] else 0
  {
    if s != [] {
      KeepDigitsCounts(s[1..], c);
      assert s == [s[0]] + s[1..];
      assert multiset(s) == multiset([s[0]]) + multiset(s[1..]);
      if IsDigit(s[0]) {
        assert multiset(KeepDigits(s)) == multiset([s[0]]) + multiset(KeepDigits(s[1..]));
      }
    }
  }

  /** A string is left unchanged exactly when it holds digits only. */
  lemma {:induction false} KeepDigitsFixesDigits(s: string)
    ensures KeepDigits(s) == s <==> AllDigits(s)
  {
    if s != [] {
      KeepDigitsFixesDigits(s[1..]);
      if AllDigits(s) {
        assert AllDigits(s[1..]) by {
          forall i | 0 <= i < |s[1..]| ensures IsDigit(s[1..][i]) { assert s[1..][i] == s[i + 1]; }
        }
        assert KeepDigits(s) == [s[0]] + s[1..];
      }
    }
  }

  // ---------------------------------------------------------------------------
  // s.length

  /** A character that UTF-16 encodes as one code unit. */
  predicate InBmp(c: char) {
    c <= '\U{FFFF}'
  }

  /** JavaScript's `s.length`: a character outside the Basic Multilingual
      Plane takes two UTF-16 code units (a surrogate pair). */
  function Utf16Length(s: string): (n: nat)
    ensures |s| <= n <= 2 * |s|
  {
    if s == [] then 0 else (if InBmp(s[0]) then 1 else 2) + Utf16Length(s[1..])
  }

  /** On characters of the Basic Multilingual Plane both lengths agree. */
  lemma {:induction false} Utf16LengthOfBmp(s: string)
    requires forall i :: 0 <= i < |s| ==> InBmp(s[i])
    ensures Utf16Length(s) == |s|
  {
    if s != [] {
      assert forall i :: 0 <= i < |s[1..]| ==> s[1..][i] == s[i + 1];
      Utf16LengthOfBmp(s[1..]);
    }
  }

  /** A single character takes two code units outside the Basic Multilingual
      Plane and one inside it. */
  lemma Utf16LengthOfChar(c: char)
    ensures Utf16Length([c]) == if InBmp(c) then 1 else 2
  {
    assert [c][1..] == [];
  }

  /** Code units add up over concatenation; with `Utf16LengthOfChar` this
      fixes `.length` on every string. */
  lemma {:induction false} Utf16LengthAppend(a: string, b: string)
    ensures Utf16Length(a + b) == Utf16Length(a) + Utf16Length(b)
  {
    if a == [] {
      assert a + b == b;
    } else {
      assert (a + b)[0] == a[0];
      assert (a + b)[1..] == a[1..] + b;
      Utf16LengthAppend(a[1..], b);
    }
  }

  // ---------------------------------------------------------------------------
  // s.slice(0, n)

  /** `s.slice(0, n)`: the first `n` characters, or all of `s` when it is shorter. */
  function Take(s: string, n: nat): (r: string)
    ensures |r| == if |s| <= n then |s| else n
    ensures r <= s
  {
    if |s| <= n then s else s[..n]
  }

  // ---------------------------------------------------------------------------
  // s.trim()

  function TrimStart(s: string): (r: string)
    ensures |r| <= |s| && r == s[|s| - |r|..]
    ensures r == [] || !IsWhitespace(r[0])
    ensures forall i :: 0 <= i < |s| - |r| ==> IsWhitespace(s[i])
  {
    if s != [] && IsWhitespace(s[0]) then TrimStart(s[1..]) else s
  }

  function TrimEnd(s: string): (r: string)
    ensures r <= s
    ensures r == [] || !IsWhitespace(r[|r| - 1])
    ensures forall i :: |r| <= i < |s| ==> IsWhitespace(s[i])
  {
    if s != [] && IsWhitespace(s[|s| - 1]) then TrimEnd(s[..|s| - 1]) else s
  }

  predicate AllWhitespace(s: string) {
    forall i :: 0 <= i < |s| ==> IsWhitespace(s[i])
  }

  /** `s.trim()`: `s` without its leading and trailing whitespace (where the
      result sits in `s` is stated by `TrimIsSlice`). */
  function Trim(s: string): (r: string)
    ensures r == [] || (!IsWhitespace(r[0]) && !IsWhitespace(r[|r| - 1]))
    ensures |r| <= |s|
  {
    TrimEnd(TrimStart(s))
  }

  /** `s` is a whitespace-only prefix, then `s.trim()`, then a whitespace-only
      suffix. With the contract of `Trim`, which says the result neither begins
      nor ends with whitespace, this pins the result down: exactly the leading
      and trailing whitespace is removed. */
  lemma {:induction false} TrimIsSlice(s: string)
    ensures var r := Trim(s); var k := |s| - |TrimStart(s)|;
      && k + |r| <= |s| && s == s[..k] + r + s[k + |r|..]
      && AllWhitespace(s[..k]) && AllWhitespace(s[k + |r|..])
  {
    TrimStartSlice(s);
    var t := TrimStart(s);
    TrimEndSlice(t);
    var r := TrimEnd(t);
    var k := |s| - |t|;
    ThreeParts(s, s[..k], t, r, t[|r|..]);
  }

  /** `s` split as `pre + t`, with `t` split as `r + post`. */
  lemma ThreeParts<T>(s: seq<T>, pre: seq<T>, t: seq<T>, r: seq<T>, post: seq<T>)
    requires s == pre + t && t == r + post
    ensures s == pre + r + post && s[|pre| + |r|..] == post
  {
    assert s[|pre| + |r|..] == post;
  }

  lemma {:induction false} TrimStartSlice(s: string)
    ensures var t := TrimStart(s); var k := |s| - |t|;
      s == s[..k] + t && AllWhitespace(s[..k])
  {
    var t := TrimStart(s);
    WhitespaceRun(s, 0, |s| - |t|);
  }

  lemma {:induction false} TrimEndSlice(t: string)
    ensures var r := TrimEnd(t); t == r + t[|r|..] && AllWhitespace(t[|r|..])
  {
    var r := TrimEnd(t);
    WhitespaceRun(t, |r|, |t|);
  }

  /** A run of whitespace positions in `s` is a whitespace-only slice, and
      cutting `s` around it gives `s` back. */
  lemma WhitespaceRun(s: string, lo: nat, hi: nat)
    requires lo <= hi <= |s|
    requires forall i :: lo <= i < hi ==> IsWhitespace(s[i])
    ensures AllWhitespace(s[lo..hi])
    ensures s == s[..lo] + s[lo..hi] + s[hi..]
  {
    forall i | 0 <= i < hi - lo ensures IsWhitespace(s[lo..hi][i]) {
      assert s[lo..hi][i] == s[lo + i];
    }
  }

  /** `s.trim()` is the empty (falsy) string exactly when `s` is whitespace only. */
  lemma TrimEmptyIff(s: string)
    ensures Trim(s) == [] <==> AllWhitespace(s)
  {
    var t := TrimStart(s);
    if t != [] {
      assert t[0] == s[|s| - |t|];
    }
  }

  // ---------------------------------------------------------------------------
  // s.indexOf(c), s.split(c)

  /** `s.indexOf(c)`, with `None` for -1: the position of the first `c`. */
  function IndexOf(s: string, c: char): (r: Option<nat>)
    ensures r.None? <==> c !in s
    ensures r.Some? ==> r.value < |s| && s[r.value] == c && c !in s[..r.value]
  {
    if s == [] then None
    else if s[0] == c then Some(0)
    else match IndexOf(s[1..], c)
      case None => None
      case Some(i) =>
        assert s[1..][..i] == s[1..i + 1];
        Some(i + 1)
  }

  /** `s.split(sep)` for a one-character separator: the pieces between the
      occurrences of `sep`, from left to right; there is always at least one. */
  function Split(s: string, sep: char): (parts: seq<string>)
    ensures |parts| >= 1
    ensures forall k :: 0 <= k < |parts| ==> sep !in parts[k]
    decreases |s|
  {
    match IndexOf(s, sep)
    case None => [s]
    case Some(i) => [s[..i]] + Split(s[i + 1..], sep)
  }

  /** `parts.join(sep)`. */
  function Join(parts: seq<string>, sep: char): string
    requires |parts| >= 1
  {
    if |parts| == 1 then parts[0] else parts[0] + [sep] + Join(parts[1..], sep)
  }

  lemma IndexOfAfterPrefix(a: string, c: char, rest: string)
    requires c !in a
    ensures IndexOf(a + [c] + rest, c) == Some(|a|)
  {
    var s := a + [c] + rest;
    assert s[..|a|] == a;
    assert s[|a|] == c;
  }

  /** Joining the pieces of a split gives back the original string. */
  lemma {:induction false} SplitJoin(s: string, sep: char)
    ensures Join(Split(s, sep), sep) == s
    decreases |s|
  {
    var found := IndexOf(s, sep);
    if found.Some? {
      var i := found.value;
      var tail := s[i + 1..];
      assert Split(s, sep) == [s[..i]] + Split(tail, sep);
      SplitJoin(tail, sep);
      assert s == s[..i] + [sep] + tail;
    }
  }

  /** Splitting a join of separator-free pieces gives back the pieces. */
  lemma {:induction false} JoinSplit(parts: seq<string>, sep: char)
    requires |parts| >= 1
    requires forall k :: 0 <= k < |parts| ==> sep !in parts[k]
    ensures Split(Join(parts, sep), sep) == parts
  {
    if |parts| == 1 {
      assert IndexOf(parts[0], sep) == None;
    } else {
      var head, rest := parts[0], Join(parts[1..], sep);
      var s := head + [sep] + rest;
      assert Join(parts, sep) == s;
      IndexOfAfterPrefix(head, sep, rest);
      assert s[..|head|] == head;
      assert s[|head| + 1..] == rest;
      assert Split(s, sep) == [head] + Split(rest, sep);
      JoinSplit(parts[1..], sep);
      assert parts == [head] + parts[1..];
    }
  }

  // ---------------------------------------------------------------------------
  // s.toLowerCase()

  function LowerChar(c: char): (r: char)
    ensures !('A' <= r <= 'Z')
  {
    if 'A' <= c <= 'Z' then (c as int + 32) as char else c
  }

  /** `s.toLowerCase()` on the ASCII letters; every other character is kept. */
  function AsciiLower(s: string): (r: string)
    ensures |r| == |s|
    ensures forall i :: 0 <= i < |s| ==> r[i] == LowerChar(s[i])
  {
    seq(|s|, i requires 0 <= i < |s| => LowerChar(s[i]))
  }

  predicate HasNoUpper(s: string) {
    forall i :: 0 <= i < |s| ==> !('A' <= s[i] <= 'Z')
  }

  /** Lower-casing leaves a string without ASCII capitals unchanged. */
  lemma AsciiLowerFixesLower(s: string)
    requires HasNoUpper(s)
    ensures AsciiLower(s) == s
  {
    var r := AsciiLower(s);
    assert forall i :: 0 <= i < |s| ==> r[i] == s[i];
  }
}
