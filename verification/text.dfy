/**
 * The JavaScript string operations the core relies on: truthiness of an
 * optional string, `length` in UTF-16 code units, `includes`, `indexOf`,
 * `replace` with a string pattern, `split` on one character, `trim`,
 * `toLowerCase` and `endsWith`.
 */
module Text {
  import opened Wrappers

  /** JavaScript truthiness of a string that may be `undefined`: both a missing value and "" are falsy. */
  predicate Present(s: Option<string>) {
    s.Some? && s.value != ""
  }

  // ---------------------------------------------------------------------
  // includes / indexOf / replace
  // ---------------------------------------------------------------------

  /** `p` occurs in `s` starting at position `i`. */
  predicate OccursAt(s: string, p: string, i: int) {
    0 <= i && i + |p| <= |s| && s[i..i + |p|] == p
  }

  /** `s.includes(p)`: a case-sensitive substring test. */
  predicate Includes(s: string, p: string) {
    exists i :: 0 <= i <= |s| - |p| && OccursAt(s, p, i)
  }

  /** `includes` holds exactly when the text splits into some prefix, the pattern and some suffix. */
  lemma IncludesIffInfix(s: string, p: string)
    ensures Includes(s, p) <==> exists a, c :: s == a + p + c
  {
    if Includes(s, p) {
      var i :| 0 <= i <= |s| - |p| && OccursAt(s, p, i);
      assert s == s[..i] + p + s[i + |p|..];
    }
    if exists a, c :: s == a + p + c {
      var a, c :| s == a + p + c;
      assert s[|a|..|a| + |p|] == p;
      assert OccursAt(s, p, |a|);
    }
  }

  /** `i` is the leftmost position at which `p` occurs in `s`. */
  predicate IsFirstOccurrence(s: string, p: string, i: int) {
    OccursAt(s, p, i) && forall j :: 0 <= j < i ==> !OccursAt(s, p, j)
  }

  /** The leftmost occurrence of `p` in `s` at or after `k`, or -1. */
  function IndexFrom(s: string, p: string, k: nat): (r: int)
    ensures r == -1 || (k <= r && OccursAt(s, p, r))
    ensures r == -1 ==> forall j :: k <= j ==> !OccursAt(s, p, j)
    ensures r != -1 ==> forall j :: k <= j < r ==> !OccursAt(s, p, j)
    decreases |s| - k
  {
    if k + |p| > |s| then -1
    else if s[k..k + |p|] == p then k
    else IndexFrom(s, p, k + 1)
  }

  /** `s.indexOf(p)`. */
  function IndexOf(s: string, p: string): (r: int)
    ensures r == -1 <==> !Includes(s, p)
    ensures r != -1 ==> IsFirstOccurrence(s, p, r)
  {
    IndexFrom(s, p, 0)
  }

  /** The first occurrence is unique, so `indexOf` finds exactly it. */
  lemma FirstOccurrenceIsIndexOf(s: string, p: string, i: int)
    requires IsFirstOccurrence(s, p, i)
    ensures IndexOf(s, p) == i
  {
    assert 0 <= i <= |s| - |p| && OccursAt(s, p, i);
    var r := IndexOf(s, p);
    assert OccursAt(s, p, r);
  }

  /** `s.replace(p, r)` with a string pattern: only the first occurrence of `p` is replaced. */
  function ReplaceFirst(s: string, p: string, r: string): (t: string)
    ensures !Includes(s, p) ==> t == s
    ensures Includes(s, p) ==> |t| == |s| - |p| + |r|
  {
    var i := IndexOf(s, p);
    if i < 0 then s else s[..i] + r + s[i + |p|..]
  }

  /** Where `p` first occurs, `replace` cuts exactly that occurrence out and splices `r` in. */
  lemma ReplaceFirstAt(s: string, p: string, r: string, i: int)
    requires IsFirstOccurrence(s, p, i)
    ensures ReplaceFirst(s, p, r) == s[..i] + r + s[i + |p|..]
  {
    FirstOccurrenceIsIndexOf(s, p, i);
  }

  /**
   * Removing the first occurrence leaves any later, non-overlapping
   * occurrence in place: a text with the pattern twice still contains it
   * after one `replace(p, "")`.
   */
  lemma ReplaceFirstKeepsLaterOccurrence(s: string, p: string, i: int, j: int)
    requires IsFirstOccurrence(s, p, i)
    requires OccursAt(s, p, j) && i + |p| <= j
    ensures OccursAt(ReplaceFirst(s, p, ""), p, j - |p|)
    ensures Includes(ReplaceFirst(s, p, ""), p)
  {
    ReplaceFirstAt(s, p, "", i);
    var t := ReplaceFirst(s, p, "");
    assert t == s[..i] + s[i + |p|..];
    assert t[j - |p|..j] == s[j..j + |p|] by {
      forall k | j - |p| <= k < j
        ensures t[k] == s[k + |p|]
      {
      }
    }
    assert 0 <= j - |p| <= |t| - |p| && OccursAt(t, p, j - |p|);
  }

  // ---------------------------------------------------------------------
  // split on one separator character
  // ---------------------------------------------------------------------

  /** `s.split(sep)` for a one-character separator: every piece between separators, empty pieces included. */
  function Split(s: string, sep: char): (parts: seq<string>)
    ensures |parts| >= 1
    ensures forall k :: 0 <= k < |parts| ==> sep !in parts[k]
  {
    if s == [] then [[]]
    else if s[0] == sep then [[]] + Split(s[1..], sep)
    else
      var rest := Split(s[1..], sep);
      [[s[0]] + rest[0]] + rest[1..]
  }

  /** `parts.join(sep)`. */
  function Join(parts: seq<string>, sep: char): string {
    if |parts| == 0 then []
    else if |parts| == 1 then parts[0]
    else parts[0] + [sep] + Join(parts[1..], sep)
  }

  /** Joining the pieces of a split gives the text back. */
  lemma {:induction false} JoinSplit(s: string, sep: char)
    ensures Join(Split(s, sep), sep) == s
  {
    if s == [] {
    } else {
      var rest := Split(s[1..], sep);
      JoinSplit(s[1..], sep);
      if s[0] == sep {
        assert Split(s, sep) == [[]] + rest;
        assert ([[]] + rest)[1..] == rest;
      } else {
        var parts := [[s[0]] + rest[0]] + rest[1..];
        assert Split(s, sep) == parts;
        if |rest| == 1 {
          assert Join(parts, sep) == [s[0]] + rest[0];
        } else {
          assert parts[1..] == rest[1..];
          assert Join(rest, sep) == rest[0] + [sep] + Join(rest[1..], sep);
        }
      }
    }
  }

  /** A text without the separator splits into itself alone. */
  lemma {:induction false} SplitWithoutSeparator(s: string, sep: char)
    requires sep !in s
    ensures Split(s, sep) == [s]
  {
    if s != [] {
      assert s[0] != sep && sep !in s[1..];
      SplitWithoutSeparator(s[1..], sep);
      assert [s[0]] + s[1..] == s;
    }
  }

  /** Splitting at the first separator: the first piece, then the split of the rest. */
  lemma {:induction false} SplitAtFirstSeparator(a: string, sep: char, b: string)
    requires sep !in a
    ensures Split(a + [sep] + b, sep) == [a] + Split(b, sep)
  {
    var s := a + [sep] + b;
    if a == [] {
      assert s[0] == sep && s[1..] == b;
    } else {
      assert s[0] == a[0] && s[1..] == a[1..] + [sep] + b;
      SplitAtFirstSeparator(a[1..], sep, b);
      assert [a[0]] + a[1..] == a;
    }
  }

  /** Splitting a join of separator-free pieces gives the pieces back. */
  lemma {:induction false} SplitJoin(parts: seq<string>, sep: char)
    requires |parts| >= 1
    requires forall k :: 0 <= k < |parts| ==> sep !in parts[k]
    ensures Split(Join(parts, sep), sep) == parts
  {
    if |parts| == 1 {
      SplitWithoutSeparator(parts[0], sep);
    } else {
      SplitJoin(parts[1..], sep);
      SplitAtFirstSeparator(parts[0], sep, Join(parts[1..], sep));
      assert [parts[0]] + parts[1..] == parts;
    }
  }

  /** `s.split(sep)[k]`: `undefined` when there are not that many pieces. */
  function Piece(s: string, sep: char, k: nat): (r: Option<string>)
    ensures r.Some? ==> sep !in r.value
    ensures r.None? <==> |Split(s, sep)| <= k
  {
    var parts := Split(s, sep);
    if k < |parts| then Some(parts[k]) else None
  }

  /** The usual `"<scheme> <token>"` header yields the token as its second space-separated word. */
  lemma BearerPiece(scheme: string, token: string)
    requires ' ' !in scheme && ' ' !in token
    ensures Piece(scheme + " " + token, ' ', 1) == Some(token)
  {
    assert Join([scheme, token], ' ') == scheme + " " + token;
    SplitJoin([scheme, token], ' ');
  }

  // ---------------------------------------------------------------------
  // trim
  // ---------------------------------------------------------------------

  /** ECMAScript white space and line terminators, the characters `trim` removes. */
  predicate IsWhitespace(c: char) {
    || ('\t' <= c <= '\r')
    || c == ' ' || c == '\U{00A0}' || c == '\U{1680}'
    || ('\U{2000}' <= c <= '\U{200A}')
    || c == '\U{2028}' || c == '\U{2029}' || c == '\U{202F}' || c == '\U{205F}'
    || c == '\U{3000}' || c == '\U{FEFF}'
  }

  predicate AllWhitespace(s: string) {
    forall k :: 0 <= k < |s| ==> IsWhitespace(s[k])
  }

  /** The first index at or after `k` that does not hold white space, or `|s|`. */
  function SkipForward(s: string, k: nat): (n: nat)
    requires k <= |s|
    ensures k <= n <= |s|
    ensures forall i :: k <= i < n ==> IsWhitespace(s[i])
    ensures n == |s| || !IsWhitespace(s[n])
    decreases |s| - k
  {
    if k < |s| && IsWhitespace(s[k]) then SkipForward(s, k + 1) else k
  }

  /** The index just after the last character before `k` that is not white space, or 0. */
  function SkipBackward(s: string, k: nat): (n: nat)
    requires k <= |s|
    ensures n <= k
    ensures forall i :: n <= i < k ==> IsWhitespace(s[i])
    ensures n == 0 || !IsWhitespace(s[n - 1])
  {
    if k > 0 && IsWhitespace(s[k - 1]) then SkipBackward(s, k - 1) else k
  }

  /** `s.trimStart()`: the suffix of `s` left after its leading white space. */
  function TrimStart(s: string): (t: string)
    ensures |t| <= |s| && t == s[|s| - |t|..]
    ensures AllWhitespace(s[..|s| - |t|])
    ensures t == [] || !IsWhitespace(t[0])
  {
    s[SkipForward(s, 0)..]
  }

  /** `s.trimEnd()`: the prefix of `s` left before its trailing white space. */
  function TrimEnd(s: string): (t: string)
    ensures |t| <= |s| && t == s[..|t|]
    ensures AllWhitespace(s[|t|..])
    ensures t == [] || !IsWhitespace(t[|t| - 1])
  {
    s[..SkipBackward(s, |s|)]
  }

  /** `trimStart` removes exactly the white space before the first other character. */
  lemma TrimStartAt(s: string, n: nat)
    requires n <= |s| && AllWhitespace(s[..n]) && (n == |s| || !IsWhitespace(s[n]))
    ensures TrimStart(s) == s[n..]
  {
    assert forall k :: 0 <= k < n ==> s[..n][k] == s[k];
    assert SkipForward(s, 0) == n;
  }

  /** `trimEnd` removes exactly the white space after the last other character. */
  lemma TrimEndAt(s: string, n: nat)
    requires n <= |s| && AllWhitespace(s[n..]) && (n == 0 || !IsWhitespace(s[n - 1]))
    ensures TrimEnd(s) == s[..n]
  {
    assert forall k :: n <= k < |s| ==> s[n..][k - n] == s[k];
    assert SkipBackward(s, |s|) == n;
  }

  /** A text that does not start with white space is its own `trimStart`. */
  lemma TrimStartOfUnpadded(t: string)
    requires t == [] || !IsWhitespace(t[0])
    ensures TrimStart(t) == t
  {
    assert SkipForward(t, 0) == 0;
    assert t[0..] == t;
  }

  /** A text that does not end with white space is its own `trimEnd`. */
  lemma TrimEndOfUnpadded(t: string)
    requires t == [] || !IsWhitespace(t[|t| - 1])
    ensures TrimEnd(t) == t
  {
    assert SkipBackward(t, |t|) == |t|;
    assert t[..|t|] == t;
  }

  /** `s.trim()`: a slice of `s` with only white space outside it and none at its ends. */
  function Trim(s: string): (t: string)
    ensures exists i, j :: 0 <= i <= j <= |s| && t == s[i..j]
                           && AllWhitespace(s[..i]) && AllWhitespace(s[j..])
    ensures t == [] || (!IsWhitespace(t[0]) && !IsWhitespace(t[|t| - 1]))
    ensures |t| <= |s|
  {
    var u := TrimStart(s);
    var t := TrimEnd(u);
    SliceOfSuffix(s, u, t);
    t
  }

  /** A prefix `t` of a suffix `u` of `s` is a slice of `s`, with what follows `t` in `u` ending `s`. */
  lemma SliceOfSuffix(s: string, u: string, t: string)
    requires |u| <= |s| && u == s[|s| - |u|..] && AllWhitespace(s[..|s| - |u|])
    requires |t| <= |u| && t == u[..|t|] && AllWhitespace(u[|t|..])
    ensures var i := |s| - |u|;
            && i + |t| <= |s| && t == s[i..i + |t|]
            && AllWhitespace(s[..i]) && AllWhitespace(s[i + |t|..])
  {
    var i := |s| - |u|;
    assert s[i + |t|..] == u[|t|..];
  }

  /** Leading white space makes no difference to `trimStart`. */
  lemma TrimStartSkipsPadding(pad: string, s: string)
    requires AllWhitespace(pad)
    ensures TrimStart(pad + s) == TrimStart(s)
  {
    var m := |s| - |TrimStart(s)|;
    var x := pad + s;
    forall i | 0 <= i < |pad| + m ensures IsWhitespace(x[i]) {
      if i < |pad| {
        assert x[i] == pad[i];
      } else {
        assert x[i] == s[..m][i - |pad|];
      }
    }
    assert forall i :: 0 <= i < |pad| + m ==> x[..|pad| + m][i] == x[i];
    assert |pad| + m == |x| || x[|pad| + m] == s[m];
    TrimStartAt(x, |pad| + m);
    assert x[|pad| + m..] == s[m..];
  }

  /** Trailing white space makes no difference to `trimEnd`. */
  lemma TrimEndSkipsPadding(s: string, pad: string)
    requires AllWhitespace(pad)
    ensures TrimEnd(s + pad) == TrimEnd(s)
  {
    var m := |TrimEnd(s)|;
    var x := s + pad;
    forall i | m <= i < |x| ensures IsWhitespace(x[i]) {
      if i < |s| {
        assert x[i] == s[m..][i - m];
      } else {
        assert x[i] == pad[i - |s|];
      }
    }
    assert forall i :: m <= i < |x| ==> x[m..][i - m] == x[i];
    assert m == 0 || x[m - 1] == s[m - 1];
    TrimEndAt(x, m);
    assert x[..m] == s[..m];
  }

  /** `trimStart` of a text that is not all white space passes trailing text through. */
  lemma TrimStartKeepsTail(s: string, tail: string)
    requires !AllWhitespace(s)
    ensures TrimStart(s + tail) == TrimStart(s) + tail
  {
    var m := |s| - |TrimStart(s)|;
    var x := s + tail;
    assert m < |s|;
    assert x[..m] == s[..m] && x[m] == s[m];
    TrimStartAt(x, m);
    assert x[m..] == s[m..] + tail;
  }

  /** A text that is all white space trims to nothing from the front. */
  lemma TrimStartOfWhitespace(s: string)
    requires AllWhitespace(s)
    ensures TrimStart(s) == []
  {
    assert s[..|s|] == s;
    TrimStartAt(s, |s|);
  }

  /** White space around a text does not change its `trim`. */
  lemma TrimIgnoresPadding(before: string, s: string, after: string)
    requires AllWhitespace(before) && AllWhitespace(after)
    ensures Trim(before + s + after) == Trim(s)
  {
    assert before + s + after == before + (s + after);
    TrimStartSkipsPadding(before, s + after);
    if AllWhitespace(s) {
      assert AllWhitespace(s + after) by {
        forall i | 0 <= i < |s + after| ensures IsWhitespace((s + after)[i]) {
          if i < |s| { assert (s + after)[i] == s[i]; } else { assert (s + after)[i] == after[i - |s|]; }
        }
      }
      TrimStartOfWhitespace(s + after);
      TrimStartOfWhitespace(s);
    } else {
      TrimStartKeepsTail(s, after);
      TrimEndSkipsPadding(TrimStart(s), after);
    }
  }

  /** Trimming twice is trimming once. */
  lemma TrimIdempotent(s: string)
    ensures Trim(Trim(s)) == Trim(s)
  {
    TrimOfUnpadded(Trim(s));
  }

  // ---------------------------------------------------------------------
  // toLowerCase and endsWith
  // ---------------------------------------------------------------------

  /** Lower case of one character (letters A to Z only). */
  function LowerChar(c: char): char {
    if 'A' <= c <= 'Z' then (c as int + 32) as char else c
  }

  predicate IsUpper(c: char) {
    'A' <= c <= 'Z'
  }

  /** `s.toLowerCase()`: each character lowered in place, no upper-case letter left. */
  function ToLower(s: string): (t: string)
    ensures |t| == |s|
    ensures forall k :: 0 <= k < |s| ==> t[k] == LowerChar(s[k])
    ensures forall k :: 0 <= k < |t| ==> !IsUpper(t[k])
    ensures s != [] ==> IsWhitespace(t[0]) == IsWhitespace(s[0])
    ensures s != [] ==> IsWhitespace(t[|t| - 1]) == IsWhitespace(s[|s| - 1])
  {
    seq(|s|, k requires 0 <= k < |s| => LowerChar(s[k]))
  }

  /** Lower-casing is idempotent. */
  lemma ToLowerIdempotent(s: string)
    ensures ToLower(ToLower(s)) == ToLower(s)
  {
  }

  /** Lower-casing never turns white space into text or text into white space. */
  lemma LowerCharKeepsWhitespace(c: char)
    ensures IsWhitespace(LowerChar(c)) == IsWhitespace(c)
  {
  }

  /** Lower-casing a suffix is taking the suffix of the lower-cased text. */
  lemma ToLowerSuffix(s: string, m: nat)
    requires m <= |s|
    ensures ToLower(s)[m..] == ToLower(s[m..])
  {
    var l, r := ToLower(s)[m..], ToLower(s[m..]);
    forall k | 0 <= k < |s| - m ensures l[k] == r[k] {
      assert s[m..][k] == s[m + k];
    }
  }

  /** Lower-casing a prefix is taking the prefix of the lower-cased text. */
  lemma ToLowerPrefix(s: string, m: nat)
    requires m <= |s|
    ensures ToLower(s)[..m] == ToLower(s[..m])
  {
    var l, r := ToLower(s)[..m], ToLower(s[..m]);
    forall k | 0 <= k < m ensures l[k] == r[k] {
      assert s[..m][k] == s[k];
    }
  }

  /** Lower-casing keeps white space exactly where it was. */
  lemma ToLowerKeepsWhitespace(s: string, i: nat, j: nat)
    requires i <= j <= |s|
    ensures AllWhitespace(s[i..j]) ==> AllWhitespace(ToLower(s)[i..j])
    ensures j < |s| ==> IsWhitespace(ToLower(s)[j]) == IsWhitespace(s[j])
    ensures 0 < i ==> IsWhitespace(ToLower(s)[i - 1]) == IsWhitespace(s[i - 1])
  {
    var l := ToLower(s);
    if AllWhitespace(s[i..j]) {
      forall k | 0 <= k < j - i ensures IsWhitespace(l[i..j][k]) {
        assert s[i..j][k] == s[i + k];
        LowerCharKeepsWhitespace(s[i + k]);
      }
    }
    if j < |s| {
      LowerCharKeepsWhitespace(s[j]);
    }
    if 0 < i {
      LowerCharKeepsWhitespace(s[i - 1]);
    }
  }

  lemma TrimStartCommutesWithLower(s: string)
    ensures TrimStart(ToLower(s)) == ToLower(TrimStart(s))
  {
    var m := |s| - |TrimStart(s)|;
    var l := ToLower(s);
    ToLowerKeepsWhitespace(s, 0, m);
    assert s[0..m] == s[..m] && l[0..m] == l[..m];
    TrimStartAt(l, m);
    ToLowerSuffix(s, m);
  }

  lemma TrimEndCommutesWithLower(s: string)
    ensures TrimEnd(ToLower(s)) == ToLower(TrimEnd(s))
  {
    var m := |TrimEnd(s)|;
    var l := ToLower(s);
    ToLowerKeepsWhitespace(s, m, |s|);
    assert s[m..|s|] == s[m..] && l[m..|s|] == l[m..];
    TrimEndAt(l, m);
    ToLowerPrefix(s, m);
  }

  /** Trimming and lower-casing can be applied in either order. */
  lemma TrimCommutesWithLower(s: string)
    ensures Trim(ToLower(s)) == ToLower(Trim(s))
  {
    TrimStartCommutesWithLower(s);
    TrimEndCommutesWithLower(TrimStart(s));
  }

  /** A value in the form a `trim: true, lowercase: true` path stores: no white space at either end, no upper-case letter. */
  predicate IsNormal(t: string) {
    && (t == [] || (!IsWhitespace(t[0]) && !IsWhitespace(t[|t| - 1])))
    && forall k :: 0 <= k < |t| ==> !IsUpper(t[k])
  }

  /** The value a schema path declared with `trim: true, lowercase: true` stores for `s`. */
  function Normalized(s: string): (t: string)
    ensures IsNormal(t)
    ensures |t| <= |s|
  {
    ToLower(Trim(s))
  }

  /** The values in stored form are exactly those that storing leaves unchanged. */
  lemma NormalIsFixpoint(t: string)
    ensures IsNormal(t) <==> Normalized(t) == t
  {
    if IsNormal(t) {
      NormalizedOfNormal(t);
    }
  }

  lemma NormalizedOfNormal(t: string)
    requires IsNormal(t)
    ensures Normalized(t) == t
  {
    TrimOfUnpadded(t);
    ToLowerOfLower(t);
  }

  /** A text with no white space at either end is its own `trim`. */
  lemma TrimOfUnpadded(t: string)
    requires t == [] || (!IsWhitespace(t[0]) && !IsWhitespace(t[|t| - 1]))
    ensures Trim(t) == t
  {
    TrimStartOfUnpadded(t);
    TrimEndOfUnpadded(t);
  }

  lemma ToLowerOfLower(t: string)
    requires forall k :: 0 <= k < |t| ==> !IsUpper(t[k])
    ensures ToLower(t) == t
  {
    assert forall k :: 0 <= k < |t| ==> ToLower(t)[k] == t[k];
  }

  /** A text made only of white space is stored as the empty string. */
  lemma NormalizedOfWhitespace(s: string)
    requires AllWhitespace(s)
    ensures Normalized(s) == ""
  {
    TrimStartOfWhitespace(s);
    assert Trim(s) == [];
  }

  /** Storing a stored value again changes nothing. */
  lemma NormalizedIdempotent(s: string)
    ensures Normalized(Normalized(s)) == Normalized(s)
  {
    NormalIsFixpoint(Normalized(s));
  }

  /** Values that differ only by surrounding white space are stored alike. */
  lemma NormalizedIgnoresPadding(before: string, s: string, after: string)
    requires AllWhitespace(before) && AllWhitespace(after)
    ensures Normalized(before + s + after) == Normalized(s)
  {
    TrimIgnoresPadding(before, s, after);
  }

  /** Values that differ only by letter case are stored alike. */
  lemma NormalizedIgnoresCase(s: string)
    ensures Normalized(ToLower(s)) == Normalized(s)
  {
    TrimCommutesWithLower(s);
    ToLowerIdempotent(Trim(s));
  }

  /** `s.endsWith(suffix)`. */
  predicate EndsWith(s: string, suffix: string) {
    |suffix| <= |s| && s[|s| - |suffix|..] == suffix
  }

  /** `endsWith` holds exactly when the text is some prefix followed by the suffix. */
  lemma EndsWithIffSuffix(s: string, suffix: string)
    ensures EndsWith(s, suffix) <==> exists prefix :: s == prefix + suffix
  {
    if EndsWith(s, suffix) {
      assert s == s[..|s| - |suffix|] + suffix;
    }
    if exists prefix :: s == prefix + suffix {
      var prefix :| s == prefix + suffix;
      assert s[|s| - |suffix|..] == suffix;
    }
  }

  /** The UTF-16 code units of one character: two for a character outside the Basic Multilingual Plane. */
  function CodeUnits(c: char): (n: nat)
    ensures n == 1 <==> c <= '\U{FFFF}'
    ensures n == 2 <==> c > '\U{FFFF}'
  {
    if c <= '\U{FFFF}' then 1 else 2
  }

  /** `s.length`: the number of UTF-16 code units. */
  function JsLength(s: string): (n: nat)
    ensures |s| <= n <= 2 * |s|
  {
    if s == [] then 0 else JsLength(s[..|s| - 1]) + CodeUnits(s[|s| - 1])
  }

  /** A text without characters outside the Basic Multilingual Plane has one code unit per character. */
  lemma {:induction false} JsLengthOfBmp(s: string)
    requires forall i :: 0 <= i < |s| ==> s[i] <= '\U{FFFF}'
    ensures JsLength(s) == |s|
  {
    if s != [] {
      JsLengthOfBmp(s[..|s| - 1]);
    }
  }

  /** The code units of a concatenation add up. */
  lemma {:induction false} JsLengthAppend(a: string, b: string)
    ensures JsLength(a + b) == JsLength(a) + JsLength(b)
  {
    if b == [] {
      assert a + b == a;
    } else {
      var init := b[..|b| - 1];
      assert (a + b)[..|a + b| - 1] == a + init;
      JsLengthAppend(a, init);
    }
  }
}
