/**
  The handful of Python `str` operations the pipeline relies on:
  `isspace`, `isdigit`, `lower`, `strip`, `split(sep)`, `sep.join`,
  `replace(c, '')` and the substring test `sub in s`.
 */
module Text {

  /** The characters Python's `str.isspace()` (and so `strip()` and the regex `\s`) treats as whitespace. */
  predicate IsSpace(c: char) {
    || c == ' '
    || ('\t' <= c <= '\r')
    || ('\U{1C}' <= c <= '\U{1F}')
    || c == '\U{85}' || c == '\U{A0}' || c == '\U{1680}'
    || ('\U{2000}' <= c <= '\U{200A}')
    || c == '\U{2028}' || c == '\U{2029}' || c == '\U{202F}' || c == '\U{205F}' || c == '\U{3000}'
  }

  /** An ASCII decimal digit. */
  predicate IsDigit(c: char) {
    '0' <= c <= '9'
  }

  predicate IsUpper(c: char) {
    'A' <= c <= 'Z'
  }

  function LowerChar(c: char): (r: char)
    ensures IsUpper(c) ==> r as int == c as int + 32
    ensures !IsUpper(c) ==> r == c
  {
    if IsUpper(c) then (c as int + 32) as char else c
  }

  /** `s.lower()`, for the ASCII letters. */
  function Lower(s: string): (r: string)
    ensures |r| == |s|
  {
    seq(|s|, i requires 0 <= i < |s| => LowerChar(s[i]))
  }

  predicate IsLower(s: string) {
    forall i :: 0 <= i < |s| ==> !IsUpper(s[i])
  }

  /** Lowering leaves nothing upper-case, changes no lower-case text, and so is idempotent. */
  lemma LowerFacts(s: string)
    ensures IsLower(Lower(s))
    ensures IsLower(s) ==> Lower(s) == s
    ensures Lower(Lower(s)) == Lower(s)
  {
  }

  lemma LowerAppend(a: string, b: string)
    ensures Lower(a + b) == Lower(a) + Lower(b)
  {
  }

  /** Lowering only changes letters: a character is a digit, a space or any given non-letter exactly when its lowered form is. */
  lemma LowerKeepsNonLetters(s: string, c: char)
    requires !IsUpper(c) && !('a' <= c <= 'z')
    ensures forall i :: 0 <= i < |s| ==> (Lower(s)[i] == c <==> s[i] == c)
  {
  }

  lemma LowerKeepsChar(s: string, c: char)
    requires !IsUpper(c) && !('a' <= c <= 'z')
    ensures c in Lower(s) <==> c in s
  {
    LowerKeepsNonLetters(s, c);
    if c in Lower(s) {
      var i :| 0 <= i < |s| && Lower(s)[i] == c;
      assert s[i] == c;
    }
    if c in s {
      var i :| 0 <= i < |s| && s[i] == c;
      assert Lower(s)[i] == c;
    }
  }

  // ---------------------------------------------------------------------
  // strip()

  /** `s.lstrip()`: drops leading whitespace. */
  function TrimStart(s: string): (r: string)
    ensures |r| <= |s| && r == s[|s| - |r|..]
    ensures forall k :: 0 <= k < |s| - |r| ==> IsSpace(s[k])
    ensures r == [] || !IsSpace(r[0])
  {
    if s != [] && IsSpace(s[0]) then TrimStart(s[1..]) else s
  }

  /** `s.rstrip()`: drops trailing whitespace. */
  function TrimEnd(s: string): (r: string)
    ensures |r| <= |s| && r == s[..|r|]
    ensures forall k :: |r| <= k < |s| ==> IsSpace(s[k])
    ensures r == [] || !IsSpace(r[|r| - 1])
  {
    if s != [] && IsSpace(s[|s| - 1]) then TrimEnd(s[..|s| - 1]) else s
  }

  /** Neither starts nor ends with whitespace. */
  predicate IsStripped(s: string) {
    s == [] || (!IsSpace(s[0]) && !IsSpace(s[|s| - 1]))
  }

  predicate AllSpace(s: string) {
    forall k :: 0 <= k < |s| ==> IsSpace(s[k])
  }

  /**
    `s.strip()`: the part of `s` between its leading and its trailing
    whitespace; empty exactly when `s` is all whitespace.
   */
  function Strip(s: string): (r: string)
    ensures IsStripped(r)
    ensures r == [] <==> AllSpace(s)
    ensures |r| <= |s|
  {
    var t := TrimStart(s);
    var r := TrimEnd(t);
    assert r != [] ==> r[0] == t[0];
    r
  }

  /** Only whitespace is removed: any other character occurs in the stripped text exactly when it occurs in the text. */
  lemma StripKeepsChar(s: string, c: char)
    requires !IsSpace(c)
    ensures c in Strip(s) <==> c in s
  {
    TrimStartKeepsChar(s, c);
    TrimEndKeepsChar(TrimStart(s), c);
  }

  lemma TrimStartKeepsChar(s: string, c: char)
    requires !IsSpace(c)
    ensures c in TrimStart(s) <==> c in s
  {
    var t := TrimStart(s);
    assert t == s[|s| - |t|..|s| - |t| + |t|];
    TrimKeepsChar(s, t, |s| - |t|, c);
  }

  lemma TrimEndKeepsChar(s: string, c: char)
    requires !IsSpace(c)
    ensures c in TrimEnd(s) <==> c in s
  {
    var r := TrimEnd(s);
    assert r == s[0..0 + |r|];
    TrimKeepsChar(s, r, 0, c);
  }

  /** Cutting off whitespace at both ends keeps every other character. */
  lemma TrimKeepsChar(s: string, r: string, d: nat, c: char)
    requires !IsSpace(c)
    requires d + |r| <= |s| && r == s[d..d + |r|]
    requires forall k :: 0 <= k < d ==> IsSpace(s[k])
    requires forall k :: d + |r| <= k < |s| ==> IsSpace(s[k])
    ensures c in r <==> c in s
  {
    if c in s {
      var i :| 0 <= i < |s| && s[i] == c;
      assert r[i - d] == c;
    }
  }

  /** Stripping text that is already stripped changes nothing; so `strip` is idempotent. */
  lemma StripStripped(s: string)
    requires IsStripped(s)
    ensures Strip(s) == s
  {
  }

  lemma StripIdempotent(s: string)
    ensures Strip(Strip(s)) == Strip(s)
  {
    StripStripped(Strip(s));
  }

  /** Whitespace in front of stripped text is exactly what `strip` removes. */
  lemma {:induction false} StripPadded(w: string, t: string)
    requires AllSpace(w) && IsStripped(t)
    ensures Strip(w + t) == t
  {
    TrimStartPadded(w, t);
    StripStripped(t);
  }

  lemma OneSpace()
    ensures AllSpace(" ")
  {
    assert IsSpace(' ');
  }

  /** Whitespace on both sides of stripped text is exactly what `strip` removes. */
  lemma StripSurrounded(w1: string, t: string, w2: string)
    requires AllSpace(w1) && IsStripped(t) && AllSpace(w2)
    ensures Strip(w1 + t + w2) == t
  {
    if t == [] {
      assert AllSpace(w1 + t + w2);
    } else {
      assert w1 + t + w2 == w1 + (t + w2);
      assert (t + w2)[0] == t[0];
      TrimStartPadded(w1, t + w2);
      TrimEndPadded(t, w2);
    }
  }

  lemma {:induction false} TrimEndPadded(t: string, w: string)
    requires AllSpace(w) && (t == [] || !IsSpace(t[|t| - 1]))
    ensures TrimEnd(t + w) == t
    decreases |w|
  {
    if w == [] {
      assert t + w == t;
    } else {
      var u := t + w;
      assert u[|u| - 1] == w[|w| - 1];
      assert u[..|u| - 1] == t + w[..|w| - 1];
      TrimEndPadded(t, w[..|w| - 1]);
    }
  }

  lemma {:induction false} TrimStartPadded(w: string, t: string)
    requires AllSpace(w) && (t == [] || !IsSpace(t[0]))
    ensures TrimStart(w + t) == t
  {
    if w == [] {
      assert w + t == t;
    } else {
      assert (w + t)[0] == w[0];
      assert (w + t)[1..] == w[1..] + t;
      TrimStartPadded(w[1..], t);
    }
  }

  /** Length of the run of digits `s` starts with (a greedy `\d+` or `\d*`). */
  function LeadingDigits(s: string): (n: nat)
    ensures n <= |s|
    ensures forall k :: 0 <= k < n ==> IsDigit(s[k])
    ensures n == |s| || !IsDigit(s[n])
  {
    if s != [] && IsDigit(s[0]) then 1 + LeadingDigits(s[1..]) else 0
  }

  // ---------------------------------------------------------------------
  // split(sep) and sep.join(parts)

  /** Number of occurrences of `c` in `s`. */
  function Occurrences(s: string, c: char): nat {
    multiset(s)[c]
  }

  /** `sep.join(parts)`. */
  function Join(parts: seq<string>, sep: string): string {
    if |parts| == 0 then []
    else if |parts| == 1 then parts[0]
    else parts[0] + sep + Join(parts[1..], sep)
  }

  /**
    `s.split(sep)` for a one-character separator: separator-free pieces,
    one more than there are separators.  `JoinSplit` and `SplitJoin` show
    that splitting and joining are inverse to each other.
   */
  function Split(s: string, sep: char): (r: seq<string>)
    ensures |r| == Occurrences(s, sep) + 1
    ensures forall i :: 0 <= i < |r| ==> sep !in r[i]
  {
    if s == [] then [[]]
    else
      var rest := Split(s[1..], sep);
      assert s == [s[0]] + s[1..];
      assert multiset(s) == multiset{s[0]} + multiset(s[1..]);
      if s[0] == sep then [[]] + rest
      else [[s[0]] + rest[0]] + rest[1..]
  }

  /** Joining the pieces back with the separator gives the original string. */
  lemma {:induction false} JoinSplit(s: string, sep: char)
    ensures Join(Split(s, sep), [sep]) == s
  {
    if s != [] {
      var rest := Split(s[1..], sep);
      JoinSplit(s[1..], sep);
      assert [s[0]] + s[1..] == s;
      if s[0] == sep {
        assert Split(s, sep) == [[]] + rest;
        JoinCons([], rest, [sep]);
        assert [] + [sep] == [s[0]];
      } else {
        assert Split(s, sep) == [[s[0]] + rest[0]] + rest[1..];
        JoinFirst(rest, [s[0]], [sep]);
      }
    }
  }

  lemma JoinCons(a: string, rest: seq<string>, sep: string)
    requires |rest| >= 1
    ensures Join([a] + rest, sep) == a + sep + Join(rest, sep)
  {
    assert ([a] + rest)[1..] == rest;
  }

  /** Text put in front of the first piece ends up in front of the joined string. */
  lemma JoinFirst(parts: seq<string>, prefix: string, sep: string)
    requires |parts| >= 1
    ensures Join([prefix + parts[0]] + parts[1..], sep) == prefix + Join(parts, sep)
  {
    if |parts| > 1 {
      JoinCons(prefix + parts[0], parts[1..], sep);
    }
  }

  /** Splitting what was joined gives back the pieces, when no piece holds the separator. */
  lemma {:induction false} SplitJoin(parts: seq<string>, sep: char)
    requires |parts| >= 1
    requires forall i :: 0 <= i < |parts| ==> sep !in parts[i]
    ensures Split(Join(parts, [sep]), sep) == parts
  {
    if |parts| == 1 {
      SplitNoSeparator(parts[0], sep, []);
      assert parts[0] + [] == parts[0];
      assert [parts[0] + []] + [[]][1..] == parts;
    } else {
      var tail := Join(parts[1..], [sep]);
      SplitJoin(parts[1..], sep);
      SplitLeadingSeparator(sep, tail);
      SplitNoSeparator(parts[0], sep, [sep] + tail);
      assert Join(parts, [sep]) == parts[0] + ([sep] + tail);
      assert parts[0] + [] == parts[0];
      assert [parts[0]] + parts[1..] == parts;
    }
  }

  lemma SplitLeadingSeparator(sep: char, tail: string)
    ensures Split([sep] + tail, sep) == [[]] + Split(tail, sep)
  {
    assert ([sep] + tail)[1..] == tail;
  }

  /** A separator closes the last piece of what precedes it: `a + sep + b` splits into the pieces of `a`, then those of `b`. */
  lemma SplitAppend(a: string, sep: char, b: string)
    ensures Split(a + [sep] + b, sep) == Split(a, sep) + Split(b, sep)
  {
    var P, Q := Split(a, sep), Split(b, sep);
    JoinSplit(a, sep);
    JoinSplit(b, sep);
    JoinAppend(P, Q, [sep]);
    SplitJoin(P + Q, sep);
  }

  /** Joining two non-empty lists of pieces puts one separator between their joins. */
  lemma {:induction false} JoinAppend(P: seq<string>, Q: seq<string>, sep: string)
    requires |P| >= 1 && |Q| >= 1
    ensures Join(P + Q, sep) == Join(P, sep) + sep + Join(Q, sep)
  {
    assert (P + Q)[0] == P[0];
    if |P| == 1 {
      assert (P + Q)[1..] == Q;
    } else {
      assert (P + Q)[1..] == P[1..] + Q;
      JoinAppend(P[1..], Q, sep);
    }
  }

  /** A separator-free prefix sticks to the first piece. */
  lemma {:induction false} SplitNoSeparator(a: string, sep: char, t: string)
    requires sep !in a
    ensures Split(a + t, sep) == [a + Split(t, sep)[0]] + Split(t, sep)[1..]
  {
    var S := Split(t, sep);
    if a == [] {
      assert a + t == t;
      assert a + S[0] == S[0];
      assert [S[0]] + S[1..] == S;
    } else {
      var s := a + t;
      assert s[0] == a[0] && s[0] != sep;
      assert s[1..] == a[1..] + t;
      var R := Split(s[1..], sep);
      assert Split(s, sep) == [[s[0]] + R[0]] + R[1..];
      SplitNoSeparator(a[1..], sep, t);
      assert R == [a[1..] + S[0]] + S[1..];
      ConsAppend(a, S[0]);
    }
  }

  /** Text without the separator is a single piece. */
  lemma SplitSingle(s: string, sep: char)
    requires sep !in s
    ensures Split(s, sep) == [s]
  {
    SplitNoSeparator(s, sep, []);
    assert s + [] == s;
  }

  lemma ConsAppend(a: string, b: string)
    requires a != []
    ensures [a[0]] + (a[1..] + b) == a + b
  {
    assert [a[0]] + a[1..] == a;
  }

  /** The last piece of `s.split(sep)`, i.e. `s.split(sep)[-1]`. */
  function LastPiece(s: string, sep: char): (r: string)
    ensures sep !in r
  {
    var parts := Split(s, sep);
    parts[|parts| - 1]
  }

  /** The last piece is what follows the last separator. */
  lemma LastPieceAfterSeparator(a: string, sep: char, b: string)
    ensures LastPiece(a + [sep] + b, sep) == LastPiece(b, sep)
  {
    var A, B := Split(a, sep), Split(b, sep);
    SplitAppend(a, sep, b);
    assert (A + B)[|A + B| - 1] == B[|B| - 1];
  }

  /** Without a separator, the last piece is the whole string. */
  lemma LastPieceNoSeparator(s: string, sep: char)
    requires sep !in s
    ensures LastPiece(s, sep) == s
  {
    assert Occurrences(s, sep) == 0;
    SplitJoin([s], sep);
  }

  // ---------------------------------------------------------------------
  // Removing a character and testing for a substring

  /** `s.replace(c, '')`. */
  function RemoveChar(s: string, c: char): (r: string)
    ensures c !in r
    ensures |r| <= |s|
    ensures forall d :: d != c ==> multiset(r)[d] == multiset(s)[d]
  {
    if s == [] then []
    else
      assert s == [s[0]] + s[1..];
      if s[0] == c then RemoveChar(s[1..], c) else [s[0]] + RemoveChar(s[1..], c)
  }

  /** Removing a character distributes over concatenation. */
  lemma {:induction false} RemoveCharAppend(a: string, b: string, c: char)
    ensures RemoveChar(a + b, c) == RemoveChar(a, c) + RemoveChar(b, c)
  {
    if a != [] {
      assert (a + b)[1..] == a[1..] + b;
      RemoveCharAppend(a[1..], b, c);
    } else {
      assert a + b == b;
    }
  }

  lemma {:induction false} RemoveAbsentChar(s: string, c: char)
    requires c !in s
    ensures RemoveChar(s, c) == s
  {
    if s != [] {
      assert c !in s[1..];
      RemoveAbsentChar(s[1..], c);
      assert [s[0]] + s[1..] == s;
    }
  }

  /** `s` begins with `p`. */
  predicate StartsWith(s: string, p: string) {
    |p| <= |s| && s[..|p|] == p
  }

  /** `sub in s`: `sub` occurs at some position of `s`. */
  function Contains(s: string, sub: string): (b: bool)
    ensures b <==> exists i :: 0 <= i <= |s| && StartsWith(s[i..], sub)
  {
    if StartsWith(s, sub) then
      assert StartsWith(s[0..], sub);
      true
    else if s == [] then
      false
    else
      var b := Contains(s[1..], sub);
      assert forall i :: 1 <= i <= |s| ==> s[i..] == s[1..][i - 1..];
      if b then
        var i :| 0 <= i <= |s[1..]| && StartsWith(s[1..][i..], sub);
        assert s[1..][i..] == s[i + 1..];
        true
      else
        assert forall i :: 0 <= i <= |s| ==> !StartsWith(s[i..], sub) by {
          forall i | 0 <= i <= |s| ensures !StartsWith(s[i..], sub) {
            if i >= 1 {
              assert s[i..] == s[1..][i - 1..];
            }
          }
        }
        false
  }
}
