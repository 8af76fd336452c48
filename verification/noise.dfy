/**
  The exclusion pattern of the skill cleaner and the single
  substitution pass that deletes its matches.

  The pattern is the alternation, tried in this order at each position,
  of: a digit run with an optional `+` followed by ` years`; the words
  `level`, `entry`, `mid-level`, `senior`; `under`, a space, a digit run
  and ` year`; one of `bachelor`, `master`, `ph.d`, `degree`, `diploma`
  as a whole word; `license` or `certification` as a whole word;
  `program management`; `windows`; `microsoft office`; `powerpoint`.
  Matching ignores letter case, so it is done on the lower-cased text,
  while the kept characters come from the original text.
 */
module Noise {
  import opened Common
  import opened Text

  /** `\w`: a letter, a digit or the underscore. */
  predicate IsWordChar(c: char) {
    'a' <= c <= 'z' || 'A' <= c <= 'Z' || IsDigit(c) || c == '_'
  }

  /** One branch of the alternation. */
  datatype Alternative =
    | Years                        // \d+\+? years
    | Under                        // under \d+ year
    | Literal(text: string)        // a fixed phrase
    | WholeWord(words: seq<string>) // \b(?:w1|w2|...)\b

  const ExclusionPattern: seq<Alternative> := [
    Years,
    Literal("level"),
    Literal("entry"),
    Literal("mid-level"),
    Literal("senior"),
    Under,
    WholeWord(["bachelor", "master", "ph.d", "degree", "diploma"]),
    WholeWord(["license", "certification"]),
    Literal("program management"),
    Literal("windows"),
    Literal("microsoft office"),
    Literal("powerpoint")
  ]

  /** A phrase the pattern can spell: non-empty and without the skill separator. */
  predicate PlainPhrase(p: string) {
    p != [] && forall k :: 0 <= k < |p| ==> p[k] != ';'
  }

  predicate ValidAlternative(a: Alternative) {
    match a
    case Literal(p) => PlainPhrase(p)
    case WholeWord(ws) => forall k :: 0 <= k < |ws| ==> PlainPhrase(ws[k])
    case _ => true
  }

  /** The phrase `p` occurs at position `i` of `l`. */
  predicate LiteralAt(l: string, i: nat, p: string) {
    i <= |l| && StartsWith(l[i..], p)
  }

  /** `\b` just before position `i`, for a word starting there. */
  predicate WordStart(l: string, i: nat)
    requires i <= |l|
  {
    i == 0 || !IsWordChar(l[i - 1])
  }

  /** `\b` at position `j`, for a word ending just before it. */
  predicate WordEnd(l: string, j: nat)
    requires j <= |l|
  {
    j == |l| || !IsWordChar(l[j])
  }

  /** The characters from `i` up to `i + n` are free of `;`. */
  predicate NoSeparator(l: string, i: nat, n: nat)
    requires i + n <= |l|
  {
    forall k :: i <= k < i + n ==> l[k] != ';'
  }

  lemma LiteralNoSeparator(l: string, i: nat, p: string)
    requires LiteralAt(l, i, p) && forall k :: 0 <= k < |p| ==> p[k] != ';'
    ensures i + |p| <= |l| && NoSeparator(l, i, |p|)
  {
    forall k | i <= k < i + |p| ensures l[k] != ';' {
      assert l[k] == l[i..][..|p|][k - i] == p[k - i];
    }
  }

  /** `\d+`: a non-empty run of digits. */
  predicate Digits(w: string) {
    w != [] && forall k :: 0 <= k < |w| ==> IsDigit(w[k])
  }

  /** The texts `\d+\+? years` matches in full: digits, an optional `+`, then ` years`. */
  predicate YearsWord(w: string) {
    6 < |w| && w[|w| - 6..] == " years" &&
    (Digits(w[..|w| - 6]) || (w[|w| - 7] == '+' && Digits(w[..|w| - 7])))
  }

  /** The texts `under \d+ year` matches in full. */
  predicate UnderWord(w: string) {
    11 < |w| && w[..6] == "under " && w[|w| - 5..] == " year" && Digits(w[6..|w| - 5])
  }

  /** A run of `k` digits followed by a non-digit is what `LeadingDigits` counts. */
  lemma DigitRunEnds(s: string, k: nat)
    requires k < |s| && !IsDigit(s[k])
    requires forall m :: 0 <= m < k ==> IsDigit(s[m])
    ensures LeadingDigits(s) == k
  {
  }

  /** `\d+\+? years`; the length of the match. */
  function YearsAt(l: string, i: nat): (r: Option<nat>)
    requires i <= |l|
    ensures r.Some? ==> 1 <= r.value && i + r.value <= |l| && NoSeparator(l, i, r.value)
  {
    var d := LeadingDigits(l[i..]);
    if d == 0 then None
    else
      var j := i + d;
      var k := if j < |l| && l[j] == '+' then j + 1 else j;
      if LiteralAt(l, k, " years") then
        LiteralNoSeparator(l, k, " years");
        forall m | i <= m < j ensures IsDigit(l[m]) {
          assert l[m] == l[i..][m - i];
        }
        Some(k + 6 - i)
      else None
  }

  /** `under \d+ year`; the length of the match. */
  function UnderAt(l: string, i: nat): (r: Option<nat>)
    requires i <= |l|
    ensures r.Some? ==> 1 <= r.value && i + r.value <= |l| && NoSeparator(l, i, r.value)
  {
    if !LiteralAt(l, i, "under ") then None
    else
      var d := LeadingDigits(l[i + 6..]);
      if d >= 1 && LiteralAt(l, i + 6 + d, " year") then
        LiteralNoSeparator(l, i, "under ");
        LiteralNoSeparator(l, i + 6 + d, " year");
        forall m | i + 6 <= m < i + 6 + d ensures IsDigit(l[m]) {
          assert l[m] == l[i + 6..][m - i - 6];
        }
        Some(11 + d)
      else None
  }

  /** `YearsAt` finds a match of length `n` exactly when those `n` characters spell `\d+\+? years`. */
  lemma YearsAtSpells(l: string, i: nat, n: nat)
    requires i + n <= |l|
    ensures YearsAt(l, i) == Some(n) <==> YearsWord(l[i..i + n])
  {
    if YearsAt(l, i) == Some(n) {
      YearsMatchSpells(l, i, n);
    }
    if YearsWord(l[i..i + n]) {
      YearsWordMatches(l, i, n);
    }
  }

  lemma YearsMatchSpells(l: string, i: nat, n: nat)
    requires i + n <= |l| && YearsAt(l, i) == Some(n)
    ensures YearsWord(l[i..i + n])
  {
    var w := l[i..i + n];
    var t := l[i..];
    var d := LeadingDigits(t);
    var j := i + d;
    var k := if j < |l| && l[j] == '+' then j + 1 else j;
    assert k + 6 == i + n;
    assert w[n - 6..] == l[k..][..6];
    var run := w[..j - i];
    forall q | 0 <= q < d ensures IsDigit(run[q]) {
      assert run[q] == t[q];
    }
    if k != j {
      assert w[n - 7] == l[j];
    }
  }

  lemma YearsWordMatches(l: string, i: nat, n: nat)
    requires i + n <= |l| && YearsWord(l[i..i + n])
    ensures YearsAt(l, i) == Some(n)
  {
    var w := l[i..i + n];
    var unit := w[n - 6..];
    assert w[n - 6] == unit[0] == ' ';
    var m := if Digits(w[..n - 6]) then n - 6 else n - 7;
    var t := l[i..];
    var run := w[..m];
    forall q | 0 <= q < m ensures IsDigit(t[q]) {
      assert t[q] == run[q];
    }
    assert t[m] == w[m];
    DigitRunEnds(t, m);
    assert l[i + n - 6..][..6] == unit;
  }

  /** `UnderAt` finds a match of length `n` exactly when those `n` characters spell `under \d+ year`. */
  lemma UnderAtSpells(l: string, i: nat, n: nat)
    requires i + n <= |l|
    ensures UnderAt(l, i) == Some(n) <==> UnderWord(l[i..i + n])
  {
    if UnderAt(l, i) == Some(n) {
      UnderMatchSpells(l, i, n);
    }
    if UnderWord(l[i..i + n]) {
      UnderWordMatches(l, i, n);
    }
  }

  lemma UnderMatchSpells(l: string, i: nat, n: nat)
    requires i + n <= |l| && UnderAt(l, i) == Some(n)
    ensures UnderWord(l[i..i + n])
  {
    var w := l[i..i + n];
    var t := l[i + 6..];
    var d := LeadingDigits(t);
    assert n == 11 + d;
    assert w[..6] == l[i..][..6];
    assert w[n - 5..] == l[i + 6 + d..][..5];
    var digits := w[6..n - 5];
    forall q | 0 <= q < d ensures IsDigit(digits[q]) {
      assert digits[q] == t[q];
    }
  }

  lemma UnderWordMatches(l: string, i: nat, n: nat)
    requires i + n <= |l| && UnderWord(l[i..i + n])
    ensures UnderAt(l, i) == Some(n)
  {
    var w := l[i..i + n];
    assert l[i..][..6] == w[..6];
    var t := l[i + 6..];
    var d := n - 11;
    var tail, digits := w[n - 5..], w[6..n - 5];
    forall q | 0 <= q < d ensures IsDigit(t[q]) {
      assert t[q] == digits[q];
    }
    assert t[d] == tail[0];
    DigitRunEnds(t, d);
    assert l[i + 6 + d..][..5] == tail;
  }

  /** The word `w` occurs at `i` with a word boundary on both sides. */
  predicate WholeAt(l: string, i: nat, w: string) {
    LiteralAt(l, i, w) && WordStart(l, i) && WordEnd(l, i + |w|)
  }

  /** Word `k` of `ws` is the first that occurs whole at `i`. */
  predicate FirstWhole(ws: seq<string>, l: string, i: nat, k: int) {
    0 <= k < |ws| && WholeAt(l, i, ws[k]) && forall j :: 0 <= j < k ==> !WholeAt(l, i, ws[j])
  }

  /** The first of `ws` that occurs at `i` as a whole word. */
  function WholeWordAt(ws: seq<string>, l: string, i: nat): (r: Option<nat>)
    requires i <= |l|
    requires forall k :: 0 <= k < |ws| ==> PlainPhrase(ws[k])
    ensures r.Some? ==> 1 <= r.value && i + r.value <= |l| && NoSeparator(l, i, r.value)
    ensures r.None? <==> forall k :: 0 <= k < |ws| ==> !WholeAt(l, i, ws[k])
    ensures r.Some? ==> exists k :: FirstWhole(ws, l, i, k) && r.value == |ws[k]|
  {
    if ws == [] then None
    else if WholeAt(l, i, ws[0]) then
      assert PlainPhrase(ws[0]);
      LiteralNoSeparator(l, i, ws[0]);
      assert FirstWhole(ws, l, i, 0);
      Some(|ws[0]|)
    else
      var r := WholeWordAt(ws[1..], l, i);
      assert forall k :: 1 <= k < |ws| ==> ws[k] == ws[1..][k - 1];
      if r.Some? then
        var k :| FirstWhole(ws[1..], l, i, k) && r.value == |ws[1..][k]|;
        assert FirstWhole(ws, l, i, k + 1);
        r
      else
        r
  }

  /** The first word that occurs whole decides the length of the match. */
  lemma WholeWordAtFirst(ws: seq<string>, l: string, i: nat, k: nat)
    requires i <= |l|
    requires forall j :: 0 <= j < |ws| ==> PlainPhrase(ws[j])
    requires FirstWhole(ws, l, i, k)
    ensures WholeWordAt(ws, l, i) == Some(|ws[k]|)
  {
    var r := WholeWordAt(ws, l, i);
    var k' :| FirstWhole(ws, l, i, k') && r.value == |ws[k']|;
  }

  function AlternativeAt(a: Alternative, l: string, i: nat): (r: Option<nat>)
    requires i <= |l| && ValidAlternative(a)
    ensures r.Some? ==> 1 <= r.value && i + r.value <= |l| && NoSeparator(l, i, r.value)
  {
    match a
    case Years => YearsAt(l, i)
    case Under => UnderAt(l, i)
    case Literal(p) =>
      if LiteralAt(l, i, p) then
        LiteralNoSeparator(l, i, p);
        Some(|p|)
      else None
    case WholeWord(ws) => WholeWordAt(ws, l, i)
  }

  /** Branch `a` matches exactly the `n` characters of `l` from `i` on. */
  ghost predicate BranchMatches(a: Alternative, l: string, i: nat, n: nat)
    requires i + n <= |l|
  {
    match a
    case Years => YearsWord(l[i..i + n])
    case Under => UnderWord(l[i..i + n])
    case Literal(p) => l[i..i + n] == p
    case WholeWord(ws) => exists k :: FirstWhole(ws, l, i, k) && n == |ws[k]|
  }

  /** Each branch finds a match of length `n` exactly when the text there is in that branch's language. */
  lemma AlternativeAtSpells(a: Alternative, l: string, i: nat, n: nat)
    requires i + n <= |l| && ValidAlternative(a)
    ensures AlternativeAt(a, l, i) == Some(n) <==> BranchMatches(a, l, i, n)
  {
    match a
    case Years => YearsAtSpells(l, i, n);
    case Under => UnderAtSpells(l, i, n);
    case Literal(p) =>
      if l[i..i + n] == p {
        assert l[i..][..|p|] == p;
      }
      if LiteralAt(l, i, p) && n == |p| {
        assert l[i..i + n] == l[i..][..|p|];
      }
    case WholeWord(ws) =>
      if BranchMatches(a, l, i, n) {
        var k :| FirstWhole(ws, l, i, k) && n == |ws[k]|;
        WholeWordAtFirst(ws, l, i, k);
      }
  }

  /** Where a branch matches: the character it starts with, and how long the match is at least. */
  lemma AlternativeStart(a: Alternative, l: string, i: nat)
    requires i <= |l| && ValidAlternative(a) && AlternativeAt(a, l, i).Some?
    ensures i < |l|
    ensures a.Years? ==> IsDigit(l[i]) && AlternativeAt(a, l, i).value >= 7
    ensures a.Under? ==> l[i] == 'u' && AlternativeAt(a, l, i).value >= 12
    ensures a.Literal? ==> l[i] == a.text[0] && AlternativeAt(a, l, i).value == |a.text|
    ensures a.WholeWord? ==> exists w :: w in a.words && l[i] == w[0] && AlternativeAt(a, l, i).value == |w|
  {
    match a
    case Years =>
      assert IsDigit(l[i..][0]);
    case Under =>
      assert l[i..][..6][0] == l[i];
    case Literal(p) =>
      assert l[i..][..|p|][0] == l[i];
    case WholeWord(ws) =>
      var k :| FirstWhole(ws, l, i, k) && AlternativeAt(a, l, i).value == |ws[k]|;
      assert ws[k] in ws;
      assert l[i..][..|ws[k]|][0] == l[i];
  }

  /** Branch `k` is the first of `alts` that matches at `i`. */
  predicate FirstBranch(alts: seq<Alternative>, l: string, i: nat, k: int)
    requires i <= |l| && ValidPattern(alts)
  {
    0 <= k < |alts| && AlternativeAt(alts[k], l, i).Some? &&
    forall j :: 0 <= j < k ==> AlternativeAt(alts[j], l, i).None?
  }

  /** The first alternative that matches at `i`, as the regular expression engine tries them. */
  function MatchAt(alts: seq<Alternative>, l: string, i: nat): (r: Option<nat>)
    requires i <= |l|
    requires forall k :: 0 <= k < |alts| ==> ValidAlternative(alts[k])
    ensures r.Some? ==> 1 <= r.value && i + r.value <= |l| && NoSeparator(l, i, r.value)
    ensures r.None? <==> forall k :: 0 <= k < |alts| ==> AlternativeAt(alts[k], l, i).None?
  {
    if alts == [] then None
    else
      match AlternativeAt(alts[0], l, i)
      case Some(n) => Some(n)
      case None =>
        var r := MatchAt(alts[1..], l, i);
        assert forall k :: 1 <= k < |alts| ==> alts[k] == alts[1..][k - 1];
        r
  }

  /** The first branch that matches decides the match, whatever the later branches would find. */
  lemma {:induction false} MatchAtFirst(alts: seq<Alternative>, l: string, i: nat, k: nat)
    requires i <= |l| && ValidPattern(alts)
    requires FirstBranch(alts, l, i, k)
    ensures MatchAt(alts, l, i) == AlternativeAt(alts[k], l, i)
    decreases k
  {
    if k > 0 {
      var rest := alts[1..];
      assert forall j :: 0 <= j < |rest| ==> rest[j] == alts[j + 1];
      assert FirstBranch(rest, l, i, k - 1);
      MatchAtFirst(rest, l, i, k - 1);
    }
  }

  lemma ExclusionPatternValid()
    ensures ValidPattern(ExclusionPattern)
  {
    FirstBranchesValid();
    DegreeBranchValid();
    CredentialBranchValid();
    LastBranchesValid();
  }

  lemma FirstBranchesValid()
    ensures forall k :: 0 <= k < 6 ==> ValidAlternative(ExclusionPattern[k])
  {
    var p := ExclusionPattern;
    assert ValidAlternative(p[1]) && ValidAlternative(p[2]);
    assert ValidAlternative(p[3]) && ValidAlternative(p[4]);
  }

  lemma DegreeBranchValid()
    ensures ValidAlternative(ExclusionPattern[6])
  {
  }

  lemma CredentialBranchValid()
    ensures ValidAlternative(ExclusionPattern[7])
  {
  }

  lemma LastBranchesValid()
    ensures forall k :: 8 <= k < 12 ==> ValidAlternative(ExclusionPattern[k])
  {
    var p := ExclusionPattern;
    assert ValidAlternative(p[8]) && ValidAlternative(p[9]);
    assert ValidAlternative(p[10]) && ValidAlternative(p[11]);
  }

  /** The match found at each position of `l`, as `MatchAt` reports it. */
  function Matches(alts: seq<Alternative>, l: string): (m: seq<Option<nat>>)
    requires ValidPattern(alts)
    ensures |m| == |l| && InBounds(m)
    ensures forall k :: 0 <= k < |l| ==> m[k] == MatchAt(alts, l, k)
  {
    seq(|l|, k requires 0 <= k < |l| => MatchAt(alts, l, k))
  }

  /** Every match lies inside the text and is at least one character long. */
  predicate InBounds(hits: seq<Option<nat>>) {
    forall k :: 0 <= k < |hits| && hits[k].Some? ==> 1 <= hits[k].value && k + hits[k].value <= |hits|
  }

  /** No match covers a `;` of `s`. */
  predicate SparesSeparators(hits: seq<Option<nat>>, s: string)
    requires |hits| == |s| && InBounds(hits)
  {
    forall k :: 0 <= k < |hits| && hits[k].Some? ==> ';' !in s[k..k + hits[k].value]
  }

  /** The letters a branch of the exclusion pattern starts with; the other branch starts with a digit. */
  const Initials: set<char> := {'l', 'e', 'm', 's', 'u', 'b', 'p', 'd', 'c', 'w'}

  /** Every text the branch spells starts with a digit or one of `Initials` and has at least four characters. */
  predicate Shaped(a: Alternative) {
    match a
    case Years => true
    case Under => 'u' in Initials
    case Literal(p) => |p| >= 4 && p[0] in Initials
    case WholeWord(ws) => forall w :: w in ws ==> |w| >= 4 && w[0] in Initials
  }

  predicate ShapedPattern(alts: seq<Alternative>) {
    forall k :: 0 <= k < |alts| ==> Shaped(alts[k])
  }

  /**
    A match of a pattern whose branches are all `Shaped` starts at a digit
    or at one of `Initials`, and is at least four characters long.
   */
  lemma MatchStart(alts: seq<Alternative>, l: string, i: nat)
    requires i <= |l| && ValidPattern(alts)
    requires ShapedPattern(alts)
    requires MatchAt(alts, l, i).Some?
    ensures i + 4 <= |l|
    ensures IsDigit(l[i]) || l[i] in Initials
  {
    var k :| 0 <= k < |alts| && AlternativeAt(alts[k], l, i).Some?;
    AlternativeStart(alts[k], l, i);
  }

  lemma ExclusionPatternShaped()
    ensures ShapedPattern(ExclusionPattern)
  {
    forall k | 0 <= k < |ExclusionPattern| ensures Shaped(ExclusionPattern[k]) {
      if k < 6 {
        FirstBranchesShaped();
      } else if k == 6 {
        DegreeBranchShaped();
      } else if k == 7 {
        CredentialBranchShaped();
      } else {
        LastBranchesShaped();
      }
    }
  }

  lemma FirstBranchesShaped()
    ensures forall k :: 0 <= k < 6 ==> Shaped(ExclusionPattern[k])
  {
    var p := ExclusionPattern;
    assert Shaped(p[1]) && Shaped(p[2]);
    assert Shaped(p[3]) && Shaped(p[4]);
  }

  lemma DegreeBranchShaped()
    ensures Shaped(ExclusionPattern[6])
  {
    var ws := ExclusionPattern[6].words;
    forall w | w in ws ensures |w| >= 4 && w[0] in Initials {
      assert w == ws[0] || w == ws[1] || w == ws[2] || w == ws[3] || w == ws[4];
    }
  }

  lemma CredentialBranchShaped()
    ensures Shaped(ExclusionPattern[7])
  {
    var ws := ExclusionPattern[7].words;
    forall w | w in ws ensures |w| >= 4 && w[0] in Initials {
      assert w == ws[0] || w == ws[1];
    }
  }

  lemma LastBranchesShaped()
    ensures forall k :: 8 <= k < 12 ==> Shaped(ExclusionPattern[k])
  {
    var p := ExclusionPattern;
    assert Shaped(p[8]) && Shaped(p[9]);
    assert Shaped(p[10]) && Shaped(p[11]);
  }

  /** No match of the exclusion pattern starts at a character that no branch starts with, nor within three characters of the end. */
  lemma NoMatchHere(l: string, i: nat)
    requires i <= |l|
    requires i + 4 > |l| || (!IsDigit(l[i]) && l[i] !in Initials)
    ensures ValidPattern(ExclusionPattern) && MatchAt(ExclusionPattern, l, i).None?
  {
    ExclusionPatternValid();
    ExclusionPatternShaped();
    if MatchAt(ExclusionPattern, l, i).Some? {
      MatchStart(ExclusionPattern, l, i);
    }
  }

  /**
    One left-to-right substitution pass from position `i` on, given the
    match found at each position: a match is deleted and the scan resumes
    right after it; elsewhere the character is kept. What the pass keeps
    is stated by the lemmas below.
   */
  function Substitute(hits: seq<Option<nat>>, s: string, i: nat): string
    requires |hits| == |s| && i <= |s| && InBounds(hits)
    decreases |s| - i
  {
    if i == |s| then []
    else
      match hits[i]
      case Some(n) => Substitute(hits, s, i + n)
      case None => [s[i]] + Substitute(hits, s, i + 1)
  }

  /** The pass only deletes: what it returns is a subsequence of the text. */
  lemma {:induction false} SubstituteSubsequence(hits: seq<Option<nat>>, s: string, i: nat)
    requires |hits| == |s| && i <= |s| && InBounds(hits)
    ensures IsSubsequence(Substitute(hits, s, i), s[i..])
    decreases |s| - i
  {
    if i < |s| {
      match hits[i]
      case Some(n) =>
        SubstituteSubsequence(hits, s, i + n);
        assert s[i..] == s[i..i + n] + s[i + n..];
        SubsequencePrefix(Substitute(hits, s, i + n), s[i..i + n], s[i + n..]);
      case None =>
        SubstituteSubsequence(hits, s, i + 1);
        assert s[i..] == [s[i]] + s[i + 1..];
        SubsequenceCons(s[i], Substitute(hits, s, i + 1), s[i + 1..]);
    }
  }

  /** When no match covers a `;`, the pass keeps every `;`. */
  lemma {:induction false} SubstituteSeparators(hits: seq<Option<nat>>, s: string, i: nat)
    requires |hits| == |s| && i <= |s| && InBounds(hits) && SparesSeparators(hits, s)
    ensures Occurrences(Substitute(hits, s, i), ';') == Occurrences(s[i..], ';')
    decreases |s| - i
  {
    if i < |s| {
      match hits[i]
      case Some(n) =>
        SubstituteSeparators(hits, s, i + n);
        DropBlock(s, i, n);
      case None =>
        SubstituteSeparators(hits, s, i + 1);
        KeepChar(s, i, Substitute(hits, s, i + 1));
    }
  }

  /** Deleting a block without `;` keeps the count of `;`. */
  lemma DropBlock(s: string, i: nat, n: nat)
    requires i + n <= |s| && ';' !in s[i..i + n]
    ensures Occurrences(s[i..], ';') == Occurrences(s[i + n..], ';')
  {
    assert s[i..] == s[i..i + n] + s[i + n..];
    assert multiset(s[i..]) == multiset(s[i..i + n]) + multiset(s[i + n..]);
  }

  lemma KeepChar(s: string, i: nat, rest: string)
    requires i < |s|
    requires Occurrences(rest, ';') == Occurrences(s[i + 1..], ';')
    ensures Occurrences([s[i]] + rest, ';') == Occurrences(s[i..], ';')
  {
    assert s[i..] == [s[i]] + s[i + 1..];
    assert multiset([s[i]] + rest) == multiset([s[i]]) + multiset(rest);
    assert multiset(s[i..]) == multiset([s[i]]) + multiset(s[i + 1..]);
  }

  /** Characters where nothing matches are copied unchanged. */
  lemma {:induction false} KeptUpTo(hits: seq<Option<nat>>, s: string, i: nat, j: nat)
    requires |hits| == |s| && i <= j <= |s| && InBounds(hits)
    requires forall k :: i <= k < j ==> hits[k].None?
    ensures Substitute(hits, s, i) == s[i..j] + Substitute(hits, s, j)
    decreases j - i
  {
    if i < j {
      KeptUpTo(hits, s, i + 1, j);
      ConsSlice(s, i, j, Substitute(hits, s, j));
    }
  }

  lemma ConsSlice(s: string, i: nat, j: nat, rest: string)
    requires i < j <= |s|
    ensures [s[i]] + (s[i + 1..j] + rest) == s[i..j] + rest
  {
    assert s[i..j] == [s[i]] + s[i + 1..j];
  }

  /**
    The pass keeps the characters up to the first match at or after `i`,
    deletes the match, and resumes right after it.
   */
  lemma FirstMatchDeleted(hits: seq<Option<nat>>, s: string, i: nat, j: nat)
    requires |hits| == |s| && i <= j < |s| && InBounds(hits)
    requires forall k :: i <= k < j ==> hits[k].None?
    requires hits[j].Some?
    ensures Substitute(hits, s, i) == s[i..j] + Substitute(hits, s, j + hits[j].value)
  {
    KeptUpTo(hits, s, i, j);
  }

  /** Where nothing matches, the pass changes nothing. */
  lemma NoMatchUnchanged(hits: seq<Option<nat>>, s: string, i: nat)
    requires |hits| == |s| && i <= |s| && InBounds(hits)
    requires forall k :: i <= k < |s| ==> hits[k].None?
    ensures Substitute(hits, s, i) == s[i..]
  {
    KeptUpTo(hits, s, i, |s|);
  }

  /** No branch spells a `;`, so no match of the pattern covers one. */
  lemma MatchesSpareSeparators(alts: seq<Alternative>, s: string)
    requires ValidPattern(alts)
    ensures SparesSeparators(Matches(alts, Lower(s)), s)
  {
    var l := Lower(s);
    var hits := Matches(alts, l);
    SeparatorCase(s);
    forall k | 0 <= k < |hits| && hits[k].Some? ensures ';' !in s[k..k + hits[k].value] {
      var n := hits[k].value;
      var block := s[k..k + n];
      assert NoSeparator(l, k, n);
      forall q | 0 <= q < n ensures block[q] != ';' {
        assert l[k + q] != ';';
      }
    }
  }

  lemma SeparatorCase(s: string)
    ensures forall k :: 0 <= k < |s| ==> (Lower(s)[k] == ';' <==> s[k] == ';')
  {
  }

  /** A pattern whose every branch spells only separator-free, non-empty text. */
  predicate ValidPattern(alts: seq<Alternative>) {
    forall k :: 0 <= k < |alts| ==> ValidAlternative(alts[k])
  }

  /**
    `re.sub(pattern, '', s, flags=re.IGNORECASE)`: nothing is added or
    reordered, and every `;` survives, so the number of skill pieces is
    unchanged.
   */
  function SubstituteAll(alts: seq<Alternative>, s: string): (r: string)
    requires ValidPattern(alts)
    ensures IsSubsequence(r, s)
    ensures |r| <= |s|
    ensures Occurrences(r, ';') == Occurrences(s, ';')
  {
    var hits := Matches(alts, Lower(s));
    var r := Substitute(hits, s, 0);
    SubstituteSubsequence(hits, s, 0);
    MatchesSpareSeparators(alts, s);
    SubstituteSeparators(hits, s, 0);
    assert s[0..] == s;
    SubsequenceFacts(r, s);
    r
  }

  /** The substitution pass with the exclusion pattern of the skill cleaner. */
  function StripNoise(s: string): (r: string)
    ensures IsSubsequence(r, s)
    ensures Occurrences(r, ';') == Occurrences(s, ';')
  {
    ExclusionPatternValid();
    SubstituteAll(ExclusionPattern, s)
  }

  /** Text the pattern matches nowhere comes back unchanged. */
  lemma CleanTextUnchanged(alts: seq<Alternative>, s: string)
    requires ValidPattern(alts)
    requires forall k :: 0 <= k < |s| ==> MatchAt(alts, Lower(s), k).None?
    ensures SubstituteAll(alts, s) == s
  {
    NoMatchUnchanged(Matches(alts, Lower(s)), s, 0);
    assert s[0..] == s;
  }

  // ---------------------------------------------------------------------
  // A worked cell: `Java;5+ years;Senior;'s`

  /** In the lower-cased cell, `5+ years` matches at 5: the first branch. */
  lemma ExampleYears(l: string)
    requires l == "java;5+ years;senior;'s"
    ensures ValidPattern(ExclusionPattern)
    ensures MatchAt(ExclusionPattern, l, 5) == Some(8)
  {
    ExclusionPatternValid();
    assert l[5..13] == "5+ years";
    YearsWordMatches(l, 5, 8);
    assert FirstBranch(ExclusionPattern, l, 5, 0);
    MatchAtFirst(ExclusionPattern, l, 5, 0);
  }

  /** `senior` matches at 14: the fifth branch, as the four before it do not match there. */
  lemma ExampleSenior(l: string)
    requires l == "java;5+ years;senior;'s"
    ensures ValidPattern(ExclusionPattern)
    ensures MatchAt(ExclusionPattern, l, 14) == Some(6)
  {
    ExclusionPatternValid();
    var p := ExclusionPattern;
    assert l[14..][..6] == "senior";
    assert l[14] == 's';
    ExampleSeniorBefore(l, 0);
    ExampleSeniorBefore(l, 1);
    ExampleSeniorBefore(l, 2);
    ExampleSeniorBefore(l, 3);
    assert FirstBranch(p, l, 14, 4);
    MatchAtFirst(p, l, 14, 4);
  }

  /** None of the first four branches starts with `s`. */
  lemma ExampleSeniorBefore(l: string, j: nat)
    requires |l| > 14 && l[14] == 's' && j < 4
    ensures ValidPattern(ExclusionPattern) && AlternativeAt(ExclusionPattern[j], l, 14).None?
  {
    ExclusionPatternValid();
    if AlternativeAt(ExclusionPattern[j], l, 14).Some? {
      AlternativeStart(ExclusionPattern[j], l, 14);
    }
  }

  /** Everywhere else the scan looks, nothing matches. */
  lemma ExampleMisses(l: string)
    requires l == "java;5+ years;senior;'s"
    ensures ValidPattern(ExclusionPattern)
    ensures forall k :: 0 <= k < 5 || k == 13 || 20 <= k < 23 ==> MatchAt(ExclusionPattern, l, k).None?
  {
    ExclusionPatternValid();
    forall k | 0 <= k < 5 || k == 13 || 20 <= k < 23 ensures MatchAt(ExclusionPattern, l, k).None? {
      NoMatchHere(l, k);
    }
  }

  /** The matches the scan meets in the cell. */
  ghost predicate ExampleHits(hits: seq<Option<nat>>) {
    |hits| == 23 && hits[5] == Some(8) && hits[14] == Some(6) &&
    forall k :: 0 <= k < 5 || k == 13 || 20 <= k < 23 ==> hits[k].None?
  }

  lemma ExampleMatches(s: string)
    requires s == "Java;5+ years;Senior;'s"
    ensures ValidPattern(ExclusionPattern) && ExampleHits(Matches(ExclusionPattern, Lower(s)))
  {
    var l := Lower(s);
    assert l == "java;5+ years;senior;'s";
    ExampleYears(l);
    ExampleSenior(l);
    ExampleMisses(l);
  }

  /** With those matches, the pass deletes `5+ years` and `Senior` and keeps the rest, `;` included. */
  lemma ExamplePass(hits: seq<Option<nat>>, s: string)
    requires s == "Java;5+ years;Senior;'s"
    requires ExampleHits(hits) && InBounds(hits)
    ensures Substitute(hits, s, 0) == "Java;;;'s"
  {
    FirstMatchDeleted(hits, s, 0, 5);
    FirstMatchDeleted(hits, s, 13, 14);
    NoMatchUnchanged(hits, s, 20);
    assert s[0..5] + (s[13..14] + s[20..]) == "Java;;;'s";
  }

  /** The whole pass over the cell. */
  lemma ExampleStripped(s: string)
    requires s == "Java;5+ years;Senior;'s"
    ensures StripNoise(s) == "Java;;;'s"
  {
    ExampleMatches(s);
    ExamplePass(Matches(ExclusionPattern, Lower(s)), s);
  }
}
