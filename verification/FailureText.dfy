/**
 Reading a failure's class from its message: the whole-word scan and the decision list built on it.

 Text is a sequence of Unicode code points. The boundary tests look at single bytes of the UTF-8 form,
 but only ask whether they are ASCII alphanumeric, which no byte of a non-ASCII code point is.
 */
module FailureText {
  import opened AsciiCase

  predicate IsAlnum(c: char) {
    '0' <= c <= '9' || 'A' <= c <= 'Z' || 'a' <= c <= 'z'
  }

  predicate OccursAt(haystack: string, needle: string, i: nat) {
    i + |needle| <= |haystack| && haystack[i..i + |needle|] == needle
  }

  predicate Contains(haystack: string, needle: string) {
    exists i | 0 <= i <= |haystack| :: OccursAt(haystack, needle, i)
  }

  /** Neither neighbour of `haystack[i..i + len]` is ASCII alphanumeric. */
  predicate Isolated(haystack: string, i: nat, len: nat)
    requires i + len <= |haystack|
  {
    && (i == 0 || !IsAlnum(haystack[i - 1]))
    && (i + len >= |haystack| || !IsAlnum(haystack[i + len]))
  }

  /** The scan from position `from`: matches never overlap, an empty needle advances by one. */
  predicate ScanFrom(haystack: string, needle: string, from: nat)
    decreases |haystack| + 1 - from
  {
    if from + |needle| > |haystack| then
      false
    else if OccursAt(haystack, needle, from) then
      Isolated(haystack, from, |needle|)
      || ScanFrom(haystack, needle, from + if needle == [] then 1 else |needle|)
    else
      ScanFrom(haystack, needle, from + 1)
  }

  predicate WordBoundaryMatch(haystack: string, needle: string) {
    ScanFrom(haystack, needle, 0)
  }

  /** What the scan is for: the needle stands somewhere as a whole word, overlapping or not. */
  ghost predicate OccursAsWord(haystack: string, needle: string) {
    exists i: nat :: OccursAt(haystack, needle, i) && Isolated(haystack, i, |needle|)
  }

  /** Shifting the needle by `d` makes it overlap itself. */
  predicate OverlapsItself(needle: string, d: nat) {
    0 < d < |needle| && needle[d..] == needle[..|needle| - d]
  }

  /** Wherever the needle can overlap itself, the later copy is preceded by an alphanumeric. */
  ghost predicate ScanSafe(needle: string) {
    forall d: nat :: OverlapsItself(needle, d) ==> IsAlnum(needle[d - 1])
  }

  /** The scan never reports a word that is not there, whatever the needle. */
  lemma {:induction false} ScanIsSound(haystack: string, needle: string, from: nat)
    requires ScanFrom(haystack, needle, from)
    ensures OccursAsWord(haystack, needle)
    decreases |haystack| + 1 - from
  {
    if OccursAt(haystack, needle, from) {
      if !Isolated(haystack, from, |needle|) {
        ScanIsSound(haystack, needle, from + if needle == [] then 1 else |needle|);
      }
    } else {
      ScanIsSound(haystack, needle, from + 1);
    }
  }

  /** For a safe needle, a whole-word occurrence skipped by an overlapping match does not exist. */
  lemma {:induction false} ScanFinds(haystack: string, needle: string, from: nat, i: nat)
    requires ScanSafe(needle)
    requires from <= i && OccursAt(haystack, needle, i) && Isolated(haystack, i, |needle|)
    ensures ScanFrom(haystack, needle, from)
    decreases |haystack| + 1 - from
  {
    if OccursAt(haystack, needle, from) && !Isolated(haystack, from, |needle|) {
      if from + |needle| <= i {
        ScanFinds(haystack, needle, from + if needle == [] then 1 else |needle|, i);
      } else {
        OverlapOfOccurrences(haystack, needle, from, i);
      }
    } else if from < i {
      ScanFinds(haystack, needle, from + 1, i);
    }
  }

  lemma OverlapOfOccurrences(haystack: string, needle: string, i: nat, j: nat)
    requires OccursAt(haystack, needle, i) && OccursAt(haystack, needle, j) && i < j < i + |needle|
    ensures OverlapsItself(needle, j - i) && haystack[j - 1] == needle[j - i - 1]
  {
    var d, n := j - i, |needle|;
    assert haystack[j - 1] == haystack[i..i + n][d - 1];
    forall k | 0 <= k < n - d ensures needle[d..][k] == needle[..n - d][k] {
      assert haystack[i..i + n][d + k] == haystack[j..j + n][k];
    }
  }

  /** The start of the needle up to the shift, then the needle, behind a letter it does not begin with. */
  function Overlapped(needle: string, d: nat): string
    requires 0 < d < |needle|
  {
    [if needle[0] == 'a' then 'b' else 'a'] + needle[..d] + needle
  }

  lemma OverlappedOccurrences(needle: string, d: nat)
    requires OverlapsItself(needle, d)
    ensures var haystack := Overlapped(needle, d);
            && |haystack| == 1 + d + |needle| && IsAlnum(haystack[0]) && haystack[d] == needle[d - 1]
            && !OccursAt(haystack, needle, 0) && OccursAt(haystack, needle, 1) && OccursAt(haystack, needle, 1 + d)
  {
    var haystack, n := Overlapped(needle, d), |needle|;
    assert haystack[1 + d..1 + d + n] == needle;
    assert haystack[1..1 + n] == needle[..d] + needle[..n - d];
    assert needle == needle[..d] + needle[d..];
    assert haystack[0..n][0] != needle[0];
  }

  /** A needle that is not safe has a text where the scan misses a whole word. */
  lemma ScanMisses(needle: string, d: nat) returns (haystack: string)
    requires OverlapsItself(needle, d) && !IsAlnum(needle[d - 1])
    ensures OccursAsWord(haystack, needle) && !WordBoundaryMatch(haystack, needle)
  {
    hide OccursAt, Overlapped, IsAlnum;
    OverlappedOccurrences(needle, d);
    haystack := Overlapped(needle, d);
    assert Isolated(haystack, 1 + d, |needle|);
    assert !ScanFrom(haystack, needle, 1 + |needle|);
    assert !ScanFrom(haystack, needle, 1);
  }

  /** The scan answers the whole-word question on every text exactly for the safe needles. */
  lemma ScanIsExactIffSafe(needle: string)
    ensures (forall haystack :: WordBoundaryMatch(haystack, needle) <==> OccursAsWord(haystack, needle))
            <==> ScanSafe(needle)
  {
    if ScanSafe(needle) {
      forall haystack ensures WordBoundaryMatch(haystack, needle) <==> OccursAsWord(haystack, needle) {
        ScanIsExact(haystack, needle);
      }
    } else {
      var d: nat :| OverlapsItself(needle, d) && !IsAlnum(needle[d - 1]);
      var haystack := ScanMisses(needle, d);
    }
  }

  lemma ScanIsExact(haystack: string, needle: string)
    requires ScanSafe(needle)
    ensures WordBoundaryMatch(haystack, needle) <==> OccursAsWord(haystack, needle)
  {
    if WordBoundaryMatch(haystack, needle) {
      ScanIsSound(haystack, needle, 0);
    }
    if OccursAsWord(haystack, needle) {
      var i: nat :| OccursAt(haystack, needle, i) && Isolated(haystack, i, |needle|);
      ScanFinds(haystack, needle, 0, i);
    }
  }

  /** Words of letters and digits, the only needles the classifier scans for, are safe. */
  lemma WordsAreScanSafe(needle: string)
    requires forall i :: 0 <= i < |needle| ==> IsAlnum(needle[i])
    ensures ScanSafe(needle)
  {
  }

  /** What a word is: an ASCII letter or digit beside an occurrence spoils it, and nothing else does. */
  lemma LettersAndDigitsJoinWords(c: char, word: string)
    requires word != [] && c !in word
    ensures WordBoundaryMatch([c] + word, word) <==> !IsLetterOrDigit(c)
    ensures WordBoundaryMatch(word + [c], word) <==> !IsLetterOrDigit(c)
    ensures WordBoundaryMatch(word, word)
  {
    assert IsAlnum(c) <==> IsLetterOrDigit(c);
    JoinedInFront(c, word);
    JoinedBehind(c, word);
    assert OccursAt(word, word, 0);
  }

  lemma JoinedInFront(c: char, word: string)
    requires word != [] && c !in word
    ensures WordBoundaryMatch([c] + word, word) <==> !IsAlnum(c)
  {
    hide IsAlnum;
    var text := [c] + word;
    assert text[0..|word|][0] == c;
    assert !OccursAt(text, word, 0) && OccursAt(text, word, 1);
    assert !ScanFrom(text, word, 1 + |word|);
    assert ScanFrom(text, word, 0) == ScanFrom(text, word, 1);
  }

  lemma JoinedBehind(c: char, word: string)
    requires word != [] && c !in word
    ensures WordBoundaryMatch(word + [c], word) <==> !IsAlnum(c)
  {
    hide IsAlnum;
    var text := word + [c];
    assert OccursAt(text, word, 0);
    if |word| == 1 {
      assert text[1..2][0] == c;
      assert !OccursAt(text, word, 1) && !ScanFrom(text, word, 2);
    }
    assert !ScanFrom(text, word, |word|);
  }

  // ---------- Classification ----------

  datatype FailureClass = Permanent | Transient | Stall
  {
    function Severity(): nat {
      match this
      case Permanent => 0
      case Transient => 1
      case Stall => 2
    }
  }

  const STALL_TEXTS: seq<string> := ["stall", "heartbeat timeout", "no activity"]
  const RATE_LIMIT_TEXTS: seq<string> := ["rate limit", "429", "too many requests"]
  const NETWORK_TEXTS: seq<string> :=
    ["timeout", "timed out", "connection reset", "connection refused", "network", "dns", "broken pipe"]
  const NETWORK_WORDS: seq<string> := ["eof"]
  const SERVER_WORDS: seq<string> := ["500", "502", "503", "504"]
  const SERVER_TEXTS: seq<string> := ["internal server error", "service unavailable"]
  const AUTH_TEXTS: seq<string> :=
    ["401", "403", "unauthorized", "forbidden", "invalid api key", "authentication"]

  predicate ContainsAny(text: string, needles: seq<string>) {
    exists k | 0 <= k < |needles| :: Contains(text, needles[k])
  }

  predicate HasAnyWord(text: string, needles: seq<string>) {
    exists k | 0 <= k < |needles| :: WordBoundaryMatch(text, needles[k])
  }

  /** The decision list on lowercased text. */
  function ClassifyLowered(lower: string): FailureClass {
    if ContainsAny(lower, STALL_TEXTS) then Stall
    else if ContainsAny(lower, RATE_LIMIT_TEXTS) then Transient
    else if ContainsAny(lower, NETWORK_TEXTS) || HasAnyWord(lower, NETWORK_WORDS) then Transient
    else if HasAnyWord(lower, SERVER_WORDS) || ContainsAny(lower, SERVER_TEXTS) then Transient
    else if ContainsAny(lower, AUTH_TEXTS) then Permanent
    else Permanent
  }

  /**
   Lowercasing, as far as ASCII needles and ASCII boundaries can see it: besides A to Z, the Kelvin sign and the
   dotted capital I are the only code points whose lowercase form has an ASCII code point in it.
   */
  function LowerChar(c: char): string {
    if 'A' <= c <= 'Z' then [c - 'A' + 'a']
    else if c == '\U{212A}' then "k"
    else if c == '\U{0130}' then "i\U{0307}"
    else [c]
  }

  function ToLower(s: string): string {
    if s == [] then [] else LowerChar(s[0]) + ToLower(s[1..])
  }

  function ClassifyFailure(message: string): FailureClass {
    ClassifyLowered(ToLower(message))
  }

  /** A code point that cannot be part of a word, before or after lowercasing. */
  predicate IsSeparator(c: char) {
    !IsAlnum(c) && c != '\U{212A}' && c != '\U{0130}'
  }

  predicate EndsApart(prefix: string) {
    prefix == [] || !IsAlnum(prefix[|prefix| - 1])
  }

  predicate StartsApart(suffix: string) {
    suffix == [] || !IsAlnum(suffix[0])
  }

  lemma WrappingKeepsTexts(prefix: string, text: string, suffix: string, needles: seq<string>)
    requires ContainsAny(text, needles)
    ensures ContainsAny(prefix + text + suffix, needles)
  {
    var k :| 0 <= k < |needles| && Contains(text, needles[k]);
    var i :| 0 <= i <= |text| && OccursAt(text, needles[k], i);
    WrappedOccurrence(prefix, text, suffix, needles[k], i);
  }

  lemma WrappedOccurrence(prefix: string, text: string, suffix: string, needle: string, i: nat)
    requires OccursAt(text, needle, i)
    ensures OccursAt(prefix + text + suffix, needle, |prefix| + i)
  {
    var whole, at := prefix + text + suffix, |prefix| + i;
    assert whole[at..at + |needle|] == text[i..i + |needle|];
  }

  lemma WrappingKeepsWords(prefix: string, text: string, suffix: string, needles: seq<string>)
    requires EndsApart(prefix) && StartsApart(suffix) && HasAnyWord(text, needles)
    requires forall k :: 0 <= k < |needles| ==> ScanSafe(needles[k])
    ensures HasAnyWord(prefix + text + suffix, needles)
  {
    var whole := prefix + text + suffix;
    var k :| 0 <= k < |needles| && WordBoundaryMatch(text, needles[k]);
    var needle := needles[k];
    ScanIsExact(text, needle);
    var i: nat :| OccursAt(text, needle, i) && Isolated(text, i, |needle|);
    WrappedOccurrence(prefix, text, suffix, needle, i);
    WrappedWordIsIsolated(prefix, text, suffix, i, |needle|);
    ScanIsExact(whole, needle);
  }

  lemma WrappedWordIsIsolated(prefix: string, text: string, suffix: string, i: nat, len: nat)
    requires EndsApart(prefix) && StartsApart(suffix) && i + len <= |text| && Isolated(text, i, len)
    ensures Isolated(prefix + text + suffix, |prefix| + i, len)
  {
    var whole, at := prefix + text + suffix, |prefix| + i;
    if at > 0 {
      assert whole[at - 1] == if i == 0 then prefix[|prefix| - 1] else text[i - 1];
    }
    if at + len < |whole| {
      assert whole[at + len] == if i + len == |text| then suffix[0] else text[i + len];
    }
  }

  lemma ScannedWordsAreSafe()
    ensures forall k :: 0 <= k < |NETWORK_WORDS| ==> ScanSafe(NETWORK_WORDS[k])
    ensures forall k :: 0 <= k < |SERVER_WORDS| ==> ScanSafe(SERVER_WORDS[k])
  {
    WordsAreScanSafe("eof");
    WordsAreScanSafe("500");
    WordsAreScanSafe("502");
    WordsAreScanSafe("503");
    WordsAreScanSafe("504");
  }

  lemma WrappingLoweredNeverDowngrades(prefix: string, text: string, suffix: string)
    requires EndsApart(prefix) && StartsApart(suffix)
    ensures ClassifyLowered(text).Severity() <= ClassifyLowered(prefix + text + suffix).Severity()
  {
    ScannedWordsAreSafe();
    forall needles | ContainsAny(text, needles) ensures ContainsAny(prefix + text + suffix, needles) {
      WrappingKeepsTexts(prefix, text, suffix, needles);
    }
    if HasAnyWord(text, NETWORK_WORDS) {
      WrappingKeepsWords(prefix, text, suffix, NETWORK_WORDS);
    }
    if HasAnyWord(text, SERVER_WORDS) {
      WrappingKeepsWords(prefix, text, suffix, SERVER_WORDS);
    }
  }

  lemma {:induction false} ToLowerDistributes(a: string, b: string)
    ensures ToLower(a + b) == ToLower(a) + ToLower(b)
  {
    if a == [] {
      assert a + b == b;
    } else {
      assert (a + b)[1..] == a[1..] + b;
      ToLowerDistributes(a[1..], b);
    }
  }

  lemma LoweredEndsApart(prefix: string)
    requires prefix == [] || IsSeparator(prefix[|prefix| - 1])
    ensures EndsApart(ToLower(prefix))
  {
    if prefix != [] {
      var last := |prefix| - 1;
      assert prefix == prefix[..last] + [prefix[last]];
      ToLowerDistributes(prefix[..last], [prefix[last]]);
      assert ToLower([prefix[last]]) == [prefix[last]];
    }
  }

  /** Wrapping a message in more text, set off by separators, never lowers its class. */
  lemma WrappingNeverDowngrades(prefix: string, message: string, suffix: string)
    requires prefix == [] || IsSeparator(prefix[|prefix| - 1])
    requires suffix == [] || IsSeparator(suffix[0])
    ensures ClassifyFailure(message).Severity() <= ClassifyFailure(prefix + message + suffix).Severity()
  {
    ToLowerDistributes(prefix + message, suffix);
    ToLowerDistributes(prefix, message);
    LoweredEndsApart(prefix);
    WrappingLoweredNeverDowngrades(ToLower(prefix), ToLower(message), ToLower(suffix));
  }

  /** A status code counts wherever it stands as a word, unless the text also speaks of a stall. */
  lemma ServerCodesAreTransient(prefix: string, k: nat, suffix: string)
    requires k < |SERVER_WORDS|
    requires prefix == [] || IsSeparator(prefix[|prefix| - 1])
    requires suffix == [] || IsSeparator(suffix[0])
    ensures ClassifyFailure(prefix + SERVER_WORDS[k] + suffix)
            == if ContainsAny(ToLower(prefix + SERVER_WORDS[k] + suffix), STALL_TEXTS) then Stall else Transient
  {
    var code := SERVER_WORDS[k];
    assert ToLower(code) == code;
    assert WordBoundaryMatch(code, SERVER_WORDS[k]);
    WrappingNeverDowngrades(prefix, code, suffix);
  }

  /** So "processed 500 items" is taken for a server error. */
  lemma CountedItemsLookLikeServerErrors()
    ensures ClassifyFailure("processed " + "500" + " items") == Transient
  {
    hide ClassifyFailure, ToLower, Contains;
    var text := "processed " + "500" + " items";
    assert SERVER_WORDS[0] == "500";
    ServerCodesAreTransient("processed ", 0, " items");
    LowerCaseStays(text);
    Misses(text, "stall", 3, 'l');
    Misses(text, "heartbeat timeout", 0, 'h');
    Misses(text, "no activity", 0, 'n');
  }

  lemma {:induction false} LowerCaseStays(s: string)
    requires forall i :: 0 <= i < |s| ==> s[i] < 'A' || 'Z' < s[i] < '\U{80}'
    ensures ToLower(s) == s
  {
    if s != [] {
      LowerCaseStays(s[1..]);
      assert LowerChar(s[0]) + s[1..] == s;
    }
  }

  lemma Misses(text: string, needle: string, k: nat, c: char)
    requires k < |needle| && needle[k] == c && c !in text
    ensures !Contains(text, needle)
  {
  }

  // ---------- Which edges are safe ----------

  /** Characters that occur in no indicator text; the words have no `x` or `~`, a `5` only in front and no `0` there. */
  predicate IsMark(c: char) {
    c == 'x' || c == '~' || c == '5' || c == '0'
  }

  ghost predicate IsPlain(needle: string) {
    |needle| >= 3 && forall j :: 0 <= j < |needle| ==> !IsMark(needle[j])
  }

  ghost predicate IsCode(needle: string) {
    && |needle| == 3 && needle[0] != '0'
    && forall j :: 0 <= j < 3 ==> needle[j] != 'x' && needle[j] != '~' && (j > 0 ==> needle[j] != '5')
  }

  lemma TextsArePlain()
    ensures forall k :: 0 <= k < |STALL_TEXTS| ==> IsPlain(STALL_TEXTS[k])
    ensures forall k :: 0 <= k < |RATE_LIMIT_TEXTS| ==> IsPlain(RATE_LIMIT_TEXTS[k])
    ensures forall k :: 0 <= k < |NETWORK_TEXTS| ==> IsPlain(NETWORK_TEXTS[k])
    ensures forall k :: 0 <= k < |SERVER_TEXTS| ==> IsPlain(SERVER_TEXTS[k])
  {
  }

  lemma WordsAreCodes()
    ensures forall k :: 0 <= k < |NETWORK_WORDS| ==> IsCode(NETWORK_WORDS[k])
    ensures forall k :: 0 <= k < |SERVER_WORDS| ==> IsCode(SERVER_WORDS[k])
  {
  }

  /** Whatever indicates a class in `a` is found in `b` as well. */
  ghost predicate CarriesOver(a: string, b: string) {
    && (forall needle, i: nat :: IsPlain(needle) && OccursAt(a, needle, i) ==> Contains(b, needle))
    && (forall needle, i: nat :: IsCode(needle) && OccursAt(a, needle, i) && Isolated(a, i, |needle|)
         ==> OccursAsWord(b, needle))
  }

  lemma TextsCarryOver(a: string, b: string, needles: seq<string>)
    requires CarriesOver(a, b) && ContainsAny(a, needles) && forall k :: 0 <= k < |needles| ==> IsPlain(needles[k])
    ensures ContainsAny(b, needles)
  {
    var k :| 0 <= k < |needles| && Contains(a, needles[k]);
    var i :| 0 <= i <= |a| && OccursAt(a, needles[k], i);
  }

  lemma WordsCarryOver(a: string, b: string, needles: seq<string>)
    requires CarriesOver(a, b) && HasAnyWord(a, needles)
    requires forall k :: 0 <= k < |needles| ==> IsCode(needles[k]) && ScanSafe(needles[k])
    ensures HasAnyWord(b, needles)
  {
    var k :| 0 <= k < |needles| && WordBoundaryMatch(a, needles[k]);
    ScanIsExact(a, needles[k]);
    ScanIsExact(b, needles[k]);
    var i: nat :| OccursAt(a, needles[k], i) && Isolated(a, i, |needles[k]|);
    assert OccursAsWord(b, needles[k]);
  }

  lemma ClassCarriesOver(a: string, b: string)
    requires CarriesOver(a, b) && ClassifyLowered(a) != Permanent
    ensures ClassifyLowered(b) != Permanent
  {
    hide CarriesOver, ContainsAny, HasAnyWord, IsPlain, IsCode, ScanSafe;
    TextsArePlain();
    WordsAreCodes();
    ScannedWordsAreSafe();
    if ContainsAny(a, STALL_TEXTS) { TextsCarryOver(a, b, STALL_TEXTS); }
    if ContainsAny(a, RATE_LIMIT_TEXTS) { TextsCarryOver(a, b, RATE_LIMIT_TEXTS); }
    if ContainsAny(a, NETWORK_TEXTS) { TextsCarryOver(a, b, NETWORK_TEXTS); }
    if ContainsAny(a, SERVER_TEXTS) { TextsCarryOver(a, b, SERVER_TEXTS); }
    if HasAnyWord(a, NETWORK_WORDS) { WordsCarryOver(a, b, NETWORK_WORDS); }
    if HasAnyWord(a, SERVER_WORDS) { WordsCarryOver(a, b, SERVER_WORDS); }
  }

  /** An occurrence inside the prefix does not depend on what stands in the middle, unless it ends at the edge. */
  lemma InPrefix(prefix: string, m: string, m': string, suffix: string, needle: string, i: nat)
    requires OccursAt(prefix + m + suffix, needle, i) && i + |needle| <= |prefix|
    ensures Contains(prefix + m' + suffix, needle)
    ensures i + |needle| < |prefix| && Isolated(prefix + m + suffix, i, |needle|) ==>
              OccursAsWord(prefix + m' + suffix, needle)
  {
    var a, b := prefix + m + suffix, prefix + m' + suffix;
    assert a[i..i + |needle|] == prefix[i..i + |needle|] == b[i..i + |needle|];
    assert OccursAt(b, needle, i);
    assert i > 0 ==> a[i - 1] == prefix[i - 1] == b[i - 1];
  }

  lemma SuffixSlice(prefix: string, m: string, suffix: string, k: nat, n: nat)
    requires k + n <= |suffix|
    ensures var at := |prefix + m| + k; (prefix + m + suffix)[at..at + n] == suffix[k..k + n]
  {
  }

  lemma InSuffix(prefix: string, m: string, m': string, suffix: string, needle: string, i: nat)
    requires OccursAt(prefix + m + suffix, needle, i) && i >= |prefix + m|
    ensures Contains(prefix + m' + suffix, needle)
    ensures i > |prefix + m| && Isolated(prefix + m + suffix, i, |needle|) ==>
              OccursAsWord(prefix + m' + suffix, needle)
  {
    var a, b, n := prefix + m + suffix, prefix + m' + suffix, |needle|;
    var k, j := i - |prefix + m|, i - |m| + |m'|;
    SuffixSlice(prefix, m, suffix, k, n);
    SuffixSlice(prefix, m', suffix, k, n);
    assert OccursAt(b, needle, j);
    assert k > 0 ==> a[i - 1] == suffix[k - 1] == b[j - 1];
    assert i + n < |a| ==> a[i + n] == suffix[k + n] == b[j + n];
  }

  /** An occurrence covers no position whose character the needle does not have. */
  lemma Covers(text: string, needle: string, i: nat, at: nat)
    requires OccursAt(text, needle, i) && i <= at < i + |needle|
    ensures needle[at - i] == text[at]
  {
  }

  /**
   The middle `m` sets nothing off: in it no indicator lies or begins or ends, and it touches both sides with a letter
   or digit. Then all that `prefix + m + suffix` indicates lies in the prefix or in the suffix, away from the middle.
   */
  ghost predicate IsInert(prefix: string, m: string, suffix: string) {
    var a := prefix + m + suffix;
    && m != [] && IsAlnum(m[0]) && IsAlnum(m[|m| - 1])
    && (forall needle, i: nat :: OccursAt(a, needle, i) && (IsPlain(needle) || (IsCode(needle) && Isolated(a, i, |needle|)))
          ==> i + |needle| <= |prefix| || i >= |prefix + m|)
  }

  lemma InertCarriesOver(prefix: string, m: string, m': string, suffix: string)
    requires IsInert(prefix, m, suffix)
    ensures CarriesOver(prefix + m + suffix, prefix + m' + suffix)
  {
    hide IsPlain, IsCode, Contains, OccursAsWord;
    var a, b := prefix + m + suffix, prefix + m' + suffix;
    assert a[|prefix|] == m[0] && a[|prefix + m| - 1] == m[|m| - 1];
    forall needle, i: nat | IsPlain(needle) && OccursAt(a, needle, i) ensures Contains(b, needle) {
      if i + |needle| <= |prefix| {
        InPrefix(prefix, m, m', suffix, needle, i);
      } else {
        InSuffix(prefix, m, m', suffix, needle, i);
      }
    }
    forall needle, i: nat | IsCode(needle) && OccursAt(a, needle, i) && Isolated(a, i, |needle|)
      ensures OccursAsWord(b, needle)
    {
      if i + |needle| <= |prefix| {
        InPrefix(prefix, m, m', suffix, needle, i);
      } else {
        InSuffix(prefix, m, m', suffix, needle, i);
      }
    }
  }

  lemma LetterIsInert(prefix: string, suffix: string)
    ensures IsInert(prefix, "x", suffix)
  {
    var a := prefix + "x" + suffix;
    forall needle, i: nat | OccursAt(a, needle, i) && (IsPlain(needle) || IsCode(needle))
      ensures i + |needle| <= |prefix| || i >= |prefix + "x"|
    {
      if i <= |prefix| < i + |needle| {
        Covers(a, needle, i, |prefix|);
      }
    }
  }

  /** After a letter or digit `500` is no word, and so it is none before one. */
  lemma CodeAfterLetterIsInert(prefix: string, suffix: string)
    requires !EndsApart(prefix)
    ensures IsInert(prefix, "500~x", suffix)
  {
    var m := "500~x";
    var a, p := prefix + m + suffix, |prefix|;
    assert a[p - 1] == prefix[p - 1] && forall k :: 0 <= k < 5 ==> a[p + k] == m[k];
    forall needle, i: nat | OccursAt(a, needle, i) && (IsPlain(needle) || (IsCode(needle) && Isolated(a, i, |needle|)))
      ensures i + |needle| <= p || i >= |prefix + m|
    {
      if i + |needle| > p && i < p + 5 {
        if i <= p { Covers(a, needle, i, p); } else { Covers(a, needle, i, i); }
      }
    }
  }

  lemma CodeBeforeLetterIsInert(prefix: string, suffix: string)
    requires !StartsApart(suffix)
    ensures IsInert(prefix, "x~500", suffix)
  {
    var m := "x~500";
    var a, p := prefix + m + suffix, |prefix|;
    assert a[p + 5] == suffix[0] && forall k :: 0 <= k < 5 ==> a[p + k] == m[k];
    forall needle, i: nat | OccursAt(a, needle, i) && (IsPlain(needle) || (IsCode(needle) && Isolated(a, i, |needle|)))
      ensures i + |needle| <= p || i >= |prefix + m|
    {
      if i + |needle| > p && i < p + 5 {
        if i <= p { Covers(a, needle, i, p); } else { Covers(a, needle, i, i); }
      }
    }
  }

  /** The message to try on an unsafe edge: a server error as long as it stands alone. */
  function Probe(prefix: string): string {
    if EndsApart(prefix) then "x~500" else "500~x"
  }

  lemma ProbeIsNoStall(prefix: string)
    ensures !ContainsAny(Probe(prefix), STALL_TEXTS)
  {
    var text := Probe(prefix);
    TextsArePlain();
    if ContainsAny(text, STALL_TEXTS) {
      var k :| 0 <= k < |STALL_TEXTS| && Contains(text, STALL_TEXTS[k]);
      var i :| 0 <= i <= |text| && OccursAt(text, STALL_TEXTS[k], i);
      Covers(text, STALL_TEXTS[k], i, i);
    }
  }

  lemma ProbeIsTransient(prefix: string)
    ensures ClassifyLowered(Probe(prefix)) == Transient && ToLower(Probe(prefix)) == Probe(prefix)
  {
    hide ContainsAny, ScanSafe, WordBoundaryMatch, ToLower;
    var text, at := Probe(prefix), if EndsApart(prefix) then 2 else 0;
    LowerCaseStays(text);
    WordsAreScanSafe("500");
    assert OccursAt(text, "500", at) && Isolated(text, at, 3);
    ScanIsExact(text, "500");
    assert SERVER_WORDS[0] == "500";
    ProbeIsNoStall(prefix);
  }

  /** What `prefix` and `suffix` have to be for no lowercased text to lose its class between them. */
  predicate IsSafeFrame(prefix: string, suffix: string) {
    (EndsApart(prefix) && StartsApart(suffix)) || ClassifyLowered(prefix + "x" + suffix) != Permanent
  }

  lemma SafeFrameKeepsClass(prefix: string, text: string, suffix: string)
    requires IsSafeFrame(prefix, suffix)
    ensures ClassifyLowered(text).Severity() <= ClassifyLowered(prefix + text + suffix).Severity()
  {
    hide ContainsAny, HasAnyWord, IsInert, CarriesOver;
    if EndsApart(prefix) && StartsApart(suffix) {
      WrappingLoweredNeverDowngrades(prefix, text, suffix);
    } else {
      LetterIsInert(prefix, suffix);
      InertCarriesOver(prefix, "x", text, suffix);
      ClassCarriesOver(prefix + "x" + suffix, prefix + text + suffix);
      if ContainsAny(text, STALL_TEXTS) {
        WrappingKeepsTexts(prefix, text, suffix, STALL_TEXTS);
      }
    }
  }

  lemma UnsafeFrameLosesProbe(prefix: string, suffix: string)
    requires !IsSafeFrame(prefix, suffix)
    ensures ClassifyLowered(prefix + Probe(prefix) + suffix) == Permanent
  {
    hide ClassifyLowered, IsInert, CarriesOver;
    var text := Probe(prefix);
    if EndsApart(prefix) {
      CodeBeforeLetterIsInert(prefix, suffix);
    } else {
      CodeAfterLetterIsInert(prefix, suffix);
    }
    InertCarriesOver(prefix, text, "x", suffix);
    if ClassifyLowered(prefix + text + suffix) != Permanent {
      ClassCarriesOver(prefix + text + suffix, prefix + "x" + suffix);
    }
  }

  lemma ToLowerOfWrapped(prefix: string, message: string, suffix: string)
    ensures ToLower(prefix + message + suffix) == ToLower(prefix) + ToLower(message) + ToLower(suffix)
  {
    ToLowerDistributes(prefix + message, suffix);
    ToLowerDistributes(prefix, message);
  }

  /**
   Exactly which contexts never lower a message's class: those set off on both sides, once lowercased, by something other
   than a letter or digit, and those that are not permanent themselves around a letter, which belongs to no indicator.
   */
  lemma NeverDowngradesIff(prefix: string, suffix: string)
    ensures (forall message :: ClassifyFailure(message).Severity() <= ClassifyFailure(prefix + message + suffix).Severity())
            <==> (EndsApart(ToLower(prefix)) && StartsApart(ToLower(suffix)))
                 || ClassifyFailure(prefix + "x" + suffix) != Permanent
  {
    hide ToLower, ClassifyLowered, EndsApart, StartsApart;
    var p, q := ToLower(prefix), ToLower(suffix);
    ToLowerOfWrapped(prefix, "x", suffix);
    LowerCaseStays("x");
    if IsSafeFrame(p, q) {
      forall message
        ensures ClassifyFailure(message).Severity() <= ClassifyFailure(prefix + message + suffix).Severity()
      {
        ToLowerOfWrapped(prefix, message, suffix);
        SafeFrameKeepsClass(p, ToLower(message), q);
      }
    } else {
      ToLowerOfWrapped(prefix, Probe(p), suffix);
      ProbeIsTransient(p);
      UnsafeFrameLosesProbe(p, q);
      assert ClassifyFailure(Probe(p)) == Transient && ClassifyFailure(prefix + Probe(p) + suffix) == Permanent;
    }
  }

  /** The Kelvin sign is no ASCII letter, but it lowercases to one: after it a message can lose its class. */
  lemma KelvinSignIsNoSeparator() returns (message: string)
    ensures !IsAlnum('\U{212A}')
    ensures ClassifyFailure(message) == Transient && ClassifyFailure(message + "\U{212A}") == Permanent
  {
    hide ClassifyLowered;
    message := Probe([]);
    assert ToLower("\U{212A}") == "k" && !StartsApart("k");
    ProbeIsTransient([]);
    TooShortIsPermanent([] + "x" + "k");
    UnsafeFrameLosesProbe([], "k");
    ToLowerDistributes(message, "\U{212A}");
    assert [] + message + "k" == message + "k";
  }

  /** The dotted capital I lowercases to a letter and a combining dot: it spoils a word in front of it, not one behind. */
  lemma DottedCapitalIsHalfASeparator() returns (message: string)
    ensures ClassifyFailure(message) == Transient && ClassifyFailure(message + "\U{0130}") == Permanent
    ensures ClassifyFailure("\U{0130}" + message) != Permanent
  {
    hide ClassifyLowered;
    message := Probe([]);
    var dotted := "i\U{0307}";
    assert ToLower("\U{0130}") == dotted && !StartsApart(dotted) && EndsApart(dotted);
    ProbeIsTransient([]);
    TooShortIsPermanent([] + "x" + dotted);
    UnsafeFrameLosesProbe([], dotted);
    ToLowerDistributes(message, "\U{0130}");
    assert [] + message + dotted == message + dotted;
    WrappingLoweredNeverDowngrades(dotted, message, []);
    ToLowerDistributes("\U{0130}", message);
    assert dotted + message + [] == dotted + message;
  }

  /** A text too short for any indicator. */
  predicate IsTooShort(text: string) {
    |text| < 3 || (|text| == 3 && text[0] == 'x')
  }

  lemma NotInTooShort(text: string, needle: string, i: nat)
    requires IsTooShort(text) && |needle| >= 3 && needle[0] != 'x'
    ensures !OccursAt(text, needle, i)
  {
    assert |text| == 3 ==> text[0..3][0] == 'x';
  }

  lemma TooShortForTexts(text: string, needles: seq<string>)
    requires IsTooShort(text) && forall k :: 0 <= k < |needles| ==> IsPlain(needles[k])
    ensures !ContainsAny(text, needles)
  {
    forall k, i: nat | 0 <= k < |needles| ensures !OccursAt(text, needles[k], i) {
      NotInTooShort(text, needles[k], i);
    }
  }

  lemma TooShortForWords(text: string, needles: seq<string>)
    requires IsTooShort(text) && forall k :: 0 <= k < |needles| ==> IsCode(needles[k])
    ensures !HasAnyWord(text, needles)
  {
    forall k | 0 <= k < |needles| ensures !WordBoundaryMatch(text, needles[k]) {
      forall i: nat ensures !OccursAt(text, needles[k], i) {
        NotInTooShort(text, needles[k], i);
      }
      if WordBoundaryMatch(text, needles[k]) {
        ScanIsSound(text, needles[k], 0);
      }
    }
  }

  lemma TooShortIsPermanent(text: string)
    requires IsTooShort(text)
    ensures ClassifyLowered(text) == Permanent
  {
    hide ContainsAny, HasAnyWord, IsPlain, IsCode;
    TextsArePlain();
    WordsAreCodes();
    TooShortForTexts(text, STALL_TEXTS);
    TooShortForTexts(text, RATE_LIMIT_TEXTS);
    TooShortForTexts(text, NETWORK_TEXTS);
    TooShortForTexts(text, SERVER_TEXTS);
    TooShortForWords(text, NETWORK_WORDS);
    TooShortForWords(text, SERVER_WORDS);
  }

  /**
   Whatever the order of the list: stall texts win, one other indicator makes a failure transient, the auth texts decide
   nothing.
   */
  lemma ClassByIndicators(message: string)
    ensures var text := ToLower(message);
            var stalls := Contains(text, "stall") || Contains(text, "heartbeat timeout") || Contains(text, "no activity");
            var limited := Contains(text, "rate limit") || Contains(text, "429") || Contains(text, "too many requests");
            var network := Contains(text, "timeout") || Contains(text, "timed out") || Contains(text, "connection reset")
              || Contains(text, "connection refused") || Contains(text, "network") || Contains(text, "dns")
              || Contains(text, "broken pipe") || OccursAsWord(text, "eof");
            var server := Contains(text, "internal server error") || Contains(text, "service unavailable")
              || OccursAsWord(text, "500") || OccursAsWord(text, "502") || OccursAsWord(text, "503")
              || OccursAsWord(text, "504");
            && (ClassifyFailure(message) == Stall <==> stalls)
            && (ClassifyFailure(message) == Transient <==> !stalls && (limited || network || server))
            && (ClassifyFailure(message) == Permanent <==> !stalls && !limited && !network && !server)
  {
    hide Contains, ToLower, OccursAsWord, WordBoundaryMatch, ScanSafe;
    var text := ToLower(message);
    ScannedWordsAreSafe();
    StallTextsAre(text);
    RateLimitTextsAre(text);
    NetworkTextsAre(text);
    ServerTextsAre(text);
  }

  lemma StallTextsAre(text: string)
    ensures ContainsAny(text, STALL_TEXTS) <==>
            Contains(text, "stall") || Contains(text, "heartbeat timeout") || Contains(text, "no activity")
  {
    hide Contains;
    assert STALL_TEXTS[0] == "stall" && STALL_TEXTS[1] == "heartbeat timeout" && STALL_TEXTS[2] == "no activity";
  }

  lemma RateLimitTextsAre(text: string)
    ensures ContainsAny(text, RATE_LIMIT_TEXTS) <==>
            Contains(text, "rate limit") || Contains(text, "429") || Contains(text, "too many requests")
  {
    hide Contains;
    var texts := RATE_LIMIT_TEXTS;
    assert texts[0] == "rate limit" && texts[1] == "429" && texts[2] == "too many requests";
  }

  lemma NetworkTextsAre(text: string)
    ensures ContainsAny(text, NETWORK_TEXTS) || HasAnyWord(text, NETWORK_WORDS) <==>
            || Contains(text, "timeout") || Contains(text, "timed out") || Contains(text, "connection reset")
            || Contains(text, "connection refused") || Contains(text, "network") || Contains(text, "dns")
            || Contains(text, "broken pipe") || OccursAsWord(text, "eof")
  {
    hide Contains, OccursAsWord, WordBoundaryMatch, ScanSafe;
    var texts := NETWORK_TEXTS;
    ScannedWordsAreSafe();
    ScanIsExact(text, NETWORK_WORDS[0]);
    assert texts[0] == "timeout" && texts[1] == "timed out" && texts[2] == "connection reset";
    assert texts[3] == "connection refused" && texts[4] == "network" && texts[5] == "dns" && texts[6] == "broken pipe";
  }

  lemma ServerTextsAre(text: string)
    ensures ContainsAny(text, SERVER_TEXTS) || HasAnyWord(text, SERVER_WORDS) <==>
            || Contains(text, "internal server error") || Contains(text, "service unavailable")
            || OccursAsWord(text, "500") || OccursAsWord(text, "502") || OccursAsWord(text, "503")
            || OccursAsWord(text, "504")
  {
    hide Contains, OccursAsWord, WordBoundaryMatch, ScanSafe;
    var texts, words := SERVER_TEXTS, SERVER_WORDS;
    ScannedWordsAreSafe();
    forall k | 0 <= k < |words| ensures WordBoundaryMatch(text, words[k]) <==> OccursAsWord(text, words[k]) {
      ScanIsExact(text, words[k]);
    }
    assert texts[0] == "internal server error" && texts[1] == "service unavailable";
    assert words[0] == "500" && words[1] == "502" && words[2] == "503" && words[3] == "504";
  }

  // ---------- Case ----------

  lemma SameLowered(c: char, d: char)
    requires SameLetter(c, d)
    ensures LowerChar(c) == LowerChar(d)
  {
  }

  lemma {:induction false} SameTextLowered(a: string, b: string)
    requires SameUpToCase(a, b)
    ensures ToLower(a) == ToLower(b)
  {
    hide LowerChar, SameLetter;
    if a != [] {
      SameLowered(a[0], b[0]);
      SameTextLowered(a[1..], b[1..]);
    }
  }

  lemma {:induction false} NoCapitalsLeft(s: string)
    ensures forall i :: 0 <= i < |ToLower(s)| ==> !('A' <= ToLower(s)[i] <= 'Z')
  {
    if s != [] {
      NoCapitalsLeft(s[1..]);
    }
  }

  /** Messages that differ only in the case of ASCII letters get the same class, and capitals are what is lowered. */
  lemma CaseDoesNotMatter(a: string, b: string)
    requires SameUpToCase(a, b)
    ensures ClassifyFailure(a) == ClassifyFailure(b)
    ensures ToLower(a) == ToLower(b) && forall i :: 0 <= i < |ToLower(a)| ==> !('A' <= ToLower(a)[i] <= 'Z')
    ensures (forall i :: 0 <= i < |b| ==> b[i] < 'A' || 'Z' < b[i] < '\U{80}') ==> ToLower(a) == b
  {
    SameTextLowered(a, b);
    NoCapitalsLeft(a);
    if forall i :: 0 <= i < |b| ==> b[i] < 'A' || 'Z' < b[i] < '\U{80}' {
      LowerCaseStays(b);
    }
  }

  /** So an indicator in capitals is recognized. */
  lemma CapitalsAreRecognized(rest: string)
    ensures ClassifyFailure("DNS" + rest) != Permanent
  {
    hide ClassifyFailure, Contains, OccursAsWord, ToLower, OccursAt;
    CaseDoesNotMatter("DNS", "dns");
    ToLowerDistributes("DNS", rest);
    ContainsAtStart("dns", ToLower(rest));
    ClassByIndicators("DNS" + rest);
  }

  lemma ContainsAtStart(needle: string, rest: string)
    ensures Contains(needle + rest, needle)
  {
    assert OccursAt(needle + rest, needle, 0);
  }
}
