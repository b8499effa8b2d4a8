/** The PATH handed to the GitHub CLI: fixed directories first, then the caller's own, each once. */
module SearchPath {
  import opened Wrappers

  const FIXED_DIRECTORIES: seq<string> :=
    ["/opt/homebrew/bin", "/usr/local/bin", "/usr/bin", "/bin", "/usr/sbin", "/sbin"]

  /** Unicode `White_Space`. */
  predicate IsWhite(c: char) {
    '\t' <= c <= '\r' || c == ' ' || c == '\U{85}' || c == '\U{A0}' || c == '\U{1680}'
    || '\U{2000}' <= c <= '\U{200A}' || c == '\U{2028}' || c == '\U{2029}' || c == '\U{202F}'
    || c == '\U{205F}' || c == '\U{3000}'
  }

  function TrimStart(s: string): string {
    if s != [] && IsWhite(s[0]) then TrimStart(s[1..]) else s
  }

  function TrimEnd(s: string): string {
    if s != [] && IsWhite(s[|s| - 1]) then TrimEnd(s[..|s| - 1]) else s
  }

  function Trim(s: string): string {
    TrimEnd(TrimStart(s))
  }

  /** The parts between colons; an empty text is one empty part. */
  function Split(s: string): (parts: seq<string>)
    ensures parts != []
  {
    if s == [] then [[]]
    else
      var rest := Split(s[1..]);
      if s[0] == ':' then [[]] + rest else [[s[0]] + rest[0]] + rest[1..]
  }

  function Join(parts: seq<string>): string {
    if parts == [] then []
    else if |parts| == 1 then parts[0]
    else parts[0] + ":" + Join(parts[1..])
  }

  function NonEmptyTrimmed(parts: seq<string>): seq<string> {
    if parts == [] then []
    else
      var text := Trim(parts[0]);
      (if text == [] then [] else [text]) + NonEmptyTrimmed(parts[1..])
  }

  /** The first occurrence of each part not in `seen`. */
  function KeepFirst(parts: seq<string>, seen: set<string>): seq<string> {
    if parts == [] then []
    else if parts[0] in seen then KeepFirst(parts[1..], seen)
    else [parts[0]] + KeepFirst(parts[1..], seen + {parts[0]})
  }

  /** The directories to search, before repeats are dropped. */
  function Candidates(current: Option<string>): seq<string> {
    FIXED_DIRECTORIES + match current case None => [] case Some(path) => NonEmptyTrimmed(Split(path))
  }

  function Compose(current: Option<string>): string {
    Join(KeepFirst(Candidates(current), {}))
  }

  method ComposeGithubCliPath(current: Option<string>) returns (path: string)
    ensures path == Compose(current)
  {
    hide FIXED_DIRECTORIES;
    var segments := FIXED_DIRECTORIES;
    if current.Some? {
      var parts := Split(current.value);
      for i := 0 to |parts|
        invariant segments + NonEmptyTrimmed(parts[i..]) == Candidates(current)
      {
        var text := Trim(parts[i]);
        ghost var before := segments;
        if text != [] {
          segments := segments + [text];
        }
        assert parts[i..][1..] == parts[i + 1..];
        assert segments + NonEmptyTrimmed(parts[i + 1..]) == before + NonEmptyTrimmed(parts[i..]);
      }
      assert NonEmptyTrimmed(parts[|parts|..]) == [];
    }
    assert segments + [] == segments;
    var kept := FilterSeen(segments);
    path := Join(kept);
  }

  /** The closing filter: a segment stays when inserting it into the seen set succeeds. */
  method FilterSeen(segments: seq<string>) returns (kept: seq<string>)
    ensures kept == KeepFirst(segments, {})
  {
    var seen: set<string> := {};
    kept := [];
    for i := 0 to |segments|
      invariant kept + KeepFirst(segments[i..], seen) == KeepFirst(segments, {})
    {
      ghost var before := kept + KeepFirst(segments[i..], seen);
      assert segments[i..][1..] == segments[i + 1..];
      if segments[i] !in seen {
        seen := seen + {segments[i]};
        kept := kept + [segments[i]];
      }
      assert kept + KeepFirst(segments[i + 1..], seen) == before;
    }
    assert KeepFirst(segments[|segments|..], seen) == [];
  }

  // ---------- Splitting and joining ----------

  predicate NoColon(s: string) {
    ':' !in s
  }

  lemma {:induction false} SplitOfPrefixed(prefix: string, rest: string)
    requires NoColon(prefix)
    ensures Split(prefix + ":" + rest) == [prefix] + Split(rest)
  {
    var s := prefix + ":" + rest;
    if prefix == [] {
      assert s[1..] == rest;
    } else {
      assert s[1..] == prefix[1..] + ":" + rest;
      SplitOfPrefixed(prefix[1..], rest);
      assert [prefix[0]] + prefix[1..] == prefix;
    }
  }

  lemma {:induction false} SplitOfPlain(s: string)
    requires NoColon(s)
    ensures Split(s) == [s]
  {
    if s != [] {
      SplitOfPlain(s[1..]);
      assert [s[0]] + s[1..] == s;
    }
  }

  /** Splitting undoes joining. */
  lemma {:induction false} SplitUndoesJoin(parts: seq<string>)
    requires parts != [] && forall i :: 0 <= i < |parts| ==> NoColon(parts[i])
    ensures Split(Join(parts)) == parts
  {
    if |parts| == 1 {
      SplitOfPlain(parts[0]);
    } else {
      SplitOfPrefixed(parts[0], Join(parts[1..]));
      SplitUndoesJoin(parts[1..]);
    }
  }

  lemma JoinOfLonger(parts: seq<string>)
    requires parts != []
    ensures Join([[]] + parts) == ":" + Join(parts)
  {
    assert ([[]] + parts)[1..] == parts;
  }

  lemma JoinOfLongerFirst(c: char, parts: seq<string>)
    requires parts != []
    ensures Join([[c] + parts[0]] + parts[1..]) == [c] + Join(parts)
  {
    assert ([[c] + parts[0]] + parts[1..])[1..] == parts[1..];
    if |parts| > 1 {
      assert [c] + parts[0] + ":" + Join(parts[1..]) == [c] + (parts[0] + ":" + Join(parts[1..]));
    }
  }

  /** Joining undoes splitting, so no text is lost on the way. */
  lemma {:induction false} JoinUndoesSplit(s: string)
    ensures Join(Split(s)) == s
  {
    if s != [] {
      hide Join;
      JoinUndoesSplit(s[1..]);
      assert s == [s[0]] + s[1..];
      if s[0] == ':' {
        JoinOfLonger(Split(s[1..]));
      } else {
        JoinOfLongerFirst(s[0], Split(s[1..]));
      }
    }
  }

  lemma {:induction false} SplitPartsHaveNoColon(s: string)
    ensures forall i :: 0 <= i < |Split(s)| ==> NoColon(Split(s)[i])
  {
    if s != [] {
      SplitPartsHaveNoColon(s[1..]);
    }
  }

  // ---------- Trimming ----------

  /** A part that composing leaves as it is. */
  predicate Clean(s: string) {
    s != [] && NoColon(s) && !IsWhite(s[0]) && !IsWhite(s[|s| - 1])
  }

  ghost predicate AllWhite(s: string) {
    forall i :: 0 <= i < |s| ==> IsWhite(s[i])
  }

  lemma {:induction false} TrimStartIsSuffix(s: string) returns (before: string)
    ensures s == before + TrimStart(s) && AllWhite(before)
    ensures TrimStart(s) == [] || !IsWhite(TrimStart(s)[0])
  {
    before := [];
    if s != [] && IsWhite(s[0]) {
      var rest := TrimStartIsSuffix(s[1..]);
      before := [s[0]] + rest;
      assert s == [s[0]] + s[1..];
    }
  }

  lemma {:induction false} TrimEndIsPrefix(s: string) returns (after: string)
    ensures s == TrimEnd(s) + after && AllWhite(after)
    ensures TrimEnd(s) == [] || !IsWhite(TrimEnd(s)[|TrimEnd(s)| - 1])
  {
    after := [];
    if s != [] && IsWhite(s[|s| - 1]) {
      var rest := TrimEndIsPrefix(s[..|s| - 1]);
      after := rest + [s[|s| - 1]];
      assert s == s[..|s| - 1] + [s[|s| - 1]];
    }
  }

  /** Trimming removes white space at both ends and nothing else. */
  lemma TrimRemovesOnlyWhite(s: string) returns (before: string, after: string)
    ensures s == before + Trim(s) + after && AllWhite(before) && AllWhite(after)
    ensures Trim(s) != [] ==> !IsWhite(Trim(s)[0]) && !IsWhite(Trim(s)[|Trim(s)| - 1])
  {
    hide TrimStart, TrimEnd, AllWhite, IsWhite;
    before := TrimStartIsSuffix(s);
    after := TrimEndIsPrefix(TrimStart(s));
    if Trim(s) != [] {
      assert TrimStart(s)[0] == Trim(s)[0];
    }
  }

  /** The white space trimmed, by code point: tab to carriage return, the space, and the blanks beyond ASCII. */
  lemma WhiteSpaceIsTrimmed(c: char)
    ensures var n := c as int;
            Trim([c]) == if 0x9 <= n <= 0xD || n == 0x20 || n == 0x85 || n == 0xA0 || n == 0x1680 || 0x2000 <= n <= 0x200A
                            || n == 0x2028 || n == 0x2029 || n == 0x202F || n == 0x205F || n == 0x3000 then [] else [c]
  {
    var s := [c];
    assert s[1..] == [] && s[..|s| - 1] == [];
    assert TrimStart(s[1..]) == [] && TrimEnd(s[..|s| - 1]) == [];
    assert TrimStart(s) == if IsWhite(c) then [] else s;
  }

  lemma TrimIsClean(s: string)
    requires NoColon(s) && Trim(s) != []
    ensures Clean(Trim(s))
  {
    hide TrimStart, TrimEnd;
    var before, after := TrimRemovesOnlyWhite(s);
    assert forall c :: c in Trim(s) ==> c in before + Trim(s) + after;
  }

  lemma {:induction false} TrimmedPartsAreClean(parts: seq<string>)
    requires forall i :: 0 <= i < |parts| ==> NoColon(parts[i])
    ensures forall i :: 0 <= i < |NonEmptyTrimmed(parts)| ==> Clean(NonEmptyTrimmed(parts)[i])
  {
    if parts != [] {
      TrimmedPartsAreClean(parts[1..]);
      if Trim(parts[0]) != [] {
        TrimIsClean(parts[0]);
      }
    }
  }

  lemma {:induction false} CleanPartsAreKept(parts: seq<string>)
    requires forall i :: 0 <= i < |parts| ==> Clean(parts[i])
    ensures NonEmptyTrimmed(parts) == parts
  {
    if parts != [] {
      CleanPartsAreKept(parts[1..]);
      assert Trim(parts[0]) == parts[0];
    }
  }

  lemma FixedDirectoriesAreClean()
    ensures forall i :: 0 <= i < |FIXED_DIRECTORIES| ==> Clean(FIXED_DIRECTORIES[i])
    ensures Distinct(FIXED_DIRECTORIES)
  {
  }

  lemma CandidatesAreClean(current: Option<string>)
    ensures forall i :: 0 <= i < |Candidates(current)| ==> Clean(Candidates(current)[i])
  {
    FixedDirectoriesAreClean();
    if current.Some? {
      SplitPartsHaveNoColon(current.value);
      TrimmedPartsAreClean(Split(current.value));
    }
  }

  // ---------- Keeping first occurrences ----------

  ghost predicate Distinct(parts: seq<string>) {
    forall i, j :: 0 <= i < j < |parts| ==> parts[i] != parts[j]
  }

  function Elements(parts: seq<string>): set<string> {
    set p | p in parts
  }

  /** `kept` lists exactly the parts not in `seen`, each once, in the order of their first occurrence. */
  ghost predicate FirstOccurrences(kept: seq<string>, parts: seq<string>, seen: set<string>) {
    && Distinct(kept)
    && Elements(kept) == Elements(parts) - seen
    && forall i, j, b :: 0 <= i < j < |kept| && 0 <= b < |parts| && parts[b] == kept[j] ==> kept[i] in parts[..b]
  }

  lemma {:induction false} KeepFirstMeetsSpec(parts: seq<string>, seen: set<string>)
    ensures FirstOccurrences(KeepFirst(parts, seen), parts, seen)
  {
    if parts != [] {
      var p := parts[0];
      var kept := KeepFirst(parts, seen);
      if p in seen {
        KeepFirstMeetsSpec(parts[1..], seen);
        forall i, j, b | 0 <= i < j < |kept| && 0 <= b < |parts| && parts[b] == kept[j] ensures kept[i] in parts[..b] {
          assert b > 0 by { assert kept[j] in Elements(kept); }
          assert kept[i] in parts[1..][..b - 1];
        }
      } else {
        var rest := KeepFirst(parts[1..], seen + {p});
        KeepFirstMeetsSpec(parts[1..], seen + {p});
        ElementsOfCons(p, parts[1..]);
        ElementsOfCons(p, rest);
        assert parts == [p] + parts[1..];
        forall j | 0 <= j < |rest| ensures rest[j] != p {
          assert rest[j] in Elements(rest);
        }
        forall i, j, b | 0 <= i < j < |kept| && 0 <= b < |parts| && parts[b] == kept[j] ensures kept[i] in parts[..b] {
          assert b > 0 && kept[j] == rest[j - 1];
          if i > 0 {
            assert rest[i - 1] in parts[1..][..b - 1];
          } else {
            assert parts[..b][0] == p;
          }
        }
      }
    }
  }

  lemma ElementsOfCons(p: string, rest: seq<string>)
    ensures Elements([p] + rest) == {p} + Elements(rest)
  {
  }

  lemma {:induction false} KeepFirstOfConcat(a: seq<string>, b: seq<string>, seen: set<string>)
    ensures KeepFirst(a + b, seen) == KeepFirst(a, seen) + KeepFirst(b, seen + Elements(a))
  {
    if a == [] {
      assert a + b == b && seen + Elements(a) == seen;
    } else {
      assert (a + b)[1..] == a[1..] + b;
      var seen' := if a[0] in seen then seen else seen + {a[0]};
      KeepFirstOfConcat(a[1..], b, seen');
      ElementsOfCons(a[0], a[1..]);
      assert a == [a[0]] + a[1..];
      assert seen' + Elements(a[1..]) == seen + Elements(a);
    }
  }

  lemma {:induction false} DistinctPartsAreKept(parts: seq<string>, seen: set<string>)
    requires Distinct(parts) && Elements(parts) !! seen
    ensures KeepFirst(parts, seen) == parts
  {
    if parts != [] {
      assert parts[0] in Elements(parts);
      assert Elements(parts[1..]) <= Elements(parts);
      DistinctPartsAreKept(parts[1..], seen + {parts[0]});
    }
  }

  lemma {:induction false} SeenPartsAreDropped(parts: seq<string>, seen: set<string>)
    requires Elements(parts) <= seen
    ensures KeepFirst(parts, seen) == []
  {
    if parts != [] {
      assert parts[0] in Elements(parts);
      assert Elements(parts[1..]) <= Elements(parts);
      SeenPartsAreDropped(parts[1..], seen);
    }
  }

  // ---------- The composed path ----------

  lemma KeptStartsWithFixed(current: Option<string>)
    ensures var kept := KeepFirst(Candidates(current), {});
            FIXED_DIRECTORIES <= kept
            && FirstOccurrences(kept, Candidates(current), {})
            && forall i :: 0 <= i < |kept| ==> Clean(kept[i])
  {
    var fixed := FIXED_DIRECTORIES;
    var own := Candidates(current)[|fixed|..];
    var kept := KeepFirst(Candidates(current), {});
    assert Candidates(current) == fixed + own;
    KeepFirstOfConcat(fixed, own, {});
    FixedDirectoriesAreClean();
    DistinctPartsAreKept(fixed, {});
    KeepFirstMeetsSpec(Candidates(current), {});
    CandidatesAreClean(current);
    forall i | 0 <= i < |kept| ensures Clean(kept[i]) {
      assert kept[i] in Elements(kept);
    }
  }

  lemma {:induction false} TrimmedMembers(parts: seq<string>, t: string)
    ensures t in NonEmptyTrimmed(parts) <==> t != [] && exists i :: 0 <= i < |parts| && Trim(parts[i]) == t
  {
    hide Trim;
    if parts != [] {
      TrimmedMembers(parts[1..], t);
      if i :| 0 <= i < |parts| && Trim(parts[i]) == t {
        assert i > 0 ==> Trim(parts[1..][i - 1]) == t;
      }
      if i :| 0 <= i < |parts[1..]| && Trim(parts[1..][i]) == t {
        assert Trim(parts[i + 1]) == t;
      }
    }
  }

  /** Segments are taken one after the other, so what an earlier part of a path contributes comes first. */
  lemma {:induction false} EarlierSegmentsComeFirst(a: seq<string>, b: seq<string>)
    ensures NonEmptyTrimmed(a + b) == NonEmptyTrimmed(a) + NonEmptyTrimmed(b)
  {
    hide Trim;
    if a == [] {
      assert a + b == b;
    } else {
      assert (a + b)[1..] == a[1..] + b;
      EarlierSegmentsComeFirst(a[1..], b);
    }
  }

  /** `t` is one of the fixed directories, or what trimming leaves of a segment of the caller's path. */
  ghost predicate IsWanted(current: Option<string>, t: string) {
    t in ["/opt/homebrew/bin", "/usr/local/bin", "/usr/bin", "/bin", "/usr/sbin", "/sbin"]
    || (current.Some? && t != [] && exists i :: 0 <= i < |Split(current.value)| && Trim(Split(current.value)[i]) == t)
  }

  /**
   Read back part by part, the composed path starts with the fixed directories and holds exactly those and the
   non-empty trimmed segments of the caller's path, each once, in the order of first occurrence.
   */
  lemma ComposedPathMeetsSpec(current: Option<string>)
    ensures ["/opt/homebrew/bin", "/usr/local/bin", "/usr/bin", "/bin", "/usr/sbin", "/sbin"] <= Split(Compose(current))
    ensures FirstOccurrences(Split(Compose(current)), Candidates(current), {})
    ensures forall t :: t in Split(Compose(current)) <==> IsWanted(current, t)
  {
    KeptStartsWithFixed(current);
    SplitUndoesJoin(KeepFirst(Candidates(current), {}));
    forall t ensures t in Split(Compose(current)) <==> IsWanted(current, t) {
      WantedAreCandidates(current, t);
      KeptAreCandidates(Split(Compose(current)), Candidates(current), t);
    }
  }

  lemma WantedAreCandidates(current: Option<string>, t: string)
    ensures t in Candidates(current) <==> IsWanted(current, t)
  {
    hide Trim, Split;
    if current.Some? {
      TrimmedMembers(Split(current.value), t);
    }
  }

  lemma KeptAreCandidates(kept: seq<string>, parts: seq<string>, t: string)
    requires FirstOccurrences(kept, parts, {})
    ensures t in kept <==> t in parts
  {
    assert t in kept <==> t in Elements(kept);
    assert t in parts <==> t in Elements(parts);
  }

  /** Composing a composed path changes nothing. */
  lemma CompositionIsIdempotent(current: Option<string>)
    ensures Compose(Some(Compose(current))) == Compose(current)
  {
    var fixed := FIXED_DIRECTORIES;
    var kept := KeepFirst(Candidates(current), {});
    KeptStartsWithFixed(current);
    SplitUndoesJoin(kept);
    CleanPartsAreKept(kept);
    FixedDirectoriesAreClean();
    LeadingPartsComeFirstAgain(fixed, kept);
  }

  lemma LeadingPartsComeFirstAgain(fixed: seq<string>, kept: seq<string>)
    requires Distinct(kept) && fixed <= kept
    ensures KeepFirst(fixed + kept, {}) == kept
  {
    hide Distinct, KeepFirst, Elements;
    var own := kept[|fixed|..];
    assert kept == fixed + own;
    PartsAreApart(fixed, own);
    KeepFirstOfConcat(fixed, kept, {});
    DistinctPartsAreKept(fixed, {});
    KeepFirstOfConcat(fixed, own, Elements(fixed));
    SeenPartsAreDropped(fixed, Elements(fixed));
    DistinctPartsAreKept(own, Elements(fixed));
    assert {} + Elements(fixed) == Elements(fixed) && Elements(fixed) + Elements(fixed) == Elements(fixed);
  }

  lemma PartsAreApart(a: seq<string>, b: seq<string>)
    requires Distinct(a + b)
    ensures Distinct(a) && Distinct(b) && Elements(a) !! Elements(b)
  {
    var both := a + b;
    assert forall i :: 0 <= i < |a| ==> both[i] == a[i];
    assert forall j :: 0 <= j < |b| ==> both[|a| + j] == b[j];
  }
}
