/** Giving archive members distinct file names before the archive is rebuilt. */
module ArchiveNames {
  import opened Wrappers
  import opened ArArchive

  function Zeros(n: nat): (s: string)
    ensures |s| == n && forall i :: 0 <= i < n ==> s[i] == '0'
  {
    seq(n, i => '0')
  }

  /** `{index:04d}` */
  function Padded4(n: nat): (s: string)
    ensures forall i :: 0 <= i < |s| ==> IsDigit(s[i])
  {
    var digits := Decimal(n);
    Zeros(if |digits| < 4 then 4 - |digits| else 0) + digits
  }

  /** The position of the first dot, or the length of a name that has none. */
  function FirstDot(name: string): (i: nat)
    ensures i <= |name| && (i < |name| ==> name[i] == '.') && '.' !in name[..i]
  {
    if name == [] || name[0] == '.' then 0 else 1 + FirstDot(name[1..])
  }

  /** A repeated name carries its number before its first dot. */
  function TaggedName(name: string, duplicateIndex: nat): string {
    var dot := FirstDot(name);
    if duplicateIndex == 0 then name
    else if dot < |name| then name[..dot] + "__dup" + Decimal(duplicateIndex) + "." + name[dot + 1..]
    else name + "__dup" + Decimal(duplicateIndex)
  }

  function OutName(index: nat, name: string, duplicateIndex: nat): string {
    Padded4(index) + "_" + TaggedName(name, duplicateIndex)
  }

  function Occurrences(names: seq<string>, name: string): nat {
    multiset(names)[name]
  }

  /** The file names of a whole archive: the k-th repeat of a name carries the suffix k. */
  function OutNames(names: seq<string>): (outs: seq<string>)
    ensures |outs| == |names|
    ensures forall i :: 0 <= i < |names| ==> outs[i] == OutName(i, names[i], Occurrences(names[..i], names[i]))
  {
    seq(|names|, i requires 0 <= i < |names| => OutName(i, names[i], Occurrences(names[..i], names[i])))
  }

  // ---------- Paths ----------

  /** The position of the first slash, or the length of a name that has none. */
  function FirstSlash(name: string): (i: nat)
    ensures i <= |name| && (i < |name| ==> name[i] == '/') && '/' !in name[..i]
  {
    if name == [] || name[0] == '/' then 0 else 1 + FirstSlash(name[1..])
  }

  /** Path components that a path library drops: empty ones and single dots. */
  predicate Vanishes(components: string) {
    components == []
    || (components[0] == '/'
        && (Vanishes(components[1..]) || (|components| >= 2 && components[1] == '.' && Vanishes(components[2..]))))
  }

  /**
   The file an output name is written to. A name with a further component asks for a directory that is not there,
   and one with a NUL for no file at all.
   */
  function FileOf(outName: string): Option<string> {
    var slash := FirstSlash(outName);
    if '\0' !in outName && Vanishes(outName[slash..]) then Some(outName[..slash]) else None
  }

  predicate HasDuplicates(names: seq<string>) {
    exists i, j | 0 <= i < j < |names| :: names[i] == names[j]
  }

  function NamesOf(members: seq<Member>): (names: seq<string>)
    ensures |names| == |members|
    ensures forall i :: 0 <= i < |members| ==> names[i] == members[i].name
  {
    seq(|members|, i requires 0 <= i < |members| => members[i].name)
  }

  lemma TagSplitsName(name: string, k: nat) returns (front: string, back: string)
    ensures front + back == name && '.' !in front && (back == [] || back[0] == '.')
    ensures TaggedName(name, k) == front + (if k == 0 then [] else "__dup" + Decimal(k)) + back
  {
    hide Decimal, FirstDot;
    var dot := FirstDot(name);
    front, back := name[..dot], name[dot..];
    if k == 0 {
      assert front + [] + back == name;
    } else {
      var tag := "__dup" + Decimal(k);
      hide TaggedName;
      if dot < |name| {
        assert back == "." + name[dot + 1..];
        TaggedBeforeDot(name, k, tag);
      } else {
        TaggedAtEnd(name, k, tag);
      }
    }
  }

  lemma TaggedBeforeDot(name: string, k: nat, tag: string)
    requires k > 0 && tag == "__dup" + Decimal(k) && FirstDot(name) < |name|
    ensures TaggedName(name, k) == name[..FirstDot(name)] + tag + ("." + name[FirstDot(name) + 1..])
  {
    hide Decimal, FirstDot;
    Regroup(name[..FirstDot(name)], "__dup", Decimal(k), "." + name[FirstDot(name) + 1..]);
  }

  lemma TaggedAtEnd(name: string, k: nat, tag: string)
    requires k > 0 && tag == "__dup" + Decimal(k) && FirstDot(name) == |name|
    ensures TaggedName(name, k) == name[..FirstDot(name)] + tag + name[FirstDot(name)..]
  {
    hide Decimal, FirstDot;
    assert name[..|name|] == name && name[|name|..] == [];
    assert name + tag + [] == name + "__dup" + Decimal(k);
  }

  lemma Regroup(a: string, b: string, c: string, d: string)
    ensures a + (b + c + d) == a + b + c + d == a + (b + c) + d
  {
  }

  /** Taking the tag out of a file name gives the member's name back, and the tag stands before its first dot. */
  lemma TagGoesBeforeFirstDot(index: nat, name: string, k: nat) returns (front: string, back: string)
    ensures front + back == name
    ensures OutName(index, name, k) == Padded4(index) + "_" + front + (if k == 0 then [] else "__dup" + Decimal(k)) + back
    ensures '.' !in front && (back == [] || back[0] == '.')
  {
    hide Padded4, Decimal, TaggedName;
    front, back := TagSplitsName(name, k);
    Regroup(Padded4(index) + "_", front, if k == 0 then [] else "__dup" + Decimal(k), back);
  }

  // ---------- Distinctness ----------

  /** The number a string of digits stands for. */
  function Value(s: string): int {
    if s == [] then 0 else 10 * Value(s[..|s| - 1]) + (s[|s| - 1] as int - '0' as int)
  }

  lemma {:induction false} ValueOfDecimal(n: nat)
    ensures Value(Decimal(n)) == n
  {
    var s := Decimal(n);
    if n >= 10 {
      ValueOfDecimal(n / 10);
      assert s[..|s| - 1] == Decimal(n / 10);
    }
  }

  lemma {:induction false} LeadingZeros(zeros: nat, s: string)
    ensures Value(Zeros(zeros) + s) == Value(s)
  {
    var t := Zeros(zeros) + s;
    if s != [] {
      assert t[..|t| - 1] == Zeros(zeros) + s[..|s| - 1];
      LeadingZeros(zeros, s[..|s| - 1]);
    } else if zeros > 0 {
      assert t[..|t| - 1] == Zeros(zeros - 1) + [];
      LeadingZeros(zeros - 1, []);
    }
  }

  lemma Padded4IsInjective(m: nat, n: nat)
    requires Padded4(m) == Padded4(n)
    ensures m == n
  {
    LeadingZeros(if |Decimal(m)| < 4 then 4 - |Decimal(m)| else 0, Decimal(m));
    LeadingZeros(if |Decimal(n)| < 4 then 4 - |Decimal(n)| else 0, Decimal(n));
    ValueOfDecimal(m);
    ValueOfDecimal(n);
  }

  lemma {:induction false} LengthOfDecimal(n: nat, width: nat)
    requires width > 0 && n < Power10(width)
    ensures |Decimal(n)| <= width
    decreases width
  {
    if width > 1 && n >= 10 {
      LengthOfDecimal(n / 10, width - 1);
    }
  }

  function Power10(n: nat): nat {
    if n == 0 then 1 else 10 * Power10(n - 1)
  }

  /**
   A file name begins with its position: decimal digits, four of them up to position 9999 and no more than needed
   beyond, then an underscore.
   */
  lemma PositionComesFirst(index: nat, name: string, k: nat) returns (digits: string)
    ensures digits + "_" <= OutName(index, name, k)
    ensures forall i :: 0 <= i < |digits| ==> 48 <= digits[i] as int <= 57
    ensures Value(digits) == index
    ensures index < 10000 ==> |digits| == 4
    ensures index >= 10000 ==> |digits| > 4 && digits[0] != '0'
  {
    hide Padded4, TaggedName;
    digits := Padded4(index);
    PaddingIs(index);
    if index < 10000 {
      assert Power10(4) == 10000;
      LengthOfDecimal(index, 4);
    } else {
      LongDecimal(index);
    }
  }

  lemma PaddingIs(index: nat)
    ensures Value(Padded4(index)) == index
    ensures |Padded4(index)| == if |Decimal(index)| < 4 then 4 else |Decimal(index)|
    ensures |Decimal(index)| >= 4 ==> Padded4(index) == Decimal(index)
  {
    LeadingZeros(if |Decimal(index)| < 4 then 4 - |Decimal(index)| else 0, Decimal(index));
    ValueOfDecimal(index);
  }

  lemma LongDecimal(n: nat)
    requires n >= 10000
    ensures |Decimal(n)| > 4
  {
    assert |Decimal(n)| == 1 + |Decimal(n / 10)|;
    assert |Decimal(n / 10)| == 1 + |Decimal(n / 10 / 10)|;
    assert |Decimal(n / 10 / 10)| == 1 + |Decimal(n / 10 / 10 / 10)|;
    assert |Decimal(n / 10 / 10 / 10)| == 1 + |Decimal(n / 10 / 10 / 10 / 10)|;
  }

  lemma DigitsEndAtUnderscore(a: string, b: string, x: string, y: string)
    requires forall i :: 0 <= i < |a| ==> IsDigit(a[i])
    requires forall i :: 0 <= i < |b| ==> IsDigit(b[i])
    requires a + "_" + x == b + "_" + y
    ensures a == b && x == y
  {
    var s, t := a + "_" + x, b + "_" + y;
    assert s[|a|] == '_' && t[|b|] == '_';
    assert |a| == |b|;
    assert a == s[..|a|] && b == t[..|b|] && x == s[|a| + 1..] && y == t[|b| + 1..];
  }

  /** From position `from` on there are only slashes and dots, a slash first and never two dots in a row. */
  predicate OnlySlashesAndSingleDots(s: string, from: nat) {
    && (from < |s| ==> s[from] == '/')
    && (forall j :: from <= j < |s| ==> s[j] == '/' || s[j] == '.')
    && (forall j :: from < j < |s| ==> s[j - 1] != '.' || s[j] != '.')
  }

  lemma {:induction false} VanishesIff(s: string, from: nat)
    requires from <= |s|
    ensures Vanishes(s[from..]) <==> OnlySlashesAndSingleDots(s, from)
    decreases |s| - from
  {
    if from < |s| && s[from] == '/' {
      VanishesIff(s, from + 1);
      assert s[from..][1..] == s[from + 1..];
      if from + 1 < |s| && s[from + 1] == '.' {
        VanishesIff(s, from + 2);
        assert s[from..][2..] == s[from + 2..];
      }
    }
  }

  /** A name is written to the part before its first slash, if nothing but dropped components and no NUL follows. */
  lemma WhichNamesAreFiles(outName: string)
    ensures var slash := FirstSlash(outName);
            && (FileOf(outName).Some? ==> FileOf(outName).value == outName[..slash])
            && (FileOf(outName).Some? <==> '\0' !in outName && OnlySlashesAndSingleDots(outName, slash))
  {
    hide Vanishes, OnlySlashesAndSingleDots;
    VanishesIff(outName, FirstSlash(outName));
  }

  /** Up to its first slash an output name is its position, an underscore and something. */
  lemma SlashComesAfterPosition(index: nat, name: string, k: nat) returns (rest: string)
    ensures var outName := OutName(index, name, k);
            outName[..FirstSlash(outName)] == Padded4(index) + "_" + rest
  {
    hide Padded4, Decimal;
    var outName, digits := OutName(index, name, k), Padded4(index);
    var front, back := TagGoesBeforeFirstDot(index, name, k);
    var slash := FirstSlash(outName);
    assert outName == digits + "_" + outName[|digits| + 1..];
    forall i | 0 <= i <= |digits| ensures outName[i] != '/' {
      assert i < |digits| ==> outName[i] == digits[i];
    }
    assert slash > |digits| by {
      StartOfOutName(index, name, k);
    }
    rest := outName[|digits| + 1..slash];
  }

  lemma StartOfOutName(index: nat, name: string, k: nat)
    ensures var n := |Padded4(index)|; |OutName(index, name, k)| > n && OutName(index, name, k)[n] == '_'
  {
  }

  /** Files written for different positions differ, whatever the members are called. */
  lemma FilesDiffer(i: nat, j: nat, name: string, name': string, k: nat, k': nat)
    requires i != j && FileOf(OutName(i, name, k)).Some?
    ensures FileOf(OutName(i, name, k)) != FileOf(OutName(j, name', k'))
  {
    hide Padded4, OutName;
    if FileOf(OutName(i, name, k)) == FileOf(OutName(j, name', k')) {
      var x := SlashComesAfterPosition(i, name, k);
      var y := SlashComesAfterPosition(j, name', k');
      DigitsEndAtUnderscore(Padded4(i), Padded4(j), x, y);
      Padded4IsInjective(i, j);
    }
  }

  lemma {:induction false} NoSlash(name: string)
    requires '/' !in name
    ensures FirstSlash(name) == |name|
  {
    if name != [] {
      NoSlash(name[1..]);
    }
  }

  /** A member's name without slash and NUL is a file name as it stands. */
  lemma PlainNamesAreFiles(index: nat, name: string, k: nat)
    requires '/' !in name && '\0' !in name
    ensures FileOf(OutName(index, name, k)) == Some(OutName(index, name, k))
  {
    hide Padded4, Decimal;
    var outName := OutName(index, name, k);
    forall c | c in outName ensures c != '/' && c != '\0' {
      CharactersOfOutName(index, name, k, c);
    }
    NoSlash(outName);
    assert outName[..|outName|] == outName && outName[|outName|..] == [];
  }

  lemma CharactersOfOutName(index: nat, name: string, k: nat, c: char)
    requires c in OutName(index, name, k)
    ensures c in name || IsDigit(c) || c in "__dup."
  {
    var front, back := TagGoesBeforeFirstDot(index, name, k);
    assert c in front || c in back ==> c in front + back;
  }

  /** Names made for different positions differ, whatever the members are called. */
  lemma OutNamesDiffer(i: nat, j: nat, name: string, name': string, k: nat, k': nat)
    requires i != j
    ensures OutName(i, name, k) != OutName(j, name', k')
  {
    if OutName(i, name, k) == OutName(j, name', k') {
      var x := OutName(i, name, k)[|Padded4(i)| + 1..];
      var y := OutName(j, name', k')[|Padded4(j)| + 1..];
      assert OutName(i, name, k) == Padded4(i) + "_" + x;
      assert OutName(j, name', k') == Padded4(j) + "_" + y;
      DigitsEndAtUnderscore(Padded4(i), Padded4(j), x, y);
      Padded4IsInjective(i, j);
    }
  }

  /** The rebuilt archive has no duplicate names, so normalizing it again leaves it alone. */
  lemma RenamingRemovesDuplicates(names: seq<string>)
    ensures !HasDuplicates(OutNames(names))
  {
    forall i, j | 0 <= i < j < |names| ensures OutNames(names)[i] != OutNames(names)[j] {
      OutNamesDiffer(i, j, names[i], names[j], Occurrences(names[..i], names[i]), Occurrences(names[..j], names[j]));
    }
  }

  /** `seen.get(name, 0)` */
  function SeenCount(seen: map<string, nat>, name: string): nat {
    if name in seen then seen[name] else 0
  }

  ghost predicate CountsNames(seen: map<string, nat>, names: seq<string>) {
    forall name :: SeenCount(seen, name) == Occurrences(names, name)
  }

  lemma CountsOneMore(seen: map<string, nat>, names: seq<string>, i: nat)
    requires i < |names| && CountsNames(seen, names[..i])
    ensures CountsNames(seen[names[i] := SeenCount(seen, names[i]) + 1], names[..i + 1])
  {
    var seen' := seen[names[i] := SeenCount(seen, names[i]) + 1];
    assert names[..i + 1] == names[..i] + [names[i]];
    forall name ensures SeenCount(seen', name) == Occurrences(names[..i + 1], name) {
      assert Occurrences(names[..i + 1], name) == Occurrences(names[..i], name) + multiset{names[i]}[name];
      assert SeenCount(seen, name) == Occurrences(names[..i], name);
    }
  }

  /** The directory holds exactly the files listed, each with its member's body. */
  ghost predicate StoresBodies(files: map<string, string>, paths: seq<string>, members: seq<Member>) {
    && |paths| <= |members|
    && files.Keys == (set p | p in paths)
    && forall i :: 0 <= i < |paths| ==> paths[i] in files && files[paths[i]] == members[i].body
  }

  lemma StoresOneMore(files: map<string, string>, paths: seq<string>, members: seq<Member>, outName: string)
    requires StoresBodies(files, paths, members) && |paths| < |members| && outName !in paths
    ensures StoresBodies(files[outName := members[|paths|].body], paths + [outName], members)
  {
  }

  /** The first `n` output names can all be written, to the files `paths`. */
  ghost predicate Writable(outs: seq<string>, paths: seq<string>, n: nat) {
    && |paths| == n <= |outs|
    && forall i :: 0 <= i < n ==> FileOf(outs[i]) == Some(paths[i])
  }

  lemma NewFileIsFresh(names: seq<string>, i: nat, paths: seq<string>)
    requires i < |names| && Writable(OutNames(names), paths, i) && FileOf(OutNames(names)[i]).Some?
    ensures FileOf(OutNames(names)[i]).value !in paths
  {
    forall j | 0 <= j < i ensures paths[j] != FileOf(OutNames(names)[i]).value {
      FilesDiffer(i, j, names[i], names[j], Occurrences(names[..i], names[i]), Occurrences(names[..j], names[j]));
    }
  }

  datatype WriteOutcome =
    | AlreadyNormalized
    | Unwritable(index: nat)                                   // writing this member's file fails
    | Rebuilt(paths: seq<string>, files: map<string, string>)  // the files listed for the archiver

  /**
   The renaming loop: `files` is the temporary directory. It runs exactly when a name repeats, and stops at the first
   member whose file cannot be written. Otherwise every member's body is written to its own file and no later write
   replaces it, so the list handed to the archiver names the members' bodies in order.
   */
  method WriteNormalized(members: seq<Member>) returns (outcome: WriteOutcome)
    ensures outcome.AlreadyNormalized? <==> !HasDuplicates(NamesOf(members))
    ensures outcome.Unwritable? ==> outcome.index < |members| && FileOf(OutNames(NamesOf(members))[outcome.index]).None?
                                    && forall i :: 0 <= i < outcome.index ==> FileOf(OutNames(NamesOf(members))[i]).Some?
    ensures outcome.Rebuilt? ==> Writable(OutNames(NamesOf(members)), outcome.paths, |members|)
                                 && !HasDuplicates(outcome.paths) && StoresBodies(outcome.files, outcome.paths, members)
  {
    hide OutName, Occurrences, StoresBodies, CountsNames, SeenCount, HasDuplicates, FileOf;
    var names := NamesOf(members);
    if !HasDuplicates(names) {
      return AlreadyNormalized;
    }
    var seen: map<string, nat> := map[];
    var paths: seq<string>, files: map<string, string> := [], map[];
    NothingSeenOrStored(members);
    for index := 0 to |members|
      invariant Writable(OutNames(names), paths, index)
      invariant CountsNames(seen, names[..index])
      invariant !HasDuplicates(paths) && StoresBodies(files, paths, members)
    {
      var Member(name, body) := members[index];
      var duplicateIndex := SeenCount(seen, name);
      SeenIsOccurrences(seen, names, index);
      CountsOneMore(seen, names, index);
      seen := seen[name := duplicateIndex + 1];
      var outPath := FileOf(OutName(index, name, duplicateIndex));
      if outPath.None? {
        return Unwritable(index);
      }
      NewFileIsFresh(names, index, paths);
      StaysDistinct(paths, outPath.value);
      StoresOneMore(files, paths, members, outPath.value);
      files := files[outPath.value := body];
      paths := paths + [outPath.value];
    }
    outcome := Rebuilt(paths, files);
  }

  lemma StaysDistinct(paths: seq<string>, path: string)
    requires !HasDuplicates(paths) && path !in paths
    ensures !HasDuplicates(paths + [path])
  {
    var longer := paths + [path];
    forall i, j | 0 <= i < j < |longer| ensures longer[i] != longer[j] {
      assert longer[i] == paths[i] && (j < |paths| ==> longer[j] == paths[j]);
    }
  }

  lemma NothingSeenOrStored(members: seq<Member>)
    ensures CountsNames(map[], NamesOf(members)[..0]) && StoresBodies(map[], [], members) && !HasDuplicates([])
  {
  }

  lemma SeenIsOccurrences(seen: map<string, nat>, names: seq<string>, i: nat)
    requires i < |names| && CountsNames(seen, names[..i])
    ensures SeenCount(seen, names[i]) == Occurrences(names[..i], names[i])
  {
  }
}
