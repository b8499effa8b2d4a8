/**
 Reading the members of a BSD `ar` archive and giving them distinct file names.

 A byte string is a `string` with one character per byte; header text is ASCII.
 */
module ArArchive {
  import opened Wrappers

  const AR_MAGIC := "!<arch>\n"

  datatype Member = Member(name: string, body: string)

  datatype ParseResult =
    | Members(members: seq<Member>)
    | NotAnArchive
    | BadSize(offset: int)
    | BadNameLength(offset: int)
    | Loops(offset: int)   // the parser comes back to this offset and never ends

  // ---------- Python text and slices ----------

  predicate IsSpace(c: char) {
    '\t' <= c <= '\r' || '\U{1c}' <= c <= ' '
  }

  predicate IsDigit(c: char) {
    '0' <= c <= '9'
  }

  function RStrip(s: string, strips: char -> bool): string {
    if s != [] && strips(s[|s| - 1]) then RStrip(s[..|s| - 1], strips) else s
  }

  function LStripSpace(s: string): string {
    if s != [] && IsSpace(s[0]) then LStripSpace(s[1..]) else s
  }

  function Strip(s: string): string {
    LStripSpace(RStrip(s, IsSpace))
  }

  function SliceIndex(len: nat, i: int): (r: nat)
    ensures r <= len
  {
    if i < 0 then (if i + len < 0 then 0 else i + len) else if i > len then len else i
  }

  /** `data[lo:hi]` */
  function Slice(data: string, lo: int, hi: int): string {
    var a, b := SliceIndex(|data|, lo), SliceIndex(|data|, hi);
    if a <= b then data[a..b] else []
  }

  predicate StartsWith(s: string, prefix: string) {
    |prefix| <= |s| && s[..|prefix|] == prefix
  }

  /** Digits, with single underscores allowed between them. */
  function ParseDigits(s: string): Option<nat> {
    if s == [] || !IsDigit(s[|s| - 1]) then None
    else
      var n := |s|;
      var digit := (s[n - 1] - '0') as nat;
      if n == 1 then Some(digit)
      else
        match ParseDigits(if s[n - 2] == '_' then s[..n - 2] else s[..n - 1])
        case None => None
        case Some(v) => Some(10 * v + digit)
  }

  /** `int(text)` on ASCII text that has been stripped. */
  function ParseInt(text: string): Option<int> {
    if StartsWith(text, "-") then
      match ParseDigits(text[1..])
      case None => None
      case Some(v) => Some(0 - v)
    else
      match ParseDigits(if StartsWith(text, "+") then text[1..] else text)
      case None => None
      case Some(v) => Some(v)
  }

  // ---------- What Python's text functions do ----------

  /** Digits are the code points 48 to 57; underscores stand singly between them. */
  predicate IsNumeral(s: string) {
    && s != [] && 48 <= s[0] as int <= 57 && 48 <= s[|s| - 1] as int <= 57
    && (forall i :: 0 <= i < |s| ==> 48 <= s[i] as int <= 57 || s[i] == '_')
    && (forall i :: 0 < i < |s| ==> s[i - 1] != '_' || s[i] != '_')
  }

  function NumeralValue(s: string): int {
    if s == [] then 0
    else
      var last := s[|s| - 1];
      if last == '_' then NumeralValue(s[..|s| - 1]) else 10 * NumeralValue(s[..|s| - 1]) + (last as int - 48)
  }

  /** Exactly the numerals are read, each as the number its digits make. */
  lemma {:induction false} ParseDigitsReadsNumerals(s: string)
    ensures ParseDigits(s) == if IsNumeral(s) then Some(NumeralValue(s)) else None
  {
    var n := |s|;
    if n > 1 && IsDigit(s[n - 1]) {
      var rest := if s[n - 2] == '_' then s[..n - 2] else s[..n - 1];
      ParseDigitsReadsNumerals(rest);
      NumeralShrinks(s);
      if s[n - 2] == '_' {
        assert s[..n - 1][..n - 2] == s[..n - 2];
      }
    }
  }

  lemma NumeralShrinks(s: string)
    requires |s| > 1 && IsDigit(s[|s| - 1])
    ensures var rest := if s[|s| - 2] == '_' then s[..|s| - 2] else s[..|s| - 1]; IsNumeral(s) <==> IsNumeral(rest)
  {
    var n := |s|;
    var rest := if s[n - 2] == '_' then s[..n - 2] else s[..n - 1];
    assert forall i :: 0 <= i < |rest| ==> rest[i] == s[i];
  }

  lemma SignIsNoDigit(text: string)
    ensures IsNumeral(text) ==> text[0] != '+' && text[0] != '-'
  {
  }

  /** `int(..)` reads a numeral with at most one sign in front. */
  lemma ParseIntReadsSignedNumerals(text: string)
    ensures ParseInt(text)
            == if IsNumeral(text) then Some(NumeralValue(text))
               else if text != [] && text[0] == '+' && IsNumeral(text[1..]) then Some(NumeralValue(text[1..]))
               else if text != [] && text[0] == '-' && IsNumeral(text[1..]) then Some(0 - NumeralValue(text[1..]))
               else None
  {
    hide IsNumeral, NumeralValue, ParseDigits;
    ParseDigitsReadsNumerals(text);
    SignIsNoDigit(text);
    if text != [] {
      ParseDigitsReadsNumerals(text[1..]);
      assert text[..1][0] == text[0];
    }
  }

  /** The white space Python strips from ASCII text. */
  lemma BlanksAreStripped(c: char)
    ensures Strip([c]) == (if 9 <= c as int <= 13 || 28 <= c as int <= 32 then [] else [c])
  {
    var s := [c];
    assert s[..|s| - 1] == [] && s[1..] == [];
    assert RStrip(s[..|s| - 1], IsSpace) == [] && LStripSpace(s[1..]) == [];
    assert RStrip(s, IsSpace) == if IsSpace(c) then [] else s;
  }

  /** Slice bounds count from the end when negative, and are cut to the data. */
  lemma SlicesCountFromBothEnds(data: string, lo: int, hi: int)
    ensures lo < 0 ==> Slice(data, lo, hi) == if lo + |data| < 0 then Slice(data, 0, hi) else Slice(data, lo + |data|, hi)
    ensures hi < 0 ==> Slice(data, lo, hi) == if hi + |data| < 0 then Slice(data, lo, 0) else Slice(data, lo, hi + |data|)
    ensures hi > |data| ==> Slice(data, lo, hi) == Slice(data, lo, |data|)
    ensures 0 <= lo <= hi <= |data| ==> Slice(data, lo, hi) == data[lo..hi]
    ensures 0 <= hi < lo ==> Slice(data, lo, hi) == []
  {
  }

  // ---------- The parser ----------

  datatype HeaderResult =
    | Truncated
    | InvalidSize
    | InvalidNameLength
    | Found(member: Member, next: int)

  function RoundUpToEven(n: int): int {
    if n % 2 != 0 then n + 1 else n
  }

  function SizeOf(header: string): Option<int>
    requires |header| == 60
  {
    ParseInt(Strip(header[48..58]))
  }

  /** The member whose content starts at `content`: its name is in the header, or in front of its body. */
  function NameAndBody(data: string, content: int, nameField: string, size: int): Option<Member> {
    if StartsWith(nameField, "#1/") then
      match ParseInt(Strip(nameField[3..]))
      case None => None
      case Some(nameLen) =>
        var name := RStrip(Slice(data, content, content + nameLen), c => c == '\0');
        Some(Member(name, Slice(data, content + nameLen, content + size)))
    else
      var name := RStrip(RStrip(nameField, IsSpace), c => c == '/');
      Some(Member(name, Slice(data, content, content + size)))
  }

  /** The 60 bytes at an offset, fewer at the end. Negative offsets count from the end, as Python's slices do. */
  function HeaderAt(data: string, offset: int): string {
    Slice(data, offset, offset + 60)
  }

  /** One turn of the loop: the member whose header starts at `offset`, and the offset after it. */
  function ReadMember(data: string, offset: int): HeaderResult {
    var header := HeaderAt(data, offset);
    if |header| < 60 then Truncated
    else
      match SizeOf(header)
      case None => InvalidSize
      case Some(size) =>
        match NameAndBody(data, offset + 60, header[..16], size)
        case None => InvalidNameLength
        case Some(m) => Found(m, RoundUpToEven(offset + 60 + size))
  }

  predicate IsIndex(name: string) {
    StartsWith(name, "__.SYMDEF")
  }

  function Kept(m: Member): seq<Member> {
    if IsIndex(m.name) then [] else [m]
  }

  /** The offsets from `lo` up to `hi`. */
  function Interval(lo: int, hi: int): (offsets: set<int>)
    ensures forall o :: o in offsets <==> lo <= o < hi
    decreases hi - lo
  {
    if lo >= hi then {} else {lo} + Interval(lo + 1, hi)
  }

  /** Only offsets in the data, counted from either end, have a whole header. */
  lemma HeaderIsInRange(data: string, offset: int)
    requires |HeaderAt(data, offset)| >= 60
    ensures |HeaderAt(data, offset)| == 60 && offset in Interval(-|data|, |data|)
    ensures offset >= 0 ==> offset + 60 <= |data| && HeaderAt(data, offset) == data[offset..offset + 60]
  {
  }

  /** `visited` are the offsets of the members read so far; coming back to one of them, the loop cannot end. */
  function ParseFrom(data: string, offset: int, members: seq<Member>, visited: set<int>): ParseResult
    decreases Interval(-|data|, |data|) - visited
  {
    if offset >= |data| then Members(members)
    else if offset in visited then Loops(offset)
    else
      match ReadMember(data, offset)
      case Truncated => Members(members)
      case InvalidSize => BadSize(offset)
      case InvalidNameLength => BadNameLength(offset)
      case Found(m, next) =>
        HeaderIsInRange(data, offset);
        ParseFrom(data, next, members + Kept(m), visited + {offset})
  }

  function Parse(data: string): ParseResult {
    if StartsWith(data, AR_MAGIC) then ParseFrom(data, |AR_MAGIC|, [], {}) else NotAnArchive
  }

  /** Offsets stay even; a member moves the parser forward exactly when its size exceeds -60. */
  lemma OffsetsAdvance(data: string, offset: int)
    requires offset % 2 == 0 && ReadMember(data, offset).Found?
    ensures var next := ReadMember(data, offset).next;
            var size := SizeOf(HeaderAt(data, offset));
            && next % 2 == 0
            && size.Some? && (size.value >= 0 ==> next >= offset + 60) && (next > offset <==> size.value > -60)
  {
    HeaderIsInRange(data, offset);
    RoundingUp(offset + 60 + SizeOf(HeaderAt(data, offset)).value);
  }

  lemma RoundingUp(n: int)
    ensures RoundUpToEven(n) % 2 == 0 && n <= RoundUpToEven(n) <= n + 1
  {
  }

  method ParseMembers(data: string) returns (result: ParseResult)
    ensures result == Parse(data)
  {
    if !StartsWith(data, AR_MAGIC) {
      return NotAnArchive;
    }
    var members: seq<Member> := [];
    var offset: int := |AR_MAGIC|;
    var visited: set<int> := {};
    while offset < |data|
      invariant Parse(data) == ParseFrom(data, offset, members, visited)
      decreases Interval(-|data|, |data|) - visited
    {
      if offset in visited {
        return Loops(offset);
      }
      match ReadMember(data, offset) {
        case Truncated => break;
        case InvalidSize => return BadSize(offset);
        case InvalidNameLength => return BadNameLength(offset);
        case Found(m, next) =>
          HeaderIsInRange(data, offset);
          if !IsIndex(m.name) {
            members := members + [m];
          }
          assert members + [] == members;
          visited := visited + {offset};
          offset := next;
      }
    }
    return Members(members);
  }

  // ---------- Errors and endless parses ----------

  function Next(data: string, offset: int): Option<int> {
    if offset < |data| && ReadMember(data, offset).Found? then Some(ReadMember(data, offset).next) else None
  }

  /** Where the parser stands after `n` members, if it gets that far. */
  function After(data: string, offset: int, n: nat): Option<int>
    decreases n
  {
    if n == 0 then Some(offset)
    else
      match Next(data, offset)
      case None => None
      case Some(next) => After(data, next, n - 1)
  }

  /** However many members are read, there is another one to read. */
  ghost predicate IsEndless(data: string, offset: int) {
    forall n: nat :: After(data, offset, n).Some?
  }

  lemma {:induction false} AfterAdds(data: string, offset: int, m: nat, n: nat)
    requires After(data, offset, m).Some?
    ensures After(data, offset, m + n) == After(data, After(data, offset, m).value, n)
    decreases m
  {
    hide Next;
    if m > 0 {
      AfterAdds(data, Next(data, offset).value, m - 1, n);
    }
  }

  lemma {:induction false} CycleIsEndless(data: string, offset: int, n: nat, k: nat)
    requires n > 0 && After(data, offset, n) == Some(offset)
    ensures After(data, offset, k).Some?
    decreases k
  {
    hide Next;
    if k >= n {
      AfterAdds(data, offset, n, k - n);
      CycleIsEndless(data, offset, n, k - n);
    } else {
      AfterIsDefinedBefore(data, offset, n, k);
    }
  }

  lemma {:induction false} AfterIsDefinedBefore(data: string, offset: int, n: nat, k: nat)
    requires k <= n && After(data, offset, n).Some?
    ensures After(data, offset, k).Some?
    decreases k
  {
    hide Next;
    if k > 0 {
      AfterIsDefinedBefore(data, Next(data, offset).value, n - 1, k - 1);
    }
  }

  /** Every visited offset has led here. */
  ghost predicate LedHere(data: string, visited: set<int>, offset: int) {
    forall v :: v in visited ==> exists n: nat :: n > 0 && After(data, v, n) == Some(offset)
  }

  lemma LeadsOn(data: string, visited: set<int>, offset: int)
    requires LedHere(data, visited, offset) && Next(data, offset).Some?
    ensures LedHere(data, visited + {offset}, Next(data, offset).value)
  {
    var next := Next(data, offset).value;
    forall v | v in visited + {offset} ensures exists n: nat :: n > 0 && After(data, v, n) == Some(next) {
      assert After(data, offset, 1) == After(data, next, 0) == Some(next);
      if v in visited {
        var n: nat :| n > 0 && After(data, v, n) == Some(offset);
        AfterAdds(data, v, n, 1);
      }
    }
  }

  lemma EndlessFromNext(data: string, offset: int)
    ensures IsEndless(data, offset) <==> Next(data, offset).Some? && IsEndless(data, Next(data, offset).value)
  {
    hide Next;
    if IsEndless(data, offset) {
      assert After(data, offset, 1).Some?;
      forall n: nat ensures After(data, Next(data, offset).value, n).Some? {
        assert After(data, offset, n + 1).Some?;
      }
    } else if Next(data, offset).Some? {
      var n: nat :| After(data, offset, n).None?;
      assert After(data, Next(data, offset).value, n - 1).None?;
    }
  }

  lemma {:induction false} LoopsFromHere(data: string, offset: int, members: seq<Member>, visited: set<int>)
    requires LedHere(data, visited, offset)
    ensures ParseFrom(data, offset, members, visited).Loops? <==> IsEndless(data, offset)
    decreases Interval(-|data|, |data|) - visited
  {
    hide LedHere, IsEndless, ReadMember, After;
    EndlessFromNext(data, offset);
    if offset < |data| {
      if offset in visited {
        VisitedAgain(data, offset, visited);
      } else if ReadMember(data, offset).Found? {
        FoundIsInRange(data, offset);
        LeadsOn(data, visited, offset);
        var m := ReadMember(data, offset).member;
        LoopsFromHere(data, ReadMember(data, offset).next, members + Kept(m), visited + {offset});
      }
    }
  }

  lemma FoundIsInRange(data: string, offset: int)
    requires ReadMember(data, offset).Found?
    ensures offset in Interval(-|data|, |data|)
  {
    HeaderIsInRange(data, offset);
  }

  lemma VisitedAgain(data: string, offset: int, visited: set<int>)
    requires LedHere(data, visited, offset) && offset in visited
    ensures IsEndless(data, offset)
  {
    var n: nat :| n > 0 && After(data, offset, n) == Some(offset);
    forall k: nat ensures After(data, offset, k).Some? {
      CycleIsEndless(data, offset, n, k);
    }
  }

  /** The model says that the parser loops exactly when it would go on reading members for ever. */
  lemma LoopsIffEndless(data: string)
    requires StartsWith(data, AR_MAGIC)
    ensures Parse(data).Loops? <==> IsEndless(data, |AR_MAGIC|)
  {
    LoopsFromHere(data, |AR_MAGIC|, [], {});
  }

  /** The first `n` members the parser reads, symbol indexes included. */
  function MembersRead(data: string, offset: int, n: nat): seq<Member>
    decreases n
  {
    if n == 0 || Next(data, offset).None? then []
    else [ReadMember(data, offset).member] + MembersRead(data, Next(data, offset).value, n - 1)
  }

  lemma {:induction false} OneMoreRead(data: string, offset: int, n: nat)
    requires After(data, offset, n).Some? && Next(data, After(data, offset, n).value).Some?
    ensures MembersRead(data, offset, n + 1)
            == MembersRead(data, offset, n) + [ReadMember(data, After(data, offset, n).value).member]
    decreases n
  {
    hide ReadMember;
    if n > 0 {
      OneMoreRead(data, Next(data, offset).value, n - 1);
    }
  }

  lemma {:induction false} OneMoreKept(members: seq<Member>, m: Member)
    ensures WithoutIndexes(members + [m]) == WithoutIndexes(members) + Kept(m)
  {
    hide Kept;
    if members == [] {
      assert [] + [m] == [m] && Kept(m) + [] == Kept(m);
    } else {
      assert (members + [m])[1..] == members[1..] + [m];
      OneMoreKept(members[1..], m);
    }
  }

  /** After `n` members the parser stands at `o`. */
  predicate Reaches(data: string, n: nat, o: int) {
    After(data, |AR_MAGIC|, n) == Some(o)
  }

  /** Why a parse ended as it did: where it stood, and what it had read. */
  ghost predicate Explains(data: string, result: ParseResult) {
    match result
    case Members(members) =>
      StartsWith(data, "!<arch>\n") && exists n: nat, o: int :: Reaches(data, n, o) && EndsAt(data, n, o, members)
    case NotAnArchive => !StartsWith(data, "!<arch>\n")
    case BadSize(o) => (exists n: nat :: Reaches(data, n, o)) && HasBadSize(data, o)
    case BadNameLength(o) => (exists n: nat :: Reaches(data, n, o)) && HasBadNameLength(data, o)
    case Loops(o) => exists m: nat, n: nat :: n > 0 && Reaches(data, m, o) && After(data, o, n) == Some(o)
  }

  /** No whole header is left at `o`, and `members` are those read before that are no symbol indexes. */
  ghost predicate EndsAt(data: string, n: nat, o: int, members: seq<Member>) {
    (o >= |data| || |HeaderAt(data, o)| < 60) && members == WithoutIndexes(MembersRead(data, |AR_MAGIC|, n))
  }

  ghost predicate HasBadSize(data: string, o: int) {
    o % 2 == 0 && |HeaderAt(data, o)| == 60 && ParseInt(Strip(HeaderAt(data, o)[48..58])) == None
  }

  ghost predicate HasBadNameLength(data: string, o: int) {
    && o % 2 == 0 && |HeaderAt(data, o)| == 60 && ParseInt(Strip(HeaderAt(data, o)[48..58])) != None
    && StartsWith(HeaderAt(data, o), "#1/") && ParseInt(Strip(HeaderAt(data, o)[3..16])) == None
  }

  lemma ErrorExplained(data: string, offset: int)
    requires offset % 2 == 0
    ensures ReadMember(data, offset) == Truncated <==> |HeaderAt(data, offset)| < 60
    ensures ReadMember(data, offset) == InvalidSize <==> HasBadSize(data, offset)
    ensures ReadMember(data, offset) == InvalidNameLength <==> HasBadNameLength(data, offset)
  {
    var header := HeaderAt(data, offset);
    if |header| >= 60 {
      HeaderIsInRange(data, offset);
      assert header[..16][3..] == header[3..16] && header[..16][..3] == header[..3];
    }
  }

  lemma LoopExplained(data: string, offset: int, visited: set<int>, m: nat)
    requires LedHere(data, visited, offset) && offset in visited && Reaches(data, m, offset)
    ensures Explains(data, Loops(offset))
  {
  }

  lemma {:induction false} EndExplained(data: string, offset: int, members: seq<Member>, visited: set<int>, m: nat)
    requires offset % 2 == 0 && StartsWith(data, "!<arch>\n")
    requires LedHere(data, visited, offset) && Reaches(data, m, offset)
    requires members == WithoutIndexes(MembersRead(data, |AR_MAGIC|, m))
    ensures Explains(data, ParseFrom(data, offset, members, visited))
    decreases Interval(-|data|, |data|) - visited
  {
    hide ReadMember, StartsWith, LedHere, HeaderAt, WithoutIndexes, MembersRead, Kept, HasBadSize, HasBadNameLength, After;
    ErrorExplained(data, offset);
    if offset >= |data| {
      assert EndsAt(data, m, offset, members);
    } else if offset in visited {
      LoopExplained(data, offset, visited, m);
    } else {
      match ReadMember(data, offset)
      case Found(member, next) =>
        OffsetsAdvance(data, offset);
        FoundIsInRange(data, offset);
        LeadsOn(data, visited, offset);
        StandsNext(data, offset, m);
        OneMoreRead(data, |AR_MAGIC|, m);
        OneMoreKept(MembersRead(data, |AR_MAGIC|, m), member);
        EndExplained(data, next, members + Kept(member), visited + {offset}, m + 1);
      case Truncated =>
        assert EndsAt(data, m, offset, members);
      case _ =>
    }
  }

  lemma StandsNext(data: string, offset: int, m: nat)
    requires Reaches(data, m, offset) && Next(data, offset).Some?
    ensures Reaches(data, m + 1, Next(data, offset).value)
  {
    hide Next;
    AfterAdds(data, |AR_MAGIC|, m, 1);
    assert After(data, offset, 1) == After(data, Next(data, offset).value, 0);
  }

  /**
   Every outcome is reported only when it is the case where the parser has got to: no magic, a size or a name length that
   is no number, an offset that comes up again, or the end of the headers, with exactly the members read until then.
   */
  lemma ParseEndsForItsReason(data: string)
    ensures Explains(data, Parse(data))
  {
    if StartsWith(data, AR_MAGIC) {
      assert After(data, |AR_MAGIC|, 0) == Some(|AR_MAGIC|);
      EndExplained(data, |AR_MAGIC|, [], {}, 0);
    }
  }

  /** Every member that the parser gets to moves it forward. */
  ghost predicate ForwardOnly(data: string) {
    forall n: nat :: MovesForwardAfter(data, n)
  }

  ghost predicate MovesForwardAfter(data: string, n: nat) {
    var o := After(data, |AR_MAGIC|, n);
    o.Some? && Next(data, o.value).Some? ==> Next(data, o.value).value > o.value
  }

  lemma {:induction false} ForwardAfter(data: string, m: nat, n: nat)
    requires ForwardOnly(data) && After(data, |AR_MAGIC|, m).Some?
    requires After(data, After(data, |AR_MAGIC|, m).value, n).Some?
    ensures var o := After(data, |AR_MAGIC|, m).value; After(data, o, n).value >= o + n
    decreases n
  {
    hide Next;
    if n > 0 {
      var o := After(data, |AR_MAGIC|, m).value;
      assert MovesForwardAfter(data, m);
      AfterAdds(data, |AR_MAGIC|, m, 1);
      assert After(data, o, 1) == After(data, Next(data, o).value, 0);
      ForwardAfter(data, m + 1, n - 1);
    }
  }

  lemma StripKeepsOut(s: string, c: char)
    requires c !in s
    ensures c !in Strip(s)
  {
    RStripKeepsOut(s, c);
    LStripKeepsOut(RStrip(s, IsSpace), c);
  }

  lemma {:induction false} RStripKeepsOut(s: string, c: char)
    requires c !in s
    ensures c !in RStrip(s, IsSpace)
  {
    if s != [] && IsSpace(s[|s| - 1]) {
      RStripKeepsOut(s[..|s| - 1], c);
    }
  }

  lemma {:induction false} LStripKeepsOut(s: string, c: char)
    requires c !in s
    ensures c !in LStripSpace(s)
  {
    if s != [] && IsSpace(s[0]) {
      LStripKeepsOut(s[1..], c);
    }
  }

  lemma UnsignedIsNotNegative(text: string)
    requires '-' !in text && ParseInt(text).Some?
    ensures ParseInt(text).value >= 0
  {
    assert text != [] ==> text[0] in text && text[..1][0] == text[0];
  }

  lemma NoMinusMovesForward(data: string, offset: int)
    requires '-' !in data && ReadMember(data, offset).Found?
    ensures ReadMember(data, offset).next > offset
  {
    hide NameAndBody, ParseInt, Strip;
    HeaderIsInRange(data, offset);
    var sizeField := HeaderAt(data, offset)[48..58];
    StripKeepsOut(sizeField, '-');
    UnsignedIsNotNegative(Strip(sizeField));
    RoundingUp(offset + 60 + SizeOf(HeaderAt(data, offset)).value);
  }

  /** An archive without a minus sign is parsed to an end; so is one in which every member reached moves the parser on. */
  lemma ParserEnds(data: string)
    requires '-' !in data || ForwardOnly(data)
    ensures !Parse(data).Loops?
  {
    hide ReadMember, ForwardOnly, Parse;
    if '-' !in data {
      NoMinusIsForwardOnly(data);
    }
    ParseEndsForItsReason(data);
    if Parse(data).Loops? {
      var o := Parse(data).offset;
      var m: nat, n: nat :| n > 0 && After(data, |AR_MAGIC|, m) == Some(o) && After(data, o, n) == Some(o);
      ForwardAfter(data, m, n);
    }
  }

  lemma NoMinusIsForwardOnly(data: string)
    requires '-' !in data
    ensures ForwardOnly(data)
  {
    hide ReadMember, After;
    forall n: nat ensures MovesForwardAfter(data, n) {
      var o := After(data, |AR_MAGIC|, n);
      if o.Some? && Next(data, o.value).Some? {
        NoMinusMovesForward(data, o.value);
      }
    }
  }

  // ---------- Well-formed archives ----------

  function Digit(d: nat): char
    requires d < 10
  {
    '0' + d as char
  }

  function Decimal(n: nat): (s: string)
    ensures s != [] && forall i :: 0 <= i < |s| ==> IsDigit(s[i])
    ensures s[0] == '0' ==> n == 0 && |s| == 1
  {
    if n < 10 then [Digit(n)] else Decimal(n / 10) + [Digit(n % 10)]
  }

  lemma {:induction false} ParseDecimal(n: nat)
    ensures ParseDigits(Decimal(n)) == Some(n)
  {
    if n >= 10 {
      ParseDecimal(n / 10);
      var s := Decimal(n);
      assert s[..|s| - 1] == Decimal(n / 10);
    }
  }

  /** A sign in front of the digits is read as one. */
  lemma ParseSigned(n: nat)
    ensures ParseInt("-" + Decimal(n)) == Some(-(n as int)) && ParseInt("+" + Decimal(n)) == Some(n)
    ensures ParseInt(Decimal(n)) == Some(n)
  {
    var digits := Decimal(n);
    ParseDecimal(n);
    assert ("-" + digits)[1..] == digits && ("+" + digits)[1..] == digits;
    assert IsDigit(digits[0]);
  }

  function Spaces(n: nat): (s: string)
    ensures |s| == n && forall i :: 0 <= i < n ==> s[i] == ' '
  {
    seq(n, i => ' ')
  }

  /** Text padded with blanks to a field of fixed width. */
  function Field(text: string, width: nat): (s: string)
    requires |text| <= width
    ensures |s| == width
  {
    text + Spaces(width - |text|)
  }

  /**
   One member of an archive image. A short name may carry closing slashes; a long name follows the header,
   padded with NULs. Header bytes outside the name and size fields, and the padding byte, are arbitrary.
   */
  datatype Entry =
    | Short(header: string, name: string, slashes: nat, body: string, pad: char)
    | Long(header: string, name: string, nuls: nat, body: string, pad: char)
  {
    /** What the header says about the name. */
    function NameText(): string {
      match this
      case Short(_, _, _, _, _) => name + seq(slashes, i => '/')
      case Long(_, _, _, _, _) => "#1/" + Decimal(|RawName()|)
    }

    /** The name as stored after the header. */
    function RawName(): string {
      match this
      case Short(_, _, _, _, _) => []
      case Long(_, _, _, _, _) => name + seq(nuls, i => '\0')
    }

    function Size(): nat {
      |RawName()| + |body|
    }

    predicate NameReadsBack() {
      match this
      case Short(_, _, _, _, _) =>
        && !StartsWith(NameText(), "#1/")
        && (name == [] || (name[|name| - 1] != '/' && (slashes > 0 || !IsSpace(name[|name| - 1]))))
      case Long(_, _, _, _, _) => name == [] || name[|name| - 1] != '\0'
    }

    predicate WellFormed() {
      && |header| == 60 && |NameText()| <= 16 && |Decimal(Size())| <= 10
      && header[..16] == Field(NameText(), 16)
      && header[48..58] == Field(Decimal(Size()), 10)
      && NameReadsBack()
    }

    function Padding(): string {
      if Size() % 2 == 1 then [pad] else []
    }

    function Image(): string {
      header + RawName() + body + Padding()
    }
  }

  function Images(entries: seq<Entry>): (images: seq<string>)
    ensures |images| == |entries|
    ensures forall i :: 0 <= i < |entries| ==> images[i] == entries[i].Image()
  {
    seq(|entries|, i requires 0 <= i < |entries| => entries[i].Image())
  }

  function MembersOf(entries: seq<Entry>): (members: seq<Member>)
    ensures |members| == |entries|
    ensures forall i :: 0 <= i < |entries| ==> members[i] == Member(entries[i].name, entries[i].body)
  {
    seq(|entries|, i requires 0 <= i < |entries| => Member(entries[i].name, entries[i].body))
  }

  function Concat(images: seq<string>): string {
    if images == [] then [] else images[0] + Concat(images[1..])
  }

  /** The members that are not symbol indexes, in order. */
  function WithoutIndexes(members: seq<Member>): seq<Member> {
    if members == [] then [] else Kept(members[0]) + WithoutIndexes(members[1..])
  }

  lemma {:induction false} RStripStops(text: string, n: nat, strips: char -> bool, filler: char)
    requires strips(filler) && (text == [] || !strips(text[|text| - 1]))
    ensures RStrip(text + seq(n, i => filler), strips) == text
  {
    var s := text + seq(n, i => filler);
    if n > 0 {
      assert s[..|s| - 1] == text + seq(n - 1, i => filler);
      RStripStops(text, n - 1, strips, filler);
    } else {
      assert s == text;
    }
  }

  lemma StripField(text: string, width: nat)
    requires |text| <= width && (text == [] || (!IsSpace(text[0]) && !IsSpace(text[|text| - 1])))
    ensures RStrip(Field(text, width), IsSpace) == text
    ensures Strip(Field(text, width)) == text
  {
    RStripStops(text, width - |text|, IsSpace, ' ');
  }

  lemma ParseField(n: nat, width: nat)
    requires |Decimal(n)| <= width
    ensures ParseInt(Strip(Field(Decimal(n), width))) == Some(n)
  {
    var s := Decimal(n);
    assert IsDigit(s[0]) && IsDigit(s[|s| - 1]);
    StripField(s, width);
    ParseDecimal(n);
  }

  /** `piece` stands in `data` at `offset`. */
  ghost predicate At(data: string, offset: nat, piece: string) {
    offset + |piece| <= |data| && data[offset..offset + |piece|] == piece
  }

  lemma SliceAt(data: string, offset: nat, piece: string)
    requires At(data, offset, piece)
    ensures Slice(data, offset, offset + |piece|) == piece
  {
  }

  lemma PiecesAt(data: string, offset: nat, first: string, second: string)
    requires At(data, offset, first + second)
    ensures At(data, offset, first) && At(data, offset + |first|, second)
  {
    var both := data[offset..offset + |first + second|];
    assert both[..|first|] == first && both[|first|..] == second;
  }

  lemma ReadShortName(name: string, slashes: nat, text: string)
    requires text == name + seq(slashes, i => '/') && |text| <= 16 && !StartsWith(text, "#1/")
    requires name == [] || (name[|name| - 1] != '/' && (slashes > 0 || !IsSpace(name[|name| - 1])))
    ensures RStrip(RStrip(Field(text, 16), IsSpace), c => c == '/') == name
  {
    assert text == [] || !IsSpace(text[|text| - 1]);
    RStripStops(text, 16 - |text|, IsSpace, ' ');
    RStripStops(name, slashes, c => c == '/', '/');
  }

  lemma PaddingStartsNoLongName(text: string, width: nat)
    requires |text| <= width && !StartsWith(text, "#1/")
    ensures !StartsWith(Field(text, width), "#1/")
  {
    var padded := Field(text, width);
    if |text| < 3 <= width {
      assert padded[..3][2] == ' ';
    } else if 3 <= |text| {
      assert padded[..3] == text[..3];
    }
  }

  lemma ReadLongName(length: nat, field: string)
    requires |Decimal(length)| <= 13 && field == Field("#1/" + Decimal(length), 16)
    ensures StartsWith(field, "#1/") && ParseInt(Strip(field[3..])) == Some(length)
  {
    assert field[3..] == Field(Decimal(length), 13);
    ParseField(length, 13);
  }

  lemma FourPiecesAt(data: string, offset: nat, a: string, b: string, c: string, d: string)
    requires At(data, offset, a + b + c + d)
    ensures At(data, offset, a) && At(data, offset + |a|, b) && At(data, offset + |a| + |b|, c)
  {
    hide At;
    PiecesAt(data, offset, a + b + c, d);
    PiecesAt(data, offset, a + b, c);
    PiecesAt(data, offset, a, b);
  }

  lemma ImagePiecesAt(data: string, offset: nat, e: Entry)
    requires At(data, offset, e.Image())
    ensures At(data, offset, e.header)
    ensures At(data, offset + |e.header|, e.RawName())
    ensures At(data, offset + |e.header| + |e.RawName()|, e.body)
  {
    hide At, Entry.RawName, Entry.Padding;
    FourPiecesAt(data, offset, e.header, e.RawName(), e.body, e.Padding());
  }

  lemma ShortNameAndBody(data: string, content: nat, e: Entry)
    requires e.WellFormed() && e.Short? && At(data, content, e.body)
    ensures NameAndBody(data, content, e.header[..16], e.Size()) == Some(Member(e.name, e.body))
  {
    SliceAt(data, content, e.body);
    ReadShortName(e.name, e.slashes, e.NameText());
    PaddingStartsNoLongName(e.NameText(), 16);
  }

  lemma LongNameAndBody(data: string, content: nat, field: string, raw: string, body: string, name: string)
    requires StartsWith(field, "#1/") && ParseInt(Strip(field[3..])) == Some(|raw|)
    requires RStrip(raw, c => c == '\0') == name
    requires Slice(data, content, content + |raw|) == raw
    requires Slice(data, content + |raw|, content + |raw| + |body|) == body
    ensures NameAndBody(data, content, field, |raw| + |body|) == Some(Member(name, body))
  {
    hide RStrip, Slice, ParseInt, Strip, StartsWith;
    assert content + (|raw| + |body|) == content + |raw| + |body|;
  }

  lemma LongEntryNameAndBody(data: string, content: nat, e: Entry)
    requires e.WellFormed() && e.Long?
    requires At(data, content, e.RawName()) && At(data, content + |e.RawName()|, e.body)
    ensures NameAndBody(data, content, e.header[..16], e.Size()) == Some(Member(e.name, e.body))
  {
    hide NameAndBody, At, StartsWith, ParseInt, Strip, RStrip, Decimal, Slice, Field;
    var raw := e.RawName();
    SliceAt(data, content, raw);
    SliceAt(data, content + |raw|, e.body);
    ReadLongName(|raw|, e.header[..16]);
    RStripStops(e.name, e.nuls, c => c == '\0', '\0');
    LongNameAndBody(data, content, e.header[..16], raw, e.body, e.name);
  }

  lemma EntryNameAndBody(data: string, offset: nat, e: Entry)
    requires e.WellFormed() && At(data, offset, e.Image())
    ensures NameAndBody(data, offset + 60, e.header[..16], e.Size()) == Some(Member(e.name, e.body))
  {
    hide NameAndBody, At, Entry.Image, Entry.NameText, Entry.NameReadsBack;
    ImagePiecesAt(data, offset, e);
    if e.Short? {
      NothingBeforeShortBody(data, offset + 60, e);
      ShortNameAndBody(data, offset + 60, e);
    } else {
      LongEntryNameAndBody(data, offset + 60, e);
    }
  }

  lemma NothingBeforeShortBody(data: string, content: nat, e: Entry)
    requires e.Short? && At(data, content + |e.RawName()|, e.body)
    ensures At(data, content, e.body)
  {
  }

  lemma ReadHeader(data: string, offset: nat, header: string, size: nat, m: Member)
    requires At(data, offset, header) && |header| == 60 && SizeOf(header) == Some(size)
    requires NameAndBody(data, offset + 60, header[..16], size) == Some(m)
    ensures ReadMember(data, offset) == Found(m, RoundUpToEven(offset + 60 + size))
  {
    hide NameAndBody, SizeOf;
    SliceAt(data, offset, header);
    assert HeaderAt(data, offset) == header;
  }

  lemma HeaderGivesSize(e: Entry)
    requires e.WellFormed()
    ensures SizeOf(e.header) == Some(e.Size())
  {
    ParseField(e.Size(), 10);
  }

  lemma ImageLength(e: Entry, offset: nat)
    requires |e.header| == 60 && offset % 2 == 0
    ensures RoundUpToEven(offset + 60 + e.Size()) == offset + |e.Image()| && |e.Image()| % 2 == 0 && |e.Image()| >= 60
  {
  }

  /** The parser reads back the member an image was made of, wherever the image stands. */
  lemma ReadImage(data: string, offset: nat, e: Entry)
    requires e.WellFormed() && offset % 2 == 0 && At(data, offset, e.Image())
    ensures ReadMember(data, offset) == Found(Member(e.name, e.body), offset + |e.Image()|)
  {
    hide NameAndBody, SizeOf, ReadMember, At, Entry.Image, Entry.RawName, Entry.Padding, Entry.NameText, Entry.NameReadsBack;
    EntryNameAndBody(data, offset, e);
    ImagePiecesAt(data, offset, e);
    HeaderGivesSize(e);
    ReadHeader(data, offset, e.header, e.Size(), Member(e.name, e.body));
    ImageLength(e, offset);
  }

  lemma ConcatOfCons(first: string, rest: seq<string>)
    ensures Concat([first] + rest) == first + Concat(rest)
  {
    assert ([first] + rest)[1..] == rest;
  }

  lemma {:induction false} ConcatSplits(images: seq<string>, i: nat)
    requires i < |images|
    ensures Concat(images) == Concat(images[..i]) + images[i] + Concat(images[i + 1..])
    ensures Concat(images[..i + 1]) == Concat(images[..i]) + images[i]
  {
    var first, rest := images[0], images[1..];
    assert images == [first] + rest;
    ConcatOfCons(first, rest);
    if i == 0 {
      assert images[..1] == [first] + [];
      ConcatOfCons(first, []);
      assert Concat(images[..0]) == [];
    } else {
      hide Concat;
      ConcatSplits(rest, i - 1);
      assert images[..i] == [first] + rest[..i - 1] && images[..i + 1] == [first] + rest[..i];
      assert images[i + 1..] == rest[i..];
      ConcatOfCons(first, rest[..i - 1]);
      ConcatOfCons(first, rest[..i]);
    }
  }

  /** Where the parser stands before it reads member `i`. */
  function OffsetOf(entries: seq<Entry>, i: nat): nat
    requires i <= |entries|
  {
    |AR_MAGIC + Concat(Images(entries)[..i])|
  }

  lemma {:induction false} ConcatIsEven(images: seq<string>)
    requires forall i :: 0 <= i < |images| ==> |images[i]| % 2 == 0
    ensures |Concat(images)| % 2 == 0
  {
    if images != [] {
      ConcatIsEven(images[1..]);
    }
  }

  lemma OffsetsAreEven(entries: seq<Entry>, i: nat)
    requires i <= |entries| && forall j :: 0 <= j < |entries| ==> entries[j].WellFormed()
    ensures OffsetOf(entries, i) % 2 == 0
  {
    hide Entry.Image, Entry.RawName, Entry.Padding, Entry.NameText, Entry.NameReadsBack, Concat;
    var images := Images(entries)[..i];
    forall j | 0 <= j < |images| ensures |images[j]| % 2 == 0 {
      ImageLength(entries[j], 0);
    }
    ConcatIsEven(images);
  }

  /** The `i`-th image stands at the `i`-th offset, and the next offset is where it ends. */
  lemma NthImage(entries: seq<Entry>, tail: string, i: nat)
    requires i < |entries|
    ensures At(AR_MAGIC + Concat(Images(entries)) + tail, OffsetOf(entries, i), entries[i].Image())
    ensures OffsetOf(entries, i + 1) == OffsetOf(entries, i) + |entries[i].Image()|
  {
    var images := Images(entries);
    var before, after := Concat(images[..i]), Concat(images[i + 1..]);
    ConcatSplits(images, i);
    MiddleAt(AR_MAGIC, before, images[i], after, tail);
  }

  lemma MiddleAt(magic: string, before: string, middle: string, after: string, tail: string)
    ensures At(magic + (before + middle + after) + tail, |magic + before|, middle)
  {
  }

  /** Reading at the `i`-th offset yields the `i`-th member and moves to the next offset. */
  ghost predicate StepsAt(data: string, offsets: seq<nat>, ms: seq<Member>, i: nat)
    requires i < |ms| && |offsets| == |ms| + 1
  {
    offsets[i] < offsets[i + 1] <= |data| && ReadMember(data, offsets[i]) == Found(ms[i], offsets[i + 1])
  }

  lemma ParseStep(data: string, offset: nat, next: nat, m: Member, members: seq<Member>, visited: set<int>)
    requires offset < next <= |data| && ReadMember(data, offset) == Found(m, next) && offset !in visited
    ensures ParseFrom(data, offset, members, visited) == ParseFrom(data, next, members + Kept(m), visited + {offset})
  {
  }

  lemma {:induction false} ParseSteps(data: string, offsets: seq<nat>, ms: seq<Member>, i: nat, members: seq<Member>,
                                      visited: set<int>)
    returns (visited': set<int>)
    requires |offsets| == |ms| + 1 && i <= |ms|
    requires forall j :: i <= j < |ms| ==> StepsAt(data, offsets, ms, j)
    requires forall v :: v in visited ==> v < offsets[i]
    ensures ParseFrom(data, offsets[i], members, visited)
            == ParseFrom(data, offsets[|ms|], members + WithoutIndexes(ms[i..]), visited')
    ensures forall v :: v in visited' ==> v < offsets[|ms|]
    decreases |ms| - i
  {
    hide ReadMember, Kept, ParseFrom;
    if i == |ms| {
      assert members + WithoutIndexes(ms[i..]) == members;
      visited' := visited;
    } else {
      assert StepsAt(data, offsets, ms, i);
      ParseStep(data, offsets[i], offsets[i + 1], ms[i], members, visited);
      visited' := ParseSteps(data, offsets, ms, i + 1, members + Kept(ms[i]), visited + {offsets[i]});
      assert ms[i..][1..] == ms[i + 1..];
      assert members + (Kept(ms[i]) + WithoutIndexes(ms[i + 1..])) == members + Kept(ms[i]) + WithoutIndexes(ms[i + 1..]);
    }
  }

  function Offsets(entries: seq<Entry>): (offsets: seq<nat>)
    ensures |offsets| == |entries| + 1
    ensures forall i :: 0 <= i <= |entries| ==> offsets[i] == OffsetOf(entries, i)
  {
    seq(|entries| + 1, i requires 0 <= i <= |entries| => OffsetOf(entries, i))
  }

  lemma EveryEntrySteps(entries: seq<Entry>, tail: string, i: nat)
    requires i < |entries| && forall j :: 0 <= j < |entries| ==> entries[j].WellFormed()
    ensures StepsAt(AR_MAGIC + Concat(Images(entries)) + tail, Offsets(entries), MembersOf(entries), i)
  {
    var data := AR_MAGIC + Concat(Images(entries)) + tail;
    NthImage(entries, tail, i);
    OffsetsAreEven(entries, i);
    ReadImage(data, OffsetOf(entries, i), entries[i]);
    ImageLength(entries[i], 0);
  }

  /** The parser reads well-formed members one after the other, whatever follows them. */
  lemma ReadsEntries(entries: seq<Entry>, tail: string) returns (visited: set<int>)
    requires forall i :: 0 <= i < |entries| ==> entries[i].WellFormed()
    ensures var content := AR_MAGIC + Concat(Images(entries));
            && Parse(content + tail) == ParseFrom(content + tail, |content|, WithoutIndexes(MembersOf(entries)), visited)
            && forall v :: v in visited ==> v < |content|
  {
    hide ParseFrom, WithoutIndexes;
    var content, ms, offsets := Concat(Images(entries)), MembersOf(entries), Offsets(entries);
    var data := AR_MAGIC + content + tail;
    forall i | 0 <= i < |ms| ensures StepsAt(data, offsets, ms, i) {
      EveryEntrySteps(entries, tail, i);
    }
    visited := ParseSteps(data, offsets, ms, 0, [], {});
    EndOffsets(entries);
    MagicComesFirst(content, tail);
    assert ms[0..] == ms && [] + WithoutIndexes(ms) == WithoutIndexes(ms);
  }

  /**
   On every well-formed archive, whatever shorter than a header follows the last member,
   the parser returns exactly the members that are not symbol indexes, in order.
   */
  lemma ParserRecoversMembers(entries: seq<Entry>, tail: string)
    requires forall i :: 0 <= i < |entries| ==> entries[i].WellFormed()
    requires |tail| < 60
    ensures Parse(AR_MAGIC + Concat(Images(entries)) + tail) == Members(WithoutIndexes(MembersOf(entries)))
  {
    hide Parse, ParseFrom, Concat, WithoutIndexes;
    var visited := ReadsEntries(entries, tail);
    var content := AR_MAGIC + Concat(Images(entries));
    ParseTail(content + tail, content, tail, WithoutIndexes(MembersOf(entries)), visited);
  }

  /** `selected` are the members of `all` whose name does not begin with `__.SYMDEF`, in order and with multiplicity. */
  ghost predicate SelectsObjects(selected: seq<Member>, all: seq<Member>) {
    exists positions: seq<nat> :: ArePositions(positions, selected, all)
  }

  ghost predicate ArePositions(positions: seq<nat>, selected: seq<Member>, all: seq<Member>) {
    AreIncreasing(positions) && ArePicked(positions, selected, all) && AreObjects(positions, all)
  }

  ghost predicate AreIncreasing(positions: seq<nat>) {
    forall k, l :: 0 <= k < l < |positions| ==> positions[k] < positions[l]
  }

  ghost predicate ArePicked(positions: seq<nat>, selected: seq<Member>, all: seq<Member>) {
    |positions| == |selected|
    && forall k :: 0 <= k < |positions| ==> positions[k] < |all| && selected[k] == all[positions[k]]
  }

  ghost predicate AreObjects(positions: seq<nat>, all: seq<Member>) {
    forall i :: 0 <= i < |all| ==> (i in positions <==> !HasIndexName(all[i]))
  }

  /** The nine characters in front of a symbol index's name. */
  predicate HasIndexName(m: Member) {
    m.name[..Least(9, |m.name|)] == "__.SYMDEF"
  }

  function Least(a: nat, b: nat): nat {
    if a < b then a else b
  }

  lemma KeptIsObject(m: Member)
    ensures Kept(m) == if HasIndexName(m) then [] else [m]
  {
  }

  lemma {:induction false} WithoutIndexesSelects(all: seq<Member>)
    ensures SelectsObjects(WithoutIndexes(all), all)
  {
    var positions: seq<nat> := [];
    if all != [] {
      hide Kept, HasIndexName, ArePositions;
      WithoutIndexesSelects(all[1..]);
      var rest: seq<nat> :| ArePositions(rest, WithoutIndexes(all[1..]), all[1..]);
      positions := PositionsInLonger(rest, WithoutIndexes(all[1..]), all);
    }
    assert ArePositions(positions, WithoutIndexes(all), all);
  }

  function Shifted(rest: seq<nat>): (shifted: seq<nat>)
    ensures |shifted| == |rest| && forall k :: 0 <= k < |rest| ==> shifted[k] == rest[k] + 1
  {
    seq(|rest|, k requires 0 <= k < |rest| => rest[k] + 1)
  }

  lemma ShiftedHolds(rest: seq<nat>, i: nat)
    ensures i in Shifted(rest) <==> i > 0 && i - 1 in rest
  {
    if i > 0 && i - 1 in rest {
      var k :| 0 <= k < |rest| && rest[k] == i - 1;
      assert Shifted(rest)[k] == i;
    }
  }

  lemma SkippedFirst(rest: seq<nat>, selected: seq<Member>, all: seq<Member>)
    requires all != [] && HasIndexName(all[0]) && ArePositions(rest, selected, all[1..])
    ensures ArePositions(Shifted(rest), selected, all)
  {
    hide HasIndexName;
    forall i | 0 <= i < |all| ensures i in Shifted(rest) <==> !HasIndexName(all[i]) {
      ShiftedHolds(rest, i);
      assert i > 0 ==> all[i] == all[1..][i - 1];
    }
  }

  lemma ObjectsWithFirst(rest: seq<nat>, all: seq<Member>)
    requires all != [] && !HasIndexName(all[0]) && AreObjects(rest, all[1..])
    ensures AreObjects([0] + Shifted(rest), all)
  {
    hide HasIndexName;
    var positions := [0] + Shifted(rest);
    forall i | 0 <= i < |all| ensures i in positions <==> !HasIndexName(all[i]) {
      ShiftedHolds(rest, i);
      assert i in positions <==> i == 0 || i in Shifted(rest);
      assert i > 0 ==> all[i] == all[1..][i - 1];
    }
  }

  lemma PickedWithFirst(rest: seq<nat>, selected: seq<Member>, all: seq<Member>)
    requires all != [] && ArePicked(rest, selected, all[1..])
    ensures ArePicked([0] + Shifted(rest), [all[0]] + selected, all)
  {
    var positions, longer := [0] + Shifted(rest), [all[0]] + selected;
    forall k | 0 <= k < |positions| ensures positions[k] < |all| && longer[k] == all[positions[k]] {
      assert k > 0 ==> longer[k] == selected[k - 1] && positions[k] == rest[k - 1] + 1;
    }
  }

  lemma TookFirst(rest: seq<nat>, selected: seq<Member>, all: seq<Member>)
    requires all != [] && !HasIndexName(all[0]) && ArePositions(rest, selected, all[1..])
    ensures ArePositions([0] + Shifted(rest), [all[0]] + selected, all)
  {
    hide HasIndexName, ArePicked, AreObjects;
    ObjectsWithFirst(rest, all);
    PickedWithFirst(rest, selected, all);
  }

  lemma PositionsInLonger(rest: seq<nat>, selected: seq<Member>, all: seq<Member>) returns (positions: seq<nat>)
    requires all != [] && ArePositions(rest, selected, all[1..])
    ensures ArePositions(positions, Kept(all[0]) + selected, all)
  {
    hide Kept, HasIndexName, ArePositions;
    KeptIsObject(all[0]);
    if HasIndexName(all[0]) {
      SkippedFirst(rest, selected, all);
      assert [] + selected == selected;
      positions := Shifted(rest);
    } else {
      TookFirst(rest, selected, all);
      positions := [0] + Shifted(rest);
    }
  }

  /** What the parser returns of a well-formed archive, without naming what it skips. */
  lemma ParserReturnsObjects(entries: seq<Entry>, tail: string)
    requires forall i :: 0 <= i < |entries| ==> entries[i].WellFormed()
    requires |tail| < 60
    ensures var result := Parse("!<arch>\n" + Concat(Images(entries)) + tail);
            result.Members? && SelectsObjects(result.members, MembersOf(entries))
  {
    hide Parse, Concat, WithoutIndexes, SelectsObjects;
    ParserRecoversMembers(entries, tail);
    WithoutIndexesSelects(MembersOf(entries));
  }

  lemma EndOffsets(entries: seq<Entry>)
    ensures OffsetOf(entries, 0) == |AR_MAGIC|
    ensures OffsetOf(entries, |entries|) == |AR_MAGIC + Concat(Images(entries))|
  {
    assert Images(entries)[..0] == [] && Images(entries)[..|entries|] == Images(entries);
  }

  lemma ParseTail(data: string, before: string, tail: string, members: seq<Member>, visited: set<int>)
    requires data == before + tail && |tail| < 60 && |before| !in visited
    ensures ParseFrom(data, |before|, members, visited) == Members(members)
  {
  }

  lemma MagicComesFirst(content: string, tail: string)
    ensures StartsWith(AR_MAGIC + content + tail, AR_MAGIC)
  {
  }

  /** A header with a plain name and a size of -60 or -61 sends the parser back to itself, wherever it stands. */
  lemma ReadStandingStill(data: string, offset: nat, header: string)
    requires offset % 2 == 0 && At(data, offset, header) && |header| == 60 && !StartsWith(header[..16], "#1/")
    requires SizeOf(header) == Some(-60) || SizeOf(header) == Some(-61)
    ensures ReadMember(data, offset).Found? && ReadMember(data, offset).next == offset && offset < |data|
  {
    hide SizeOf;
    SliceAt(data, offset, header);
    assert HeaderAt(data, offset) == header;
  }

  lemma StandingStillLoops(data: string, offset: nat, members: seq<Member>, visited: set<int>)
    requires ReadMember(data, offset).Found? && ReadMember(data, offset).next == offset
    requires offset < |data| && offset !in visited
    ensures ParseFrom(data, offset, members, visited) == Loops(offset)
  {
    hide ReadMember;
    FoundIsInRange(data, offset);
  }

  /** After any well-formed members such a header makes the parser loop, whatever comes behind it. */
  lemma ParserStandsStill(entries: seq<Entry>, header: string, rest: string)
    requires forall i :: 0 <= i < |entries| ==> entries[i].WellFormed()
    requires |header| == 60 && !StartsWith(header[..16], "#1/")
    requires SizeOf(header) == Some(-60) || SizeOf(header) == Some(-61)
    ensures var content := AR_MAGIC + Concat(Images(entries));
            Parse(content + (header + rest)) == Loops(|content|)
  {
    hide Parse, ParseFrom, Concat, WithoutIndexes, ReadMember, SizeOf, WithoutIndexes;
    var content := AR_MAGIC + Concat(Images(entries));
    var data := content + (header + rest);
    var visited := ReadsEntries(entries, header + rest);
    OffsetsAreEven(entries, |entries|);
    EndOffsets(entries);
    assert data[|content|..|content| + 60] == header;
    ReadStandingStill(data, |content|, header);
    StandingStillLoops(data, |content|, WithoutIndexes(MembersOf(entries)), visited);
  }

  /** A one-header archive that is never parsed to an end. */
  lemma EndlessArchive() returns (data: string)
    ensures data == "!<arch>\n" + (Field("a.o/", 48) + Field("-60", 10) + "`\n")
    ensures Parse(data) == Loops(8) && IsEndless(data, 8)
  {
    hide Parse, SizeOf, IsEndless;
    var header := Field("a.o/", 48) + Field("-60", 10) + "`\n";
    data := AR_MAGIC + header;
    SizeOfMinusSixty(header);
    assert header[..3] == "a.o" && header[..16][..3] == header[..3];
    ParserStandsStill([], header, []);
    assert Images([]) == [] && AR_MAGIC + Concat(Images([])) == AR_MAGIC && header + [] == header;
    MagicComesFirst(header, []);
    assert AR_MAGIC + header + [] == data;
    LoopsIffEndless(data);
  }

  lemma SizeOfMinusSixty(header: string)
    requires |header| == 60 && header[48..58] == Field("-60", 10)
    ensures SizeOf(header) == Some(-60)
  {
    StripField("-60", 10);
    assert "-60" == "-" + Decimal(60) by {
      assert Decimal(60) == Decimal(6) + [Digit(0)];
    }
    ParseSigned(60);
  }
}
