/** Which environment variables reach an agent process, and how the list is built. */
module AgentEnvironment {
  import opened AsciiCase
  import opened Wrappers

  const BASE_ENV_VARS: seq<string> := ["PATH", "HOME", "SHELL", "TERM", "USER", "LANG", "LC_ALL", "TMPDIR"]

  const BLOCKED_PREFIXES: seq<string> := ["DYLD_", "LD_"]

  const BLOCKED_EXACT_NAMES: seq<string> := [
    "APPLE_SIGNING_IDENTITY", "APPLE_NOTARY_PROFILE", "APP_STORE_CONNECT_API_KEY", "APP_STORE_CONNECT_API_KEY_ID",
    "APP_STORE_CONNECT_ISSUER_ID", "AC_PASSWORD", "AC_USERNAME", "NOTARYTOOL_KEY", "NOTARYTOOL_KEY_ID",
    "NOTARYTOOL_ISSUER", "GITHUB_TOKEN", "GH_TOKEN", "ANTHROPIC_API_KEY", "OPENAI_API_KEY", "BASH_ENV", "ENV",
    "CDPATH", "PERL5OPT", "PERL5LIB", "PYTHONSTARTUP", "PYTHONPATH", "RUBYOPT", "NODE_OPTIONS", "NODE_EXTRA_CA_CERTS",
    "GITLAB_TOKEN", "GITLAB_ACCESS_TOKEN", "STRIPE_API_KEY", "STRIPE_SECRET_KEY", "AWS_SECRET_ACCESS_KEY",
    "AWS_SESSION_TOKEN"
  ]

  const SENSITIVE_SUFFIXES: seq<string> := ["_PASSWORD", "_SECRET", "_TOKEN", "_API_KEY", "_KEY", "_CREDENTIAL"]

  const ALLOWED_EXTRA_ENV_NAMES: seq<string> := [
    "PNEVMA_LOG_LEVEL", "PNEVMA_DEBUG", "PNEVMA_AGENT_TEAM_ID", "PNEVMA_AGENT_TEAM_CONTROL_SOCKET",
    "PNEVMA_AGENT_TEAM_PROVIDER", "NODE_ENV", "RUST_LOG", "RUST_BACKTRACE", "FORCE_COLOR", "NO_COLOR", "CI",
    "DATABASE_URL", "REDIS_URL", "API_ENDPOINT", "API_BASE_URL", "SUPABASE_URL", "NEXT_PUBLIC_SUPABASE_URL",
    "CLAUDE_CODE_EXPERIMENTAL_AGENT_TEAMS", "TMUX", "TMUX_PANE"
  ]

  const ALLOWED_EXTRA_ENV_PREFIXES: seq<string> := ["TEST_", "STAGING_", "NEXT_PUBLIC_", "VITE_"]

  const MAX_AGENT_ENV_NAME_BYTES := 128
  const MAX_AGENT_ENV_VALUE_BYTES := 16 * 1024

  datatype EnvError =
    | EmptyName | NameTooLong | BadFirstCharacter | BadCharacter
    | ReservedName | BlockedName | NotAllowlisted
    | ValueTooLong | ValueHasNul

  datatype Verdict = Ok | Err(error: EnvError)

  // ---------- Names ----------

  function Utf8Length(s: string): nat {
    if s == [] then 0
    else
      var c := s[0];
      (if c < '\U{80}' then 1 else if c < '\U{800}' then 2 else if c < '\U{10000}' then 3 else 4) + Utf8Length(s[1..])
  }

  predicate IsAlphaOrUnderscore(c: char) {
    'A' <= c <= 'Z' || 'a' <= c <= 'z' || c == '_'
  }

  predicate IsNameCharacter(c: char) {
    IsAlphaOrUnderscore(c) || '0' <= c <= '9'
  }

  function UpperChar(c: char): char {
    if 'a' <= c <= 'z' then c - 'a' + 'A' else c
  }

  /** `to_ascii_uppercase` */
  function Normalize(name: string): (u: string)
    ensures |u| == |name| && forall i :: 0 <= i < |name| ==> u[i] == UpperChar(name[i])
  {
    seq(|name|, i requires 0 <= i < |name| => UpperChar(name[i]))
  }

  predicate StartsWith(s: string, prefix: string) {
    |prefix| <= |s| && s[..|prefix|] == prefix
  }

  predicate EndsWith(s: string, suffix: string) {
    |suffix| <= |s| && s[|s| - |suffix|..] == suffix
  }

  predicate StartsWithAny(s: string, prefixes: seq<string>) {
    exists k | 0 <= k < |prefixes| :: StartsWith(s, prefixes[k])
  }

  predicate EndsWithAny(s: string, suffixes: seq<string>) {
    exists k | 0 <= k < |suffixes| :: EndsWith(s, suffixes[k])
  }

  predicate IsReserved(name: string) {
    Normalize(name) in BASE_ENV_VARS
  }

  predicate IsBlocked(name: string) {
    var normalized := Normalize(name);
    || normalized in BLOCKED_EXACT_NAMES
    || StartsWithAny(normalized, BLOCKED_PREFIXES)
    || (StartsWith(normalized, "PNEVMA_") && EndsWithAny(normalized, SENSITIVE_SUFFIXES))
  }

  predicate IsAllowedExtra(name: string) {
    var normalized := Normalize(name);
    normalized in ALLOWED_EXTRA_ENV_NAMES || StartsWithAny(normalized, ALLOWED_EXTRA_ENV_PREFIXES)
  }

  /** The gate at spawn time. */
  function ValidateName(name: string): Verdict {
    if name == [] then Err(EmptyName)
    else if Utf8Length(name) > MAX_AGENT_ENV_NAME_BYTES then Err(NameTooLong)
    else if !IsAlphaOrUnderscore(name[0]) then Err(BadFirstCharacter)
    else if exists i | 1 <= i < |name| :: !IsNameCharacter(name[i]) then Err(BadCharacter)
    else if IsReserved(name) then Err(ReservedName)
    else if IsBlocked(name) then Err(BlockedName)
    else if !IsAllowedExtra(name) then Err(NotAllowlisted)
    else Ok
  }

  /** The gate at registration time: the same checks, written out again, but for the allowlist. */
  function ValidateNameForRegistration(name: string): Verdict {
    if name == [] then Err(EmptyName)
    else if Utf8Length(name) > MAX_AGENT_ENV_NAME_BYTES then Err(NameTooLong)
    else if !IsAlphaOrUnderscore(name[0]) then Err(BadFirstCharacter)
    else if exists i | 1 <= i < |name| :: !IsNameCharacter(name[i]) then Err(BadCharacter)
    else if IsReserved(name) then Err(ReservedName)
    else if IsBlocked(name) then Err(BlockedName)
    else Ok
  }

  function ValidateEntry(name: string, value: string): Verdict {
    match ValidateName(name)
    case Err(e) => Err(e)
    case Ok =>
      if Utf8Length(value) > MAX_AGENT_ENV_VALUE_BYTES then Err(ValueTooLong)
      else if '\0' in value then Err(ValueHasNul)
      else Ok
  }

  function ValidateEntryForRegistration(name: string, value: string): Verdict {
    match ValidateNameForRegistration(name)
    case Err(e) => Err(e)
    case Ok =>
      if Utf8Length(value) > MAX_AGENT_ENV_VALUE_BYTES then Err(ValueTooLong)
      else if '\0' in value then Err(ValueHasNul)
      else Ok
  }

  /** An identifier of at most 128 bytes: ASCII letters, digits and underscores (code point 95), no digit first. */
  predicate IsIdentifier(name: string) {
    && 0 < |name| <= 128
    && (forall i :: 0 <= i < |name| ==> IsLetterOrDigit(name[i]) || name[i] as int == 95)
    && !(48 <= name[0] as int <= 57)
  }

  lemma {:induction false} AsciiLength(s: string)
    ensures Utf8Length(s) >= |s|
    ensures (forall i :: 0 <= i < |s| ==> s[i] < '\U{80}') ==> Utf8Length(s) == |s|
  {
    if s != [] {
      AsciiLength(s[1..]);
    }
  }

  /** The length in UTF-8: one byte below 128, two below 2048, three below 65536, four beyond. */
  lemma Utf8LengthAdds(c: char, rest: string)
    ensures Utf8Length([c] + rest)
            == (if c as int < 128 then 1 else if c as int < 2048 then 2 else if c as int < 65536 then 3 else 4)
               + Utf8Length(rest)
    ensures Utf8Length([]) == 0
  {
    assert ([c] + rest)[1..] == rest;
  }

  // ---------- Names, whatever their case ----------

  ghost predicate SpelledLike(name: string, names: seq<string>) {
    exists k :: 0 <= k < |names| && SameUpToCase(name, names[k])
  }

  ghost predicate BeginsLike(name: string, prefixes: seq<string>) {
    exists k :: 0 <= k < |prefixes| && |prefixes[k]| <= |name| && SameUpToCase(name[..|prefixes[k]|], prefixes[k])
  }

  ghost predicate EndsLike(name: string, suffixes: seq<string>) {
    exists k :: 0 <= k < |suffixes| && |suffixes[k]| <= |name|
                && SameUpToCase(name[|name| - |suffixes[k]|..], suffixes[k])
  }

  predicate IsUpper(s: string) {
    forall i :: 0 <= i < |s| ==> !('a' <= s[i] <= 'z')
  }

  lemma NormalizedIs(name: string, n: string)
    requires IsUpper(n)
    ensures Normalize(name) == n <==> SameUpToCase(name, n)
  {
    forall i | 0 <= i < |name| && i < |n| ensures UpperChar(name[i]) == n[i] <==> SameLetter(name[i], n[i]) {
    }
  }

  lemma NormalizedIn(name: string, names: seq<string>)
    requires forall k :: 0 <= k < |names| ==> IsUpper(names[k])
    ensures Normalize(name) in names <==> SpelledLike(name, names)
  {
    hide IsUpper, SameUpToCase;
    forall k | 0 <= k < |names| ensures Normalize(name) == names[k] <==> SameUpToCase(name, names[k]) {
      NormalizedIs(name, names[k]);
    }
  }

  lemma NormalizedPart(name: string, lo: nat, hi: nat)
    requires lo <= hi <= |name|
    ensures Normalize(name)[lo..hi] == Normalize(name[lo..hi])
  {
  }

  lemma NormalizedBegins(name: string, prefixes: seq<string>)
    requires forall k :: 0 <= k < |prefixes| ==> IsUpper(prefixes[k])
    ensures StartsWithAny(Normalize(name), prefixes) <==> BeginsLike(name, prefixes)
  {
    hide IsUpper, SameUpToCase;
    forall k | 0 <= k < |prefixes| && |prefixes[k]| <= |name|
      ensures StartsWith(Normalize(name), prefixes[k]) <==> SameUpToCase(name[..|prefixes[k]|], prefixes[k])
    {
      NormalizedPart(name, 0, |prefixes[k]|);
      NormalizedIs(name[..|prefixes[k]|], prefixes[k]);
    }
  }

  lemma NormalizedEnds(name: string, suffixes: seq<string>)
    requires forall k :: 0 <= k < |suffixes| ==> IsUpper(suffixes[k])
    ensures EndsWithAny(Normalize(name), suffixes) <==> EndsLike(name, suffixes)
  {
    hide IsUpper, SameUpToCase;
    forall k | 0 <= k < |suffixes| && |suffixes[k]| <= |name|
      ensures EndsWith(Normalize(name), suffixes[k]) <==> SameUpToCase(name[|name| - |suffixes[k]|..], suffixes[k])
    {
      NormalizedPart(name, |name| - |suffixes[k]|, |name|);
      NormalizedIs(name[|name| - |suffixes[k]|..], suffixes[k]);
    }
  }

  lemma BaseNamesAreUpper(k: nat)
    requires k < |BASE_ENV_VARS|
    ensures IsUpper(BASE_ENV_VARS[k])
  {
  }

  lemma BlockedNamesAreUpperFrom0(k: nat)
    requires 0 <= k < 8
    ensures IsUpper(BLOCKED_EXACT_NAMES[k])
  {
  }

  lemma BlockedNamesAreUpperFrom8(k: nat)
    requires 8 <= k < 15
    ensures IsUpper(BLOCKED_EXACT_NAMES[k])
  {
  }

  lemma BlockedNamesAreUpperFrom15(k: nat)
    requires 15 <= k < 23
    ensures IsUpper(BLOCKED_EXACT_NAMES[k])
  {
  }

  lemma BlockedNamesAreUpperFrom23(k: nat)
    requires 23 <= k < 30
    ensures IsUpper(BLOCKED_EXACT_NAMES[k])
  {
  }

  lemma BlockedNamesAreUpper(k: nat)
    requires k < |BLOCKED_EXACT_NAMES|
    ensures IsUpper(BLOCKED_EXACT_NAMES[k])
  {
    hide IsUpper;
    if k < 8 {
      BlockedNamesAreUpperFrom0(k);
    } else if k < 15 {
      BlockedNamesAreUpperFrom8(k);
    } else if k < 23 {
      BlockedNamesAreUpperFrom15(k);
    } else {
      BlockedNamesAreUpperFrom23(k);
    }
  }

  lemma AllowedNamesAreUpperFrom0(k: nat)
    requires 0 <= k < 5
    ensures IsUpper(ALLOWED_EXTRA_ENV_NAMES[k])
  {
  }

  lemma AllowedNamesAreUpperFrom5(k: nat)
    requires 5 <= k < 12
    ensures IsUpper(ALLOWED_EXTRA_ENV_NAMES[k])
  {
  }

  lemma AllowedNamesAreUpperFrom12(k: nat)
    requires 12 <= k < 20
    ensures IsUpper(ALLOWED_EXTRA_ENV_NAMES[k])
  {
  }

  lemma AllowedNamesAreUpper(k: nat)
    requires k < |ALLOWED_EXTRA_ENV_NAMES|
    ensures IsUpper(ALLOWED_EXTRA_ENV_NAMES[k])
  {
    hide IsUpper;
    if k < 5 {
      AllowedNamesAreUpperFrom0(k);
    } else if k < 12 {
      AllowedNamesAreUpperFrom5(k);
    } else {
      AllowedNamesAreUpperFrom12(k);
    }
  }

  lemma AffixesAreUpper()
    ensures forall k :: 0 <= k < |BLOCKED_PREFIXES| ==> IsUpper(BLOCKED_PREFIXES[k])
    ensures forall k :: 0 <= k < |ALLOWED_EXTRA_ENV_PREFIXES| ==> IsUpper(ALLOWED_EXTRA_ENV_PREFIXES[k])
    ensures forall k :: 0 <= k < |SENSITIVE_SUFFIXES| ==> IsUpper(SENSITIVE_SUFFIXES[k])
    ensures IsUpper("PNEVMA_")
  {
  }

  /** The runtime's own names, in any spelling. */
  lemma ReservedNamesAre(name: string)
    ensures IsReserved(name) <==> SpelledLike(name, [
              "PATH", "HOME", "SHELL", "TERM", "USER", "LANG", "LC_ALL", "TMPDIR"
            ])
  {
    hide SpelledLike, IsUpper;
    forall k | 0 <= k < |BASE_ENV_VARS| ensures IsUpper(BASE_ENV_VARS[k]) {
      BaseNamesAreUpper(k);
    }
    NormalizedIn(name, BASE_ENV_VARS);
  }

  /** The blocked names, in any spelling. */
  lemma BlockedNamesAre(name: string)
    ensures IsBlocked(name) <==>
            || SpelledLike(name, [
                 "APPLE_SIGNING_IDENTITY", "APPLE_NOTARY_PROFILE", "APP_STORE_CONNECT_API_KEY",
                 "APP_STORE_CONNECT_API_KEY_ID", "APP_STORE_CONNECT_ISSUER_ID", "AC_PASSWORD", "AC_USERNAME",
                 "NOTARYTOOL_KEY", "NOTARYTOOL_KEY_ID", "NOTARYTOOL_ISSUER", "GITHUB_TOKEN", "GH_TOKEN",
                 "ANTHROPIC_API_KEY", "OPENAI_API_KEY", "BASH_ENV", "ENV", "CDPATH", "PERL5OPT", "PERL5LIB",
                 "PYTHONSTARTUP", "PYTHONPATH", "RUBYOPT", "NODE_OPTIONS", "NODE_EXTRA_CA_CERTS", "GITLAB_TOKEN",
                 "GITLAB_ACCESS_TOKEN", "STRIPE_API_KEY", "STRIPE_SECRET_KEY", "AWS_SECRET_ACCESS_KEY",
                 "AWS_SESSION_TOKEN"
               ])
            || BeginsLike(name, ["DYLD_", "LD_"])
            || (BeginsLike(name, ["PNEVMA_"])
                && EndsLike(name, ["_PASSWORD", "_SECRET", "_TOKEN", "_API_KEY", "_KEY", "_CREDENTIAL"]))
  {
    hide SpelledLike, BeginsLike, EndsLike, IsUpper, StartsWithAny, EndsWithAny;
    forall k | 0 <= k < |BLOCKED_EXACT_NAMES| ensures IsUpper(BLOCKED_EXACT_NAMES[k]) {
      BlockedNamesAreUpper(k);
    }
    AffixesAreUpper();
    NormalizedIn(name, BLOCKED_EXACT_NAMES);
    NormalizedBegins(name, BLOCKED_PREFIXES);
    NormalizedBegins(name, ["PNEVMA_"]);
    NormalizedEnds(name, SENSITIVE_SUFFIXES);
    StartsWithOne(Normalize(name), "PNEVMA_");
  }

  lemma StartsWithOne(s: string, prefix: string)
    ensures StartsWithAny(s, [prefix]) <==> StartsWith(s, prefix)
  {
    assert StartsWith(s, [prefix][0]) <==> StartsWith(s, prefix);
  }

  /** The allowlisted names, in any spelling. */
  lemma AllowedNamesAre(name: string)
    ensures IsAllowedExtra(name) <==>
            || SpelledLike(name, [
                 "PNEVMA_LOG_LEVEL", "PNEVMA_DEBUG", "PNEVMA_AGENT_TEAM_ID", "PNEVMA_AGENT_TEAM_CONTROL_SOCKET",
                 "PNEVMA_AGENT_TEAM_PROVIDER", "NODE_ENV", "RUST_LOG", "RUST_BACKTRACE", "FORCE_COLOR", "NO_COLOR",
                 "CI", "DATABASE_URL", "REDIS_URL", "API_ENDPOINT", "API_BASE_URL", "SUPABASE_URL",
                 "NEXT_PUBLIC_SUPABASE_URL", "CLAUDE_CODE_EXPERIMENTAL_AGENT_TEAMS", "TMUX", "TMUX_PANE"
               ])
            || BeginsLike(name, ["TEST_", "STAGING_", "NEXT_PUBLIC_", "VITE_"])
  {
    hide SpelledLike, BeginsLike, IsUpper, StartsWithAny;
    forall k | 0 <= k < |ALLOWED_EXTRA_ENV_NAMES| ensures IsUpper(ALLOWED_EXTRA_ENV_NAMES[k]) {
      AllowedNamesAreUpper(k);
    }
    AffixesAreUpper();
    NormalizedIn(name, ALLOWED_EXTRA_ENV_NAMES);
    NormalizedBegins(name, ALLOWED_EXTRA_ENV_PREFIXES);
  }

  // ---------- The denylist behind the allowlist ----------

  /** How a reserved or blocked name begins, and how long it is where that matters. */
  ghost predicate LooksDenied(u: string) {
    |u| >= 3 &&
    var (a, b, c) := (u[0], u[1], u[2]);
    || (a == 'A' && (b == 'C' || b == 'N' || b == 'W' || (b == 'P' && c == 'P')))
    || (a == 'N' && b == 'O' && (c == 'T' || (c == 'D' && |u| > 8)))
    || (a == 'P' && (b == 'A' || b == 'E' || b == 'Y'))
    || (a == 'C' && b == 'D')
    || (a == 'D' && b == 'Y')
    || (a == 'R' && b == 'U' && c == 'B')
    || (a == 'S' && (b == 'H' || (b == 'T' && c == 'R')))
    || (a == 'T' && (c == 'R' || c == 'P'))
    || a == 'B' || a == 'E' || a == 'G' || a == 'H' || a == 'L' || a == 'O' || a == 'U'
  }

  lemma ReservedNamesLookDenied(u: string)
    requires u in BASE_ENV_VARS
    ensures LooksDenied(u)
  {
  }

  lemma BlockedNamesLookDenied(k: nat)
    requires k < |BLOCKED_EXACT_NAMES|
    ensures LooksDenied(BLOCKED_EXACT_NAMES[k])
  {
  }

  lemma BlockedPrefixesLookDenied(u: string)
    requires StartsWithAny(u, BLOCKED_PREFIXES)
    ensures LooksDenied(u)
  {
    var k :| 0 <= k < |BLOCKED_PREFIXES| && StartsWith(u, BLOCKED_PREFIXES[k]);
    assert u[0] == BLOCKED_PREFIXES[k][0] && u[1] == BLOCKED_PREFIXES[k][1];
  }

  ghost predicate LooksAllowed(u: string) {
    |u| == 2 || (|u| >= 3 &&
    var (a, b, c) := (u[0], u[1], u[2]);
    || (a == 'A' && b == 'P' && c == 'I')
    || (a == 'N' && (b == 'E' || (b == 'O' && (c == '_' || (c == 'D' && |u| == 8)))))
    || (a == 'P' && b == 'N')
    || (a == 'C' && b == 'L')
    || (a == 'D' && b == 'A')
    || (a == 'R' && (b == 'E' || (b == 'U' && c == 'S')))
    || (a == 'S' && b == 'U')
    || (a == 'T' && b == 'M' && c == 'U')
    || a == 'F')
  }

  lemma AllowedNamesLookAllowed(k: nat)
    requires k < |ALLOWED_EXTRA_ENV_NAMES|
    ensures LooksAllowed(ALLOWED_EXTRA_ENV_NAMES[k])
  {
  }

  lemma AllowedNamesDoNot(u: string)
    requires u in ALLOWED_EXTRA_ENV_NAMES
    ensures !LooksDenied(u)
  {
    hide ALLOWED_EXTRA_ENV_NAMES;
    var k :| 0 <= k < |ALLOWED_EXTRA_ENV_NAMES| && ALLOWED_EXTRA_ENV_NAMES[k] == u;
    AllowedNamesLookAllowed(k);
  }

  lemma AllowedPrefixesDoNot(u: string)
    requires StartsWithAny(u, ALLOWED_EXTRA_ENV_PREFIXES)
    ensures !LooksDenied(u) && u[0] != 'P'
  {
    var k :| 0 <= k < |ALLOWED_EXTRA_ENV_PREFIXES| && StartsWith(u, ALLOWED_EXTRA_ENV_PREFIXES[k]);
    var p := ALLOWED_EXTRA_ENV_PREFIXES[k];
    assert u[0] == p[0] && u[1] == p[1] && u[2] == p[2];
  }

  /** How a secret's name ends. */
  ghost predicate EndsSensitive(u: string) {
    |u| >= 3 &&
    var (a, b, c) := (u[|u| - 3], u[|u| - 2], u[|u| - 1]);
    (b == 'R' && c == 'D') || (a == 'R' && b == 'E' && c == 'T') || c == 'N' || c == 'Y' || (b == 'A' && c == 'L')
  }

  lemma SuffixesEndSensitive(k: nat)
    requires k < |SENSITIVE_SUFFIXES|
    ensures EndsSensitive(SENSITIVE_SUFFIXES[k])
  {
  }

  lemma SharedEnding(u: string, suffix: string)
    requires EndsWith(u, suffix) && EndsSensitive(suffix)
    ensures EndsSensitive(u)
  {
    var n := |suffix|;
    var ending := u[|u| - n..];
    assert ending[n - 3] == u[|u| - 3] && ending[n - 2] == u[|u| - 2] && ending[n - 1] == u[|u| - 1];
  }

  lemma AllowedNamesEndHarmlessly(k: nat)
    requires k < |ALLOWED_EXTRA_ENV_NAMES| && ALLOWED_EXTRA_ENV_NAMES[k][..1] == "P"
    ensures !EndsSensitive(ALLOWED_EXTRA_ENV_NAMES[k])
  {
  }

  /** Nothing on the allowlist is reserved or on the denylist. */
  lemma AllowedIsNeverDenied(name: string)
    requires IsAllowedExtra(name)
    ensures !IsReserved(name) && !IsBlocked(name)
  {
    hide BASE_ENV_VARS, BLOCKED_EXACT_NAMES, BLOCKED_PREFIXES, SENSITIVE_SUFFIXES;
    hide ALLOWED_EXTRA_ENV_NAMES, ALLOWED_EXTRA_ENV_PREFIXES, LooksDenied, EndsSensitive;
    var u := Normalize(name);
    if StartsWithAny(u, ALLOWED_EXTRA_ENV_PREFIXES) {
      AllowedPrefixesDoNot(u);
    } else {
      AllowedNamesDoNot(u);
    }
    if u in BASE_ENV_VARS {
      ReservedNamesLookDenied(u);
    }
    if u in BLOCKED_EXACT_NAMES {
      var k :| 0 <= k < |BLOCKED_EXACT_NAMES| && BLOCKED_EXACT_NAMES[k] == u;
      BlockedNamesLookDenied(k);
    }
    if StartsWithAny(u, BLOCKED_PREFIXES) {
      BlockedPrefixesLookDenied(u);
    }
    if StartsWith(u, "PNEVMA_") && EndsWithAny(u, SENSITIVE_SUFFIXES) {
      assert u[0] == u[..|"PNEVMA_"|][0] == 'P';
      var j :| 0 <= j < |SENSITIVE_SUFFIXES| && EndsWith(u, SENSITIVE_SUFFIXES[j]);
      SuffixesEndSensitive(j);
      SharedEnding(u, SENSITIVE_SUFFIXES[j]);
      var k :| 0 <= k < |ALLOWED_EXTRA_ENV_NAMES| && ALLOWED_EXTRA_ENV_NAMES[k] == u;
      AllowedNamesEndHarmlessly(k);
    }
  }

  /** At spawn time the reserved names and the denylist never decide: an identifier passes exactly when it is allowlisted. */
  lemma DenylistNeverDecidesAtSpawn(name: string)
    ensures ValidateName(name) == Ok <==> IsIdentifier(name) && IsAllowedExtra(name)
  {
    hide IsAllowedExtra, IsReserved, IsBlocked;
    AsciiLength(name);
    if IsAllowedExtra(name) {
      AllowedIsNeverDenied(name);
    }
  }

  /** Registration accepts the identifiers that are neither reserved nor on the denylist. */
  lemma RegistrationAcceptsUndeniedIdentifiers(name: string)
    ensures ValidateNameForRegistration(name) == Ok <==> IsIdentifier(name) && !IsReserved(name) && !IsBlocked(name)
  {
    hide IsReserved, IsBlocked;
    AsciiLength(name);
  }

  /** Spawn time accepts what registration accepts and the allowlist names; it rejects the rest for the same reasons. */
  lemma SpawnIsRegistrationPlusAllowlist(name: string, value: string)
    ensures ValidateEntry(name, value) == Ok <==> ValidateEntryForRegistration(name, value) == Ok && IsAllowedExtra(name)
    ensures ValidateName(name) == if ValidateNameForRegistration(name) == Ok && !IsAllowedExtra(name)
                                  then Err(NotAllowlisted) else ValidateNameForRegistration(name)
  {
  }

  /** Why a name is turned away at registration, in the order of the checks. */
  lemma RejectionReasons(name: string)
    ensures var verdict := ValidateNameForRegistration(name);
            var fits := 0 < |name| && Utf8Length(name) <= 128;
            && (verdict == Err(EmptyName) <==> name == [])
            && (verdict == Err(NameTooLong) <==> name != [] && Utf8Length(name) > 128)
            && (verdict == Err(BadFirstCharacter) <==>
                fits && (!IsLetterOrDigit(name[0]) || 48 <= name[0] as int <= 57) && name[0] as int != 95)
            && (verdict == Err(ReservedName) <==> IsIdentifier(name) && IsReserved(name))
            && (verdict == Err(BlockedName) <==> IsIdentifier(name) && !IsReserved(name) && IsBlocked(name))
  {
    hide IsReserved, IsBlocked;
    AsciiLength(name);
  }

  /** An entry passes a gate when its name does and its value is NUL-free and at most 16384 bytes long. */
  lemma EntriesPassWithSmallValues(name: string, value: string)
    ensures ValidateEntry(name, value) == Ok <==>
            ValidateName(name) == Ok && Utf8Length(value) <= 16384 && '\0' !in value
    ensures ValidateEntryForRegistration(name, value) == Ok <==>
            ValidateNameForRegistration(name) == Ok && Utf8Length(value) <= 16384 && '\0' !in value
    ensures ValidateName(name) == Ok ==>
              (ValidateEntry(name, value) == Err(ValueTooLong) <==> Utf8Length(value) > 16384)
  {
    hide ValidateName, ValidateNameForRegistration, Utf8Length;
  }

  // ---------- Building the list ----------

  datatype Entry = Entry(name: string, value: string)

  function DefaultBaseValue(name: string): Option<string> {
    match name
    case "PATH" => Some("/usr/bin:/bin:/usr/sbin:/sbin")
    case "SHELL" => Some("/bin/zsh")
    case "TERM" => Some("xterm-256color")
    case "LANG" => Some("en_US.UTF-8")
    case "LC_ALL" => Some("en_US.UTF-8")
    case _ => None
  }

  /** `process` is the environment the program itself runs in. */
  function ReadBaseValue(process: map<string, string>, name: string): Option<string> {
    var value :=
      if name in process && process[name] != [] && '\0' !in process[name] then Some(process[name])
      else DefaultBaseValue(name);
    if value.Some? && Utf8Length(value.value) > MAX_AGENT_ENV_VALUE_BYTES then None else value
  }

  /** A base value is non-empty, NUL-free and small; a usable value of the process wins over the default. */
  lemma BaseValuesAreUsable(process: map<string, string>, name: string)
    ensures var value := ReadBaseValue(process, name);
            && (value.Some? ==> value.value != [] && '\0' !in value.value
                                && Utf8Length(value.value) <= MAX_AGENT_ENV_VALUE_BYTES)
            && (name in process && process[name] != [] && '\0' !in process[name] ==>
                value == if Utf8Length(process[name]) <= MAX_AGENT_ENV_VALUE_BYTES then Some(process[name]) else None)
            && (name !in process || process[name] == [] || '\0' in process[name] ==> value == DefaultBaseValue(name))
  {
    hide Utf8Length, DefaultBaseValue;
    DefaultsAreUsable(name);
  }

  lemma DefaultsAreUsable(name: string)
    ensures var value := DefaultBaseValue(name);
            value.Some? ==> value.value != [] && '\0' !in value.value && Utf8Length(value.value) <= MAX_AGENT_ENV_VALUE_BYTES
  {
    hide Utf8Length;
    if DefaultBaseValue(name).Some? {
      AtMostFourBytesEach(DefaultBaseValue(name).value);
    }
  }

  lemma {:induction false} AtMostFourBytesEach(s: string)
    ensures Utf8Length(s) <= 4 * |s|
  {
    if s != [] {
      AtMostFourBytesEach(s[1..]);
    }
  }

  function BaseEntries(process: map<string, string>, names: seq<string>): seq<Entry> {
    if names == [] then []
    else
      (match ReadBaseValue(process, names[0]) case None => [] case Some(value) => [Entry(names[0], value)])
      + BaseEntries(process, names[1..])
  }

  predicate IsValid(e: Entry) {
    ValidateEntry(e.name, e.value) == Ok
  }

  /** The valid extras whose names were not seen before. */
  function Accepted(extras: seq<Entry>, seen: set<string>): seq<Entry> {
    if extras == [] then []
    else
      var e := extras[0];
      if IsValid(e) && e.name !in seen then [e] + Accepted(extras[1..], seen + {e.name})
      else Accepted(extras[1..], seen)
  }

  function Names(entries: seq<Entry>): set<string> {
    set e | e in entries :: e.name
  }

  function Environment(process: map<string, string>, extras: seq<Entry>): seq<Entry> {
    var base := BaseEntries(process, BASE_ENV_VARS);
    base + Accepted(extras, Names(base))
  }

  method BuildAgentEnvironment(process: map<string, string>, extraEnv: seq<Entry>) returns (out: seq<Entry>)
    ensures out == Environment(process, extraEnv)
  {
    hide BASE_ENV_VARS, ReadBaseValue, ValidateEntry, BaseEntries, Accepted, Names;
    out := [];
    var seen: set<string> := {};
    NoNames();
    for i := 0 to |BASE_ENV_VARS|
      invariant out + BaseEntries(process, BASE_ENV_VARS[i..]) == BaseEntries(process, BASE_ENV_VARS)
      invariant seen == Names(out)
    {
      var name := BASE_ENV_VARS[i];
      BaseStep(process, BASE_ENV_VARS, i, out);
      var value := ReadBaseValue(process, name);
      if value.Some? {
        NamesOfLonger(out, Entry(name, value.value));
        seen := seen + {name};
        out := out + [Entry(name, value.value)];
      }
    }
    NoneLeft(process, BASE_ENV_VARS, extraEnv, seen);
    assert out == BaseEntries(process, BASE_ENV_VARS);
    for i := 0 to |extraEnv|
      invariant out + Accepted(extraEnv[i..], seen) == Environment(process, extraEnv)
    {
      var Entry(name, value) := extraEnv[i];
      AcceptStep(extraEnv, i, seen, out);
      match ValidateEntry(name, value) {
        case Err(_) =>
        case Ok =>
          if name !in seen {
            seen := seen + {name};
            out := out + [Entry(name, value)];
          }
      }
    }
    NoneLeft(process, BASE_ENV_VARS, extraEnv, seen);
  }

  lemma NoNames()
    ensures Names([]) == {}
  {
  }

  lemma BaseStep(process: map<string, string>, names: seq<string>, i: nat, out: seq<Entry>)
    requires i < |names|
    ensures out + BaseEntries(process, names[i..])
            == match ReadBaseValue(process, names[i])
               case None => out + BaseEntries(process, names[i + 1..])
               case Some(value) => out + [Entry(names[i], value)] + BaseEntries(process, names[i + 1..])
  {
    hide ReadBaseValue;
    assert names[i..][1..] == names[i + 1..];
  }

  lemma AcceptStep(extras: seq<Entry>, i: nat, seen: set<string>, out: seq<Entry>)
    requires i < |extras|
    ensures var e := extras[i];
            out + Accepted(extras[i..], seen)
            == if IsValid(e) && e.name !in seen
               then out + [e] + Accepted(extras[i + 1..], seen + {e.name})
               else out + Accepted(extras[i + 1..], seen)
  {
    hide ValidateEntry, IsValid;
    assert extras[i..][1..] == extras[i + 1..];
  }

  lemma NoneLeft(process: map<string, string>, names: seq<string>, extras: seq<Entry>, seen: set<string>)
    ensures BaseEntries(process, names[|names|..]) == [] && Accepted(extras[|extras|..], seen) == []
    ensures names[0..] == names && extras[0..] == extras
  {
  }

  lemma NamesOfLonger(entries: seq<Entry>, e: Entry)
    ensures Names(entries + [e]) == Names(entries) + {e.name}
  {
    assert forall x :: x in entries + [e] <==> x in entries || x == e;
  }

  // ---------- What the list holds ----------

  ghost predicate DistinctNames(entries: seq<Entry>) {
    forall i, j :: 0 <= i < j < |entries| ==> entries[i].name != entries[j].name
  }

  /** Extra `i` is valid, new, and the first valid one of its name. */
  ghost predicate IsFirstValid(extras: seq<Entry>, seen: set<string>, i: nat)
    requires i < |extras|
  {
    && IsValid(extras[i]) && extras[i].name !in seen
    && forall j :: 0 <= j < i ==> !(IsValid(extras[j]) && extras[j].name == extras[i].name)
  }

  /** Exactly the first valid extra of every new name is accepted. */
  lemma {:induction false} AcceptedAreFirstValid(extras: seq<Entry>, seen: set<string>)
    ensures forall e :: e in Accepted(extras, seen) <==>
              exists i :: 0 <= i < |extras| && extras[i] == e && IsFirstValid(extras, seen, i)
    ensures DistinctNames(Accepted(extras, seen))
  {
    hide ValidateEntry, IsValid;
    if extras != [] {
      var first, rest := extras[0], extras[1..];
      var taken := IsValid(first) && first.name !in seen;
      var seen' := if taken then seen + {first.name} else seen;
      AcceptedAreFirstValid(rest, seen');
      forall e | e in Accepted(rest, seen') ensures e.name !in seen' {
        var i :| 0 <= i < |rest| && rest[i] == e && IsFirstValid(rest, seen', i);
      }
      forall e ensures e in Accepted(extras, seen) <==>
                exists i :: 0 <= i < |extras| && extras[i] == e && IsFirstValid(extras, seen, i)
      {
        FirstValidOfRest(extras, seen, seen', e);
      }
    }
  }

  lemma {:induction false} AcceptedGrows(a: seq<Entry>, b: seq<Entry>, seen: set<string>)
    ensures Accepted(a, seen) <= Accepted(a + b, seen)
  {
    hide ValidateEntry, IsValid;
    if a != [] {
      assert (a + b)[1..] == a[1..] + b;
      var seen' := if IsValid(a[0]) && a[0].name !in seen then seen + {a[0].name} else seen;
      AcceptedGrows(a[1..], b, seen');
    }
  }

  /** Extras are taken in order, so further extras only add to the end of the list. */
  lemma EarlierExtrasComeFirst(process: map<string, string>, a: seq<Entry>, b: seq<Entry>)
    ensures Environment(process, a) <= Environment(process, a + b)
  {
    hide BaseEntries, Accepted, BASE_ENV_VARS;
    AcceptedGrows(a, b, Names(BaseEntries(process, BASE_ENV_VARS)));
  }

  lemma FirstValidOfRest(extras: seq<Entry>, seen: set<string>, seen': set<string>, e: Entry)
    requires extras != []
    requires var taken := IsValid(extras[0]) && extras[0].name !in seen;
             seen' == if taken then seen + {extras[0].name} else seen
    ensures (exists i :: 0 <= i < |extras| && extras[i] == e && IsFirstValid(extras, seen, i)) <==>
            (IsFirstValid(extras, seen, 0) && extras[0] == e)
            || exists i :: 0 <= i < |extras[1..]| && extras[1..][i] == e && IsFirstValid(extras[1..], seen', i)
  {
    hide ValidateEntry, IsValid;
    var rest := extras[1..];
    forall i | 0 <= i < |rest| ensures IsFirstValid(rest, seen', i) <==> IsFirstValid(extras, seen, i + 1) {
      assert forall j :: 0 <= j < i ==> rest[j] == extras[j + 1];
      assert forall j :: 0 < j < i + 1 ==> extras[j] == rest[j - 1];
    }
    if i :| 0 <= i < |extras| && extras[i] == e && IsFirstValid(extras, seen, i) {
      if i > 0 {
        assert rest[i - 1] == e && IsFirstValid(rest, seen', i - 1);
      }
    }
    if i :| 0 <= i < |rest| && rest[i] == e && IsFirstValid(rest, seen', i) {
      assert extras[i + 1] == e && IsFirstValid(extras, seen, i + 1);
    }
  }

  lemma {:induction false} BaseEntriesAreReserved(process: map<string, string>, names: seq<string>)
    requires forall i, j :: 0 <= i < j < |names| ==> names[i] != names[j]
    ensures DistinctNames(BaseEntries(process, names))
    ensures forall e :: e in BaseEntries(process, names) <==>
              e.name in names && ReadBaseValue(process, e.name) == Some(e.value)
  {
    hide ReadBaseValue;
    if names != [] {
      BaseEntriesAreReserved(process, names[1..]);
      assert names == [names[0]] + names[1..];
    }
  }

  lemma BaseNamesAreReserved()
    ensures forall i :: 0 <= i < |BASE_ENV_VARS| ==> Normalize(BASE_ENV_VARS[i]) == BASE_ENV_VARS[i]
    ensures forall i :: 0 <= i < |BASE_ENV_VARS| ==> IsReserved(BASE_ENV_VARS[i])
    ensures forall i, j :: 0 <= i < j < |BASE_ENV_VARS| ==> BASE_ENV_VARS[i] != BASE_ENV_VARS[j]
  {
    forall i | 0 <= i < |BASE_ENV_VARS| ensures Normalize(BASE_ENV_VARS[i]) == BASE_ENV_VARS[i] {
      assert forall k :: 0 <= k < |BASE_ENV_VARS[i]| ==> UpperChar(BASE_ENV_VARS[i][k]) == BASE_ENV_VARS[i][k];
    }
  }

  lemma ReservedNamesAreInvalid(name: string, value: string)
    requires IsReserved(name)
    ensures !IsValid(Entry(name, value))
  {
  }

  /**
   The list: names are pairwise distinct (`ci` and `CI` are two names), the runtime's own variables come first with the
   process's values and no extra replaces them, and of the extras exactly the first valid one of each name is kept.
   */
  lemma EnvironmentMeetsSpec(process: map<string, string>, extras: seq<Entry>)
    ensures DistinctNames(Environment(process, extras))
    ensures BaseEntries(process, BASE_ENV_VARS) <= Environment(process, extras)
    ensures forall e :: e in Environment(process, extras) && IsReserved(e.name) ==>
              e.name in BASE_ENV_VARS && ReadBaseValue(process, e.name) == Some(e.value)
    ensures forall name :: name in BASE_ENV_VARS && ReadBaseValue(process, name).Some? ==>
              Entry(name, ReadBaseValue(process, name).value) in Environment(process, extras)
    ensures forall e: Entry :: !IsReserved(e.name) ==>
              (e in Environment(process, extras) <==>
               exists i :: 0 <= i < |extras| && extras[i] == e && IsFirstValid(extras, {}, i))
  {
    hide BASE_ENV_VARS, ReadBaseValue, ValidateEntry, IsReserved, IsValid, IsFirstValid;
    var base := BaseEntries(process, BASE_ENV_VARS);
    var accepted := Accepted(extras, Names(base));
    BaseNamesAreReserved();
    BaseEntriesAreReserved(process, BASE_ENV_VARS);
    AcceptedAreFirstValid(extras, Names(base));
    forall e | e in accepted ensures !IsReserved(e.name) && e.name !in Names(base) {
      var i :| 0 <= i < |extras| && extras[i] == e && IsFirstValid(extras, Names(base), i);
      AcceptedIsNew(extras, Names(base), i);
    }
    forall i | 0 <= i < |extras| && !IsReserved(extras[i].name)
      ensures IsFirstValid(extras, Names(base), i) <==> IsFirstValid(extras, {}, i)
    {
      assert extras[i].name !in Names(base);
      SeenMattersOnlyForName(extras, Names(base), i);
    }
    DistinctConcat(base, accepted);
  }

  lemma AcceptedIsNew(extras: seq<Entry>, seen: set<string>, i: nat)
    requires i < |extras| && IsFirstValid(extras, seen, i)
    ensures !IsReserved(extras[i].name) && extras[i].name !in seen
  {
  }

  lemma SeenMattersOnlyForName(extras: seq<Entry>, seen: set<string>, i: nat)
    requires i < |extras| && extras[i].name !in seen
    ensures IsFirstValid(extras, seen, i) <==> IsFirstValid(extras, {}, i)
  {
  }

  lemma DistinctConcat(a: seq<Entry>, b: seq<Entry>)
    requires DistinctNames(a) && DistinctNames(b) && forall e :: e in b ==> e.name !in Names(a)
    ensures DistinctNames(a + b)
  {
    forall i, j | 0 <= i < j < |a + b| ensures (a + b)[i].name != (a + b)[j].name {
      if i < |a| <= j {
        assert a[i].name in Names(a) && b[j - |a|] in b;
      }
    }
  }

  /** The process has a value for `name` that can be passed on. */
  predicate IsUsable(process: map<string, string>, name: string) {
    name in process && process[name] != [] && '\0' !in process[name]
  }

  /** What the list has for a name of its own: a usable value of the process, else the fallback, unless it is too long. */
  function Slot(process: map<string, string>, name: string, fallback: Option<string>): seq<Entry> {
    var value := if IsUsable(process, name) then Some(process[name]) else fallback;
    if value.Some? && Utf8Length(value.value) <= 16384 then [Entry(name, value.value)] else []
  }

  lemma SlotIs(process: map<string, string>, name: string)
    ensures Slot(process, name, DefaultBaseValue(name))
            == match ReadBaseValue(process, name) case None => [] case Some(value) => [Entry(name, value)]
  {
    hide DefaultBaseValue, Utf8Length;
  }

  lemma BaseEntriesOfCons(process: map<string, string>, name: string, rest: seq<string>)
    ensures BaseEntries(process, [name] + rest) == Slot(process, name, DefaultBaseValue(name)) + BaseEntries(process, rest)
  {
    hide DefaultBaseValue, Utf8Length, Slot;
    SlotIs(process, name);
    assert ([name] + rest)[1..] == rest;
  }

  lemma DefaultsAre()
    ensures DefaultBaseValue("PATH") == Some("/usr/bin:/bin:/usr/sbin:/sbin") && DefaultBaseValue("SHELL") == Some("/bin/zsh")
    ensures DefaultBaseValue("TERM") == Some("xterm-256color")
    ensures DefaultBaseValue("LANG") == Some("en_US.UTF-8") && DefaultBaseValue("LC_ALL") == Some("en_US.UTF-8")
    ensures DefaultBaseValue("HOME") == None && DefaultBaseValue("USER") == None && DefaultBaseValue("TMPDIR") == None
  {
  }

  /** The runtime's own variables, in order, with their fallbacks. */
  function BaseSlots(process: map<string, string>): seq<Entry> {
    Slot(process, "PATH", Some("/usr/bin:/bin:/usr/sbin:/sbin")) + (Slot(process, "HOME", None)
    + (Slot(process, "SHELL", Some("/bin/zsh")) + (Slot(process, "TERM", Some("xterm-256color"))
    + (Slot(process, "USER", None) + (Slot(process, "LANG", Some("en_US.UTF-8"))
    + (Slot(process, "LC_ALL", Some("en_US.UTF-8")) + Slot(process, "TMPDIR", None)))))))
  }

  lemma BaseEntriesAreSlots(process: map<string, string>)
    ensures BaseEntries(process, BASE_ENV_VARS) == BaseSlots(process)
  {
    hide BaseEntries, DefaultBaseValue, Utf8Length, Slot;
    DefaultsAre();
    NoBaseEntries(process);
    BaseEntriesOfCons(process, "TMPDIR", []);
    BaseEntriesOfCons(process, "LC_ALL", ["TMPDIR"]);
    BaseEntriesOfCons(process, "LANG", ["LC_ALL", "TMPDIR"]);
    BaseEntriesOfCons(process, "USER", ["LANG", "LC_ALL", "TMPDIR"]);
    BaseEntriesOfCons(process, "TERM", ["USER", "LANG", "LC_ALL", "TMPDIR"]);
    BaseEntriesOfCons(process, "SHELL", ["TERM", "USER", "LANG", "LC_ALL", "TMPDIR"]);
    BaseEntriesOfCons(process, "HOME", ["SHELL", "TERM", "USER", "LANG", "LC_ALL", "TMPDIR"]);
    BaseEntriesOfCons(process, "PATH", ["HOME", "SHELL", "TERM", "USER", "LANG", "LC_ALL", "TMPDIR"]);
    assert ["LC_ALL"] + ["TMPDIR"] == ["LC_ALL", "TMPDIR"];
    assert ["LANG"] + ["LC_ALL", "TMPDIR"] == ["LANG", "LC_ALL", "TMPDIR"];
    assert ["USER"] + ["LANG", "LC_ALL", "TMPDIR"] == ["USER", "LANG", "LC_ALL", "TMPDIR"];
    assert ["TERM"] + ["USER", "LANG", "LC_ALL", "TMPDIR"] == ["TERM", "USER", "LANG", "LC_ALL", "TMPDIR"];
    assert ["SHELL"] + ["TERM", "USER", "LANG", "LC_ALL", "TMPDIR"] == ["SHELL", "TERM", "USER", "LANG", "LC_ALL", "TMPDIR"];
    assert ["HOME"] + ["SHELL", "TERM", "USER", "LANG", "LC_ALL", "TMPDIR"]
        == ["HOME", "SHELL", "TERM", "USER", "LANG", "LC_ALL", "TMPDIR"];
    assert ["PATH"] + ["HOME", "SHELL", "TERM", "USER", "LANG", "LC_ALL", "TMPDIR"] == BASE_ENV_VARS;
    assert ["TMPDIR"] + [] == ["TMPDIR"];
    assert Slot(process, "TMPDIR", None) + [] == Slot(process, "TMPDIR", None);
  }

  lemma NoBaseEntries(process: map<string, string>)
    ensures BaseEntries(process, []) == []
  {
  }

  lemma {:induction false} AcceptedAreNotReserved(extras: seq<Entry>, seen: set<string>)
    ensures forall e :: e in Accepted(extras, seen) ==> !IsReserved(e.name)
  {
    hide ValidateEntry, IsReserved;
    if extras != [] {
      if IsValid(extras[0]) {
        ValidIsNotReserved(extras[0]);
      }
      AcceptedAreNotReserved(extras[1..], seen);
      AcceptedAreNotReserved(extras[1..], seen + {extras[0].name});
    }
  }

  /** The list begins with the runtime's own variables, and nothing after them has one of their names in any spelling. */
  lemma ListBeginsWithBase(process: map<string, string>, extras: seq<Entry>)
    ensures BaseSlots(process) <= Environment(process, extras)
    ensures forall e :: e in Environment(process, extras)[|BaseSlots(process)|..] ==> !IsReserved(e.name)
  {
    hide BaseEntries, BaseSlots, Accepted, IsReserved, BASE_ENV_VARS;
    BaseEntriesAreSlots(process);
    AcceptedAreNotReserved(extras, Names(BaseEntries(process, BASE_ENV_VARS)));
  }

  /**
   Where the process has no usable value, PATH, SHELL, TERM, LANG and LC_ALL are set to these values and nothing else,
   and HOME, USER and TMPDIR are not set.
   */
  lemma FallbacksApply(process: map<string, string>, extras: seq<Entry>, e: Entry)
    requires !IsUsable(process, e.name)
    ensures e.name == "PATH" ==> (e in Environment(process, extras) <==> e.value == "/usr/bin:/bin:/usr/sbin:/sbin")
    ensures e.name == "SHELL" ==> (e in Environment(process, extras) <==> e.value == "/bin/zsh")
    ensures e.name == "TERM" ==> (e in Environment(process, extras) <==> e.value == "xterm-256color")
    ensures e.name == "LANG" || e.name == "LC_ALL" ==>
              (e in Environment(process, extras) <==> e.value == "en_US.UTF-8")
    ensures e.name == "HOME" || e.name == "USER" || e.name == "TMPDIR" ==> e !in Environment(process, extras)
  {
    hide ReadBaseValue, Environment, DefaultBaseValue, IsReserved, IsFirstValid;
    DefaultsAre();
    UnusableReadsDefault(process, e.name);
    if e.name in ["PATH", "HOME", "SHELL", "TERM", "USER", "LANG", "LC_ALL", "TMPDIR"] {
      ListedBaseValue(process, extras, e);
    }
  }

  lemma UnusableReadsDefault(process: map<string, string>, name: string)
    requires !IsUsable(process, name)
    ensures ReadBaseValue(process, name) == DefaultBaseValue(name)
  {
    hide Utf8Length, DefaultBaseValue;
    DefaultsAreUsable(name);
  }

  lemma ListedBaseValue(process: map<string, string>, extras: seq<Entry>, e: Entry)
    requires e.name in BASE_ENV_VARS
    ensures e in Environment(process, extras) <==> ReadBaseValue(process, e.name) == Some(e.value)
  {
    hide BASE_ENV_VARS, ReadBaseValue, Environment, IsReserved, IsFirstValid;
    BaseNamesAreReserved();
    EnvironmentMeetsSpec(process, extras);
  }

  // ---------- Idempotence ----------

  lemma {:induction false} InvalidAreSkipped(a: seq<Entry>, b: seq<Entry>, seen: set<string>)
    requires forall e :: e in a ==> !IsValid(e)
    ensures Accepted(a + b, seen) == Accepted(b, seen)
  {
    hide ValidateEntry, IsValid;
    if a == [] {
      assert a + b == b;
    } else {
      assert (a + b)[1..] == a[1..] + b;
      InvalidAreSkipped(a[1..], b, seen);
    }
  }

  lemma {:induction false} AcceptedAreAcceptedAgain(entries: seq<Entry>, seen: set<string>)
    requires DistinctNames(entries) && forall e :: e in entries ==> IsValid(e) && e.name !in seen
    ensures Accepted(entries, seen) == entries
  {
    hide ValidateEntry, IsValid;
    if entries != [] {
      forall e | e in entries[1..] ensures e.name !in seen + {entries[0].name} {
        var i :| 0 < i < |entries| && entries[i] == e;
      }
      AcceptedAreAcceptedAgain(entries[1..], seen + {entries[0].name});
    }
  }

  /** In one process environment, feeding the list back as extras gives the same list. */
  lemma EnvironmentIsIdempotent(process: map<string, string>, extras: seq<Entry>)
    ensures Environment(process, Environment(process, extras)) == Environment(process, extras)
  {
    hide BASE_ENV_VARS, ReadBaseValue, ValidateEntry, IsReserved, IsValid, IsFirstValid, Accepted;
    var base := BaseEntries(process, BASE_ENV_VARS);
    var accepted := Accepted(extras, Names(base));
    BaseNamesAreReserved();
    BaseEntriesAreReserved(process, BASE_ENV_VARS);
    AcceptedAreFirstValid(extras, Names(base));
    forall e | e in base ensures !IsValid(e) {
      ReservedNamesAreInvalid(e.name, e.value);
    }
    forall e | e in accepted ensures IsValid(e) && e.name !in Names(base) {
      var i :| 0 <= i < |extras| && extras[i] == e && IsFirstValid(extras, Names(base), i);
      FirstValidIsValid(extras, Names(base), i);
    }
    InvalidAreSkipped(base, accepted, Names(base));
    AcceptedAreAcceptedAgain(accepted, Names(base));
  }

  lemma FirstValidIsValid(extras: seq<Entry>, seen: set<string>, i: nat)
    requires i < |extras| && IsFirstValid(extras, seen, i)
    ensures IsValid(extras[i]) && extras[i].name !in seen
  {
  }

  // ---------- Names that differ only in case ----------

  /** Names that every check treats alike are spelled alike. */
  ghost predicate CaseDistinct(entries: seq<Entry>) {
    forall e, f :: e in entries && f in entries && Normalize(e.name) == Normalize(f.name) ==> e.name == f.name
  }

  lemma FirstValidOfName(extras: seq<Entry>, i: nat) returns (k: nat)
    requires i < |extras| && IsValid(extras[i])
    ensures k <= i && extras[k].name == extras[i].name && IsFirstValid(extras, {}, k)
  {
    hide ValidateEntry, IsValid;
    k := 0;
    while !(IsValid(extras[k]) && extras[k].name == extras[i].name)
      invariant k <= i
      invariant forall j :: 0 <= j < k ==> !(IsValid(extras[j]) && extras[j].name == extras[i].name)
      decreases i - k
    {
      k := k + 1;
    }
  }

  lemma ValidIsNotReserved(e: Entry)
    requires IsValid(e)
    ensures !IsReserved(e.name)
  {
  }

  /** A valid extra's name is in the list, though perhaps with an earlier extra's value. */
  lemma ValidNamesAreListed(process: map<string, string>, extras: seq<Entry>, i: nat) returns (e: Entry)
    requires i < |extras| && IsValid(extras[i])
    ensures e in Environment(process, extras) && e.name == extras[i].name
  {
    hide ValidateEntry, IsValid, IsReserved, IsFirstValid, Environment;
    var k := FirstValidOfName(extras, i);
    e := extras[k];
    ValidIsNotReserved(extras[i]);
    EnvironmentMeetsSpec(process, extras);
  }

  lemma BaseNamesAreUpperCase(name: string)
    requires name in BASE_ENV_VARS
    ensures Normalize(name) == name
  {
    hide BASE_ENV_VARS;
    var i :| 0 <= i < |BASE_ENV_VARS| && BASE_ENV_VARS[i] == name;
    BaseNamesAreReserved();
  }

  lemma ReservedIfSpelledAlike(e: Entry, f: Entry)
    requires Normalize(e.name) == Normalize(f.name)
    ensures IsReserved(e.name) <==> IsReserved(f.name)
  {
  }

  lemma ListedNamesMeet(process: map<string, string>, extras: seq<Entry>, e: Entry, f: Entry)
    requires e in Environment(process, extras) && f in Environment(process, extras)
    requires Normalize(e.name) == Normalize(f.name)
    requires CaseDistinct(ValidOnly(extras))
    ensures e.name == f.name
  {
    hide BASE_ENV_VARS, ReadBaseValue, ValidateEntry, IsReserved, IsValid, Environment;
    EnvironmentMeetsSpec(process, extras);
    ReservedIfSpelledAlike(e, f);
    if IsReserved(e.name) {
      BaseNamesAreUpperCase(e.name);
      BaseNamesAreUpperCase(f.name);
    } else {
      ListedExtraIsValid(extras, e);
      ListedExtraIsValid(extras, f);
    }
  }

  lemma ListedExtraIsValid(extras: seq<Entry>, e: Entry)
    requires exists i :: 0 <= i < |extras| && extras[i] == e && IsFirstValid(extras, {}, i)
    ensures e in ValidOnly(extras)
  {
    hide ValidateEntry, IsValid;
    var i :| 0 <= i < |extras| && extras[i] == e && IsFirstValid(extras, {}, i);
    ValidOnlyHolds(extras, e);
  }

  /** The extras that pass validation. */
  function ValidOnly(extras: seq<Entry>): seq<Entry> {
    if extras == [] then [] else (if IsValid(extras[0]) then [extras[0]] else []) + ValidOnly(extras[1..])
  }

  lemma {:induction false} ValidOnlyHolds(extras: seq<Entry>, e: Entry)
    ensures e in ValidOnly(extras) <==> e in extras && IsValid(e)
  {
    hide ValidateEntry, IsValid;
    if extras != [] {
      ValidOnlyHolds(extras[1..], e);
      assert extras == [extras[0]] + extras[1..];
    }
  }

  /**
   Names in the list are told apart by exact spelling alone. They also differ when case is ignored if and only if no two
   valid extras have names that differ in case only; the runtime's own variables never get such a companion.
   */
  lemma CaseDistinctIff(process: map<string, string>, extras: seq<Entry>)
    ensures CaseDistinct(Environment(process, extras)) <==> CaseDistinct(ValidOnly(extras))
  {
    hide ValidateEntry, IsValid, Environment, Normalize, ValidOnly;
    var list := Environment(process, extras);
    if CaseDistinct(ValidOnly(extras)) {
      forall e, f | e in list && f in list && Normalize(e.name) == Normalize(f.name) ensures e.name == f.name {
        ListedNamesMeet(process, extras, e, f);
      }
    }
    if CaseDistinct(list) {
      var valid := ValidOnly(extras);
      forall e, f | e in valid && f in valid && Normalize(e.name) == Normalize(f.name) ensures e.name == f.name {
        var e' := ListedUnder(process, extras, e);
        var f' := ListedUnder(process, extras, f);
        assert Normalize(e'.name) == Normalize(f'.name);
      }
    }
  }

  lemma ListedUnder(process: map<string, string>, extras: seq<Entry>, e: Entry) returns (listed: Entry)
    requires e in ValidOnly(extras)
    ensures listed in Environment(process, extras) && listed.name == e.name
  {
    hide ValidateEntry, IsValid, Environment, ValidOnly;
    ValidOnlyHolds(extras, e);
    var i :| 0 <= i < |extras| && extras[i] == e;
    listed := ValidNamesAreListed(process, extras, i);
  }

  /** `ci` and `CI` are two valid extras of that kind, so both are set. */
  lemma CaseVariantsCoexist(process: map<string, string>)
    ensures Normalize("ci") == Normalize("CI")
    ensures var extras := [Entry("ci", ""), Entry("CI", "")];
            forall e :: e in extras ==> e in Environment(process, extras)
  {
    hide BASE_ENV_VARS, ReadBaseValue, ValidateEntry, IsReserved, IsValid, Environment, Accepted;
    var extras := [Entry("ci", ""), Entry("CI", "")];
    assert Normalize("ci") == "CI" && Normalize("CI") == "CI";
    SpelledCiIsValid("ci");
    SpelledCiIsValid("CI");
    assert IsFirstValid(extras, {}, 0) && IsFirstValid(extras, {}, 1);
    EnvironmentMeetsSpec(process, extras);
  }

  lemma SpelledCiIsValid(name: string)
    requires |name| == 2 && Normalize(name) == "CI"
    ensures IsValid(Entry(name, "")) && !IsReserved(name)
  {
    hide BASE_ENV_VARS, IsReserved, IsBlocked;
    assert ALLOWED_EXTRA_ENV_NAMES[10] == "CI";
    DenylistNeverDecidesAtSpawn(name);
    AllowedIsNeverDenied(name);
    assert UpperChar(name[0]) == 'C' && UpperChar(name[1]) == 'I';
  }
}
