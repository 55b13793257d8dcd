/** Run-time configuration: the audio extensions, the listen address and
    its localhost check, the refresh debounce delay, and the feed metadata
    layered from defaults, an optional YAML file and the environment. The
    environment values and the outcome of loading the YAML file are
    inputs. */
module Config {
  import opened Common
  import opened Text
  import opened Decimal

  /** `allowedExtensions`. */
  const AllowedExtensionList: seq<string> := [".mp3", ".m4a", ".aac", ".wav", ".flac", ".ogg"]

  const DefaultListenAddr: string := "127.0.0.1:8080"
  const DefaultRefreshDebounceMs: nat := 500
  /** `time.Millisecond`, in nanoseconds. */
  const Millisecond: nat := 1_000_000
  const DefaultFeedTitle: string := "Home Podcast"
  const DefaultFeedDescription: string := "Private podcast feed generated from the local audio library."
  const DefaultFeedLanguage: string := "en"

  /** Every listed extension is already in lower case. */
  lemma AllowedExtensionsAreLower(i: nat)
    requires i < |AllowedExtensionList|
    ensures ToLower(AllowedExtensionList[i]) == AllowedExtensionList[i]
  {
    var e := AllowedExtensionList[i];
    assert forall k :: 0 <= k < |e| ==> !('A' <= e[k] <= 'Z');
  }

  /** `AllowedExtensions`: a new array holding the list. */
  method AllowedExtensions() returns (result: array<string>)
    ensures fresh(result) && result[..] == AllowedExtensionList
  {
    result := new string[|AllowedExtensionList|];
    for i := 0 to |AllowedExtensionList|
      invariant result[..i] == AllowedExtensionList[..i]
    {
      result[i] := AllowedExtensionList[i];
    }
  }

  /** A caller that overwrites every entry of the array it got cannot
      change what the next call returns. */
  method AllowedExtensionsAfterMutation(replacement: string) returns (second: seq<string>)
    ensures second == AllowedExtensionList
  {
    var first := AllowedExtensions();
    for i := 0 to first.Length
      invariant first[i..] == AllowedExtensionList[i..]
    {
      first[i] := replacement;
    }
    var again := AllowedExtensions();
    second := again[..];
  }

  /** `ListenAddr`, given the value of `PODCAST_LISTEN_ADDR`. */
  function ListenAddr(env: string): (addr: string)
    ensures addr != ""
    ensures IsBlank(env) ==> addr == DefaultListenAddr
    ensures !IsBlank(env) ==> addr == TrimSpace(env)
  {
    var addr := TrimSpace(env);
    if addr == "" then DefaultListenAddr else addr
  }

  /** Feeding the address back in changes nothing: it is already trimmed
      and never blank. */
  lemma ListenAddrIdempotent(env: string)
    ensures ListenAddr(ListenAddr(env)) == ListenAddr(env)
  {
    TrimSpaceIdempotent(env);
    if IsBlank(env) {
      DefaultListenAddrTrimmed(DefaultListenAddr);
    }
  }

  lemma DefaultListenAddrTrimmed(addr: string)
    requires addr == DefaultListenAddr
    ensures TrimSpace(addr) == addr
  {
    assert !IsSpace(addr[0]) && !IsSpace(addr[|addr| - 1]);
    TrimSpaceOfTrimmed(addr);
  }

  /** The prefixes `ValidateListenAddr` accepts. */
  predicate LocalhostPrefixed(a: string) {
    HasPrefix(a, "127.0.0.1:") || HasPrefix(a, "localhost:") || HasPrefix(a, "[::1]:")
  }

  /** `ValidateListenAddr`: None when the address, lower-cased and
      trimmed, binds to a loopback host; the security error otherwise. */
  function ValidateListenAddr(addr: string): (r: Option<Error>)
    ensures r.None? <==> LocalhostPrefixed(TrimSpace(ToLower(addr)))
    ensures r.Some? ==> r.value == Error("listen address must bind to localhost for security")
  {
    var a := TrimSpace(ToLower(addr));
    if LocalhostPrefixed(a) then None
    else Some(Error("listen address must bind to localhost for security"))
  }

  /** The check ignores letter case. */
  lemma ValidateIgnoresCase(addr: string)
    ensures ValidateListenAddr(ToLower(addr)) == ValidateListenAddr(addr)
  {
    LowerIdempotent(addr);
  }

  /** The default address passes the check. */
  lemma DefaultListenAddrValid(env: string)
    requires IsBlank(env)
    ensures ValidateListenAddr(ListenAddr(env)).None?
  {
    var a := DefaultListenAddr;
    assert ToLower(a) == a;
    DefaultListenAddrTrimmed(a);
    assert a[..10] == "127.0.0.1:";
  }

  /** A port with no host, and the wildcard host, are refused. */
  lemma WildcardRejected(bare: string, wildcard: string)
    requires bare == ":8080" && wildcard == "0.0.0.0:80"
    ensures ValidateListenAddr(bare).Some? && ValidateListenAddr(wildcard).Some?
  {
    assert ToLower(bare) == bare;
    RejectedByFirstChar(bare);
    assert ToLower(wildcard) == wildcard;
    RejectedByFirstChar(wildcard);
  }

  /** An address already lower-case and trimmed whose first character
      starts none of the accepted prefixes is refused. */
  lemma RejectedByFirstChar(a: string)
    requires a != [] && !IsSpace(a[0]) && !IsSpace(a[|a| - 1]) && ToLower(a) == a
    requires a[0] != '1' && a[0] != 'l' && a[0] != '['
    ensures ValidateListenAddr(a).Some?
  {
    TrimSpaceOfTrimmed(a);
  }

  /** `RefreshDebounce`, given the value of `PODCAST_REFRESH_DEBOUNCE_MS`,
      as a `time.Duration` in nanoseconds: 500 ms for a blank, non-integer
      or negative value, otherwise the value in milliseconds, the int64
      product wrapping as Go's does. */
  function RefreshDebounce(env: string): (ns: int)
    ensures MinInt64 <= ns <= MaxInt64
  {
    var value := TrimSpace(env);
    if value == "" then DefaultRefreshDebounceMs * Millisecond
    else
      var ms := Atoi(value);
      if ms.None? || ms.value < 0 then DefaultRefreshDebounceMs * Millisecond
      else WrapInt64(ms.value * Millisecond)
  }

  /** The fallback cases all give 500 ms. */
  lemma RefreshDebounceFallback(env: string)
    requires IsBlank(env) || Atoi(TrimSpace(env)).None? || Atoi(TrimSpace(env)).value < 0
    ensures RefreshDebounce(env) == 500 * Millisecond
  {
  }

  /** A non-negative decimal number of milliseconds is used as given, as
      long as the nanosecond count fits in an int64. */
  lemma RefreshDebounceOfMillis(n: nat)
    requires n * Millisecond <= MaxInt64
    ensures RefreshDebounce(NatToString(n)) == n * Millisecond
  {
    var s := NatToString(n);
    assert !IsSpace(s[0]) && !IsSpace(s[|s| - 1]);
    TrimSpaceOfTrimmed(s);
    AtoiOfNatToString(n);
  }

  /** A value is used only when it parses to a non-negative number: the
      result is 500 ms or a whole number of milliseconds reduced to int64. */
  lemma RefreshDebounceUsesValue(env: string)
    requires RefreshDebounce(env) != 500 * Millisecond
    ensures Atoi(TrimSpace(env)).Some? && Atoi(TrimSpace(env)).value >= 0
    ensures RefreshDebounce(env) == WrapInt64(Atoi(TrimSpace(env)).value * Millisecond)
  {
  }

  /** Any value `strconv.Atoi` accepts as non-negative is used, whatever
      its spelling (a leading `+`, leading zeros, surrounding space): the
      result is that many milliseconds reduced to int64. */
  lemma RefreshDebounceOfValue(env: string)
    requires !IsBlank(env) && Atoi(TrimSpace(env)).Some? && Atoi(TrimSpace(env)).value >= 0
    ensures RefreshDebounce(env) == WrapInt64(Atoi(TrimSpace(env)).value * Millisecond)
    ensures Atoi(TrimSpace(env)).value * Millisecond <= MaxInt64 ==>
              RefreshDebounce(env) == Atoi(TrimSpace(env)).value * Millisecond
  {
  }

  /** `+7` and ` 007 ` both mean 7 ms. */
  lemma RefreshDebounceSpellings(signed: string, padded: string)
    requires signed == "+7" && padded == " 007 "
    ensures RefreshDebounce(signed) == 7 * Millisecond
    ensures RefreshDebounce(padded) == 7 * Millisecond
  {
    TrimSpaceOfTrimmed(signed);
    assert signed[1..] == "7";
    assert DigitsValue("7") == 7;
    PaddedSeven(padded);
  }

  lemma PaddedSeven(padded: string)
    requires padded == " 007 "
    ensures TrimSpace(padded) == "007" && Atoi("007") == Some(7)
  {
    assert padded[1..][0] == '0' && padded[..4][3] == '7';
    assert LeadingSpace(padded) == 1;
    assert TrailingSpace(padded) == 1;
    assert padded[1..4] == "007";
    assert DigitsValue("007") == 7 by {
      assert "007"[..2] == "00";
      assert "00"[..1] == "0";
    }
  }

  /** A negative number falls back to the default. */
  lemma NegativeDebounceFallsBack(env: string)
    requires env == "-10"
    ensures RefreshDebounce(env) == 500 * Millisecond
  {
    TrimSpaceOfTrimmed(env);
    assert env[1..] == "10";
    assert DigitsValue("10") == 10 by {
      assert "10"[..1] == "1";
    }
  }

  /** Text that is not a number falls back to the default. */
  lemma NonNumericDebounceFallsBack(env: string)
    requires env == "not-a-number"
    ensures RefreshDebounce(env) == 500 * Millisecond
  {
    TrimSpaceOfTrimmed(env);
    assert !IsDigit(env[0]);
  }

  /** `FeedMetadata`. */
  datatype FeedMetadata = FeedMetadata(title: string, description: string, language: string, author: string)

  /** The four string fields of the YAML file or of the environment. */
  datatype FeedFields = FeedFields(title: string, description: string, language: string, author: string)

  /** Resolving, reading and parsing the configured YAML file. */
  datatype ConfigLoad = LoadFailed(err: Error) | Loaded(fields: FeedFields)

  const DefaultFeedMetadata: FeedMetadata :=
    FeedMetadata(DefaultFeedTitle, DefaultFeedDescription, DefaultFeedLanguage, "")

  /** A value replaces the current one when it is not blank, trimmed. */
  function Override(current: string, value: string): (r: string)
    ensures IsBlank(value) ==> r == current
    ensures !IsBlank(value) ==> r == TrimSpace(value)
  {
    var v := TrimSpace(value);
    if v != "" then v else current
  }

  /** Every non-blank field replaces the matching field of `meta`. */
  function Layer(meta: FeedMetadata, fields: FeedFields): FeedMetadata {
    FeedMetadata(
      Override(meta.title, fields.title),
      Override(meta.description, fields.description),
      Override(meta.language, fields.language),
      Override(meta.author, fields.author))
  }

  /** The outcome `ResolveFeedMetadata` promises: defaults, then the YAML
      file when `PODCAST_FEED_CONFIG` is not blank (its failure is the
      result), then the environment. */
  function ResolvedFeedMetadata(configEnv: string, load: ConfigLoad, env: FeedFields): Result<FeedMetadata, Error> {
    if IsBlank(configEnv) then Success(Layer(DefaultFeedMetadata, env))
    else match load
      case LoadFailed(e) => Failure(e)
      case Loaded(y) => Success(Layer(Layer(DefaultFeedMetadata, y), env))
  }

  /** One block of overrides in `ResolveFeedMetadata`: each field of
      `fields` that is not blank, trimmed, replaces the field of `meta`. */
  method ApplyFields(meta: FeedMetadata, fields: FeedFields) returns (m: FeedMetadata)
    ensures m == Layer(meta, fields)
  {
    m := meta;
    var value := TrimSpace(fields.title);
    if value != "" { m := m.(title := value); }
    assert m.title == Override(meta.title, fields.title);
    value := TrimSpace(fields.description);
    if value != "" { m := m.(description := value); }
    assert m.description == Override(meta.description, fields.description);
    value := TrimSpace(fields.language);
    if value != "" { m := m.(language := value); }
    assert m.language == Override(meta.language, fields.language);
    value := TrimSpace(fields.author);
    if value != "" { m := m.(author := value); }
  }

  /** `ResolveFeedMetadata`: overwrites the fields of `meta` one at a
      time. */
  method ResolveFeedMetadata(configEnv: string, load: ConfigLoad, env: FeedFields)
    returns (r: Result<FeedMetadata, Error>)
    ensures r == ResolvedFeedMetadata(configEnv, load, env)
  {
    var meta := DefaultFeedMetadata;
    var configPath := TrimSpace(configEnv);
    if configPath != "" {
      if load.LoadFailed? {
        return Failure(load.err);
      }
      meta := ApplyFields(meta, load.fields);
    }
    meta := ApplyFields(meta, env);
    return Success(meta);
  }

  /** Resolution fails exactly when a file is configured and cannot be
      loaded, with that error. */
  lemma FeedMetadataFailure(configEnv: string, load: ConfigLoad, env: FeedFields)
    ensures ResolvedFeedMetadata(configEnv, load, env).Failure? <==> !IsBlank(configEnv) && load.LoadFailed?
    ensures ResolvedFeedMetadata(configEnv, load, env).Failure? ==> ResolvedFeedMetadata(configEnv, load, env).error == load.err
  {
  }

  /** A non-blank environment value wins over the file and the default. */
  lemma EnvironmentBeatsFile(configEnv: string, load: ConfigLoad, env: FeedFields)
    requires ResolvedFeedMetadata(configEnv, load, env).Success?
    ensures var m := ResolvedFeedMetadata(configEnv, load, env).value;
      && (!IsBlank(env.title) ==> m.title == TrimSpace(env.title))
      && (!IsBlank(env.description) ==> m.description == TrimSpace(env.description))
      && (!IsBlank(env.language) ==> m.language == TrimSpace(env.language))
      && (!IsBlank(env.author) ==> m.author == TrimSpace(env.author))
  {
  }

  /** With a blank environment value, a non-blank file value wins over the
      default. */
  lemma FileBeatsDefault(configEnv: string, y: FeedFields, env: FeedFields)
    requires !IsBlank(configEnv)
    ensures var m := ResolvedFeedMetadata(configEnv, Loaded(y), env).value;
      && (IsBlank(env.title) && !IsBlank(y.title) ==> m.title == TrimSpace(y.title))
      && (IsBlank(env.description) && !IsBlank(y.description) ==> m.description == TrimSpace(y.description))
      && (IsBlank(env.language) && !IsBlank(y.language) ==> m.language == TrimSpace(y.language))
      && (IsBlank(env.author) && !IsBlank(y.author) ==> m.author == TrimSpace(y.author))
  {
  }

  /** Blank values never override: with nothing supplied, the defaults
      stand, and the author, which has no default, stays empty. */
  lemma BlankKeepsDefaults(configEnv: string, load: ConfigLoad, env: FeedFields)
    requires IsBlank(env.title) && IsBlank(env.description) && IsBlank(env.language) && IsBlank(env.author)
    requires IsBlank(configEnv) || (load.Loaded? && IsBlank(load.fields.title) && IsBlank(load.fields.description)
                                     && IsBlank(load.fields.language) && IsBlank(load.fields.author))
    ensures ResolvedFeedMetadata(configEnv, load, env) == Success(DefaultFeedMetadata)
    ensures ResolvedFeedMetadata(configEnv, load, env).value.author == ""
  {
  }

  /** The author is empty unless the file or the environment supplies a
      non-blank one. */
  lemma AuthorHasNoDefault(configEnv: string, load: ConfigLoad, env: FeedFields)
    requires ResolvedFeedMetadata(configEnv, load, env).Success?
    requires ResolvedFeedMetadata(configEnv, load, env).value.author != ""
    ensures !IsBlank(env.author) || (!IsBlank(configEnv) && load.Loaded? && !IsBlank(load.fields.author))
  {
  }
}
