/** The feed-token store: a set of tokens read from one file, reloaded
    (debounced) when the watcher reports a change to exactly that file. The
    file read and the watcher's answers are inputs. */
module Auth {
  import opened Common
  import opened Text
  import opened Paths
  import opened Debounce
  import opened Watch

  /** What `os.ReadFile` returns for the token file. */
  datatype ReadResult = Read(data: string) | NotExist | ReadFailed(err: Error)

  /** No token is empty and every token is already trimmed. */
  predicate WellFormedTokens(tokens: set<string>) {
    forall t :: t in tokens ==> t != "" && TrimSpace(t) == t
  }

  /** Each line, trimmed. */
  function TrimLines(lines: seq<string>): (r: seq<string>)
    ensures |r| == |lines|
    ensures forall i :: 0 <= i < |lines| ==> r[i] == TrimSpace(lines[i])
  {
    seq(|lines|, i requires 0 <= i < |lines| => TrimSpace(lines[i]))
  }

  /** The non-empty strings of `s`. */
  function NonEmpty(s: seq<string>): set<string> {
    if s == [] then {}
    else NonEmpty(s[..|s| - 1]) + (if s[|s| - 1] != "" then {s[|s| - 1]} else {})
  }

  lemma {:induction false} NonEmptySound(s: seq<string>, t: string)
    requires t in NonEmpty(s)
    ensures t != "" && exists i :: 0 <= i < |s| && s[i] == t
  {
    var init := s[..|s| - 1];
    if t in NonEmpty(init) {
      NonEmptySound(init, t);
      var i :| 0 <= i < |init| && init[i] == t;
      assert s[i] == init[i];
    }
  }

  lemma {:induction false} NonEmptyComplete(s: seq<string>, i: nat)
    requires i < |s| && s[i] != ""
    ensures s[i] in NonEmpty(s)
  {
    var init := s[..|s| - 1];
    if i < |init| {
      NonEmptyComplete(init, i);
      assert s[i] == init[i];
    }
  }

  /** One more string adds itself, if it is not empty. */
  lemma NonEmptyStep(s: seq<string>, i: nat)
    requires i < |s|
    ensures NonEmpty(s[..i + 1]) == NonEmpty(s[..i]) + (if s[i] != "" then {s[i]} else {})
  {
    assert s[..i + 1][..i] == s[..i];
  }

  /** The tokens of a sequence of lines: each non-blank line, trimmed. */
  function TokensOf(lines: seq<string>): (tokens: set<string>)
    ensures WellFormedTokens(tokens)
  {
    var trimmed := TrimLines(lines);
    forall t | t in NonEmpty(trimmed) ensures t != "" && TrimSpace(t) == t {
      NonEmptySound(trimmed, t);
      var i :| 0 <= i < |trimmed| && trimmed[i] == t;
      TrimSpaceIdempotent(lines[i]);
    }
    NonEmpty(trimmed)
  }

  /** The loop of `refresh` over the lines of the file. */
  method CollectTokens(lines: seq<string>) returns (found: set<string>)
    ensures found == TokensOf(lines)
  {
    ghost var trimmed := TrimLines(lines);
    found := {};
    for i := 0 to |lines|
      invariant found == NonEmpty(trimmed[..i])
    {
      var token := TrimSpace(lines[i]);
      NonEmptyStep(trimmed, i);
      if token != "" {
        found := found + {token};
      }
    }
    assert trimmed[..|lines|] == trimmed;
    TokensOfTrimmed(lines);
  }

  lemma TokensOfTrimmed(lines: seq<string>)
    ensures TokensOf(lines) == NonEmpty(TrimLines(lines))
  {
  }

  /** The token file format: one token per line, surrounding white space
      ignored, blank lines skipped. */
  function ParseTokens(data: string): (tokens: set<string>)
    ensures WellFormedTokens(tokens)
  {
    TokensOf(Split(data, '\n'))
  }

  /** A token is valid for the lines of a file exactly when it is not
      blank and one of the lines, trimmed, is the token trimmed. */
  lemma ValidAgainstLines(lines: seq<string>, token: string, t: string)
    requires t == TrimSpace(token)
    ensures TokenValid(TokensOf(lines), token) <==>
            t != "" && exists i :: 0 <= i < |lines| && TrimSpace(lines[i]) == t
  {
    var trimmed := TrimLines(lines);
    if t != "" && t in NonEmpty(trimmed) {
      NonEmptySound(trimmed, t);
    }
    if t != "" && exists i :: 0 <= i < |lines| && TrimSpace(lines[i]) == t {
      var i :| 0 <= i < |lines| && TrimSpace(lines[i]) == t;
      NonEmptyComplete(trimmed, i);
    }
  }

  /** A file with a blank line, a padded token and a final newline. */
  lemma ExampleTokens(data: string)
    requires data == "alpha\n\n beta \n"
    ensures ParseTokens(data) == {"alpha", "beta"}
  {
    var alpha, padded, beta := "alpha", " beta ", "beta";
    var lines := [alpha, "", padded, ""];
    ExampleLines(data, alpha, padded, lines);
    TrimSpaceOfTrimmed(alpha);
    TrimBeta(padded, beta);
    var empty := "";
    TrimSpaceOfTrimmed(empty);
    TrimFourLines(alpha, empty, padded, empty);
    var trimmed := [alpha, empty, beta, empty];
    ExampleNonEmpty(trimmed, alpha, beta);
  }

  lemma TrimFourLines(a: string, b: string, c: string, d: string)
    ensures TrimLines([a, b, c, d]) == [TrimSpace(a), TrimSpace(b), TrimSpace(c), TrimSpace(d)]
  {
  }

  lemma ExampleNonEmpty(trimmed: seq<string>, alpha: string, beta: string)
    requires alpha != "" && beta != "" && trimmed == [alpha, "", beta, ""]
    ensures NonEmpty(trimmed) == {alpha, beta}
  {
    assert trimmed[..0] == [] && trimmed[..4] == trimmed;
    NonEmptyStep(trimmed, 0);
    NonEmptyStep(trimmed, 1);
    NonEmptyStep(trimmed, 2);
    NonEmptyStep(trimmed, 3);
  }

  lemma TrimBeta(s: string, beta: string)
    requires s == " beta " && beta == "beta"
    ensures TrimSpace(s) == beta
  {
    assert LeadingSpace(s[1..]) == 0;
    assert LeadingSpace(s) == 1;
    assert s[..|s| - 1][|s| - 2] == 'a';
    assert TrailingSpace(s[..|s| - 1]) == 0;
    assert TrailingSpace(s) == 1;
    assert s[1..5] == beta;
  }

  lemma ExampleLines(data: string, alpha: string, padded: string, lines: seq<string>)
    requires data == "alpha\n\n beta \n" && alpha == "alpha" && padded == " beta "
    requires lines == [alpha, "", padded, ""]
    ensures Split(data, '\n') == lines
  {
    var nl := "\n";
    assert lines[1..] == ["", padded, ""] && lines[1..][1..] == [padded, ""] && lines[1..][1..][1..] == [""];
    assert Join([padded, ""], nl) == padded + nl;
    assert Join(["", padded, ""], nl) == nl + padded + nl;
    assert Join(lines, nl) == alpha + nl + nl + padded + nl;
    assert alpha + nl + nl + padded + nl == data;
    assert '\n' !in alpha && '\n' !in padded;
    SplitJoin(lines, '\n');
  }

  /** `IsValidToken`'s test on a token set: the trimmed token, which must
      not be empty, is one of the tokens. */
  predicate TokenValid(tokens: set<string>, token: string) {
    var t := TrimSpace(token);
    t != "" && t in tokens
  }

  /** With well-formed tokens, validity is membership of the trimmed
      token: surrounding white space never matters and "" is never valid. */
  lemma TokenValidIsTrimmedMembership(tokens: set<string>, token: string)
    requires WellFormedTokens(tokens)
    ensures TokenValid(tokens, token) <==> TrimSpace(token) in tokens
    ensures TokenValid(tokens, token) <==> TokenValid(tokens, TrimSpace(token))
    ensures !TokenValid(tokens, "")
  {
    TrimSpaceIdempotent(token);
  }

  /** The events that concern the token file: exactly its cleaned path,
      with a create, write, remove or rename. */
  predicate ConcernsFile(event: Event, file: string) {
    Clean(event.name) == file && event.ops * Changes != {}
  }

  /** `TokenStore`: the cleaned path of the token file, the current token
      set, and the debounce and close machinery. */
  class TokenStore {
    const file: string
    var tokens: set<string>
    const timers: Debouncer

    /** The timer bookkeeping holds, a closed store has no handle, and the
        token set is well formed. */
    ghost predicate Valid()
      reads this, timers
    {
      && timers.Wf() && (timers.closed ==> timers.pending.None?)
      && WellFormedTokens(tokens)
    }

    /** `Valid`, with at most one timer armed, the one the handle names. */
    ghost predicate Debounced()
      reads this, timers
    {
      Valid() && timers.Debounced()
    }

    /** The fields `NewTokenStore` sets before the first read. */
    constructor (filePath: string)
      ensures file == Clean(filePath) && tokens == {}
      ensures fresh(timers) && Debounced() && timers.armed == {} && timers.firing == {}
      ensures timers.pending.None? && timers.created == 0
      ensures !timers.closed && timers.closeErr.None?
    {
      file := Clean(filePath);
      tokens := {};
      timers := new Debouncer();
    }

    /** `IsValidToken`: with well-formed tokens, exactly the tokens of
        the set, up to surrounding white space; never a blank token. */
    function IsValidToken(token: string): (b: bool)
      reads this
      ensures IsBlank(token) ==> !b
      ensures WellFormedTokens(tokens) ==> (b <==> TrimSpace(token) in tokens)
    {
      TrimSpaceIdempotent(token);
      TokenValid(tokens, token)
    }

    /** `refresh`: a missing file empties the set; another read error is
        returned and keeps the old set; otherwise the set becomes the
        file's tokens. */
    method Refresh(read: ReadResult) returns (err: Option<Error>)
      requires Valid()
      modifies this
      ensures Valid()
      ensures read.Read? ==> tokens == ParseTokens(read.data) && err.None?
      ensures read.NotExist? ==> tokens == {} && err.None?
      ensures read.ReadFailed? ==> tokens == old(tokens) && err == Some(read.err)
    {
      match read
      case NotExist =>
        tokens := {};
        return None;
      case ReadFailed(e) =>
        return Some(e);
      case Read(data) =>
        var found := CollectTokens(Split(data, '\n'));
        tokens := found;
        return None;
    }

    /** `scheduleRefresh`. */
    method ScheduleRefresh()
      requires Valid()
      modifies timers
      ensures Valid()
      ensures old(timers.closed) ==> unchanged(timers)
      ensures !old(timers.closed) ==>
        && timers.pending == Some(old(timers.created))
        && timers.armed == old(timers.armed) - Handle(old(timers.pending)) + {old(timers.created)}
        && timers.firing == old(timers.firing) && timers.created == old(timers.created) + 1
        && !timers.closed && timers.closeErr == old(timers.closeErr)
      ensures old(Debounced()) ==> Debounced()
    {
      timers.Schedule();
    }

    /** `handleEvent`: only events on the token file itself schedule a
        reload. */
    method HandleEvent(event: Event)
      requires Valid()
      modifies timers
      ensures Valid()
      ensures !ConcernsFile(event, file) || old(timers.closed) ==> unchanged(timers)
      ensures ConcernsFile(event, file) && !old(timers.closed) ==>
        && timers.pending == Some(old(timers.created))
        && timers.armed == old(timers.armed) - Handle(old(timers.pending)) + {old(timers.created)}
        && timers.firing == old(timers.firing) && timers.created == old(timers.created) + 1
        && !timers.closed && timers.closeErr == old(timers.closeErr)
      ensures old(Debounced()) ==> Debounced()
    {
      if Clean(event.name) != file {
        return;
      }
      if event.ops * Changes != {} {
        ScheduleRefresh();
      }
    }

    /** Timer `t` fires and its callback reloads the file; a failed read
        is only logged. */
    method FireTimer(t: nat, read: ReadResult)
      requires Valid() && t in timers.armed
      modifies this, timers
      ensures Valid()
      ensures read.Read? ==> tokens == ParseTokens(read.data)
      ensures read.NotExist? ==> tokens == {}
      ensures read.ReadFailed? ==> tokens == old(tokens)
      ensures timers.armed == old(timers.armed) - {t} && timers.firing == old(timers.firing) + {t}
      ensures timers.pending == old(timers.pending) && timers.created == old(timers.created)
      ensures timers.closed == old(timers.closed) && timers.closeErr == old(timers.closeErr)
      ensures old(Debounced()) ==> Debounced()
    {
      timers.Fire(t);
      var _ := Refresh(read);
    }

    /** The end of timer `t`'s callback as the store does it: the handle is
        cleared even when it names a timer armed after `t` fired, which
        `Close` then cannot stop. */
    method FinishTimerAsWritten(t: nat)
      requires Valid() && t in timers.firing
      modifies timers
      ensures Valid()
      ensures timers.pending.None? && timers.armed == old(timers.armed)
      ensures timers.firing == old(timers.firing) - {t} && timers.created == old(timers.created)
      ensures timers.closed == old(timers.closed) && timers.closeErr == old(timers.closeErr)
    {
      timers.FinishUnguarded(t);
    }

    /** The end of timer `t`'s callback, clearing the handle only when it
        still names `t`, as `Library` does; this keeps the debounce
        guarantee. */
    method FinishTimer(t: nat)
      requires Valid() && t in timers.firing
      modifies timers
      ensures Valid()
      ensures timers.pending == (if old(timers.pending) == Some(t) then None else old(timers.pending))
      ensures timers.armed == old(timers.armed)
      ensures timers.firing == old(timers.firing) - {t} && timers.created == old(timers.created)
      ensures timers.closed == old(timers.closed) && timers.closeErr == old(timers.closeErr)
      ensures old(Debounced()) ==> Debounced()
    {
      timers.Finish(t);
    }

    /** `Close`: tears down once and returns the same error every time. */
    method Close(watcherErr: Option<Error>) returns (err: Option<Error>)
      requires Valid()
      modifies timers
      ensures Valid()
      ensures err == timers.closeErr && timers.closed && timers.pending.None?
      ensures old(timers.closed) ==> unchanged(timers)
      ensures !old(timers.closed) ==>
        && timers.armed == old(timers.armed) - Handle(old(timers.pending)) && timers.closeErr == watcherErr
        && timers.firing == old(timers.firing) && timers.created == old(timers.created)
      ensures old(Debounced()) ==> Debounced() && timers.armed == {}
    {
      err := timers.Close(watcherErr);
    }
  }

  /** `NewTokenStore`: creates the watcher, reads the file, watches its
      directory and then the file itself. A watcher that cannot be created,
      a failed first read and a directory that cannot be watched each fail
      construction, in that order; a file that cannot be watched directly
      is only logged. `watchCalls` lists the paths handed to the watcher,
      in order: none before the first read has succeeded. */
  method NewTokenStore(filePath: string, watcherErr: Option<Error>, read: ReadResult,
                       dirWatchErr: Option<Error>, fileWatchErr: Option<Error>)
    returns (store: TokenStore?, err: Option<Error>, watchCalls: seq<string>)
    ensures watcherErr.Some? ==> store == null && err == watcherErr && watchCalls == []
    ensures watcherErr.None? && read.ReadFailed? ==> store == null && err == Some(read.err) && watchCalls == []
    ensures watcherErr.None? && !read.ReadFailed? ==> |watchCalls| >= 1 && watchCalls[0] == Dir(Clean(filePath))
    ensures watcherErr.None? && !read.ReadFailed? && dirWatchErr.Some? ==>
              store == null && err == dirWatchErr && watchCalls == [Dir(Clean(filePath))]
    ensures watcherErr.None? && !read.ReadFailed? && dirWatchErr.None? ==>
      && err.None? && watchCalls == [Dir(Clean(filePath)), Clean(filePath)]
      && store != null && fresh(store) && fresh(store.timers) && store.Debounced()
      && store.file == Clean(filePath)
      && store.tokens == (if read.Read? then ParseTokens(read.data) else {})
      && !store.timers.closed && store.timers.armed == {}
  {
    watchCalls := [];
    if watcherErr.Some? {
      return null, watcherErr, watchCalls;
    }
    var s := new TokenStore(filePath);
    var refreshErr := s.Refresh(read);
    if refreshErr.Some? {
      return null, refreshErr, watchCalls;
    }
    var file := s.file;
    var dir := Dir(file);
    if dirWatchErr.Some? {
      return null, dirWatchErr, [dir];
    }
    assert s.Debounced() && s.timers.armed == {} && !s.timers.closed;
    return s, None, [dir, file];
  }

  /** The interleaving that defeats the store's close: timer 0 fires, a new
      event arms timer 1 while timer 0's callback still runs, the callback
      then clears the handle that names timer 1, and `Close` finds no handle
      to stop: timer 1 is still armed after the close. */
  method CloseAfterUnguardedClear(filePath: string, early: string) returns (s: TokenStore)
    ensures fresh(s) && fresh(s.timers)
    ensures s.Valid() && s.timers.closed && s.timers.armed == {1} && s.timers.pending.None?
  {
    s := new TokenStore(filePath);
    s.ScheduleRefresh();
    assert s.timers.armed == {0} && s.timers.created == 1;
    s.FireTimer(0, Read(early));
    assert s.timers.pending == Some(0) && s.timers.firing == {0};
    s.ScheduleRefresh();
    assert s.timers.armed == {1} && !s.timers.closed;
    s.FinishTimerAsWritten(0);
    assert s.timers.armed == {1} && s.timers.pending.None?;
    var _ := s.Close(None);
  }

  /** ... and timer 1 then fires after the store is closed, reloading the
      tokens. */
  method LateReloadAsWritten(filePath: string, early: string, late: string) returns (s: TokenStore)
    ensures s.timers.closed && s.tokens == ParseTokens(late)
  {
    s := CloseAfterUnguardedClear(filePath, early);
    s.FireTimer(1, Read(late));
  }

  /** The same interleaving with the handle cleared only when it still
      names the finishing timer: `Close` stops timer 1, nothing is left
      that could fire, and the tokens stay those of the last reload before
      the close. */
  method LateReloadCorrected(filePath: string, early: string) returns (s: TokenStore)
    ensures s.timers.closed && s.timers.armed == {} && s.tokens == ParseTokens(early)
  {
    s := new TokenStore(filePath);
    s.ScheduleRefresh();
    s.FireTimer(0, Read(early));
    s.ScheduleRefresh();
    s.FinishTimer(0);
    var _ := s.Close(None);
  }
}
