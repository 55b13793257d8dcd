# home-podcast, modelled in Dafny

home-podcast serves a directory of audio files as a private podcast. A
`Library` watches the audio directory, rescans it after a debounce delay
and publishes a sorted snapshot of episodes. A `TokenStore` watches a
token file and reloads the set of feed tokens it holds. The HTTP handler
does four things:

- it takes a token from each request and checks it against the store;
- it works out the scheme and host of the feed's links;
- it guards audio paths against traversal;
- it renders the RSS feed: the items are ordered newest first, and every
  enclosure link is an https URL.

The configuration layer supplies five things: the audio extensions, the
localhost-only listen address, the debounce delay, and the feed
metadata, layered from defaults, an optional YAML file and the
environment.

This project models that core as Dafny code and proves what it promises.
The modules follow the Go packages:

- `Watch`: the events of a filesystem watcher.
- `Debounce`: the timer handle and the once-only close that `Library`
  and `TokenStore` share. It is modelled as a class whose timer firing
  is an explicit step.
- `Library` (internal/library/library.go): class `Library`.
- `Auth` (internal/auth/token_store.go): class `TokenStore`.
- `Metadata` (internal/metadata/metadata.go).
- `Config` (internal/config/config.go).
- `Server` (internal/server/server.go).
- `Models` (internal/models/episode.go).

Some modules model the parts of Go's standard library that the code
relies on:

- `Text` (`strings`, ASCII only);
- `Decimal` (`%d`, `%02d`, `strconv.Atoi`, int64);
- `Paths` (`filepath.Clean`, `Rel`, `Base`, `Ext`, `Dir`, for '/' paths);
- `Sorting` (`sort.SliceStable`, as a stable insertion sort, with an
  in-place array version proved equal to it).

Everything outside the program becomes an input:

- the filesystem: a directory walk is a sequence of entries, a file read
  is `Read(data)`, `NotExist` or `ReadFailed(err)`, and `os.Stat` is a
  boolean or a `FileInfo`;
- the tag reader and the MP3 decoder (their results);
- the environment variables (their values);
- the YAML loader (its outcome);
- the clock (`now`);
- the watcher's own errors.

Notes on the code as written:

- `Library.refresh` can never fail. The walk callback at
  internal/library/library.go:141-163 returns nil for every error, so
  `filepath.WalkDir` returns nil. The failure branch of `NewLibrary` at
  internal/library/library.go:64-67 is therefore unreachable, and
  `Library.NewLibrary` fails only when no watcher can be created.
- `requestBaseURL` ignores TLS whenever `X-Forwarded-Proto` is present,
  even if the first element of that header is blank. Such a request
  gets the "http" scheme while `isHTTPSRequest` calls it HTTPS
  (`Server.BlankFirstForwardedIgnoresTls`).
- The auth cookie is read only behind a present, non-Bearer
  `Authorization` value (`Server.CookieNeedsAuthorization`).

## Model

| member | source | states |
|---|---|---|
| Debounce.Debouncer.Arm | internal/library/library.go:190-210 | The locked part of `scheduleRefresh`: it stops the timer the handle names, arms a new timer and points the handle at it. The debounce guarantee is kept exactly when the machine is still open. |
| Debounce.Debouncer.Schedule | internal/library/library.go:183-211 | The corrected `scheduleRefresh`, with the test of `done` made together with the arming. After close it changes nothing. Otherwise it is `Arm`. At most one timer is armed, the one the handle names. |
| Debounce.Debouncer.Fire | internal/library/library.go:198-202 | A firing timer leaves the armed set and starts its callback; the handle and the close state are unchanged. |
| Debounce.Debouncer.Finish | internal/library/library.go:203-207 | The handle is cleared only when it still names the finishing timer, and the debounce guarantee is kept. |
| Debounce.Debouncer.FinishUnguarded | internal/auth/token_store.go:157-161 | The handle is cleared whatever it names. |
| Debounce.Debouncer.Close | internal/library/library.go:76-91 | The first call closes, stops the timer the handle names, clears the handle and remembers the watcher's error. Later calls change nothing. Every call returns the remembered error. At its return, a debounced machine has nothing armed. |
| Debounce.CloseDuringSchedule | internal/library/library.go:184-195 | As written, a `Close` between the test of `done` and the arming leaves the machine closed with timer 0 armed and named by the handle, which breaks the debounce guarantee. |
| Debounce.CloseDuringScheduleCorrected | internal/library/library.go:184-195 | With the test made under the lock, the same calls leave the machine closed, with no handle and nothing armed. |
| Library.LowerExtensions | internal/library/library.go:58-60 | The set holds exactly the lower-cased configured extensions, i.e. the lower-case strings equal to one of them up to case. |
| Library.IsAllowed | internal/library/library.go:229-233 | An allowed path's extension equals, up to case, a lower-case member of the set. The exact characterisation is in `Library.IsAllowedCaseInsensitive`. |
| Library.IsAllowedCaseInsensitive | internal/library/library.go:229-233 | A path is allowed iff its extension equals a configured one up to case; lower-casing the path never changes the answer. |
| Library.WantsRefresh | internal/library/library.go:131-132 | A wanted event has an operation other than chmod, and every removal or rename is wanted. The full case split is in `Library.WantsRefreshCases`. |
| Library.WantsRefreshCases | internal/library/library.go:131-135 | Chmod-only events never count, removals and renames always count, creations and writes count only for allowed files. |
| Library.MarkdownWriteIgnored | internal/library/library.go:131-135 | A write to "notes.md" schedules nothing when no configured extension is ".md". |
| Library.Directories | internal/library/library.go:213-227 | The watched paths are exactly the directories of the walk. |
| Library.EntryEpisodes | internal/library/library.go:142-161 | An entry yields one episode iff it is an allowed entry that is not a directory and whose builder succeeded, and that episode is the builder's result. |
| Library.CollectMembers | internal/library/library.go:141-163 | The walk yields exactly the episodes of the qualifying files. |
| Library.BuilderFailureSkipsOnlyThatFile | internal/library/library.go:155-159 | A file whose builder fails is dropped and nothing else changes. |
| Library.PathLessIsStrictWeakOrder | internal/library/library.go:168-173 | The comparison (relative path, then file name, with Go's string order) is a strict weak order. |
| Library.SnapshotProperties | internal/library/library.go:138-181 | The snapshot is a permutation of the collected episodes and holds exactly the qualifying ones. It is sorted by relative path and then file name, and episodes with equal keys keep their walk order. |
| Library.WalkEpisodes | internal/library/library.go:141-163 | The walk callback's loop builds exactly the collected sequence. |
| Library.Library.constructor | internal/library/library.go:49-60 | The root, the lower-cased extension set, no episodes, no watches, an open machine with nothing armed. |
| Library.Library.AddWatchRecursive | internal/library/library.go:213-227 | Every directory of the walk is appended to the watch requests, in walk order. |
| Library.Library.Refresh | internal/library/library.go:138-181 | The published episodes become the sorted snapshot of the walk. It never fails, and the sort order invariant is kept. |
| Library.Library.ListEpisodes | internal/library/library.go:94-101 | A fresh array holding the current snapshot. |
| Library.ListEpisodesReturnsCopy | internal/library/library.go:94-101 | Writing into the returned array does not change what the next call returns. |
| Library.Library.ScheduleRefresh | internal/library/library.go:183-211 | No-op after close. Otherwise a new timer is created and is the only armed one, and the handle names it. The firing timers, the close state and the close error are unchanged. |
| Library.Library.HandleEvent | internal/library/library.go:124-136 | A created directory gets its subtree watched first. The episodes never change. A refresh is scheduled exactly when the event filter asks for one and the library is open, with the same effect on the timers as `ScheduleRefresh`. Otherwise the timers are unchanged. |
| Library.Library.FireTimer | internal/library/library.go:198-202 | The firing timer moves from armed to firing, and its rescan publishes the snapshot of the current walk. The handle, the timer count, the close state and the watches are unchanged. |
| Library.Library.FinishTimer | internal/library/library.go:203-207 | The timer stops firing. The handle is cleared only if it still names this timer. The armed timers and the close state are unchanged. |
| Library.Library.Close | internal/library/library.go:76-91 | Once only, with the same error every time. The first call keeps the watcher's error and leaves the firing timers alone. At its return nothing is armed. |
| Library.NewLibrary | internal/library/library.go:39-73 | Fails only with the watcher error. Otherwise the library watches every directory of the first walk of the root and holds the snapshot of the second walk. It is open with nothing scheduled. |
| Auth.TokenStore.IsValidToken | internal/auth/token_store.go:94-104 | A blank token is never valid. With well-formed tokens, a token is valid iff its trimmed form is in the set. |
| Auth.TokensOf | internal/auth/token_store.go:178-185 | Every stored token is non-empty and already trimmed. |
| Auth.NonEmptySound | internal/auth/token_store.go:180-184 | Every collected token is one of the trimmed lines, and is not empty. |
| Auth.NonEmptyComplete | internal/auth/token_store.go:180-184 | Every non-empty trimmed line is collected. |
| Auth.CollectTokens | internal/auth/token_store.go:178-185 | The loop over the lines collects exactly the tokens of the lines. |
| Auth.ParseTokens | internal/auth/token_store.go:178-185 | Parsing the file's text gives a set of non-empty, trimmed tokens. |
| Auth.ValidAgainstLines | internal/auth/token_store.go:94-104 | A token is valid for a file's lines iff it is not blank and some line, trimmed, is the token trimmed. |
| Auth.ExampleTokens | internal/auth/token_store.go:178-185 | "alpha\n\n beta \n" gives {"alpha", "beta"}. |
| Auth.TokenValidIsTrimmedMembership | internal/auth/token_store.go:94-104 | Validity is membership of the trimmed token. White space never matters and "" is never valid. |
| Auth.TokenStore.constructor | internal/auth/token_store.go:45-52 | The store keeps the cleaned file path and an empty token set, and starts open and idle. |
| Auth.TokenStore.Refresh | internal/auth/token_store.go:165-193 | A missing file empties the set with no error. Another read error is returned and keeps the old set. Otherwise the set becomes the file's tokens. |
| Auth.TokenStore.ScheduleRefresh | internal/auth/token_store.go:138-151 | No-op after close; otherwise it stops the timer the handle names and arms a new one. |
| Auth.TokenStore.HandleEvent | internal/auth/token_store.go:127-136 | Only change events whose cleaned name is the stored file path schedule a reload, with the same effect on the timers as `ScheduleRefresh`. Any other event, or any event after close, leaves the timers unchanged. |
| Auth.TokenStore.FireTimer | internal/auth/token_store.go:152-156 | The firing timer reloads the tokens according to the read result. |
| Auth.TokenStore.FinishTimerAsWritten | internal/auth/token_store.go:157-161 | The end of the callback clears the handle whatever timer it names. |
| Auth.TokenStore.FinishTimer | internal/auth/token_store.go:157-161 | Corrected: the handle is cleared only if it still names the finishing timer, and the debounce guarantee is kept. |
| Auth.TokenStore.Close | internal/auth/token_store.go:76-91 | Once only, with the same error every time. At its return, a debounced store has nothing armed. |
| Auth.NewTokenStore | internal/auth/token_store.go:35-73 | A watcher error, a failed first read and a directory that cannot be watched each fail construction, in that order. Nothing is watched before the first read succeeds. On success, the directory is watched and then the file, and the store holds the file's tokens. |
| Auth.CloseAfterUnguardedClear | internal/auth/token_store.go:138-163 | As written, the sequence "fire timer 0, re-arm timer 1, finish timer 0, close" leaves timer 1 armed after the close. |
| Auth.LateReloadAsWritten | internal/auth/token_store.go:152-162 | ... and timer 1 then reloads the tokens of a closed store. |
| Auth.LateReloadCorrected | internal/auth/token_store.go:157-161 | With the guarded clear, the same sequence leaves nothing armed, and the tokens stay those loaded before the close. |
| Metadata.OptionalString | internal/metadata/metadata.go:84-90 | None iff the value is blank; otherwise the trimmed value, which is non-empty and trimmed. |
| Metadata.ReadTags | internal/metadata/metadata.go:66-82 | Unreadable tags give ("", None, None); otherwise a trimmed title and optional artist and album. |
| Metadata.RelativePath | internal/metadata/metadata.go:25-29 | The root-relative path when `Rel` succeeds, else the base name. |
| Metadata.BuildEpisode | internal/metadata/metadata.go:19-64 | It fails iff the stat fails, with that error. The id equals the relative path. The title falls back to the base name without its extension. Duration is present iff the extension is ".mp3" in any case and the decoded length is positive. Bitrate is present only with a duration, and is positive. |
| Metadata.BitrateOfMp3 | internal/metadata/metadata.go:45-48 | The bitrate is present iff size·8/duration/1000 rounds above 0, and then it equals that rounded value. |
| Metadata.Round | internal/metadata/metadata.go:45 | `math.Round` lands within 1/2 of its argument, and a tie goes away from zero: for x ≥ 0 the result is in (x - 1/2, x + 1/2] and not negative, for x < 0 in [x - 1/2, x + 1/2) and not positive. |
| Metadata.FallbackExample | internal/metadata/metadata.go:25-34 | "/r/sub/Episode One.wav" under "/r" with no tags gets id "sub/Episode One.wav", title "Episode One" and no duration or bitrate. |
| Config.AllowedExtensions | internal/config/config.go:32-36 | A fresh array holding the six extensions. |
| Config.AllowedExtensionsAreLower | internal/config/config.go:14-21 | Every listed extension is lower-case. |
| Config.AllowedExtensionsAfterMutation | internal/config/config.go:32-36 | Overwriting the returned array does not change the next result. |
| Config.ListenAddr | internal/config/config.go:70-76 | "127.0.0.1:8080" for a blank value, else the trimmed value; never empty. |
| Config.ListenAddrIdempotent | internal/config/config.go:70-76 | Feeding the result back in returns it unchanged. |
| Config.ValidateListenAddr | internal/config/config.go:94-100 | Accepts iff the lower-cased, trimmed address starts with "127.0.0.1:", "localhost:" or "[::1]:"; otherwise the security error. |
| Config.ValidateIgnoresCase | internal/config/config.go:94-100 | Letter case never matters. |
| Config.DefaultListenAddrValid | internal/config/config.go:70-100 | The default address passes the check. |
| Config.WildcardRejected | internal/config/config.go:94-100 | ":8080" and "0.0.0.0:80" are refused. |
| Config.RefreshDebounce | internal/config/config.go:80-91 | The result always fits an int64 `time.Duration`. |
| Config.RefreshDebounceFallback | internal/config/config.go:80-91 | A blank, non-integer or negative value gives 500 ms. |
| Config.RefreshDebounceOfMillis | internal/config/config.go:86-90 | A decimal n gives n ms, when that fits in an int64. |
| Config.RefreshDebounceUsesValue | internal/config/config.go:86-90 | Any other result comes from a parsed non-negative value, multiplied with int64 wrap-around. |
| Config.RefreshDebounceOfValue | internal/config/config.go:86-90 | Every value `strconv.Atoi` reads as non-negative gives that many milliseconds with int64 wrap-around, and exactly that many when it fits. |
| Config.RefreshDebounceSpellings | internal/config/config.go:86-90 | "+7" and " 007 " both give 7 ms. |
| Config.NegativeDebounceFallsBack | internal/config/config.go:86-88 | "-10" gives 500 ms. |
| Config.NonNumericDebounceFallsBack | internal/config/config.go:86-88 | "not-a-number" gives 500 ms. |
| Config.Override | internal/config/config.go:182-207 | A blank value keeps the current field; any other value replaces it, trimmed. |
| Config.ApplyFields | internal/config/config.go:182-193 | One block of overrides applies every field's override. |
| Config.ResolveFeedMetadata | internal/config/config.go:161-210 | The field-by-field updates give defaults, then the YAML file when configured (its failure is the result), then the environment. |
| Config.FeedMetadataFailure | internal/config/config.go:168-181 | It fails iff a file is configured and cannot be loaded, with that error. |
| Config.EnvironmentBeatsFile | internal/config/config.go:196-207 | A non-blank environment value always wins. |
| Config.FileBeatsDefault | internal/config/config.go:182-193 | With a blank environment value, a non-blank file value beats the default. |
| Config.BlankKeepsDefaults | internal/config/config.go:162-166 | With nothing supplied, the defaults stand and the author is empty. |
| Config.AuthorHasNoDefault | internal/config/config.go:162-166 | A non-empty author came from the environment or from the file. |
| Server.ExtractToken | internal/server/server.go:472-497 | A non-empty token neither starts nor ends with white space. The order of the sources is in `Server.ExtractTokenPrecedence`. |
| Server.ExtractTokenTrimmed | internal/server/server.go:472-497 | The extracted token carries no surrounding white space. |
| Server.ExtractTokenPrecedence | internal/server/server.go:472-497 | The precedence is: query parameter, then `X-Podcast-Token`, then the rest of a case-insensitive "bearer " value. Behind any other `Authorization` value the trimmed cookie is used, and "" when there is no cookie. A request with none of these gives "". |
| Server.CookieNeedsAuthorization | internal/server/server.go:481-496 | When the `Authorization` value is absent or Bearer, the cookie never changes the token. |
| Server.RequireToken | internal/server/server.go:304-315 | With no validator, every request passes with token "". Otherwise a request passes iff the extracted token is non-empty and valid, and passes with that token. A rejection carries 401. |
| Server.RequireTokenWithStore | internal/server/server.go:304-315 | Behind a token store, a request passes iff its extracted token is one of the stored tokens. |
| Server.SetAuthCookie | internal/server/server.go:508-520 | No cookie iff the token is empty. Otherwise an HTTP-only "podcast_token" cookie for "/" holding the token, secure iff the request is HTTPS. |
| Server.CookieWireValue | internal/server/server.go:508-520 | The value that comes back holds only cookie-value bytes, is no longer than the token, and is the token itself when the token is made of such bytes. |
| Server.CookieDropsSemicolon | internal/server/server.go:508-520 | "a;b" comes back as "ab". |
| Server.CookieRoundTrip | internal/server/server.go:490-520 | A later request sending the cookie back behind a non-Bearer `Authorization` value, with no other token, yields the trimmed value that survived `http.SetCookie`. For a trimmed token of cookie-value bytes, that is the token. |
| Server.IsHttpsRequest | internal/server/server.go:522-535 | TLS is always HTTPS. Without a forwarded value it is HTTPS iff TLS. Otherwise, without TLS, it is HTTPS iff the first forwarded element is "https" in any case. |
| Server.RequestBaseUrl | internal/server/server.go:317-337 | There is no URL iff the host is blank. Otherwise the host is the trimmed host. Without a forwarded value the scheme is "https" on TLS and "http" otherwise. With one, the scheme is its non-blank first element, else "http". |
| Server.RequestBaseUrlExamples | internal/server/server.go:317-337 | The cases of TestRequestBaseURL: plain "http", TLS "https", forwarded "https", and no URL for an empty host. |
| Server.ForwardedSchemeWins | internal/server/server.go:319-326 | A non-blank first forwarded element is the scheme, even over TLS. |
| Server.BaseSchemeAgreesWithHttps | internal/server/server.go:317-337 | An "https" base comes only from an HTTPS request; without forwarding the two agree exactly. |
| Server.BlankFirstForwardedIgnoresTls | internal/server/server.go:319-329 | A present forwarded value with a blank first element gives "http" on a TLS connection that `isHTTPSRequest` calls HTTPS. |
| Server.PathWithinRoot | internal/server/server.go:537-544 | Within implies that root and target are both rooted or both relative. The characterisation is in `Server.PathWithinRootIff`. |
| Server.PathWithinRootIff | internal/server/server.go:537-544 | Within iff root and target are both rooted or both relative, the root's cleaned components are a prefix of the target's, and the target does not go on with "..". |
| Server.AbsolutePathWithinRoot | internal/server/server.go:537-544 | For absolute paths: within iff the root's components are a prefix of the target's. |
| Server.PathWithinRootExamples | internal/server/server.go:537-544 | "/srv/audio" and "/srv/audio/ep.mp3" are within "/srv/audio"; "/srv/other" is not. |
| Server.TraversalOutside | internal/server/server.go:537-544 | "/srv/audio/../other/file.mp3" is not within "/srv/audio". |
| Server.FormatDuration | internal/server/server.go:578-587 | The rendering is empty iff the length is not positive. |
| Server.FormatSecondsRoundTrip | internal/server/server.go:582-586 | The rendering of any whole number of seconds, 0 included, splits on ':' into three numbers. Minutes and seconds are below 60, and h·3600 + m·60 + s is the total. |
| Server.FormatDurationRoundTrip | internal/server/server.go:578-587 | A positive length reads back as hours, minutes and seconds whose total is within (length - 1/2, length + 1/2]: the length rounded half up. |
| Server.FormatDurationExamples | internal/server/server.go:578-587 | The whole-second cases of TestFormatDuration: 0 and -5 give "", 61 gives "00:01:01", 3661 gives "01:01:01". |
| Server.FormatDurationRounding | internal/server/server.go:578-587 | 59.5 rounds up to "00:01:00", as TestFormatDuration expects, and 0.3 gives "00:00:00". |
| Server.DescriptionParts | internal/server/server.go:547-554 | One piece per non-empty artist and album, plus the file name: the artist first, the album just before the file name, the file name last. |
| Server.EpisodeDescription | internal/server/server.go:546-556 | The description ends with the file name. |
| Server.DescriptionCases | internal/server/server.go:546-556 | The four shapes: artist – album – file, artist – file, album – file, or the bare file name, with " – " between the pieces. |
| Server.DescriptionExample | internal/server/server.go:546-556 | The cases of TestEpisodeDescription: "song.mp3" alone, and "Artist – Album – song.mp3". |
| Server.RssBeforeIsStrictWeakOrder | internal/server/server.go:350-357 | The feed comparison (newer first, then the larger id) is a strict weak order. |
| Server.FeedOrderProperties | internal/server/server.go:348-357 | The feed lists every episode once, with non-increasing times. Equal times come in non-increasing id order, and episodes with equal keys keep their listed order. |
| Server.EnclosurePathOfPlain | internal/server/server.go:394 | A relative path of plain components is served at "/audio/" followed by that path. |
| Server.AudioIsClean | internal/server/server.go:394 | `path.Join("audio", "")` is "audio". |
| Server.EnclosureUrl | internal/server/server.go:393-402 | The scheme is always "https" and the host is the request's. The path is the audio path. The query is exactly {token} when the token is non-empty, and empty otherwise. |
| Server.ItemForFields | internal/server/server.go:404-432 | Link and enclosure are the enclosure URL, and the guid is the id. There is no pubDate for the zero time and no duration when none was decoded. The author is the episode's artist if it has one, else the feed's author. |
| Server.ItemsOf | internal/server/server.go:392-435 | One item per sorted episode, in order. |
| Server.BuildRssItems | internal/server/server.go:348-435 | The items are those of the stably sorted copy, in feed order. |
| Server.LastBuild | internal/server/server.go:359-367 | The latest non-zero time among the episodes, or `now` when there is none. |
| Server.BuildRssFeed | internal/server/server.go:339-435 | The channel carries the feed's metadata, links to the bare host and to the requested URL, has as last build time one of the episodes' non-zero times that no other exceeds (`now` when there is none), and holds one item per episode in feed order. |
| Server.FeedEnclosures | internal/server/server.go:392-402 | Every enclosure is an https URL on the request's host, carrying the token iff the request had one. |
| Server.FeedDefaults | internal/server/server.go:64-69 | The title and description are never empty, and a missing description becomes the title. Language and author are kept. |
| Server.FeedDefaultsIdempotent | internal/server/server.go:64-69 | Applying the defaults twice changes nothing more. |
| Server.AbsRoot | internal/server/server.go:56-61 | A rooted root is kept cleaned; a relative one is made rooted against a rooted working directory, or stays cleaned without one. |
| Server.New | internal/server/server.go:51-81 | The handler keeps the validator, the absolute cleaned root, the feed with defaults and the lower-cased extension set. |
| Paths.ExtOfLower | internal/library/library.go:230 | Lower-casing a path lower-cases its extension. |
| Paths.RelOfDescendant | internal/metadata/metadata.go:25 | A path below a rooted directory is, relative to it, the rest of its components joined with '/'. |
| Paths.BaseOfChild | internal/metadata/metadata.go:54 | The base name of dir/name is the name. |
| Text.SplitJoin | internal/auth/token_store.go:178 | Splitting a join of separator-free pieces gives the pieces back. |
| Decimal.AtoiOfPad2 | internal/server/server.go:586 | `strconv.Atoi` reads back what `%02d` writes. |
| Sorting.InsertionSortPermutes | internal/library/library.go:168 | The stable sort is a permutation. |
| Sorting.InsertionSortSorted | internal/library/library.go:168 | Under a strict weak order the result is sorted. |
| Sorting.InsertionSortStable | internal/library/library.go:168 | Elements with equal keys keep their relative order. |
| Sorting.SortInPlace | internal/server/server.go:350-357 | The in-place sort leaves the array equal to the stable sort of its old contents. |

## Left out

- Concurrency. The watcher goroutines, `select` over channels,
  `time.AfterFunc`, `sync.Once`, `WaitGroup` and the mutexes are not
  modelled. Each method is one atomic step. A timer's callback is two
  steps: the firing that runs the refresh, and the handle clearing that
  ends it. Other interleavings inside a method are not covered, except
  the one between the test of `done` and the arming in `scheduleRefresh`
  (see Findings).
- Library.Library.FireTimer: the walk and the publication of its snapshot
  are one step here. In the source, `refresh` walks without a lock and
  takes `mu` only to swap in the snapshot. A callback still walking when
  a newer timer fires can therefore publish after the newer one, so an
  older snapshot can replace a newer one. The model does not capture that
  order.
- Debounce delays: the duration itself is not modelled, only the order
  of arming, stopping and firing.
- The fsnotify watcher. Its creation and close errors are inputs. The
  directories and files handed to it are recorded (`watchRequests`,
  `watchCalls`).
- Filesystem I/O (`filepath.WalkDir`, `os.Stat`, `os.ReadFile`). These
  are inputs, as listed above.
- Tag reading (`dhowden/tag`) and MP3 decoding (`computeMP3Duration`).
  Their results are inputs.
- Floating point: durations are exact reals. `Metadata.Round` and
  `Server.FormatDuration` do not model float rounding or the
  float-to-int64 conversion.
- Server.FormatDurationRoundTrip: it is stated only for lengths whose
  rounded value fits in an int64, because Go's conversion of a larger
  float to int64 is implementation-specific.
- Cookies on the wire: the client's storage and sending of the cookie is
  not modelled. `Server.CookieWireValue` stands for what `http.SetCookie`
  writes and the server reads back; its quoting of values holding a space
  or a comma is undone by the reader, so it is left out.
- Times are whole seconds from the Unix epoch, and the zero `time.Time`
  is `Server.ZeroTime`. UTC conversion, rounding to the second and RFC
  1123 formatting of `pubDate` and `lastBuildDate` are not modelled.
- XML marshalling of the feed, `mimeTypeForFilename` (it reads the
  system MIME table), and the percent-encoding of URLs and query strings.
  A URL is modelled as scheme, host, path and a query map.
- `RssChannel` leaves out the constant version, namespace, generator and
  self-link type fields.
- The HTTP plumbing: the method checks of the handlers, the health, episodes,
  UI, upload, audio-serving and delete handlers, `logRequests`, `statusWriter`
  and the embedded UI page. Logging everywhere.
- `ResolveAudioRoot`, `ResolveTokenFile` and `resolveConfigPath`
  (environment, home directory and directory creation), the YAML parser,
  and the process wiring in cmd/home-podcast/main.go.
- Unicode. `strings.TrimSpace`, `strings.ToLower` and `strings.EqualFold`
  are modelled for ASCII. White space is space, \t, \n, \r, \v and \f.
- Paths use '/' only. `filepath.ToSlash` is the identity, and
  `filepath.Abs` is the join with a working directory given as input.
- Server.AbsRoot: for a relative root and a known working directory, the
  contract states only that the result is rooted. It does not state that
  the result is the cleaned join of the two, although the body computes
  exactly that.
- Server.EpisodeDescription: its contract states only the suffix. The
  full shape is in `Server.DescriptionCases`.
- Config.RefreshDebounce: its own contract states only the int64 range.
  The fallback case is stated in `Config.RefreshDebounceFallback`, and
  the parsed case, in both directions, in `Config.RefreshDebounceOfValue`
  and `Config.RefreshDebounceUsesValue`.
- The handler keeps the feed metadata as `Config.FeedMetadata`, the same
  four fields as the server's own `FeedMetadata` type.

## Findings

| source | as written | input that shows it | evidently intended | confidence | as-written member | corrected member |
|---|---|---|---|---|---|---|
| internal/auth/token_store.go:157-161 | The timer callback clears `refreshTimer` whenever it is non-nil, even when it now names a newer timer. | Timer 0 fires and starts its reload. An event re-arms timer 1. Timer 0's callback ends and clears the handle. `Close` finds no handle, so timer 1 stays armed and later reloads the tokens of a closed store. | Clear the handle only when it still names the finishing timer, as internal/library/library.go:204 does. `Close` then stops the pending timer. | high; not executed | Auth.LateReloadAsWritten | Auth.LateReloadCorrected |
| internal/library/library.go:184-195, internal/auth/token_store.go:139-145 | `scheduleRefresh` tests `done` before it takes `refreshMu`. | The event goroutine passes the test. `Close` then closes `done`, stops the handle's timer (none) and clears the handle. The event goroutine takes the lock and arms timer 0. `Close` has returned, yet timer 0 is armed, and it later runs a refresh of a closed library or store. | Test `done` again once `refreshMu` is held, so that no timer is armed after `Close` has cleared the handle. `Schedule` does that, and both `Library` and `TokenStore` use it. | medium; not executed | Debounce.CloseDuringSchedule | Debounce.CloseDuringScheduleCorrected |
