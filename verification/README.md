# BookBrowser: a verified model

This project models the parts of the BookBrowser server, its command-line
client, its speech service and its EPUB reader that carry state, arithmetic or
protocol, and proves what they are meant to guarantee. Each module belongs to
one component:

- **Speech.** `TrackBuilder` and `SpeechChunks` (the reader cuts text),
  `TrackCleaning`, `SectionPlanner` and `TrackTiming` (the service cleans,
  plans and times a track, the reader follows it), `OffsetLaws` (what the offsets
  are), `TimingHeader` (the offsets on their way), `Playback` with `Utf16` (which tracks of a chapter are played),
  `CacheCleanup` (the audio cache), `HealthMonitor` (failure
  streaks and the alerts they cause).
- **Store.** `SystemAlerts`, `UserStore`, `PersonalLibrary`, `LibraryLaws` and `ReadingTags`:
  each method of the store is one atomic step on tables that are fields of a
  class, and theorems speak about every run of calls by all callers.
- **Sign-in.** `ChallengeStore` and `GoogleLogin`: the Google sign-in of
  command-line clients, composed with `UserStore`, as processes whose steps
  interleave freely; `Pbkdf2` and `PasswordHash`.
- **Tools.** `KeyReader` with `Utf8`, `LibraryFilename`, `BookPaging`.

`Text`, `Sequences`, `Sets`, `Arithmetic`, `Decimal`, `Base64` and `Outcomes`
are shared. A text is a sequence of code units (reader) or code points
(service, server). Random ids and tokens, clock readings, HMAC, digests of
secrets, Unicode lower-casing, synthesizer replies, book sorts and answers of
the file system are inputs; where a query leaves an order open, every order is
allowed. Wherever code changes state or loops over variables, the model is a
method of the same shape, proved equal to a function or relation; theorems are
lemmas about that function or relation. What an operation does to the fields a
caller can see is stated beside it without that function, with the numbers of
the source written out.

Some properties hold only under a condition, and the model states which:

- The timing header does not always return what was sent: JavaScript numbers
  are doubles. It does exactly for lists of representable offsets
  (`TimingHeader.RoundTrip`, `TimingHeader.RoundTripFails`).
- `uniqueLibraryFilename` treats every answer but "does not exist" as taken, so
  it loops for ever for a name longer than the file system allows
  (`LibraryFilename.LongNameExample`) and for one that holds U+0000, which no
  path may (`LibraryFilename.NulExample`); `LibraryFilename.EndsExactly` says
  when it ends. Names that the search builds are clipped to 180 bytes
  and free of control characters (server/libgen.go:375-391), so such a name has
  to come with a posted payload.
  The comment promises a safe name; for an input of slashes only, the result
  contains a slash (`LibraryFilename.SlashExample`, `LibraryFilename.PlainName`).
- Among sessions opened in the same second any may be pruned, so a session can
  be lost the moment it is opened (`UserStore.NewSessionLost`);
  `UserStore.NewSessionSurvives` says when.
- The server looks at the first 400 paragraphs of a track, and the reader can
  put more short ones into it; the reader then refuses the answer
  (`Playback.CrowdedChapter`). The reader cuts a long run without spaces at a
  code unit, which can separate the halves of a surrogate pair, and the server
  cannot encode half a pair (`Playback.SeparatedChapter`,
  `Playback.TracksPaired`). `Playback.PlayChapter` says when a track is played.
- NOCASE compares texts up to the first U+0000 only, and by length after it, so
  two tags that differ can have the same key (`ReadingTags.NulTagsExample`);
  adding them then fails. `ReadingTags.InsertableExactly` and
  `PersonalLibrary.RunConstraintExactly` say when.

## Model

| member | source | states |
|---|---|---|
| `SectionPlanner.SplitSections` | scripts/tts_server.py:216-237 | the sections flatten back to the paragraphs, none is empty, each is a single paragraph or at most `budget` characters when joined, and no ordered partition of that shape has fewer sections |
| `SectionPlanner.StaysAhead` | scripts/tts_server.py:216-237 | greedy stays ahead: against any other partition that must also cover some leading paragraphs, the greedy one never needs more sections |
| `SectionPlanner.TightIsOptimal` | scripts/tts_server.py:216-237 | a partition whose sections could not have taken the next paragraph has the fewest sections |
| `SectionPlanner.TightIsUnique` | scripts/tts_server.py:216-237 | only one partition is filled that way, so the contract of SplitSections fixes its result |
| `TrackBuilder.BuildTTSTracks` | public/static/reader/epub/script.js:1852-1882 | the tracks hold the pieces of all paragraphs in order; the first has at most 2400 characters and later ones at most 6000, counted as joined by two line breaks; a track ends only when the next piece does not fit; all visible characters stay, in order and with their paragraph |
| `TrackBuilder.GroupPieces` | public/static/reader/epub/script.js:1866-1881 | grouping loop: consecutive nonempty tracks within their limits, each filled as far as possible |
| `TrackBuilder.PiecesAreGood` | public/static/reader/epub/script.js:1854-1863 | pieces are nonempty, trimmed and at most 2400 characters, and cutting terminates because every cut removes at least 1200 |
| `TrackBuilder.PiecesKeepText` | public/static/reader/epub/script.js:1854-1863 | the visible characters of the pieces of a paragraph are those of the paragraph, in order |
| `TrackBuilder.PiecesEndAtSpaces` | public/static/reader/epub/script.js:1855-1863 | every piece of a paragraph but the last ends at the last space among characters 1200 to 2400 of what was left, or after 2400 if there is none, and the next piece goes on after the white space |
| `TrackBuilder.AllPiecesAreGood` | public/static/reader/epub/script.js:1854-1863 | the same for a whole chapter, each character with its paragraph's place |
| `SpeechChunks.SplitTextIntoChunks` | public/static/reader/epub/script.js:2514-2546 | nested loops over sources and sentences: nonempty trimmed chunks of at most 320 characters in paragraph order, which hold paragraph by paragraph exactly the visible characters that are spoken, and the number of paragraphs that are not blank |
| `SpeechChunks.ParagraphChunksKeep` | public/static/reader/epub/script.js:2524-2542 | every chunk of a paragraph is nonempty, trimmed and at most 320 characters, and their visible characters are the paragraph's without its leading run of terminators (all of them when it consists of terminators) |
| `SpeechChunks.SentencesCover` | public/static/reader/epub/script.js:2527 | the matches of the sentence pattern are exactly the text after the leading terminators; there are none only if nothing else is left |
| `SpeechChunks.SentencesAre` | public/static/reader/epub/script.js:2527 | every match is a run of other characters and then of terminators, which only the last one may lack |
| `SpeechChunks.ChunksPack` | public/static/reader/epub/script.js:2528-2542 | a chunk holds as many trimmed sentences as fit into 320 characters with single spaces, and is closed only before one that does not fit; of a longer sentence a chunk ends at the last space among characters 160 to 320, or after 320 |
| `SpeechChunks.BreakKeeps` | public/static/reader/epub/script.js:2535-2540 | cutting an overlong sentence terminates, yields full chunks and a rest within the limit, and loses white space only |
| `SpeechChunks.FillKeeps` | public/static/reader/epub/script.js:2528-2542 | packing sentences into chunks keeps every visible character and the length limit |
| `SpeechChunks.AllChunksByParagraph` | public/static/reader/epub/script.js:2523-2543 | chunks come in paragraph order and those labelled with a paragraph are exactly its own |
| `SpeechChunks.LinesKeep` | public/static/reader/epub/script.js:2516 | without a paragraph list, cutting at line breaks loses nothing visible |
| `TrackCleaning.CleanParagraphs` | scripts/tts_server.py:415-432 | the cleaning loop over a request: it looks at the first 400 elements and keeps of them what CleanIs says |
| `TrackCleaning.CleanFits` | scripts/tts_server.py:415-432 | whatever the request holds, kept paragraphs are nonempty and, joined, at most 12000 characters |
| `TrackCleaning.CleanIs` | scripts/tts_server.py:415-432 | what is kept of any request: the texts that are not blank, their words joined by single spaces, in order; only the last may be cut, exactly at 12000 characters in all; none is left out while there is room for a separator and a character |
| `TrackCleaning.CleanKeeps` | scripts/tts_server.py:415-432 | paragraphs already in the server's white-space form that fit are all kept unchanged |
| `TrackCleaning.TrackIsKept` | scripts/tts_server.py:415-432 | the server keeps every paragraph of a browser track in that form: separators are counted alike on both sides |
| `TrackCleaning.TracksKeepForm` | public/static/reader/epub/script.js:1852-1882 | a chapter in the server's form is cut into tracks whose paragraphs all are in the server's form |
| `TrackCleaning.Utf16KeepsForm` | scripts/tts_server.py:419-424 | the white-space form is the same seen as UTF-16 code units and as code points |
| `TrackTiming.SectionIsAligned` | scripts/tts_server.py:240-295 | a section has one offset per paragraph, nondecreasing, the first one 0, wherever boundary events fall |
| `TrackTiming.SynthSection` | scripts/tts_server.py:240-295 | the loops over events and paragraphs compute the offsets of which the next row speaks; they are aligned with the paragraphs for every reply |
| `OffsetLaws.SectionOffsetsAre` | scripts/tts_server.py:240-295 | from the reply alone: a word is at its first place after the word found before it, or else at its first place at all; the own time of a paragraph is the truncated offset / 10000 of the first boundary inside it, or else its share of the playing time; a paragraph after the first starts at the larger of the time before it and its own time (for the second, the own time of the first counts as the time before it, though the first is sent as 0) |
| `TrackTiming.TrackIsAligned` | scripts/tts_server.py:298-337 | so has a track, however it is divided into sections |
| `TrackTiming.SynthTrack` | scripts/tts_server.py:298-337 | planning, synthesis and merging of a track: one offset per paragraph, nondecreasing, starting at 0, over a partition with the fewest sections |
| `OffsetLaws.TrackOffsetsAre` | scripts/tts_server.py:316-337 | every paragraph of a track but the first starts at the larger of the time before it and its time within its section plus the estimated playing times of all sections before |
| `TrackTiming.CurrentParagraph` | public/static/reader/epub/script.js:2030-2035 | the index loop finds the greatest index whose offset is at most the elapsed time (0 if there is none) |
| `TrackTiming.CurrentIsMonotone` | public/static/reader/epub/script.js:2030-2035 | that index is determined by the time and never moves back |
| `TrackTiming.DecodedIsSorted` | public/static/reader/epub/script.js:1884-1890 | decoded offsets stay sorted and one per paragraph, rounding to doubles included |
| `Playback.PlayTrack` | scripts/tts_server.py:406-499 | end to end: of a browser track in the server's form the server keeps the first 400 paragraphs unchanged; it refuses them exactly if one holds half a surrogate pair, and otherwise sends one offset for each; the browser decodes the answer exactly if the track has at most 400 paragraphs and none holds half a pair, and then follows them |
| `Playback.PlayChapter` | public/static/reader/epub/script.js:1852-1890 | the same from the chapter: every track that buildTTSTracks makes of it is played exactly if it has at most 400 paragraphs and none holds half a surrogate pair |
| `Playback.TracksPaired` | public/static/reader/epub/script.js:1852-1863 | of a chapter of texts without half pairs, every track is free of them exactly if no cut at a missing space separates the halves of a pair |
| `Playback.SeparatedChapter` | public/static/reader/epub/script.js:1857-1861 | a chapter where a cut does: one paragraph of 2399 letters, a character outside the basic plane and a letter; one of its short tracks holds half a pair |
| `Playback.HandleTrack` | scripts/tts_server.py:406-499 | the paragraphs kept of any request, and when they are answered with aligned offsets: if any are left and all can be encoded |
| `Utf16.PairedIsEncodable` | scripts/tts_server.py:438 | the code points of a JavaScript string can be encoded exactly if no half of a surrogate pair stands alone |
| `Utf16.PairedParts` | public/static/reader/epub/script.js:1857-1861 | cutting a text leaves two parts without half pairs, unless it separates a pair: then each part has one |
| `Playback.CrowdedChapter` | public/static/reader/epub/script.js:1852-1882 | a chapter of which a track is not: 401 paragraphs of one letter make one track |
| `TrackCleaning.ServedIsKept` | scripts/tts_server.py:415-432 | a track in the server's form is cleaned to its own first 400 paragraphs |
| `TimingHeader.HeaderDecodes` | public/static/reader/epub/script.js:1884-1890 | a header of the server decodes exactly if the browser expects as many offsets as it holds, each as the nearest JavaScript number |
| `TimingHeader.RoundTrip` | scripts/tts_server.py:348-350 | the decoded list equals the encoded one exactly when every offset is representable as a double |
| `TimingHeader.RoundTripFails` | public/static/reader/epub/script.js:1884-1890 | a list for which it does not: 2^53 + 1 arrives as 2^53 |
| `TimingHeader.AtobOfHeader` | public/static/reader/epub/script.js:1886-1887 | rebuilding the padding as (4 - n % 4) % 4 and translating the alphabet recovers the bytes (sections 4 and 5 of RFC 4648) |
| `TimingHeader.ParseOfJson` | public/static/reader/epub/script.js:1887 | parsing the printed JSON array gives back its numbers |
| `TimingHeader.ToNumberExact` | public/static/reader/epub/script.js:1889 | a natural number survives conversion to a double exactly if it has at most 53 significant bits within range |
| `TimingHeader.NearestDouble` | public/static/reader/epub/script.js:1889 | what arrives is nearest: no 53-bit number, however far shifted, is nearer to the offset sent |
| `TimingHeader.IsDouble` | public/static/reader/epub/script.js:1889 | and it is a double: 53 bits shifted by 971 at most |
| `TimingHeader.ToNumberMonotone` | public/static/reader/epub/script.js:1889 | conversion to doubles keeps the order of offsets |
| `Base64.DecodeEncode` | auth/auth.go:376-394 | unpadded Base64 in the standard alphabet decodes to what was encoded, for every byte string |
| `Base64.GroupsAre24Bits` | auth/auth.go:376-394 | four symbols stand for the 24 bits of three bytes, the first byte on top (section 4 of RFC 4648) |
| `Base64.SymbolTable` | scripts/tts_server.py:348-350 | the symbols of both alphabets in their order (tables 1 and 2 of RFC 4648) |
| `Base64.ShortVectors` | scripts/tts_server.py:348-350 | two of the test vectors of section 10 of RFC 4648, without padding |
| `CacheCleanup.Cache.CleanupCache` | scripts/tts_server.py:148-204 | both passes over the directory, with deletions that may fail: the files left, the number removed and the bytes reclaimed are those of the two-pass definition |
| `CacheCleanup.ProtectedStays` | scripts/tts_server.py:168-169 | the protected track and its timing file stay, even when deletions fail |
| `CacheCleanup.OldGo` | scripts/tts_server.py:168-178 | every unprotected file with now - mtime above the age limit is removed |
| `CacheCleanup.YoungStay` | scripts/tts_server.py:168-189 | every other file stays if the bytes of these files together are within the limit |
| `CacheCleanup.WithinLimit` | scripts/tts_server.py:183-201 | the cleanup ends within the byte limit or with no track but the protected one |
| `CacheCleanup.EvictedFirst` | scripts/tts_server.py:184-201 | every file evicted for space has a smaller mtime than every unprotected one that stays, or the same and a smaller size, or the same of both and a path that is a front part or smaller at the first difference |
| `CacheCleanup.LastEvictionWasNeeded` | scripts/tts_server.py:184-201 | eviction is minimal: restoring the last evicted file would exceed the limit |
| `CacheCleanup.BytesConserved` | scripts/tts_server.py:171-199 | bytes reclaimed and bytes left add up to the bytes before |
| `CacheCleanup.RemovedCounts` | scripts/tts_server.py:171-199 | the number reported as removed is the number of audio files that are gone |
| `CacheCleanup.NoStrayTiming` | scripts/tts_server.py:171-197 | a removed track leaves no timing file, and no other file is touched |
| `CacheCleanup.TimingOf` | scripts/tts_server.py:172-174 | the timing file of `x.mp3` is `x.json` |
| `CacheCleanup.EvictRest` | scripts/tts_server.py:186-188 | leaving the eviction loop early equals going on without evicting |
| `CacheCleanup.SortSorts` | scripts/tts_server.py:184 | the entries sorted as tuples: a permutation in order |
| `HealthMonitor.UpstreamHealth.Status` | scripts/tts_server.py:115-119 | the status in terms of the whole outcome trace: failing exactly when the current failure streak has at least 2 failures spanning at least 60 s |
| `HealthMonitor.UpstreamHealth.RecordFailure` | scripts/tts_server.py:106-113 | the fields keep describing the trace after a failure |
| `HealthMonitor.UpstreamHealth.RecordSuccess` | scripts/tts_server.py:97-104 | and after a success |
| `HealthMonitor.StreakIsMaximal` | scripts/tts_server.py:106-113 | the streak of the trace is its longest suffix of failures |
| `HealthMonitor.TTSMonitor.CheckTTSHealth` | server/system_alerts.go:100-135 | one check does to the table what the relation Reacts says, and keeps the counter, the time of the first error of the streak, both alerts and the number of openings in step with all checks made |
| `HealthMonitor.MonitorTellsTheTrace` | server/system_alerts.go:100-135 | in every run of checks, interleaved with acknowledgements and with raises and resolves of other keys: the service alert is open exactly when the last three or more checks failed, the upstream alert exactly when the latest failing/ok answer said failing, and the checks that opened the service alert are as many as the error streaks that reached three |
| `HealthMonitor.AlertTellsOutcomes` | scripts/tts_server.py:92-124 | from synthesis to the alert: over every run of syntheses, restarts of the service, checks and other uses of the table, the upstream alert is open exactly if some check came while the failures in a row were at least 2 and spanned at least 60 s, and no check since came while the latest outcome was a success |
| `HealthMonitor.ChecksHeal` | server/system_alerts.go:100-135 | whatever a failed store call left behind, the next answer closes the service alert, the next third error opens it, and the next failing/ok verdict sets the upstream alert |
| `HealthMonitor.ThresholdIsUnreachable` | server/system_alerts.go:116-118 | the counter has reached the threshold exactly when the last three checks all failed |
| `HealthMonitor.AcknowledgingIsHarmless` | auth/sqlite.go:1710-1736 | acknowledgements by administrators do not change which of the monitor's alerts are open |
| `SystemAlerts.RunKeepsInvariant` | auth/sqlite.go:1598-1662 | in every run with a nondecreasing clock any two rows of a key are incidents more than 24 hours apart (so at most one is open) and times of a row are in order |
| `SystemAlerts.RunHasOneOpen` | auth/sqlite.go:151-167 | in every run each key has at most one open row: the unique index is never violated |
| `SystemAlerts.RunBoundsAlerts` | auth/sqlite.go:1513-1525 | after every raise of a run that opens an alert its key has at most 89 resolved rows besides the open one |
| `SystemAlerts.AtMost89Resolved` | auth/sqlite.go:1598-1662 | the counting argument for that bound |
| `SystemAlerts.IncidentsNeedTime` | auth/sqlite.go:1598-1662 | incidents more than a day apart within a period are at most one per day and second |
| `SystemAlerts.OneReopenable` | auth/sqlite.go:1620-1630 | at most one row can be reopened, so ties in the query do not matter |
| `SystemAlerts.RaisedOpens` | auth/sqlite.go:1598-1662 | raising opens the key, touches no other key, and reports whether the key was not open before |
| `SystemAlerts.RefreshedRows` | auth/sqlite.go:1610-1619 | raising an open key stores the new texts and time in its open alert, keeps its first time, count and reader, and changes no other row |
| `SystemAlerts.ReopenedRow` | auth/sqlite.go:1620-1651 | otherwise the alert of the key that was resolved last, within 24 hours, is open again with the new texts, unread, with one more occurrence and its first time; rows resolved more than 90 days ago go, and no other row changes |
| `SystemAlerts.NewRow` | auth/sqlite.go:1634-1651 | otherwise there is a new alert, open and unread, with one occurrence |
| `SystemAlerts.ResolvedRows` | auth/sqlite.go:1666-1675 | resolving gives the open alerts of the trimmed key the time and the note, clipped to 1000 bytes, and changes no other row |
| `SystemAlerts.NormalizeExactly` | auth/sqlite.go:1545-1561 | which fields are accepted (key and source of 1 to 100 bytes, a title), and what is stored of them (title of 300 bytes, details of 5000 at most) |
| `SystemAlerts.ResolveCloses` | auth/sqlite.go:1666-1675 | resolving closes the key and no other, deleting nothing |
| `SystemAlerts.ClipFits` | auth/sqlite.go:1530-1543 | clipping keeps what fits and otherwise yields the longest whole-character front part that fits with the ellipsis |
| `SystemAlerts.AlertStore.RaiseSystemAlert` | auth/sqlite.go:1598-1662 | refresh, reopen or insert, then prune, as the relation says, with every error case; a failing call changes nothing |
| `SystemAlerts.AlertStore.ResolveSystemAlert` | auth/sqlite.go:1666-1675 | closes the open row of the trimmed key, with the clipped resolution, and says whether there was one |
| `SystemAlerts.AlertStore.AcknowledgeSystemAlert` | auth/sqlite.go:1710-1726 | marks one row read; the first reader and time stay; the errors for unknown rows and users |
| `SystemAlerts.AlertStore.AcknowledgeAllSystemAlerts` | auth/sqlite.go:1728-1736 | marks all unread rows and returns how many there were |
| `UserStore.RunKeeps` | auth/sqlite.go:585-1086 | every reachable store: a nonempty user table has an active administrator, sessions and tokens belong to active users, no user has more than 20 sessions, addresses and Google subjects are unique, token names are unique per user ignoring case |
| `UserStore.RunKeepsIdentity` | auth/sqlite.go:659-747 | in every run an account stays, with its address and, once set, its Google subject |
| `UserStore.UpdateKeeps` | auth/sqlite.go:1006-1050 | the last-administrator guard and the cascaded revocation keep the invariant |
| `UserStore.AnotherAdmin` | auth/sqlite.go:1021-1029 | counting argument of the guard: another active administrator remains |
| `UserStore.PasswordKeeps` | auth/sqlite.go:1052-1086 | setting a password with its revocations keeps the invariant |
| `UserStore.GoogleKeeps` | auth/sqlite.go:659-747 | every branch of the Google sign-in keeps the invariant and the identities |
| `UserStore.RegisterKeeps` | auth/sqlite.go:585-634 | registration keeps the invariant and the identities |
| `UserStore.NewSessionKeeps` | auth/sqlite.go:749-783 | opening a session keeps the invariant in whatever order ties are pruned |
| `UserStore.NewSessionSurvives` | auth/sqlite.go:774-777 | the new session survives every admissible pruning exactly when at most 19 other live sessions of the user are no older than it |
| `UserStore.NewSessionLost` | auth/sqlite.go:774-777 | for instance a store that satisfies the invariant, with an active administrator and twenty sessions of this second, and a pruning that drops the session just opened |
| `UserStore.CreateTokenKeeps` | auth/sqlite.go:813-861 | creating a token keeps the invariant |
| `UserStore.Store.RegisterEmail` | auth/sqlite.go:585-634 | the exact condition of success and of every error in the order of the checks; the new row holds the hash, is an administrator exactly if it is the first, and is the only change |
| `UserStore.Store.AuthenticateEmail` | auth/sqlite.go:636-657 | an active account with that address, a nonempty hash and a password that fits it is signed in, recording the time and nothing else; otherwise the error of the first check that fails |
| `UserStore.Store.UpsertGoogle` | auth/sqlite.go:659-747 | sign-in by subject, linking by address, or a new account; on success the account is active, has the subject and the time; on failure nothing changes and the error is that of the first check that fails |
| `UserStore.GoogleBySubject` | auth/sqlite.go:674-690 | an account that has the subject is signed in exactly if it is active; its name is filled in if it was empty |
| `UserStore.GoogleByAddress` | auth/sqlite.go:694-718 | otherwise the account of the address is linked exactly if it is active, has no other subject and Google speaks for the address |
| `UserStore.GoogleNew` | auth/sqlite.go:721-746 | otherwise a new account is made, without a password, if registration is open or it is the first |
| `UserStore.GoogleNeedsBoth` | auth/sqlite.go:659-668 | before that, a rejected address and a blank subject are refused, in this order |
| `UserStore.Store.NewSession` | auth/sqlite.go:749-783 | of the unexpired sessions and the new one, good for 30 days, those of others stay and the twenty newest of the user; every error |
| `UserStore.Store.KeepNewest` | auth/sqlite.go:774-777 | the rows outside ORDER BY created_at DESC LIMIT -1 OFFSET 20 |
| `UserStore.Store.CreateAPIToken` | auth/sqlite.go:813-861 | the exact condition (1 to 80 letters, digits, dots, underscores and hyphens; expiry to come; active account; name not used by it), and the new row in whole seconds |
| `UserStore.Store.RevokeAPIToken` | auth/sqlite.go:938-955 | removes the user's token of that name ignoring case, or fails |
| `UserStore.Store.RevokeCurrentAPIToken` | auth/sqlite.go:957-970 | removes the token, or fails |
| `UserStore.Store.UserForAPIToken` | auth/sqlite.go:863-906 | answers exactly for well-shaped, unexpired tokens of active users and records the use |
| `UserStore.Store.UpdateUser` | auth/sqlite.go:1006-1050 | refuses unknown roles and accounts, and exactly when the only active administrator would lose the role or be deactivated; deactivation removes sessions and tokens of the account and of nobody else |
| `UserStore.Store.SetPassword` | auth/sqlite.go:1052-1086 | succeeds exactly for a known account and at least 10 bytes; then the row holds the new hash and time, no session and no token of the user is left, and nothing else changes |
| `UserStore.NewPasswordCounts` | auth/sqlite.go:636-657 | after a change of password the next sign-in of the account succeeds exactly if it is active and the password fits the new hash |
| `ChallengeStore.AddKeepsFew` | server/api_auth.go:81-102 | adding keeps at most five challenges per client address |
| `ChallengeStore.FewerPerIp` | server/api_auth.go:73-182 | so does everything that removes challenges or changes them in place |
| `ChallengeStore.Store.CleanupLocked` | server/api_auth.go:73-79 | the loop leaves exactly the challenges that have not expired |
| `ChallengeStore.Store.AddChallenge` | server/api_auth.go:81-102 | refused exactly if the address has five live challenges; otherwise the new one lives five minutes, unapproved; expired ones go and all others stay |
| `ChallengeStore.Store.Get` | server/api_auth.go:104-115 | a copy of a live challenge, or nothing |
| `ChallengeStore.Store.ApproveChallenge` | server/api_auth.go:117-131 | sets the user of a live challenge that has none |
| `ChallengeStore.Store.PollChallenge` | server/api_auth.go:133-161 | for a known, live challenge and the right secret: slow exactly if the last poll is less than three seconds ago or a handler is issuing for an approval, pending exactly if it is not too soon and nobody has approved, approved otherwise; expired and unknown ones; the fields afterwards |
| `ChallengeStore.Store.FinishChallenge` | server/api_auth.go:163-171 | removes the challenge or clears its flag |
| `ChallengeStore.Store.CancelChallenge` | server/api_auth.go:173-182 | removes the challenge if the secret fits |
| `GoogleLogin.AtMostOneIssue` | server/api_auth.go:391-439 | in every interleaving at most one handler issues a token for a challenge at a time |
| `GoogleLogin.AtMostOneToken` | server/api_auth.go:391-439 | in every interleaving at most one unrevoked token of a challenge exists at any time, also when revocations fail, and it belongs to the account that approved |
| `GoogleLogin.NoTokenAfterDelivery` | server/api_auth.go:434-438 | once a client got its token, none is ever created again for its challenge |
| `GoogleLogin.ApprovalHasEvent` | server/api_auth.go:117-131 | an approval comes from an earlier approve call on a live challenge without one |
| `GoogleLogin.ApprovedOnce` | server/api_auth.go:125-127 | the approving account of a challenge never changes |
| `GoogleLogin.IssueStarts` | server/api_auth.go:133-161 | issuing starts only through a poll with the right secret, before expiry, of an approved challenge that nobody else is working on |
| `GoogleLogin.AtMostFivePerIp` | server/api_auth.go:86-93 | in every interleaving no client address holds more than five challenges |
| `GoogleLogin.PollStarts` | server/api_auth.go:133-161 | in every reachable state an approved live challenge that no handler works on gets a handler from a poll at least three seconds after the last one |
| `GoogleLogin.SignInCompletes` | server/api_auth.go:391-439 | from every reachable state: if the approving account may get the token, that poll leads to its delivery when the store does not fail; the token is the account's, with the name asked for and no expiry |
| `GoogleLogin.GivingUpFrees` | server/api_auth.go:163-171 | a handler that gives up leaves the challenge as it was and free to be polled again |
| `GoogleLogin.RunKeeps` | server/api_auth.go:73-182 | the protocol invariant in every reachable state; among others the issuing flag is set exactly while a handler is at work, so it is never left behind |
| `GoogleLogin.StepKeeps` | server/api_auth.go:391-439 | every step of every handler, and every other use of the store, keeps it |
| `GoogleLogin.TokensFromBefore` | auth/sqlite.go:813-861 | no call of the user store but token creation brings a token that was not there |
| `Pbkdf2.Pbkdf2SHA256` | auth/auth.go:400-423 | equals PBKDF2 as defined in section 5.2 of RFC 8018 over an uninterpreted 32-byte HMAC, for every key length the standard allows; fewer than one iteration counts as one |
| `Pbkdf2.DeriveBlock` | auth/auth.go:408-419 | one block: the exclusive or of the iterated HMAC values, folded in place |
| `Pbkdf2.XorInto` | auth/auth.go:414-417 | in-place exclusive or |
| `Pbkdf2.XorBit` | auth/auth.go:417 | bit k of the result is set exactly if bit k of one operand is and that of the other is not |
| `Pbkdf2.XorUndoes` | auth/auth.go:417 | folding the same value in again takes it back |
| `Pbkdf2.KeyBits` | auth/auth.go:400-423 | every bit of a key: bit k of byte p is set exactly if it is set in byte p mod 32 of an odd number of U_1, ..., U_c of block p / 32 + 1 |
| `Pbkdf2.TwoRounds` | auth/auth.go:408-419 | the first two rounds of a block written out, the salt before the block number |
| `Pbkdf2.OctetsOf` | auth/auth.go:407-409 | the block number in four octets, most significant first |
| `Pbkdf2.ShorterIsPrefix` | auth/auth.go:400-423 | shorter derived keys are prefixes of longer ones |
| `PasswordHash.HashPassword` | auth/auth.go:365-377 | prints `pbkdf2-sha256`, 210000, the salt and the 32-byte key in Base64, separated by dollar signs |
| `PasswordHash.VerifyPassword` | auth/auth.go:379-398 | accepts exactly when the text parses and the password derives the stored key |
| `PasswordHash.ParseFormat` | auth/auth.go:376-394 | printing and parsing a stored hash is a round trip, through decimal and unpadded Base64 (section 4 of RFC 4648) |
| `PasswordHash.ParseExactly` | auth/auth.go:379-394 | accepted are exactly the texts of four fields that name the scheme and hold 1 to 2000000 iterations, 8 bytes of salt and 16 bytes of key at least |
| `PasswordHash.HashVerifies` | auth/auth.go:365-398 | a stored hash accepts a password exactly when it derives the same key; in particular its own |
| `PasswordHash.HashThenVerify` | auth/auth.go:365-398 | the two methods one after the other, for every password and salt |
| `KeyReader.ParseEscape` | scripts/libgen_tui.py:183-207 | the scanning loop finds what the definition of an escape sequence says |
| `KeyReader.EscapeStable` | scripts/libgen_tui.py:183-207 | a completed escape sequence is not changed by what follows |
| `KeyReader.DecodePrefix` | scripts/libgen_tui.py:210-240 | decodes what is decodable at the front of the buffer and keeps the rest |
| `KeyReader.ConsumedAdds` | scripts/libgen_tui.py:210-240 | consumed(a + b) = consumed(a) + consumed(rest(a) + b) |
| `KeyReader.DecodeAdds` | scripts/libgen_tui.py:210-240 | the characters of the decoded bytes do not depend on what follows, malformed bytes and their replacements included |
| `Utf8.DecodeEncode` | scripts/libgen_tui.py:240 | the model of UTF-8 decoding with replacement gives back every well-formed text |
| `Utf8.DecodeIsStrict` | scripts/libgen_tui.py:240 | and it is strict: where nothing is replaced, the bytes are the encoding of the result |
| `KeyReader.TokenizeResumes` | scripts/libgen_tui.py:243-294 | tokenizing can be interrupted anywhere without changing keys, characters or what is left |
| `KeyReader.StrokesComeOut` | scripts/libgen_tui.py:183-294 | whatever is typed and pressed comes out of its bytes with nothing left over: every character but ESC as itself, ESC [ or O and A to D as Up, Down, Right, Left, the paste markers as Ignore, every other control sequence as Unknown |
| `KeyReader.Reader.ReadKey` | scripts/libgen_tui.py:243-294 | one call takes the next key or run of characters off the stream of buffered and coming bytes, or finds that no complete one is left |
| `KeyReader.Reader.ReadEscape` | scripts/libgen_tui.py:257-272 | the branch for an escape sequence |
| `KeyReader.Reader.ReadText` | scripts/libgen_tui.py:273-290 | the branch for text |
| `KeyReader.SameForEveryChunking` | scripts/libgen_tui.py:243-294 | two readers of the same bytes in different pieces return the same keys and characters |
| `PersonalLibrary.LibrariesAreSeparate` | auth/library.go:191-359 | for every interleaving of all accounts' calls with fresh ids, restricting the tables to one account equals running its calls alone, and its results are the same |
| `PersonalLibrary.QueriesAreSeparate` | auth/library.go:54-331 | and every query of the account may return exactly the same lists |
| `PersonalLibrary.EveryCallIsLocal` | auth/reading.go:192-298 | one call works on the caller's part of the tables only |
| `PersonalLibrary.EveryQueryIsLocal` | auth/reading.go:92-190 | one query, with its joins and counts, sees the caller's part only |
| `PersonalLibrary.RunIsSound` | auth/sqlite.go:484-521 | every reachable library: no orphaned rows, list names unique per account ignoring case, at most 12 tags per item |
| `PersonalLibrary.RunConstraintExactly` | auth/reading.go:192-285 | a call of a run fails on a clash of keys of tags exactly if it gets as far as storing its tags and two of them hold U+0000, have equally many bytes and agree before it ignoring ASCII case |
| `PersonalLibrary.RunNeverConstraint` | auth/reading.go:192-285 | so no call of a run fails that way if its tags are free of U+0000 |
| `PersonalLibrary.IdsComeFromCalls` | auth/library.go:191-217 | every list and item in the tables was created under its id by an earlier call |
| `PersonalLibrary.LibraryStore.RecordBookRead` | auth/library.go:42-52 | inserts or refreshes the account's row for the book |
| `LibraryLaws.ReadIsRecent` | auth/library.go:42-52 | a book that was read is among the recent ones with that time; other rows stay; book ids of 1 to 200 bytes are accepted |
| `PersonalLibrary.LibraryStore.CreateBookList` | auth/library.go:191-217 | the new list, or the first error |
| `LibraryLaws.CreatedIsListed` | auth/library.go:191-217 | the exact condition (1 to 80 characters, no list of the account with that name ignoring case); the lists of the account are then those it had and a new, empty one |
| `PersonalLibrary.LibraryStore.DeleteBookList` | auth/library.go:219-230 | removes an own list with its rows |
| `LibraryLaws.DeletedIsGone` | auth/library.go:219-230 | a deleted list is neither listed nor found; the other lists stay with their books |
| `PersonalLibrary.LibraryStore.AddBookToList` | auth/library.go:232-254 | adds the book unless it is there, keeping its first time, and touches the list |
| `LibraryLaws.AddedIsInList` | auth/library.go:232-254 | the book is in the list, with its first time if it was in it; other books and lists stay |
| `PersonalLibrary.LibraryStore.RemoveBookFromList` | auth/library.go:256-277 | removes the book and touches the list |
| `LibraryLaws.RemovedIsAbsent` | auth/library.go:256-277 | the book is absent from the list; other books and lists stay |
| `PersonalLibrary.LibraryStore.AddBookTag` | auth/library.go:333-345 | adds the tag unless one of the same spelling ignoring case is there |
| `LibraryLaws.TaggedIsFound` | auth/library.go:333-345 | the book has the tag, in its first spelling, and is found under it; no other row changes; why a tag is refused |
| `PersonalLibrary.LibraryStore.RemoveBookTag` | auth/library.go:347-359 | removes the tag ignoring case |
| `LibraryLaws.UntaggedIsNotFound` | auth/library.go:347-359 | the book has the tag in no spelling and is not found under it; no other row changes |
| `PersonalLibrary.LibraryStore.Validate` | auth/reading.go:47-90 | the checked and normalized fields, or the first error |
| `LibraryLaws.GoodDrafts` | auth/reading.go:47-90 | the exact limits of all fields and the order of the errors |
| `PersonalLibrary.LibraryStore.CreateReadingItem` | auth/reading.go:192-222 | inserts the item and its tags, or changes nothing |
| `LibraryLaws.SavedIsFound` | auth/reading.go:192-222 | a saved item is found by its id with the trimmed fields as they were sent, the normalized tags, and the default title for a blank one |
| `PersonalLibrary.LibraryStore.UpdateReadingItem` | auth/reading.go:224-275 | changes title, body and tags of an own item, or nothing |
| `LibraryLaws.EditedIsFound` | auth/reading.go:224-275 | an edited item is found with the new title, body, tags and time and is otherwise as it was; the exact condition |
| `PersonalLibrary.LibraryStore.DeleteReadingItem` | auth/reading.go:287-298 | removes an own item with its tags |
| `LibraryLaws.DeletedItemIsGone` | auth/reading.go:287-298 | a deleted item is not found; the others keep their fields and tags |
| `LibraryLaws.CountIsShown` | auth/library.go:99-190 | the number shown with a list is the number of its books |
| `LibraryLaws.TagGroupsAre` | auth/library.go:279-295 | the tags of an account: one group for every tag of a book ignoring case, with its spellings and its books |
| `LibraryLaws.ItemsAre` | auth/reading.go:92-134 | the items shown are those of the account, of the book asked for if there is one |
| `LibraryLaws.RecentAnswers` | auth/library.go:54-97 | the recent books: up to the number asked for (12 without one, 100 at most), the latest first |
| `ReadingTags.NormalizeReadingTags` | auth/reading.go:23-45 | succeeds exactly when every tag has at most 40 characters and at most 12 different ones remain; the result is the first occurrences in order; fails for a long tag exactly when one is met before the thirteenth different tag |
| `ReadingTags.FirstsAreFirst` | auth/reading.go:33-40 | the result is the subsequence of first occurrences under lower-casing |
| `ReadingTags.FirstsCover` | auth/reading.go:33-40 | every named tag is represented |
| `ReadingTags.NormalizedAre` | auth/reading.go:23-45 | from the list as sent: which texts the resulting tags come from, in order, and that each text that is not blank reads like one of them |
| `ReadingTags.NormalizationIsStable` | auth/reading.go:23-45 | the result is in normal form, pairwise different under lower-casing, and normalizes to itself |
| `ReadingTags.BlankSquash` | auth/library.go:31-40 | a tag is empty after normalization exactly if it consists of white space, so blank tags are always skipped |
| `ReadingTags.InsertReadingTags` | auth/reading.go:277-285 | inserting fails exactly when two tags, or a tag and a stored one, agree under NOCASE; otherwise the tags are added |
| `ReadingTags.InsertableExactly` | auth/sqlite.go:383-388 | accepted and normalized tags violate the primary key of an item that has no tags exactly if two of them hold U+0000, have equally many bytes and agree before it ignoring ASCII case |
| `ReadingTags.NulTagsExample` | auth/reading.go:23-45 | two tags for which they do: `a`, U+0000, `b` and `a`, U+0000, `c` are accepted and differ, and the second violates the key |
| `ReadingTags.InsertNeverFails` | auth/sqlite.go:383-388 | normalized tags free of U+0000 never violate it |
| `Text.FoldEqual` | auth/sqlite.go:383-388 | keys under NOCASE agree exactly when the parts before the first U+0000 agree ignoring ASCII case and equally many bytes follow |
| `LibraryFilename.UniqueLibraryFilename` | server/admin_libgen.go:233-249 | watched for any number of calls of Lstat: it has returned exactly if one of that many candidates does not exist, and then with the first such candidate, the name itself or the least number from 2 on; empty for unusable names |
| `LibraryFilename.EndsWithinDirectory` | server/admin_libgen.go:233-249 | in a finite directory the search ends within one more candidate than there are entries, if none of them meets another error |
| `LibraryFilename.Pigeonhole` | server/admin_libgen.go:243-248 | the candidates are pairwise different, so they cannot all be taken |
| `LibraryFilename.EndsExactly` | server/admin_libgen.go:233-249 | in a directory with a limit on the bytes of a name, for every name without a slash: the search ends exactly when the name holds no U+0000 and the first candidate that is not in the directory is short enough, and at most as many candidates as there are entries come before that one; a caller can tell beforehand |
| `LibraryFilename.TooLongNeverEnds` | server/admin_libgen.go:243-248 | for a name over the limit the loop never ends |
| `LibraryFilename.LongNameExample` | server/admin_libgen.go:243-248 | for instance a name of 256 letters, in an empty directory whose names have at most 255 bytes |
| `LibraryFilename.NulExample` | server/admin_libgen.go:243-248 | nor does it for the short name `a`, U+0000, `b`, in an empty directory |
| `LibraryFilename.RoomEnds` | server/admin_libgen.go:243-248 | with room for the number and without U+0000 it always ends |
| `LibraryFilename.ExtensionKept` | server/admin_libgen.go:241-244 | a number does not change the extension |
| `LibraryFilename.NumberBeforeExtension` | server/admin_libgen.go:241-244 | the candidate for n is the stem, a space, n in parentheses, and the part from the last dot on |
| `LibraryFilename.CleanOf` | server/admin_libgen.go:234 | of a path only the part after the last slash counts, without one leading dot and white space around it |
| `LibraryFilename.PlainName` | server/admin_libgen.go:234-237 | no candidate contains a slash, unless the input consists of slashes |
| `LibraryFilename.SlashExample` | server/admin_libgen.go:234-248 | for instance every candidate for a single slash contains one |
| `BookPaging.CmdBooks` | cli/run.go:836-861 | without a limit: exactly the filtered and sorted catalogue from the offset on, for every catalogue size and offset; with a limit: that part of it; the error cases of both |
| `BookPaging.HandleApiBooks` | server/api_books.go:62-114 | filters, sorts and slices, after checking limit, offset and sort |
| `BookPaging.FetchedPage` | cli/run.go:893-917 | what the client gets for two numbers it printed into the query |
| `BookPaging.PageHolds` | server/api_books.go:98-114 | book k of a page is book offset + k of the catalogue, and the page is as long as limit and catalogue allow |
| `BookPaging.MatchesExactly` | server/api_books.go:73-87 | which books match: title, author, series or description mention the query; author, series and format fit |
| `BookPaging.DefaultPage` | server/api_books.go:62-72 | without parameters a page starts at 0 and has up to 50 books |
| `BookPaging.DefaultSort` | server/api_books.go:88-91 | and the sort is `modified-desc` |
| `BookPaging.PageValueOfItoa` | server/api_books.go:46-56 | the server reads the number the client wrote exactly if it is allowed |
| `BookPaging.ListingIsComplete` | server/api_books.go:70-81 | from offset 0 every matching book is listed as often as the index holds it, and no other |

## Left out

- HTTP handlers, templates, cookies, CSRF, JSON envelopes, flag parsing and the SQL driver: plumbing around the modelled steps.
- Columns that no modelled rule reads (language, last address, share links), settings other than open registration, and the foreign keys from the library tables to accounts: an account that uses its library exists.
- E-mail and name normalization of accounts: an address is an input that is in normal form or rejected.
- UserStore.Store: a failure of the database itself, which leaves the tables as they were, is not modelled; the digest of a token is an input beside the token, and which stored hashes a password fits is an input.
- ChallengeStore.Store: challenges are values in the map, not records shared by reference; every caller gets a copy in the source too.
- GoogleLogin.AtMostOneToken: assumes that ids of challenges and hashes of tokens are never drawn twice.
- SystemAlerts.AlertStore: the listing and counting queries, which only read.
- PersonalLibrary.LibraryStore: the read methods are relations between tables and admissible answers, without a sorting routine; each call is one atomic step, also where the source looks up a list before it opens its transaction.
- PersonalLibrary.QueriesAreSeparate: the spelling shown for a group of tags that differ in case only is any of theirs.
- HealthMonitor.AlertTellsOutcomes: a synthesis or restart between the service's answer and the monitor's reaction to it counts as coming after both.
- HealthMonitor.UpstreamHealth: the probe schedule and the error texts.
- HealthMonitor.TTSMonitor: the texts of the alerts are parameters with a title that is not blank; a store call that fails is not modelled, only what later checks make of it (`HealthMonitor.ChecksHeal`).
- TrackTiming.SynthSection: Python's float divisions are exact quotients here, then truncated.
- TrackTiming.CurrentParagraph: elapsed time is a real number.
- Playback.PlayTrack: failed and timed-out syntheses, tracks found in the cache, and limits on the size of a header.
- TimingHeader.HeaderDecodes: of JSON, arrays of whole numbers without white space; of atob, input without white space.
- KeyReader.Reader: timeouts, and so an ESC pressed alone.
- CacheCleanup.Cache: files that appear or vanish during the cleanup, and directory entries that are not regular files; times are real numbers.
- CacheCleanup.WithinLimit: like all theorems about what goes, assumes that every deletion succeeds; `CacheCleanup.ProtectedStays` does not.
- LibraryFilename.UniqueLibraryFilename: the loop of the source has no bound; here it is watched for a given number of calls. A file that appears after the check, and overflow of the counter.
- LibraryFilename.EndsExactly: inputs that consist of slashes, directories that cannot be searched, and file systems that ignore case or normalize names.
- Text.Fold: the server's texts are well-formed UTF-8 here.
- BookPaging.CmdBooks: the index does not change meanwhile, it holds fewer than 2^62 books, and a sort only rearranges; the sorts themselves, of which those by author and series are no orders.
- Pbkdf2.Pbkdf2SHA256: beyond the longest key of the standard only the length of the result is stated.
- LibGen search and download, conversion, book metadata, covers, audio synthesis, rendering, the service worker and the interface: foreign libraries and I/O.
- Role ranks, attempt limits, settings and profile updates, book requests and copyright claims: easy members that would add nothing.
