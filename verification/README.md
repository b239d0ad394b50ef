# Adventist Hymnarium core, modelled in Dafny

This project models the decision-making of the Adventist Hymnarium iOS app
and of its asset-maintenance scripts:

- how a hymn number and a hymnal edition become a remote path and a cache key;
- the audio playback session as a state machine (stop-first load, play, pause,
  stop, completion, interruption and route-change reactions, remote commands);
- the sheet-music loader that reads through a cache and probes continuation
  pages until two neighbouring pages fail, and the PDF page-range rule of a
  `HymnSheet`;
- the text processing of hymns (verse splitting and joining, verse numbering,
  chorus placement, the Amen labels of hymn 663), of responsive readings
  (sections and formatted text) and of the 1941 preparation script;
- search scoring and list filtering;
- the recent-hymns list, the favourite sets and the `HymnalService` lookups
  and previous/next navigation;
- the number pad, sheet-page paging, the `m:ss` clock text and deep links;
- the filename scripts for the audio folders and the missing-number reports.

Every operation is a pure function, or a method where a loop is the clearest
statement of the source. The cache is a finite map from key to bytes. The
network is a function from URL to response. `UserDefaults` is a map from key
to stored value. A folder is a set of file names, and a PDF is a partial map
from page index to page. Whether a cache write, a temporary-file write or an
image decode succeeds is a parameter. Swift's 64-bit `Int(_:)`, Python's
`int()`, Python's `:03d`, `zfill`, Swift's truncating `/` and `%`, and the two
languages' white-space classes are written out in `text.dfy`. Swift's
`String(format:)` hands a 64-bit `Int` to a `%d` or `%03d` conversion, which
reads a 32-bit C `int`; the model writes this out as `Text.CInt` (the low 32
bits, signed), so hymn numbers that differ by a multiple of 2^32 get the same
file names and cache keys, and the clock text repeats after 2^32 minutes.

The modules follow the program:

| file | models |
|---|---|
| `wrappers.dfy`, `seqs.dfy`, `text.dfy` | results and options; sequence helpers (filter, sort by key, sorted sets); string and number helpers as Swift and Python define them |
| `languages.dfy` | `HymnalLanguage`, `HymnalType` |
| `storage.dfy`, `defaults.dfy` | `StorageService`; the cache and `UserDefaults` as maps |
| `audio.dfy` | `AudioService` |
| `sheetmusic.dfy`, `hymnsheet.dfy` | `SheetMusicService`, `HymnSheet` |
| `hymns.dfy`, `hymnal.dfy` | `Hymn`/`Verse`, `HymnalService` |
| `readings.dfy` | `ResponsiveReading`, `ResponsiveReadingService` |
| `recents.dfy`, `favorites.dfy` | `RecentHymnsManager`, `FavoritesManager` |
| `search.dfy` | `SearchView` scoring, `HymnListView` filtering |
| `controls.dfy` | `NumberPadView`, the `SheetMusicView` toolbar, `NowPlayingView.formatTime` |
| `deeplinks.dfy` | `handleDeepLink` of both app entry points |
| `audiofiles.dfy`, `missing.dfy`, `prepare1941.dfy` | the rename scripts, the missing-number reports, the 1941 JSON preparation |

The source has several quirks, and the model follows the code in each case:

- `HymnalService` appends the responsive readings only when
  `language.id == HymnalType.current.languageCode`. No language id is the
  bare code "en", so the readings never join the hymn list, and
  `isReadingNumber` is false for every number. `Hymnal.LoadNeverAddsReadings`
  and `Hymnal.NoReadingNumbers` state this. The number pad does open
  readings, because it tests the 1985 edition directly.
- `AudioService.stop()` does not delete the temporary file, and a late
  download has no guard against being applied to a newer session. The model
  claims neither.
- `ResponsiveReadingService` loads favourites without clearing the set
  first, while `FavoritesManager` clears it.
- `rename_1941_files.py` does no existence check, so it can replace an
  existing `old_` file (`AudioFiles.Rename1941LosesFile`).

## Model

| member | source | states |
|---|---|---|
| Audio.AudioCacheKeyInjective | src/Services/AudioService.swift:144-155 | two recordings share a cache key exactly when the editions either both are or both are not the 1941 one and the hymn numbers agree in their low 32 bits, as `%03d` formats them; numbers in the 32-bit range never share a key |
| Audio.AudioPathParts | src/Services/AudioService.swift:144-151 | the 1941 edition reads from `audio/1941/NNN.mp3`, every other edition from `audio/1985/en_NNN.mp3`, with the `%03d` text of the number in the named place |
| Audio.AudioPathInjective | src/Services/AudioService.swift:144-151 | two recordings share a remote path exactly when the editions either both are or both are not the 1941 one and the hymn numbers agree in their low 32 bits |
| Audio.Pause | src/Services/AudioService.swift:116-120 | pausing stops playback and keeps the player, the current hymn, availability and the completion handler |
| Audio.Stop | src/Services/AudioService.swift:123-133 | stopping drops the player, the hymn, availability and the times, and keeps the loading flag, the error, the handler and the lock-screen entry |
| Audio.FetchAudio | src/Services/AudioService.swift:157-170 | a cached recording is used as is; otherwise the edition's remote path is downloaded, a success is stored under the edition's key (a failed store ignored) and a failure becomes a download error |
| Audio.LoadAndPlay | src/Services/AudioService.swift:136-230 | loading succeeds exactly when the recording was obtained and the temporary file written; success leaves hymn `n` playing with no error and the lock-screen entry "Hymn n"; failure leaves nothing playing and records the error |
| Audio.Play | src/Services/AudioService.swift:105-113 | an existing player resumes; without one a current hymn is loaded; otherwise nothing happens |
| Audio.PlayedToEnd | src/Services/AudioService.swift:193-208 | at the end of the item playback stops, the hymn is forgotten, the player stays and the stored completion handler fires |
| Audio.SetCompletionHandler | src/Services/AudioService.swift:363-366 | the handler slot holds the new handler and nothing else changes |
| Audio.ClearCompletionHandler | src/Services/AudioService.swift:368-371 | the handler slot is emptied and nothing else changes |
| Audio.CompletionCallsLatestHandler | src/Services/AudioService.swift:204-206 | only the last handler set fires at the end of a hymn, and none fires after clearing |
| Audio.HandleSessionEvent | src/Services/AudioService.swift:265-310 | an interruption that begins pauses, one that ends with "should resume" plays, the old device going away pauses, and every other or unreadable notification changes nothing |
| Audio.HandleRemoteCommand | src/Services/AudioService.swift:59-100 | only "play" without a current hymn fails, and then nothing changes; pause and stop pause or stop the session and leave the cache alone; play, and toggle on a stopped session with a hymn, play it; toggle on a stopped session without a hymn does nothing and still reports success |
| Audio.HandleHymnalNotice | src/Services/AudioService.swift:341-359 | a notice without a hymn number is ignored, a change of hymnal type stops playback, and any other notice loads and plays the hymn |
| Audio.CachedLoadIgnoresNetwork | src/Services/AudioService.swift:159-162 | with the recording cached, loading gives the same result whatever the network does and leaves the cache as it was |
| Audio.DownloadedAudioIsCached | src/Services/AudioService.swift:163-170 | a successful download is readable from the cache under the edition's key afterwards |
| Audio.LoadForgetsPreviousSession | src/Services/AudioService.swift:137-141 | loading begins with a stop, so its result does not depend on what was playing before |
| Audio.StopIdempotent | src/Services/AudioService.swift:123-133 | stopping twice is stopping once |
| Audio.ConsistentIsInvariant | src/Services/AudioService.swift:105-230 | the player exists exactly when audio is available, only an existing player plays, and the current hymn is the player's; every operation keeps this |
| Audio.HandlersKeepConsistent | src/Services/AudioService.swift:265-359 | the notification and remote-command handlers keep the same invariant |
| Audio.PlayNeverReloads | src/Services/AudioService.swift:105-113 | in a consistent session `play()` never takes its reload branch: it touches neither cache nor network and cannot fail |
| Audio.NowPlayingSurvivesStop | src/Services/AudioService.swift:315-316 | the lock-screen entry is not cleared by stop or by the end of a hymn, because the update returns early once there is no current hymn |
| Storage.StoreOrSkip | src/Services/AudioService.swift:168-169 | a cache write that succeeds can be read back, one that fails changes nothing, and no other key is touched |
| Storage.DownloadAsset | src/Services/StorageService.swift:14-50 | a download succeeds exactly when the URL can be built and the response is HTTP with status 200, and then gives the body; every failure is a `StorageService` error with code -1 |
| Storage.DownloadUsesAssetUrl | src/Services/StorageService.swift:52-55 | a successful download fetched exactly the URL `getAssetURL` gives for the same path |
| Storage.CleanPathSpec | src/Services/StorageService.swift:16 | a path without "//" is left alone, and in general cleaning splits at "//" and joins with "/" |
| Storage.CleanPathTripleSlash | src/Services/StorageService.swift:16 | cleaning is one left-to-right pass: "a///b" becomes "a//b", not "a/b" |
| Languages.GetLanguage | src/Models/HymnalLanguage.swift:93-95 | the lookup finds the edition whose id is exactly the text, and no edition for any other text |
| Languages.GetLanguageOfId | src/Models/HymnalLanguage.swift:4-9 | looking an edition up by its own id gives that edition back |
| Languages.IsoCodes | src/Models/HymnalLanguage.swift:11-20 | the two English editions share "en"; "es" and "ru" each belong to one edition |
| Languages.HymnsFileNameInjective | src/Models/HymnalLanguage.swift:59-70 | no two editions read their hymns from the same file |
| Languages.ThematicListAlwaysSupported | src/Models/HymnalLanguage.swift:72-79 | every edition has a thematic list: 1941 under the old-hymnal name, the others under the new-hymnal name with their ISO code |
| Languages.SheetsSupportedExceptOld | src/Models/HymnalLanguage.swift:81-91 | sheet music is available for every edition except 1941 |
| Languages.YearInjective | src/Models/HymnalLanguage.swift:46-57 | no two editions share a year |
| Languages.TypeFromRawValue | src/Models/HymnalType.swift:3-5 | the stored preference reads back only as "sda" or "old", each to its own hymnal type |
| Languages.TypeRawValueRoundTrip | src/Models/HymnalType.swift:3-5 | the raw values differ and reading one back gives its type |
| Languages.TypeTablesDistinguish | src/Models/HymnalType.swift:7-36 | the two hymnal types differ in display name and data file |
| Languages.HymnCounts | src/Models/HymnalType.swift:16-27 | both hymnals are English and non-empty, and the 1941 book has eight more hymns than the 1985 one |
| Languages.NoIdIsLanguageCode | src/Models/HymnalType.swift:25-27 | no edition id equals the bare code "en", so comparing an edition id with it is always false |
| Hymns.DecodeVerses | src/Models/Hymn.swift:33-39 | text content is cut at blank lines and the empty pieces dropped, keeping every non-empty piece in order and as often as it occurs; list content is taken as it is |
| Hymns.EncodableHasNoEarlySeparator | src/Models/Hymn.swift:36 | a verse with no blank line inside and no trailing newline cannot make the split find a separator early |
| Hymns.DecodeEncode | src/Models/Hymn.swift:28-50 | decoding what `encode(to:)` wrote gives the hymn back when every verse is non-empty, holds no blank line and does not end in a newline |
| Hymns.TrailingNewlineMoves | src/Models/Hymn.swift:36-48 | without that condition the round trip fails: verses "a\n" and "b" come back as "a" and "\nb" |
| Hymns.SameVerseIff | src/Models/Hymn.swift:136-157 | two verses are equal exactly when number, kind and text agree |
| Hymns.AmenLabelShape | src/Models/Hymn.swift:60-75 | the first four Amen labels are the fixed names; later ones read "Amen k+1" |
| Hymns.AmenLabelInjective | src/Models/Hymn.swift:60-75 | no two Amen positions share a label |
| Hymns.AmenVerses | src/Models/Hymn.swift:72-77 | hymn 663 gives one verse per text |
| Hymns.LeadingVerseNumber | src/Models/Hymn.swift:102-106 | a first line matching `^(\d+)[\s.]` that fits an `Int` gives its digits' value; any other line gives no number |
| Hymns.LeadingVerseNumberOf | src/Models/Hymn.swift:102-106 | a line that starts with a printed number and then "." or " " reads back that number |
| Hymns.ParseVerse | src/Models/Hymn.swift:83-115 | a blank text gives no verse; "chorus:" texts become the chorus; 1941 texts are numbered by position; 1985 texts take a leading number and drop that line, or become verse 1 |
| Hymns.ParseAllCount | src/Models/Hymn.swift:83-85 | one parsed verse for each text that is not blank |
| Hymns.ParsedOne1941 | src/Models/Hymn.swift:94-96 | in the 1941 edition a text gives at most one verse, numbered by its position |
| Hymns.ParseAll1941Range | src/Models/Hymn.swift:83-96 | in the 1941 edition the verse numbers lie within the positions of their texts |
| Hymns.WithinAfterOne | src/Models/Hymn.swift:83-96 | a verse numbered n, then verses numbered above n, are all in range |
| Hymns.RiseAfterOne | src/Models/Hymn.swift:83-96 | a verse numbered n, then rising verses above n, still rise |
| Hymns.ParseAll1941Increasing | src/Models/Hymn.swift:83-96 | in the 1941 edition the verse numbers rise strictly, so the later sort keeps their order |
| Hymns.AssembleWithoutChorus | src/Models/Hymn.swift:121-132 | with no chorus the result is the sorted verses |
| Hymns.AssembleKeepsVerses | src/Models/Hymn.swift:121-132 | dropping the choruses from the result gives back exactly the sorted verses |
| Hymns.AssembleChorusFollowsFirst | src/Models/Hymn.swift:124-130 | every chorus in the result is the hymn's chorus, placed right after a verse numbered 1 |
| Hymns.AssembleFirstHasChorus | src/Models/Hymn.swift:124-130 | every verse numbered 1 is followed by the chorus when there is one |
| Hymns.ParsedVersesAmen | src/Models/Hymn.swift:72-77 | hymn 663 yields one verse per text, numbered from 1, never a chorus, labelled by the Amen table |
| Hymns.ParsedVersesSorted | src/Models/Hymn.swift:117-118 | apart from hymn 663 the regular verses come out sorted by number and are a permutation of those parsed |
| Hymns.ParsedVersesChorus | src/Models/Hymn.swift:117-132 | the first chorus parsed is the only chorus shown, after each verse 1 |
| Hymns.RegularSorted | src/Models/Hymn.swift:118 | sorting the regular verses brings in no chorus |
| Hymns.SheetMusicOf | src/Models/Hymn.swift:14-19 | sheet music is shown only for hymns of the 1985 English edition, and is then the service's current pages |
| Hymnal.InitialLanguage | src/Services/HymnalService.swift:17-22 | the service starts on the 1941 hymnal exactly when the saved preference is that hymnal's raw value, and on the 1985 hymnal otherwise |
| Hymnal.WithLanguage | src/Services/HymnalService.swift:101-106 | every decoded hymn is kept, in order, unchanged except that its language id becomes the loading language's id |
| Hymnal.LoadHymnsFor | src/Services/HymnalService.swift:87-174 | a cached language comes back from the cache untouched; otherwise loading fails exactly when reading the file fails, and a successful load is stored in the cache under the language id |
| Hymnal.LoadNeverAddsReadings | src/Services/HymnalService.swift:108-125 | the readings guard compares a language id with the hymnal code "en", which no id equals, so a fresh load is exactly the file's hymns marked with the language and the responsive readings never join the list |
| Hymnal.CacheServesReload | src/Services/HymnalService.swift:89-92 | loading a language a second time returns what the first load returned, whatever the file and readings hold by then |
| Hymnal.LoadData | src/Services/HymnalService.swift:37-79 | the language never changes; a failed hymn load only records its error; when the hymns arrive the cache takes what the hymn load stored; if the thematic lists loaded alongside then fail, their error is recorded and the hymns and recent list stay as they were; if both succeed the error is cleared, the loaded hymns installed and only the recent numbers that name a loaded hymn kept |
| Hymnal.LoadDataFails | src/Services/HymnalService.swift:46-77 | a load fails exactly when the hymns or the thematic lists fail; a failed load keeps the hymns and the recent list, and the hymns' error is the one reported when both fail |
| Hymnal.RetryAfterThematicFailure | src/Services/HymnalService.swift:46-77 | after the thematic lists fail but the hymns arrived, the hymns are still shown unchanged, and the next successful load serves the stored hymns from the cache whatever the file then holds |
| Hymnal.SetLanguage | src/Services/HymnalService.swift:29-35 | choosing the current language changes nothing; otherwise the chosen language becomes current |
| Hymnal.SetLanguageTwice | src/Services/HymnalService.swift:29-35 | choosing the same language twice in a row has the effect of choosing it once |
| Hymnal.LoadHymnsIfEmpty | src/Services/HymnalService.swift:81-85 | hymns are loaded only when the list is empty; a non-empty list leaves the service as it is |
| Hymnal.HymnByNumber | src/Services/HymnalService.swift:203-205 | the lookup finds nothing exactly when no hymn has the number, and otherwise gives the first hymn with that number |
| Hymnal.HymnsInSpec | src/Services/HymnalService.swift:207-209 | the hymns of a range are those of the list whose number lies in the range, every one of them as often as the list holds it, in list order |
| Hymnal.RecentLoadedIsFilter | src/Services/HymnalService.swift:211-220 | the recent list keeps, in order, exactly the numbers for which a loaded hymn exists |
| Hymnal.NoReadingNumbers | src/Services/HymnalService.swift:222-226 | since the language id is never the code "en", no number counts as a responsive reading |
| Hymnal.PreviousIn | src/Services/HymnalService.swift:229-233 | there is no previous hymn exactly when the number is absent or first; otherwise the previous one is the number just before the first occurrence |
| Hymnal.NextIn | src/Services/HymnalService.swift:235-239 | the next hymn is the number just after the first occurrence, and there is none when the number is absent or last |
| Hymnal.PreviousOfNext | src/Services/HymnalService.swift:229-239 | in a list of distinct numbers, going to the next number and then to the previous one returns to the start |
| Hymnal.NextOfPrevious | src/Services/HymnalService.swift:229-239 | in a list of distinct numbers, going to the previous number and then to the next one returns to the start |
| Hymnal.HymnNavigationReturns | src/Services/HymnalService.swift:229-239 | when the hymn numbers are distinct, previous after next through the sorted hymn numbers returns to the hymn |
| HymnSheets.Found | src/Models/HymnSheet.swift:20-21 | the indices tried are exactly those in the range with a page, each once, ascending, and never more than the range holds |
| HymnSheets.Prepared | src/Models/HymnSheet.swift:23-26 | a page keeps its index; on a shared page with a rectangle its crop box becomes that rectangle, and any other page is left as it is |
| HymnSheets.PagesAtStep | src/Models/HymnSheet.swift:20-28 | one more step of the walk appends the prepared page when the document has one at that index and skips the index otherwise |
| HymnSheets.GetSheetPages | src/Models/HymnSheet.swift:17-32 | the result is nil exactly when no index of the sheet's range has a page; otherwise it holds the prepared pages for the indices found, in order, at least one and at most the page count; the document afterwards has every page of the range cropped in place, the rest untouched, and the pages handed out are the document's own |
| HymnSheets.CollectPages | src/Models/HymnSheet.swift:20-29 | walking the range hands out the prepared page of every index found, in order, and leaves the document with every page of the range cropped in place and the rest untouched |
| HymnSheets.CroppedStep | src/Models/HymnSheet.swift:20-29 | one more index of the range crops the document's page there, if it has one, and nothing else |
| HymnSheets.SheetPagesResult | src/Models/HymnSheet.swift:20-31 | after the walk, no page was found exactly when the range has none, there is at most one page per index, and each page handed out is the cropped document's page at its index |
| HymnSheets.PreparedTwice | src/Models/HymnSheet.swift:23-26 | cropping a page a second time changes nothing |
| HymnSheets.CroppedTwice | src/Models/HymnSheet.swift:17-32 | cropping the already cropped document over the same range leaves it as it is, and its pages in the range are already what a second call would hand out |
| HymnSheets.SheetPagesAscending | src/Models/HymnSheet.swift:17-32 | in a document whose pages know their own index, the pages come out with strictly increasing indices, all inside the sheet's range |
| Readings.FromCode | src/Models/ResponsiveReading.swift:54-58 | a raw value decodes to the section type whose code it is, and to nothing when no type has that code |
| Readings.CodeRoundTrip | src/Models/ResponsiveReading.swift:54-58 | every section type's code decodes back to that type |
| Readings.Role | src/Models/ResponsiveReading.swift:33-42 | every section has a role, and it is "All", "Leader" or "Congregation" exactly for the all, light and dark types |
| Readings.SectionEqualityByOrder | src/Models/ResponsiveReading.swift:44-51 | two sections are equal exactly when their orders agree, equal sections hash alike, and sections that differ in type and text still compare equal |
| Readings.SectionsShape | src/Services/ResponsiveReadingService.swift:42-62 | a reading gets one section per blank-line paragraph, numbered from 1; the last is read by all, the others alternate leader and congregation starting with the leader; each holds its paragraph trimmed |
| Readings.SectionsCoverContent | src/Services/ResponsiveReadingService.swift:45-61 | the paragraphs rejoined give the content back, and no two sections of a reading compare equal |
| Readings.SectionContentTrimmed | src/Services/ResponsiveReadingService.swift:59 | a section's text has no white space or newline at either end |
| Readings.FormattedContent | src/Models/ResponsiveReading.swift:13-17 | the formatted text is the text cut at each backslash-n and joined by newlines, then cut at each backslash-r and joined by nothing, then trimmed; it has no white space or newline at either end |
| Readings.FormattedPlain | src/Models/ResponsiveReading.swift:13-17 | text without escaped newlines or returns is formatted by trimming alone |
| Readings.FormattedIdempotent | src/Models/ResponsiveReading.swift:13-17 | formatting text whose formatted form has no escapes left changes nothing further |
| Readings.FormattedEscapedLines | src/Models/ResponsiveReading.swift:13-17 | lines without backslashes written with backslash-n between them are formatted as the same lines joined by newlines, trimmed |
| Readings.NoBackslashNoEscape | src/Models/ResponsiveReading.swift:14-15 | text without a backslash holds neither escape |
| Readings.JoinNoBackslash | src/Models/ResponsiveReading.swift:14 | joining backslash-free lines by newlines gives backslash-free text |
| Readings.EscapeSurvives | src/Models/ResponsiveReading.swift:14-15 | because backslash-r is deleted after backslash-n is replaced, backslash, backslash, `r`, `n` is formatted as a literal backslash-n |
| Readings.LoadReadings | src/Services/ResponsiveReadingService.swift:32-81 | once loaded, loading again does nothing; a missing or undecodable file changes nothing; otherwise every decoded reading is kept in order with number, title and content and its sections rebuilt, and the service counts as loaded |
| Readings.LoadOnce | src/Services/ResponsiveReadingService.swift:33 | after a successful load any later load, whatever the file holds, leaves the service as it is |
| Readings.ReadingFor | src/Services/ResponsiveReadingService.swift:83-85 | the lookup finds nothing exactly when no reading has the number, and otherwise gives the first reading with that number |
| Readings.LoadFavoriteReadings | src/Services/ResponsiveReadingService.swift:89-95 | saved favourites of the current language replace the set; without a saved list the set is left as it was, not cleared |
| Readings.ToggleFavorite | src/Services/ResponsiveReadingService.swift:101-108 | the reading's number flips in or out of the set, no other number changes, and the new set is saved under the language's key with every other key untouched |
| Readings.ToggleFavoriteTwice | src/Services/ResponsiveReadingService.swift:101-108 | toggling the same reading twice restores the favourite set |
| Readings.ClearFavorites | src/Services/ResponsiveReadingService.swift:119-122 | the set becomes empty and the empty list is saved under the language's key, every other key untouched |
| Readings.SortedFavoriteReadingsSpec | src/Services/ResponsiveReadingService.swift:114-117 | the favourite readings are exactly the loaded readings whose number is a favourite, as a permutation of that filter, in ascending number order |
| Recents.Prefix | src/Views/RecordsView.swift:16 | the prefix holds the first k elements, or all of them when there are fewer |
| Recents.LoadRecent | src/Views/RecordsView.swift:14-18 | a saved list is cut to the size limit and replaces the list; without one the list stays; the store is not touched |
| Recents.AddTo | src/Views/RecordsView.swift:24-37 | the added number comes first and only once; the list is as long as the limit or one more than the old entries other than the number, whichever is less; an old entry other than the number moves to one past the count of such entries before it, and is kept whenever that place is within the limit; the rest keep their order |
| Recents.MovedFirst | src/Views/RecordsView.swift:25-34 | removing the number, putting it in front and cutting to the limit leaves it once, in front of the old entries other than it, each at one past the count of such entries before it, up to the limit |
| Recents.MovedFirstOrder | src/Views/RecordsView.swift:25-34 | after the move the number appears exactly once, at the front, and what follows it is a subsequence of the old list without the number |
| Recents.MovedInFront | src/Views/RecordsView.swift:28-34 | putting the number in front of any subsequence of the old list that lacks it and cutting to the limit keeps it once, in front, followed by a subsequence of the old list |
| Recents.MovedFirstPlaces | src/Views/RecordsView.swift:25-34 | each old entry other than the number sits at one past the count of such entries before it, whenever that place is within the limit |
| Recents.OthersCount | src/Views/RecordsView.swift:26 | removing every copy of the number leaves as many entries as the list has minus its copies of the number |
| Recents.OthersAt | src/Views/RecordsView.swift:26 | after removing the number, an entry other than it sits at the count of such entries before it |
| Recents.PrefixSubseq | src/Views/RecordsView.swift:33 | cutting a list to a prefix keeps a subsequence of it |
| Recents.AddRecent | src/Views/RecordsView.swift:24-37 | the manager's list becomes the moved-to-front list, it is saved under "recentHymns", and no other key changes |
| Recents.ClearRecent | src/Views/RecordsView.swift:39-42 | the list becomes empty and the empty list is saved, no other key changing |
| Recents.AddKeepsDistinct | src/Views/RecordsView.swift:24-37 | adding to a list without repeats gives a list without repeats |
| Recents.AddHeadUnchanged | src/Views/RecordsView.swift:24-37 | adding the number already at the front of a list within the limit changes nothing |
| Recents.AddThenLoad | src/Views/RecordsView.swift:14-37 | loading right after adding reads back the list just saved |
| Favorites.FavoritesKeyInjective | src/Views/FavoritesView.swift:13-15 | different hymnals save their favourites under different keys |
| Favorites.LoadFavorites | src/Views/FavoritesView.swift:22-29 | the set is cleared and then replaced by the saved list of the current language when there is one |
| Favorites.LoadReplaces | src/Views/FavoritesView.swift:22-29 | what the set held before loading has no influence on the loaded set |
| Favorites.Toggle | src/Views/FavoritesView.swift:39-46 | the number flips in or out of the set, no other number changes, and the set is saved under the language's key, other keys untouched |
| Favorites.ToggleTwice | src/Views/FavoritesView.swift:39-46 | toggling the same number twice restores the set |
| Favorites.ToggleThenLoad | src/Views/FavoritesView.swift:22-46 | loading right after a toggle reads back the set just saved |
| Favorites.Clear | src/Views/FavoritesView.swift:52-55 | the set becomes empty and the language's key is removed, other keys untouched |
| Favorites.ClearThenLoad | src/Views/FavoritesView.swift:22-55 | loading after clearing gives an empty set, so no number is a favourite |
| Favorites.FavoritesInOrder | src/Views/FavoritesView.swift:84 | the listed numbers are exactly the favourites, in strictly ascending order |
| SheetMusic.PageNamesDistinct | src/Services/SheetMusicService.swift:66-108 | a continuation page's cache key and remote path differ from the main page's, and different pages get different keys and paths |
| SheetMusic.MainKeyInjective | src/Services/SheetMusicService.swift:66-74 | two hymns share a main-page key exactly when their numbers agree in the low 32 bits, as `%03d` formats them; numbers in the 32-bit range never share one |
| SheetMusic.SheetNaming | src/Services/SheetMusicService.swift:98-108 | page p of hymn n is cached as the padded number, an underscore, p and ".png", and fetched from the base file name with the same suffix |
| SheetMusic.Fetch | src/Services/SheetMusicService.swift:76-86 | bytes come from the cache when the key is there and from the remote store otherwise, and there are none only when both miss |
| SheetMusic.MainImages | src/Services/SheetMusicService.swift:72-91 | the main page contributes at most one image, exactly when it could be fetched and decodes, and it is that page's data |
| SheetMusic.PageImagesSpec | src/Services/SheetMusicService.swift:93-127 | the continuation images before a page are the pages that fetched and decoded, each with its data, in increasing page order, none left out |
| SheetMusic.StopsAtUnique | src/Services/SheetMusicService.swift:96 | the page where probing stops is fixed by the pages alone |
| SheetMusic.ProbeStep | src/Services/SheetMusicService.swift:96-126 | one probe appends the page's image and resets the failure run when it loads, and otherwise only lengthens the run; before a stop no two neighbouring pages fail |
| SheetMusic.ProbeEnd | src/Services/SheetMusicService.swift:96 | once two pages in a row have failed the walk has reached its stopping page |
| SheetMusic.CacheAfterStep | src/Services/SheetMusicService.swift:103-112 | probing one page takes the cache one write further |
| SheetMusic.CacheAfterAgrees | src/Services/SheetMusicService.swift:103-112 | pages not yet probed see the cache as it was at the start |
| SheetMusic.CacheAfterKeeps | src/Services/SheetMusicService.swift:111 | probing never changes or removes a cache entry that was already there |
| SheetMusic.CacheAfterStores | src/Services/SheetMusicService.swift:106-111 | when cache writes succeed, every probed page that could be fetched ends up cached |
| SheetMusic.CacheAfterOnly | src/Services/SheetMusicService.swift:106-111 | after probing, every key in the cache was already there or is the key of a probed page |
| SheetMusic.ProbePages | src/Services/SheetMusicService.swift:93-127 | the continuation loop stops at the first two neighbouring failures and returns the images of the pages before, in order; the cache keeps every old entry, gains every fetched page when writes succeed, and gains nothing but the keys of pages probed |
| SheetMusic.ProbedCache | src/Services/SheetMusicService.swift:93-127 | across the whole walk old cache entries survive and, when writes succeed, every fetched page is cached |
| SheetMusic.SheetNamingFinite | src/Services/SheetMusicService.swift:93-127 | a hymn's page keys are distinct and pages far enough out exist neither in the cache nor remotely, so the loop ends |
| SheetMusic.LoadImages | src/Services/SheetMusicService.swift:64-140 | without a main page the hymn is not found and the cache is untouched; otherwise the result is the main image followed by the continuation images up to the stop, an error exactly when that is empty, and the cache keeps old entries, gains what was fetched, and gains nothing but the main key and the probed pages' keys |
| SheetMusic.GetSheetMusic | src/Services/SheetMusicService.swift:39-62 | the hymn already shown comes back with nothing changed; otherwise the result is what loading the images gives (not found without a main page, else the main image and the continuation images up to the first two neighbouring failures, an error exactly when there are none) and the cache is the one that loading leaves; a success shows those images for that hymn with loading off; a failure records the not-found error, clears loading and keeps what was shown |
| SheetMusic.SheetMusicExists | src/Services/SheetMusicService.swift:142-150 | every hymn number is reported to have sheet music |
| SheetMusic.ExamplePages | src/Services/SheetMusicService.swift:72-127 | with only the main page and page 1 stored remotely and everything decodable, both fetch and pages 2 and 3 fail |
| SheetMusic.StopsAfterThree | src/Services/SheetMusicService.swift:96-126 | when page 1 loads and pages 2 and 3 fail, probing stops after page 3 with page 1's image alone |
| SheetMusic.TwoPageExample | src/Services/SheetMusicService.swift:64-140 | a hymn stored as a main page and page 1 loads exactly those two images, in that order |
| Search.RemovingPunctuationCleans | src/Views/SearchView.swift:10-12 | lower-casing and deleting commas and full stops leaves no capital, comma or full stop |
| Search.TrimmingClean | src/Views/SearchView.swift:13 | trimming clean text leaves normal text: clean, and without a blank at either end |
| Search.NormalizeIsNormal | src/Views/SearchView.swift:9-14 | normalized text is normal |
| Search.NormalIsFixed | src/Views/SearchView.swift:9-14 | normalizing normal text changes nothing |
| Search.NormalizeIdempotent | src/Views/SearchView.swift:9-14 | normalizing twice is normalizing once |
| Search.SearchTermsShape | src/Views/SearchView.swift:16-20 | the search terms are non-empty and contain no blank |
| Search.WordsOccur | src/Views/SearchView.swift:41 | every word of a text occurs in that text |
| Search.WordContains | src/Views/SearchView.swift:46-48 | a term inside a word of the title is inside the title |
| Search.VersesScorePositive | src/Views/SearchView.swift:51-62 | the verses add to the score exactly when some verse contains the term |
| Search.TitleScorePositive | src/Views/SearchView.swift:40-49 | a title word equal to or containing the term means the title contains it |
| Search.TermScorePositive | src/Views/SearchView.swift:34-63 | a term scores exactly when the title or some verse contains it |
| Search.TermsScorePositive | src/Views/SearchView.swift:34-63 | the terms score exactly when the hymn mentions one of them |
| Search.MatchScoreSpec | src/Views/SearchView.swift:22-66 | the score is never negative; it is positive exactly when there are terms and one is the hymn's number or is mentioned in title or verses; a number match alone is worth at least 100 |
| Search.RankedSpec | src/Views/SearchView.swift:68-85 | the results are exactly the hymns with a positive score, a permutation of that filter, highest score first |
| Search.Searched | src/Views/SearchView.swift:68-73 | empty text, or text with no terms, finds nothing; otherwise the hymns are ranked by those terms |
| Search.SearchedSpec | src/Views/SearchView.swift:68-85 | non-empty text gives the ranking for its terms |
| Search.DigitsAreNormal | src/Views/SearchView.swift:9-14 | a string of digits is normal and contains no blank |
| Search.OneWordIsOneTerm | src/Views/SearchView.swift:16-20 | a normal word with no blank is its own single search term |
| Search.NumberIsOneTerm | src/Views/SearchView.swift:16-20 | a number written out is a single search term |
| Search.SearchByNumberFinds | src/Views/SearchView.swift:22-85 | searching for a hymn's number always finds that hymn |
| Search.ListFilteredSpec | src/Views/HymnListView.swift:8-16 | with no text the whole list is shown; otherwise exactly the hymns whose title or number contains the text, in list order and as often as the list holds them; a hymn whose number is the text is always shown |
| Controls.KeyLabelsAreDigits | src/Views/NumberPadView.swift:40-54 | each key is blank or a single digit, and every digit from 0 to 9 has a key |
| Controls.Press | src/Views/NumberPadView.swift:161-166 | a non-blank key is appended while fewer than three digits are entered; otherwise the entry stays; an entry of at most three digits stays one |
| Controls.Delete | src/Views/NumberPadView.swift:110-116 | deleting drops the last character of a non-empty entry and leaves an empty one alone, keeping an entry of digits one |
| Controls.PressThenDelete | src/Views/NumberPadView.swift:110-166 | deleting right after an accepted key press restores the entry |
| Controls.EntryValue | src/Views/NumberPadView.swift:134 | a non-empty entry of digits reads as the number those digits denote |
| Controls.DigitsBelow | src/Views/NumberPadView.swift:161 | the value of n digits is below 10 to the n, so a three-digit entry stays below 1000 |
| Controls.ZeroValueIsZeros | src/Views/NumberPadView.swift:153-158 | digits read as zero exactly when all of them are 0 |
| Controls.GoEnabling | src/Views/NumberPadView.swift:152-158 | on what the pad can show, Go is disabled exactly when the entry is empty or all zeros, and highlighted exactly when it is enabled |
| Controls.Go | src/Views/NumberPadView.swift:129-142 | an entry that does not read as a number does nothing; a reading or hymn opened carries the entered number and is the first one in the loaded list with that number |
| Controls.GoChooses | src/Views/NumberPadView.swift:134-141 | a reading opens exactly when the 1985 hymnal is current, the number lies in 696..920 and a reading has it; nothing opens exactly when no hymn has the number and no reading opens |
| Controls.GoFindsHymn | src/Views/NumberPadView.swift:134-141 | outside the 1985 reading range, typing a listed hymn's number opens a hymn with that number |
| Controls.PreviousPage | src/Views/SheetMusicView.swift:53 | the previous page is one less, but never below 0 |
| Controls.NextPage | src/Views/SheetMusicView.swift:65 | the next page is one more, but never past the last image |
| Controls.PageControlsSpec | src/Views/SheetMusicView.swift:29-49 | the page dots and buttons show exactly when Next can move on some page; with one page or none, neither button would move; with more, one of them moves on every page |
| Controls.PagingSpec | src/Views/SheetMusicView.swift:49-70 | on a page in range, a button is disabled exactly when pressing it would not move, and previous and next undo each other wherever they move |
| Controls.PageLabelReadsBack | src/Views/SheetMusicView.swift:60 | the page label splits at " of " into the one-based page number and the page count |
| Controls.TruncMod | src/Views/NowPlayingView.swift:69-70 | the remainder completes the quotient rounded toward zero and takes the sign of the dividend, as Swift's % does |
| Controls.SecondsField | src/Views/NowPlayingView.swift:71 | a number of seconds below 60 is written as exactly two digits with that value |
| Controls.ClockOfFields | src/Views/NowPlayingView.swift:71 | minutes, a colon and two digits below 60 read back as the total number of seconds |
| Controls.FormatTimeReadsBack | src/Views/NowPlayingView.swift:68-72 | for a non-negative number of seconds whose minutes fit in 32 bits the text is minutes, a colon and two-digit seconds below 60 that add back up to the number; because `%d` keeps 32 bits, the text repeats 2^32 minutes later |
| Controls.FormatTimeInjective | src/Views/NowPlayingView.swift:68-72 | two non-negative times show the same text exactly when their seconds agree and their minutes agree in the low 32 bits; while the minutes fit in 32 bits, different times show different text |
| Controls.FormatTimeFields | src/Views/NowPlayingView.swift:68-72 | for a non-negative time the text is the low 32 bits of the minutes, a colon and the two-digit seconds |
| Controls.MinutesWrap | src/Views/NowPlayingView.swift:69-71 | 2^32 minutes later the minutes have the same low 32 bits and the seconds are the same |
| Controls.ClockWithin | src/Views/NowPlayingView.swift:68-72 | while the minutes fit in 32 bits the text reads back as the number of seconds |
| Controls.ClockRepeats | src/Views/NowPlayingView.swift:68-72 | the text for a time and for the time 2^32 minutes later are the same |
| Controls.SplitClock | src/Views/NowPlayingView.swift:71 | two clock texts with two-character seconds are equal only when their minute and second fields are |
| DeepLinks.NumberItemSpec | src/AdventistHymnariumApp.swift:52 | the number comes from the first query item named "number", and there is none without such an item |
| DeepLinks.HandleDeepLink | src/AdventistHymnariumApp.swift:40-57 | an accepted link sets the hymn number to the linked number; an unknown scheme, a bare app URL or any failed guard leaves it as it was |
| DeepLinks.LinkedNumberSpec | src/SDA_HymnalApp.swift:34-51 | a link yields number n exactly when the scheme is known, a host is present, the components' host is "hymn", the first "number" item has a value and that value reads as n |
| DeepLinks.LaterItemsIgnored | src/AdventistHymnariumApp.swift:52 | query items after the first "number" item never change the outcome |
| DeepLinks.HymnLinkOpens | src/AdventistHymnariumApp.swift:40-57 | the canonical link for a hymn number opens that hymn |
| DeepLinks.BareLinkChangesNothing | src/AdventistHymnariumApp.swift:42-45 | the app URL without a host opens the app and changes nothing |
| AudioFiles.RenameAllSucceeds | scripts/fix_1985_filenames.py:9-32 | walking a listing of distinct names that are all in the folder never hits a missing file |
| AudioFiles.RenameAllKeeps | scripts/fix_1985_filenames.py:11-34 | a file the plan leaves alone is still there at the end |
| AudioFiles.RenameAllStaysOut | scripts/rename_1941_files.py:10-20 | with a plan that never renames its own targets, a name that is planned away and absent at the start is absent at the end |
| AudioFiles.RenameAllPlaces | scripts/rename_1941_files.py:10-20 | every planned target exists at the end, and without an existence check every renamed source is gone |
| AudioFiles.RenameAllCount | scripts/pad_1985_filenames.py:11-29 | with an existence check the folder keeps its number of files |
| AudioFiles.EnNameShape | scripts/fix_1985_filenames.py:20-23 | the new name is "en_", at least three digits with the same value as the bare number, and ".mp3"; three or more digits are kept as they are |
| AudioFiles.FixPlanSpec | scripts/fix_1985_filenames.py:14-34 | exactly the bare-number names get a target, an en_ name of at least three digits with the same value that is not renamed again |
| AudioFiles.FixPlanSettled | scripts/fix_1985_filenames.py:14-23 | no target of the fix plan is itself renamed |
| AudioFiles.FixFilenamesSpec | scripts/fix_1985_filenames.py:5-34 | over a listing of the folder the script runs to the end, keeps the number of files, leaves every other name alone and gives every bare-number file its padded en_ name |
| AudioFiles.PadPlanSpec | scripts/pad_1985_filenames.py:14-21 | exactly the en_ names of fewer than three digits get a target, a different three-digit en_ name with the same value that is not padded again |
| AudioFiles.PadPlanSettled | scripts/pad_1985_filenames.py:14-21 | no padded name is padded again |
| AudioFiles.PadFilenamesSpec | scripts/pad_1985_filenames.py:5-29 | over a listing of the folder the script runs to the end, keeps the number of files, leaves every other name alone and gives every short en_ file its padded name |
| AudioFiles.OldPlanSpec | scripts/rename_1941_files.py:12-16 | exactly the en_ names get a target, "old_" with the same middle part and ".mp3", which is not renamed again |
| AudioFiles.OldPlanSettled | scripts/rename_1941_files.py:12-16 | no old_ name is renamed again |
| AudioFiles.Rename1941Spec | scripts/rename_1941_files.py:4-20 | over a listing of the folder every en_ file is gone and its old_ name exists, and every other file stays |
| AudioFiles.Rename1941LosesFile | scripts/rename_1941_files.py:19-20 | with no existence check, a folder holding both en_001.mp3 and old_001.mp3 ends with the single file old_001.mp3 |
| MissingReports.LastHymnIsHymnCount | scripts/check_missing_1985.py:20-22 | the last number checked, 695, is the 1985 hymnal's hymn count |
| MissingReports.ExistingNumbers | scripts/check_missing_1985.py:11-18 | the existing numbers are exactly the numbers read from the listed en_ names whose middle parses; other names are skipped |
| MissingReports.MissingInSpec | scripts/check_missing_1985.py:21-24 | the missing numbers are ascending, lie in the range, and are exactly the numbers of the range without a file |
| MissingReports.MissingInSplit | scripts/check_1985_range.py:28-37 | the missing numbers of a range are those of its first part followed by those of the rest |
| MissingReports.MissingInStep | scripts/check_missing_1985.py:22-24 | the first number of a range is listed, when missing, before the rest of the range |
| MissingReports.CheckMissing | scripts/check_missing_1985.py:26-30 | the total printed is the number of names listed |
| MissingReports.ReportNameReadsBack | scripts/check_missing_1985.py:29 | a listed name is an en_ name whose number reads back as the number reported |
| MissingReports.MissingNamesSpec | scripts/check_missing_1985.py:21-29 | each listed name names a missing number of the range, every missing number is listed, and no name repeats |
| MissingReports.CheckMissingSpec | scripts/check_missing_1985.py:4-32 | the report lists, without repeats, exactly the names en_NNN.mp3 of the numbers 1 to 695 that have no parsable file |
| MissingReports.RangesPartition | scripts/check_1985_range.py:24-25 | the seven ranges start at 1, follow on from one another without gap or overlap, and end at 695 |
| MissingReports.Block | scripts/check_1985_range.py:28-37 | a range prints at most one block, holding its bounds and its missing numbers |
| MissingReports.RangeBlocks | scripts/check_1985_range.py:34-37 | only ranges with something missing print a block |
| MissingReports.TotalIsListed | scripts/check_1985_range.py:37-39 | the total is the number of numbers listed in the blocks |
| MissingReports.BlockLists | scripts/check_1985_range.py:28-37 | a range's block lists exactly its missing numbers, and nothing when there are none |
| MissingReports.BlocksListSpan | scripts/check_1985_range.py:28-37 | over ranges that follow on from one another, the blocks read one after the other list the missing numbers of the whole span |
| MissingReports.ChainedTail | scripts/check_1985_range.py:24-25 | dropping the first of a chain of ranges leaves a chain that starts right after it |
| MissingReports.ListedConcat | scripts/check_1985_range.py:28-37 | the numbers listed by two runs of blocks are those of the first followed by those of the second |
| MissingReports.CheckRanges | scripts/check_1985_range.py:27-39 | the total printed is the sum over the blocks printed |
| MissingReports.CheckRangesAgrees | scripts/check_1985_range.py:4-39 | the range report lists the same missing numbers, in the same order, as the full report, and its total agrees |
| MissingReports.GatherSpec | scripts/find_missing.py:8-11 | gathering fails exactly when a considered name does not parse; otherwise it holds exactly the numbers parsed from considered names |
| MissingReports.DownloadedSpec | scripts/find_missing.py:7-11 | the script stops on an en_…mp3 name whose middle is not a number; otherwise the downloaded numbers are exactly those of the en_…mp3 names |
| MissingReports.FindMissingSpec | scripts/find_missing.py:1-20 | the script stops exactly when some en_…mp3 name has no number; otherwise it prints, ascending, exactly the numbers 1 to 695 that no such name carries |
| MissingReports.FindMissingStops | scripts/find_missing.py:9-10 | a stray en_final.mp3 next to en_001.mp3 stops the script |
| Prepare1941.StrippedPieces | scripts/prepare_1941_json.py:16 | there is one stripped piece for each blank-line piece of the content, that piece with its white space stripped |
| Prepare1941.VersesWellFormed | scripts/prepare_1941_json.py:14-16 | every verse kept is non-empty, has no white space at either end and holds no blank line |
| Prepare1941.WellFormedNoEarlyBreak | scripts/prepare_1941_json.py:16 | a verse kept, followed by a blank line, meets no blank line before that one |
| Prepare1941.VersesIdempotent | scripts/prepare_1941_json.py:14-16 | joining the verses with blank lines and preparing again gives the same verses |
| Prepare1941.SingleVerse | scripts/prepare_1941_json.py:16 | content with no blank line is one verse, the content stripped, unless it is all white space, when there is none |
| Prepare1941.Prepare | scripts/prepare_1941_json.py:12-23 | one record per source record in the same order, number and title copied and the verses cut from its content |
| Text.Lower | src/Views/SearchView.swift:10 | lower-casing keeps the length and maps each character on its own |
| Text.LowerIdempotent | src/Views/SearchView.swift:10 | lower-casing twice is lower-casing once |
| Text.Trim | src/Models/ResponsiveReading.swift:16 | trimming removes the longest runs of the trimmed class from both ends and keeps the middle as it was, which starts and ends outside the class |
| Text.TrimOfTrimmed | src/Services/ResponsiveReadingService.swift:59 | text already starting and ending outside the class is unchanged by trimming |
| Text.ContainsIffOccurs | src/Views/SearchView.swift:36 | one text contains another exactly when it occurs at some position |
| Text.JoinSplit | src/Services/ResponsiveReadingService.swift:45 | joining the pieces of a split with the separator gives the text back |
| Text.ReplaceIsSplitJoin | src/Models/ResponsiveReading.swift:14-15 | replacing every occurrence of a pattern is splitting at it and joining with the replacement |
| Text.ReplaceAbsent | src/Models/ResponsiveReading.swift:14-15 | replacing a pattern that does not occur changes nothing |
| Text.ReplaceCaselessOfLower | src/Models/Hymn.swift:89 | on lower-case text with a lower-case pattern, caseless replacement is plain replacement |
| Text.DeleteCharSpec | src/Views/SearchView.swift:11-12 | deleting a character leaves none of it and adds no new character |
| Text.SplitOnClassPieces | src/Views/SearchView.swift:18 | splitting at a character class leaves pieces with no character of that class |
| Text.SplitOnClassNone | src/Views/SearchView.swift:41 | text with no character of the class splits into itself alone |
| Text.SplitPiecesFree | scripts/prepare_1941_json.py:16 | no piece of a split holds the separator |
| Text.SplitFromFree | scripts/prepare_1941_json.py:16 | text holding no separator splits into itself alone |
| Text.SplitJoin | src/Models/Hymn.swift:36 | splitting pieces joined with a separator gives back the pieces when none of them meets the separator early |
| Text.IntToStringSign | src/Views/SearchView.swift:30 | a number's description starts with a minus sign exactly when it is negative |
| Text.IntToStringInjective | src/Views/SearchView.swift:30 | different numbers have different descriptions |
| Text.ZeroPad | scripts/fix_1985_filenames.py:22 | padding to a width keeps the text as a suffix, fills only with zeros in front and reaches the width unless already longer |
| Text.ZeroPadValue | scripts/fix_1985_filenames.py:22 | zero padding keeps digits digits and keeps their value |
| Text.Pad3Digits | scripts/check_missing_1985.py:29 | Python's `:03d` writes a non-negative number as digits with its value and a negative one as a minus sign and the digits of its magnitude |
| Text.Pad3Injective | scripts/check_1985_range.py:36 | Python's `:03d` writes different numbers differently |
| Text.CInt | src/Services/AudioService.swift:144 | the `int` a `%d` conversion reads is in the 32-bit range, equals the number inside that range, and differs from it by a multiple of 2^32 |
| Text.CIntSame | src/Services/SheetMusicService.swift:66 | two numbers reach `%d` as the same `int` exactly when they differ by a multiple of 2^32 |
| Text.SwiftPad3Same | src/Services/SheetMusicService.swift:66 | Swift's `%03d` formats two numbers alike exactly when they differ by a multiple of 2^32, and inside the 32-bit range it is the plain three-digit padding |
| Text.SwiftPad3Wraps | src/Services/AudioService.swift:144 | hymn 2^32 + 1 is formatted as "001", like hymn 1, and the largest `Int` as "-01" |
| Text.SwiftInt | src/Views/NumberPadView.swift:134 | any number read lies in the 64-bit range |
| Text.SwiftIntOfIntToString | src/Views/NumberPadView.swift:134 | every 64-bit number's description reads back as that number |
| Text.PyIntOfDigits | scripts/check_missing_1985.py:15 | a non-empty run of digits, leading zeros included, reads as its value |
| Text.PyIntOfNatToString | scripts/check_missing_1985.py:15 | the decimal text of a natural number reads back as that number |
| Text.PySlice | scripts/check_missing_1985.py:15 | the slice drops the given counts from the front and back, and is empty when they overlap |
| Text.PySliceOfWrapped | scripts/check_missing_1985.py:13-15 | slicing off a prefix and a non-empty suffix gives back what lay between them |
| Seqs.Filter | src/Views/HymnListView.swift:12-15 | the filtered list holds only elements of the list that pass, every element that passes, and each passing element exactly as often as the list does |
| Seqs.FilterSubseq | src/Views/HymnListView.swift:12-15 | filtering keeps the list order, takes nothing more often than the list holds it, and keeps every passing element as often as the list holds it |
| Seqs.FilterConcat | src/Views/SearchView.swift:79 | filtering a concatenation filters each part |
| Seqs.FindIndex | src/Services/HymnalService.swift:229-239 | the index found is the first whose element passes, and there is none exactly when no element passes |
| Seqs.First | src/Services/HymnalService.swift:203-205 | an element is found exactly when some element passes, and it is the first such element |
| Seqs.SortBy | src/Models/Hymn.swift:118 | sorting gives the same elements, as a permutation, in ascending key order |
| Seqs.DistinctIffSingletons | src/Views/RecordsView.swift:26 | a list has no repeats exactly when no element occurs more than once in its multiset |
| Seqs.MinOf | src/Views/FavoritesView.swift:84 | the element chosen belongs to the set and is its least element |
| Seqs.SortedSetSpec | src/Views/FavoritesView.swift:84 | a set sorted is a list of its elements, each once, in strictly ascending order |

## Left out

- AVFoundation and MediaPlayer internals are modelled only as the events they deliver to the session. This covers the player item's status observation, the 0.5 s time observer, seeking, `duration` and `currentTime`, and the now-playing dictionary beyond its title.
- `CacheService` and `CloudStorageService` are not part of this model. A cache directory is a map, a failed read is a miss, and a write succeeds or fails as a parameter says. The size-bounded `trimCacheIfNeeded` eviction is not modelled.
- Concurrency (`Task`, `@MainActor` hops, `async` waits) is not modelled: each operation runs to completion before the next.
- Bundle, JSON and file I/O are not modelled. Decoded content, file listings and `glob` results are inputs, and a listing is any order of distinct names. `print` and warning output are not modelled either.
- `HymnalService.loadThematicLists` and the thematic lists that `loadData` loads alongside the hymns are not modelled beyond their outcome: `Hymnal.LoadData` takes whether that load failed, and the lists themselves, their cache and their file lookup are left out.
- UIKit and PDFKit types are not modelled. A page is its index and crop box, and an image is its page number and bytes. Decoding bytes is a predicate parameter.
- Case mapping is ASCII only, because Swift's and Python's full Unicode case tables are outside the model. `localizedCaseInsensitiveContains` in `HymnListView` is modelled as an ASCII lower-case containment.
- Python's `\d` is read as ASCII digits only; Unicode decimal digits are not modelled.
- Text.PyInt, Text.PyIntOfDigits: Python's `int()` also accepts any Unicode decimal digit (Arabic-Indic, full-width and others); the model accepts ASCII digits only, which is what the file names the scripts read contain.
- Text.ContainsIffOccurs, Text.JoinSplit, Text.ReplaceIsSplitJoin, Search.WordContains: Swift's `==`, `contains`, `components(separatedBy:)` and `replacingOccurrences(of:with:)` compare strings by canonical equivalence over grapheme clusters; the model compares sequences of Unicode scalars, so text that differs only in normalisation (a precomposed letter against a letter plus a combining mark) is treated as different.
- `Int(time)` on a `TimeInterval` in `formatTime` is not modelled: the clock text is modelled on whole seconds.
- `URLComponents` parsing is an input: the model takes the scheme, host and query items as `URL` and `URLComponents` report them.
- The order of `Array(Set)` when favourites are saved is unspecified, so a saved favourite list is modelled as a set.
- Sort stability: `Seqs.SortBy` is stable, but Swift's `sorted` does not promise stability. Contracts only claim ordering and permutation, which hold either way.
- Section `id` (the order) and reading `id` (the number) are plain accessors and are not modelled separately.
- Recents.AddRecent, Recents.LoadRecent: require a non-negative `maxRecentHymns`. A negative stored value would make Swift's `prefix` trap, so only the setting's 5...50 range and the default are covered.
- HymnSheets.GetSheetPages: requires `pageCount >= 1` and no overflow at the range's upper end, because the Swift closed range traps otherwise.
- Audio.LoadAndPlay: the `play()` that follows a successful load is folded into the resulting state rather than modelled as a separate call.
