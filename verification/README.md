# A verified model of foragerr's protocols and text algorithms

foragerr is a self-hosted comic library manager: a Python backend that follows series, searches indexers, renames
files and keeps its secrets encrypted, and a TypeScript frontend over its HTTP API. This project models the parts of
it that carry the most state, branching and arithmetic, and proves what their code and documentation promise.

Each module follows one source file or one component of it. Code made of expressions is written as functions; code
that works in steps is written as methods, loops and classes and is proved against a specification, about which the
theorems are then stated. Requests and processes that interleave are state machines over their steps. Where a promise
is false of the code, the code is kept and the exact condition under which the promise holds is proved, together with
an input that breaks it.

| module | models |
|---|---|
| `Strings`, `Calendar`, `Utf8` | decimal numbers and white space, the proleptic Gregorian calendar, UTF-8 (section 3 of RFC 3629) |
| `IsoWeek` | ISO week keys and week arithmetic, against section 2.2.10 of ISO 8601:2004 |
| `CommentScan`, `CommentScanProperties`, `CommentTokens` | the comment extractor of the repository's comment check |
| `Keystore`, `KeystoreRuns` | at-rest encryption of secrets over any run of boots and saves |
| `IndexerSweep` | the one-shot sweep for the first enabled indexer, under concurrency and crashes |
| `Naming`, `TemplateText`, `FileNames`, `BodyText`, `TitleFit`, `TitleExample` | name templates, decimal-safe padding, file names within a byte budget, and when the title kept is the longest that fits |
| `FollowToggle` | paging through creators, and the optimistic follow toggle with its rollback |
| `ConfigFile`, `PublisherList`, `ConfigPut`, `ConfigMigration` | the documented config file, updates under a lock, and the crash-safe migration |
| `CoverUrl`, `CoverTargets`, `CoverPath`, `CoverCache` | allowed cover URLs with their canonical form, what their paths decode to, and the bounded cover cache |
| `FuzzyMatch` | the tiered quick search |
| `LogLine` | the key=value log line and its reader |

`dafny verify dfyconfig.toml` checks the whole project.

## Where the code and its documentation differ

- `isoWeek.ts` has no guard for the years 0 to 99, which `Date.UTC` takes for 1900 to 1999, and its keys have four
  digits. A day is found in the week its own key names iff its ISO year is one of 1000 to 9999 (`IsoWeek.DayInItsWeek`),
  and shifting by two numbers of weeks is shifting by their sum iff the week in between has such a year
  (`IsoWeek.AddWeeksComposes`).
- `comment_check.py` says scanning resynchronises at a line break. It does iff the text before it ends in neither an
  open block comment nor a backslash inside a literal (`CommentScanProperties.ResynchronisesIffComplete`).
- `keystore.py` puts migration off under a mismatched passphrase, because encrypting under the wrong key could not be
  undone. An update under such a passphrase still encrypts a secret it leaves out when that secret is stored in the
  clear (`KeystoreRuns.OmittedSecretReadsTheSame`); five steps from an empty database lose a secret that way
  (`KeystoreRuns.MismatchedUpdateLosesTheSecret`).
- `api/indexers.py` claims the sweep exactly once. It is won exactly once iff not every request that came to owe it
  died between its write and its claim (`IndexerSweep.ExactlyOneSweep`, `IndexerSweep.CrashLosesTheSweep`).
- `naming.py` looks for the longest title that fits by binary search. Padding can make a shorter title longer, and the
  search then stops short: it does for the title `5:x` under `{Issue Title} {Series Title:00} {Issue Number}` at the
  default limit, with a long issue title (`TitleExample.SearchStopsShortOfTheLimit`). It finds the longest whenever no
  token pads the title to two digits or more, or the title does not start with a number
  (`TitleFit.UnpaddedSearchFindsLongest`, `TitleFit.PadWidthDecides`).
- `hooks.ts` patches the creator wherever it is shown and leaves the rest alone. A cached bibliography has records too,
  and is given a count of followed creators that is no number, which a rollback does not take back
  (`FollowToggle.WhatStaysAsItWas`, `FollowToggle.RollbackIsScoped`).
- `config_migrations.py` leaves empty secrets out of the file it writes but hands them on to the start that migrates.
  That start and the next build the same settings iff all is accepted or something besides such secrets is refused too
  (`ConfigMigration.RestartBuildsTheSameSettings`); a secret left blank is refused once and then accepted
  (`ConfigMigration.BlankSecretIsRefusedOnce`).
- `covers.py` relies on one image having one canonical form. A canonical form is its own iff the path of the URL given
  does not end in white space (`CoverUrl.CanonicalIsIdempotent`, `CoverUrl.TrailingSpaceHasTwoForms`).
- `covers.py` looks under four layers of percent-encoding. Its verdict is that of an unbounded look for every segment
  whose layers end among those four (`CoverUrl.BoundedVerdict`, `CoverUrl.FourLayersAreNotEnough`).
- `covers.py` refuses paths with dot segments, encoded or not, segment by segment. An accepted path still has one once
  it is decoded iff a segment of it decodes to several with one among them, as that of `/comicgeeks/a%2f..` does
  (`CoverPath.WhenDecodedPathHasDots`, `CoverPath.EncodedSlashHidesDots`).
- `logging.py` writes the time stamp, the level and all keys unquoted. A line reads back as its fields iff those are
  free of the reader's special characters (`LogLine.RoundTrip`).
- `fuzzyMatch.ts` orders its tiers from strict to loose. A word-boundary match is also a subsequence match iff the
  regular expression flag `i` takes no character of the normalized term for another, as it takes one small sigma for the
  other (`FuzzyMatch.BoundariesNestIffNotConfused`, `FuzzyMatch.SigmaIsConfused`).
- `config_migrations.py` backs up before it looks for a migrator, so a file with a negative stamp is backed up at every
  start and never migrated (`ConfigMigration.ConfigDir.MigrateConfig`).

## Model

| member | source | states |
|---|---|---|
| Calendar.YearUnique | frontend/src/utils/isoWeek.ts:40-52 | a day lies in exactly one calendar year, the one the year function names |
| Calendar.DayOfCivil | frontend/src/utils/isoWeek.ts:31-37 | taking a day apart into year, month and date and putting it together again gives the day back |
| Calendar.CivilOfDay | frontend/src/utils/isoWeek.ts:31-37 | every civil date that exists is read back from the day it makes |
| Calendar.EpochIsDayZero | frontend/src/utils/isoWeek.ts:31-37 | day 0 is 1970-01-01 |
| Calendar.DaysAreCounted | frontend/src/utils/isoWeek.ts:31-37 | the date after a date, by the lengths of the months, makes the day after its day |
| Calendar.OnlyOneCount | frontend/src/utils/isoWeek.ts:31-37 | no other numbering of the dates is 0 at the epoch and goes up by one |
| IsoWeek.FirstThursday | frontend/src/utils/isoWeek.ts:4-11 | the week containing January 4 is the week of the year's first Thursday |
| IsoWeek.IsoYearSpan | frontend/src/utils/isoWeek.ts:40-52 | a day belongs to an ISO year iff its Monday lies between that year's first week and the next one's |
| IsoWeek.WeekNumberBounds | frontend/src/utils/isoWeek.ts:40-52 | week numbers run from 1 to the number of weeks of their year, and count whole weeks from week 1 |
| IsoWeek.LongYears | frontend/src/utils/isoWeek.ts:40-52 | a year has 53 weeks iff January 1 is a Thursday, or a Wednesday in a leap year, and else 52 |
| IsoWeek.AgreesWithPython | frontend/src/utils/isoWeek.ts:4-11 | week 1 starts on the day CPython's ISO calendar starts it on |
| IsoWeek.KeyOfDay | frontend/src/utils/isoWeek.ts:40-52 | the code's key is the standard's ISO year and week number, outside the years 0 to 99 |
| IsoWeek.KeyOfCivil | frontend/src/utils/isoWeek.ts:40-52 | the key of a civil date is the year of the Thursday within three days of it and the number of that Thursday |
| IsoWeek.DocumentedWeeks | frontend/src/utils/isoWeek.ts:94-102 | the documented keys and shifts around the ends of 2014, 2019 and 2020 |
| IsoWeek.ParseKey | frontend/src/utils/isoWeek.ts:54-62 | a printed key of a four-digit year parses to the year and week it was printed from |
| IsoWeek.KeyThatParses | frontend/src/utils/isoWeek.ts:54-62 | a printed key that parses at all has a four-digit year and names itself |
| IsoWeek.MondayOfKey | frontend/src/utils/isoWeek.ts:65-69 | the Monday of a day's key is the Monday of that day's week |
| IsoWeek.CanonicalKeys | frontend/src/utils/isoWeek.ts:40-69 | a well-formed key survives the trip through its Monday iff its year has four digits and its week exists in that year |
| IsoWeek.AddWeeksComposes | frontend/src/utils/isoWeek.ts:99-102 | shifting by a and then by any b weeks is shifting by a+b iff the week in between has an ISO year of 1000 to 9999 |
| IsoWeek.SameKeySameWeek | frontend/src/utils/isoWeek.ts:40-52 | any two days share a key iff the days they are taken for share a Monday; a day is taken for itself unless its year is one of 0 to 99 |
| IsoWeek.DayInItsWeek | frontend/src/utils/isoWeek.ts:105-111 | a day is among the seven dates of its own key iff its ISO year is one of 1000 to 9999 |
| IsoWeek.DatesOfAWeek | frontend/src/utils/isoWeek.ts:105-111 | the dates of a key are seven days in a row from its Monday |
| CommentScan.BothAreSyntaxes | tools/comment_check.py:342-351 | both instantiations of the scanner are syntaxes the theorems apply to |
| CommentScan.LexIsLossless | tools/comment_check.py:228-300 | the reference lexer's tokens are the whole text, in order |
| CommentScan.SwallowedAMarker | tools/comment_check.py:250-252 | true iff some comment marker occurs in the region |
| CommentScan.AppendParts | tools/comment_check.py:285-286 | a block comment becomes one unit per line, numbered on from its first line |
| CommentScan.CommentUnits | tools/comment_check.py:228-300 | the scanning loop reports exactly the units and unbalanced lines of the lexer's tokens |
| CommentTokens.LexIsTheReading | tools/comment_check.py:258-298 | the lexer's tokens are the one way to read a text by the rules, each token said by where it starts and ends |
| CommentTokens.BlockCommentsEnd | tools/comment_check.py:283-290 | every block comment ends at its first close marker, or at the end of a text that has none |
| CommentTokens.QuoteBodyIsBody | tools/comment_check.py:258-282 | a literal ends at the first quote or line break behind an even number of backslashes |
| CommentTokens.HidesIsMarkerIn | tools/comment_check.py:250-252 | a region hides a marker iff one stands at some position of it |
| CommentTokens.ScanReportsTheComments | tools/comment_check.py:228-300 | of every token exactly its lines are reported when it is a comment, and its last line when it is an open literal that hides a marker |
| CommentScanProperties.LexAtLineBreak | tools/comment_check.py:236-244 | the tokens of a complete text, a line break and another text are the tokens of each |
| CommentScanProperties.CompleteResynchronises | tools/comment_check.py:236-244 | after a complete text, scanning goes on at the next line as if it began there, lines counted on |
| CommentScanProperties.ResynchronisesIffComplete | tools/comment_check.py:236-244 | scanning resynchronises whatever follows iff no token of the text before is left open |
| CommentScanProperties.IncompleteTells | tools/comment_check.py:258-265 | after any text left open some continuation is reported differently |
| CommentScanProperties.UnitsInOrder | tools/comment_check.py:228-300 | every unit is a slice, without line break, of the line it names, and lines never go backwards |
| CommentScanProperties.MarkerInsideCut | tools/comment_check.py:246-252 | a marker that starts in a cut-off literal lies wholly inside it, so it is found there |
| CommentScanProperties.NoSilentMiss | tools/comment_check.py:246-300 | wherever a marker starts lies a reported unit, a literal closed by its own quote, or a literal reported as unbalanced |
| Keystore.RoundTrip | backend/src/foragerr/keystore.py:251-280 | decryption undoes encryption for exactly the values without the reserved prefix |
| Keystore.MigrationKeepsTheView | backend/src/foragerr/keystore.py:419-450 | migrating a row changes the decrypted reading of none of its values |
| Keystore.MigratedValues | backend/src/foragerr/keystore.py:419-450 | exactly the secrets of valid rows that are neither empty nor prefixed become tokens of their text, and nothing else changes |
| Keystore.MigrationIsComplete | backend/src/foragerr/keystore.py:419-450 | afterwards every secret text of a valid row is empty or carries the prefix, and a second pass changes nothing |
| Keystore.UntouchedRow | backend/src/foragerr/keystore.py:419-450 | a row changes iff it is valid and a secret of it is neither empty nor prefixed |
| Keystore.App.InitKeystore | backend/src/foragerr/keystore.py:312-366 | makes the key row once, and is available iff it just made it or the passphrase opens its sentinel |
| Keystore.App.CiphertextSecretsExist | backend/src/foragerr/keystore.py:369-390 | true iff some row of either table holds a framed value |
| Keystore.App.AnyCiphertext | backend/src/foragerr/keystore.py:369-390 | true iff some row of the table holds a framed value |
| Keystore.App.MigrateTable | backend/src/foragerr/keystore.py:419-450 | migrates every row of a table and counts the rows that held a secret in the clear |
| Keystore.App.MigrateOne | backend/src/foragerr/keystore.py:419-450 | migrates one row field by field, and writes iff it held a secret in the clear |
| Keystore.App.StartupHook | backend/src/foragerr/keystore.py:453-484 | a whole boot: the key row, both tables and the installed keystore |
| KeystoreRuns.OmittedSecretReadsTheSame | backend/src/foragerr/indexers/repo.py:32-48 | after any run a secret left out of an update reads the same at the next boot under the key row's passphrase iff it was framed, empty or no text, or the process was keyed |
| KeystoreRuns.MismatchedUpdateLosesTheSecret | backend/src/foragerr/indexers/repo.py:32-48 | a run in which an update under a mismatched passphrase leaves a secret out, and a matching boot can no longer decrypt it |
| KeystoreRuns.ReservedPrefixIsRefused | backend/src/foragerr/api/indexers.py:488-507 | a create or update with a secret that is framed or begins with the prefix writes nothing |
| KeystoreRuns.SavedAsTyped | backend/src/foragerr/indexers/repo.py:32-48 | a save stores supplied over stored values, secrets in the clear framed under the process's key, and leaves other rows alone |
| KeystoreRuns.KeyRowAlwaysFits | backend/src/foragerr/keystore.py:312-366 | over every run of boots, saves, deletions, restores and losses the key row holds the key of the keyed process |
| KeystoreRuns.OwedIsKept | backend/src/foragerr/keystore.py:453-484 | a secret typed while available stays stored under the key row's key until the row is rewritten or the key row lost |
| KeystoreRuns.MatchingBootReadsEverySecret | backend/src/foragerr/keystore.py:312-366 | after any run a boot is available iff there is no key row or its passphrase made it, and then reads every owed secret as typed |
| KeystoreRuns.OwedRowsAreAvailable | backend/src/foragerr/keystore.py:283-306 | after an available boot no row that holds only owed secrets is reported as unavailable |
| KeystoreRuns.MismatchedBootChangesNothing | backend/src/foragerr/keystore.py:453-484 | a boot under another passphrase changes no row and not the key row, and is unavailable |
| KeystoreRuns.LostKeyRowStrandsCiphertext | backend/src/foragerr/keystore.py:312-390 | after a lost key row old ciphertext cannot be read, and the fresh keystore reports that it started over ciphertext |
| KeystoreRuns.AvailableBootLeavesNoPlainSecret | backend/src/foragerr/keystore.py:393-450 | after an available boot every secret text of a valid row is empty or carries the prefix |
| IndexerSweep.StepKeeps | backend/src/foragerr/api/indexers.py:223-315 | every step of every request, and every crash, keeps the protocol's invariant |
| IndexerSweep.RunKeeps | backend/src/foragerr/api/indexers.py:396-485 | so does every schedule of steps and crashes |
| IndexerSweep.ExactlyOneSweep | backend/src/foragerr/api/indexers.py:396-485 | the claim is won at most once ever, and is one sweep enqueued unless its winner died or could not enqueue; once all requests ended it was won iff not every request that owed it died first |
| IndexerSweep.NothingLostWithoutCrashes | backend/src/foragerr/api/indexers.py:396-485 | without crashes nothing is lost, so the claim is won exactly once iff some indexer was ever enabled |
| IndexerSweep.SweepIsEnqueuedOnce | backend/src/foragerr/api/indexers.py:432-485 | without crashes and failed enqueues the sweep is enqueued exactly once iff some indexer was ever enabled |
| IndexerSweep.DeletedIsGone | backend/src/foragerr/api/indexers.py:318-324 | a deleted row is gone for good, whatever other requests do, and no other row with it |
| IndexerSweep.WhoWritesARow | backend/src/foragerr/api/indexers.py:262-315 | a row changes only by an update of it, to the flag asked for, or by its delete |
| IndexerSweep.CrashLosesTheSweep | backend/src/foragerr/api/indexers.py:238-257 | a concrete run in which the one create that owes the sweep dies before its claim and no later create makes up for it |
| IndexerSweep.ResavingNeverAttempts | backend/src/foragerr/api/indexers.py:301-315 | an update drops out as it loads its row iff it does not ask to enable, finds the row enabled or gone, or is refused, and then never reaches the claim, whatever else happens |
| Naming.PiecesAreLossless | backend/src/foragerr/naming.py:141-142 | splitting a segment into literal characters and tokens loses nothing |
| Naming.PartsAreLossless | backend/src/foragerr/naming.py:141-142 | splitting a template into segments and bracketed groups loses nothing |
| TemplateText.TokenAtIff | backend/src/foragerr/naming.py:142 | a token is read at the start of a text iff the text starts with a token as it is written |
| TemplateText.FirstGroup | backend/src/foragerr/naming.py:141 | the first bracketed group is found, and none only where there is none |
| TemplateText.OneTokenTemplate | backend/src/foragerr/naming.py:180-202 | a template of one token renders to the field its name means, padded and in the case of the name, or to the bracketed id |
| Naming.PaddingIsDecimalSafe | backend/src/foragerr/naming.py:165-177 | padding keeps sign, fraction and digits, puts zeros in front up to the width exactly when shorter, leaves other values alone and is idempotent |
| Naming.RenderSegment | backend/src/foragerr/naming.py:180-202 | the segment loop renders each piece in order and reports which tokens were empty |
| Naming.Render | backend/src/foragerr/naming.py:205-220 | the group loop renders the parts of the template in order |
| Naming.GroupVanishes | backend/src/foragerr/naming.py:205-220 | a bracketed span vanishes iff it has a token and all its tokens are empty |
| Naming.TemplateIsFilledIn | backend/src/foragerr/naming.py:205-220 | every template renders with each character outside tokens where it is, each token replaced by its value, and nothing gone but groups whose tokens are all empty |
| Utf8.CodePointOfOctets | backend/src/foragerr/naming.py:232-240 | the octets of a character decode to its code point |
| Utf8.DocumentedBytes | backend/src/foragerr/naming.py:232-240 | the examples of section 7 of RFC 3629 |
| Utf8.CutDecodesToPrefix | backend/src/foragerr/naming.py:232-240 | cutting the bytes anywhere and decoding gives the longest prefix of characters that fits the cut |
| Utf8.DecodeOfEncode | backend/src/foragerr/naming.py:232-240 | decoding an encoded string gives it back |
| Utf8.DecodeStrictEncodes | backend/src/foragerr/covers.py:71-87 | bytes that decode strictly are the encoding of what they decode to |
| Utf8.StrictDecodeOfEncode | backend/src/foragerr/covers.py:71-87 | the encoding of any string decodes strictly to it |
| FileNames.BodyIsLegal | backend/src/foragerr/naming.py:243-248 | with replacement on, a rendered body has no illegal character, whatever template and fields |
| BodyText.BodyCharacters | backend/src/foragerr/naming.py:243-248 | a body has no tab, no two spaces in a row, no space or dot at an end and nothing forbidden, and keeps every other character of the render in order but for what is trimmed off its ends |
| FileNames.TruncatedFits | backend/src/foragerr/naming.py:232-240 | truncation gives a prefix within the byte limit that does not end in a space or dot it could have cut |
| FileNames.TruncatedIsLongest | backend/src/foragerr/naming.py:232-240 | truncation keeps the longest prefix that fits, less the spaces and dots at its end when something was cut |
| FileNames.ShrinkTitle | backend/src/foragerr/naming.py:251-277 | the search ends on a trimmed prefix that fits or on the empty title, and on the longest that fits when every prefix shorter than one that fits fits too |
| TitleFit.CleaningKeepsNarrower | backend/src/foragerr/naming.py:243-248 | a render that another covers gives a body of no more bytes: replacing, collapsing and trimming keep the order |
| TitleFit.UnpaddedSearchFindsLongest | backend/src/foragerr/naming.py:251-277 | the search finds the longest title for all fields and budgets when no token pads the title to two digits or more, or the title does not start with a number |
| TitleFit.SearchCanStopShort | backend/src/foragerr/naming.py:251-277 | with a padded title token the search misses a title that fits |
| TitleExample.SearchStopsShortOfTheLimit | backend/src/foragerr/naming.py:251-317 | it does so at the default limit, under a template with issue title and number, for an issue title of 247 letters |
| TitleFit.PadWidthDecides | backend/src/foragerr/naming.py:165-177 | for a template of one title token the search always finds the longest title iff the pad is at most one digit wide |
| FileNames.FitBody | backend/src/foragerr/naming.py:303-317 | a body within its budget: the full render, or the render with the title the search ends on, cut only when not even the empty title fits |
| FileNames.RenderFilename | backend/src/foragerr/naming.py:280-317 | the extension as given, behind a dot unless it begins with one, behind a body within what it leaves of the limit, legal, with only the title giving way |
| FollowToggle.FetchAllPages | frontend/src/api/hooks.ts:75-87 | collects the pages in order up to the first that is empty or reaches its own total |
| FollowToggle.WhereTheWalkStops | frontend/src/api/hooks.ts:75-87 | every page before the last had rows and left the rows short of its total, and the last did not |
| FollowToggle.AgreeingPagesAreAllFetched | frontend/src/api/hooks.ts:75-87 | when all pages agree on the total nothing is missed |
| FollowToggle.Absorb | frontend/src/api/hooks.ts:1400-1406 | appends the rows of a page whose ids were not seen before |
| FollowToggle.WalkCreators | frontend/src/api/hooks.ts:1391-1418 | the walk over the pages the first one announces yields their rows, each id once, first row kept |
| FollowToggle.DedupKeepsFirsts | frontend/src/api/hooks.ts:1400-1406 | the rows kept are exactly the first of their ids, in order |
| FollowToggle.QueryCache.PatchCreatorEverywhere | frontend/src/api/hooks.ts:1507-1528 | patches every cached list and profile of the creator, gives every bibliography a count that is no number, and changes nothing else |
| FollowToggle.QueryCache.OnMutate | frontend/src/api/hooks.ts:1535-1546 | writes the asked flag everywhere the creator is shown and remembers its opposite |
| FollowToggle.QueryCache.OnError | frontend/src/api/hooks.ts:1547-1552 | writes the remembered flag back everywhere the creator is shown |
| FollowToggle.WhatStaysAsItWas | frontend/src/api/hooks.ts:1507-1528 | an entry not about the creator is unchanged iff it has no records, or is a list with a count not below zero, or a bibliography whose count already was no number |
| FollowToggle.WhenDriftIsKept | frontend/src/api/hooks.ts:1467-1485 | the header count moves with the followed rows iff at most one row flips and the count need not go below zero |
| FollowToggle.PatchKeepsHonesty | frontend/src/api/hooks.ts:1467-1485 | a list with unique ids whose count covers its followed rows stays one, with the same distance between the two |
| FollowToggle.RunShowsLastWords | frontend/src/api/hooks.ts:1497-1557 | after any interleaving of toggles and rollbacks every row shows the last word on its creator, honest counts moved with their rows, bibliographies lost their count, and nothing else changed |
| FollowToggle.RollbackIsScoped | frontend/src/api/hooks.ts:1497-1557 | a rollback leaves other creators as their own toggles left them, restores its creator iff the toggle was a real flip, and does not restore the count of a bibliography |
| ConfigFile.RenderDocumentedConfig | backend/src/foragerr/config.py:1485-1547 | the rendering loop writes the lines of the documented file, field by field, then the unknown keys |
| ConfigFile.WrittenFileReadsBack | backend/src/foragerr/config.py:1485-1547 | the file reads back as the values with defaults filled in, without directory, environment-only and empty secrets, unknown keys kept |
| ConfigFile.FileSaysOfField | backend/src/foragerr/config.py:1508-1541 | nothing of the directory and environment-only secrets is in the file, a secret as provided unless empty, every other field or its default |
| ConfigFile.FileSaysOfUnknown | backend/src/foragerr/config.py:1541-1547 | unknown keys are in the file as provided |
| ConfigFile.RewritingChangesNothing | backend/src/foragerr/config.py:1485-1547 | rendering what a rendered file says gives the same file |
| ConfigFile.ReloadGivesTheSameSettings | backend/src/foragerr/config.py:1583-1606 | accepted values and the file written from them build the same settings iff every field survives, the conditions named field by field |
| ConfigFile.SettingsAsGiven | backend/src/foragerr/config.py:1671-1688 | settings are refused iff a validator refuses a given value or all of them together, and the environment's value is given before the file's |
| PublisherList.CleanNonComicPublishers | backend/src/foragerr/config.py:1293-1332 | the loop keeps the first entry of every rule, refuses the first entry that is too long, and a list that is too big |
| PublisherList.KeptAreTheFirsts | backend/src/foragerr/config.py:1293-1332 | what is kept are exactly the entries before which none has the same star and the same fold, in their order |
| PublisherList.NoRuleIsLost | backend/src/foragerr/config.py:1293-1332 | cleaning keeps every rule |
| PublisherList.EveryEntryIsCovered | backend/src/foragerr/config.py:1293-1332 | every entry has a kept one with the same fold and the same star |
| PublisherList.StarredIsAnotherRule | backend/src/foragerr/config.py:1297-1302 | a name and the name with a star are two rules, both kept |
| PublisherList.EntriesAtCommas | backend/src/foragerr/config.py:1311-1314 | the entries are what stands between commas, stripped, where that leaves anything |
| PublisherList.WhenListsAreRefused | backend/src/foragerr/config.py:1315-1331 | a list is refused iff an entry is longer than 200 characters, naming the first, or more than 1000 rules are left |
| PublisherList.CleaningIsIdempotent | backend/src/foragerr/config.py:1293-1332 | cleaning a cleaned list changes nothing |
| ConfigPut.App.Apply | backend/src/foragerr/api/config_resources.py:525-571 | a rejected or failed update changes neither file nor settings; an accepted one stores the merge and hands the same settings to the workers |
| ConfigPut.OutcomeAsChecked | backend/src/foragerr/config.py:1583-1606 | an update is rejected iff a validator refuses the merge under the environment, whatever the disk says, and fails iff only the disk does |
| ConfigPut.StepKeeps | backend/src/foragerr/api/config_resources.py:525-571 | every step of every request keeps the store equal to that of the finished requests but for what the lock holder wrote |
| ConfigPut.PutsAreSerial | backend/src/foragerr/api/config_resources.py:74-76 | any interleaving leaves what the requests leave one after another, each exactly once, in the order they finished, and tells each what it comes to in that order |
| ConfigPut.AcceptedUpdatesPersist | backend/src/foragerr/config.py:1583-1606 | an accepted update stands in the file until a later accepted one sets the same key |
| ConfigPut.PutKeepsStep | backend/src/foragerr/config.py:1583-1606 | an update keeps the settings in use equal to those a restart would read |
| ConfigPut.SettingsStayInStep | backend/src/foragerr/api/config_resources.py:525-571 | so does any sequence of updates, when no environment-only key is in the file |
| ConfigMigration.MigrateForward | backend/src/foragerr/config_migrations.py:101-115 | the loop applies every migrator from the stamp on in turn, or none is registered and it fails |
| ConfigMigration.ConfigDir.PruneConfigBackups | backend/src/foragerr/config_migrations.py:177-189 | leaves the newest backups, at least one, and never touches the config file |
| ConfigMigration.NewestAreTheLast | backend/src/foragerr/config_migrations.py:177-189 | the backups kept are the last ones: as many as asked for, at least one, or all there are |
| ConfigMigration.RetentionAsWritten | backend/src/foragerr/config.py:1642-1646 | how many is the operator's number, and three when there is none |
| ConfigMigration.ConfigDir.BackupBeforeConfigMigration | backend/src/foragerr/config_migrations.py:163-174 | a whole copy of the config becomes the newest backup, the oldest ones go |
| ConfigMigration.ConfigDir.AtomicWriteText | backend/src/foragerr/config_migrations.py:208-231 | at every step the file is the old text or the complete new one |
| ConfigMigration.ConfigDir.MigrateConfig | backend/src/foragerr/config_migrations.py:118-160 | every state a crash could leave is safe; a newer or current stamp changes nothing; an older one leaves the migrated file and the copy |
| ConfigMigration.ConfigDir.LoadConfig | backend/src/foragerr/config.py:1635-1656 | a start, every state it could die in, and as many backups left as the operator's file asks for |
| ConfigMigration.StartByStamp | backend/src/foragerr/config_migrations.py:118-160 | a newer stamp is refused, the current one taken as it is, a negative one has no migrator, and no stamp or 0 migrates |
| ConfigMigration.StartSettles | backend/src/foragerr/config_migrations.py:118-160 | the file a start leaves is at the current version and the next start takes it as it is |
| ConfigMigration.CrashesLoseNothing | backend/src/foragerr/config_migrations.py:118-231 | after any number of interrupted starts the file is the original, or the migrated one beside a whole copy, and a completed start ends the same |
| ConfigMigration.RestartBuildsTheSameSettings | backend/src/foragerr/config_migrations.py:118-160 | a start that finds the migrated file builds the settings the migrating start built iff that one was accepted, or refused something no empty secret, or would be refused as a whole anyway |
| ConfigMigration.RestartDropsEmptySecrets | backend/src/foragerr/config.py:1524-1532 | the next start builds what the migrating one would have built without its empty secrets |
| ConfigMigration.WhenEmptySecretsMatter | backend/src/foragerr/config.py:1671-1688 | leaving the empty secrets out changes nothing iff they were accepted or something else is refused |
| ConfigMigration.BlankSecretIsRefusedOnce | backend/src/foragerr/config_migrations.py:118-160 | a file whose one line is a secret left blank is refused by the first start and accepted by the next |
| ConfigMigration.OperatorKeysSurvive | backend/src/foragerr/config_migrations.py:65-82 | an operator's key survives verbatim iff it is not the stamp and the renderer writes it; an unset recycle bin is pinned to the quarantine; the rest are defaults |
| CoverUrl.UnquoteShortens | backend/src/foragerr/covers.py:71-87 | strict percent-decoding changes nothing or makes the text shorter |
| CoverUrl.SegmentIsClean | backend/src/foragerr/covers.py:71-87 | the loop's verdict is that of looking at the first four candidates |
| CoverUrl.PeelingOnlyRefuses | backend/src/foragerr/covers.py:62-64 | looking under one more layer can only refuse more |
| CoverUrl.BoundedVerdict | backend/src/foragerr/covers.py:71-87 | a bounded look accepts exactly what an unbounded one accepts and what has more layers than it looks under |
| CoverUrl.FourPeelsSuffice | backend/src/foragerr/covers.py:62-87 | four layers give the unbounded verdict whenever the last layer is among the four candidates |
| CoverUrl.FourLayersAreNotEnough | backend/src/foragerr/covers.py:62-87 | a segment with one more layer gets another verdict |
| CoverUrl.FindRule | backend/src/foragerr/covers.py:118-125 | the rule loop allows exactly the three hosts, the shared one under its path, and what ends in a dot and one of the other two |
| CoverTargets.CanonicalOfWritten | backend/src/foragerr/covers.py:128-216 | of a URL as written there is a canonical form iff nobody is named, the port is the default, host and path may be fetched and it is short enough, and then it is host and path |
| CoverTargets.HostCaseDoesNotMatter | backend/src/foragerr/covers.py:202-216 | URLs that differ in the case of their hosts have one canonical form |
| CoverTargets.CleanPathIsHarmless | backend/src/foragerr/covers.py:71-93 | what stands between the slashes of a clean path is no dot, begins with no two and has no backslash, as sent and decoded, and no character is hidden |
| CoverTargets.UnquoteOfPercent | backend/src/foragerr/covers.py:71-87 | text with all bytes percent-encoded, in digits of either case, decodes to itself |
| CoverUrl.SharedHostNeedsItsPrefix | backend/src/foragerr/covers.py:47-55 | of a shared host only the exact name is allowed, and only where the once-decoded path starts with its prefix |
| CoverPath.PathDecodes | backend/src/foragerr/covers.py:112-118 | a path decodes iff each of its segments does, and its segments are then those the segments decode to |
| CoverPath.WhenDecodedPathHasDots | backend/src/foragerr/covers.py:71-118 | an accepted path decodes, and has a dot segment afterwards iff one of its segments decodes to several with one among them |
| CoverPath.EncodedSlashHidesDots | backend/src/foragerr/covers.py:71-93 | an accepted path below the shared host's prefix that has a dot segment once decoded |
| CoverUrl.SplitOfCanonical | backend/src/foragerr/covers.py:202-216 | a URL built from a plain host and path comes apart into them again |
| CoverUrl.CanonicalParts | backend/src/foragerr/covers.py:202-216 | a canonical form is an allowed plain lower-case host and path within the length limit |
| CoverUrl.CanonicalIsIdempotent | backend/src/foragerr/covers.py:202-216 | a canonical form is its own canonical form iff the path of the URL it was made from does not end in white space |
| CoverUrl.TrailingSpaceHasTwoForms | backend/src/foragerr/covers.py:202-216 | a URL whose canonical form has a different canonical form |
| CoverCache.SniffIsUnambiguous | backend/src/foragerr/api/cover_proxy.py:98-105 | a type is sniffed iff the body looks like it, in whatever order the magics are listed |
| CoverCache.TouchKeepsMostRecent | backend/src/foragerr/api/cover_proxy.py:108-112 | moving a touched key to the end and popping the oldest keeps exactly the most recently touched keys, in order |
| CoverCache.MostRecentIsUnique | backend/src/foragerr/api/cover_proxy.py:108-112 | the touches determine the keys and their order |
| CoverCache.TouchesDetermineTheCache | backend/src/foragerr/api/cover_proxy.py:84-112 | and with them every entry: the last body put under its key, with the type it sniffs as |
| CoverCache.Cache.constructor | backend/src/foragerr/api/cover_proxy.py:84 | an empty cache that nothing has touched |
| CoverCache.Cache.Begin | backend/src/foragerr/api/cover_proxy.py:143-155 | a refused URL is a 400, a hit is answered with the last body put and touches the key, a miss changes nothing |
| CoverCache.Cache.CachePut | backend/src/foragerr/api/cover_proxy.py:108-112 | stores the cover as the latest touch and keeps the cache at the most recent 64 |
| CoverCache.Cache.PopDown | backend/src/foragerr/api/cover_proxy.py:111-112 | the eviction loop drops the oldest keys and their entries until the cache fits |
| CoverCache.Cache.Finish | backend/src/foragerr/api/cover_proxy.py:156-187 | only a 200 with a body that sniffs as an image is stored and served; all else is a 502 that changes nothing |
| FuzzyMatch.GreedyIsLongest | frontend/src/lib/fuzzyMatch.ts:29-35 | the greedy walk finds the longest prefix of the term that can be embedded at all |
| FuzzyMatch.IsSubsequence | frontend/src/lib/fuzzyMatch.ts:28-35 | true iff increasing positions of the haystack spell the needle |
| FuzzyMatch.EscapedTermIsLiteral | frontend/src/lib/fuzzyMatch.ts:24-26 | an escaped term has no operator left and stands for itself |
| FuzzyMatch.BoundaryAsWritten | frontend/src/lib/fuzzyMatch.ts:51-53 | a term is at a boundary iff it stands behind nothing or behind a character that is none of a to z and 0 to 9 |
| FuzzyMatch.BoundariesNestIffNotConfused | frontend/src/lib/fuzzyMatch.ts:37-58 | for each term, all its word-boundary matches are subsequence matches iff the flag `i` takes no character of the normalized term for another |
| FuzzyMatch.SigmaIsConfused | frontend/src/lib/fuzzyMatch.ts:37-58 | the two small sigmas match at a word boundary and are no subsequence of each other |
| FuzzyMatch.TiersAreNested | frontend/src/lib/fuzzyMatch.ts:37-58 | each tier is the strictest way the term is found; a candidate matches iff the term is at a boundary of it or embedded, and iff embedded when no character of the term is confused with another |
| FuzzyMatch.BestTier | frontend/src/lib/fuzzyMatch.ts:79-88 | the best tier of all the names, despite the early break |
| FuzzyMatch.MatchSeries | frontend/src/lib/fuzzyMatch.ts:70-96 | nothing for a blank term, else the matching series sorted |
| FuzzyMatch.SortIsStable | frontend/src/lib/fuzzyMatch.ts:91-94 | the result is in order of tier and sort title, a permutation, and ties keep their order |
| FuzzyMatch.StableSortIsUnique | frontend/src/lib/fuzzyMatch.ts:91-94 | there is only one such result |
| FuzzyMatch.SearchShowsEachOnce | frontend/src/lib/fuzzyMatch.ts:60-96 | each series is shown as often as the library holds it, iff its title or an alias matches, under the strictest tier any does, stricter tiers first and then by sort title |
| FuzzyMatch.MatchesInLibraryOrder | frontend/src/lib/fuzzyMatch.ts:77-89 | before sorting, the matches are in the order of the library |
| LogLine.Format | backend/src/foragerr/logging.py:104-128 | the line is the four leading fields and the caller's own, joined by spaces, then exception and stack text |
| LogLine.LineSays | backend/src/foragerr/logging.py:104-120 | a line says the four leading fields and then exactly the caller's own attributes, in order |
| LogLine.QuotedWhenNeeded | backend/src/foragerr/logging.py:97-101 | a value is quoted iff it is empty or has white space, a quote, a backslash or an equals sign |
| LogLine.QuoteReads | backend/src/foragerr/logging.py:97-101 | whatever the value, its quoted form reads as that value |
| LogLine.WordsComeFirst | backend/src/foragerr/logging.py:104-128 | readable fields are read first, one word each, whatever follows |
| LogLine.ReadsBackIffReadable | backend/src/foragerr/logging.py:97-128 | a list of fields reads back as itself iff every one is readable |
| LogLine.RoundTrip | backend/src/foragerr/logging.py:97-128 | a record's line reads back as its fields, whatever the values, iff its extra keys are plain and time stamp and level are bare |
| LogLine.TrailerComesAfter | backend/src/foragerr/logging.py:121-128 | an appended traceback or stack leaves the fields in front readable |

## Left out

- TitleFit.UnpaddedSearchFindsLongest: its condition is sufficient; over all titles it is exact for the template of one title token (`TitleFit.PadWidthDecides`), while in others the longest title can still be found with a pad, depending on the budget and the rest of the template.
- TitleFit.PadWidthDecides: what the Unicode tables do is a parameter; converting case is taken to make no prefix of a title wider than the whole.
- CoverUrl.CanonicalIsIdempotent: an authority with brackets is not split, and Unicode lower case and the lenient decoding of the prefix test are parameters.
- FuzzyMatch.MatchSeries: the language's array sort is taken to be stable, trimming, folding and the order of titles are parameters.
- KeystoreRuns.MatchingBootReadsEverySecret: key derivation and authenticated encryption are ideal, a token opens under exactly the key that made it.
- IndexerSweep.ExactlyOneSweep: row ids never repeat in the model, while SQLite may give the id of a deleted last row to the next one.
- KeystoreRuns.OmittedSecretReadsTheSame: an update reads and writes the stored settings in one step, while the endpoint reads them in one session and writes them in another, so concurrent updates of one row are not modelled.
- ConfigMigration.CrashesLoseNothing: a crash is the death of the process between two steps; power failures that lose unsynced data, and file system errors, are not modelled.
- Times of day, invalid dates, `currentIsoWeek`, `isoDateKey` and `weekRangeLabel` of the week module.
- `python_units`, `doc_units`, `_quote_notes` and the rules the comment check applies to what it extracts.
- scrypt parameters, the framing of tokens in text, and the validation of settings models beyond a flag per row.
- Download client rows are covered as the second table of the keystore; `downloadclient.py` merges secrets as `indexers.py` does.
- The command queue, what the sweep does, and the database beyond atomic sessions: an enqueue succeeds or does not.
- Folder names, and the parser that reads file names back.
- Refetches that land between two follow toggles, query invalidation, and React.
- Field validators and the cross-field validators of the settings model are parameters; so is the comparison folding of publisher names.
- YAML syntax: a document is its sequence of comments, entries and mappings, and a file that is no mapping is not modelled.
- First-run generation of the config file, publisher-rule migration, and environment checks of the update endpoints.
- Redirect hops of the cover proxy, its fetch and its semaphore: a fetch fails or answers with a status and a body.
- Secret redaction in logs and the time format; attributes of a record arrive as text.
- Strings are sequences of Unicode scalar values, so lone surrogates and surrogate pairs do not occur.
