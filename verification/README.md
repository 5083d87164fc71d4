# CertSync: a verified model

CertSync renews TLS certificates on a server and distributes them to clients.  Once a day
the server sweeps its configured certificates and renews those that are due; a renewal ends
by writing four PEM files.  A client compares the certificate its domain serves with the
one the server stores, downloads a bundle when the stored one expires later, unpacks it,
copies the files over its own and runs a command that puts them into service.

The model follows the program's own parts, one module each:

| module | part |
|---|---|
| `GoTime`, `Float64`, `Hours` | 64-bit durations, rounding to doubles, durations as hours and days |
| `Calendar`, `Rfc3339` | civil dates, timestamps |
| `CheckTime`, `Scheduler`, `Renewal` | the daily check time, the sweep loop, the renewal decision |
| `Prediction` | the predicted renewal time against the sweeps that really run |
| `Base64`, `Pem`, `Storage` | PEM text and the four-file certificate store |
| `Bundle` | packing, unpacking and copying the certificate files |
| `Meta`, `Handlers`, `Front` | configuration, request handlers, report pages |
| `Client` | the two check flows and one sync |
| `Protocol` | the whole system as a transition system, and what holds in all its runs |
| `Refinement` | sweeps and syncs as runs of that system |

Instants are integers, nanoseconds since the Unix epoch; a zone is a fixed offset; a file is
a string with one character for each byte.  X.509 parsing is a parameter: a function from the
bytes of a PEM block to an expiry, or none.  What the outside decides (probes, the
certificate authority, the disk, how long things take) is a parameter of each operation, so
every theorem holds for all of it.  Mutable parts are classes with the fields the program
updates (`CertStorage`, `Scheduler`, `ServerConfig`, `Server`, `Pages`, `Directory`,
`Client`); their methods are proved against functions, and the lemmas are about those
functions.

The main results:

* every deployment in every interleaving strictly raises the live expiry
  (`Protocol.DeployRaisesLive`), deployments are at most one more than the renewals
  (`DeploysBounded`), one of the newest version catches up (`DeployCatchesUp`), and nothing
  changes after it until the next renewal (`Quiescent`);
* renewals raise what is stored, are spaced by the validity less the lead, are bounded in any
  span of time, and never bypass the scheduler's decision, whoever starts them;
* the sweep loop that is really executed is a run of that system, with the renewals its visits
  report (`Refinement.LoopIsRun`), and so is every outcome of `Sync` (`SyncOutcomeIsRun`);
* with sweeps shorter than a day, a due certificate gets at least lead - 1 attempts before it
  expires (`Scheduler.EnoughAttempts`), and sweeps never drift (`Scheduler.SweepGrid`);
* the predicted renewal time is exactly the first check instant that renews when the zones agree
  or the certificate is due (`CheckTime.ExpectedRenewAtAcrossZones`); for every page that shows a
  stored expiry, or a probed one that the probe goes on finding, it bounds the visit that really
  attempts the renewal (`Prediction.PredictionAgainstVisits`), and the sweep that does so starts at
  it under an exact condition (`PredictionAgainstSweeps`, `PredictionAgainstFirstSweep`);
* splitting a chain loses nothing, and the store is the replay of its saves
  (`Storage.SplitComplete`, `SplitAgain`, `ReplayLookup`), down to concrete PEM and base64, with
  any text between the blocks (`Pem.BlocksSpread`); a download succeeds exactly when every file has
  been written once (`Protocol.DownloadIff`);
* the two check flows agree, resting on a calendar and a timestamp round trip
  (`Client.FlowsAgreeIff`, `Rfc3339.ParseFormat`);
* the days a page shows, with the roundings of double precision, and the renewal test agree for
  leads up to 170 days exactly (`Front.DaysRemainingIff`).

## What the code does not keep

Where the code misses a property, the condition under which it holds is proved.

* A lead of more than 106751 days wraps around and misjudges some expiry
  (`GoTime.NeedsRenewalExactIff`).
* From a lead of 171 days on, a report page rounds the hours up across the boundary and shows
  the lead while the certificate is due already (`Front.DaysRemainingIff`); by less than a
  microsecond, for every lead up to 106751 days (`Front.DaysRemainingWithinMicrosecond`).
* A save with one PEM block leaves the `chain.pem` of an earlier save in place, and one without
  a block `cert.pem` too; the parts then match the full chain if and only if those files
  were absent or empty (`Storage.PartsMatchAfterSave`).
* A download needs all four files, so it is refused until each has been written once or was
  there before (`Protocol.DownloadIff`).  Checks go on asking for an update meanwhile, and
  nothing is ever deployed: one-block renewals alone never reach a client
  (`Protocol.NothingDeployed`), whose syncs leave everything as it was
  (`Refinement.SyncIsRun`).
* `ExpectedRenewAt` reads the check time in the zone of the expiry, which is UTC, while the
  scheduler uses local time: the prediction is exact if and only if the certificate is due already
  or the zones differ by whole days (`CheckTime.ExpectedRenewAtAcrossZones`).  Its comment
  calls it the time of the next renewal.  With sweeps shorter than a day, for a page made at any
  moment after the start and in any zones, the visit that makes the attempt comes, where the shown
  expiry is stored or the probe goes on finding it (`Prediction.PredictionAgainstVisits`)
  - less than a day before the predicted time, or, if it is under way when the page is made, less
    than two;
  - less than two days after it, or three when page and threshold come no later than the end of
    the first sweep and the second one attempts.

  The reasons are that the ticker is shifted past the check time by the length of the first sweep,
  and that a certificate is visited late in a long sweep.  In the scheduler's zone, a sweep after
  the first starts at the predicted time if and only if the ticker is not shifted and the start
  falls in the day the prediction searches (`Prediction.PredictionAgainstSweeps`); the first
  sweep, if its timer was set in time, if and only if that search starts no later
  (`PredictionAgainstFirstSweep`); and a visit is at the predicted time if and only if it is at a
  check instant of that day (`VisitAtPrediction`).
* With nothing stored, a page predicts from the expiry it has probed, but every check probes anew
  and renews at once when its probe finds nothing (src/core/server/scheduler.go:129-132).  The
  prediction holds as long as the probe goes on finding that expiry
  (`Prediction.PredictionAgainstVisits`).  Whatever the probes find, no check before the threshold
  renews if and only if each finds a certificate that is not due (`Prediction.UnstoredWaitsIff`,
  `Front.NoEarlyRenewalIff`); a single lost probe renews any number of days before the predicted
  time (`Prediction.LostProbe`).
* A probed certificate whose expiry is the zero time makes the two check flows differ, because
  only the server-side flow treats it as no expiry (`Client.FlowsAgreeIff`).
* An alias configured twice, automatic and later manual, has two kinds of writers; no alias
  has if and only if no automatic entry is shadowed by a manual one (`Meta.OneWriterIff`).
* The repository's README promises that an expire request which finds nothing stored and names an
  expiry that needs renewal starts a renewal and is answered with status 500
  (README.md:315-317).  For every query text and every parser, the renewal starts and the status
  is never given (`Handlers.NothingStoredReplies`).  Parsing has overwritten the error with nil,
  and building the reply reads the text of that nil error (src/core/server/handlers.go:176,
  :194), so no reply is formed; `Handlers.ExpireReply` has the value `NoReply` for it.
  Status 500 is given if and only if the text is empty, and a text that does not parse is
  answered under status 200 with an error code in the body (src/core/server/handlers.go:180).
  The program's own client always names an expiry, so it never sees status 500
  (`Client.NothingStored`).
* Unreadable upload parts, failed saves and missing certificate files are answered under status
  200 too, because `Failed` states a status that is never sent (src/core/server/base.go:42-44);
  `Handlers.UNSTATED` stands for it.
* `UploadHandler` is modelled although no route leads to it (src/server/main.go:151-158).

## Model

| member | source | states |
|---|---|---|
| GoTime.Wrap64 | src/core/cert/checker.go:148 | a wrapped product fits 64 bits and is the product itself when that fits |
| GoTime.Wrap64Congruent | src/core/cert/checker.go:148 | wrapping changes a product by a multiple of 2^64 only |
| GoTime.Sub | src/core/cert/checker.go:148 | a saturating difference fits 64 bits and is the difference itself when that fits |
| GoTime.SubNearest | src/core/cert/checker.go:148 | no duration is nearer to the true difference |
| GoTime.DaysDurationExact | src/core/cert/checker.go:148 | up to 106751 days the wrapping product is the number of days |
| GoTime.DaysDurationCongruent | src/core/cert/checker.go:148 | any number of days wraps around as a whole |
| GoTime.NeedsRenewalExact | src/core/cert/checker.go:147-149 | for every expiry, every clock and every lead from 1 to 106751 days, the 64-bit renewal test decides as the comparison in unbounded arithmetic |
| GoTime.NeedsRenewalExactIff | src/core/cert/checker.go:147-149 | 106751 is exactly the largest lead for which the test is right about every expiry of whole seconds, as all certificates have |
| Float64.RoundNearest | src/core/server/front.go:238 | rounding gives a double, and no double is nearer |
| Float64.NearestEven | src/core/server/front.go:238 | a tie is rounded to even |
| Float64.RoundMonotone | src/core/server/front.go:238 | rounding crosses no double |
| Hours.DivisionKeepsDays | src/core/server/front.go:238 | the division by 24 crosses no whole day, however it rounds |
| Hours.DaysReach | src/core/server/front.go:238 | as many whole days as a duration has are shown |
| Hours.DaysShort | src/core/server/front.go:238 | up to 170 days, no more than that |
| Hours.DaysShortByMicrosecond | src/core/server/front.go:238 | for any number of days, no more than that if a microsecond is missing |
| Hours.DaysRoundUp | src/core/server/front.go:238 | from 171 days on, one day more than that when a nanosecond is missing |
| Hours.DaysSymmetric | src/core/server/front.go:238 | before and after an instant the days are the same but for the sign |
| Hours.NoDays | src/core/server/front.go:238 | less than a day shows as none |
| Calendar.DateOf | src/core/server/scheduler.go:194-195 | every day number has a valid civil date whose day number it is |
| Calendar.DayNumberMonotone | src/core/server/scheduler.go:175 | later dates have larger day numbers |
| Calendar.DateOfDayNumber | src/core/server/scheduler.go:194-195 | every valid date of every year is recovered from its day number: with DateOf, a bijection |
| Calendar.TomorrowNumber | src/core/server/scheduler.go:194-195 | the date after a date, by the table of the twelve months and the rule of leap years, has the next day number |
| Calendar.Epoch | src/core/server/scheduler.go:194-195 | January 1 of 1970 has number 0 |
| Calendar.FirstsOfMonths | src/core/server/scheduler.go:194-195 | the first of each month lies 0, 31, 59, 90, 120, 151, 181, 212, 243, 273, 304 and 334 days after January 1, and from March on one more in years divisible by 4 but not by 100, or by 400 |
| Calendar.NextJanuary | src/core/server/scheduler.go:194-195 | January 1 lies 365 days after the one before, or 366 in such a year |
| Calendar.ValidIff | src/core/client/sync.go:218 | the valid dates are those up to the day before the next first of a month |
| Rfc3339.ParseFormat | src/core/client/sync.go:218 | parsing what the server formats gives back every expiry a certificate can have |
| Rfc3339.FormatParse | src/core/server/handlers.go:176 | a 20-character UTC timestamp that is accepted is the formatted text of the instant it parses to |
| Rfc3339.FourDigitYear | src/core/server/handlers.go:62 | the instants that can be formatted are exactly those of the years 0 to 9999 |
| Rfc3339.FormatFields | src/core/server/handlers.go:198 | the formatted text spells the fields of the instant at the places of section 5.6 of RFC 3339 |
| Rfc3339.FormatMeans | src/core/server/handlers.go:198 | read digit by digit, the formatted text is the valid civil date and clock time of the instant |
| Rfc3339.ParseIff | src/core/client/sync.go:218 | a timestamp is accepted exactly when it has that shape, a month, a day up to the last of that month and a clock time, and stands for that second |
| Rfc3339.ZeroTimeDate | src/core/server/handlers.go:53-55 | the zero time is the first instant of year 1 |
| CheckTime.ParseClock | src/core/server/scheduler.go:168-175 | for all six digits, the text they write is accepted exactly when it is a clock time, and means its second of the day |
| CheckTime.ParseIff | src/core/server/scheduler.go:168-175 | which texts are a check time, character by character: one or two digits of hour, two of minute and second, each in its range, and perhaps a fraction; and which second of the day they are |
| CheckTime.ScheduleMeans | src/core/server/scheduler.go:188-193 | any other text means three o'clock |
| CheckTime.OnTheWall | src/core/server/scheduler.go:194-195 | civil date and time of day in a zone make up the instant |
| CheckTime.NextRunAtLeast | src/core/server/scheduler.go:186-200 | for every instant, every zone and every configured text, parseable or not, the next run is the least instant from there on that shows the check time, less than 24 hours away |
| CheckTime.NextRunAtUnique | src/core/server/scheduler.go:186-200 | the only check instant of the 24 hours from an instant is its next run |
| CheckTime.FirstCheckFires | src/core/server/scheduler.go:166-182 | the first timer fires at the next run, or at once if the clock has passed it meanwhile; with the clock frozen the delay is exactly the distance to it |
| CheckTime.DaysLater | src/core/server/scheduler.go:197 | adding whole days keeps the time of day of a fixed zone |
| CheckTime.ThresholdExact | src/core/server/scheduler.go:209 | the threshold is the expiry less the lead, for every lead up to 106751 days |
| CheckTime.ExpectedRenewAtPredicts | src/core/server/scheduler.go:202-217 | in one zone no check instant before the prediction finds the certificate due, and the predicted one does unless it is exactly the threshold |
| CheckTime.FirstDueDecides | src/core/server/scheduler.go:202-217 | the first check instant from the clock or the threshold on is the first to find the certificate due, unless it is exactly the threshold |
| CheckTime.ExpectedRenewAtAcrossZones | src/core/server/scheduler.go:205-217 | with the expiry in another zone the prediction is less than a day off that instant, and exact if and only if the certificate is due already or the zones differ by whole days |
| CheckTime.ExpectedInOneZone | src/core/server/scheduler.go:205-217 | under that condition the zone of the expiry plays no part |
| Base64.DecodeEncode | src/core/cert/storage.go:83 | base64 decoding undoes encoding for all octets |
| Base64.SameBits | src/core/cert/storage.go:83 | the 24 bits of three octets are those of the four symbols that encode them, most significant first, as in section 4 of RFC 4648 |
| Base64.SameBitsOne | src/core/cert/storage.go:83 | a last single octet is two symbols with its 8 bits first, and two equal signs |
| Base64.SameBitsTwo | src/core/cert/storage.go:83 | two last octets are three symbols with their 16 bits first, and one equal sign |
| Base64.SymbolTable | src/core/cert/storage.go:83 | the alphabet is that of section 4 of RFC 4648 |
| Base64.AlphabetIff | src/core/cert/storage.go:94 | exactly the symbols of the alphabet are accepted |
| Base64.DecodeIff | src/core/cert/storage.go:94 | a text decodes exactly when it is quanta of four symbols, the last one perhaps padded |
| Base64.DecodeBits | src/core/cert/storage.go:94 | the octets decoded have the bits of the symbols, left-over ones dropped |
| Pem.Decode | src/core/cert/storage.go:94 | what is left after a block is strictly shorter, so repeated decoding ends; a decoded label can be encoded |
| Pem.DecodeSkips | src/core/cert/storage.go:94 | a line with no marker before a block, blank or not, is skipped |
| Pem.DecodeBlock | src/core/cert/storage.go:94 | a block laid out in any lines, with blanks or a carriage return after its markers, decodes to the octets of its body without blanks and line breaks; one whose body does not decode is skipped |
| Pem.LastBeginCounts | src/core/cert/storage.go:94 | of two BEGIN lines before an END line the later one opens the block |
| Pem.ScanOtherEnd | src/core/cert/storage.go:94 | an END line of another label, or with no block open, discards what is open, and the search goes on after it |
| Pem.ScanImproperBegin | src/core/cert/storage.go:94 | so does a line with a BEGIN marker that is no BEGIN line |
| Pem.NeverClosed | src/core/cert/storage.go:94 | a block without an END line is none |
| Pem.BlocksSpread | src/core/cert/storage.go:93-100 | encoded blocks with any marker-free lines before, between and after them decode to those blocks in order |
| Pem.StripChar | src/core/cert/storage.go:94 | spaces, tabs, carriage returns and line feeds are dropped from a body, and no other character |
| Pem.StripConcat | src/core/cert/storage.go:94 | wherever they stand |
| Pem.EncodeText | src/core/cert/storage.go:79-83 | an encoded block is its BEGIN line, the wrapped base64 of its octets and its END line |
| Pem.WrappedAt | src/core/cert/storage.go:79-83 | wrapping breaks the body after every 64 symbols and at its end, and changes no symbol |
| Pem.DecodeEncode | src/core/cert/storage.go:79-83 | an encoded block is decoded back, with whatever text follows it left over |
| Pem.BlocksEncodeAll | src/core/cert/storage.go:93-100 | decoding concatenated encodings gives the blocks in order |
| Pem.EncodeAllConcat | src/core/cert/storage.go:103-105 | encoding block after block is encoding the whole list |
| Storage.ExtractCert | src/core/cert/storage.go:78-84 | a text whose only block is the first one, or nothing if there is none |
| Storage.CollectBlocks | src/core/cert/storage.go:88-100 | the loop collects the encodings of all blocks, in order |
| Storage.JoinRest | src/core/cert/storage.go:102-107 | the loop joins all blocks but the first |
| Storage.ExtractChain | src/core/cert/storage.go:88-108 | a text whose blocks are all but the first, in order |
| Storage.PartsAre | src/core/cert/storage.go:78-108 | the chain is cut after its first block: leaf part and chain part, as blocks and as text |
| Storage.FirstExpiryMeans | src/core/cert/checker.go:128-145 | the first block of a text decides its expiry |
| Storage.SplitComplete | src/core/cert/storage.go:78-108 | leaf part followed by chain part is every block of the input, in order |
| Storage.SplitAgain | src/core/cert/storage.go:78-108 | splitting the re-encoded text finds the same blocks and gives the same two parts |
| Storage.SplitKeepsExpiry | src/core/cert/storage.go:78-108 | the leaf file and the re-encoded text tell the expiry of the original |
| Storage.PartsByBlockCount | src/core/cert/storage.go:60-68 | the leaf part is non-empty from one block on, the chain part from two on |
| Storage.SavedLookup | src/core/cert/storage.go:45-75 | what a save does to any file of any alias: rewritten with its part when the input has the blocks it needs, untouched otherwise |
| Storage.SavedMeans | src/core/cert/storage.go:45-75 | after a save fullchain.pem and privkey.pem hold the two texts as given, cert.pem the first block if there is one, chain.pem the others if there are any, and nothing else has changed |
| Storage.TornMeans | src/core/cert/storage.go:45-75 | a save that fails at a write has written the files before it in the order full chain, key, leaf, chain, and left those after it alone |
| Storage.WriteLookup | src/core/cert/storage.go:50-72 | any initial part of the writes changes exactly the files it names |
| Storage.SavedWithFrame | src/core/cert/storage.go:45-75 | a save, failing at any point, leaves other aliases alone |
| Storage.ReplayLookup | src/core/cert/storage.go:45-75 | after any sequence of saves each file holds its part of the last save of its alias that had blocks enough to write it, or what it held before all of them |
| Storage.SameLastSave | src/core/cert/storage.go:58-72 | if the last save of an alias had two blocks, all four files come from it |
| Storage.PartsMatchAfterSave | src/core/cert/storage.go:58-72 | after a save, cert.pem and chain.pem together are the blocks of fullchain.pem if and only if the parts it did not write were absent or empty |
| Storage.CertStorage.WriteFile | src/core/cert/storage.go:50-52 | one file written, or left in some state when the disk fails |
| Storage.CertStorage.SaveCert | src/core/cert/storage.go:45-75 | the files after the call, for every way the disk can fail; success exactly when no write failed, and then the store of Storage.SavedMeans |
| Storage.CertStorage.GetLocalCertExpiry | src/core/cert/checker.go:128-145 | what the first block of the stored full chain tells; none without the file or without a block |
| Bundle.CreateCertZip | src/core/cert/zip.go:20-73 | cert.pem, chain.pem, fullchain.pem and privkey.pem with the content of that name, in this order, each if it is not empty |
| Bundle.UnpackConcat | src/core/cert/zip.go:86-116 | unpacking entry after entry, later ones overwriting earlier ones |
| Bundle.UnpackLookup | src/core/cert/zip.go:86-116 | the last entry of a name that is not a directory decides that file; without one it stays as it was |
| Bundle.UnpackPacked | src/core/cert/zip.go:20-119 | unpacking a packed bundle puts each non-empty file under its own name and touches no other name |
| Bundle.Directory.CopyFile | src/core/client/sync.go:350-365 | one file overwritten, or left in some state on an error |
| Bundle.Directory.ExtractCertZip | src/core/cert/zip.go:76-119 | it fails only if the disk does, at an entry that is no directory; a complete unpacking is that of the archive, a failed one that of the entries before the failure, with the file of the failure in some state |
| Bundle.Directory.CopyCertificates | src/core/client/sync.go:323-348 | a complete copy overwrites with every source file; one that fails has copied the files listed before the failure and touched nothing else but the file of the failure |
| Meta.AliasMapLookup | src/core/meta/server.go:44-50 | the alias map holds the last entry of each configured alias and nothing else |
| Meta.AliasMapAgrees | src/core/meta/server.go:44-50 | with distinct aliases, map and list give the same entry |
| Meta.OneWriterIff | src/core/server/front.go:164-171 | no alias is open to both uploads and renewals if and only if no automatic entry is overridden by a last manual one |
| Meta.DistinctNoShadowing | src/core/meta/server.go:44-50 | distinct aliases meet that condition |
| Meta.ShadowedAliasHasTwoWriters | src/core/meta/server.go:46-48 | an alias listed as automatic and then as manual is open to both |
| Meta.ServerConfig.Generate | src/core/meta/server.go:44-50 | the loop builds the alias map of the list |
| Meta.LeadDays | src/core/meta/server.go:32-37 | the configured lead if it is positive, else 10 |
| Renewal.ShouldRenewIff | src/core/server/scheduler.go:120-138 | the branches decide to renew exactly when the stored certificate is due, or there is none and the probed one is due or unknown |
| Renewal.AttemptedIff | src/core/server/scheduler.go:83-153 | a check attempts a renewal if and only if one is due at the instant of its decision |
| Renewal.CheckFrame | src/core/server/scheduler.go:83-153 | a check changes files of its own alias only, and none unless an attempt gets as far as the disk |
| Renewal.LocalExpiryAfterSave | src/core/cert/checker.go:128-145 | after a save the store tells the expiry of the saved chain, and of other aliases the same as before |
| Renewal.DueRenewalExtends | src/core/server/scheduler.go:133-148 | a renewal made because the stored certificate is due replaces it with a strictly later one |
| Scheduler.SweepGrid | src/core/server/scheduler.go:42-62 | if every sweep is shorter than a day, sweep k starts exactly k days after the first one ended |
| Scheduler.NextStartMeans | src/core/server/scheduler.go:52-62 | with sweeps of any length, the next sweep starts at the first tick since the loop received one, or, if that came while a sweep ran, as soon as it ends |
| Scheduler.TickAfterLeast | src/core/server/scheduler.go:52-54 | ticks are whole days from the making of the ticker, and the next one is the least after an instant |
| Scheduler.SweepVisits | src/core/server/scheduler.go:71-79 | visit i of a sweep is the check of certificate i on the store its predecessors left, whatever became of them |
| Scheduler.SweepFrame | src/core/server/scheduler.go:71-79 | a sweep changes the files of an alias only where an attempt for that alias gets as far as the disk |
| Scheduler.ReplacedWhenWritten | src/core/server/scheduler.go:74-76 | in every run of the loop a stored chain changes only in a sweep whose attempt succeeded or was ended by a disk fault |
| Scheduler.VisitOnGrid | src/core/server/scheduler.go:52-62 | every visit of a sweep falls in that sweep's day |
| Scheduler.DecidedInSweep | src/core/server/scheduler.go:71-79 | a visit attempts the renewal exactly when one is due at its moment, on what the store held before the sweep and its own probe, wherever the certificate is listed |
| Scheduler.EnoughAttempts | src/core/server/scheduler.go:52-79 | with sweeps shorter than a day, a certificate that becomes due after the first sweep has at least lead - 1 renewals attempted while it is due and before it expires, unless an earlier attempt replaced it, by success or by a disk fault during its save |
| Prediction.PredictionAgainstVisits | src/core/server/scheduler.go:202-217 | in every run of sweeps shorter than a day, for every page after the start and in all zones, where the shown expiry is stored or else the probe goes on finding it: the next visit to attempt the renewal comes less than a day before the predicted time (two if under way when the page is made) and less than two days after it (three if page and threshold come no later than the end of the first sweep and the second one attempts) |
| Prediction.PredictionAgainstSweeps | src/core/server/scheduler.go:42-54 | for such a page, in the scheduler's zone a sweep after the first that attempts starts the ticker's shift and whole days away from the predicted time, in the stated cases, and exactly at it if and only if the shift is zero and it starts in the day searched |
| Prediction.PredictionAgainstFirstSweep | src/core/server/scheduler.go:42-50 | for such a page, the first sweep starts at the predicted time if and only if the prediction searches from no later on, else a day before it; if its timer was set late, at once and less than two days before the predicted time, at it if and only if that moment is a check instant and the search starts there |
| Prediction.VisitAtPrediction | src/core/server/scheduler.go:202-217 | in the scheduler's zone an instant is the predicted time if and only if it is a check instant of the day searched |
| Prediction.NextAttemptExists | src/core/server/scheduler.go:52-79 | for such a page, every run that goes on past the page and the threshold has a next attempt |
| Prediction.Decided | src/core/server/scheduler.go:120-148 | for such a page, a visit with nothing attempted since attempts exactly when the threshold has passed at its moment |
| Prediction.UnstoredWaitsIff | src/core/server/scheduler.go:123-132 | with nothing stored, visits make no attempt if and only if each of their probes finds a certificate that is not due, whatever a page shows |
| Prediction.LostProbe | src/core/server/scheduler.go:129-132 | a page made from a probed expiry, whose first later probe is lost, is followed by an attempt at once, any number of days before the predicted time |
| Scheduler.Scheduler.RenewCert | src/core/server/certmanager.go:79-154 | fails without a write for empty names, an empty e-mail, a provider outside the five or a refusal; otherwise it succeeds exactly when no write fails, and then fullchain.pem holds the issued chain, privkey.pem the issued key, cert.pem and chain.pem the parts of the chain, and nothing else has changed |
| Scheduler.Scheduler.CheckAndRenewCertStatus | src/core/server/scheduler.go:83-153 | a manual entry is not checked; for an automatic one a renewal is attempted exactly when the stored expiry is due, or none is stored and the probe, where there is a domain to probe, finds none or one that is due; the status tells what became of it, and after success the store holds what was issued and tells its expiry |
| Scheduler.Scheduler.CheckAllCerts | src/core/server/scheduler.go:71-79 | clock, store and visits after one sweep, each certificate once and in order |
| Scheduler.Scheduler.AwaitTimer | src/core/server/scheduler.go:42-46 | the clock when the first sweep starts |
| Scheduler.Scheduler.SweepDaily | src/core/server/scheduler.go:45-62 | the records of the loop are those of a run of the plan, every sweep starting at the tick the loop receives |
| Scheduler.Scheduler.Start | src/core/server/scheduler.go:32-64 | from start to any number of sweeps the loop makes a run whose first sweep is at the first check instant |
| Handlers.AuthorizeIff | src/core/server/handlers.go:95-107 | granted exactly to requests with the server's token and the auth of the last entry of their alias, and that entry is granted; an unlisted alias is told to identified requests only |
| Handlers.UploadAcceptedIff | src/core/server/front.go:160-199 | an upload is accepted exactly for an alias left to manual upload and a complete form, and saves the two files of the form |
| Handlers.FormRefusals | src/core/server/handlers.go:235-262 | which part of an incomplete form decides how it is refused: the full chain before the key, absent before unreadable |
| Handlers.ValidTokenIff | src/core/server/handlers.go:226-233 | the upload token is that of the last entry of the alias, and never empty |
| Handlers.NothingStoredReplies | src/core/server/handlers.go:171-195 | for every query text and parser with nothing stored: status 500 exactly for an empty text, status 200 exactly for one that does not parse, no reply at all exactly for one that does; a renewal starts exactly when none is named (once the clock is past the zero time) or the named one is due; so the promised 500 is never given |
| Handlers.Server.Authorized | src/core/server/handlers.go:95-107 | success exactly for an identified request with the auth of the last listed entry of its alias, and that entry; else not found or unauthorized |
| Handlers.Server.CheckHandler | src/core/server/handlers.go:34-88 | the reply for every request, probe and store: each refusal with its status, else the comparison of Handlers.CheckReplyMeans |
| Handlers.Server.FillResponse | src/core/server/handlers.go:53-87 | an update is called for exactly when there is a stored certificate and the probed one, not the zero time, expires before it |
| Handlers.CheckReplyMeans | src/core/server/handlers.go:53-87 | the two texts of the reply parse to the probed and the stored expiry, each in its own place, and flag and reason are those of the comparison |
| Handlers.Server.ExpireHandler | src/core/server/handlers.go:152-202 | the reply and whether a renewal starts in the background, for every request and store; with nothing stored, which of two error replies is given, or that none is formed because the error has been overwritten with nil |
| Handlers.StoredReplies | src/core/server/handlers.go:196-201 | with a certificate stored, its expiry is told whatever is asked, and nothing is renewed |
| Handlers.Server.DownloadHandler | src/core/server/handlers.go:90-150 | the bundle of the four stored files, or the error and its HTTP status when one of them is missing |
| Handlers.DownloadMeans | src/core/server/handlers.go:113-148 | a bundle is given exactly if all four files are stored, each under its own name unless empty; a missing full chain is not found, any other missing file an error |
| Handlers.Server.StoreUpload | src/core/server/handlers.go:235-270 | a complete form is saved, any other is refused without a write |
| Handlers.Server.FrontUploadHandler | src/core/server/front.go:154-203 | the store and the HTTP status for every upload of the web page |
| Handlers.Server.UploadHandler | src/core/server/handlers.go:209-271 | the store and the HTTP status for every upload with a token, each refusal under its exact condition; other aliases are untouched |
| Front.LocalCertExpiry | src/core/server/front.go:230-241 | pages and scheduler read the same expiry from the store |
| Front.DaysRemainingExact | src/core/server/front.go:238 | in unbounded arithmetic fewer days than the lead remain exactly when the certificate is due, for every expiry and positive lead |
| Front.DaysRemainingIff | src/core/server/front.go:79 | with the roundings of double precision, the days shown are fewer than the lead exactly when the scheduler would renew, for every certificate and moment, if and only if the lead is at most 170 days |
| Front.DaysRemainingWithinMicrosecond | src/core/server/front.go:238 | for every lead up to 106751 days, fewer days are shown only if the certificate is due, and are if it has been due for a microsecond |
| Front.RowsHideSecrets | src/core/server/front.go:57-93 | two configurations give the same list exactly when they differ in auth, provider keys and upload tokens only |
| Front.InfoPredictsRenewal | src/core/server/front.go:275-279 | for the expiry the page chooses, in every zone, the time shown is less than a day from the first check instant that finds it due, and that instant itself if and only if it is due already or the zone is UTC up to whole days; as long as later checks choose the same expiry, none before that instant renews and it does itself unless it is exactly the threshold |
| Front.NoEarlyRenewalIff | src/core/server/scheduler.go:109-132 | whatever later probes find, no check instant before that one renews if and only if a certificate is stored or every probe until then finds one that is not due |
| Front.NoInfoMeansRenewal | src/core/server/scheduler.go:129-132 | where the page is refused because no expiry is known, the next check renews |
| Front.Pages.ReadLocal | src/core/server/front.go:230-240 | what the first block of the stored full chain parses to; none without the file or without a block |
| Front.Pages.FrontAliasListHandler | src/core/server/front.go:52-96 | one row for each configured certificate, in order; its public columns are those of the entry, its dates and days tell of the expiry the scheduler reads, and are there exactly if it reads one; for leads up to 170 days fewer days than the lead are shown exactly when that expiry is due; the predicted renewal is absent exactly for a manual entry |
| Front.Pages.FrontCertInfoHandler | src/core/server/front.go:210-282 | the page for every request: names and prediction from the stored certificate, else from the probed one, and refused when there is neither; stored and probed dates and days tell of those two expiries, as in a row of the list |
| Front.ItemShows | src/core/server/front.go:57-93 | every column of a row, from the entry and the stored certificate |
| Front.ValidityTells | src/core/server/front.go:236-239 | the days of a certificate are counted to its expiry |
| Client.FlowsAgreeIff | src/core/client/sync.go:207-237 | the two check flows call for the same downloads for every store and probe except a probed zero time before a stored expiry; neither does without a stored certificate |
| Client.LocalFlowCompares | src/core/client/sync.go:213-234 | formatting, sending and parsing change nothing: the client compares the two expiries themselves |
| Client.QueryRoundTrip | src/core/client/sync.go:178 | the server reads exactly the expiry the client probed |
| Client.NothingStored | src/core/server/handlers.go:171-195 | with nothing stored, a client's request gets no reply, so no download, and starts a renewal exactly when the probed certificate is due |
| Client.DeliveredFiles | src/core/client/sync.go:291-347 | pack, unpack and copy deliver each non-empty stored file byte for byte and touch nothing else in the destination |
| Client.DeliveredNames | src/core/client/sync.go:291-347 | cert.pem, chain.pem, fullchain.pem and privkey.pem at the client are the stored files of those names, or as before where those are empty, and no other name changes |
| Client.Client.CheckLocal | src/core/client/sync.go:207-237 | an update is called for exactly when the probe and the server's answer are there and the probed expiry is earlier |
| Client.Client.Sync | src/core/client/sync.go:267-321 | each outcome with what it did to the destination: untouched before the copy, bundle files only after a broken copy, the whole bundle after a complete one |
| Protocol.CheckedInv | src/core/server/scheduler.go:120-148 | a decision to renew keeps the invariant of the server |
| Protocol.UploadedElsewhere | src/core/server/front.go:164-171 | if no automatic entry is shadowed, an accepted upload goes to an alias no renewal touches |
| Protocol.SiteStepInv | src/core/server/scheduler.go:83-153 | every step of the server keeps: decisions under way found their certificate due, the store vouches for every past renewal, renewals of an alias are spaced |
| Protocol.DeskAfterSiteStep | src/core/server/certmanager.go:149-153 | no step of the server, between any two requests of a client, invalidates what the client holds |
| Protocol.VerdictSound | src/core/server/handlers.go:79 | either check calls for a download only if the live certificate expires before the stored one |
| Protocol.BundleExpiry | src/core/server/handlers.go:113-148 | a bundle tells the stored expiry |
| Protocol.DeskStepInv | src/core/client/sync.go:267-321 | every step of the client keeps: what it has fetched is later than the live certificate and not later than the stored one |
| Protocol.StepInv | src/core/client/sync.go:267-321 | every step of the system keeps the invariant |
| Protocol.SiteReachable | src/core/server/scheduler.go:83-153 | the server's invariant holds in every run, whatever the client does |
| Protocol.Reachable | src/core/client/sync.go:267-321 | the invariant of server and client holds in every world of every run |
| Protocol.DeployRaisesLive | src/core/client/sync.go:285-320 | in every interleaving a deployment strictly raises the live expiry, and nothing else changes it |
| Protocol.DeploysBounded | src/core/client/sync.go:285-320 | in every run deployments number at most one more than the renewals saved for the alias |
| Protocol.RenewalRaisesStored | src/core/server/scheduler.go:133-148 | in every run a saved renewal replaces a stored certificate by a strictly later one |
| Protocol.RenewalsSpaced | src/core/server/scheduler.go:94-152 | in every run two renewals of one alias are further apart than the issued validity less the lead |
| Protocol.SpanOfRenewals | src/core/server/scheduler.go:94-152 | n renewals of an alias span at least n - 1 gaps |
| Protocol.RenewalsBounded | src/core/server/handlers.go:185-191 | in every run the renewals of an alias within a span of time are bounded by arithmetic in the span |
| Protocol.RenewalsGuarded | src/core/server/handlers.go:171-191 | in every run a renewal starts only for an automatic entry that is due by the scheduler's decision; a background trigger bypasses nothing |
| Protocol.OwnersReachable | src/core/server/scheduler.go:87-90 | in every run of every configuration renewals concern automatic entries only |
| Protocol.SingleWriter | src/core/server/front.go:164-171 | in every run, if no automatic entry is shadowed, the files of an alias change only by renewal if it is automatic and only by upload if it is manual |
| Protocol.DeployCatchesUp | src/core/client/sync.go:307-320 | in every run a deployment with no renewal since its download brings the live expiry to the stored one |
| Protocol.Quiescent | src/core/server/handlers.go:78-85 | once live and stored expiry are equal, and until the next renewal of the alias, every sync changes nothing |
| Protocol.StoreIsReplay | src/core/cert/storage.go:45-75 | in every run the store is the initial one with the run's saves replayed |
| Protocol.DownloadIff | src/core/server/handlers.go:113-148 | in every run a download succeeds if and only if each of the four files was written by some save of the alias or was there initially, and bundles each file from the last save that wrote it |
| Protocol.DownloadStep | src/core/server/handlers.go:113-148 | a download step fetches that bundle, or ends the sync where a file is missing |
| Protocol.NothingDeployed | src/core/server/handlers.go:128-138 | in every run nothing is deployed as long as one of the four files has never been written |
| Protocol.DownloadIsOneSave | src/core/server/handlers.go:113-148 | in particular, after a last save of two or more blocks a download bundles four files of that one save |
| Refinement.CheckIsRun | src/core/server/scheduler.go:83-153 | one check of the scheduler continues any run: same clock, same store, a renewal exactly when it reports success |
| Refinement.ExpireIsAsked | src/core/server/handlers.go:171-191 | the background renewal of the expire handler is the step of the protocol |
| Refinement.SweepIsRun | src/core/server/scheduler.go:71-79 | a whole sweep continues any run in which no renewal is under way: same clock, same store, and the renewals its visits report |
| Refinement.LoopIsRun | src/core/server/scheduler.go:42-62 | the records of the loop, their waits and sweeps, continue any such run to the loop's clock and store, with the renewals all its visits report |
| Refinement.LoopRenewalsSpaced | src/core/server/scheduler.go:42-62 | two renewals of one alias that the executed loop reports are further apart than the validity less the lead |
| Refinement.LoopRenewalsBounded | src/core/server/scheduler.go:42-62 | the renewals of an alias it reports within a span of time are bounded by arithmetic in the span |
| Refinement.CheckOfSync | src/core/client/sync.go:270-288 | a check of a client that is behind calls for a download unless the server is asked about a zero time, and changes nothing at the server |
| Refinement.SyncIsRun | src/core/client/sync.go:267-321 | from every world in which the client is behind, an uninterrupted sync delivers the bundle and brings the live expiry to the stored one if the check can tell and all four files are stored, and changes nothing otherwise |
| Refinement.RestOfSyncIsRun | src/core/client/sync.go:290-320 | whatever a sync does from its download on is a run from the world in which it downloads, however many server steps after the check |
| Refinement.SyncOutcomeIsRun | src/core/client/sync.go:267-321 | every outcome of a sync, with the replies the handlers give it, is a run: the destination is what the client's steps make of it, and the live expiry rises exactly when the sync completes and stays otherwise |

## Left out

- Network: TLS dialling, the proxy, HTTP, JSON and the response objects; a probe is an expiry or nothing, a reply a value.
- Certificates: ACME, DNS providers, key generation, X.509 parsing and self-signed certificates; issuing succeeds or is refused, and runs assume an issued certificate is valid for at least the lead.
- The DNS pre-check, the reset of its once-guard and the environment variable a renewal sets, which no modelled operation reads.
- Login, tokens of the web page, YAML files, flags, logging and the web front end's own code; `FrontDownloadHandler`, which sends the bundle of `DownloadHandler` to a logged-in user.
- Zones with daylight saving, where 24 hours are not a calendar day.
- PEM headers, and text after an END marker on its line; ZIP bytes, nested entries, file modes and path normalisation, an alias being one path component.
- Rfc3339.ParseIff: timestamps with a fraction or an offset are refused by the model's parser; no expiry is formatted as one, and the program's parser accepts more.
- Rfc3339.FormatParse: the same.
- CheckTime.NextRunAtLeast: fixed offsets only, as above.
- Front.DaysRemainingExact: exact arithmetic, beside the rounded one of Front.DaysRemainingIff.
- What becomes of the server process when a handler reads the text of a nil error.
- Front.InfoPredictsRenewal: one reading of the clock for a whole page.
- Scheduler.Scheduler.Start: the loop ends after the sweeps it is given; `Stop` is not modelled.
- Protocol.Reachable: saves, downloads and copies are one step each, and renewals of one alias do not overlap; the program takes no lock. Writes that fail half-way are in Storage, not in runs.
- Protocol.DeployRaisesLive: only the client's deployments change the live certificate.
- Refinement.LoopIsRun: sweeps whose failing writes leave something behind are not runs of the protocol; nor are background renewals part of the executed loop.
- Scheduler.EnoughAttempts: aliases are distinct, as in the other lemmas about single certificates of the sweep loop.
