# Verified model of the Super Mario Maker 2 game server

This project models the stateful and byte-level parts of the game server and proves what they promise, over all inputs,
all runs and all interleavings. `dafny verify dfyconfig.toml` checks it with Dafny 4.11.

| file | part of the server |
|---|---|
| `Arith.dfy`, `Maps.dfy`, `Bytes.dfy`, `Wire.dfy` | division facts, sizes of maps and sets, little-endian words, the NEX stream cursor and output buffer |
| `MakerCode.dfy` | the nine-character maker code: 64-bit mix, division loop, closed form |
| `Profile.dfy`, `Users.dfy` | patching one measured structure for another identity; carving the shells; get_users |
| `Replace.dfy`, `Nested.dfy`, `UploadHost.dfy`, `Relation.dfy` | same-length rewriting of an undocumented nested descriptor |
| `Nsa.dfy`, `NsaRuns.dfy`, `NsaLimits.dfy` | resolving a console id: caches, lifetimes, call slots; every interleaving of resolutions; where its guarantees end |
| `Catalogue.dfy`, `CatalogueRuns.dfy`, `UploadRuns.dfy` | the course catalogue, its file, runs with crashes, uploads within them |
| `ObjectStore.dfy`, `Handlers.dfy` | bounded uploads, the blob endpoint, file names; the three requests around a course blob |
| `Decimal.dfy`, `Base64Url.dfy`, `Token.dfy`, `Login.dfy` | the signed login token and the login decision |
| `Monitor.dfy`, `MonitorRuns.dfy` | call counters and the event ring; every interleaving of calls being noted |
| `Stats.dfy`, `StatsRuns.dfy` | the statistics page; pages beside running counters and beside each other |

Conventions. Go strings and byte slices are `seq<byte>`. Integers are mathematical; 64-bit wrap-around, 32-bit casts and
field widths are written out where the code depends on them. Code that updates variables, buffers or fields in place is
a method or class here, proved equal to a function of its inputs or old state; the lemmas are about those functions.
Code with several critical sections has, besides, a step machine whose steps are the critical sections and outside
calls, in any order.

What is not in the repository enters as follows. The NEX library's stream layout is fixed by the definitions in
`Wire.dfy`: a String is a u16 length, the bytes and a NUL, a Substream is a u32 length and a body, a QBuffer a u16
length and the bytes, and a read past the end yields zero and empties the stream. The account service, the online
check, the clock, the keyed hash, the hash of anonymous names and the labels of RMC methods are arbitrary parameters.
A catalogue file is the value it encodes. On a 64-bit platform `int` holds every u32 length.

## Where the code and its own words differ

- smm2_objects.go:48-49 says that without the token variable the PID rewriting is skipped. The code calls `ReplaceAll`
  with an empty pattern, which in Go inserts the sixteen digits before every character (`Relation.UnsetTokenInserts`);
  lengths are preserved exactly for tokens of sixteen bytes (`Relation.KeepsLengthIff`).
- smm2_objects.go:37 says the bucket host is swapped for ours. Whether it is gone afterwards depends on the configured
  address; `UploadHost.NoBucketHostLeftIff` and `UploadHost.InterlocksIff` say exactly on what. It can stay behind the
  address `com` (`UploadHost.EndingLeavesBucketHost`) and behind any host of 46 bytes with the default port
  (`UploadHost.CutPortLeavesBucketHost`).
- smm2_storage.go:206-213 drops the "too large" error of the reader: an upload over the cap is stored cut off at a read
  boundary and acknowledged (`ObjectStore.ReadAllLimited`).
- A list of users cut inside its second entry leaves the user shell set and the result shell empty
  (`Users.CarveOfCutList`; which blobs set which shell, `Users.CarveFindsWhatParses`); answers built from that do not parse (`Users.AnswerParses`).
- smm2_storage.go:281 calls the file of an upload key safe and flat, which it is; but different keys can share one
  (`ObjectStore.ShareFileIff`).
- dashboard.go:280-317 lists live connections while sessions count players who have called: a client that has not called
  yet is a player without a session (`StatsRuns.StrangerHasNoSession`).
- dashboard.go:319-321 tests the peak and writes it without a lock. Two overlapping page requests can make it fall and
  send a page with more players than its peak (`StatsRuns.PeakCanFall`).
- gates.go:147-154 resets the failure table at 4096 entries, even when the failing id already has one. The bound of one
  failing call per id and minute therefore holds, over serial runs, for up to 4095 ids and no more
  (`NsaLimits.SpacedIff`, with the run in `NsaLimits.TableOverflows`).
- gates.go:96-142 lets two resolutions of one id miss side by side and the later publication win, so a linked id can
  change its account (`NsaLimits.RacingCallsChangeAccount`; exactly when, `NsaLimits.AccountKeptIff`).

## Model

| member | source | states |
|---|---|---|
| Bytes.LeRoundTrip | smm2_profile.go:94-99 | a word written in a field of w bytes is read back unchanged exactly when it fits the field |
| Bytes.WordLayout | smm2_profile.go:94-99 | the bytes of 16-, 32- and 64-bit words, least significant first |
| Wire.StringRoundTrip | smm2_profile.go:103-118 | a string field comes back unchanged exactly up to 65534 bytes |
| Wire.StringTail | smm2_profile.go:108-111 | the cursor stands right behind a string exactly when the string fits |
| Wire.BufferRoundTrip | smm2_profile.go:94-99 | a u32-framed buffer comes back unchanged with the cursor behind it |
| Wire.QBufferRoundTrip | smm2_objects.go:131 | a u16-framed buffer comes back unchanged with the cursor behind it |
| Wire.TextLayout | smm2_profile.go:94-118 | the bytes of a string and of both kinds of buffer |
| MakerCode.MixIsBijective | smm2_profile.go:78 | xor and wrapping odd multiplication map the 64-bit words one to one onto themselves, with an explicit inverse |
| MakerCode.XorBits | smm2_profile.go:78 | the exclusive or sets exactly the bits that one of the two has and the other has not |
| MakerCode.FillDigits | smm2_profile.go:79-83 | the division loop never leaves 64 bits and its characters are the low base-30 digits of x + C(30 + 30² + …) |
| MakerCode.MakeCode | smm2_profile.go:76-85 | the code of a PID is the closed form over nine digits of its mix |
| MakerCode.RoundsClosedForm | smm2_profile.go:80-83 | adding the constant each round equals adding all of it, spread over powers of 30, beforehand |
| MakerCode.GlyphsSpellTheAlphabet | smm2_profile.go:77 | the digits are printed with the 30-letter alphabet |
| MakerCode.CodeOf1001 | smm2_profile.go:76-85 | the whole code of one PID, which fixes the constants of mix and loop |
| MakerCode.SameCode | smm2_profile.go:76-85 | two PIDs share a code exactly when their mixes agree modulo 30⁹ |
| MakerCode.EveryCodeIsShared | smm2_profile.go:74-85 | the codes are all nine-letter strings over the alphabet, and each is the code of 2⁶⁴ / 30⁹ PIDs, rounded down or up |
| Profile.FrameStruct | smm2_profile.go:94-99 | version byte, u32 length, body |
| Profile.PatchSyncProfile | smm2_profile.go:103-118 | computes the patched profile; templates under 6 bytes are returned as they are |
| Profile.PatchUserInfo | smm2_profile.go:122-139 | computes the patched user entry; templates under 6 bytes are returned as they are |
| Profile.SyncRoundTrip | smm2_profile.go:101-118 | a printed profile parses back to itself exactly when name and body fit their length fields |
| Profile.UserRoundTrip | smm2_profile.go:120-139 | a printed user entry parses back to itself exactly when code, name and body fit their length fields |
| Profile.SyncPutGet | smm2_profile.go:103-118 | the patched profile parses to the new PID and name, with version and tail of the template, exactly when that fits |
| Profile.UserPutGet | smm2_profile.go:122-139 | the patched entry parses to the new PID, its maker code and name, with version and tail of the template, exactly when that fits |
| Profile.SyncPutPut | smm2_profile.go:103-118 | patching twice is the last patch alone exactly when the first name fits, whatever the template holds |
| Profile.UserPutPut | smm2_profile.go:122-139 | patching twice is the last patch alone exactly when the first name fits, whatever the template holds |
| Profile.SyncGetPut | smm2_profile.go:103-118 | patching in what is already there changes no byte exactly when the name fits |
| Profile.UserGetPut | smm2_profile.go:122-139 | patching in what is already there changes no byte exactly when the entry carried the derived maker code |
| Profile.SyncPatchOnWire | smm2_profile.go:103-118 | byte for byte: version, length, PID, name and the measured tail |
| Profile.UserPatchOnWire | smm2_profile.go:122-139 | byte for byte: version, length, PID, maker code, name and the measured tail |
| Profile.ShortTemplatesStay | smm2_profile.go:104-106 | templates up to five bytes are sent as they are, one of six is rebuilt |
| Users.Templates.Carve | smm2_profile.go:152-173 | on every byte string the cursor loop stays in range and sets the shells as specified |
| Users.CarveFindsWhatParses | smm2_profile.go:152-173 | in terms of the client's parser, for every byte string: when each shell is set, and to which bytes |
| Users.CarveInvertsPrinting | smm2_profile.go:148-173 | on a printed list with a user and a result the shells are exactly the first of each |
| Users.CarveOfCutList | smm2_profile.go:158-168 | a list cut inside its second entry sets the user shell and leaves the result shell |
| Users.UsersRoundTrip | smm2_profile.go:182-190 | the two concatenated lists parse back to themselves with nothing left over |
| Users.ParseRequest | smm2_profile.go:197-213 | the reading loop yields the requested PIDs |
| Users.RequestRoundTrip | smm2_profile.go:195-213 | a request for 1 to 256 PIDs is read as exactly those |
| Users.ImplausibleRequest | smm2_profile.go:202-204 | a count of zero or above 256 stands for the caller's own PID |
| Users.PseudoOr | smm2_profile.go:67-72 | the resolved name when there is one, and never an empty name |
| Users.FallbackName | smm2_profile.go:71 | without a resolved name: Nextendo and the PID modulo a million |
| Users.Templates.GetUsers | smm2_profile.go:178-193 | the writing loops produce one patched entry per PID and as many results |
| Users.AnswerParses | smm2_profile.go:178-193 | the answer parses to its users and results exactly when every entry is a frame and the result shell has four bytes; with another result shell it does not parse |
| Users.GetUsersEndToEnd | smm2_profile.go:152-213 | from measured blob to answer: n users and n results, the i-th carrying the i-th PID, its code and its name exactly when that name fits, and carving the answer gives its first user |
| Replace.FirstThenRest | smm2_objects.go:39 | the scan from left to right: nothing changes before the first occurrence, which is replaced and skipped |
| Replace.ReplaceAcrossSeam | smm2_objects.go:39 | where no occurrence lies across a seam, both sides are rewritten on their own |
| Replace.OccurrenceReplaced | smm2_objects.go:39 | an occurrence no earlier one reaches into becomes the replacement |
| Replace.UncoveredKept | smm2_objects.go:39 | a byte no occurrence covers stays |
| Replace.NoneSurvivesIff | smm2_objects.go:38-40 | no input keeps or gains an occurrence exactly when pattern and replacement do not interlock |
| Replace.SettlesIff | smm2_objects.go:38-40 | rewriting twice is rewriting once exactly when they do not interlock or are equal |
| Nested.PrintCommutes | smm2_objects.go:21-23 | rewriting the bytes of a nested value is printing the value with its strings rewritten |
| Nested.ParsePrinted | smm2_objects.go:21-23 | a nested value of a known shape is parsed back from its bytes |
| Nested.NestedLayout | smm2_objects.go:21-23 | the bytes of a structure with a list, a word and a buffer |
| Nested.RewrittenBytesParse | smm2_objects.go:21-40 | rewritten bytes parse to the same shape with only the strings rewritten, every length header right |
| Nested.OnlyInTextStays | smm2_objects.go:21-23 | rewriting texts makes no occurrence outside them of a pattern that cannot reach over the edge of a text |
| UploadHost.OurHostStandsIff | smm2_objects.go:26-35 | what stands before the first slash of the replacement is the configured address exactly when that has at most 48 bytes, else its first 48; a shorter one is followed by the slash and letters a |
| UploadHost.S3HostParts | smm2_objects.go:24 | the bucket host, part by part |
| UploadHost.S3HostUnbordered | smm2_objects.go:24 | the bucket host cannot overlap itself |
| UploadHost.RewriteInPlace | smm2_objects.go:26-40 | the descriptor keeps its length, each bucket host becomes ours, every other byte stays |
| UploadHost.InterlocksIff | smm2_objects.go:29-35 | for a slash-free address: it interlocks exactly when host and slash are an ending of the bucket host or, if too long, its cut ends as the bucket host begins |
| UploadHost.NoBucketHostLeftIff | smm2_objects.go:37-40 | no bucket host is left in any descriptor, and a second rewrite changes nothing, exactly when the hosts do not interlock |
| UploadHost.EndingLeavesBucketHost | smm2_objects.go:29-40 | with the address `com` some descriptor still shows the bucket host |
| UploadHost.CutPortLeavesBucketHost | smm2_objects.go:30-33 | with any slash-free host of 46 bytes and the port 60078 some descriptor still shows the bucket host |
| UploadHost.HostPortIsSafe | smm2_objects.go:37-40 | a host:port that fits is safe for every descriptor |
| Relation.PidIsSixteenDigits | smm2_objects.go:73 | %016x of a u64 has exactly sixteen digits, and they determine it |
| Relation.NumeralIsPrinted | smm2_objects.go:63-64 | %x prints the lower-case numeral of a number without a zero in front |
| Relation.UnsetTokenInserts | smm2_objects.go:48-50 | with the token unset the descriptor always grows |
| Relation.InterleavedAscii | smm2_objects.go:73 | with the token unset the digits stand in front and behind every byte of an ASCII descriptor |
| Relation.InterleavedRune | smm2_objects.go:73 | a character of several bytes is kept together, with the digits in front of it |
| Relation.GoesAloneIff | smm2_objects.go:73 | a byte stands alone exactly when no character beyond ASCII starts with it |
| Relation.KeepsLengthIff | smm2_objects.go:61-75 | all rewrites keep the length exactly when the token has sixteen bytes |
| Relation.SizeStep | smm2_objects.go:57-72 | for the four captured sizes: each _captured_ found becomes _asked_ when both have as many digits; otherwise, and for other types, the body stays |
| Relation.StepsInOrder | smm2_objects.go:61-75 | the descriptor is rewritten for size, PID and host in this order |
| Relation.SizeInDescriptor | smm2_objects.go:61-75 | in the finished descriptor an isolated captured size has become the one asked for |
| Relation.SizeTokenSwapped | smm2_objects.go:62-67 | bytes outside the captured size stay, and the length |
| Relation.PidTokenSwapped | smm2_objects.go:73 | the captured token becomes digits that read as the caller's PID |
| Relation.NoBucketHostInDescriptor | smm2_objects.go:61-75 | with a safe address no relation descriptor shows the bucket host |
| Relation.RewrittenDescriptorParses | smm2_objects.go:59-75 | for a measured descriptor whose tokens occur only inside texts, with no NUL and no high length byte of a text in token or host, every size and PID asked for gives a descriptor that parses to the measured value with just its strings rewritten |
| Relation.ShortTextsAreRewritable | smm2_objects.go:21-23 | with a printable token and texts under 8191 bytes no NUL and no high length byte is in token or host |
| Nsa.Gate.RememberFailure | gates.go:147-154 | records a failure, emptying the table first when it is full |
| Nsa.Gate.Resolve | gates.go:96-142 | an uninterrupted resolution: answer, both tables, slot given back |
| Nsa.Verdict | gates.go:116-136 | linked exactly for a nonzero PID in a readable 200 answer, unknown exactly for a 404 |
| Nsa.FullTableForgets | gates.go:149-152 | a failure recorded in a full table makes every other unlinked id miss at once |
| NsaRuns.LoadIsBounded | gates.go:108-114 | in every interleaving: slots = holders, at most 16 calls out, at most 4096 failures kept, 4096 · resets + kept ≤ recorded |
| NsaLimits.SaturatedIff | gates.go:108-114 | in any reachable state a resolution is turned away at the slots exactly when sixteen others hold one |
| NsaLimits.SixteenCallsIff | gates.go:87-91 | the numbers of calls some run has outstanding are exactly those up to sixteen |
| NsaRuns.AnswersAreSound | gates.go:96-142 | linked answers carry a nonzero PID the service gave for that id; remembered failures are repeated for less than 60 s |
| NsaRuns.CalledOnceOrNever | gates.go:108-142 | over any run a finished resolution got one reply and updated the tables once if it answered from its call, and did neither if it was saturated or cached |
| NsaRuns.OnlyCallsChangeTables | gates.go:108-114 | a stretch of a run in which no call is answered and published leaves both tables alone |
| NsaRuns.MissIff | gates.go:97-106 | a lookup goes out exactly when the id is not linked and each of its failures is 60 s old or older than the last reset |
| NsaRuns.FailingCallsAreSpaced | gates.go:97-106 | in every interleaving the lookup of a failing call is 60 s after any earlier failure of that id, unless a reset came between or the lookup came before that failure was recorded |
| NsaRuns.SerialCallsAreSpaced | gates.go:71-76 | run serially, two failing calls for an id less than 60 s apart have a reset between them; with at most 4095 ids there are none |
| NsaLimits.SpacedIff | gates.go:87-154 | for every number of ids: no serial run by at most that many has two failing calls for one id less than 60 s apart exactly when it is at most 4095 |
| NsaLimits.TableOverflows | gates.go:147-154 | a serial run from the start by 4096 ids with two failing calls for one id a second apart |
| NsaRuns.OneAccountPerNsa | gates.go:96-142 | once linked with no call for the id under way but confirming ones, every later answer is that PID |
| NsaLimits.OneAccountIff | gates.go:96-142 | in any reachable state with the id linked: every later answer is that PID exactly when each resolution of it past its lookup has that PID as its reply |
| NsaLimits.AccountKeptIff | gates.go:96-142 | and the link can never change exactly when each of them has its reply, a failure or that PID |
| NsaLimits.RacingCallsChangeAccount | gates.go:97-140 | a run in which two resolutions of one id miss side by side, one links it to a PID and the other to another |
| NsaRuns.PublishedPidWins | gates.go:137-141 | a published PID is answered from then on, its failure is forgotten, other ids are untouched |
| NsaRuns.LinkedForGood | gates.go:97-101 | a linked id stays linked |
| NsaRuns.AloneIsSerial | gates.go:96-142 | the steps of one resolution run alone are the serial resolution |
| Catalogue.LoadInvertsSave | smm2_storage.go:76-117 | loading what was written restores records and counter, whatever the order of iteration |
| Catalogue.LastRecordWins | smm2_storage.go:88-90 | loading any file: the last record of an id is kept, others only where the file has none |
| Catalogue.LoadKeepsLargerCounter | smm2_storage.go:85-87 | the larger counter is kept |
| Catalogue.OperationsKeepWellFormed | smm2_storage.go:120-164 | records sit under their own allocated ids after every operation; after alloc exactly while the counter does not wrap |
| Catalogue.CourseLifecycle | smm2_storage.go:120-164 | an allocated course waits with its declared size; size and completion give a ready course with the draft's data; a cancelled upload undoes the allocation |
| Catalogue.OthersUntouched | smm2_storage.go:120-164 | an operation leaves the other courses alone |
| Catalogue.CourseStore.Load | smm2_storage.go:76-100 | restores counter and records from the file |
| Catalogue.CourseStore.PersistLocked | smm2_storage.go:103-117 | the renamed file holds the counter and every record once |
| Catalogue.CourseStore.Alloc | smm2_storage.go:120-132 | returns the counter, records the draft under it, persists |
| Catalogue.CourseStore.Complete | smm2_storage.go:135-148 | marks ready or drops, persists; an unknown id changes nothing |
| Catalogue.CourseStore.SetSize | smm2_storage.go:157-164 | records the size, persists; an unknown id changes nothing |
| CatalogueRuns.IdsNeverReused | smm2_storage.go:76-148 | over runs with crashes and uploads side by side the ids returned strictly increase |
| CatalogueRuns.IncreasingIff | smm2_storage.go:120-132 | for every number of allocations: all runs with at most that many get increasing ids exactly when 64 bits hold that many ids from 1000 on |
| CatalogueRuns.SomeIdIsReused | smm2_storage.go:123-124 | one allocation more than that, with a restart before it: a run from the empty directory that returns 1000 twice |
| CatalogueRuns.CrashIsAtomic | smm2_storage.go:103-164 | a crash inside an allocation, completion or size record, while other uploads store blobs, restores the store it started from before the rename, and the operation's result after it |
| CatalogueRuns.CrashBetweenLosesNothing | smm2_storage.go:76-117 | a crash between operations, with any uploads under way, restores catalogue and blobs as they were |
| UploadRuns.AnnouncedSizeIsServedSize | smm2_storage.go:193-217 | after an upload ran through, among uploads, allocations and completions of other courses, the announced size is the served length until the next upload or removal, crashes included |
| UploadRuns.TornUploadAgreesIff | smm2_storage.go:207-212 | a crash between blob and size leaves the old size, so the two agree exactly when the new blob has that length |
| ObjectStore.ReadAllLimited | smm2_storage.go:304-322 | a prefix of the stream within the cap, and the whole stream exactly when it fits |
| ObjectStore.StreamOfReads | smm2_storage.go:309-320 | the stream is what the reads deliver, in order, up to the one that reports the end |
| ObjectStore.KeptWholeReads | smm2_storage.go:309-316 | whole reads are kept, all of them or those before the first that would exceed the cap |
| ObjectStore.ReadLoop | smm2_storage.go:308-321 | the loop stops before the first read that would exceed the cap |
| ObjectStore.Put | smm2_storage.go:205-214 | stores the request's body, whole up to 64 MiB and else a beginning of it within that, and records its exact length |
| ObjectStore.ObjectHandler | smm2_storage.go:193-231 | a request changes blobs and catalogue and is answered as specified; put and post store the body and record its length; a changed catalogue is saved |
| ObjectStore.PutThenGet | smm2_storage.go:193-231 | what is put or posted under an id is the body, is sent back under it, with a length equal to the recorded size; other ids are answered as before |
| ObjectStore.TurnedDown | smm2_storage.go:198-230 | a path that is no number, another verb and a missing blob are answered as such and change nothing |
| ObjectStore.UploadFileIsContained | smm2_storage.go:282-288 | an upload key never leaves the directory and never names a course blob or the catalogue |
| ObjectStore.ShareFileIff | smm2_storage.go:282-288 | two keys share a file exactly when they differ only where both have an underscore, a separator or a double dot |
| ObjectStore.FlatKeysDiffer | smm2_storage.go:282-288 | keys without separators and double dots have different files, and every other key shares the file of one of them |
| ObjectStore.CharacterName | smm2_storage.go:282-288 | the name of a single character and of a double dot |
| ObjectStore.NameOfParts | smm2_storage.go:286-287 | the name of a key is put together from the names of its parts |
| ObjectStore.BlobFilesDiffer | smm2_storage.go:166 | different ids have different blob files |
| ObjectStore.UrlLeadsBack | smm2_storage.go:194-202 | the id printed into a path is the id parsed from it |
| Handlers.PostRequestRoundTrip | smm2_objects.go:125-132 | a printed prepare_post request is read back |
| Handlers.DraftOfRequest | smm2_objects.go:123-134 | the draft of a printed request has the request's fields, the header in hex, no tags, the caller and the time |
| Handlers.HeaderIsHex | smm2_storage.go:127 | two lower-case digits for each byte of the header |
| Handlers.GetRequestReads | smm2_objects.go:165-170 | a printed prepare_get request names its id |
| Handlers.CompleteRequestReads | smm2_objects.go:150-157 | a printed complete_post request names its id, and the course is dropped exactly when the flag is zero, else ready |
| Handlers.PreparePost | smm2_objects.go:123-147 | allocates the draft in the request, saves the catalogue, leaves the blobs and answers with id and URL |
| Handlers.CompletePost | smm2_objects.go:150-160 | completes the course named in the request and saves the catalogue; an unknown id changes nothing, and the blobs stay |
| Handlers.PrepareGet | smm2_objects.go:165-190 | answers a catalogued id with URL, recorded size and id |
| Handlers.PostAnswerOnWire | smm2_objects.go:135-143 | the upload answer byte for byte |
| Handlers.GetAnswerOnWire | smm2_objects.go:172-180 | the download answer byte for byte |
| Handlers.PostAnswerParses | smm2_objects.go:135-142 | the upload answer parses to id and URL, and the URL leads to the id |
| Handlers.GetAnswerParses | smm2_objects.go:171-179 | the download answer parses to URL, size and id, and the URL leads to the id |
| Decimal.UintRoundTrip | main.go:296 | a printed number is parsed back exactly when it fits 64 bits |
| Decimal.IntRoundTrip | main.go:300 | every signed 64-bit number is parsed back |
| Decimal.UintParsesIff | main.go:296 | what is read as a number: digits of a value under 2⁶⁴; zeros in front do not matter |
| Decimal.SignsAreRead | main.go:300 | a sign in front of the expiry |
| Decimal.DigitByDigit | smm2_objects.go:135 | decimal digits, the last one the remainder by ten |
| Decimal.NoDots | main.go:292-300 | printed numbers have no dot and nothing with a dot is a number |
| Base64Url.RoundTrip | main.go:279-285 | every byte string survives the encoding, whose text uses the 64-letter alphabet only |
| Base64Url.SextetsSpellTheAlphabet | main.go:279-285 | the alphabet of section 5 of RFC 4648 |
| Base64Url.AlphabetIff | main.go:279-285 | and no other letter is taken |
| Base64Url.LettersCarryBits | main.go:279-285 | four letters carry the bits of three bytes in order |
| Base64Url.TestVectors | main.go:279-285 | vectors of section 10 of RFC 4648, without padding |
| Base64Url.DecodesIff | main.go:279-282 | what decodes: letters of the alphabet, line breaks aside, and no single one left over |
| Base64Url.LineBreaksAreIgnored | main.go:279 | line breaks inside the text do not change what it decodes to |
| Token.IssuedTokenOpens | main.go:271-304 | a token whose signature is the hash of nex: and the payload, under the secret, is opened to its payload unless that is revoked |
| Token.AcceptedTokenForm | main.go:271-304 | and whatever is accepted has that form |
| Token.PayloadReadsAs | main.go:292-303 | a payload of three fields gives the number in the first while the time in the third has not passed; fewer fields give nothing |
| Token.TokenAcceptedIff | main.go:269-304 | a printed token gives back its PID exactly when the name is dot-free, the payload unrevoked and the expiry not passed |
| Token.AcceptedIffSigned | main.go:271-304 | a token is accepted exactly when it carries a signed, unrevoked, unexpired payload naming the PID |
| Login.StricterOnlyRefuses | main.go:178-261 | stricter settings only refuse, exactly the anonymous logins and the unproven numbers, and never change a PID |
| Login.StrictLoginsAreProven | main.go:178-261 | with both switches on every PID is proven by a signed token or a linked console, and passed the online check |
| Login.NumberLogsInIff | main.go:201-252 | in every world an account number logs its account in exactly when the check admits it and, under the signature switch, the extra data prove it; unproven exactly when that switch is off and no token proves it |
| Login.OpenIffLax | main.go:178-261 | in any world whose check admits account numbers and where a login can come without a token: some account can be entered unproven exactly when a switch is off, and without the signature switch all of them can |
| Login.ProvenIffStrict | main.go:178-261 | over all worlds: no account can be entered unproven anywhere exactly when both switches are on, and every one somewhere otherwise |
| Login.AnonymousRange | main.go:325-329 | anonymous PIDs are the numbers from 1800000000 to 1899999999 with the last eight digits of the hash, account numbers among them in the first ten million |
| Login.IssuedTokenLogsIn | main.go:186-193 | an issued token logs its account in unless the online check answers no; an unreachable check lets it through |
| Login.ProvenNumberLogsIn | main.go:201-252 | an account number with the token issued for it does likewise |
| Login.ConsoleLogsInIff | main.go:230-251 | a console logs in the account it is linked to unless the online check answers no, and nobody when it is not linked |
| Login.SmallNumbersAreAnonymous | main.go:201-260 | a number below both ranges gets the anonymous PID of its text, or is refused where an account is required |
| Login.TokensAreNotNumbers | main.go:186-201 | no user name is both a token and a number |
| Login.ConsolePidWasServed | main.go:231-237 | a console's PID was given by the account service, however its resolution was interleaved |
| Monitor.Board.NoteRMC | dashboard.go:59-89 | one call updates total, player record, ring and method count; no PID, no trace |
| MonitorRuns.CountersConserve | dashboard.go:59-89 | in every interleaving: the three totals differ by the callers in between, sessions = players, the ring is the last 100 events in order |
| MonitorRuns.RecordsSumUpVisits | dashboard.go:66-78 | a record holds first and last time, number, last method and last address of exactly that player's calls |
| MonitorRuns.CountsPerMethod | dashboard.go:87 | a method's count is the number of calls logged under its label |
| MonitorRuns.EventsAreCalls | dashboard.go:82-86 | every event shown is that of a call that reached the records before |
| MonitorRuns.AloneIsNoteRMC | dashboard.go:59-89 | the three steps of one call run alone do what noting it uninterrupted does |
| MonitorRuns.QuietTotalsAgree | dashboard.go:59-89 | with no call under way all totals are the number of calls |
| Stats.RowShows | dashboard.go:250-277 | what the row of a lobby shows: ids, participants and host marks, count, room, and whether it is matched |
| Stats.RowsOfParts | dashboard.go:249-252 | the lobbies with a participant have a row, and no others |
| Stats.LobbyOfIsLast | dashboard.go:262-265 | the lobby a player is shown in is the last that lists it |
| Stats.FirstConnIsFirst | dashboard.go:284-289 | the connection a player is shown with is its first |
| Stats.SeatPlayers | dashboard.go:244-278 | the lobby loop: last lobby, mode and rating per player, host of any, non-empty lobbies by id |
| Stats.ListPlayers | dashboard.go:281-317 | every connected player once, by PID, with its first connection and last lobby; the lobby count |
| Stats.RecentEvents | dashboard.go:325-329 | the ring, newest first |
| Stats.MethodTotals | dashboard.go:330-335 | every method once, most frequent first |
| Stats.BuildStats | dashboard.go:224-357 | the page as a whole when nothing runs beside it: all of the above, and the peak raised to the players shown |
| StatsRuns.PageWithinTotal | dashboard.go:236-344 | while calls keep coming in, neither the calls of the players listed nor those of the methods listed add up to more than the total |
| StatsRuns.SessionsCoverPlayersIff | dashboard.go:281-343 | the page shows no more players than sessions when everyone connected has called, and exactly when the connected that never called are no more than the callers that left |
| StatsRuns.StrangerHasNoSession | dashboard.go:67-72 | one connected client that has not called is a player without a session |
| StatsRuns.PeakCanFall | dashboard.go:319-321 | two pages that overlap between test and write: the peak falls, and a page is sent with more players than its peak |
| StatsRuns.CanFallIff | dashboard.go:319-321 | the pending writes can make the peak fall exactly when they disagree or one is overtaken already |
| StatsRuns.PeakIsMaximum | dashboard.go:319-346 | without such overlap the peak never falls, is the largest number of players any page counted, and covers every page sent |
| StatsRuns.AloneIsBuildStats | dashboard.go:319-346 | the steps of one page run alone do to the peak what the uninterrupted page does |

## Left out

- Sockets, PRUDP, Kerberos tickets, matchmaking, reaper, TLS and HTTP serving, multipart parsing, ETag headers, `/api/kick`: not part of this model.
- `smm2_datastore.go`, `init_replay.go`, `type8.go`, `smm2_capture.go`: dispatch tables and fixed replies, which would only add one-branch facts.
- `resolvePseudo`: the name is an arbitrary answer per lookup; its cache is a simpler form of the one in `Nsa.dfy`.
- HMAC, SHA-256, MD5 and FNV: arbitrary functions. The source key returned with an accepted login is not modelled.
- JSON text: a catalogue file is the value it encodes, so names are taken to be valid text. A missing and an unreadable catalogue both load as nothing; the model has the missing one.
- Failing catalogue writes, two PUTs to one id at a time and an allocation before the catalogue is loaded: excluded from the runs, because the code keeps neither sizes nor ids there.
- Aliasing of course records: records are values in the map, so a handler that keeps the record it got and reads it after a later write is not captured.
- Players and lobbies carry no display names, mode labels or elapsed seconds; a lobby's join code is dropped.
- Profile.PatchSyncProfile: what the library does on a template whose fields run past its end is fixed by the short-read convention above, not known.
- CatalogueRuns.CrashIsAtomic: like the size agreement, stated for runs in which the 64-bit counter does not wrap.
- UploadRuns.AnnouncedSizeIsServedSize: an upload of a course excludes other uploads of that same course until its size is recorded.
- NsaRuns.FailingCallsAreSpaced: two resolutions that both looked up before either failed may both call at once, in the code as in the model.
- StatsRuns.PeakIsMaximum: a read and a write of the peak are single steps; what else a data race may do is not modelled.
- Monitor.Board.NoteRMC: counters are unbounded, so the wrap of a 64-bit counter is not modelled.
