# Padlock: a verified model

Padlock keeps key/value pairs in one encrypted, append-only file and offers a kernel guard that lets one
process group at a time write to such a file. This project models both in Dafny 4.11 and proves what they
promise. `dafny verify dfyconfig.toml` checks everything.

## The store

The file is a 4096-byte header followed by encrypted records. `set` appends a record and then rewrites the
header; `get` has no index and decrypts every record three times, keeping the last match.

- `bytes`, `bits`, `words`: buffers, the C operators on unsigned words, little-endian words and the rounding
  of lengths, with the source's 32-bit mask and 32-bit sums written out.
- `cipher`: XTS, PBKDF2 and padded CBC as parameters of a `Suite`, with only the laws the library needs.
  `LawsAreConsistent` gives a suite that meets them.
- `header`, `records`: the formats, and the methods that build and read them in place.
- `scan`: `get`. `WalkFrom` lists the records a scan visits and `ScanReads` the ranges it reads; `ScanLoop` is the
  loop of the source, on a `Stream` that logs every read.
- `append`: `set` as a function from the file before to the file after (`SetOn`), for every point at which the
  environment may stop it.
- `store`: the relation `Represents` between a file and its `Contents` (header, key, log of entries).
- `runs`: whole runs of calls, with refusals, interruptions and foreign passwords.
- `copying`: the loop that carries random bytes from the device to the file, and which patterns of short reads and
  writes it survives.
- `journal`: the single changes of a file system (create, write, unlink, rename) and what a sequence of them
  leads to.
- `filesystem`: `padlock_get`, `padlock_set` and `padlock_allocate` as code over a file system with a journal of
  its changes. Each contract says which changes a call makes, in order, and that they lead from the files before
  to the files after, so that atomicity is a statement about every state on the way.
- `lifetime`: the promises from allocation on, at every instant.
- `limits`: inputs on which the promises fail.
- `sizes`: the size argument of `allocate`.

The environment is a parameter everywhere: which seek, read, write or allocation fails (`Weather` for the
rounds of `get`, `SetFault`, `AllocateEnv`), how reads and writes come out in pieces, what the random device
delivers. Where the C code would leave a buffer, the model has an explicit outcome (`Overrun` for `set`,
`Undefined` for `get`) and an exact condition for it:

- `decrypt_secret` leaves its 88 bytes for accepted headers with more than 96 sealed bytes, and with 96 if they
  hold more than 88 (`SecretOverrunExactly`); `LongSecretIsUndefined` shows it happens. The 80 bytes this code
  seals never do (`SealedSizeFits`).
- `set` on a store leaves its buffer exactly for entries longer than 2^32 bytes that pass every check
  (`OverrunExactly`); `WidestValueOverruns` shows it happens.
- `get` leaves a buffer exactly on records longer than 2^32 - 16 bytes (`UndefinedExactly`);
  `LongRecordIsUndefined` shows it happens. On a store and with its password it never does (`GetRefinesLookup`).

A password can open a store to a key that is not the store's, since only the padding and eight bytes tell a right
password from a wrong one. Everything about shape, footprint, commit point, interruptions, size and key holds for
every password. What a file stands for is decided exactly: after a run of calls with any passwords it is a store
with the entries of the effective calls if and only if every such call was `Faithful`, that is, wrote the record
that the store's own key gives (`SetRefinesAppend`, `RunRefines`). Whatever the later calls, a read finds what was
stored faithfully first, and then whatever the store's key reads behind it (`RunAnswers`). `OtherKeySpoilsStore`
is an unfaithful call after which reads fail.

## The guard

- `guard_protocol`: the sessions as a transition system over the guarded inodes. Registration resolves its path
  before it takes the lock, so it is two events, with any events of other threads in between.
- `guard_table`: the slot array and the hash index implement that table.
- `guard_history`: every answer told from the events and answers before it, without a table.
- `guard_machine`: the calls as steps on array and index. Runs of these steps are runs of the protocol, so what
  is proved of the protocol holds of array and index.
- `guard`: the calls as code that makes exactly these steps in place, and their dispatch.

## Where documentation and code differ

- README.md:312 says that writes are denied while a file has no active session. The code also denies them,
  during a session, to every group but the holder; the model follows the code.
- README.md:16 says that reads scan to the end of the file. They scan to the write offset.
- `padlock_parse_size` accepts a minus sign and then wraps modulo 2^64 (`MinusOneWraps`); `ExactUnlessWraps`
  says exactly when the result is the number asked for.
- Reading and rewriting a header can change bytes that reading ignores (`RewriteChanges`); `RewriteIsIdentity` says
  exactly for which files it changes nothing.
- Only registration checks that a path ends in its array, and it looks at the last byte only. The other calls of
  the guard resolve a path without an end; C gives them no meaning then, and the outcome is `Overread`.

## Model

| member | source | states |
|---|---|---|
| Words.PutU32 | src/padlock.c:67-73 | the four masked shifts store the little-endian word in place and touch nothing else |
| Words.GetU32 | src/padlock.c:75-81 | the or-ed shifts give the number the four bytes stand for |
| Words.PutU64 | src/padlock.c:83-88 | the loop stores the little-endian word in place and touches nothing else |
| Words.GetU64 | src/padlock.c:90-97 | the loop gives the number the eight bytes stand for |
| Words.WordRoundTrip | src/padlock.c:67-97 | reading back a written word gives it again, for every word of the width |
| Words.BytesRoundTrip | src/padlock.c:75-97 | writing back a read word gives the same bytes, and a read word fits its width |
| Words.Align16Exact | src/padlock.c:62-65 | the masked sum is the least multiple of 16 not below the length exactly up to 2^32 - 16, and otherwise that multiple cut to 32 bits |
| Words.PadLength | src/padlock.c:62-65 | the mask form computes the rounding that the specifications use |
| Words.WidthsAgree | src/padlock.c:1312-1315 | the 32-bit length of get and the 64-bit length of set pad alike for all lengths; the record fits its padded length exactly up to 2^32 - 16, and then so does the prefix |
| Cipher.XtsBlocks | src/padlock.c:1042-1090 | output exists exactly for accepted lengths in whole blocks, and block j of it is block j of the input through the block function under the offset in blocks and the index j |
| Cipher.PrefixLaw | src/padlock.c:1057-1058 | transforming leading blocks gives the leading blocks of the transformed text under the same data unit number |
| Cipher.UnitInverse | src/padlock.c:1065-1083 | decryption under the same offset undoes encryption |
| Cipher.StagedDecryption | src/padlock.c:1280-1341 | any leading blocks of an encrypted record decrypt to that much of the record |
| Header.WriteHeader | src/padlock.c:990-1003 | the buffer filled in place is the image of the header |
| Header.ReadHeader | src/padlock.c:1011-1040 | the checks and copies give the parsed header, or nothing when any check fails |
| Header.ImageLayout | src/padlock.c:994-1003 | every field and every constant lies at its own range of the image, undisturbed by the others |
| Header.HeaderRoundTrip | src/padlock.c:990-1040 | a file that starts with the image of a header reads as that header, and is refused exactly when it is out of bounds |
| Header.ParseExactly | src/padlock.c:1011-1040 | a file is read as a header exactly if it is long enough, agrees with the image of that header in every byte reading looks at, and the sizes lie in bounds |
| Header.RewriteIsIdentity | src/padlock.c:1011-1040 | rewriting a header just read keeps the bytes exactly when the bytes reading ignores are the constants writing puts there |
| Header.OffsetField | src/padlock.c:999-999 | headers that differ in the write offset have images that differ in bytes 32 to 39 only |
| Header.SecretRoundTrip | src/padlock.c:896-988 | sealing works for every non-empty password, takes 80 of 128 bytes, changes no other field, and the password recovers the key |
| Header.OpenedExactly | src/padlock.c:940-979 | for accepted headers, a password opens to a key exactly if it is not empty and the sealed bytes decrypt under it to 72 to 88 bytes that begin with the magic and go on with the key |
| Header.SecretOverrunExactly | src/padlock.c:940-975 | for accepted headers, decryption leaves the 88-byte buffer exactly for a non-empty password and more than 96 sealed bytes, or 96 that hold more than 88 |
| Records.RecordLayout | src/padlock.c:1212-1215 | key length, key, value length and value lie where a reader looks for them |
| Records.RecordPadding | src/padlock.c:1200-1215 | a record is as long as its parts rounded up to blocks, and zero behind them |
| Records.EncodeRecord | src/padlock.c:1206-1215 | the buffer filled in place is the record, zero padding included |
| Records.LookupExactly | README.md:15-16 | looking up a key gives a value exactly if an entry has both and no later entry has the key |
| Records.LookupIsMap | README.md:15-16 | the last entry with a key is what the map of the log holds |
| Scan.ReadValueLength | src/padlock.c:1292-1312 | second decryption: the value length, with exactly one read, and none if it would pass the limit |
| Scan.ReadWhole | src/padlock.c:1313-1341 | third decryption: the whole record, with exactly one read, and none if it would pass the limit |
| Scan.ReadEntry | src/padlock.c:1280-1341 | one round gives the record or takes an error exit, and makes exactly the one, two or three reads of the stage it reaches, also when the environment stops it |
| Scan.ScanLoop | src/padlock.c:1269-1364 | the loop ends on every content, answers as its recursion does, and makes exactly the reads specified |
| Scan.ScanRecords | src/padlock.c:1269-1372 | the answer is the last match in the list of visited records, or a failure if the walk broke off; the reads are exactly those of the walk |
| Scan.ReadBound | src/padlock.c:1269-1323 | on every content and in every environment, get reads the header and after that only between the header and the write offset |
| Scan.ScanIsWalk | src/padlock.c:1343-1370 | keeping the last match on the way is searching the list of visited records from its end |
| Scan.StagedSizes | src/padlock.c:1280-1341 | on any content, the sizes taken from the early decryptions are those in the whole record |
| Scan.FitsExactly | src/padlock.c:1312-1320 | on any content, a record lies inside its buffer exactly up to 2^32 - 16 bytes |
| Scan.UndefinedExactly | src/padlock.c:1312-1356 | get has no meaning exactly if the sealed secret leaves its buffer or the scan visits a record longer than 2^32 - 16 bytes that has the key or is too short to compare it |
| Scan.FoundExactly | src/padlock.c:1244-1381 | on any file, get answers a value exactly if the header is read, the password opens it, and under that key the records from the header to the write offset can all be read and the last one with the key has that value |
| Scan.FailsUnopened | src/padlock.c:1258-1267 | without a header, or with a password that does not open it, get fails |
| Scan.StoppedReads | src/padlock.c:1280-1323 | a round that the environment stops makes the first of the reads it would have made |
| Scan.GetIsLocal | src/padlock.c:1269-1372 | no answer of get depends on a byte at or above the write offset |
| Store.RoundOfStore | src/padlock.c:1280-1341 | one round at the start of a stored record returns that record |
| Store.ScanOfPrefix | src/padlock.c:1269-1364 | whatever follows the records of a log in a file, the scan visits these first and, undisturbed, all of them, and then goes on behind them |
| Store.ScanInvertsAppend | src/padlock.c:1269-1364 | the scan visits the stored records in order and, undisturbed, all of them, and stops at the write offset without an error exit |
| Store.GetOfPrefix | src/padlock.c:1244-1381 | what get answers on a file that begins with the records of a log: decided by the log and by what the key reads behind it |
| Store.GetRefinesLookup | src/padlock.c:1244-1381 | get answers the value of the last entry with the key, fails if there is none, and under faults fails rather than answer anything else |
| Store.StoreReads | src/padlock.c:1269-1341 | on a store and undisturbed, get reads the header and then every record exactly three times, in order |
| Store.RepresentsIsLocal | src/padlock.c:1217-1229 | bytes at or above the write offset do not matter to what a file stands for |
| Store.SetExtends | src/padlock.c:1217-1229 | record and header written, the file stands for the log with one more entry |
| Bytes.WriteAtBytes | src/padlock.c:1220-1221 | every byte of a file after a write at a position: the data, the old bytes, and zeros in a gap |
| Store.AfterSetFootprint | src/padlock.c:1220-1226 | a complete set changes only the offset field and the place of the new record |
| Store.PlanOnStore | src/padlock.c:1190-1219 | on a store and with any password, set gets to its writes exactly if the password opens it, memory is there and the entry is storable, short enough and has room; what it writes is the record under the key the password opens |
| Store.SealedSizeFits | src/padlock.c:940-975 | with the 80 sealed bytes this code writes, no password makes decryption leave its buffer |
| Runs.SetKeepsShape | src/padlock.c:1174-1242 | with any password, a call stores exactly if it is effective, keeps the length and the form of the file, and otherwise every byte below the write offset |
| Runs.SetRefinesAppend | src/padlock.c:1174-1242 | a call with any password stores exactly if it is effective, and the file then stands for the next contents if and only if the record it wrote is the one the store's own key gives |
| Runs.StepBack | src/padlock.c:1220-1226 | a file that stands for the next contents after a call stood for the contents before it |
| Runs.CommitPoint | src/padlock.c:1217-1229 | a call of any password refused, or stopped anywhere before the header write with any bytes left behind, changes no answer of get for any password and key |
| Runs.OverrunExactly | src/padlock.c:1200-1215 | the calls to which C gives no meaning, exactly |
| Runs.StoredExactly | src/padlock.c:1174-1242 | on any file, set stores exactly if nothing interrupts it, the key has 1 to 255 bytes, the header is read, the password opens it, and the record is short enough and has room |
| Runs.SetOverrunsExactly | src/padlock.c:1186-1215 | on any file, set leaves a buffer exactly for a sealed secret that is too long or an entry over 2^32 bytes whose cut length has room |
| Runs.RefusedKeepsFile | src/padlock.c:1186-1242 | a refused call leaves any file alone unless it was stopped in its writes, and without a header it is always refused |
| Runs.StoppedLeaves | src/padlock.c:1220-1229 | a call stopped in its writes leaves what came through, or the whole record, at the write offset |
| Runs.LockedOut | src/padlock.c:960-979 | on a store every password opens it or is locked out, exactly by the text it decrypts to; locked out, every call is refused and every read fails |
| Runs.SetFootprint | src/padlock.c:1220-1226 | every other byte of the file is as before, for stored, refused and interrupted calls of any password |
| Runs.AfterKeeps | src/padlock.c:1225-1226 | over any calls key and size stay, the log grows at its end and the write offset never goes back |
| Runs.RecognisedIsFaithful | src/padlock.c:972-979 | every call of a run writes what the store's key gives if every password in it that opens the store opens it to that key |
| Runs.RunFramed | src/padlock.c:1174-1242 | over every run, with any passwords, size, form and sealed key stay, and the write offset is where the next record goes |
| Runs.RunRefines | src/padlock.c:1174-1242 | at every point of every run, with any passwords, the file represents the contents computed without bytes or cipher if and only if every call so far was faithful |
| Runs.RunKeepsRecords | src/padlock.c:1220-1226 | the records of a store at one point of a run stand in the file ever after, whatever calls follow |
| Runs.RunAnswers | src/padlock.c:1174-1381 | at every point of every run, with any passwords, get finds the entries stored faithfully up to an earlier point, and its answer is decided by these and by what the store's key reads behind them |
| Runs.RunIsMap | src/padlock.c:1174-1381 | as long as every call was faithful, get answers what the map of the effective calls so far holds |
| Runs.RunFootprint | src/padlock.c:1220-1226 | over every run, with any passwords, the header outside its offset field and every earlier record stay the same bytes |
| Runs.RunLocksOut | src/padlock.c:960-979 | over every run a password that is locked out stays so: its reads fail and its calls change nothing |
| Runs.LogIsCalls | README.md:15-16 | the log of a run holds a key with a value exactly if the last effective call with the key carried it |
| Runs.InterruptionLeavesNoTrace | src/padlock.c:1217-1229 | with a refused or interrupted call left out of a run, every later read with any password answers the same, whatever calls with whatever passwords follow |
| Runs.Capacity | src/padlock.c:1200-1225 | the write offset is the header plus the padded lengths, in whole blocks within the file |
| Runs.RefusedForRoom | src/padlock.c:1200-1204 | an otherwise valid call is refused exactly when one more entry would exceed the size of the file |
| FileSystems.FileSystem.Get | src/padlock.c:1244-1381 | the call answers as specified for every file, the overrun of the secret included, and makes exactly the reads specified |
| FileSystems.FileSystem.Prepare | src/padlock.c:1186-1219 | the checks, the encoding and the encryption before the first write, with both overruns |
| FileSystems.FileSystem.WriteOut | src/padlock.c:1220-1229 | exactly the writes of the plan, record first and header second, up to where the environment stops them |
| FileSystems.FileSystem.Set | src/padlock.c:1174-1242 | the call makes exactly the changes specified, in their order, and they lead from the files before to the files after, in which one file is as specified |
| FileSystems.SetStates | src/padlock.c:1220-1229 | every state that the changes of a call pass through is the one before, the one a failing header write leaves, or the last |
| Copying.FillExactly | src/padlock.c:841-854 | reads fill a chunk exactly with the shortest stretch that gives the amount, with interruptions skipped and no failure or end of the device on the way |
| Copying.FlushExactly | src/padlock.c:856-862 | writes take a chunk exactly with the shortest stretch that takes the amount, none of them empty |
| Copying.SufficeExactly | src/padlock.c:836-864 | the whole copying loop succeeds exactly if the reads give the length chunk by chunk and the writes take it chunk by chunk |
| Copying.PlentySuffices | src/padlock.c:836-864 | however small the pieces, it succeeds if reads and writes go on in as many pieces as bytes are wanted |
| FileSystems.FileSystem.FillBuffer | src/padlock.c:841-854 | short and interrupted reads fill the chunk with what the device delivers, or fail exactly when the reads do; Copying.FillExactly says when that is |
| FileSystems.FileSystem.FlushBuffer | src/padlock.c:856-862 | short writes append the chunk in order, exactly if they suffice; whatever changes to the temporary file keep true of files and journal stays true |
| FileSystems.FileSystem.CopyChunk | src/padlock.c:836-864 | one round carries a chunk from the device to the file, and goes on exactly if reads and writes suffice |
| FileSystems.FileSystem.WriteRandom | src/padlock.c:818-876 | for every pattern of short reads and writes the file grows by what the device delivered, on success by exactly the length |
| FileSystems.FileSystem.Populate | src/padlock.c:1117-1152 | the temporary file becomes a new store exactly if nothing goes wrong; whatever changes to that file keep true of files and journal stays true |
| FileSystems.FileSystem.Allocate | src/padlock.c:1092-1172 | when it succeeds, exactly, and that it does whenever nothing stands in the way and the copying has plenty of pieces; its changes lead step by step from the files before to the files after, all about the temporary file but a final rename; in every state before the rename every other file is as it was, and after it the path holds a complete empty store; a failure leaves every file as it was |
| FileSystems.RenameReplaces | src/padlock.c:1154-1156 | changes about a temporary file and then its rename replace a file in one step |
| FileSystems.NewStoreIsEmpty | src/padlock.c:1127-1142 | random bytes under a sealed header are a store without entries that the password opens |
| FileSystems.NewStoreBytes | src/padlock.c:1123-1125 | behind its header a new store holds what the device delivered |
| Lifetime.LastValueWins | README.md:15-16 | from allocation on, at every point of every run at which every call so far was faithful, a key reads as the last value effectively set; and exactly there the file is a store with these entries |
| Lifetime.LastCallWins | README.md:15-16 | as long as every call was faithful, a read answers a value exactly if the last effective call with that key carried it, and fails if there was none |
| Lifetime.LockedOutForLife | src/padlock.c:960-979 | a password that does not unseal the new store never reads and never changes anything, whatever other calls are made |
| Lifetime.StoredForLife | src/padlock.c:1174-1381 | from allocation on, whatever calls with whatever passwords follow, a read finds what was stored faithfully and is then decided by what the store's key reads behind it |
| Lifetime.CutOffCall | src/padlock.c:1217-1229 | in every state between the changes of a call, and in the last unless the call is effective, every read answers as before |
| Lifetime.LastValueWinsAtEveryInstant | README.md:15-16 | from allocation on, between the writes of a call every read with any password answers as after the last complete call; so the last value wins there as well |
| Lifetime.SizeAndKeyPersist | src/padlock.c:1127-1140 | whatever calls with whatever passwords are made, the file keeps the allocated size, the header the salt and iv drawn at allocation, and the allocating password recovers the key drawn there |
| Limits.WidestValueOverruns | src/padlock.c:1200-1215 | on every store with a block of room, a one-byte key and a value of 2^32 - 1 bytes leave the buffer of set |
| Limits.LongRecordIsUndefined | src/padlock.c:1312-1356 | on every store without entries, one block can be written as a record on which get leaves its buffer |
| Limits.LongSecretIsUndefined | src/padlock.c:1032-1037 | every header in bounds with more than 96 sealed bytes is accepted, and then neither get nor set has a meaning |
| Limits.RewriteChanges | src/padlock.c:990-1040 | every header has an image that is read as that header but is not what writing it gives |
| Limits.OtherKeySpoilsStore | src/padlock.c:972-979 | there are a lawful suite, a store and an effective call with another password, not faithful, after which the store's own password finds nothing |
| Sizes.ReadDigits | src/padlock.c:747-751 | the digits up to the first other character give the numeral's value, or a range error exactly when it does not fit |
| Sizes.StrToUll | src/padlock.c:747-751 | it stops behind the numeral, or at the start exactly if there is none, and converts modulo 2^64 or reports a range error |
| Sizes.ParseSize | src/padlock.c:736-769 | the result is what the text means to the parser, and a failure for everything that is no such text |
| Sizes.SuffixGrammar | src/padlock.c:753-761 | a suffix is an optional unit letter and an optional B in any letter case, and stands for a power of 1024 |
| Sizes.TextUnique | src/padlock.c:747-751 | no text can be read in two ways |
| Sizes.NumeralMakesText | src/padlock.c:748-751 | every string with a digit after blanks and sign is a text |
| Sizes.TextHasNumeral | src/padlock.c:748-751 | and no other string is |
| Sizes.UnsignedExact | src/padlock.c:763-768 | without a minus sign: numeral times multiplier when the product fits 64 bits, a failure otherwise |
| Sizes.PrintedReads | src/padlock.c:736-769 | white space, a plus sign or none, the decimal print of a number and any spelling of a unit read as the product, or as a failure if it does not fit |
| Sizes.SuffixSpelt | src/padlock.c:753-761 | the suffixes and their factors, spelt out |
| Sizes.MinusOneWraps | src/padlock.c:747-748 | with a minus sign a result can wrap: "-1" gives 2^64 - 1 |
| Sizes.SignedExact | src/padlock.c:747-768 | what a text with a minus sign gives, for every numeral and unit |
| Sizes.ExactUnlessWraps | src/padlock.c:747-768 | the result is the number asked for, or a failure if that is no 64-bit number, exactly unless the text is a negative number that wraps |
| GuardProtocol.SessionSurvives | kernel/guard/hardcode_padlock_guard.c:392-437 | a session survives an event exactly if the event is not its holder's end with the live token nor a registration or unregistration of the inode |
| GuardProtocol.Exclusion | kernel/guard/hardcode_padlock_guard.c:134-197 | until released, in every interleaving, the session is held, other groups' begins get EBUSY, their ends EPERM, and their accesses are denied |
| GuardProtocol.FirstRelease | kernel/guard/hardcode_padlock_guard.c:426-434 | a session that is gone was released, and the release left the inode free |
| GuardProtocol.SomeGrant | kernel/guard/hardcode_padlock_guard.c:392-404 | a session comes about only by its holder's own successful begin |
| GuardProtocol.Handover | kernel/guard/hardcode_padlock_guard.c:392-434 | authority passes from one group to another only by a release and then the other's own begin |
| GuardProtocol.RegistrationPersists | kernel/guard/hardcode_padlock_guard.c:312-341 | a registered range is reported by every query until the next registration or unregistration, and starts without a session |
| GuardProtocol.UnregistrationPersists | kernel/guard/hardcode_padlock_guard.c:366-372 | an unregistration succeeds and frees the place of the inode; until the next registration queries, begins and ends answer ENOENT and every group may access it |
| GuardProtocol.OthersUntouched | kernel/guard/hardcode_padlock_guard.c:92-104 | calls about other inodes never change an inode's entry |
| GuardProtocol.Bounded | kernel/guard/hardcode_padlock_guard.c:312-332 | no run guards more than 64 inodes |
| GuardHistory.EntryIsHistory | kernel/guard/hardcode_padlock_guard.c:334-434 | from an empty table on, an inode has the range of its last registration and the session of the latest granted begin, as told by events and answers alone |
| GuardHistory.AnswersAreHistory | kernel/guard/hardcode_padlock_guard.c:134-467 | every answer over every run is the one the events and answers before it call for: when each call is granted and with which error it is refused, exactly |
| GuardHistory.DeniedExactly | kernel/guard/hardcode_padlock_guard.c:134-197 | access is denied exactly if the inode is registered and the group is not the one of the latest begin |
| GuardHistory.EndNeedsLatestToken | kernel/guard/hardcode_padlock_guard.c:426-434 | end succeeds exactly for the group and the token of the latest begin since the last reset |
| GuardTable.KeysCollide | kernel/guard/hardcode_padlock_guard.c:61-64 | distinct inodes can share a hash key |
| GuardTable.SearchFinds | kernel/guard/hardcode_padlock_guard.c:92-104 | with one slot per inode, a search through all slots finds that slot |
| GuardTable.UpdateKeeps | kernel/guard/hardcode_padlock_guard.c:334-341 | changing the fields of a slot in use keeps index and table in step |
| GuardTable.InsertIndexed | kernel/guard/hardcode_padlock_guard.c:315-325 | linking a free slot keeps every slot in use in exactly its own bucket, once |
| GuardTable.InsertImplements | kernel/guard/hardcode_padlock_guard.c:315-325 | taking a free slot for a new inode adds that inode to the table and nothing else |
| GuardTable.RemoveIndexed | kernel/guard/hardcode_padlock_guard.c:370-371 | unlinking a slot keeps every other slot in exactly its own bucket, once |
| GuardTable.RemoveImplements | kernel/guard/hardcode_padlock_guard.c:370-371 | giving up a slot removes its inode from the table and nothing else |
| GuardTable.FullTable | kernel/guard/hardcode_padlock_guard.c:327-331 | no slot is free exactly when 64 inodes are guarded |
| GuardMachine.LookupIsSearch | kernel/guard/hardcode_padlock_guard.c:92-104 | the search through one bucket finds what a search through all slots finds, and nothing exactly for unguarded inodes |
| GuardMachine.RegisterStands | kernel/guard/hardcode_padlock_guard.c:308-343 | registering on slots and buckets answers as registering on the table and goes on to stand for it |
| GuardMachine.UnregisterStands | kernel/guard/hardcode_padlock_guard.c:366-372 | unregistering on slots and buckets goes on to stand for the table without the inode |
| GuardMachine.BeginStands | kernel/guard/hardcode_padlock_guard.c:383-407 | begin on slots and buckets answers as begin on the table and goes on to stand for it |
| GuardMachine.EndStands | kernel/guard/hardcode_padlock_guard.c:417-436 | end on slots and buckets answers as end on the table and goes on to stand for it |
| GuardMachine.DenyStands | kernel/guard/hardcode_padlock_guard.c:134-197 | the hooks decide from the slots as from the table |
| GuardMachine.StepSimulates | kernel/guard/hardcode_padlock_guard.c:295-467 | every step of the machine is the same step of the protocol with the same answer |
| GuardMachine.MachineRefines | kernel/guard/hardcode_padlock_guard.c:295-467 | every run of slots and buckets, in every interleaving, is a run of the protocol, state for state and answer for answer |
| GuardMachine.MachineExclusion | kernel/guard/hardcode_padlock_guard.c:134-197 | while a slot records a session and nothing releases it, it stays recorded, and array and index turn every other group away |
| GuardMachine.MachineAnswersAreHistory | kernel/guard/hardcode_padlock_guard.c:134-467 | from blank memory on, every answer of array and index is the one the events and answers before it call for |
| GuardMachine.SlotsAreHistory | kernel/guard/hardcode_padlock_guard.c:308-372 | an inode has a slot exactly if it is registered, with its last range and latest grant, and as many slots are in use as inodes are registered |
| GuardMachine.UnregisterFrees | kernel/guard/hardcode_padlock_guard.c:366-372 | unregistering gives up exactly the slot of the inode |
| GuardMachine.MachineDeniesExactly | kernel/guard/hardcode_padlock_guard.c:134-197 | from blank memory on, array and index deny access exactly if the inode is registered and the group is not the one of the latest begin |
| GuardMachine.MachineEndNeedsLatestToken | kernel/guard/hardcode_padlock_guard.c:426-434 | from blank memory on, array and index grant an end exactly to the group and token of the latest begin |
| Guards.Guard.constructor | kernel/guard/hardcode_padlock_guard.c:564-565 | an empty index over unused slots is the blank memory and stands for the empty table |
| Guards.Guard.Find | kernel/guard/hardcode_padlock_guard.c:92-104 | the bucket search finds what a search through all slots finds, whatever keys collide, and nothing exactly for unguarded inodes |
| Guards.Guard.Claim | kernel/guard/hardcode_padlock_guard.c:315-325 | the first free slot is zeroed, marked and linked; there is none exactly when the table is full |
| Guards.Guard.Register | kernel/guard/hardcode_padlock_guard.c:295-345 | array and index make exactly the registration step of the machine, and stand for the table with the registration, or ENOSPC and no change |
| Guards.Guard.Unregister | kernel/guard/hardcode_padlock_guard.c:347-374 | array and index make exactly the step of the machine and stand for the table without the inode |
| Guards.Guard.BeginSession | kernel/guard/hardcode_padlock_guard.c:376-409 | array and index make exactly the step of the machine, which is begin on the table, with every error case |
| Guards.Guard.EndSession | kernel/guard/hardcode_padlock_guard.c:411-438 | array and index make exactly the step of the machine, which is end on the table, with every error case |
| Guards.Guard.Query | kernel/guard/hardcode_padlock_guard.c:440-467 | range, token and flags of the entry; the session flag and a non-zero token come together |
| Guards.Guard.DenyAccess | kernel/guard/hardcode_padlock_guard.c:139-197 | a guarded inode is denied to everybody but the holder of its session |
| Guards.Guard.Ioctl | kernel/guard/hardcode_padlock_guard.c:469-520 | what each command does to table and memory and answers, the commands that read a path past its end, what is copied back, and that a failed copy out leaves the effect in place |
| Guards.CommandOnText | kernel/guard/hardcode_padlock_guard.c:376-507 | what each command does for a path that spells a text, empty or not |
| Guards.CommandOnOtherPaths | kernel/guard/hardcode_padlock_guard.c:484-507 | what each command does for a path whose last byte is not zero |
| Guards.DispatchIsRun | kernel/guard/hardcode_padlock_guard.c:484-507 | what a command does to the memory is a run of the machine over the events of that command |

## Left out

- FileSystems.FileSystem.Set: a write of the header is one step, done or not done; a torn header, stdio buffering and disk reordering are not modelled.
- FileSystems.FileSystem.Get: the NUL byte appended to a returned value is not modelled, and failures of opening are one flag.
- FileSystems.FileSystem.Allocate: making the parent directory, file modes, links and the retries of `mkstemp` are not modelled; `unlink` is taken to work.
- Cipher.XtsBlocks: lengths that are no whole number of blocks are refused, while XTS would steal from the last whole block; every caller passes whole blocks.
- Guards.Guard.Register: the path text copied into a slot is not kept, since nothing reads it; the hash over the 64-bit key is any function into 256 buckets.
- Guards.Guard.BeginSession: the loop that draws random tokens until one is not zero is a parameter that is not zero, and a group number is never zero.
- Secrecy: the laws of the `Suite` say nothing about what an observer learns, so nothing follows about it.
- Several processes writing one store at once: the library takes no file lock and does not use the guard.
- TPM sealing, the HMAC that derives header passwords, and the primitives behind the `Suite`: foreign code, taken as parameters.
- The command line, PAM, prompts and error texts: user interface.
- Probe registration, register patching and module start and stop in the kernel: plumbing around `DenyAccess`.
- Constant-time comparison and zeroing of buffers: what they are for is timing and memory residue, which the model has no notion of.
- Path building and the install scripts: they only choose the path that the modelled calls get as a parameter.
