# LoRa repeater: verified models

Dafny models of the stateful and codec parts of the repeater firmware and of its
flashing tools, with proofs. `dafny verify dfyconfig.toml` checks everything.

| files | part of the repository |
|---|---|
| `Crc32`, `ConfigRecord`, `ConfigLoad`, `ConfigStore` | the stored configuration: record layouts, checksum, migrations, and the write-scratch / read-back / rename protocol under power failures |
| `Numbers`, `Staging`, `Pipe`, `Console` | the staged configuration: setting fields from text, the one-line form and its in-place splitter, the console and Bluetooth commands, commit |
| `StagedRuns` | store and staging together: whatever is edited and committed, nothing is lost |
| `MessageRing`, `Cooldown`, `CooldownTies`, `ReplyQueue`, `Inbox` | the LXMF inbox: duplicate ring, sender cooldown, reply scheduler, and the three together |
| `Replies` | when one sender can get two replies less than 15 s apart |
| `MsgpackFormat`, `MsgpackSkip`, `Msgpack` | the MessagePack writer and reader |
| `Command`, `Lxmf` | command matching; packing and unpacking LXMF messages |
| `Radio`, `RadioRuns`, `Airtime` | RNode split packets over a lossy channel; the reassembly deadline |
| `Crc16`, `Slip`, `Hci`, `Dfu` | the serial DFU client |
| `Uf2` | the Intel HEX to UF2 converter |
| `Patterns`, `Bits`, `Basics` | bytes, integer fields, shared small concepts |

Code that changes things step by step is modelled by methods and classes over
fields and arrays, each proved against a function of its inputs or its old state;
what the source promises is then proved about those functions, over all inputs
and all runs.

What the outside world answers is a parameter everywhere: clock readings, random
bytes, acknowledgements, link, path and identity lookups, the signature, the
outcome of flash operations, and what the C library's floating-point parser,
division and printer make of their arguments. Clocks are 32-bit and wrap, except
where a row says otherwise.

## Main results

* **Power failures.** From a complete version-3 record, through any run of loads,
  saves and power cuts between any two steps, the newest configuration whose
  rename had begun, or else the original, is always in one of the two files; load
  returns it, or nothing while it is in the scratch file alone because the
  boot-time rename failed (`ConfigStore.NothingIsLost`); after a cut at any state,
  a boot whose rename works returns it (`ConfigStore.BootAfterCut`). Exactly two steps lose it
  (`ConfigStore.StepIsSafeIff`): a save started while there is no live record,
  which takes a failed recovery first (`ConfigStore.FailedRecoveryLoses`), and the
  rename of a record that load refuses, which no sequence of edits and commits
  leads to (`StagedRuns.StagedNeverSpoils`). So whatever is edited and committed,
  every load yields the newest configuration while recoveries succeed
  (`StagedRuns.StagedLoadsSucceed`).
* **Save and load.** Loading what was saved gives it back restamped, exactly when
  it was at version 2 or later or its younger fields happen to be in range
  (`ConfigLoad.SavedIsLoadedIff`); a version-1 counterexample exists
  (`ConfigLoad.SavedButRefused`), and no sequence of edits reaches it
  (`Console.StagingStaysSound`). Which files of each age load is told from their
  bytes (`ConfigLoad.V1LoadsIff`, `V2LoadsIff`, `V3LoadsIff`).
* **Inbox.** After its last admission a sender is admitted again exactly when 15 s
  have gone by or four other senders were admitted since
  (`Inbox.AdmittedAgainIff`; `CooldownTies.AdmittedAgainExactly` settles ties); a
  message id is taken for new again exactly when eight others have been since
  (`MessageRing.PassesAgainIff`), and two packed commands share an id exactly when
  their signatures agree on eight bytes (`Inbox.OneIdIff`); every command is
  answered once, given up once, or pending; none is given up in its first minute
  (`Replies.GivenUpAfterAMinute`, `Replies.YoungCommandStays`); overdue commands
  drain in at most four transmissions.
* **Replies.** Two replies to one sender can come less than 15 s apart exactly when
  two of its commands wait, or one waits and the queue may transmit less than 15 s
  after the last reply to it (`Replies.TooSoonIff`); in every run this could be
  told when the later command was accepted (`Replies.TooSoonWasForeseeable`).
* **MessagePack.** The skipper accepts exactly the encodings at most eight levels
  deep, but for two length fields whose 32-bit arithmetic wraps
  (`MsgpackSkip.SkipIsExact`); both wraps are reachable with five bytes
  (`MsgpackSkip.WrappedFragments`).
* **Split packets.** With distinct sequence nibbles within a deadline nothing but
  whole sent packets is delivered, each at most once, and a pair of halves in time
  is delivered. Over all channels, nothing but whole packets comes out if and only
  if no two split packets drew one nibble (`RadioRuns.OnlyWholeIff`).
* **Configuration line.** Whatever edits are made from the defaults, the printed
  line fits the Bluetooth buffer and brings every integer field, the name, the
  collector and the five flags it carries across
  (`Console.ReachableLineRoundTrip`).
* **DFU.** The byte stream of a completed flash decodes uniquely to the session;
  the five-line CRC-16 is the bit-by-bit one.
* **UF2.** Loading the blocks in order, later ones winning, rebuilds the image.

## Where the code and its documentation differ

The models follow the code.

* `README.md:121-122` says that a sender gets at most one reply per 15 s. The 15 s
  are kept between admissions, and even those only until four other senders come
  in between (`Cooldown.EvictedSenderReturnsEarly`). Replies are not spaced per
  sender at all: two commands admitted 15 s apart can be answered 5 s apart
  (`Replies.TwoRepliesInFiveSeconds`); `Replies.TooSoonIff` says exactly when.
* The same lines say that retried duplicates are answered once. The ring forgets an
  id after eight others (`MessageRing.ForgottenAfterEight`); a message sent again
  then is queued and answered a second time (`Replies.RetryIsAnsweredTwice`).
* `src/Config.h:104-107` says that a failed load populates its argument with
  defaults; `src/Config.cpp:156-158` leaves it untouched.
* `src/Config.h:7` names another file than `src/Config.cpp` reads.
* `src/Msgpack.h:83-85` says that the reader returns false on truncated input; the
  two wrapped lengths get through.
* `src/Radio.cpp:182-184` sizes the deadline to two frames and a second; its 30 s
  cap can undercut one frame (`Airtime.NarrowBandCutOff`).

## Model

| member | source | states |
|---|---|---|
| `Crc32.Compute` | src/Config.cpp:81-92 | the mask-and-shift loop computes the bit-by-bit reflected CRC-32, whatever the data |
| `Crc32.MaskedShift` | src/Config.cpp:86-88 | the branch-free mask folds the polynomial in exactly when the bit that left was set |
| `Crc32.FeedAllInjective` | src/Config.cpp:81-92 | different registers stay different through the same data, so an error once in the register is never lost |
| `Crc32.BurstDetected` | src/Config.cpp:81-92 | two different stretches of one length of at most four bytes, fed to one register, never leave the same register |
| `Crc32.SealedResidue` | src/Config.cpp:321-328 | every record that ends in its own checksum drives the register to one and the same residue |
| `Crc32.SealedBurst` | src/Config.cpp:318-335 | two records ending in their own checksums that differ only in a window of four bytes, straddling the checksum or not, are equal |
| `Crc32.CheckValue` | src/Config.cpp:81-92 | the checksum of the digits 1 to 9 is the published one, 0xCBF43926 |
| `Crc16.Compute` | docs/dfu.js:24-35 | the five-line loop computes the bit-by-bit CRC-16 with polynomial 0x1021 and start value 0xFFFF |
| `Crc16.FiveLinesAreFeed` | docs/dfu.js:27-32 | on any 16-bit register and any byte, the five lines and the mask equal eight bit steps; the wide intermediates never reach the low 16 bits |
| `Crc16.FeedAllInjective` | docs/dfu.js:24-35 | different registers stay different through the same data |
| `Crc16.WrongByteDetected` | docs/dfu.js:24-35 | bodies of one length that differ in exactly one byte have different checksums |
| `Crc16.CheckValue` | docs/dfu.js:24-35 | the checksum of the digits 1 to 9 is the published one, 0x29B1 |
| `MessageRing.RecordSlides` | src/LxmfInbox.cpp:100-101 | overwriting the next slot slides the window by one, in order |
| `MessageRing.RingIsWindow` | src/LxmfInbox.cpp:96-103 | after every run the ring holds the last eight recorded ids, in order from the next slot on |
| `MessageRing.SeenIsInWindow` | src/LxmfInbox.cpp:96-103 | a message counts as seen exactly while its id is one of the last eight recorded |
| `MessageRing.EightOthersInBetween` | src/LxmfInbox.cpp:96-103 | an id is recorded again only after eight other ids, all distinct, were recorded in between |
| `MessageRing.EightOthersPassed` | src/LxmfInbox.cpp:96-103 | a message id passes as new a second time only after at least eight different other ids have passed since |
| `MessageRing.PassesAgainIff` | src/LxmfInbox.cpp:96-103 | the exact rule of every run: after a message id last passed it passes again if and only if at least eight others have passed since |
| `MessageRing.ForgottenAfterEight` | src/LxmfInbox.cpp:96-103 | for any nine different ids, the first one offered again after the other eight passes a second time |
| `MessageRing.FirstOffer` | src/LxmfInbox.cpp:83-103 | a first-time id is taken for a duplicate exactly when it is the all-zero id of the zeroed buffer and fewer than eight ids have been recorded |
| `Cooldown.VictimIsFreeOrOldest` | src/LxmfInbox.cpp:114-119 | the slot taken is free, or all four are used and it is the longest idle |
| `Cooldown.RunIsFaithful` | src/LxmfInbox.cpp:106-125 | in every run each used slot stands for an admission that took place, and no sender holds two slots |
| `Cooldown.RefusedIff` | src/LxmfInbox.cpp:108-113 | an attempt is refused exactly when the sender holds a slot written less than 15 s of clock ago |
| `Cooldown.FourOthersWithinCooldown` | src/LxmfInbox.cpp:106-125 | before the clock wraps: a sender admitted twice less than 15 s apart saw at least four other senders admitted at times in between |
| `Cooldown.FourLaterOthersReopen` | src/LxmfInbox.cpp:106-125 | conversely, a sender that saw four other senders admitted at later readings than its own last admission is admitted, however soon it returns |
| `Cooldown.LateIsAdmitted` | src/LxmfInbox.cpp:111-113 | once 15 s have passed since its last admission a sender is admitted, evicted or not |
| `Cooldown.AdmittedAgainIff` | src/LxmfInbox.cpp:106-125 | the exact rule of every run before the clock wraps: admitted again if and only if 15 s have gone by or at least four other senders were admitted since, no other having been admitted at the very same reading |
| `CooldownTies.VictimIsFirstOldest` | src/LxmfInbox.cpp:114-119 | of several slots idle for equally long the first one is taken |
| `CooldownTies.AdmittedAgainExactly` | src/LxmfInbox.cpp:106-125 | the exact rule of every run before the clock wraps, several senders admitted at one reading included: admitted again if and only if 15 s have gone by or four others were left behind in slots that outlast the sender's, or admitted since at a later reading or into its own or a later slot |
| `Cooldown.NewcomerIsAdmitted` | src/LxmfInbox.cpp:113-124 | a sender not admitted before is never refused |
| `Cooldown.FewSendersAreSpaced` | src/LxmfInbox.cpp:106-125 | with at most four senders in the run, admissions of one sender are at least 15 s apart |
| `Cooldown.EvictedSenderReturnsEarly` | src/LxmfInbox.cpp:113-122 | for any five different senders there is a run in which the first is admitted twice within 5 ms |
| `Command.EqualIgnoringCase` | src/LxmfCommand.cpp:43-48 | the character loop tells whether two C strings are equal but for case |
| `Command.Match` | src/LxmfCommand.cpp:50-58 | each command is recognised exactly for its words, case and one leading slash aside; anything else is none |
| `Command.CommandWords` | src/LxmfCommand.cpp:50-58 | status, battery, bat and help, letter by letter and in any case, after at most one slash: exactly these texts are commands |
| `Command.MatchIgnoresCaseAndSlash` | src/LxmfCommand.cpp:50-58 | texts equal but for case match the same command, with and without a slash in front |
| `Command.LongTextsAreNoCommand` | src/LxmfCommand.cpp:50-58 | a text of more than eight characters is never a command |
| `Command.CStringEndsAtNul` | src/LxmfCommand.cpp:50-52 | a C string is what stands before the first NUL |
| `ReplyQueue.OneTransmission` | src/LxmfInbox.cpp:351-354 | a pass transmits at most once, and services nothing after that |
| `ReplyQueue.OutcomesIff` | src/LxmfInbox.cpp:271-311 | exactly when a command is replied to on its link, replied to opportunistically, has a path requested, or is given up, by the answers and its age in milliseconds, and what is left in its slot |
| `ReplyQueue.PassIs` | src/LxmfInbox.cpp:337-354 | a pass looks at the first slot, then at the second unless the first transmitted, and notes the time of a transmission; within 5 s of the last one it does nothing |
| `ReplyQueue.GivenUpIsOld` | src/LxmfInbox.cpp:303-310 | a pass that gives a command up finds it waiting for at least 60 s of clock |
| `ReplyQueue.LinkedCommandWaits` | src/LxmfInbox.cpp:283-285 | a command whose link is up with its peer not yet identified stays as it is until it is 12 s old |
| `ReplyQueue.OverdueServeDecreases` | src/LxmfInbox.cpp:271-311 | a pass over slots at least 60 s old leaves less to do, whatever the network answers, and adds no job |
| `ReplyQueue.OverdueQueueDrains` | src/LxmfInbox.cpp:337-354 | with no arrivals and every slot overdue the queue empties within as many working passes as were left to do, four at most, with no more transmissions than that |
| `ReplyQueue.LastReplyIsLatest` | src/LxmfInbox.cpp:350-353 | the stored reply time is the clock of the latest transmission |
| `ReplyQueue.TransmissionsAreSpaced` | src/LxmfInbox.cpp:350-353 | in every run two transmissions are at least 5 s apart, unless one from the earlier on fell on clock reading zero |
| `ReplyQueue.SpacedAfterTransmission` | src/LxmfInbox.cpp:350-353 | after a transmission the next pass works exactly when its clock reading was zero or 5 s of clock have gone by |
| `ReplyQueue.ZeroReadingBunches` | src/LxmfInbox.cpp:350-353 | at any time the clock reads zero there is a run with two transmissions 1 ms apart |
| `ReplyQueue.CommandsAreConserved` | src/LxmfInbox.cpp:152-163 | in every run each accepted command is replied to, given up or pending, counted job by job |
| `Inbox.LxmfInbox.constructor` | src/LxmfInbox.cpp:79-85 | the static tables start zeroed and empty |
| `Inbox.LxmfInbox.SeenBefore` | src/LxmfInbox.cpp:96-103 | searches the ring and records a new id in place: the ring's specification, nothing else changed |
| `Inbox.LxmfInbox.FindSender` | src/LxmfInbox.cpp:107-110 | finds the first slot of a sender, or none |
| `Inbox.LxmfInbox.FindVictim` | src/LxmfInbox.cpp:115-119 | finds the first free slot, else the longest idle, earlier slots first |
| `Inbox.LxmfInbox.SenderAllowed` | src/LxmfInbox.cpp:106-125 | admits or refuses and rewrites the table in place as specified, nothing else changed |
| `Inbox.LxmfInbox.EnqueueJob` | src/LxmfInbox.cpp:152-163 | the first free slot takes the job; a full queue drops it |
| `Inbox.LxmfInbox.AdmitRequest` | src/LxmfInbox.cpp:143-163 | duplicates leave everything alone, a cooling sender only records the id, and only an admitted request reaches the queue |
| `Inbox.LxmfInbox.Recognized` | src/LxmfInbox.cpp:128-135 | a message is a request exactly when it unpacks and matches a command; what it is made of is `Inbox.SentIsRequest` |
| `Inbox.LxmfInbox.HandleMessage` | src/LxmfInbox.cpp:127-164 | the whole state after any incoming bytes, with both clock readings |
| `Inbox.LxmfInbox.Service` | src/LxmfInbox.cpp:271-311 | one pending reply is moved on, and whether that used the radio |
| `Inbox.LxmfInbox.Tick` | src/LxmfInbox.cpp:337-354 | a pass of the main loop: nothing while offline or within the spacing, else the slots in order up to the first transmission |
| `Inbox.RunProjects` | src/LxmfInbox.cpp:127-164 | in every run of messages and passes the ring, the table and the queue each go through the run their own theorems are about |
| `Inbox.AdmittedAgainIff` | src/LxmfInbox.cpp:106-125 | the same over runs of messages and passes: a request that is no duplicate is admitted after its sender's latest admission if and only if 15 s have gone by or at least four other senders were admitted since |
| `Inbox.AnsweredOnce` | src/LxmfInbox.cpp:143-147 | a message id is taken for new a second time only after at least eight others have been |
| `Inbox.AnsweredTwice` | src/LxmfInbox.cpp:127-164 | for any sender and nine different ids there is a run in which one message is admitted twice and waits in both slots |
| `Inbox.SentIsRequest` | src/LxmfInbox.cpp:127-144 | a packed message whose text is a command is recognised as coming from its sender, with that command and its timestamp, under the first eight bytes of its signature |
| `Inbox.OneIdIff` | src/LxmfInbox.cpp:143-147 | two packed commands count as one message if and only if their signatures agree on the first eight bytes |
| `Inbox.ResentIsIgnored` | src/LxmfInbox.cpp:143-147 | the same bytes handled a second time right after change nothing, whatever the clock reads and over whichever path they come |
| `Inbox.TwoSendersWait` | src/LxmfInbox.cpp:127-164 | after boot two packed commands of different senders whose signatures differ in the first eight bytes, neither of them zeros, both end up waiting, each with its sender, command, clock reading, timestamp and link |
| `Replies.NotBeforeEarliest` | src/LxmfInbox.cpp:350-353 | no pass of a run transmits before the moment told from the last transmission and the present |
| `Replies.TransmissionsAreSpaced` | src/LxmfInbox.cpp:350-353 | in every run of messages and passes two transmissions are at least 5 s apart, unless one from the earlier on fell on clock reading zero |
| `Replies.CommandsAreConserved` | src/LxmfInbox.cpp:127-164 | in every run of messages and passes each accepted command is replied to, given up or pending, counted job by job |
| `Replies.GivenUpAfterAMinute` | src/LxmfInbox.cpp:303-310 | in every run of messages and passes, an event that gives a command up comes at least 60 s after every time that command was accepted |
| `Replies.YoungCommandStays` | src/LxmfInbox.cpp:271-311 | in every run, until 60 s have passed an accepted command stays in its slot unless an event replies to it |
| `Replies.TooSoonIff` | src/LxmfInbox.cpp:271-311 | after any run, further passes can give a sender a reply less than 15 s after an earlier one if and only if two of its commands wait, or one does and the first moment the queue may transmit is less than 15 s after the last reply to it |
| `Replies.TooSoonWasForeseeable` | src/LxmfInbox.cpp:127-164 | in every run, whenever two replies to a sender are less than 15 s apart, that condition already held when the sender's last command before the later reply was accepted |
| `Replies.TwoRepliesInFiveSeconds` | src/LxmfInbox.cpp:337-354 | for any two different messages of a sender there is a run in which they are admitted 15 s apart and answered 5 s apart, nobody else taking part |
| `Replies.RetryIsAnsweredTwice` | src/LxmfInbox.cpp:337-354 | for any sender and nine different ids there is a run in which one message is admitted twice and answered twice, 5 s apart |
| `MsgpackSkip.HeadReads` | src/Msgpack.cpp:182-219 | the skipper reads back every encoding's tag and length as written, without wrapping |
| `MsgpackSkip.SkipTree` | src/Msgpack.cpp:182-228 | any encoding, anywhere in a buffer, is skipped to exactly its end when no element sits more than eight levels down, and refused otherwise; the count check turns none away |
| `MsgpackSkip.SkipForest` | src/Msgpack.cpp:223-224 | the same for a row of encodings |
| `MsgpackSkip.SkippedIsTree` | src/Msgpack.cpp:182-228 | whatever is skipped without meeting a wrapped length is an encoding within the depth cap |
| `MsgpackSkip.TreesDoNotWrap` | src/Msgpack.cpp:214-219 | no encoding contains a length that wraps |
| `MsgpackSkip.SkipIsExact` | src/Msgpack.cpp:182-228 | bytes are an encoding within the cap if and only if the skipper accepts exactly them and meets no wrapped length |
| `MsgpackSkip.WrappedExtIsAccepted` | src/Msgpack.cpp:214-216 | an ext 32 said to hold 2^32 - 1 bytes passes for five bytes and is no encoding |
| `MsgpackSkip.WrappedMapIsAccepted` | src/Msgpack.cpp:217-222 | a map 32 said to hold 2^31 pairs passes for five bytes and is no encoding |
| `MsgpackSkip.WrappedFragments` | src/Msgpack.cpp:214-222 | concrete five-byte inputs for both |
| `MsgpackSkip.EncodingsArePrefixFree` | src/Msgpack.cpp:182-228 | two encodings within the cap that stand at one place are the same bytes |
| `Msgpack.WritesWellFormed` | src/Msgpack.cpp:24-105 | the writer chooses a well-formed format for every value in range |
| `Msgpack.NestingIsHeight` | src/Msgpack.cpp:24-42 | how deep a value nests is how deep its encoding does |
| `Msgpack.ListIsHeaderThenElements` | src/Msgpack.cpp:24-32 | a list is its header call followed by its elements' calls |
| `Msgpack.DictIsHeaderThenEntries` | src/Msgpack.cpp:34-42 | a map is its header call followed by its keys' and values' calls |
| `Msgpack.WrittenIsSkipped` | src/Msgpack.cpp:24-105 | whatever the writer emitted is skipped exactly when it nests at most eight deep |
| `Msgpack.NumberRoundTrip` | src/Msgpack.cpp:47-74 | every 64-bit integer, signed or not, is read back as the same number |
| `Msgpack.FloatRoundTrip` | src/Msgpack.cpp:76-81 | every double is read back bit by bit |
| `Msgpack.BytesRoundTrip` | src/Msgpack.cpp:83-105 | every text and blob is read back whole |
| `Msgpack.ArrayHeaderRoundTrip` | src/Msgpack.cpp:128-136 | a list's header reads back its count and leaves the cursor at its elements |
| `Msgpack.NumberBytes` | src/Msgpack.cpp:47-74 | the bytes written for every number, tag by tag: the shortest format |
| `Msgpack.ScalarBytes` | src/Msgpack.cpp:44-105 | the bytes written for nil, booleans, doubles, texts and blobs |
| `Msgpack.ContainerBytes` | src/Msgpack.cpp:24-42 | the bytes written for the counts of arrays and maps |
| `Msgpack.NumberReadsIff` | src/Msgpack.cpp:151-180 | exactly the encodings of numbers are read as numbers, each in any format wide enough, and as the number they encode |
| `Msgpack.BytesReadIff` | src/Msgpack.cpp:138-149 | exactly the seven formats of texts and blobs are read as byte strings, with a length field of any width that holds the length |
| `Msgpack.ArrayHeaderReadsIff` | src/Msgpack.cpp:128-136 | exactly the three array headers are read as array headers |
| `Msgpack.Writer.PutBe` | src/Msgpack.cpp:8-22 | appends a number's low bytes, most significant first |
| `Msgpack.Writer.ArrayHeader` | src/Msgpack.cpp:24-32 | appends the smallest array header for the count |
| `Msgpack.Writer.MapHeader` | src/Msgpack.cpp:34-42 | appends the smallest map header for the count |
| `Msgpack.Writer.UInt` | src/Msgpack.cpp:47-59 | appends the smallest unsigned envelope |
| `Msgpack.Writer.Integer` | src/Msgpack.cpp:61-74 | appends the smallest envelope of a signed number |
| `Msgpack.Writer.Float64` | src/Msgpack.cpp:76-81 | appends a double's bits, always as float 64 |
| `Msgpack.Writer.Str` | src/Msgpack.cpp:83-94 | appends a text with the smallest length field |
| `Msgpack.Writer.Bin` | src/Msgpack.cpp:96-105 | appends a blob with the smallest length field |
| `Msgpack.Reader.Take` | src/Msgpack.cpp:113-118 | takes bytes exactly when that many are left, else does not move |
| `Msgpack.Reader.BigEndian` | src/Msgpack.cpp:120-126 | the shift loop reads a big-endian number that fits its register |
| `Msgpack.Reader.ReadHeader` | src/Msgpack.cpp:128-136 | reads an array header on any bytes |
| `Msgpack.Reader.ReadBlob` | src/Msgpack.cpp:138-149 | reads a str or bin on any bytes |
| `Msgpack.Reader.Number` | src/Msgpack.cpp:151-180 | reads any numeric value on any bytes |
| `Msgpack.Reader.SkipDepth` | src/Msgpack.cpp:184-228 | on any bytes the recursive skipper terminates, stays inside the buffer, agrees with its specification, and is called at most once per byte consumed and once more |
| `Msgpack.Reader.Skip` | src/Msgpack.cpp:182-182 | at most as many nested calls as bytes are left, and one |
| `Lxmf.Pack` | src/Lxmf.cpp:54-123 | the step-by-step packer builds the specified message or refuses |
| `Lxmf.PackedIff` | src/Lxmf.cpp:54-113 | packing succeeds exactly for a known destination, a hash of 16 bytes, a signature of 64, and a text and fields (an empty map counts one byte) that share 281 bytes (280 for a text of 256 and more) |
| `Lxmf.PackedBytes` | src/Lxmf.cpp:70-123 | a packed message from its first byte to its last: both hashes, the signature of everything else, the timestamp as a float 64, an empty title, the text, and the caller's fields unchanged or else the single byte 0x80 |
| `Lxmf.Unpack` | src/LxmfCommand.cpp:13-41 | the header split and cursor reads give the specified message, or none |
| `Lxmf.UnpackedIff` | src/LxmfCommand.cpp:13-41 | a message of any sender is understood if and only if more than 96 bytes come and an array of at least four follows whose first elements are a number and two byte strings, in any of their formats; what is read is that number and the trimmed third |
| `Lxmf.Trimmed` | src/LxmfCommand.cpp:34-37 | the two shrinking loops and the bound give the specified content |
| `Lxmf.TrimIsStretch` | src/LxmfCommand.cpp:34-36 | the content is the stretch from the first to the last visible byte, cut off after 48; only white space is trimmed |
| `Lxmf.PackedUnpacks` | src/Lxmf.cpp:54-123 | a packed message unpacks to its destination, our source hash, the same timestamp bits and the first 48 bytes of the trimmed text |
| `Lxmf.OpportunisticUnpacks` | src/Lxmf.cpp:145-151 | the same after the destination hash is stripped and the receiver puts its own in front; the addressee rebuilds the message exactly |
| `Lxmf.CommandArrives` | src/LxmfCommand.cpp:34-58 | a command text with any white space around it arrives as that command |
| `Lxmf.UnpackedExtends` | src/LxmfCommand.cpp:13-41 | what is accepted is accepted with the same result whatever follows |
| `Radio.Transceiver.ReadPending` | src/Radio.cpp:246-299 | a poll expires a stale half, drops bad frames, and delivers exactly the specified bytes into the buffer, leaving the rest of it alone |
| `Radio.Transceiver.Receive` | src/Radio.cpp:281-375 | a frame is delivered, buffered, joined or replaces the buffered half, as specified |
| `Radio.Transceiver.Join` | src/Radio.cpp:315-344 | the two halves are copied one behind the other, unless too large |
| `Radio.Transceiver.Transmit` | src/Radio.cpp:410-472 | nothing is sent while offline, inhibited or oversize; else one frame, or two with one header, the second only after the first went out |
| `Radio.FramesOnAir` | src/Radio.cpp:430-462 | up to 254 bytes go out behind one header with the sequence number on top; more go out in two frames with equal headers whose lowest bit is set, 254 bytes first |
| `Radio.PollOutcomes` | src/Radio.cpp:246-299 | noise, short and oversize frames leave a buffered half alone; a single frame is delivered, cut off at the caller's room |
| `RadioRuns.BufferedWasHeard` | src/Radio.cpp:301-354 | whatever is buffered is a half that was heard, with its nibble and time |
| `RadioRuns.Integrity` | src/Radio.cpp:246-375 | with distinct nibbles within a deadline, whatever is delivered is one sent packet, whole, on hearing its last frame |
| `RadioRuns.DeliveredOnce` | src/Radio.cpp:246-375 | no packet is delivered twice |
| `RadioRuns.SingleIsDelivered` | src/Radio.cpp:356-374 | a packet in one frame is delivered whenever that frame is heard |
| `RadioRuns.SplitIsDelivered` | src/Radio.cpp:301-344 | a split packet whose halves are both heard in time, with no other half in between, is delivered |
| `RadioRuns.CollidingNibblesJoin` | src/Radio.cpp:315-343 | two split packets of one nibble, whatever else is sent: heard one after the other their first halves are joined and delivered on a frame that is nobody's last; if all packets are shorter than 508 bytes nobody sent those bytes |
| `RadioRuns.OnlyWholeIff` | src/Radio.cpp:246-375 | through every channel nothing but whole packets is delivered, each on its own last frame, if and only if the nibbles of the split packets are pairwise distinct |
| `Airtime.CeilDivIsCeiling` | src/Radio.cpp:80-80 | the symbol count is rounded up |
| `Airtime.GroupsHoldAllBits` | src/Radio.cpp:71-84 | the payload symbols are the least number of groups that hold all bits, two bits fewer a group from 16 ms symbols on |
| `Airtime.KnownAirtimes` | src/Radio.cpp:71-84 | full-frame airtimes and deadlines of three settings, in milliseconds, and the capped deadline of a fourth |
| `Airtime.DeadlineIs` | src/Radio.cpp:182-190 | the deadline is twice a full frame and a second, at most 30 s; its lower bound never decides |
| `Airtime.DeadlineSufficesIff` | src/Radio.cpp:182-190 | the deadline leaves a second over a full frame's airtime exactly when that airtime is at most 29 s |
| `Airtime.WideBandsSuffice` | src/Radio.cpp:71-84 | at 62.5 kHz and above it does for every spreading factor and coding rate |
| `Airtime.NarrowBandCutOff` | src/Radio.cpp:186-190 | at SF12, 41.7 kHz and coding rate 4/8 the deadline is shorter than one frame |
| `Slip.Escape` | docs/dfu.js:46-55 | the escaping loop computes the escaped bytes |
| `Slip.Unescape` | docs/dfu.js:58-72 | the unescaping loop decodes, or fails on an escape that is wrong or cut off |
| `Slip.EscapeRoundTrip` | docs/dfu.js:46-72 | unescaping undoes escaping |
| `Slip.EscapedBytes` | docs/dfu.js:46-55 | the two escaped bytes and what they become; every other byte stands for itself |
| `Slip.EscapedParts` | docs/dfu.js:46-55 | escaping works byte by byte |
| `Slip.NoDelimiter` | docs/dfu.js:46-55 | an escaped frame never contains the delimiter |
| `Slip.EscapeIsCanonical` | docs/dfu.js:46-72 | without a delimiter in it, a frame decodes to some bytes if and only if it is their escaping |
| `Slip.FrameSplitsOff` | docs/dfu.js:105-106 | a delimited frame is split off a stream whole |
| `Hci.PreambleReads` | docs/dfu.js:95-99 | the preamble's sum, flags, numbers and 12-bit length check out exactly for payloads below 4096 bytes |
| `Hci.PreambleBytes` | docs/dfu.js:83-99 | sequence number, its successor and two flags, type 14, the length's twelve bits, and a sum of zero |
| `Hci.BodyBytes` | docs/dfu.js:100-103 | a packet is its preamble, its payload, and the checksum of both, low byte first |
| `Hci.BodyReads` | docs/dfu.js:83-106 | a receiver that checks the preamble, the length and the low-byte-first CRC reads a packet back as built if and only if its payload is below 4096 bytes |
| `Hci.StreamDecodes` | docs/dfu.js:83-107 | a stream decodes to exactly the packets sent, numbered consecutively modulo eight, if and only if every payload fits |
| `Hci.StreamIsUnique` | docs/dfu.js:83-107 | two streams are equal only if their payloads are |
| `Dfu.DfuTransport.Build` | docs/dfu.js:83-107 | advances the sequence number and builds the frame, checksum loop and escaping included |
| `Dfu.DfuTransport.SendHciPacket` | docs/dfu.js:300-310 | appends one framed packet to the wire |
| `Dfu.DfuTransport.SendStartDfu` | docs/dfu.js:314-326 | sends START with the size; fails without an acknowledgement |
| `Dfu.DfuTransport.SendInitPacket` | docs/dfu.js:328-337 | sends INIT and the two zero bytes; fails without an acknowledgement |
| `Dfu.DfuTransport.SendFirmware` | docs/dfu.js:339-411 | streams all chunks exactly when no eight acknowledgements in a row are missed, and succeeds if at least one came |
| `Dfu.Flash` | docs/dfu.js:437-462 | a flash completes exactly when START and INIT are acknowledged, one data packet is, and no eight in a row are missed; then the wire holds the whole session, and never anything but a beginning of it |
| `Dfu.KeptAliveIff` | docs/dfu.js:372-376 | the counter of misses trips exactly on eight consecutive ones |
| `Dfu.AckCountIsZeroIff` | docs/dfu.js:397-406 | the counter of acknowledgements is zero exactly when no packet was acknowledged |
| `Dfu.ChunksMakeFirmware` | docs/dfu.js:346-351 | the chunks put together are the firmware |
| `Dfu.FlashDecodes` | docs/dfu.js:437-462 | the session decodes, numbered 1, 2, 3, ... modulo eight, if and only if the init packet fits its length field |
| `Dfu.PayloadBytes` | docs/dfu.js:314-423 | the bytes of START, INIT, DATA and STOP payloads |
| `Dfu.FlashPacket` | docs/dfu.js:314-423 | packet by packet, in bytes: START with its mode, two zero sizes and the firmware's size, INIT and two zeros, the firmware in stretches of 512 bytes, STOP; numbered from one modulo eight |
| `Dfu.FlashIsUnique` | docs/dfu.js:437-462 | different firmware or init packets never make the same bytes |
| `Uf2.SegmentsToContiguous` | scripts/hex2uf2.py:50-66 | the loop groups the addresses into the image's maximal runs, in order |
| `Uf2.CountIsExact` | scripts/hex2uf2.py:73-76 | the count made beforehand is the number of blocks |
| `Uf2.PackBlock` | scripts/hex2uf2.py:87-101 | header, payload, padding and end magic make the 512 bytes of a block |
| `Uf2.PackRegion` | scripts/hex2uf2.py:80-103 | one region's blocks are appended and numbered on, unless a number does not fit 32 bits |
| `Uf2.Convert` | scripts/hex2uf2.py:69-107 | whatever the image, the file that is written is accepted block by block and loads back the image; nothing is written exactly when an address or the count does not fit 32 bits |
| `Uf2.FileCarries` | scripts/hex2uf2.py:80-103 | from the file's own bytes: every block is accepted, every mapped byte ends in place, and any other written byte is a zero within 255 bytes behind a mapped one |
| `Uf2.RegionsAreUnique` | scripts/hex2uf2.py:50-66 | an image has only one list of maximal runs |
| `Uf2.LoadedImage` | scripts/hex2uf2.py:80-103 | loading the blocks in order puts every mapped byte in place; whatever else is written is zero and within 255 bytes behind a region |
| `Uf2.BlocksReadBack` | scripts/hex2uf2.py:90-103 | every block carries its magics, its place, the exact total, its address and its 256 bytes |
| `ConfigRecord.FlagsRead` | src/Config.h:65-82 | the flag byte reads back bit by bit |
| `ConfigRecord.FlagBits` | src/Config.h:65-82 | which bit of the flag byte is which flag |
| `ConfigRecord.Layout` | src/Config.h:20-60 | which bytes of the record hold which field, lowest byte first, signed ones in two's complement |
| `ConfigRecord.RecordRoundTrip` | src/Config.h:20-60 | every configuration the struct can hold survives its 96 bytes |
| `ConfigRecord.RecordIsOnto` | src/Config.h:20-60 | every 96 bytes are exactly one configuration's record |
| `ConfigLoad.CheckFields` | src/Config.cpp:131-152 | the range checks and the search for the name's terminator decide validity |
| `ConfigLoad.ComputeCrc` | src/Config.cpp:81-92 | the checksum loop gives the four stored bytes |
| `ConfigLoad.BuildRecord` | src/Config.cpp:365-371 | the bytes save writes: version 3, freshly stamped |
| `ConfigLoad.ReadFile` | src/Config.cpp:182-344 | the three load paths, told apart by size, give what the file loads as |
| `ConfigLoad.LoadAfterSave` | src/Config.cpp:318-373 | what was saved loads back as itself with version 3 and a fresh checksum, exactly when it validates as version 3 |
| `ConfigLoad.SavedIsLoadedIff` | src/Config.cpp:139-144 | what save accepts load takes back, if and only if it was at version 2 or later or its younger fields are in range |
| `ConfigLoad.SavedButRefused` | src/Config.cpp:358-369 | such a record exists: saved without complaint and refused at the next boot |
| `ConfigLoad.MigratedLoadsAgain` | src/Config.cpp:261-275 | a migrated configuration is valid and stamped, and its record loads by the plain path to the same configuration |
| `ConfigLoad.V1Preserved` | src/Config.cpp:202-275 | migrating a version-1 file keeps every byte of its shared fields and all flags but Bluetooth's; the rest is reset as defined |
| `ConfigLoad.V2Preserved` | src/Config.cpp:277-316 | migrating a version-2 file keeps all 74 bytes behind its version number; the collector starts unset |
| `ConfigLoad.V1LoadsIff` | src/Config.cpp:131-275 | a 64-byte file loads if and only if it ends in its checksum, says version 1 to 3, and has radio fields in range and a terminated name |
| `ConfigLoad.V2LoadsIff` | src/Config.cpp:277-316 | an 80-byte file loads if and only if it ends in its checksum and has radio fields, PIN and position in range and a terminated name, whatever version it says |
| `ConfigLoad.V3LoadsIff` | src/Config.cpp:318-344 | a 96-byte file loads if and only if it ends in its checksum, says version 1 to 3, and has radio fields in range, PIN and position too unless it says version 1, and a terminated name |
| `ConfigLoad.OtherSizesNeverLoad` | src/Config.cpp:189-196 | files of other sizes never load |
| `ConfigLoad.BurstIsRefused` | src/Config.cpp:318-335 | two different 96-byte records that differ only in a window of four bytes are not both loaded |
| `ConfigStore.StepIsSafeIff` | src/Config.cpp:161-175 | a step of load, save, a failing recovery or a power cut keeps the newest record, loadable, live or alone in the scratch file, if and only if it neither starts a save while there is no live record nor begins to rename a version-1 configuration with younger fields out of range; the former leaves neither file |
| `ConfigStore.NothingIsLost` | src/Config.cpp:358-418 | in every run without such steps the newest configuration whose rename had begun, else the original, is in one of the files at every moment, and each load that returns yields it, or nothing if it is in the scratch file alone |
| `ConfigStore.LoadsSucceed` | src/Config.cpp:161-175 | while no recovery rename fails, each load that returns yields it, and whenever load or save has returned it is live |
| `ConfigStore.RecoveredNeverOverwrites` | src/Config.cpp:161-175 | while no recovery rename fails, no save starts without a live record |
| `ConfigStore.BegunRecords` | src/Config.cpp:414-418 | only a save's rename adds to the history: first the original, then saved records |
| `StagedRuns.StagedNeverSpoils` | src/SerialConsole.cpp:131-231 | from a record whose younger fields are in range, in every run whose saves are edits over what the last load returned, or over the defaults, no record is renamed that load would refuse |
| `StagedRuns.StagedRunsLoseNothing` | src/Config.cpp:358-418 | so in every such run that starts no save without a live record the newest configuration is in one of the files at every moment, and load returns it, or nothing if it is in the scratch file alone |
| `StagedRuns.StagedLoadsSucceed` | src/Config.cpp:161-175 | and while no recovery rename fails, every load yields it |
| `ConfigStore.FailedRecoveryLoses` | src/Config.cpp:167-180 | over any complete record and any saved configuration there is a run, from power-on, in which a rename is cut off, the recovery fails, load finds nothing, and the next save leaves the newest record in neither file |
| `ConfigStore.Flash.WriteScratch` | src/Config.cpp:390-390 | the scratch file is unlinked, then holds what the flash made of the record; the reported count is the flash's too |
| `ConfigStore.Flash.RenameScratch` | src/Config.cpp:414-418 | at once, in two steps, or refused without touching either file, as the flash answers |
| `ConfigStore.Flash.Save` | src/Config.cpp:358-430 | succeeds exactly for a valid configuration whose record was written and read back whole and whose rename works; then the stamped record is live and the scratch file gone, else the live record is as it was; every state on the way is a step of the machine |
| `ConfigStore.Flash.Reconcile` | src/Config.cpp:161-175 | when the flash obeys, a scratch file becomes the live record if there is none, else it is removed; when it does not, both files stay |
| `ConfigStore.Flash.Load` | src/Config.cpp:159-351 | load returns what the live record, or else the adopted scratch file, loads as, rewrites it exactly if it was of an older version, and clears the scratch file |
| `ConfigStore.BootAfterCut` | src/Config.cpp:159-180 | power fails at any state of any run; whenever the recovery rename works or is not needed the next boot returns the newest configuration whose rename had begun; else it finds nothing and leaves the record where it is |
| `Numbers.UnsignedRoundTrip` | src/Config.cpp:508-509 | a printed 32-bit number is read back by strtoul |
| `Numbers.SignedRoundTrip` | src/Config.cpp:540-541 | a printed signed number is read back by strtol |
| `Numbers.NegativeUnsignedWraps` | src/Config.cpp:508-510 | strtoul reads a negative number modulo 2^32, so some negative texts land in range |
| `Numbers.NumberIsRead` | src/Config.cpp:506-541 | white space, at most one sign and decimal digits to the end are read as the number they stand for, saturated to 32 bits; an unsigned field negates modulo 2^32 |
| `Numbers.NothingElseIsRead` | src/Config.cpp:506-541 | no other text is read as a number |
| `Staging.OnlyThatField` | src/Config.cpp:492-663 | a field that is set is the only one that changes, flag by flag |
| `Staging.SetFieldIsFit` | src/Config.cpp:492-663 | no text whatever makes the staged configuration invalid, changes its version, or takes a younger field out of range |
| `Staging.RangeMatches` | src/Config.cpp:506-634 | whatever the other fields hold, a checked numeric field is set exactly when its text reads as a number the validator lets pass in that field, and then to that number |
| `Staging.FlagIsSet` | src/Config.cpp:477-600 | every flag is switched on by exactly 1, true, on and yes, off by exactly 0, false, off and no, and by nothing else; the two inhibit bits are the inverse |
| `Staging.CollectorIsSet` | src/Config.cpp:643-661 | none, off, clear or an empty text clear the collector, 32 hex digits of either case set it byte by byte, and nothing else is taken |
| `Staging.HexDigits` | src/Config.cpp:485-490 | the sixteen digits, in both cases |
| `Staging.NameIsSet` | src/Config.cpp:495-505 | a name of 1 to 31 characters without a separator is taken, with zeros behind it; any other is rejected |
| `Staging.IntervalIsSet` | src/Config.cpp:554-573 | an interval is zero or between ten seconds and seven days |
| `Staging.LevelIsSet` | src/Config.cpp:546-642 | the log level is 0, 1 or 2, and a multiplier is one that compares inside its range; an unknown key is rejected |
| `Pipe.PrintFields` | src/Config.cpp:705-737 | the field-by-field printer makes the line |
| `Pipe.PrintCollectorHex` | src/Config.cpp:668-679 | the hash in lower-case hex, or nothing when unset |
| `Pipe.CollectorReads` | src/Config.cpp:643-679 | a printed hash reads back; an unset one comes back as the text that clears it |
| `Pipe.FieldReads` | src/Ble.cpp:156-180 | what is printed for a field sets that field to the same value |
| `Pipe.FieldsInOrder` | src/Config.cpp:705-737 | what stands in each of the twenty places of the line |
| `Pipe.FieldThenRest` | src/Ble.cpp:171-199 | a field in front of a line is set, or left alone if its text is rejected, and the rest of the line is taken all the same |
| `Pipe.WhatCounts` | src/Ble.cpp:165-177 | of a write only the first 223 bytes, the text before a NUL, and twenty fields count |
| `Pipe.WrittenIsFit` | src/Ble.cpp:149-211 | whatever bytes arrive, the staged configuration stays valid, at its version |
| `Pipe.SetFieldIsPrintable` | src/Config.cpp:492-663 | setting a field keeps a configuration within what prints faithfully |
| `Pipe.LineRoundTrip` | src/Config.cpp:705-737 | the line is at most 177 bytes, a calibrated multiplier included, and writing it over any staged configuration brings across the name, every integer field, the five flags it carries and the collector, leaving the sixth flag |
| `Console.DefaultsAreSound` | src/Config.cpp:96-127 | the defaults are valid, print faithfully, and do not transmit |
| `Console.DefaultValues` | src/Config.cpp:96-127 | every field of the defaults: three hours, half an hour, the flags, the board's radio settings, zeros elsewhere |
| `Console.NamesDifferIff` | src/Config.cpp:114-125 | two boards get one default name if and only if their chip ids agree in the 48 bits the name shows in hex |
| `Console.MigratedIsSound` | src/Config.cpp:253-275 | a migrated configuration is valid at version 3 |
| `Console.SavedIsSound` | src/Config.cpp:358-373 | a saved valid configuration loads as itself, restamped |
| `Console.StagingStaysSound` | src/SerialConsole.cpp:131-231 | every sequence of console and Bluetooth edits, over any running configuration, leaves staging valid, so that commit's check passes; at version 3 if the running configuration is; and saved and loaded back as itself if that one's younger fields are in range |
| `Console.ReachableIsPrintable` | src/Ble.cpp:109-115 | from the defaults, every sequence of edits leaves a configuration that prints faithfully |
| `Console.ReachableLineRoundTrip` | src/Ble.cpp:109-211 | from the defaults, after every sequence of edits, calibrations included, the line fits its buffer and, written over any staged configuration, brings across the name, every integer field, the five flags it carries and the collector |
| `Console.SavedIsPrintable` | src/Config.cpp:365-371 | what save stamps prints as faithfully as before |
| `Console.TakeField` | src/Ble.cpp:175-177 | the field at the cursor is cut off in place, and what is behind it is left for the next |
| `Console.CopyLine` | src/Ble.cpp:165-169 | the bytes are copied up to the buffer's size and terminated |
| `Console.Device.constructor` | src/SerialConsole.cpp:321-327 | staging starts from the running configuration |
| `Console.Device.ConfigSet` | src/SerialConsole.cpp:201-210 | accepted exactly when the text is not empty and the field takes it, and then set so; a rejected value changes nothing, an accepted one nothing but its field |
| `Console.Device.ConfigReset` | src/SerialConsole.cpp:212-215 | staging becomes the defaults |
| `Console.Device.ConfigRevert` | src/SerialConsole.cpp:217-221 | staging becomes the running configuration |
| `Console.Device.CalibrateBattery` | src/SerialConsole.cpp:131-150 | 500 to 10000 mV over a reading other than zero stages their quotient as the multiplier; anything else, and any other field, changes nothing |
| `Console.Device.OnConfigWrite` | src/Ble.cpp:149-211 | the in-place splitter sets up to twenty fields, each rejected one keeping its old value |
| `Console.Device.SplitFrom` | src/Ble.cpp:171-199 | the loop over the keys applies the line to its end |
| `Console.Device.Commit` | src/SerialConsole.cpp:223-231 | validation never stops a commit; it succeeds exactly when the flash wrote the record whole and renamed it; then the stamped record is live, which loads as staging at version 3 exactly when its younger fields are in range; else the live record is as it was |

## Left out

- RadioLib, SPI, Bluefruit, SoftDevice and microReticulum internals: calls into code that is not here; their answers are parameters.
- Floating-point parsing and printing of `batt_mult`, `latitude` and `longitude`: what the library makes of a text is a parameter, and these three fields are outside the line round trip, because truncation and four-digit printing do not round-trip.
- Key names: `Staging.Key` stands for the strings the console compares; so do the error messages for "rejected".
- The legacy `batt_mult` swap of `load_or_defaults`: the theorems are about `load`.
- The first commit with no live record: a torn scratch file could be adopted if it passed its checksum by chance, so the run starts from a complete record.
- ConfigStore.NothingIsLost: assumes that a rename which reports failure has touched neither file, and that reading a file is faithful.
- Migration under power failure: both migrations rewrite the live file in place, so a cut there can lose it; the machine has the steps, the guarantee starts from a version-3 record.
- Cooldown.FourOthersWithinCooldown: assumes uptime below 2^32 ms; the ordering of idle times is modular beyond that.
- Cooldown.AdmittedAgainIff: leaves out runs in which another sender was admitted at the very millisecond of the last admission; `CooldownTies.AdmittedAgainExactly` has them.
- Inbox.AdmittedAgainIff: leaves out the same runs.
- StagedRuns.StagedRunsLoseNothing: takes the running configuration to be what load returned or the defaults, without the legacy `batt_mult` swap.
- Inbox.LxmfInbox.HandleMessage: leaves out that any sender's timestamp sets the wall clock.
- Inbox.LxmfInbox.Tick: leaves out the closing of idle links before the replies are serviced.
- ReplyQueue.TransmissionsAreSpaced: assumes no transmission fell on clock reading zero, which the code takes for "never"; `ReplyQueue.SpacedAfterTransmission` gives the exact rule, `ReplyQueue.ZeroReadingBunches` the runs left out.
- RadioRuns.Integrity: assumes distinct nibbles among split packets heard within a deadline, measured by the clock readings the code compares; `RadioRuns.OnlyWholeIff` shows what happens without.
- MsgpackSkip.SkipTree: buffers below 2^32 bytes, the address space of the target.
- Msgpack.Reader.Number: leaves a number as it was transmitted; its conversion to a double is not modelled.
- Lxmf.Pack: the hash and signature are one opaque function of the signed part, and the clock's value is a parameter; `observe_time` is not modelled.
- Link tables and link callbacks, reply rendering, telemetry, LED, battery percentage, console text and line editing: easy members.
- `parse_hex`, manifests and build scripts: the UF2 model starts from the parsed address map.
- Acknowledgement parsing, timers and pauses in the DFU client: an acknowledgement is received or missed.
- Exceptions and out-of-memory paths.
