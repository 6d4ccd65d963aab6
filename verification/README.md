# A verified model of the recovery's hard cores

This project models, in Dafny 4.11, the parts of the recovery whose correctness is not
visible from reading one function, and proves what they promise. `dafny verify dfyconfig.toml`
checks all of it.

| module | part of the recovery |
|---|---|
| `BootMessage`, `RecoveryMain`, `Options` | the bootloader control block (BCB) as fixed-size character arrays, `get_args`, and the command line as getopt_long reads it |
| `Recovery`, `StartRecovery` | the crash-restart and retry protocol as a state machine with a crash between any two steps, and `start_recovery`, `PromptAndWait` and `FinishRecovery` as imperative code that refines it |
| `RetryBound`, `RetryLimit`, `RetryForm` | how often an update repeats itself; exactly when its retry limit works; and what its messages look like in the BCB, cut ones included |
| `PropertyArea`, `PropertyProgress` | the property area's one-writer, many-readers protocol, one byte at a time: what readers return, and when they can |
| `FindFile` | the file search through directories and symlink cycles |
| `AbxFormat`, `Abx`, `AbxText` | the Android binary XML decoder, its inverse, and what the texts it writes mean |
| `Paths`, `Exclude`, `FileTree`, `Wipe`, `FolderSize` | path normalisation, exclusion lists, and the two walks over a file tree that respect them |
| `Settings` (InfoManager.dfy), `Data` (DataManager.dfy) | the settings file and the three stores behind `DataManager` |
| `TarWrite`, `RawCopy` | the buffered tar writer and the raw image copy |
| `MountFlags` | the fstab flag parser |

Protocol modules are state machines whose runs are arbitrary event sequences; everything the
source does step by step is a class or a method with loops, proved against a specification
function. Input and output, clocks and the user's choices are parameters. File descriptors and
files are byte sequences.

## What the proofs say about the code

Some promises hold only under a condition. The code is modelled as it is; each condition is
proved and a failing run is given.

- The retry limit of four (recovery.cpp:775-785) works for every list of options exactly when, among
  the messages that `set_retry_bootloader_message` makes one from the other, at most four may be
  retried (`RetryLimitHoldsIff`). While the options fit in the BCB behind the copies of argv[0] that
  each message adds, this has a closed form (`RetryLimitClosedForm`). The limit works if the list is
  finished, that is, contains no `--` in option position and does not end in an option that still
  waits for its value, and the message with the fourth count fits whole. It also works if the list
  ends in `--update_package` without a value: that option takes the count for its path, and
  `SetupPackageMount` refuses a path that is not canonical. And it works if the package has no
  acceptable path at all. In all other cases five retry reboots happen without any crash.
- A list that breaks the limit can look ordinary: with a single package option of 659 characters,
  the digit of the fourth count is cut off, and the update looks fresh again
  (`LostDigitBreaksTheLimit`). The exception for the pending package only lasts as long as copies of
  argv[0] have not pushed the count out of the BCB (`PendingPackageBreaksTheLimit`, where three
  crashes are enough).
- For an update that counts, four is the limit over all runs, with crashes at any step, if and only
  if the command file does not hold the update too (`FourRetriesInAllRunsIff`). `FinishRecovery`
  clears the BCB before it removes the command file; a crash in between starts the update from the
  beginning, provided that the device is then forced into recovery, because a clear BCB by itself
  boots the main system (`LapsesRestartTheUpdate`). The header comment of recovery.cpp lists the
  update among the scenarios that are safely restartable at any point.
- main may call `start_recovery` again with the same arguments after the menu was left. Each such
  call can install the package once more (`ReEntriesInstallAgain`), but adds no retry reboot.
- The code only logs a write to the BCB or a removal of the command file that fails. Each failure
  costs at most one retry reboot and one install beyond the bounds (`RetriesAreBounded`), and can
  cost that much (`FailedStoresRepeat`).
- The BCB holds 768 characters. An option list survives a reboot exactly when its lines are clean
  and fit (`ReadBackIff`); a longer one is cut, and the retry count at its end goes first.
- The reader rule of the property area goes back to step 2 after a failed comparison. A comparison
  lets the reader return exactly when no write has begun since its step 1, as long as fewer than
  2^23 have (`CompareDecidesIff`). Taken as written, the serial is never read again, so a reader
  that one write overtakes (`WriteOvertakesReader`) cannot return before the 24-bit counter has
  wrapped (`OvertakenReaderNeverReturns`), and 2^23 writes are enough for a torn value
  (`WrapAroundTearsARead`). A reader that met a write in flight is not lost: it reads the serial
  again, and can return by its own steps exactly when no write is in flight and none has overtaken
  it (`CanFinishIff`).
- The reader also copies the byte behind the value, which the writer does not write. It is the
  terminator exactly when the last longer value, or else the area at first, had a NUL there
  (`ExtraByteIsLeft`); a reader can return a byte of an older value (`ExtraByteIsStale`).
- The root path normalises to the empty string, because every component loses its trailing
  slashes; `NormalFormsIff` therefore treats all paths without components as one.
- A block or socket entry also passes the directory bit test of `Get_Folder_Size` (`ModeBits` says
  which kinds pass which test). The size is that of files and links exactly when no other counted
  entry has one (`SizeIsFilesAndLinksIff`). A block device is counted once it is excluded, so adding
  exclusions never increases the size exactly when every block device that is reached and not
  excluded has size 0 (`MoreExclusionsWeighLessIff`); `AlsoWeighs` gives an exclusion that adds the
  size of any other. That is how lstat normally reports device nodes.
- An fstab token is dropped exactly when its name is a beginning of the name of an ignored item
  (`DroppedIff`), so `e` and `=x` are dropped as well (`ShortTokensAreDropped`).
- A settings field is terminated one byte too far, so the loader may read one leftover byte of its
  buffer. This shows in a saved file exactly for fields that are not refused and were written
  without a NUL (`FieldIgnoresLeftoverIff`, `EntriesIgnoreLeftoverIff`). For strings without NUL
  those are the ones whose length wraps around in the 16-bit length field: a value of 65535 bytes
  is stored with length 0 and loads as one leftover byte (`WrappedLengthReadsLeftover`).
- Loading a saved file into an empty manager restores the entries before the first one that is
  refused exactly when none of them wrapped, and all entries exactly when none is longer than 510
  bytes (`LoadRestoresIff`).

## Model

| member | source | states |
|---|---|---|
| BootMessage.ReadBackIff | bootloader_message/bootloader_message.cpp:205-223 | an option list stored in the BCB is read back unchanged if and only if every option is a non-empty line without NUL and the message needs at most 768 characters |
| BootMessage.StoredOptionsArePersistable | recovery_main.cpp:124-137 | whatever bytes the misc partition holds, the options read from it are clean and would fit again |
| BootMessage.CutAt | bootloader_message/bootloader_message.cpp:205-223 | of a message that does not fit, the lines before the cut are read back whole and the line it falls into in part |
| BootMessage.CutListsAreStable | bootloader_message/bootloader_message.cpp:205-223 | a list that was cut once is stable from then on |
| BootMessage.FilledIff | recovery_main.cpp:131-134 | a line becomes an option, with its multiplicity, unless it is empty or starts with NUL |
| BootMessage.HeaderIsRequired | recovery_main.cpp:129-139 | a BCB that does not begin with the line "recovery" has no options |
| BootMessage.OptionLines | bootloader_message/bootloader_message.cpp:214-220 | every option gets its own line, and one that ends with a newline no second one |
| BootMessage.Layout | bootloader_message/include/bootloader_message/bootloader_message.h:67-77 | the sizes of the four fields, and a cleared message holds nothing but NUL |
| RecoveryMain.GetArgs | recovery_main.cpp:92-172 | arguments come from argv, else the BCB, else the command file; without any, the boot command may ask for fastboot or rescue mode; the options, but not that mode, are written back; read and write failures included |
| RecoveryMain.StoredArgumentsReplay | recovery_main.cpp:155-161 | a stored non-empty list that is clean and fits comes back after any number of crashed boots and any change of the command file |
| RecoveryMain.StoredArgumentsReplayIff | recovery_main.cpp:123-161 | without a command file these are the only lists that replay |
| RecoveryMain.CutArgumentsReplay | recovery_main.cpp:155-161 | a list cut at the first boot replays unchanged at all later boots |
| Options.ParseCommandLine | recovery.cpp:639-687 | the getopt loop computes the meaning of the reported options in order, later ones overriding earlier ones |
| Options.FlagsMeaning | recovery.cpp:616-681 | for every command line, each flag is set if and only if its own option was reported; sideload has two |
| Options.LastValues | recovery.cpp:658-681 | the package is that of the last report of its option, and the two numbers are the last ones that can be parsed |
| Options.WrittenOptionsAreRead | recovery.cpp:594-640 | every list of options written by their names, with attached or separate values and with operands between them, is reported in order; nothing behind "--" is |
| Options.ActOnAttached | recovery.cpp:639-640 | for every name and value: an option that is known and takes a value is reported with it; a flag with a value, and an unknown name, are not |
| Options.ActOnDetached | recovery.cpp:639-640 | for every name: a known flag is reported, a known option with a value waits for the next token, an unknown name is not reported |
| Options.AbbreviationIff | recovery.cpp:639-640 | a beginning of option names stands for one of them if and only if no other option begins with it |
| Options.ParseDecimal | recovery.cpp:658-681 | a decimal number is read as itself up to the limit of its type, after white space, and as nothing above it |
| Options.NumberForms | recovery.cpp:658-681 | hexadecimal digits, signs, and texts that are no number |
| Options.ScanAppend | recovery.cpp:639-640 | for every two token lists, what the second adds depends only on whether the first ended ready, stopped or waiting for a value |
| Options.AppendedCountMeaning | recovery.cpp:547-560 | for every option list: an appended count becomes the count if the list is finished, does nothing after "--", and is otherwise the value of the option that waits, which only matters for the package |
| Options.CutCountMeaning | recovery.cpp:658-659 | a count that lost its digits never changes the count that was read before it, and the package only if the list waits for one |
| Options.ReasonTokenMeaning | recovery_main.cpp:366-385 | a single reason option is seen by main and is no command for start_recovery |
| Options.ReasonIsLast | recovery_main.cpp:366-385 | the reason is the value of the last one that main is told, and empty without one |
| Options.MainReadsTheSame | recovery_main.cpp:345-352 | main's table holds four of start_recovery's options, with the same names and values |
| Recovery.SetRetryBootloaderMessage | recovery.cpp:547-560 | every argument but the old counts is kept in order, the new count is last, status and stage stay |
| Recovery.KeptIff | recovery.cpp:549-554 | exactly the arguments that start with the name of the count are dropped |
| Recovery.RescueLastsOneBoot | recovery_main.cpp:524-538 | the rescue command starts one boot in rescue mode, and a crash in it leads to a boot without arguments |
| Recovery.ReturnsClean | recovery.cpp:129-159 | from any BCB and command file, after any events in which no write failed, when start_recovery has returned the BCB is clear, the command file is gone and the next bare boot adds no argument |
| Recovery.MenuInstallCrashWarns | recovery.cpp:458-464 | while an install started from the menu is in flight and no write failed, the BCB holds the reason, and a crash leads to a boot that enters the menu with the warning set |
| RetryBound.NextMessage | recovery.cpp:547-560 | storing the next count turns the k-th message of an update into the next one: one more argv[0], the same options in order, one count |
| RetryBound.StoredMessagesKeepTheirShape | recovery.cpp:743-779 | for a list that counts, in every reachable state a BCB that asks for the update holds a count of at most 4, as many extra argv[0] copies, every original option in order and one count |
| RetryBound.RetriesAreBounded | recovery.cpp:726-785 | over every run with crashes and failing writes anywhere: with the update in the BCB alone at most 4 retry reboots plus one per failure, and at most 5 installs plus one per failure, crash and second call; with the update in the command file as well, the same for each of its starts |
| RetryBound.FourRetriesInAllRunsIff | recovery.cpp:773-785 | every run whatsoever has at most 4 retry reboots, plus one per failing write, if and only if the command file does not hold the update |
| RetryBound.LapsesRestartTheUpdate | recovery.cpp:144-156 | for every number of crashes inside FinishRecovery, each followed by a forced boot into recovery, there is a run that reaches the bound on retry reboots |
| RetryBound.ReEntriesInstallAgain | recovery_main.cpp:490-497 | for every number of second calls of start_recovery there is a run that reaches the bound on installs with four retry reboots |
| RetryBound.FailedStoresRepeat | recovery.cpp:557-560 | for every number of counts that could not be stored there is a run that reaches both bounds |
| RetryLimit.RetryLimitHoldsIff | recovery.cpp:773-785 | for every BCB and command file: all runs without a lapse keep the limit of 4, one retry per failing write aside, if and only if at most four of the messages that follow from the first list may be retried |
| RetryLimit.StoredListsAreOnPath | recovery.cpp:547-560 | in every state reached without a lapse, a BCB that asks for an update holds one of those messages, no further on than the retries, crashes and failures have taken it |
| RetryForm.StoredShape | recovery.cpp:547-560 | for every untried update, finished or not, whose options fit behind i copies of argv[0]: message i has these copies, all options in order, and a whole count or the part of one that there is room for |
| RetryForm.StoredCut | bootloader_message/bootloader_message.cpp:205-223 | if they do not fit, message i is what the BCB can hold of the options behind i copies of argv[0] |
| RetryForm.RetryLimitClosedForm | recovery.cpp:747-785 | while n + 4 copies of argv[0] fit: the limit is kept with up to n crashes, a failing write counting for two, if and only if the list is finished and its fourth count fits, or it ends in a package option without a value, or the package cannot be mounted |
| RetryForm.LostDigitBreaksTheLimit | recovery.cpp:557-559 | one package option of 659 characters leads to five retry reboots without a crash |
| RetryForm.PendingPackageBreaksTheLimit | recovery.cpp:547-560 | a list that waits for its package keeps the limit without crashes, but three crashes can break it |
| StartRecovery.Device.StartRecovery | recovery.cpp:726-879 | every call is a run of the protocol, whether the BCB and the command file can be written or not; from the command line and the answers of the platform: it installs exactly if the package is there, not blocked and mounted; it ends in a retry reboot, with the next count stored, exactly if that install asks for one below the limit; else it shows the menu exactly if there is no command or text is visible, and returns with a clear BCB and no command file as far as they can be written |
| StartRecovery.Device.PromptAndWait | recovery.cpp:360-526 | for every sequence of menu choices the loop is a run of the protocol that takes the choices up to the first one that leaves, where a reboot has to be confirmed while the last install has not succeeded; each install chosen is run once |
| StartRecovery.Device.HandleChoice | recovery.cpp:409-524 | which choices leave the menu, and whether the warning stays |
| StartRecovery.Device.RunOtherCommand | recovery.cpp:794-850 | without a package the first command in the order of the source decides the status |
| StartRecovery.SetupPackageMount | install/install.cpp:675-715 | accepts a block map or a path that is its own canonical form, if its volume is mounted |
| StartRecovery.Device.InstallUpdate | recovery.cpp:726-793 | a fresh update is skipped exactly on a low battery or a blocked boot reason; otherwise the package is installed exactly if it can be mounted; a retry is asked for exactly if the install says so and fewer than four were counted; the status and what the BCB holds in each case |
| StartRecovery.Device.FinishRecovery | recovery.cpp:129-159 | clears the BCB and then removes the command file, as two separate steps, each of which may fail |
| PropertyArea.ReadersReturnCompleteValues | legacy_properties.h:75-91 | under every interleaving, a reader overlapped by fewer than 2^23 writes returns one completely written value, the one current at its step 1 and at its step 4 |
| PropertyArea.SerialsDistinguish | legacy_properties.h:57-58 | clean serials less than 2^23 writes apart differ, despite the 24-bit wrap-around |
| PropertyArea.WrapAroundTearsARead | legacy_properties.h:79-91 | with exactly 2^23 writes a reader returns bytes of two values |
| PropertyArea.CompareDecidesIff | legacy_properties.h:79-83 | with fewer than 2^23 writes, step 4 lets the reader return if and only if no write has begun since its step 1 |
| PropertyArea.WriteOvertakesReader | legacy_properties.h:79-83 | one write that begins during a reader's loop overtakes it |
| PropertyArea.OvertakenReaderNeverReturns | legacy_properties.h:79-83 | a reader overtaken by one write stays in its loop as long as fewer than 2^23 writes have begun since its step 1 |
| PropertyArea.ExtraByteIsLeft | legacy_properties.h:82-90 | under every interleaving with fewer than 2^23 writes, the byte behind a returned value is the one that the last longer value, or else the area at first, had there |
| PropertyArea.ExtraByteIsStale | legacy_properties.h:82-90 | a reader can return a byte of an older value behind the value |
| PropertyProgress.ReaderFinishes | legacy_properties.h:82-86 | in every reachable state without a write in flight, a reader that was not overtaken, whether it has met a dirty serial or not, returns the current value by a few steps of its own |
| PropertyProgress.CanFinishIff | legacy_properties.h:82-86 | in every reachable state, with fewer than 2^23 writes since its step 1, a reader can return by its own steps if and only if no write is in flight and none has overtaken it |
| PropertyProgress.WriterFinishes | legacy_properties.h:88-91 | in every reachable state a write that has begun can be completed, and leaves its value and a clean serial |
| FindFile.Finder.FindInternal | find_file.cpp:36-91 | terminates on cyclic file systems; refines a stack machine that puts subdirectories before symlinks, in readdir order, and returns its first hit; an empty result leaves every newly searched directory with no match and all its ways searched; any other result is a match in a reachable directory |
| FindFile.Finder.Find | find_file.cpp:29-31 | the result is non-empty if and only if a directory reachable through subdirectories and resolved symlinks holds a regular file of that name, and is the first hit of that machine |
| FindFile.FirstHitIsUnique | find_file.cpp:48-91 | the machine has one first hit, and a match in the start directory goes before all others |
| FindFile.FinishedSearchIsComplete | find_file.cpp:42-46 | a visited list closed under subdirectories and resolved symlinks has missed no reachable directory, although it is keyed by path strings |
| FindFile.CyclesAreWellFormed | find_file.cpp:42-45 | what the search assumes of a file system admits a cycle through a symlink |
| AbxFormat.RoundTrip | abx-functions.hpp:89-115 | parsing the encoding of every legal token list with at most 65535 interned strings gives back the tokens and the encoder's pool |
| AbxFormat.DataRoundTrip | abx-functions.hpp:182-281 | every typed value is read back exactly, in front of any further bytes, and the pool changes as the encoder's does |
| AbxFormat.ParsedIsLegal | abx-functions.hpp:182-286 | every value that is read without an error is one that the encoder accepts, so the round trip covers all of them |
| AbxText.SignedReadsBack | abx-functions.hpp:241-259 | the text of an integer has a minus sign exactly if it is negative, and its digits read back as its absolute value |
| AbxText.HexReadsBack | abx-functions.hpp:210-221 | two lower-case digits for each byte, from which the bytes are read back |
| AbxText.Base64ReadsBack | abx-functions.hpp:223-239 | the base 64 text of every byte string decodes to it |
| AbxText.IntegerTexts | abx-functions.hpp:241-259 | the bytes of the four integer types are big-endian two's complement of 4 or 8 bytes, and the text reads back as that number |
| AbxText.StringTexts | abx-functions.hpp:189-239 | strings stand behind a big-endian length of two bytes, and their text is the bytes, or reads back as them |
| AbxText.InternedTexts | abx-functions.hpp:192-208 | 0xffff brings a new string to the pool; any other number names the string at that place, and none behind the end |
| AbxText.OtherTexts | abx-functions.hpp:186-188 | the types without a payload, the two floating-point types, and exactly which nibbles are no type |
| AbxText.TokenHeader | abx-functions.hpp:89-112 | the first byte of a token holds the event in its low half and the type of the value in its high half; an attribute has an interned name before its value |
| AbxText.Markup | abx-functions.hpp:100-157 | the characters around names, texts and values, and the largest code that is an event |
| AbxText.Element | abx-functions.hpp:89-157 | the text of an element with an attribute and a text, for all values |
| Abx.EmitIsDocument | abx-functions.hpp:107-126 | the open-tag flag writes one '>' for each start tag, before the next token that is not an attribute, and none at the end of the stream |
| Abx.AbxToXml.ReadData | abx-functions.hpp:182-286 | reads one value, whose text `AbxText` characterises, keeps the pool in step and sets the sticky error exactly for unknown types and identifiers |
| Abx.AbxToXml.ConvertContent | abx-functions.hpp:89-115 | for every stream of whole tokens the text is that of its tokens and the result says whether all of them were sound |
| Abx.AbxToXml.Run | abx-functions.hpp:34-48 | a wrong header is refused without output; otherwise the rest is converted |
| Abx.DecodeEncoded | abx-functions.hpp:34-115 | decoding inverts encoding: the document of the tokens, no error, and the encoder's pool |
| Paths.RemoveTrailingSlashes | twrp-functions.cpp:697-722 | the loop computes the normal form, with a slash appended on request |
| Paths.NormalFormsIff | twrp-functions.cpp:697-722 | two paths have the same normal form if and only if they have the same components and, if any, agree on the leading slash |
| Paths.NormalKeepsComponents | twrp-functions.cpp:697-722 | the normal form has the same non-empty components |
| Paths.NormalIsIdempotent | twrp-functions.cpp:697-722 | normalising twice changes nothing |
| Paths.NormalHasSingleSlashes | twrp-functions.cpp:697-722 | no doubled and no trailing slash |
| Exclude.TWExclude.CheckSkipDirs | exclude.cpp:112-120 | finds the last component exactly when it lies below a slash, and consults both lists |
| Exclude.SkipsIff | exclude.cpp:57-120 | a path is skipped if and only if its last name is on the relative list or it is a slash variant of an added absolute directory |
| Exclude.SlashesDoNotMatter | exclude.cpp:112-120 | doubling a slash anywhere or adding one at the end does not change whether a path is skipped |
| Exclude.TWExclude.ClearRelativeDir | exclude.cpp:47-55 | removes every occurrence of the name and nothing else, and keeps the order of the others |
| Wipe.TWPartition.WipeDataWithoutWipingMedia | partition.cpp:2665-2717 | after success the entries that remain are exactly the excluded ones, everything below them, those that are not or cannot be unlinked, and the directories above all these; after failure none of them is missing; it succeeds if and only if every directory that is not shielded can be opened |
| Wipe.TWPartition.WipeFunc | partition.cpp:2683-2717 | the same for one directory, whatever the order of readdir |
| Wipe.DirSurvives | partition.cpp:2699-2705 | rmdir of a wiped directory fails exactly when something below it has to survive |
| Wipe.SurvivorsStaySurvivors | partition.cpp:2683-2717 | a second wipe removes nothing more |
| FolderSize.GetFolderSize | exclude.cpp:61-102 | the 64-bit sum of the sizes of all entries that are reached without entering an excluded or unreadable directory |
| FolderSize.SizeIsFilesAndLinksIff | exclude.cpp:94-98 | the size is that of the reached files and links if and only if no other counted entry has a size |
| FolderSize.MoreExclusionsWeighLessIff | exclude.cpp:94-97 | no addition of exclusions increases the size if and only if every block device that is reached and not excluded has size 0 |
| FolderSize.AlsoWeighs | exclude.cpp:94-97 | excluding such a device by its path adds exactly its size |
| Settings.InfoManager.LoadValues | infomanager.cpp:62-114 | the loop lays the readable entries of the file over the map, for every byte sequence |
| Settings.InfoManager.SaveValues | infomanager.cpp:116-142 | writes the version and every entry in key order, or nothing and -1 when the file cannot be opened |
| Settings.LessIff | infomanager.cpp:129-130 | the key order is that of the first byte that differs, and a beginning comes first |
| Settings.FileBytes | infomanager.cpp:125-138 | lengths, which include the NUL, and the version are little-endian |
| Settings.EntriesRoundTrip | infomanager.cpp:84-138 | for every map, strings of any length and content included, loading a saved file takes exactly the entries before the first refused one, each as its written part and the leftover byte read |
| Settings.FieldIgnoresLeftoverIff | infomanager.cpp:90-104 | a saved field loads the same whatever the buffer held if and only if it is refused or was written with a NUL |
| Settings.CutFieldIsRefused | infomanager.cpp:90-104 | a field that the end of the file cuts anywhere is refused |
| Settings.EntriesIgnoreLeftoverIff | infomanager.cpp:84-138 | the same for whole files: no entry before the first refused one was written without a NUL |
| Settings.WrappedLengthReadsLeftover | infomanager.cpp:126-138 | a value of 65535 bytes is written with length 0 and loads as whatever the buffer held |
| Settings.SaveThenLoad | infomanager.cpp:62-142 | for NUL-free entries none of which wrapped before the first refused one, saving and loading lays exactly the entries before it in key order over what was there |
| Settings.LoadRestoresIff | infomanager.cpp:62-142 | for NUL-free entries of any length: into an empty manager exactly those come back if and only if none of them wrapped, and all come back if and only if none has more than 510 bytes |
| Settings.VersionMismatchIsIgnored | infomanager.cpp:74-82 | a file of another version leaves the map unchanged |
| Data.RunIsOneMap | data.cpp:505-549 | any sequence of calls with any persist flags answers like one map, and a constant never changes |
| Data.PersistenceSticks | data.cpp:534-549 | the store that is saved holds exactly the names ever set as persistent |
| Data.SettingsSurviveRestart | data.cpp:240-267 | saving, clearing, installing any defaults, loading and any later calls for other names keep the last set value of every persistent name before the first refused entry, unless it is a constant, and give the others their new default, when no length wrapped |
| Data.DefaultsMeaning | data.cpp:704-717 | after any list of defaults a constant has its first one and any other name the last one for its store |
| Data.DataManager.SetValue | data.cpp:505-549 | implements one step of that map, with its refusals and the detour for properties |
| Data.DataManager.GetValue | data.cpp:410-452 | strips percent signs, lets magic values and properties go first, and then answers from the three stores in order |
| Data.PropertyIff | data.cpp:431-435 | a name goes to the system properties if and only if it starts with "property." and goes on |
| Data.Restart | data.cpp:240-267 | save, reset and load on the real objects compute the restart |
| TarWrite.TarBuffer.WriteLibtarBuffer | tarWrite.c:57-96 | appends inside the allocation, flushes exactly when the buffer is full or both end blocks came, and drops the buffer after a short write |
| TarWrite.FailsIffBytesAreLost | tarWrite.c:75-96 | for every state, block and short write: the call returns -1 exactly if bytes are lost, and then reports no progress; otherwise it returns the size of the block |
| TarWrite.FeedConserves | tarWrite.c:57-96 | bytes on the descriptor and in the buffer are the inputs in order, progress adds up to the bytes on the descriptor, the buffer is never full between calls, and before the flush only full buffers are written |
| TarWrite.ArchiveIsComplete | tarWrite.c:98-102 | after the flush and at least two more blocks the descriptor holds exactly what a run of the unbuffered writer leaves, and for whole blocks both report the same total |
| TarWrite.OneEofBlockIff | tarWrite.c:65-73 | after the flush and a single block the archive is complete if and only if that block fills the buffer |
| TarWrite.WriteArchive | twrpTar.cpp:1342-1350 | the writer itself, fed the blocks of an archive, flushed and fed the end blocks, leaves exactly those blocks on the descriptor |
| RawCopy.RawReadWrite | partition.cpp:2859-2954 | it succeeds if and only if the source has the bytes, they fit and no block meets a fault or a cancellation; whatever fails, a short write included, the destination holds a prefix of the source over its old contents; success is exactly the whole image |
| RawCopy.ReportsAt | partition.cpp:2890-2936 | each progress report names one more whole block, and the last one the size of the image |
| RawCopy.BackupThenRestore | partition.cpp:2868-2884 | a backup followed by a restore brings back exactly the backed-up bytes and leaves the rest of the device alone; it succeeds if and only if no block meets a fault |
| MountFlags.TWPartition.ProcessFsFlags | partition.cpp:867-917 | flags are or-ed into the old ones, read-only is only ever switched on, and the options are those tokens that are neither dropped nor flags |
| MountFlags.OptionsAreNormal | partition.cpp:911-915 | the stored options are a fixed point: processing them again gives the same options and no flag |
| MountFlags.BitsAreNamed | partition.cpp:895-906 | a bit is set if and only if some token names a flag with it |
| MountFlags.OptionTokensMembers | partition.cpp:883-915 | every token is kept with its multiplicity as an option, or not at all |
| MountFlags.DroppedIff | partition.cpp:883-893 | a token is dropped if and only if its name is a beginning of the name of an ignored item |
| MountFlags.FlagTable | partition.cpp:94-120 | each of the fifteen names sets its own bit, and no other token is a flag |

## Left out

- RetryBound.RetriesAreBounded: stated for updates that count; `RetryForm.LostDigitBreaksTheLimit` shows why. What else the command file holds must not be another update, and reads of the BCB and of the command file succeed; `RecoveryMain.GetArgs` covers their failures.
- RetryBound.StoredMessagesKeepTheirShape: stated for updates that count; `RetryForm.StoredShape`, `RetryForm.StoredCut` and `RetryLimit.StoredListsAreOnPath` say what the BCB holds for the others.
- StartRecovery.Device.StartRecovery: whether the BCB and the command file can be written does not change during one boot.
- Data.DataManager.SetValue: the backup folder and storage names that the code derives from a new storage path are not set.
- Data.Restart: the storage path that `LoadValues` may set after reading is a later call in `Data.SettingsSurviveRestart`.
- Abx.AbxToXml.Run: for a stream that ends inside a token only memory safety and the sticky error are stated; the code then works on uninitialised bytes and may report success. Values of type long are those of a 64-bit build.
- FolderSize.GetFolderSize: requires that the relative list still names the two dot entries, as the constructor puts them there; without them the code would follow the dot entries until the path gets too long.
- FindFile.Finder.FindInternal: paths are assumed to stay below PATH_MAX.
- Options.ScanAppend: getopt_long, ParseInt and Split belong to the platform; they are modelled from their documented behaviour, with unique abbreviations of long options.
- An empty option in argv (`s.back()` of an empty string in bootloader_message.cpp:217) is undefined in the code; the model ends its line.
- Floating-point text of the XML decoder is a parameter; its base 64 text follows section 4 of RFC 4648.
- The device action that `start_recovery` returns (which target to reboot into, or shutdown) is not modelled; main's choices after it are arbitrary steps.
- Mounting, the package installer, sideload, fastboot, wiping of the cache and of user data from recovery.cpp are single steps with arbitrary results.
- Locks, GUI notifications, storage-path and backup-folder side effects of `DataManager` are not modelled, nor are numeric and float values.
- malloc failures in tarWrite.c and the pipe that carries progress are not modelled; block sizes stay within 31 bits.
- The order in which readdir returns entries while they are deleted is that of a listing taken when the directory was opened.
- Zip-type heuristics, boot-image repacking, decryption, partition tables, themes, MTP and the updater are not part of this model.
