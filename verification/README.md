# gipcy: verified model of the profile functions and of the IPC driver

Three parts of the library are modelled and proved correct here.

**Profiles** (`linux/libsrc/sysipc.cpp`). `IPC_writePrivateProfileString` rewrites an INI file line by line in three
loops and a buffer; `IPC_getPrivateProfileString` finds one value, or lists the sections or the keys as NUL-separated
names. The two use different rules: the writer compares names exactly, the reader ignores case and searches with
`strstr`; the writer reads with `fgets` into 1024 characters, the reader with `getline`. The code is modelled as
methods over character buffers (`ProfileWriter`, `ProfileReader`, `ProfileApi`) and proved to meet functions on the
lines of the file (`IniWriter`, `IniReader`), for the reader together with what is left in its line buffer
(`LineBuffer`); about those functions it is proved what a profile means as a map, what a read or a listing returns
after a write, whatever the line buffer holds at first, and when the properties one would expect fail. `IPC_itoa` and
`IPC_strlwr` are in `Itoa` and `CStrings`.

**The kernel driver** (`linux/ipcdrv`). Four registries of named, counted objects behind one device file
(`Registry`, `RegistryCode`, `Device`, `DeviceCode`), and the lock protocols that run outside the registry mutex: the
mutex with its owner id (`MutexObject`, `MutexSystem`), the semaphore and the event (`Counting`). A protocol is a state
machine with one program counter for each thread inside a call; every atomic operation of the C code is one step, and
the theorems are about every interleaving. A create or close is one step, because the registry mutex is held throughout.

**Shared memory** (`linux/libsrc/insys/shmipc.cpp`). A name is registered with the driver and is a POSIX object as well;
each call is one step, with the failures of system calls as parameters and the `goto` rollback as written
(`SharedMemory`, `SharedMemoryCode`).

Results a reader of the code may not expect:

- The reader does not go by a line alone: on a line of odd length it can step over the end into what an earlier line, even
  a comment, or the uninitialised line buffer holds there, and take that for a header (`LineBuffer.LeftBehind`,
  `LineBuffer.HeaderOrLeftover`). Which lines are safe from that can be seen from the line (`LineBuffer.LineDecides`).
- The reader searches a header for the name with `strstr`: the line `[AB] ;see CD` is taken for section `CD`
  (`IniMatching.ForeignHeader`).
- After a write the reader returns the first line that answers behind the line it takes for the header, and that need not
  be the line written: a line such as `D1=E1` hides the key `E1` (`IniTheorems.DecoyHidesWrite`), and so does a line with
  the key in front of the section, if an earlier one was taken for the header (`IniTheorems.LeftoverHidesWrite`). What it
  returns in every case, for every content of the line buffer, is `IniTheorems.ReadAfterWrite`. On a tidy profile it is the
  value written (`IniTidy.TidyReadsBack`), provided the reader steps over no line before the header.
- On a file whose last line has no newline, the first line written at the end is glued to that line. The writer's own exact
  search then does not find the value (`IniEnding.WriterFindsAgain`). The writer cuts the last character of a line whatever
  it is, so a header that is such a last line is not found either, and the section is written a second time
  (`IniEnding.OpenHeaderWrittenAgain`). The reader may find the value: it looks at every second character, so
  it takes the glued line for the header if the bracket falls into an even column, and otherwise only if it steps over its
  end (`IniGlued.GluedHeaderMatches`); it finds a glued key under the conditions of `IniGlued.GluedKeyMatches`. Exactly when
  the value is read back, given what the line buffer holds, is `IniGlued.SurvivesAppended` and `IniGlued.SurvivesExtended`.
- The writer never finds a key with `=` in it again, so every further write of it adds a line (`IniWriter.WriteTwice`); the
  reader takes the rest of such a key for the beginning of the value (`IniTheorems.KeyWithEquals`).
- Two threads that unlock an event at the same time can post it twice; the lock counter is then negative
  (`Counting.TwoPosters`, `Counting.WrongDecisionShows`). An unlock that reads a counter other than 0 posts
  (`Counting.GuardRefuses`); the event is as new again exactly when the completed locks have made up for the posts too many
  (`Counting.Aftermath`).
- Deleting a shared memory handle while others remain returns `IPC_GENERAL_ERROR`. The code means to return `IPC_OK`
  there, but compares the result of `ioctl`, which is -1, with `-EBUSY` (`SharedMemory.DeleteResult`).
- A create that makes the POSIX object but cannot give it its size leaves the object, with no handle of its name
  (`SharedMemory.FailedCreate`); deleting both of two names that agree in their first 127 characters leaves one without
  an owner (`SharedMemory.LongNamesLeftBehind`, `SharedMemory.LongNamesRun`).

## Model

| member | source | states |
|---|---|---|
| CStrings.Strlwr | linux/libsrc/sysipc.cpp:696-710 | lower-cases the text of a buffer in place and touches nothing from its NUL on |
| Itoa.Convert | linux/libsrc/sysipc.cpp:664-692 | the buffer ends up holding the text of the value, or the empty text for an unsupported base |
| Itoa.WriteMagnitude | linux/libsrc/sysipc.cpp:673-680 | the digit loop terminates on the magnitude, stores the digits backwards, and the last value divided keeps the sign |
| Itoa.TurnStores | linux/libsrc/sysipc.cpp:675-676 | with truncating division the mirrored table yields the last digit of the magnitude for negative remainders too |
| Itoa.ReverseInPlace | linux/libsrc/sysipc.cpp:685-689 | the two-pointer loop yields the exact reverse of the first n characters and moves nothing else |
| Itoa.TextRoundTrip | linux/libsrc/sysipc.cpp:664-692 | reading the text back gives the value for every 32-bit value and every base 2 to 36; no leading zero, no "-0", at most 33 characters |
| Itoa.LongestText | linux/libsrc/sysipc.cpp:664-692 | the bound of 33 is reached, by the minimum in base 2 |
| LineFiles.ChunksAreClosed | linux/libsrc/sysipc.cpp:455-456 | every fgets result ends with its newline or fills the buffer, except perhaps the last |
| LineFiles.ChunksAfter | linux/libsrc/sysipc.cpp:455-456 | such lines written one after the other are read back as they were |
| LineFiles.SplitOfLines | linux/libsrc/sysipc.cpp:350-350 | on whole lines getline sees what fgets sees without the newlines, and one empty line more |
| ProfileWriter.SectionLoop | linux/libsrc/sysipc.cpp:453-480 | copies up to and including the first header with exactly this name, or the whole file; nSize is the length copied |
| ProfileWriter.KeyLoop | linux/libsrc/sysipc.cpp:484-519 | copies up to the line naming the key, the next header, or the end; the header it ran into is kept |
| ProfileWriter.AddLines | linux/libsrc/sysipc.cpp:522-541 | appends the header when the section was not found, the key line, and the header that was kept |
| ProfileWriter.CopyLoop | linux/libsrc/sysipc.cpp:544-554 | with the rest of the file copied the buffer holds exactly the rewritten lines, and nSize is its length |
| ProfileWriter.Assembled | linux/libsrc/sysipc.cpp:452-541 | before the third loop the output is a prefix of the rewritten lines and the lines missing are those left to read, in all four cases |
| ProfileWriter.OutputLength | linux/libsrc/sysipc.cpp:439-554 | how much longer the file gets: the added lines minus the replaced one |
| ProfileWriter.HasRoom | linux/libsrc/sysipc.cpp:439-449 | nothing stored exceeds a buffer of the file size plus 1024 |
| ProfileWriter.Rewrite | linux/libsrc/sysipc.cpp:433-554 | the buffer's first nSize characters are the rewritten text; every store, NULs included, is inside it |
| ProfileWriter.WritePrivateProfileString | linux/libsrc/sysipc.cpp:421-571 | -1 and an unchanged file when it cannot be opened for reading or for writing; otherwise 0 and the rewritten file |
| IniWriter.WriteFrame | linux/libsrc/sysipc.cpp:452-554 | the output is the input with one line replaced, one inserted before the next header or at the end, or two appended; where exactly; all other lines keep content and order |
| IniWriter.GetWritten | linux/libsrc/sysipc.cpp:484-500 | the written key is stored with its value, if and only if it contains no '=' |
| IniWriter.GetOther | linux/libsrc/sysipc.cpp:452-554 | every other (section, key) keeps its value or its absence |
| IniWriter.WriteUpdatesMap | linux/libsrc/sysipc.cpp:421-571 | a write is an update of the map from (section, key) to value at one point |
| IniWriter.WriteTwice | linux/libsrc/sysipc.cpp:452-554 | repeating a write changes no line, if and only if the key contains no '='; with one, it adds exactly one line |
| IniWriter.Rechunk | linux/libsrc/sysipc.cpp:452-554 | fgets reads the rewritten file back as the lines that were written |
| IniWriter.WriteTextTwice | linux/libsrc/sysipc.cpp:452-554 | repeating a write changes no byte, under the same condition |
| IniEnding.WriterFindsAgain | linux/libsrc/sysipc.cpp:453-541 | the writer's own exact search finds the key again with its value, if and only if the file ends with its newline or the write does not go to the end |
| IniEnding.WriterMissesHeader | linux/libsrc/sysipc.cpp:521-532 | a header appended behind an open last line is glued to it and the writer's search does not find the section |
| IniEnding.WriterMissesKey | linux/libsrc/sysipc.cpp:534-541 | with a key line put behind an open last line the writer's search does not find the value |
| IniEnding.HeaderAndOne | linux/libsrc/sysipc.cpp:467-478 | a line names a section if and only if it is the header and one character more, whatever that is: the newline is not looked for |
| IniEnding.OpenHeaderWrittenAgain | linux/libsrc/sysipc.cpp:453-541 | so a section whose header is the last line, without its newline, is not found: the file is kept and the header and the key line are put behind it |
| IniGlued.SurvivesAppended | linux/libsrc/sysipc.cpp:168-206 | when the section was appended behind an open last line, the reader returns the value if and only if FindSection takes an old line or the glued one for the header, on the line buffer as it is, and no line in between answers with another value |
| IniGlued.GluedHeaderMatches | linux/libsrc/sysipc.cpp:173-182 | for text without brackets and semicolons FindSection returns 0 on the glued line if and only if the old text has an even number of characters, or it steps over the end of the line into a header left in the buffer |
| IniGlued.SurvivesExtended | linux/libsrc/sysipc.cpp:243-326 | when the key line was glued to the last line of the section, the reader returns the value if and only if an earlier line behind the line taken for the header answers with it, or none does and the glued line answers with it |
| IniGlued.GluedKeyMatches | linux/libsrc/sysipc.cpp:274-282 | when the glued line matches the key, and that it then has the value written |
| LineBuffer.HeaderOrLeftover | linux/libsrc/sysipc.cpp:168-206 | on any buffer FindSection returns 0 if and only if the line itself is a header that matches, or the line has odd length and no stop in an even column and the first stop behind its end, within the loop, opens a name that matches |
| LineBuffer.LineDecides | linux/libsrc/sysipc.cpp:168-206 | FindSection goes by the line alone, on every buffer, if and only if the line has even length, or a stop in an even column, or a length from that of the section to twice that plus 1 |
| LineBuffer.SeekByLines | linux/libsrc/sysipc.cpp:349-370 | the line taken for the header is the first that is a header and matches, if and only if no line before it is stepped over |
| LineBuffer.DecidedLines | linux/libsrc/sysipc.cpp:349-370 | so it is on every buffer, if the lines before that header decide for themselves |
| LineBuffer.LeftBehind | linux/libsrc/sysipc.cpp:173-182 | a concrete buffer in which FindSection takes an ordinary line for a header left there by a comment |
| ProfileReader.FindSection | linux/libsrc/sysipc.cpp:168-206 | returns 0 exactly for a buffer whose first stop, in an even column within the loop, opens a name that matches; also behind the end of the line |
| ProfileReader.CutAll | linux/libsrc/sysipc.cpp:292-302 | the six cuts in the line buffer leave the value cut once, at the earliest marker |
| ProfileReader.FindOption | linux/libsrc/sysipc.cpp:243-326 | returns 0 with the value in the caller's buffer exactly for a line that answers; otherwise the buffer is untouched |
| ProfileReader.LookupValue | linux/libsrc/sysipc.cpp:349-403 | finds the first line that answers behind the line at which FindSection first returns 0, whatever is left in the buffer; later headers do not end the search |
| ProfileReader.Emit | linux/libsrc/sysipc.cpp:384-391 | a name is copied with its NUL if it fits the budget; what is in the buffer and what still fits make up the whole listing |
| ProfileReader.ListSections | linux/libsrc/sysipc.cpp:349-366 | the buffer holds the encoding of the longest prefix of the section names that fits nSize - 1; nothing behind it is touched |
| ProfileReader.ListKeys | linux/libsrc/sysipc.cpp:368-403 | likewise for the option names behind every line at which FindSection returns 0, although a full buffer leaves only the inner loop |
| ProfileApi.GetPrivateProfileString | linux/libsrc/sysipc.cpp:333-417 | the whole function: a missing file, a value or the default, or a listing closed by one more NUL with nothing stored behind the default |
| IniReader.SixCuts | linux/libsrc/sysipc.cpp:292-302 | six successive truncations equal one cut at the earliest occurrence of any marker |
| IniReader.TrimmedIsClean | linux/libsrc/sysipc.cpp:292-302 | the result contains no marker, and trimming it again changes nothing |
| IniReader.ValueBetween | linux/libsrc/sysipc.cpp:278-302 | the value of a line is what stands between the blanks and tabs behind its first equals sign and the first newline, return, tab, semicolon, hash or pair of slashes, or the end |
| IniReader.WalkEncoded | libtest/initest/iniparams_test.cpp:41-62 | walking a listing by strlen + 1 recovers the names |
| IniReader.Fitting | linux/libsrc/sysipc.cpp:383-391 | what fits is a prefix, its encoding is within the budget, and the next name would exceed it |
| IniMatching.HeaderMatchesName | linux/libsrc/sysipc.cpp:182-200 | a header matches exactly its own name, ignoring case, when neither contains a closing bracket |
| IniMatching.OptionMatchesName | linux/libsrc/sysipc.cpp:265-274 | an option line matches exactly its own name, ignoring case, when the key does not occur further along |
| IniMatching.ForeignHeader | linux/libsrc/sysipc.cpp:182-200 | a header of any other section of the same length matches as well, if the name of the section occurs behind it on the line |
| IniTheorems.ReadAfterWrite | linux/libsrc/sysipc.cpp:333-571 | what a lookup of the written key returns, for every profile, key and content of the line buffer: the first line that answers between the line FindSection takes for the header and the slot, or else the line written |
| IniTheorems.ReadsBack | linux/libsrc/sysipc.cpp:333-571 | it returns the value written, if and only if there is no such line and the value is clean, or there is one and it has just this value; on any line buffer |
| IniTheorems.KeyWithEquals | linux/libsrc/sysipc.cpp:278-282 | with a '=' in the key the reader takes the rest of the key for the beginning of the value |
| IniTheorems.CleanValue | linux/libsrc/sysipc.cpp:280-302 | the reader returns a value as written, if and only if it has no leading blank and no marker |
| IniTheorems.ReadFileAfterWrite | linux/libsrc/sysipc.cpp:333-571 | the same on files of whole lines |
| IniTidy.TidyFirstHeader | linux/libsrc/sysipc.cpp:168-206 | on a tidy profile the reader, which ignores case, and the writer, which does not, find the same header, if and only if the reader steps over the end of no line before it |
| IniTidy.TidyHasNoDecoy | linux/libsrc/sysipc.cpp:265-274 | on a tidy profile, if no line is stepped over, no line answers before the line written |
| IniTidy.TidySoleHeader | linux/libsrc/sysipc.cpp:182-200 | with every section named once, whatever the case, one header matches |
| IniTidy.TidyReadsBack | linux/libsrc/sysipc.cpp:333-571 | on a tidy profile a written value is read back if and only if it is clean: on every line buffer if the lines before the header decide for themselves, else on one on which none of them is stepped over |
| IniTheorems.DecoyHidesWrite | linux/libsrc/sysipc.cpp:274-274 | a concrete profile in which an earlier line hides the key just written |
| IniTheorems.LeftoverHidesWrite | linux/libsrc/sysipc.cpp:173-182 | a concrete profile in which a line is taken for the header because a comment left one in the buffer, and a key in front of the section is read in place of the one written |
| IniListing.ListedSections | linux/libsrc/sysipc.cpp:352-366 | the writer finds a section exactly when the listing shows it |
| IniListing.SectionsAfterWrite | linux/libsrc/sysipc.cpp:352-366 | after a write the section listing is the old one, with the section at the end if and only if it was absent |
| KeyListing.KeysAfterAnyWrite | linux/libsrc/sysipc.cpp:368-400 | what a write does to the key listing of any profile, on any line buffer and however many headers match: the key is listed if and only if the listing is inside a section at the slot, and the rest is listed with the new line left in the buffer |
| KeyListing.KeysBeforeWrite | linux/libsrc/sysipc.cpp:368-400 | the listing before the write, split at the same place, the line buffer passed along |
| SteadyListing.KeysOfSection | linux/libsrc/sysipc.cpp:368-400 | the key listing of a section with one matching header is the options between it and the next header, if no line outside is stepped over |
| SteadyListing.KeysAfterWrite | linux/libsrc/sysipc.cpp:368-400 | with one matching header the key listing after a write is the old one, with the key at the end if and only if it was absent, if no line outside is stepped over |
| SteadyListing.DecidedStaysSteady | linux/libsrc/sysipc.cpp:168-206 | no line is stepped over, before the write or after it and on any line buffer, if the old lines outside sections decide for themselves |
| ProfileRoundTrip.ValueAfterWrite | linux/libsrc/sysipc.cpp:421-571 | after a write the profile still meets what the reader needs, and what it finds, whatever the line buffer holds |
| ProfileRoundTrip.WriteThenRead | libtest/initest/iniparams_test.cpp:22-25 | writing and then reading through the code of both functions: what is read in every case and whatever the line buffer holds; and that it is the value for a tidy profile and a clean value, if the lines before the header decide for themselves or none is stepped over |
| ProfileRoundTrip.WriteThenList | libtest/initest/iniparams_test.cpp:33-62 | writing, listing and walking the list visits the old sections and then the new one, if it was new |
| ProfileRoundTrip.WriteThenListKeys | libtest/initest/iniparams_test.cpp:45-58 | likewise for the keys of a section of a tidy profile, if the lines outside sections decide for themselves or neither the line buffer nor the new line has a bracket behind its first column |
| Registry.CountIsBalance | linux/ipcdrv/ipcsem.c:38-82 | over every run the names are distinct, the owner count of a handle is opens minus closes, and it is in the list exactly while that is positive |
| Registry.OpenAddsOne | linux/ipcdrv/ipcmutex.c:36-84 | an open adds 1 at the handle and at the name and nothing elsewhere: the list is a map from name to count |
| Registry.CloseTakesOne | linux/ipcdrv/ipcmutex.c:234-269 | a close of a live handle takes 1 off the handle and off its name and nothing elsewhere |
| Registry.CloseResult | linux/ipcdrv/ipcsem.c:198-220 | the result of a close follows from the history: -EINVAL, 0 for the balancing close that removes the entry, or -EBUSY |
| Registry.OpenResult | linux/ipcdrv/ipcevent.c:38-74 | opening a name in the list returns the handle of its entry; any other name gets a handle not in the list |
| Registry.CloseAllResult | linux/ipcdrv/ipcshm.c:154-175 | closing all empties the list and reports -EBUSY if and only if it was not empty |
| RegistryCode.EntryList.Create | linux/ipcdrv/ipcsem.c:19-82 | the search loop and the insertion at the tail do what Open says, and hand out its handle |
| RegistryCode.EntryList.Close | linux/ipcdrv/ipcsem.c:178-227 | the loop, which goes on past an entry still in use, does what Close says and returns its error |
| RegistryCode.EntryList.CloseAll | linux/ipcdrv/ipcsem.c:231-274 | the loop empties the list and returns -EBUSY if and only if some entry was owned |
| Device.NoObjectOutlives | linux/ipcdrv/ipcmodule.c:101-166 | in every run m_usage is the number of open files, and when it is 0 all four registries are empty |
| Device.IoctlKeepsInv | linux/ipcdrv/ipcmodule.c:171-239 | no command changes the use count or the open files, and every list stays well-formed |
| Device.OpenCounts | linux/ipcdrv/ipcmodule.c:187-233 | an open command adds one owner at its name and at the handle it hands out, in the registry of the command, and nothing elsewhere |
| Device.CloseCounts | linux/ipcdrv/ipcmodule.c:196-236 | a close command takes one owner off its handle, in the registry of the command, and nothing elsewhere; its error code; an object still in use is reported, but for mutexes |
| Device.CloseKeepsObjects | linux/ipcdrv/ipcmodule.c:150-161 | closing a file while another is open leaves all four registries as they are |
| Device.CountIsOwned | linux/ipcdrv/ipcmodule.c:101-239 | over every run the owner count of a handle is the number of open commands that returned it minus the close commands of it, since there was last no open file; the object exists exactly while that is positive |
| Device.StaysLive | linux/ipcdrv/ipcmodule.c:150-161 | an object stays as long as some file is open and no close command names it |
| DeviceCode.Driver.Open | linux/ipcdrv/ipcmodule.c:101-128 | one more user, and the file refers to the driver |
| DeviceCode.Driver.Close | linux/ipcdrv/ipcmodule.c:132-166 | one user less, the file refers to nothing, and the last one purges the four lists |
| DeviceCode.Driver.Purge | linux/ipcdrv/ipcmodule.c:156-161 | the four close_all loops empty the four linked lists |
| DeviceCode.Driver.Ioctl | linux/ipcdrv/ipcmodule.c:171-239 | -ENODEV on a closed file, -EINVAL for an unknown command, the outcome of the lock protocol for the commands on an entry; otherwise exactly the list of the command changes |
| MutexObject.Simulates | linux/ipcdrv/ipcmutex.c:131-207 | forward simulation of an owner register: a call takes effect at the owner-id read that settles it, at down, or at up; every other step changes nothing |
| MutexObject.SemaphoreAndHolders | linux/ipcdrv/ipcmutex.c:137-205 | the semaphore count and the number of threads between down and up are 1 together |
| MutexObject.CountFollows | linux/ipcdrv/ipcmutex.c:140-206 | mutex_lock_count stays the number of threads between the increment and the decrement |
| MutexObject.NoLostWakeup | linux/ipcdrv/ipcmutex.c:137-151 | when no thread inside a call can go on, all of them wait for an owner that is outside |
| MutexObject.OneReleaseUndoes | linux/ipcdrv/ipcmutex.c:131-207 | a thread running alone: captures and then one release lead back to the same state |
| MutexSystem.MutualExclusion | linux/ipcdrv/ipcmutex.c:19-273 | in every run at most one thread holds the mutex of a given name, also across deletion and re-creation |
| MutexSystem.RunRefines | linux/ipcdrv/ipcmutex.c:19-273 | every run is a run of owner registers, one for each live handle |
| MutexSystem.RunCounts | linux/ipcdrv/ipcmutex.c:68-207 | both counts above hold at every moment of every run |
| MutexSystem.RunNoLostWakeup | linux/ipcdrv/ipcmutex.c:137-151 | at every moment of every run, threads that cannot go on all wait for an owner that is outside |
| MutexSystem.OneReleaseFrees | linux/ipcdrv/ipcmutex.c:131-207 | in every run an owner stays the owner, however often it captures and whatever the others do, until its first release, and that leaves the mutex free |
| MutexSystem.CallReturns | linux/ipcdrv/ipcmutex.c:86-214 | in every run a capture returns success if and only if the caller is the owner then, and fails only with a time limit; a release returns success, and the caller is not the owner |
| MutexSystem.FreedUnused | linux/ipcdrv/ipcmutex.c:244-254 | when a close frees a mutex, no thread holds it or is inside a call on it |
| MutexSystem.CreateKeepsInv | linux/ipcdrv/ipcmutex.c:36-84 | creating, locked or not, keeps all this; an existing mutex is not locked |
| MutexSystem.CreatedOwner | linux/ipcdrv/ipcmutex.c:36-84 | the creator of a new mutex owns it if and only if it asked for that; an existing mutex keeps its owner |
| MutexSystem.CloseKeepsInv | linux/ipcdrv/ipcmutex.c:234-269 | closing keeps all this, given that a thread keeps its last handle while it holds the mutex |
| Counting.Conservation | linux/ipcdrv/ipcsem.c:112-163 | semaphore count plus lock counter is the initial value plus the threads between up and decrement minus those between down and increment, over every run |
| Counting.Quiescence | linux/ipcdrv/ipcsem.c:60-163 | when every thread is outside or waiting, the sum is the initial value |
| Counting.LockReturns | linux/ipcdrv/ipcsem.c:112-122 | in every run a lock returns success if and only if its own steps took the semaphore and counted it once; when it fails they did neither, and the time limit ran out while the semaphore was 0 |
| Counting.UnlockReturns | linux/ipcdrv/ipcsem.c:160-164 | in every run an unlock returns success; a semaphore it has posted and counted back once, an event too unless the counter it read was 0, and then it has done nothing |
| Counting.StepCovers | linux/ipcdrv/ipcevent.c:164-167 | a step keeps the counter covering the decrements to come, if and only if it is not a wrong decision of the guard |
| Counting.RunSaturates | linux/ipcdrv/ipcevent.c:113-167 | as long as the guard decides right, the semaphore is at most 1 and the counter not negative |
| Counting.EventSaturates | linux/ipcdrv/ipcevent.c:113-265 | so it is with at most one thread at a time inside unlock or reset, and any number waiting |
| Counting.WrongDecisionShows | linux/ipcdrv/ipcevent.c:164-167 | after a wrong decision the threads past the guard only have to finish for the counter to be -1 |
| Counting.GuardRefuses | linux/ipcdrv/ipcevent.c:164-164 | an unlock is refused if and only if the counter is 0 when it is read |
| Counting.Aftermath | linux/ipcdrv/ipcevent.c:113-167 | after n posts too many, over every interleaving: at rest the event is as new, if and only if the completed locks outnumber the completed posts by n |
| Counting.LocksHeal | linux/ipcdrv/ipcevent.c:113-115 | and n locks do it |
| Counting.TwoPosters | linux/ipcdrv/ipcevent.c:137-178 | a concrete run in which an event gets two posts and the counter -1 |
| SharedMemory.CountIsUndeleted | linux/libsrc/insys/shmipc.cpp:77-296 | after every call, failing ones included, the driver's count of a name is the number of its handles not deleted |
| SharedMemory.RollbackRestores | linux/libsrc/insys/shmipc.cpp:161-165 | registering and unregistering leaves the list of the driver as it was |
| SharedMemory.UnlinkedByLastDelete | linux/libsrc/insys/shmipc.cpp:364-398 | a POSIX name disappears only in the delete that takes the count of its name to 0 |
| SharedMemory.DeleteResult | linux/libsrc/insys/shmipc.cpp:378-397 | a delete returns IPC_OK if and only if the handle was the last one and nothing failed |
| SharedMemory.FailedCreate | linux/libsrc/insys/shmipc.cpp:136-168 | a failed create changes no count and no handle; it leaves a POSIX object behind exactly when it had just created it, and then no handle has its name |
| SharedMemory.CreateResult | linux/libsrc/insys/shmipc.cpp:171-244 | when creating succeeds, exactly; the handle is new, has the size asked for and adds one to the count of its name; an object with a positive size keeps it; the flag says whether the object existed |
| SharedMemory.OpenResult | linux/libsrc/insys/shmipc.cpp:248-296 | opening succeeds if and only if nothing fails and the object exists; the handle is new, has the size of the object or 0, and adds one to the count of its name; nothing else changes |
| SharedMemory.SameDriverName | linux/libsrc/insys/shmipc.cpp:38-38 | the driver takes two names for one if and only if they are equal or agree in their first 127 characters |
| SharedMemory.NameKept | linux/libsrc/insys/shmipc.cpp:364-398 | the POSIX name of a deleted handle stays, if and only if the driver refuses, the unlink fails, or another handle has the same first 127 characters |
| SharedMemory.LongNamesLeftBehind | linux/libsrc/insys/shmipc.cpp:38-38 | names that differ only behind 127 characters share one count, and the other object stays without an owner |
| SharedMemory.LongNamesRun | linux/libsrc/insys/shmipc.cpp:38-38 | a concrete run to it: two such names created, both handles deleted, and one POSIX name left |
| SharedMemoryCode.ShmLibrary.Create | linux/libsrc/insys/shmipc.cpp:77-244 | the calls with their rollback do what Create says, including the flag of the extended call |
| SharedMemoryCode.ShmLibrary.OpenExisting | linux/libsrc/insys/shmipc.cpp:248-296 | likewise for opening |
| SharedMemoryCode.ShmLibrary.DeleteHandle | linux/libsrc/insys/shmipc.cpp:364-398 | likewise for deleting |

## Left out

- ProfileWriter.WritePrivateProfileString: requires what the fixed buffers of the code require (`Fits`): a file that is
  not empty and has no NUL, section, key and value of at most 1018 characters together, and a key line that fits 1023
  characters together with the header it is put in front of. The buffer that is not freed when the second `fopen` fails
  is not modelled.
- ProfileWriter.KeyLoop: the empty read at the end of the file is no line; the code then stores a NUL in front of
  `sNextSection`, which the model leaves out.
- ProfileReader.FindSection: requires a NUL in an even column of the line buffer behind the longest line; without one
  the code can run off the end of its buffer.
- ProfileReader.FindOption: requires a `=` in a line that matches; the code would follow a null pointer otherwise. For an
  empty value the code looks at the character in front of the caller's buffer; the model does not.
- ProfileApi.GetPrivateProfileString: lines are shorter than 1024 characters, the size of the copies made by the line tests.
  The line buffer, which the code leaves uninitialised, is a parameter.
- SteadyListing.KeysAfterWrite: requires that only one header matches the section, and that no line outside it is stepped
  over; for any other profile and line buffer see KeyListing.KeysAfterAnyWrite.
- Characters are compared as in the "C" locale, and `strcpy` over overlapping text moves it, as it does in practice.
- MutexSystem.MutualExclusion: client discipline is part of the runs: a thread makes one call at a time, uses handles
  it owns, and keeps its last handle while it holds the mutex.
- SharedMemory.CountIsUndeleted: a handle is deleted once. Calls do not interleave.
- Use of a handle after its last close, allocation failure in the driver, and reuse of an entry's address: handles are
  never handed out twice, and a closed one is refused.
- Interruption of `down_interruptible`, whose result the code ignores for waits without a timeout. A wait with a timeout
  can end only while the semaphore is 0, as in the kernel.
- The purge at the last close of the device file while threads are still inside lock or unlock.
- The code that edits the lists of events, mutexes and shared memory: it is that of the semaphores, in `RegistryCode`.
- What lock, unlock and reset report through the device file is a parameter there; the protocols are `MutexObject` and
  `Counting`.
- Copying to and from user space, the `/proc` listing, debug messages and the shims for older kernels.
- Mapping and unmapping of shared memory, file descriptor flags, and names longer than `PATH_MAX`.
- `IPC_interlocked` functions, files, sockets, devices, directories, libraries, keyboard, time and threads: thin calls
  into the system.
- The `posix`, `systemv`, `windows` and `qnx` back ends.
