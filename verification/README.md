# Verification of the daemon support layer

The repository bundles the native code of Apache Commons Daemon: `jsvc` for Unix
and `procrun` for Windows. This project models the algorithms and protocols of
that code in Dafny and proves what they promise. Run `dafny verify
dfyconfig.toml` to check everything.

C strings and packed buffers are arrays of characters with a NUL, and each method
that works on one is proved against a ghost view of the text or the list of
strings it holds. What such a view means is itself stated in plain terms, by the
lemmas whose names end in `Is`, `Are`, `At` or `Means` and by small texts put
together from parts. Objects that the source changes in place are classes. The two
protocols between threads, the child with its handlers, and the controller with
its processes are state machines whose steps interleave freely.

| file | what it models |
|---|---|
| `CStrings.dfy` | terminated strings inside a buffer |
| `CopyMemory.dfy` | the overlapping word copy of `mclib.c` |
| `Replace.dfy` | the in-place replace-all of `replace.c` |
| `WildMatch.dfy` | the recursive wildcard matcher of `utils.c` |
| `MultiSz.dfy`, `CrlfText.dfy` | packed multi-strings: length, combination, text form |
| `JvmOptions.dfy` | unquoting in place and the JVM option array cut out of one buffer |
| `HexText.dfy` | hexadecimal writer and reader |
| `OptionParser.dfy`, `Configuration.dfy` | the option loop and the layering over the registry |
| `TailQueue.dfy`, `HookChain.dfy`, `PoolTree.dfy` | linked queues, callback chains, the pool and handle tree |
| `JavaWorker.dfy`, `Mailbox.dfy` | the worker handshake and the event thread's mailbox |
| `RegistryDelete.dfy`, `MakeDirs.dfy` | recursive code over a key tree and a directory tree |
| `ClassPath.dfy` | class path splitting, expansion and joining, on Unix and Windows |
| `Supervisor.dfy`, `Controller.dfy` | the service child with its signal handlers; the controller among its processes |
| `Runs.dfy` | induction over runs |

What belongs to other code enters as a parameter or as the state of a class:
`CharLower`, `glob` and the file search, the expansion of environment variables
and the number reader `apxAtoulW` are function parameters,
the registry and the file system are classes with the outcomes their interfaces
document, and allocation succeeds. `DWORD` and `ULONG` arithmetic is wrapped in
`HexText`, where it matters; lengths are unbounded elsewhere.

## Findings

Where the code does not do what its surroundings suggest, the model keeps the
code's behaviour. Each time a lemma or a contract says exactly when the code is
right, and a member shows an input at which it is not.

- A `?` in a pattern may step over the end of the string
  (`QuestionMarkAtTheEnd`). `ExactlyWhenRight`: the matcher is right exactly when
  no `?` overhangs the end; `RightWithoutQuestionMark` covers every pattern
  without `?`. The test at utils.c:703 reads the pattern through the string's
  index; the two indices are equal there, so it never fires.
- The size check of `replace` looks at the result only, while the old text is
  copied in first (`Overrun`). The contract of `Replace`: a call stays inside its
  buffer exactly when it writes nothing or the old text fits too;
  `SizeCheckSufficesIff`: the check is enough for all texts and lengths exactly
  when the replacement is not shorter than the match.
- `apxUltohex` accepts a buffer of ten cells and writes the terminator into the
  eleventh (`TenCells`), and writes one cell into a buffer of none. The contract
  of `Ultohex`: its writes stay inside exactly for the other lengths.
- An apostrophe in a multi-string value is dropped without closing the cell it
  leaves, so the cells behind hold an early end, as does an empty piece
  (`ApostropheInFront`). `AllValuesSurviveIff` says what comes back, and that it
  is everything exactly when no value has an empty piece and none but the last
  holds an apostrophe.
- If the handle given to `apxJavaStart` is not a JVM, the worker leaves without
  signalling. `StuckIffNotJvm`: this is the only way to leave the starter stuck.
- After a callback that returns FALSE the event thread leaves; a message posted
  later stays signalled and the next post polls for ever (`ThreeMessages`).
  `LeftPollingIff`: this can happen exactly when a message that is called back
  for has two more behind it.
- `__apxPoolCallback` sets a pool's size to zero although its subpools stay listed
  (`SubpoolForgotten`). The contract of `PoolCallback`: the size is right
  afterwards exactly for the pools that list no pool.
- `apxCloseHandle` takes a pool out of its parent's queue of handles, in which it
  does not stand (`OnlyPool`). `RemoveThrough`: both queues survive that exactly
  when the pool is not the last of its own queue.
- The handlers of different signals interrupt one another. A child may then exit
  123 although TERM came first, or 0 although HUP came first
  (`HupInterruptsTerm`, `TermInterruptsHup`). `ReloadIffHupFirst`: what decides is
  whether a HUP finds the stopping flag not yet set.
- `mkdir1` fails on a path whose missing part has a doubled slash, or one at its
  end, behind a place whose parent is missing too, although it makes part of it
  (`SlashAtTheEnd`). The contract of `MkDir1` says exactly when it succeeds.
- `apxDeleteRegistryRecursive` takes a failing enumeration for a subkey and goes on
  with whatever its name buffer holds; it may then go round for ever
  (`GoingRound`). It does so only below a key that it opens and cannot enumerate;
  `NeverIff` says exactly when for a key without subkeys, and `DeleteRecursive`
  exactly when a call succeeds.
- On Windows an asterisk behind part of a name is expanded to paths that do not
  exist (`AsteriskBehindName`). `WindowsPathsRightIff`: the paths are right exactly
  when the asterisk stands directly behind the folder.
- Text made from a multi-string comes back exactly when no string holds a
  carriage return or a line feed (`RoundTripIff`, `LineFeedInside`).
- `eval_cpath` drops one empty entry at the end, so a path without starred
  entries is unchanged exactly when it does not end in a separator
  (`UnchangedIff`, `SeparatorAtTheEnd`).

## Model

| member | source | states |
|---|---|---|
| `CopyMemory.Move` | src/native/windows/src/mclib.c:177-240 | for every length, alignment and overlap the destination holds the original source bytes and no other byte of memory has changed |
| `CopyMemory.CopyWord` | src/native/windows/src/mclib.c:213 | a word move, at aligned addresses only, reads four bytes before it writes them |
| `CopyMemory.HeadUp` | src/native/windows/src/mclib.c:196-208 | after the leading bytes either both addresses are word aligned or less than a word is left |
| `CopyMemory.HeadDown` | src/native/windows/src/mclib.c:224-232 | the same from the high end |
| `CopyMemory.LowBits` | src/native/windows/src/mclib.c:196-202 | the or and xor tests on the low address bits mean aligned and equally misaligned |
| `CopyMemory.TestAddresses` | src/native/windows/src/mclib.c:196-202 | the tests as the code makes them, on the low bits of both addresses |
| `CopyMemory.MoveUp` | src/native/windows/src/mclib.c:192-215 | the ascending half, when the destination is below the source: head, words and tail together make the move and nothing else |
| `CopyMemory.MoveDown` | src/native/windows/src/mclib.c:216-237 | the descending half, when the destination is above the source |
| `CopyMemory.AscendingIsRightIff` | src/native/windows/src/mclib.c:192-221 | why there are two halves: an ascending pass moves every content correctly if and only if the destination does not start inside the source |
| `CopyMemory.AscendingAt` | src/native/windows/src/mclib.c:192-215 | every byte after an ascending byte copy, for destinations not inside the source |
| `Replace.Replace` | src/native/unix/native/replace.c:21-120 | the three failures; else 0 with exactly the left-to-right replacement, or the needed size and an untouched buffer; nothing behind the longer of the two texts changes; for one call, the memory behind the buffer stays untouched if and only if nothing is written or the old text fits too |
| `Replace.CountHits` | src/native/unix/native/replace.c:60-66 | the strstr loop counts the non-overlapping matches |
| `Replace.LengthAfter` | src/native/unix/native/replace.c:77-82 | the computed length is the length of the replaced text |
| `Replace.AtTheNextHit` | src/native/unix/native/replace.c:91-118 | jumping from one strstr hit to the next and replacing there is the character-by-character replacement |
| `Replace.WithoutHit` | src/native/unix/native/replace.c:68-75 | a text without a match is its own replacement and counts none |
| `Replace.OccursIs` | src/native/unix/native/replace.c:63 | the match occurs at a place if and only if the text is something of that length, the match, and anything behind it |
| `Replace.WantedMeans` | src/native/unix/native/replace.c:60-89 | the text that the caller asks for, match by match from the left |
| `Replace.ShiftRight` | src/native/unix/native/replace.c:95-102 | the descending loop moves everything behind the match, with the terminator, up by the shift |
| `Replace.ShiftLeft` | src/native/unix/native/replace.c:105-112 | the ascending loop ends although its strlen bound falls while it runs, and moves everything down |
| `Replace.LengthWhileMoving` | src/native/unix/native/replace.c:106 | what strlen returns at each round of that loop: the old length until the terminator has been moved, then the new one |
| `Replace.Substitute` | src/native/unix/native/replace.c:95-116 | one match is replaced, the text before and behind it is kept |
| `Replace.ReplaceHit` | src/native/unix/native/replace.c:93-118 | one round keeps finished text plus replaced rest equal to the whole result, and stays inside the buffer |
| `Replace.ReplaceInBuffer` | src/native/unix/native/replace.c:91-118 | the loop turns the copied text into its replacement |
| `Replace.ReplacedByItself` | src/native/unix/native/replace.c:21-120 | replacing a string by itself is the identity |
| `Replace.NoNewNul` | src/native/unix/native/replace.c:21-120 | the result is a C string: replacing brings in no terminator |
| `Replace.SizeCheckSufficesIff` | src/native/unix/native/replace.c:84-89 | the size check keeps every call inside its buffer, for all texts and lengths, if and only if the replacement is not shorter than the match |
| `Replace.Overrun` | src/native/unix/native/replace.c:84-89 | a text of two characters that overwrites the memory behind a buffer of one |
| `WildMatch.StrMatch` | src/native/windows/src/utils.c:698-730 | the pointer loop with its star scan and retries computes the outcome of `Run`, also for the lower-casing variant |
| `WildMatch.NoMatchIsLost` | src/native/windows/src/utils.c:698-730 | for every pattern: a matching string is reported, and while any later suffix still matches the answer is not the abort, so the pruning loses nothing |
| `WildMatch.TryFindsTheSuffix` | src/native/windows/src/utils.c:709-715 | the retries behind a star find a matching suffix whenever there is one |
| `WildMatch.StarIsSomeSuffix` | src/native/windows/src/utils.c:705-715 | a star matches exactly when some suffix matches the rest |
| `WildMatch.GlobExactly` | src/native/windows/src/utils.c:717-729 | case-sensitive: a stretch of the pattern without a star takes as many characters, any one under a question mark and elsewhere the same one |
| `WildMatch.GlobLowered` | src/native/windows/src/utils.c:718-721 | ignoring case: elsewhere one that lower-cases to the same |
| `WildMatch.PlainPattern` | src/native/windows/src/utils.c:698-730 | a pattern without wildcards is matched by the equal string only |
| `WildMatch.PlainPatternLowered` | src/native/windows/src/utils.c:718-721 | ignoring case, by exactly the strings of that length whose every character lower-cases to the same |
| `WildMatch.StarsAreOneStar` | src/native/windows/src/utils.c:706-708 | skipping a run of stars changes no match |
| `WildMatch.SegmentTells` | src/native/windows/src/utils.c:711-715 | abort means the part up to the next star was found, no match means it was not |
| `WildMatch.OverhangMisleads` | src/native/windows/src/utils.c:717-729 | a question mark that overhangs the end of the string leads to a match or an outside read |
| `WildMatch.MisleadingOverhangs` | src/native/windows/src/utils.c:717-729 | and nothing else does |
| `WildMatch.ExactlyWhenRight` | src/native/windows/src/utils.c:698-730 | the matcher stays inside the string and decides the pattern if and only if no question mark overhangs |
| `WildMatch.RightWithoutQuestionMark` | src/native/windows/src/utils.c:698-730 | without question marks it returns 0 exactly for the strings that match, and the abort only if no suffix does |
| `WildMatch.QuestionMarkAtTheEnd` | src/native/windows/src/utils.c:717-729 | concrete inputs that are wrongly accepted and read outside |
| `MultiSz.GetLength` | src/native/windows/src/utils.c:224-250 | the length is the offset of the final NUL, the count the number of strings; a null pointer has neither |
| `MultiSz.Combine` | src/native/windows/src/utils.c:252-273 | the decoded result is the strings of the first and then of the second, the byte length is exact, null only for two null pointers |
| `MultiSz.HoldsMeansStrings` | src/native/windows/src/utils.c:238-250 | a buffer that holds strings one behind the other decodes to exactly these |
| `MultiSz.StringsAreHeld` | src/native/windows/src/utils.c:238-250 | every multi-string holds the strings it decodes to |
| `MultiSz.TextInFront` | src/native/windows/src/utils.c:238-250 | a text and its NUL in front of a multi-string is one string more |
| `MultiSz.EndsThere` | src/native/windows/src/utils.c:238-250 | the strings end at the first NUL that has a NUL, or nothing, in front of it |
| `MultiSz.Joined` | src/native/windows/src/utils.c:262-268 | cells of one list in front of another multi-string decode to both |
| `JvmOptions.CharRemove` | src/native/windows/src/utils.c:442-459 | the string without that character, the number removed, nothing outside the string touched |
| `JvmOptions.WithoutOfTwo` | src/native/windows/src/utils.c:442-459 | removing a character from two texts joined is removing it from each |
| `JvmOptions.WithoutAbsent` | src/native/windows/src/utils.c:442-459 | a text without the character stays as it is |
| `JvmOptions.UnQuoteInplace` | src/native/windows/src/utils.c:839-863 | all quotes go, unless a space stands between the first quote and the next; the count is what the string got shorter by |
| `JvmOptions.UnquotedTwo` | src/native/windows/src/utils.c:844-863 | a, quote, b, quote, c: the text stays if b has a space; else the two quotes go, and those in c |
| `JvmOptions.UnquotedOne` | src/native/windows/src/utils.c:844-863 | a quote that is not closed goes unless a space follows anywhere |
| `JvmOptions.UnquotedPlain` | src/native/windows/src/utils.c:844-863 | without quotes the text stays |
| `JvmOptions.TakeOption` | src/native/windows/src/javajni.c:446-453 | the skip over the removed quotes lands on the next original string, which is still untouched |
| `JvmOptions.MultiSzToJvmOptions` | src/native/windows/src/javajni.c:427-456 | option i addresses the unquoted i-th original string, for all i |
| `CrlfText.MszToCRLF` | src/native/windows/src/utils.c:891-912 | one line for each string, terminated, inside the buffer |
| `CrlfText.CRLFToMsz` | src/native/windows/src/utils.c:914-935 | the cells of the text, NULs behind them, and the exact byte count inside the buffer |
| `CrlfText.LinesMean` | src/native/windows/src/utils.c:901-910 | each string more is that string, a carriage return and a line feed more |
| `CrlfText.CellsMean` | src/native/windows/src/utils.c:922-931 | each character more: a NUL for a carriage return, nothing for a line feed, else itself |
| `CrlfText.PackedAgain` | src/native/windows/src/utils.c:891-935 | the cells of the lines of clean strings are these strings packed |
| `CrlfText.RoundTripIff` | src/native/windows/src/utils.c:891-935 | the buffer that comes back decodes to the same strings if and only if none holds a carriage return or line feed |
| `CrlfText.LineFeedInside` | src/native/windows/src/utils.c:891-935 | a string with a line feed does not come back |
| `CrlfText.ThereAndBack` | src/native/windows/src/utils.c:891-935 | the two conversions run one after the other on any multi-string |
| `HexText.Ultohex` | src/native/windows/src/utils.c:520-536 | the terminated text of the number, or an empty string and FALSE for a short buffer; exactly which cells are written, and that they stay inside the stated length if and only if it is neither zero nor ten |
| `HexText.TenCells` | src/native/windows/src/utils.c:525-528 | a buffer of ten cells: the cell behind it is overwritten |
| `HexText.WriteDigits` | src/native/windows/src/utils.c:529-532 | eight digits from the low end, last cell first, are the number's digits |
| `HexText.HexIs` | src/native/windows/src/utils.c:515-534 | the text is 0x and eight lower-case digits, each given by its division and remainder |
| `HexText.StrToul` | src/native/windows/src/utils.c:556-597 | what every text is read as, as long as no ninth digit is reached: the positional value of its digits, or zero |
| `HexText.DigitValues` | src/native/windows/src/utils.c:571-588 | digits of either case have their values |
| `HexText.OnlyThese` | src/native/windows/src/utils.c:589-591 | and nothing else is a digit |
| `HexText.SearchEndIs` | src/native/windows/src/utils.c:561-563 | the search ends at the first place that has an x, or a 0 in front of it |
| `HexText.ReadIs` | src/native/windows/src/utils.c:561-596 | a text whose search ends at an x is read as the digits behind its last x, or zero if one of them is no digit |
| `HexText.ReadAsZero` | src/native/windows/src/utils.c:561-565 | a text whose search ends elsewhere is read as zero |
| `HexText.ReadDigits` | src/native/windows/src/utils.c:568-595 | the backward loop reads the positional value of the digits, or zero if one is wrong |
| `HexText.OrAddIsSum` | src/native/windows/src/utils.c:593 | or-ing in the sum equals adding the digit at its place, and neither shift nor sum wraps |
| `HexText.OrAbsorbs` | src/native/windows/src/utils.c:593 | a sum or-ed with its own low bits is unchanged |
| `HexText.NumberOfDigits` | src/native/windows/src/utils.c:520-536 | the digits written for a number have its positional value |
| `HexText.HexReadsBack` | src/native/windows/src/utils.c:515-597 | the written text of every 32-bit number is read as that number |
| `HexText.WriteAndRead` | src/native/windows/src/utils.c:515-597 | the same through the two loops and a buffer |
| `OptionParser.CmdOption.Mark` | src/native/windows/src/cmdline.c:182-196 | add is set if and only if every use so far was spelled with ++; earlier values go at a -- behind nothing but ++ |
| `OptionParser.CutOne` | src/native/windows/src/cmdline.c:217-230 | one round of the quote-aware copy, writing inside the buffer |
| `OptionParser.InsideIsOdd` | src/native/windows/src/cmdline.c:218-221 | inside quotes means behind an odd number of them |
| `OptionParser.CutAt` | src/native/windows/src/cmdline.c:217-230 | for every value: each character but an apostrophe lands behind as many cells as there are such characters before it, as a NUL if it is a # or ; with an even number of quotes of each kind before it, else unchanged |
| `OptionParser.CutLength` | src/native/windows/src/cmdline.c:217-230 | as many cells as there are characters that are no apostrophe |
| `OptionParser.CutWithoutApostrophes` | src/native/windows/src/cmdline.c:220-227 | without apostrophes: cell for character, cut exactly at # and ; outside of double quotes |
| `OptionParser.PaddedAt` | src/native/windows/src/cmdline.c:209-211 | behind the cells of a value there are NULs up to its length and one more |
| `OptionParser.CmdOption.AppendCells` | src/native/windows/src/cmdline.c:201-231 | the packed buffer keeps its cells less the last NUL, then the cut value padded with NULs to one cell more than its length, then one NUL; dwValue is its size |
| `OptionParser.CmdOption.Take` | src/native/windows/src/cmdline.c:182-233 | after one more use the option's flags and fields are those of all uses: the last value, or the packed values from the first -- on |
| `OptionParser.ExpectedMeans` | src/native/windows/src/cmdline.c:197-230 | the fields for all uses of each kind of option, written out |
| `OptionParser.CmdOption.ReflectsMeans` | src/native/windows/src/cmdline.c:182-233 | what an option that reflects its uses holds, written out |
| `OptionParser.EffectiveIs` | src/native/windows/src/cmdline.c:189-196 | behind nothing but ++, the first -- and all behind it count |
| `OptionParser.AllCount` | src/native/windows/src/cmdline.c:182-188 | if every use is spelled with ++ all count |
| `OptionParser.EffectiveGrows` | src/native/windows/src/cmdline.c:189-196 | which uses count after one more: only the new one at the first --, else one more |
| `OptionParser.FirstSet` | src/native/windows/src/cmdline.c:182-196 | the first use spelled with -- |
| `OptionParser.Lookup` | src/native/windows/src/cmdline.c:168-169 | the first option of that name, or the end of the table |
| `OptionParser.ReadArgument` | src/native/windows/src/cmdline.c:146-181 | what an argument is, with its value behind = or in the next argument |
| `OptionParser.UsesSpelledOut` | src/native/windows/src/cmdline.c:150-176 | the four ways to spell a use, written out |
| `OptionParser.OtherArguments` | src/native/windows/src/cmdline.c:150-153 | an argument that begins with neither ++ nor -- ends the options |
| `OptionParser.UnknownArgument` | src/native/windows/src/cmdline.c:236-243 | an argument is refused as unknown only if its name is no option's, alone or in front of a = |
| `OptionParser.Parse` | src/native/windows/src/cmdline.c:146-248 | accepts exactly the lists the scan accepts; then every option of the table reflects all uses made of it |
| `OptionParser.ReadsExactly` | src/native/windows/src/cmdline.c:146-176 | an argument is read as a use if and only if it spells that use, in one argument or in two |
| `OptionParser.AcceptedIffSpelled` | src/native/windows/src/cmdline.c:146-248 | a list is accepted as a list of uses if and only if it spells them, by a grammar that does not mention the scan |
| `Configuration.AllValuesSurviveIff` | src/native/windows/src/cmdline.c:201-231 | what the buffer of a multi-string option decodes to, for all values; all of them come back if and only if no value has an empty piece and only the last may hold an apostrophe |
| `Configuration.PlainValuesSurvive` | src/native/windows/src/cmdline.c:201-231 | values without separator, apostrophe and NUL come back one string each, those that count, in order |
| `Configuration.TwoItems` | src/native/windows/src/cmdline.c:224-225 | a # or ; outside of double quotes makes two strings of a value |
| `Configuration.QuotedItem` | src/native/windows/src/cmdline.c:220-227 | a value in double quotes is one string with its quotes, whatever separators it has |
| `Configuration.ApostropheInFront` | src/native/windows/src/cmdline.c:217-219 | two values of which not all comes back |
| `Configuration.KeptIsHeld` | src/native/windows/src/cmdline.c:201-231 | for all values: the strings as far as the first empty piece, and no value behind one with an apostrophe |
| `Configuration.ApostropheLeavesRoom` | src/native/windows/src/cmdline.c:217-219 | a value leaves unused cells if and only if it holds an apostrophe |
| `Configuration.CellsAreMultiSz` | src/native/windows/src/cmdline.c:209-231 | whatever the values are, the buffer is a terminated multi-string |
| `Configuration.GivenAreKept` | src/native/windows/src/cmdline.c:182-231 | the same for the uses that count |
| `Configuration.LoadOption` | src/native/windows/apps/prunsrv/prunsrv.c:451-501 | one option layered over the registry, whose text is expanded if the option asks for it |
| `Configuration.TakeStored` | src/native/windows/apps/prunsrv/prunsrv.c:455-484 | without a use: the registry text, expanded exactly if there is one and the option asks for it, or the registry number, or the registry cells |
| `Configuration.ConfiguredMeans` | src/native/windows/apps/prunsrv/prunsrv.c:451-501 | what a layered option holds, written out for each kind and each way it was used |
| `Configuration.Load` | src/native/windows/apps/prunsrv/prunsrv.c:451-501 | every option of the table is layered, each over its own registry value |
| `Configuration.ParseAndLoad` | src/native/windows/apps/prunsrv/prunsrv.c:451-501 | for every accepted argument list: the registry's list if the option never occurred, registry then command line if it only occurred with ++, else the command line's |
| `TailQueue.Queue.InsertHead` | src/native/windows/src/private.h:108-116 | the linked queue is well linked and is the element in front of the old queue |
| `TailQueue.Queue.InsertTail` | src/native/windows/src/private.h:118-123 | and behind the old queue |
| `TailQueue.Queue.Remove` | src/native/windows/src/private.h:133-141 | and the old queue without the element |
| `TailQueue.Queue.RemoveThrough` | src/native/windows/src/handles.c:562-567 | removing a pool through its parent's queue of handles keeps both queues well linked if and only if the pool is not the last of its queue |
| `TailQueue.Queue.RemoveEnd` | src/native/windows/src/handles.c:562-567 | the last one: both queues are then broken |
| `TailQueue.OnlyPool` | src/native/windows/src/handles.c:562-567 | the only pool of its parent: both queues are broken afterwards |
| `TailQueue.Queue.Drain` | src/native/windows/src/handles.c:185-190 | the drain loop on the linked queue ends with an empty one and takes the elements in order |
| `TailQueue.Queue.LinksAddressTheirCells` | src/native/windows/src/private.h:85-141 | every back link addresses the cell that points at its element, the last link the cell with the final null |
| `HookChain.Handle.AddHook` | src/native/windows/src/handles.c:654-676 | the new hook comes first or last as it is asked to; so the chain is the hooks added at the front in reverse, then those added at the back in order; refused for an invalid handle or a null callback |
| `HookChain.Handle.SendMessage` | src/native/windows/src/handles.c:601-617 | the first call is that of the handle's own callback, if it has one, the others those of the hooks in order, each with the message; none on an invalid handle; the answer is that of the handle's callback |
| `HookChain.OneMore` | src/native/windows/src/handles.c:666-673 | what one more hook does to that order |
| `HookChain.Handle.CallHooks` | src/native/windows/src/handles.c:611-613 | the walk over the chain calls each hook once, first to last |
| `HookChain.ThreeHooks` | src/native/windows/src/handles.c:654-676 | the order of two hooks at the front and one at the back |
| `PoolTree.Manager.CreateHandle` | src/native/windows/src/handles.c:467-528 | a new handle at the head of exactly its pool's list, the size counts it, no other pool changes; null for a parent that is no pool |
| `PoolTree.Manager.CreatePool` | src/native/windows/src/handles.c:309-350 | the same for a pool in its parent's list of pools |
| `PoolTree.Manager.CloseHandle` | src/native/windows/src/handles.c:530-571 | the handle is invalid and in no list, its pool's size is one less; FALSE and no change for no handle or one that is closed already |
| `PoolTree.WithoutIs` | src/native/windows/src/handles.c:562-567 | what stands around the handle in its list stays, in its order |
| `PoolTree.Manager.PoolCallback` | src/native/windows/src/handles.c:172-201 | terminates with exactly the handles of the pool and of all pools below it closed; every other pool is as it was; after a clear or close the size of a reached pool is right if and only if it lists no pool |
| `PoolTree.Manager.DrainHandles` | src/native/windows/src/handles.c:185-190 | the loop over the first handle ends with an empty list |
| `PoolTree.Manager.SizesAreExact` | src/native/windows/src/handles.c:342-347 | each pool's size is the number of its handles and subpools as long as no clear or close has set one to zero over listed pools |
| `PoolTree.SubpoolForgotten` | src/native/windows/src/handles.c:191-198 | a pool with one subpool that is cleared lists one and counts none |
| `PoolTree.Manager.BelowOneOf` | src/native/windows/src/handles.c:181-184 | the recursion over listed pools reaches exactly the pools below |
| `JavaWorker.InvariantKept` | src/native/windows/src/javajni.c:900-1006 | every step of starter and worker keeps the handshake's invariant |
| `JavaWorker.RunsKeepInvariant` | src/native/windows/src/javajni.c:900-1006 | so every state of every interleaving has it |
| `JavaWorker.StartIsSafe` | src/native/windows/src/javajni.c:943-950 | main is called only after the starter has read the status; TRUE if and only if the worker is initialised; after TRUE the status is zero, so that the wait shortcut fires, if and only if main is behind |
| `JavaWorker.EveryEndIsReached` | src/native/windows/src/javajni.c:900-1006 | on a JVM handle there are runs without a thread, with a failed initialisation, and with main left again |
| `JavaWorker.RunsAreBounded` | src/native/windows/src/javajni.c:900-1006 | every run has at most eighteen steps |
| `JavaWorker.RunsEndDone` | src/native/windows/src/javajni.c:900-1006 | on a JVM handle no run stops before the starter has returned and the worker has left |
| `JavaWorker.StuckIffNotJvm` | src/native/windows/src/javajni.c:908-913 | the starter can be left waiting if and only if the handle is not a JVM |
| `Mailbox.PosterKeeps` | src/native/windows/src/handles.c:619-642 | every step of the poster keeps the mailbox's invariant |
| `Mailbox.ThreadKeeps` | src/native/windows/src/handles.c:137-170 | and so does every step of the event thread |
| `Mailbox.RunsKeepInvariant` | src/native/windows/src/handles.c:137-170 | every state of every run has it, and no posted message is lost or repeated |
| `Mailbox.DeliveredInOrder` | src/native/windows/src/handles.c:137-170 | delivered plus still signalled are the posted messages with a number and a parameter, in order and once each; after a FALSE at most the last is missing |
| `Mailbox.DueGrows` | src/native/windows/src/handles.c:149 | a posted message is due exactly if it has a number and a parameter |
| `Mailbox.QuietMeansDone` | src/native/windows/src/handles.c:619-642 | a run that cannot go on has posted everything, or polls an event that nothing will clear |
| `Mailbox.AllTrueDeliversAll` | src/native/windows/src/handles.c:137-170 | if no callback returns FALSE, a run that cannot go on has posted every message and delivered every due one |
| `Mailbox.RunsAreBounded` | src/native/windows/src/handles.c:619-642 | no run has more than twelve steps for each message |
| `Mailbox.Completed` | src/native/windows/src/handles.c:619-642 | so every run goes on to one that cannot go on |
| `Mailbox.LeftPollingIff` | src/native/windows/src/handles.c:619-642 | some answers of the callbacks leave the poster polling for ever if and only if a message with a number and a parameter has two more behind it |
| `Mailbox.ThreeMessages` | src/native/windows/src/handles.c:627-628 | the shortest such list |
| `RegistryDelete.Registry.DeleteRecursive` | src/native/windows/src/registry.c:822-856 | succeeds if and only if every key of the subtree may be deleted and those with subkeys may be opened and enumerated, then exactly the subtree is gone; a failure leaves the key and everything outside; goes round for ever only if a key that is opened cannot be enumerated, and always if that is the key itself and the name buffer names no subkey |
| `RegistryDelete.Registry.OutcomeMeans` | src/native/windows/src/registry.c:822-856 | what a call promises, with every condition on keys written out |
| `RegistryDelete.Registry.OneRound` | src/native/windows/src/registry.c:840-853 | one round: the last one, or one more subkey is gone with all that was below it |
| `RegistryDelete.Registry.NameUnknown` | src/native/windows/src/registry.c:842-852 | a failing enumeration and a name that is no subkey's: nothing is deleted and the next round is the same |
| `RegistryDelete.Registry.NeverIff` | src/native/windows/src/registry.c:828-853 | a call for a key without subkeys does not return if and only if the key cannot be deleted, can be opened and cannot be enumerated |
| `RegistryDelete.GoingRound` | src/native/windows/src/registry.c:840-853 | a registry with such a key |
| `RegistryDelete.Registry.NoChildLeft` | src/native/windows/src/registry.c:844-846 | when enumeration ends, the children deleted so far and the key make up the subtree |
| `RegistryDelete.Registry.UntouchedBelow` | src/native/windows/src/registry.c:847-852 | the subtree of a child not yet deleted is as it was at first |
| `RegistryDelete.AncestorsExist` | src/native/windows/src/registry.c:822-856 | all keys between a key and one below it exist |
| `MakeDirs.FileSystem.MkDir1` | src/native/unix/native/jsvc-unix.c:509-532 | terminates for every path; returns zero if and only if the path exists, or the missing part can be made and no slash that ends the path or precedes another stands behind a place whose parent is missing; then has made exactly the missing part; the caller's buffer is given back unchanged |
| `MakeDirs.FileSystem.MadeMeans` | src/native/unix/native/jsvc-unix.c:509-532 | what mkdir1 promises, written out |
| `MakeDirs.FileSystem.MakeableMeans` | src/native/unix/native/jsvc-unix.c:513-531 | every front part of the path is a directory, or neither a file nor forbidden |
| `MakeDirs.FileSystem.SlashesMean` | src/native/unix/native/jsvc-unix.c:516-526 | which slashes keep mkdir1 from making a path |
| `MakeDirs.LineageIs` | src/native/unix/native/jsvc-unix.c:516-526 | what lies on the way to a place: the places that its names begin with |
| `MakeDirs.SlashBehind` | src/native/unix/native/jsvc-unix.c:518-519 | a slash behind a path does not change what it names |
| `MakeDirs.NameBehind` | src/native/unix/native/jsvc-unix.c:518-519 | a name behind the last slash is one name more |
| `MakeDirs.FileSystem.MkDir2` | src/native/unix/native/jsvc-unix.c:534-549 | the same for the path up to its last slash, on a copy |
| `MakeDirs.FileSystem.FirstTry` | src/native/unix/native/jsvc-unix.c:513-515 | what the first mkdir says about the whole path |
| `MakeDirs.FileSystem.SecondTry` | src/native/unix/native/jsvc-unix.c:516-530 | a path whose parent is missing: it cannot be made if it ends in a slash, else if and only if what is left of the cut can be made and it is not forbidden itself |
| `MakeDirs.CutNames` | src/native/unix/native/jsvc-unix.c:518-519 | cutting at the last slash names the parent, or the place itself if the slash ends the path |
| `MakeDirs.FileSystem.SlashAtTheEnd` | src/native/unix/native/jsvc-unix.c:516-526 | a path that can be made and cannot be made with a slash at its end |
| `ClassPath.EvalCPath` | src/native/unix/native/arguments.c:84-142 | on Unix and Windows alike: the prefix and the expanded entries joined with the separator, one empty entry at the end dropped |
| `ClassPath.OneStarredEntry` | src/native/unix/native/arguments.c:58-82 | a class path that is one starred entry, on Unix: what glob finds for the entry with .jar behind it |
| `ClassPath.OneEntry` | src/native/unix/native/arguments.c:84-142 | a class path without separator is its one entry |
| `ClassPath.TwoEntries` | src/native/unix/native/arguments.c:84-142 | two entries without asterisks stay, with the separator between them |
| `ClassPath.ExpandedOnUnix` | src/native/unix/native/arguments.c:58-82 | the expansion of a starred entry with its limit of 4092 characters, written out |
| `ClassPath.ExpandedOnWindows` | src/native/windows/src/javajni.c:509-544 | the same on Windows, with its limit of 256 |
| `ClassPath.EvalPPath` | src/native/unix/native/arguments.c:58-82 | searches for the pattern with .jar behind it and appends each path found with a colon between them, nothing if that fails; a pattern of more than 4092 characters itself |
| `ClassPath.EvalPathPart` | src/native/windows/src/javajni.c:509-544 | the Windows form: the entry less its asterisk before every name that is found |
| `ClassPath.WindowsPathsRightIff` | src/native/windows/src/javajni.c:519-540 | these paths lead to the files that were found if and only if the asterisk stands directly behind the folder |
| `ClassPath.AsteriskBehindName` | src/native/windows/src/javajni.c:519-540 | an entry that is replaced by a path that does not exist |
| `ClassPath.Collect` | src/native/unix/native/arguments.c:102-116 | one entry more, with its separator or the prefix |
| `ClassPath.TakeEntry` | src/native/unix/native/arguments.c:100-117 | cutting the copy at a separator yields the next entry and leaves the rest as it was |
| `ClassPath.SplitAndJoin` | src/native/unix/native/arguments.c:100-134 | splitting at separators and joining gives the text back |
| `ClassPath.UnchangedIff` | src/native/unix/native/arguments.c:90-142 | without starred entries the path is unchanged if and only if it does not end in a separator |
| `ClassPath.SeparatorAtTheEnd` | src/native/unix/native/arguments.c:118-134 | a path that does not come back as it was |
| `Supervisor.FirstStopStays` | src/native/unix/native/jsvc-unix.c:97-140 | which signal first asked to stop is not changed by later ones |
| `Supervisor.FirstStopIs` | src/native/unix/native/jsvc-unix.c:97-140 | which it is: the first TERM, INT or HUP among the signals |
| `Supervisor.AskedIsStopping` | src/native/unix/native/jsvc-unix.c:97-140 | once one of these has arrived and no handler is at work, the stopping flag is set |
| `Supervisor.OtherSignals` | src/native/unix/native/jsvc-unix.c:97-140 | USR1 and USR2 set their own flag and no other |
| `Supervisor.RoundServes` | src/native/unix/native/jsvc-unix.c:870-886 | a round of the loop that nothing interrupts takes both requests back and changes no other flag |
| `Supervisor.InvariantKept` | src/native/unix/native/jsvc-unix.c:97-140 | every step of the child, of a handler at work, and every signal that arrives, also inside another signal's handler, keeps the invariant |
| `Supervisor.RunsKeepInvariant` | src/native/unix/native/jsvc-unix.c:860-906 | so every state of every run has it |
| `Supervisor.ReloadIffHupFirst` | src/native/unix/native/jsvc-unix.c:860-906 | over every interleaving: a child that has served exits only when asked, with 6 if it does not stop well, else with 7 if it does not destroy well; it exits 123 if and only if it stops and destroys well and some HUP found stopping not yet set; if no signal interrupted a handler, if and only if the first TERM, INT or HUP was HUP |
| `Supervisor.HandleFits` | src/native/unix/native/jsvc-unix.c:97-140 | what one step of one handler, test or store, keeps about the flags |
| `Supervisor.HupInterruptsTerm` | src/native/unix/native/jsvc-unix.c:97-140 | a run in which TERM comes first and the child exits 123, because HUP is handled between the test and the store of TERM |
| `Supervisor.TermInterruptsHup` | src/native/unix/native/jsvc-unix.c:97-140 | a run in which HUP comes first and the child exits 0 |
| `Controller.RunController` | src/native/unix/native/jsvc-unix.c:1258-1338 | the loop on any outcomes of its forks: it forks again after exactly the children that exited 123 or were killed by a signal, returns 0 exactly if the last one exited 0, else 1, and removes the pid file as often as a child exited with a code other than 122 |
| `Controller.UnlinksAre` | src/native/unix/native/jsvc-unix.c:1291-1296 | how often that is, counted over the children |
| `Controller.SystemInvariantKept` | src/native/unix/native/jsvc-unix.c:1258-1338 | every fork, failed fork, step, signal, death and reaping keeps the invariant of controller and processes |
| `Controller.SystemRunsKeepInvariant` | src/native/unix/native/jsvc-unix.c:1258-1338 | so every state of every run of one controller has it |
| `Controller.OneControllerOneChild` | src/native/unix/native/jsvc-unix.c:1258-1338 | in every state there is at most one child, alive or not yet waited for, and none while the controller forks; every reaped child but the last exited 123 or was killed, and so did the last unless the loop has ended with it; 0 is returned if and only if the last one exited 0; the loop computes the same from the same outcomes |
| `Controller.HupMeansAnotherChild` | src/native/unix/native/jsvc-unix.c:1286-1308 | in every run, a child that came to exit and stops and destroys well is followed by another call of fork if and only if a HUP decided, which is the first signal unless a handler was interrupted |
| `Controller.FailedStartEnds` | src/native/unix/native/jsvc-unix.c:1291-1316 | a child that ends before it has installed its handlers is the last one; for a service the controller then returns 1 |

## Left out

- The Java side (Camel routes, beans, scripts): nothing in it needs a proof by induction or over states.
- Windows, consoles, logs, help texts, library loading, capabilities and user switching: input, output and system calls.
- `AplZeroMemory`, `AplFillMemory`, `ApcMemSearch`, `lstrlcat*`, `lstrlcpy*`: single loops that would add only easier members; the 64-bit word paths of `mclib.c` are not modelled either.
- `apxMultiStrMatchW`, `apxMultiSzToArray*` and `apxArrayToMultiSzA`.
- `apxCmdlineLoadEnvVars`, and the executable and command part of `apxCmdlineParse`.
- Replace.Replace: the memory from the buffer on has room for the old text; what lies behind the buffer's stated length is part of the model, what lies behind the memory is not.
- HexText.Ultohex: the memory from the buffer on has the cells that are written; again the stated length does not matter.
- HexText.StrToul: asks for a text that is not empty and does not make the reader reach a ninth digit, which it would shift by the width of the number; C leaves that undefined.
- OptionParser.Parse: cutting an argument in place at its = is modelled by taking the two parts, so that the argument list is a value.
- ClassPath.EvalCPath: allocation does not fail; the error path returns the copy as cut so far.
- PoolTree.Manager.PoolCallback: the pool's queues are sequences here; `TailQueue.Queue.Drain` is the drain loop on the links of one queue. Callbacks do nothing to lists but what the default ones do, and private heaps are not modelled.
- PoolTree.Manager.CloseHandle: closing a pool is left out; `RemoveThrough` says what it does to the two queues. The source frees a handle when it closes it, so a second call reads freed memory before its own guard can answer; here the handle keeps its type. Removing the hooks of a handle that is closed is left out as well.
- Several concurrent posters and the spin locks: one poster and one event thread are modelled, on a handle that stays valid.
- HookChain.Handle.SendMessage: no callback changes the chain while it is walked.
- RegistryDelete.Registry.DeleteRecursive: the tree does not change but through these calls, and a call that goes round for ever is given as one that returns `Never`.
- MakeDirs.FileSystem.MkDir1: a dot is a name like any other, there are no links, and no other process changes the directories meanwhile.
- JavaWorker.StartIsSafe: one start of one worker; the delay before TRUE is returned and Java exceptions do not change the handshake and are left out.
- Supervisor.ReloadIffHupFirst: handlers run on the thread of the main loop, so that the loop waits for them; a signal is held back while its own handler runs.
- Controller.OneControllerOneChild: the one-minute pause before a restart, the pid file's contention between controllers, the way a signal takes from the controller to the child, and signals that reach a child before it has installed its handlers are left out; a signal may reach a serving child at any time.
