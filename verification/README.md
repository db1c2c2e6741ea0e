# Dafny model of the generator's support code

This project models the parts of the Meteor code generator where the logic is
hard: the C++ support library `cppweb`, the JavaScript object model
`kitchen-base`, and the attribute and patch code of the vendored libgit2. It is
written for Dafny 4.11; `dafny verify dfyconfig.toml` checks the whole of it.

Code that changes things in place is modelled by classes and methods with loops,
proved against functions of their input; what those functions mean is then
proved as lemmas. The concurrent attribute cache is a transition system over any
number of threads. Where a property does not hold for every input, the
theorem says for exactly which inputs it does, and lemmas exhibit inputs for
which it does not.

| file | what it models | main results |
|---|---|---|
| `AttrCache.dfy`, `AttrCalls.dfy` | threads in `git_attr_cache__get` and their later releases, one shared access a step | `RunSafe`, `CallReturns`, `RunQuiescent`, `RunProgress` |
| `Sha1.dfy`, `Sha1Stream.dfy` | FIPS 180-4 and RFC 2104 as published; the streaming code with its 16-word ring and `offset ^ 3` byte order | `Result`, `HashPieces`, `ResultHmac`, `CounterIsEnough` |
| `JsonEscape.dfy`, `Json.dfy`, `JsonText.dfy`, `JsonReads.dfy`, `JsonRoundTrip.dfy` | escaping by chains of replacements, the four parsers, the printers in two layouts | `UnescapeEscape`, `ObjectRoundTrip`, `ArrayRoundTrip`, `CopyFrom` |
| `Apply.dfy` | splitting into lines, matching and splicing hunks, joining | `PatchExactly`, `AppliesExactly`, `ReversedRestores` |
| `HtmlTree.dfy`, `HtmlText.dfy`, `HtmlParser.dfy`, `HtmlNode.dfy`, `HtmlRoundTrip.dfy` | the node tree with its interleaved texts, its edits, the tag tokenizer, the XML parser, the minified printer | `Flatten`, `DocumentRoundTrip`, `DocumentComesBack`, `DocumentPrintsAgain` |
| `Levenshtein.dfy` | the single-column edit distance | `LevenshteinDist`, `NoShorter`, `Reached`, `Triangle` |
| `AttrRules.dfy`, `AttrParse.dfy`, `AttrLookup.dfy` | sorted assignment vectors, the line parser with macros, the three queries | `Parse`, `LineMeans`, `LineAssigns`, `LookupPrecedes`, `ForeachAgrees` |
| `Strings.dfy`, `Sorting.dfy`, `Containers.dfy`, `SortedLists.dfy`, `WordStats.dfy` | replacement in place, quicksort of lists and of table rows, sorted lists, the index, word statistics | `Sort`, `Find`, `WordsBack`, `WordStats`, `CountsDescend` |
| `Chunked.dfy` | the in-place chunked decoder, for bodies with trailers and without | `DecodeEncode`, `DecodeNoTrailers` |
| `Routes.dfy`, `Pages.dfy` | routes, and the rewriting of references when a page is renamed | `RenameKeepsReferences`, `RenameTouches`, `RenameKeepsLookups`, `UpdateRefs` |
| `Kitchen.dfy`, `KitchenObjects.dfy` | simplifying save, and load, of object trees | `SaveLoad`, `SavedShows`, `CloneFrom` |

Behaviour of the code worth knowing, each stated by a member below:

- `sha1_write` counts bytes in 32 bits, so the length field is right exactly for
  messages under 2^32 bytes (`CounterIsEnough`).
- A raw JSON string is read back exactly when each quote in it follows a
  backslash and it does not end in one; a lone backslash, although escaped,
  does not survive `CopyFrom` (`EscapeCloses`, `LoneBackslashIsLost`).
- `apply_hunk` looks for a hunk with an empty new side one line too early; it
  applies exactly when the deleted lines are copies of the line before, or the
  header's line is 0 (`TriedAt`, `BareDeletionFails`).
- `ParseTag` has room for 1024 tokens; a printed document is read back exactly
  when every tag fits (`DocumentRoundTrip`, `ManyAttributes`).
- The blank that `SpaceAfter` asks for is read back as text, and printing again
  trims it away except inside `pre` and its like: the tree comes back exactly when
  no node prints one, and the text exactly when none is trimmed
  (`DocumentComesBack`, `DocumentPrintsAgain`, `BlankIsRead`).
- `StringToListExt` stops replacing at the first separator that is itself to be
  replaced (`SpaceOutReplaces`, `SpaceOutStops`).
- `WordStats` sorts counts as texts padded to seven characters: the most frequent
  words come first exactly when no two counts of the text are padded into the
  wrong order, as none below 10^7 are (`CountsDescend`, `PaddingOrders`,
  `ManyWords`).
- The chunked decoder takes a trailer line for a size line. One that reads as the
  size 0 is erased; from any other the decoder goes on elsewhere, and what it
  leaves is the body exactly when every line reads as 0, except where a later line
  whose end reads as a negative size makes up for it (`DecodeEncode`,
  `TrailerLeft`, `TrailerErased`, `JumpMadeUp`).
- A loaded array item becomes an object of the class its members pick, so an
  object of the array's own class can come back as another, and a plain item as
  an object; `Kept` says for which trees neither happens (`SaveLoad`,
  `ClassIsLost`, `PlainIsLost`).
- A new object shows properties of type object or array in its simplified form
  that one loaded from nothing leaves out (`FreshShows`).

## Model

| member | source | states |
|---|---|---|
| AttrCache.InitInv | libgit2/src/attrcache.c:203-252 | a fresh cache, no files and no thread in a call, satisfies the invariant |
| AttrCache.TotalUpdate | libgit2/src/attrcache.c:121-149 | one thread's step changes the references all threads hold by exactly what it changes its own |
| AttrCache.TotalCovers | libgit2/src/attrcache.c:121-149 | no thread holds more references to a file than all threads together |
| AttrCache.LookupSound | libgit2/src/attrcache.c:151-201 | taking a slot's file and counting the reference under the lock keeps every count equal to the references that exist |
| AttrCache.AllocSound | libgit2/src/attr_file.c:24-44 | a newly made file starts with one reference, its maker's, and no other thread knows it |
| AttrCache.SwapSound | libgit2/src/attrcache.c:93-119 | swapping the new file into the slot moves the old file's slot reference to the thread and gives the new file its own |
| AttrCache.CasSound | libgit2/src/attrcache.c:121-144 | compare-and-swap empties the slot only if it still holds the file, and then the slot's reference becomes the thread's |
| AttrCache.DyingUnowned | libgit2/src/attr_file.c:66-71 | a file whose count reached zero and is about to be freed is allocated and has no owner |
| AttrCache.ReapSound | libgit2/src/attr_file.c:66-71 | freeing it touches no slot and no file another thread refers to |
| AttrCache.SoundKeepsInv | libgit2/src/attrcache.c:203-252 | a step with exact accounting of its own thread keeps the global invariant |
| AttrCache.StepKeepsInv | libgit2/src/attrcache.c:203-252 | every step of every thread, including failure of the lock and of loading, keeps the invariant |
| AttrCache.RunInv | libgit2/src/attrcache.c:92-252 | every state of every finite interleaving satisfies the invariant |
| AttrCache.RunSafe | libgit2/src/attrcache.c:92-252 | in every interleaving no freed memory is touched, each live file's count is its slot reference plus the threads' references, no slotted or referenced file is freed, none is freed twice, and a slot holds a file made for it |
| AttrCache.RunExcludes | libgit2/src/attrcache.c:8-23 | at most one thread is between lock and unlock |
| AttrCache.RunQuiescent | libgit2/src/attrcache.c:92-252 | once all calls have returned and all files are released, the allocated files are exactly the slotted ones, each with count 1 |
| AttrCache.RunProgress | libgit2/src/attrcache.c:8-252 | while a call is in progress some thread in a call can take a step, not a failure of the lock, that changes its state: no deadlock |
| AttrCalls.RunPlayed | libgit2/src/attrcache.c:92-252 | every run has the moves by which it came about |
| AttrCalls.PhaseStep | libgit2/src/attrcache.c:203-252 | every step of a call keeps what its locals and the files given so far say of each other |
| AttrCalls.StepOwn | libgit2/src/attrcache.c:92-252 | a step leaves the other threads alone, keeps the home of every file that stays, and uses no file's number again |
| AttrCalls.CallSoFar | libgit2/src/attrcache.c:203-252 | what a call has in its locals is what it did find, load and put in the slot between its start and now |
| AttrCalls.CallReturns | libgit2/src/attrcache.c:203-252 | over a run from the request to its end, the caller is given the file this call loaded and put in the slot, if it took the lock for that; else the file it found there, if that is up to date; else nothing; and the file was made for the slot asked for |
| AttrCalls.SlotsChange | libgit2/src/attrcache.c:93-144 | only two steps change the slots: putting the loaded file in its slot, and taking a file out wherever it still is |
| Sha1Stream.BlockWords | cppweb/cppw_sha1.cpp:89-96 | bytes stored at `offset ^ 3` read as little-endian words are the block's big-endian words |
| Sha1Stream.Landed | cppweb/cppw_sha1.cpp:89-96 | storing the next byte leaves the earlier bytes of the block where they belong |
| Sha1Stream.HashAppend | cppweb/cppw_sha1.cpp:52-87 | appending a whole block to a message compresses it into the hash of what came before |
| Sha1Spec.ChForm | cppweb/cppw_sha1.cpp:68-69 | the code's three-operation choice is Ch of section 4.1.1 of FIPS 180-4 |
| Sha1Spec.MajForm | cppweb/cppw_sha1.cpp:72-73 | the code's majority is Maj of that section |
| Sha1Stream.FlipIsXor | cppweb/cppw_sha1.cpp:90 | for an offset into a block, offset ^ 3 is the byte's place counted from the other end of its word |
| Sha1Stream.Place | cppweb/cppw_sha1.cpp:90 | the place computed with ^ 3 is that one |
| Sha1Stream.RingIndices | cppweb/cppw_sha1.cpp:65 | the masked indices of the ring are those of words t-3, t-8, t-14 and t-16 |
| Sha1Stream.Sha1Info.Expand | cppweb/cppw_sha1.cpp:64-67 | writing word i over word i-16 leaves the ring holding the last 16 words of the 80-word schedule |
| Sha1Stream.Sha1Info.Rounds80 | cppweb/cppw_sha1.cpp:63-82 | the loop over the ring computes the 80 rounds of section 6.1.2 with the 80-word schedule |
| Sha1Stream.Sha1Info.HashBlock | cppweb/cppw_sha1.cpp:52-87 | one block is compressed into the state as the standard says |
| Sha1Stream.InitialWords | cppweb/cppw_sha1.cpp:42-46 | the initial bytes read as words are H0 to H4 of section 5.3.1 |
| Sha1Stream.Sha1Info.Init | cppweb/cppw_sha1.cpp:42-46 | the object has absorbed the empty message |
| Sha1Stream.Sha1Info.AddUncounted | cppweb/cppw_sha1.cpp:89-96 | exactly one byte more is absorbed, with the block hashed when it is full |
| Sha1Stream.Sha1Info.WriteByte | cppweb/cppw_sha1.cpp:98-101 | the byte is absorbed and counted, the count wrapping at 2^32 |
| Sha1Stream.Sha1Info.Write | cppweb/cppw_sha1.cpp:103-105 | the message written so far is extended by the data |
| Sha1Stream.ZeroDue | cppweb/cppw_sha1.cpp:112 | while the offset is not 56 another zero is due and the wrap-around distance to 56 shrinks |
| Sha1Stream.Sha1Info.PadZeros | cppweb/cppw_sha1.cpp:112 | the loop ends, after the least number of zero bytes section 5.1.1 allows |
| Sha1Stream.LengthBytes | cppweb/cppw_sha1.cpp:115-122 | three zero bytes and the five shifted ones are the 64-bit big-endian length in bits |
| Sha1Stream.Sha1Info.Pad | cppweb/cppw_sha1.cpp:107-123 | the message is padded as section 5.1.1 says for the counted length, to whole blocks |
| Sha1Stream.SwappedDigest | cppweb/cppw_sha1.cpp:130-139 | byte-swapped state words lie in memory as the digest |
| Sha1Stream.Sha1Info.Result | cppweb/cppw_sha1.cpp:125-143 | the digest of what was written with the 32-bit count as its length, which is the standard's digest below 2^32 bytes |
| Sha1Stream.HashPieces | cppweb/cppw_sha1.cpp:42-143 | however a message under 2^32 bytes is cut into writes, the result is its SHA-1 |
| Sha1Stream.GetSHA1 | cppweb/cppw_sha1.cpp:178-195 | the result is the lower-case hexadecimal of the digest with the 32-bit count as its length, which is the data's SHA-1 below 2^32 bytes |
| Sha1Stream.HexIs | cppweb/cppw_sha1.cpp:187-193 | reading two digits of the text, the first counting sixteen times, gives each byte back |
| Sha1Spec.RoundConstants | cppweb/cppw_sha1.cpp:29-32 | the four constants are the square roots of 2, 3, 5 and 10 in units of 2^-30, rounded down |
| Sha1Stream.CounterIsEnough | cppweb/cppw_sha1.cpp:98-123 | the length field written is the length in bits exactly for messages under 2^32 bytes |
| Sha1Stream.DigitsInjective | cppweb/cppw_sha1.cpp:115-122 | different 64-bit lengths have different length fields |
| Sha1Stream.Sha1Info.PrepareKey | cppweb/cppw_sha1.cpp:148-158 | the key buffer holds the key of RFC 2104 brought to block length, long keys hashed |
| Sha1Stream.Sha1Info.InitHmac | cppweb/cppw_sha1.cpp:148-165 | the inner hash has absorbed the key masked with 0x36 |
| Sha1Stream.Sha1Info.ResultHmac | cppweb/cppw_sha1.cpp:167-176 | the result is HMAC-SHA1 of section 2 of RFC 2104 |
| Strings.Find | cppweb/cppw_string.cpp:352-357 | the case-sensitive search finds the first occurrence at or after the start, and -1 exactly when there is none |
| Strings.ReplaceSkips | cppweb/cppw_string.cpp:429-442 | where nothing matches, replacement copies |
| Strings.ReplaceSubString | cppweb/cppw_string.cpp:429-442 | case-sensitively, rewriting the buffer in place replaces every leftmost non-overlapping occurrence, also when the replacement contains what is sought |
| Strings.FindCharIs | cppweb/cppw_string.cpp:689-704 | the first such character at or after the start, unless a terminator comes before it |
| Strings.StrLessIs | cppweb/cppw_string.cpp:874-889 | the first difference decides, or the shorter text comes first |
| Strings.LowerCaseIs | cppweb/cppw_string.cpp:891-899 | the 26 letters become small and nothing else changes |
| JsonEscape.EscapeStep | cppweb/cppw_jsonparser.cpp:5-15 | each replacement of the chain escapes its own character and disturbs no earlier escape |
| JsonEscape.EscapeJSON | cppweb/cppw_jsonparser.cpp:5-15 | the chain of replacements escapes character by character |
| JsonEscape.EscapesAre | cppweb/cppw_jsonparser.cpp:5-15 | the eight escapes, and every other character as it is |
| JsonEscape.UnescapeFirst | cppweb/cppw_jsonparser.cpp:24-35 | in an escaped text the first replacement takes exactly the escaped backslashes, whatever stands around them |
| JsonEscape.UnescapeStep | cppweb/cppw_jsonparser.cpp:24-35 | each later replacement undoes its own escape and nothing else |
| JsonEscape.UnescapeLast | cppweb/cppw_jsonparser.cpp:24-35 | the last replacement takes exactly the marks of backslashes, even beside a mark in the original |
| JsonEscape.UnescapeJSON | cppweb/cppw_jsonparser.cpp:24-35 | the buffer goes through the nine replacements |
| JsonEscape.UnescapeEscape | cppweb/cppw_jsonparser.cpp:5-35 | unescaping the escaped form of any string gives the string |
| Json.ParseValue | cppweb/cppw_jsonparser.cpp:348-546 | a value read moves the cursor forward, to a comma or a closing bracket |
| Json.ReadWord | cppweb/cppw_jsonparser.cpp:376-427 | the alphanumeric run is the literal or the value is refused |
| Json.ReadNumber | cppweb/cppw_jsonparser.cpp:431-485 | the number is the run up to blank, comma or closer, refused when nothing ends it or it holds other characters |
| JsonReads.ValueStarts | cppweb/cppw_jsonparser.cpp:348-376 | anything that cannot begin a value is passed over, and the first character that can selects the reader |
| JsonReads.LiteralExactly | cppweb/cppw_jsonparser.cpp:376-427 | a literal is read exactly where its word stands with nothing but blanks before the comma or closing bracket |
| JsonReads.StringExactly | cppweb/cppw_jsonparser.cpp:487-512 | a string is what stands before the first quote that no backslash precedes, followed by the same |
| JsonReads.NumberExactly | cppweb/cppw_jsonparser.cpp:431-485 | digits and signs up to a blank, comma or closing bracket are an integer, with a point, plus or exponent a float, and with anything else nothing |
| Json.ReadValue | cppweb/cppw_jsonparser.cpp:348-546 | the cursor loops accept and build what the value grammar does, on every input, and end |
| Json.ReadArray | cppweb/cppw_jsonparser.cpp:746-805 | the same for arrays |
| Json.ReadMember | cppweb/cppw_jsonparser.cpp:899-956 | the same for members |
| Json.ReadObject | cppweb/cppw_jsonparser.cpp:1201-1272 | the same for objects |
| JsonText.Stringify | cppweb/cppw_jsonparser.cpp:275-324 | the value's text is appended to the output and nothing before it changes |
| JsonText.StringifyArray | cppweb/cppw_jsonparser.cpp:695-714 | the loop appends the array's text, commas between the items only |
| JsonText.StringifyMember | cppweb/cppw_jsonparser.cpp:863-882 | name, colon and value are appended |
| JsonText.StringifyObject | cppweb/cppw_jsonparser.cpp:1075-1087 | the loop appends the object's text, commas between the members only |
| JsonReads.Layouts | cppweb/cppw_jsonparser.cpp:695-714 | an array and an object with one entry in both layouts |
| JsonRoundTrip.QuoteBack | cppweb/cppw_jsonparser.cpp:488-505 | the scan for the closing quote stops at the end of the raw string exactly when each quote in it follows a backslash and it does not end in one |
| JsonRoundTrip.AtoiOfInt | cppweb/cppw_jsonparser.cpp:431-485 | a printed integer reads as itself |
| JsonRoundTrip.ValueBack | cppweb/cppw_jsonparser.cpp:348-546 | a printed value in its context is read back, and nothing else is taken for it, exactly when it is clean |
| JsonRoundTrip.ItemsBack | cppweb/cppw_jsonparser.cpp:746-805 | the same for the items of an array after those already read |
| JsonRoundTrip.MembersBack | cppweb/cppw_jsonparser.cpp:1201-1272 | the same for the members of an object |
| JsonRoundTrip.MemberBack | cppweb/cppw_jsonparser.cpp:899-956 | the same for one member: its name must be closed too |
| JsonRoundTrip.ObjectRoundTrip | cppweb/cppw_jsonparser.cpp:1164-1279 | parsing either layout of an object without floats gives the object exactly when every raw string and name in it is closed |
| JsonRoundTrip.ArrayRoundTrip | cppweb/cppw_jsonparser.cpp:695-805 | the same for arrays |
| JsonRoundTrip.CopyFrom | cppweb/cppw_jsonparser.cpp:1281-1292 | the copy succeeds and equals the original exactly for those trees |
| JsonRoundTrip.EscapeCloses | cppweb/cppw_jsonparser.cpp:5-15 | an escaped string is closed exactly when the string does not end in a backslash |
| JsonRoundTrip.LoneBackslashIsLost | cppweb/cppw_jsonparser.cpp:1281-1292 | a member holding an escaped lone backslash is not read back |
| Apply.JoinSplit | libgit2/src/apply.c:43-72 | the lines of a text, joined, are the text, and only the last can lack its newline |
| Apply.SplitJoin | libgit2/src/apply.c:43-72 | there is no other way to cut a text into lines |
| Apply.PatchImage.FromStr | libgit2/src/apply.c:43-72 | the loop builds the lines of the source |
| Apply.PatchImage.InsertNull | libgit2/src/vector.c:334-351 | a gap opens at the index and everything else keeps its order |
| Apply.PatchImage.RemoveRange | libgit2/src/vector.c:353-380 | the range is taken out and nothing else |
| Apply.SidesAppend | libgit2/src/apply.c:174-190 | context lines are on both sides of a hunk, deleted ones on the old side and added ones on the new, in order |
| Apply.MatchHunk | libgit2/src/apply.c:83-111 | true exactly when the preimage's lines stand in the image at the line number |
| Apply.FindHunkLinenum | libgit2/src/apply.c:113-129 | the line number is cut to the image's length and the match decided there |
| Apply.UpdateHunk | libgit2/src/apply.c:131-160 | growing or shrinking the vector and overwriting it replaces the preimage's lines by the postimage's and moves nothing else |
| Apply.ApplyHunk | libgit2/src/apply.c:162-208 | the image becomes what the hunk makes of it, and stays as it is when the hunk fails |
| Apply.ApplyHunks | libgit2/src/apply.c:210-237 | the patched text is appended to the output, or on failure nothing is |
| Apply.TargetIs | libgit2/src/apply.c:192 | the place is the header's line counted from 0, cut to the image's length; a negative line is past every image |
| Apply.HunkExactly | libgit2/src/apply.c:162-208 | for every image and hunk: the hunk is applied exactly where its old lines stand at its place, and the result has its new lines there and the rest as it was; otherwise it fails |
| Apply.PatchExactly | libgit2/src/apply.c:210-237 | for every source and patch: a text comes out exactly when every hunk in turn finds its old lines, and it is what the last one leaves |
| Apply.PatchFails | libgit2/src/apply.c:210-237 | it fails exactly when some hunk does not find them in what those before it left |
| Apply.OtherLineFails | libgit2/src/apply.c:192-198 | a hunk whose old line is not the text's fails, although it has a new one |
| Apply.EarlyMatch | libgit2/src/apply.c:113-129 | deleted lines also match one line earlier exactly when they are copies of the line there, and deleting there has the same effect |
| Apply.TriedAt | libgit2/src/apply.c:192-204 | at the line number of its header a hunk matches exactly when it has new lines, starts at 0 or deletes copies of the line before, and then splices as if at its own place |
| Apply.TriedBetween | libgit2/src/apply.c:192-204 | the same where everything before the hunk is already new and everything after it still old |
| Apply.OneHunk | libgit2/src/apply.c:162-208 | a hunk that describes the edit turns new-prefix plus old-suffix into a longer new prefix and a shorter old suffix, or fails exactly when it does not land |
| Apply.RunExactly | libgit2/src/apply.c:210-237 | the remaining hunks turn new-prefix plus old-suffix into the new text, or fail exactly when one of them does not land |
| Apply.AppliesExactly | libgit2/src/apply.c:210-237 | a patch describing the edit from A to B, applied to A, gives exactly B's bytes, or an error exactly when some hunk does not land |
| Apply.ReversedDescribes | libgit2/src/apply.c:162-237 | the reversed patch describes the reverse edit |
| Apply.ReversedRestores | libgit2/src/apply.c:162-237 | the reversed patch applied to B gives exactly A's bytes, or an error exactly when some reversed hunk does not land |
| Apply.BareDeletionFails | libgit2/src/apply.c:192-204 | a correct patch deleting the second of two different lines without context is refused |
| HtmlTree.DocumentGlue | cppweb/cppw_htmlparser.cpp:1342-1366 | joining two contents, the texts that meet becoming one, concatenates what they say |
| HtmlTree.Unwrap | cppweb/cppw_htmlparser.cpp:1428-1441 | putting an unnamed node's contents in its place changes nothing a reader meets |
| HtmlTree.Replaced | cppweb/cppw_htmlparser.cpp:1428-1441 | replacing a child by one that says the same changes nothing a reader meets |
| HtmlText.TrimLoops | cppweb/cppw_string.cpp:617-637 | the two loops strip blanks from both ends |
| HtmlText.MinifyText | cppweb/cppw_htmlparser.cpp:708-714 | the text printed has no line end and no blank at either end |
| HtmlText.OneLine | cppweb/cppw_htmlparser.cpp:708-714 | trimming and the three replacements bring any text into the form the round trip asks of texts |
| HtmlText.TrimIs | cppweb/cppw_string.cpp:617-637 | trimming takes blanks off both ends and nothing else, until none is left there |
| HtmlText.MinifiedIs | cppweb/cppw_htmlparser.cpp:708-714 | the three replacements turn each line end, of one character or of two, into one blank |
| HtmlText.MinifiedWords | cppweb/cppw_htmlparser.cpp:708-714 | the printed text has the words of the text, none lost, joined with another, or cut |
| HtmlText.TextKinds | cppweb/cppw_htmlparser.cpp:668-714 | a line end is kept in a `pre` and becomes a blank in a `p` |
| HtmlText.QuoteInValue | cppweb/cppw_htmlparser.cpp:681-686 | a quote in a value is printed as its entity |
| HtmlText.AppendAttrs | cppweb/cppw_htmlparser.cpp:677-692 | the loop appends every attribute in order, values quoted and their quotes replaced |
| HtmlParser.ParseFrom | cppweb/cppw_htmlparser.cpp:518-623 | whatever is read has one text more than children, and ends inside the input |
| HtmlParser.ScanFlags | cppweb/cppw_htmlparser.cpp:557-563 | the two flags say whether the scan is inside quotes or a comment |
| HtmlNode.CWNode.AddChild | cppweb/cppw_htmlparser.cpp:1316-1322 | the contents become the old ones joined with text, node, text |
| HtmlNode.CWNode.InsertChild | cppweb/cppw_htmlparser.cpp:1353-1359 | the node and its texts go before the text at the index |
| HtmlNode.CWNode.InsertChildSpec | cppweb/cppw_htmlparser.cpp:1361-1366 | the node and its texts go after the text at the index |
| HtmlNode.CWNode.InsertChildsOfNode | cppweb/cppw_htmlparser.cpp:1342-1351 | the loop inserts the other node's whole contents, in order, after the text at the index |
| HtmlNode.CWNode.DetachChild | cppweb/cppw_htmlparser.cpp:1401-1410 | the child goes and the texts around it are joined |
| HtmlNode.CWNode.IndexOfChild | cppweb/cppw_htmlparser.cpp:1567-1574 | the first place of the node, or -1 exactly when it is absent |
| HtmlNode.CWNode.DetachNode | cppweb/cppw_htmlparser.cpp:1412-1426 | the node's first occurrence is detached, and nothing changes when there is none |
| HtmlNode.CWNode.Dissolve | cppweb/cppw_htmlparser.cpp:1434-1439 | an unnamed child gives way to its contents, texts joined at both ends |
| HtmlNode.CWNode.Flatten | cppweb/cppw_htmlparser.cpp:1428-1441 | in place, no unnamed node is left below, every node has one text more than children, and the sequence of characters and named elements is what it was |
| HtmlNode.CWNode.GetHTML | cppweb/cppw_htmlparser.cpp:654-790 | `GetHTML(true)`: the minified text of the tree, with a blank after a node that asks for one and does not close itself |
| HtmlNode.CWNode.ParseTag | cppweb/cppw_htmlparser.cpp:344-516 | in XML mode, the tag read is what the token grammar reads, or undefined beyond 1024 tokens or at a text of length -1 |
| HtmlNode.CWNode.ParseChild | cppweb/cppw_htmlparser.cpp:567-589 | the element becomes a new last child in fresh memory, and the scan goes on after it |
| HtmlNode.CWNode.Parse | cppweb/cppw_htmlparser.cpp:518-623 | in XML mode, the loop builds, in memory, the tree the grammar reads, and fails when the grammar does |
| HtmlNode.CWNode.ParseXML | cppweb/cppw_htmlparser.cpp:633-639 | a cleared node reads a whole document |
| HtmlNode.ReadTokens | cppweb/cppw_htmlparser.cpp:344-454 | the character loop sets down the tokens of the tag, up to the buffers' size |
| HtmlRoundTrip.TagBack | cppweb/cppw_htmlparser.cpp:344-454 | a printed tag is cut into the tokens it was made of |
| HtmlRoundTrip.SingleQuoted | cppweb/cppw_htmlparser.cpp:344-454 | a value in single quotes is cut out of them |
| HtmlRoundTrip.ReadPair | cppweb/cppw_htmlparser.cpp:456-516 | a name, an equals sign and a value in any quotes or none are one attribute |
| HtmlRoundTrip.VoidNames | cppweb/cppw_htmlparser.cpp:69-90 | void elements are known by their name in any case |
| HtmlRoundTrip.ReadAttrs | cppweb/cppw_htmlparser.cpp:456-516 | those tokens read as the attributes they came from, in order |
| HtmlRoundTrip.TagExactly | cppweb/cppw_htmlparser.cpp:344-516 | a printed tag is read back, except for two printing flags, exactly when its tokens fit in the buffers |
| HtmlRoundTrip.TextBack | cppweb/cppw_htmlparser.cpp:532-611 | a text without markup outside quotes and comments is collected whole |
| HtmlRoundTrip.QuoteBack | cppweb/cppw_htmlparser.cpp:558-559 | whatever is in double quotes is text, up to a quote no backslash precedes |
| HtmlRoundTrip.CommentBack | cppweb/cppw_htmlparser.cpp:561-564 | whatever is in a comment is text, up to the first closing mark |
| HtmlRoundTrip.TagsInText | cppweb/cppw_htmlparser.cpp:558-566 | a tag in a comment and one in quotes are text |
| HtmlRoundTrip.NodeBack | cppweb/cppw_htmlparser.cpp:518-623 | a printed element is read back whole, up to the blank after it, exactly when every tag in it fits |
| HtmlRoundTrip.InnerBack | cppweb/cppw_htmlparser.cpp:518-623 | so are printed contents, after those already read and the blank before them |
| HtmlRoundTrip.DocumentRoundTrip | cppweb/cppw_htmlparser.cpp:344-790 | `ParseXML(GetHTML(true))` gives the same tree, with one newline after its last text, flags that are not in the text at their defaults and each printed blank before the text it stands in front of, exactly when every tag fits |
| HtmlRoundTrip.SpacesAreText | cppweb/cppw_htmlparser.cpp:754-785 | what comes back differs in nothing but flags exactly when no node is followed by a blank |
| HtmlRoundTrip.DocumentComesBack | cppweb/cppw_htmlparser.cpp:344-790 | the tree comes back, flags and the last newline aside, exactly when every tag fits and no node is followed by a blank |
| HtmlRoundTrip.BlankIsRead | cppweb/cppw_htmlparser.cpp:754-785 | a node with `SpaceAfter` between two texts: the second comes back with a blank before it |
| HtmlRoundTrip.ManyAttributes | cppweb/cppw_htmlparser.cpp:349-352 | a tag with 1022 attributes without values meets every other condition and does not fit |
| HtmlRoundTrip.DocumentPrintsAgain | cppweb/cppw_htmlparser.cpp:654-790 | printing what came back gives the same text again exactly when every printed blank stands where texts are kept as they are |
| HtmlRoundTrip.GoodAgain | cppweb/cppw_htmlparser.cpp:654-790 | what came back meets the conditions of the round trip again exactly then |
| Levenshtein.LevenshteinDist | cppweb/cppw_string.cpp:901-924 | the single-column loop computes the recursive three-way distance, unless both strings are empty |
| Levenshtein.Symmetric | cppweb/cppw_string.cpp:901-924 | the distance is symmetric |
| Levenshtein.Bounds | cppweb/cppw_string.cpp:901-924 | it lies between the difference of the lengths and the longer length |
| Levenshtein.ZeroIffSame | cppweb/cppw_string.cpp:901-924 | it is zero exactly on equal texts, case counting or not |
| Levenshtein.Triangle | cppweb/cppw_string.cpp:901-924 | the triangle inequality |
| Levenshtein.NoShorter | cppweb/cppw_string.cpp:901-924 | no sequence of fewer insertions, deletions and replacements leads from one string to the other |
| Levenshtein.Reached | cppweb/cppw_string.cpp:901-924 | some sequence of exactly that many does |
| AttrRules.NameHashLoop | libgit2/src/attr_file.c:284-292 | the loop computes the hash of the name in 32 bits |
| AttrRules.HashAppend | libgit2/src/attr_file.c:760-764 | hashing a longer name is one more step of the hash, which is what the parser does character by character |
| AttrRules.HashOfTwo | libgit2/src/attr_file.c:284-291 | each character counts 33 times what the next one does, after a start of 5381 |
| AttrRules.CompareIs | libgit2/src/attr_file.c:685-696 | the comparison is a strict order on (hash, name) and 0 exactly on equal names |
| AttrRules.BinarySearch | libgit2/src/util.c:513-541 | in a sorted vector the search finds the assignment of the name exactly when there is one, and otherwise the place where it belongs |
| AttrRules.Vector.InsertSorted | libgit2/src/attr_file.c:708-716 | the vector stays strictly sorted and the name's assignment becomes the new one, all others unchanged |
| AttrParse.NameLoop | libgit2/src/attr_file.c:758-764 | the scan stops at the end of the name with the hash of the whole name |
| AttrParse.ReadItem | libgit2/src/attr_file.c:732-786 | one round reads what stands at the word: a comment, nothing, or an assignment with its sign or value |
| AttrParse.InsertAll | libgit2/src/attr_file.c:788-813 | a macro's assignments and then its own name are merged in that order |
| AttrParse.Parse | libgit2/src/attr_file.c:718-825 | the vector ends strictly sorted, holding for each name the last assignment on the line with macro expansions in place, and the cursor stands at the next line |
| AttrParse.LineAfterItem | libgit2/src/attr_file.c:732-786 | reading an item never crosses a line end |
| AttrParse.ItemBack | libgit2/src/attr_file.c:732-786 | a written assignment is read back as it was |
| AttrParse.LineRoundTrip | libgit2/src/attr_file.c:718-825 | a line written from plain assignments reads as exactly those, in order |
| AttrParse.LineMeans | libgit2/src/attr_file.c:718-825 | a line written from any assignments, with any blanks between them and a comment or more lines after it, reads as each one's own list in order: a set macro's assignments and then its name, and of `-m`, `!m`, `m=v` and other names the assignment alone |
| AttrParse.LineAssigns | libgit2/src/attr_file.c:788-813 | the last assignment on the line that sets a name, itself or through its macro, decides it; a name none of them sets gets nothing |
| AttrParse.BinaryMacro | libgit2/src/attr_file.c:788-813 | `binary`, a macro for `-diff`, sets `diff` and then itself |
| AttrParse.LineEndsAt | libgit2/src/util.h:298-304 | the next line begins after all the line ends that follow |
| AttrLookup.AttrGet | libgit2/src/attr.c:37-86 | the value is that of the first matching rule, by precedence, that assigns the name |
| AttrLookup.LookupPrecedes | libgit2/src/attr.c:66-81 | the last matching rule of the first file that assigns the name decides, and without one there is no value |
| AttrLookup.AskRule | libgit2/src/attr.c:128-144 | after a rule is asked every name is settled or still depends on the rules below |
| AttrLookup.AttrGetMany | libgit2/src/attr.c:92-162 | every requested name, repeated ones included, gets the value `git_attr_get` returns, wherever the loops stop |
| AttrLookup.AttrForeach | libgit2/src/attr.c:176-229 | the report is the first assignment of each name in precedence order, cut exactly where the callback first answers other than 0, which is the error returned |
| AttrLookup.FirstOfSorted | libgit2/src/attr.c:66-77 | in a sorted vector a scan and the binary search find the same assignment |
| AttrLookup.LookupIsFirst | libgit2/src/attr.c:66-77 | the value of a name is its first assignment in the order in which rules are visited |
| AttrLookup.FirstsAre | libgit2/src/attr.c:205-219 | the report names each name once, with its first value, and misses none |
| AttrLookup.ForeachAgrees | libgit2/src/attr.c:176-229 | a name is reported exactly when `git_attr_get` finds it, with that value, and none twice |
| AttrLookup.StackSorted | libgit2/src/attr_file.c:718-825 | rules from parsed files meet the condition of the lookup lemmas |
| Sorting.LeTotal | cppweb/cppw_string.cpp:874-889 | the comparison is total, reflexive and antisymmetric, in both directions |
| Sorting.LeIs | cppweb/cppw_string.cpp:874-889 | upwards the smaller text comes first, downwards the greater one |
| Sorting.LeTrans | cppweb/cppw_string.cpp:874-889 | and transitive |
| Sorting.OrderedAround | cppweb/cppw_string.cpp:1489-1518 | two ordered parts around a pivot that separates them are ordered together |
| Containers.Scan | cppweb/cppw_string.cpp:1499-1502 | the inner loops stop inside the range, with nothing above the pivot before one and nothing else after the other |
| Containers.SortedThrough | cppweb/cppw_string.cpp:1489-1518 | a partition and a sort of either side sort the whole range and permute it |
| Containers.CWStringList.Partition | cppweb/cppw_string.cpp:1495-1512 | in place, the pivot ends where nothing greater is before it and nothing else after it, and only the range is permuted |
| Containers.CWStringList.SortRange | cppweb/cppw_string.cpp:1489-1518 | the range ends ordered, is permuted, and nothing outside it moves |
| Containers.CWStringList.Sort | cppweb/cppw_string.cpp:1520-1523 | the list ends ordered in the direction asked for, with the texts it had |
| Containers.CWStringTable.AddRow | cppweb/cppw_string.cpp:1618-1624 | a blank row is added in every column, so the table stays rectangular |
| Containers.CWStringTable.AddCol | cppweb/cppw_string.cpp:1626-1635 | every row gets the default text at its end |
| Containers.CWStringTable.GetValue | cppweb/cppw_string.cpp:1654-1663 | the cell, or blank outside the table |
| Containers.CWStringTable.SetValue | cppweb/cppw_string.cpp:1673-1696 | one cell changes and no other, the table growing rectangularly when it may; without leave to grow nothing outside it is set |
| Containers.CWStringTable.SwapRows | cppweb/cppw_string.cpp:1744-1749 | two whole rows change places |
| Containers.CWStringTable.Partition | cppweb/cppw_string.cpp:1758-1776 | as for lists, by the key column, moving whole rows |
| Containers.CWStringTable.SortRange | cppweb/cppw_string.cpp:1751-1782 | the key column's range ends ordered and the rows of the range are permuted as tuples |
| Containers.CWStringTable.Sort | cppweb/cppw_string.cpp:1784-1787 | the key column ends ordered and the multiset of rows is what it was |
| SortedLists.SearchFinds | cppweb/cppw_string.cpp:1925-1965 | in an ordered list the recursive search finds an equal text exactly when a scan does, and otherwise the place that splits smaller from greater |
| SortedLists.InsertKeepsOrder | cppweb/cppw_string.cpp:1896-1910 | inserting there keeps the order, strict or not |
| SortedLists.InsertEqualKeepsOrder | cppweb/cppw_string.cpp:1896-1910 | inserting beside an equal text keeps the order |
| SortedLists.CWSortedList.Add | cppweb/cppw_string.cpp:1896-1910 | the list stays ordered, duplicates are told apart from new texts, and the text stands at the index returned unless the list is unique and had one |
| SortedLists.CWSortedList.Merge | cppweb/cppw_string.cpp:1912-1917 | every text is added, or in a unique list the first of equal ones |
| SortedLists.CWSortedList.Find | cppweb/cppw_string.cpp:1967-1970 | found exactly when an equal text is in the list |
| SortedLists.MergedIs | cppweb/cppw_string.cpp:1912-1917 | merging loses no text but for case, and a list that is not unique keeps duplicates |
| SortedLists.FindIs | cppweb/cppw_string.cpp:1243-1260 | the scan returns the first equal text, or -1 exactly when there is none |
| SortedLists.FindLoop | cppweb/cppw_string.cpp:1243-1260 | the loop returns what the scan does |
| SortedLists.IndexOneMore | cppweb/cppw_string.cpp:2147-2168 | one round of rebuilding keeps the positions a permutation ordered by text |
| SortedLists.FirstOneMore | cppweb/cppw_string.cpp:2147-2168 | in a unique index a new text adds its own position, a first occurrence |
| SortedLists.FirstKept | cppweb/cppw_string.cpp:2147-2168 | and an old one leaves the index covering every text so far |
| SortedLists.CWStringIndex.Rebuild | cppweb/cppw_string.cpp:2147-2168 | the positions become all of them ordered by text, or in a unique index exactly the first occurrences |
| SortedLists.CWStringIndex.Find | cppweb/cppw_string.cpp:2140-2145 | a unique index returns what the list's own `Find` returns, any index something exactly when that does |
| WordStats.SpaceOutReplaces | cppweb/cppw_string.cpp:740-751 | every character asked for becomes a separator exactly when the separator is not among them or none is left after the first |
| WordStats.SpaceOutStops | cppweb/cppw_string.cpp:740-751 | asked to replace blanks and commas in `a,b,c` it does not replace both commas |
| WordStats.StringToList | cppweb/cppw_string.cpp:689-704 | the loop gives the text's pieces (see `WordsBack`) |
| WordStats.RemoveEmpty | cppweb/cppw_string.cpp:762-764 | deleting from the end removes exactly the empty pieces |
| WordStats.StringToListExt | cppweb/cppw_string.cpp:734-765 | the loops leave the words of the text: replaced, deleted, cut, without empty ones |
| WordStats.WordsKeepCharacters | cppweb/cppw_string.cpp:734-765 | the words joined are the text without deleted characters and without separators, but for those after a terminator character |
| WordStats.EraseOne | cppweb/cppw_string.cpp:753-758 | taking out one character to delete does not change what is left after deleting |
| WordStats.NothingToErase | cppweb/cppw_string.cpp:753-758 | and a text without one is left as it is |
| WordStats.NoBlankInWord | cppweb/cppw_string.cpp:689-704 | no word holds a blank, except behind a terminator character |
| WordStats.WordsBack | cppweb/cppw_string.cpp:734-765 | words free of blanks, terminators and characters to replace or delete, with gaps of blanks and characters to replace before, between and after them, are given back in order |
| WordStats.WordsOfText | cppweb/cppw_string.cpp:734-765 | `a b a` has the words `a`, `b` and `a` |
| WordStats.CountWord | cppweb/cppw_string.cpp:1832-1837 | one word more keeps the counts aligned with the sorted words, each the number of equal words so far, and their sum the number of words |
| WordStats.CountAgain | cppweb/cppw_string.cpp:1834-1835 | counting a listed word again changes its count alone |
| WordStats.CountNew | cppweb/cppw_string.cpp:1836-1837 | a new word's count is inserted beside it and is 1 |
| WordStats.NotYet | cppweb/cppw_string.cpp:1836-1837 | a word no listed one equals has not occurred |
| WordStats.CountTokens | cppweb/cppw_string.cpp:1818-1840 | the loops count every word of every text |
| WordStats.CountText | cppweb/cppw_string.cpp:1853-1854 | the count with zeros before it up to seven characters |
| WordStats.FillColumns | cppweb/cppw_string.cpp:1846-1859 | no word is skipped, and the sum is that of all counts |
| WordStats.PaddedOrder | cppweb/cppw_string.cpp:1853-1862 | counts below 10^7 compare as texts as they do as numbers |
| WordStats.PaddingOrders | cppweb/cppw_string.cpp:1853-1862 | padded texts order all counts up to a bound exactly when the bound is below 10^7 |
| WordStats.TokensPermuted | cppweb/cppw_string.cpp:1815-1824 | counting the sorted column counts the same words as the column |
| WordStats.Shuffled | cppweb/cppw_string.cpp:1842-1862 | the rows report the same words in whatever order they stand |
| WordStats.CountsDescend | cppweb/cppw_string.cpp:1862 | sorted downwards by the padded column, the rows have the most frequent words first exactly when no two counts of the text are padded into the wrong order |
| WordStats.ShortCounts | cppweb/cppw_string.cpp:1853-1862 | counts below 10^7 never are |
| WordStats.PaddedOnce | cppweb/cppw_string.cpp:1853-1854 | different counts have different padded texts |
| WordStats.ManyWords | cppweb/cppw_string.cpp:1853-1862 | with 9999999 times one word and 10000000 times another, they are |
| WordStats.WordStats | cppweb/cppw_string.cpp:1811-1864 | exactly one row for each word whatever its case, with the number of its occurrences; the sum is the number of words; most frequent first exactly when no two counts are padded into the wrong order, so whenever every count is below 10^7; false exactly without such a column |
| WordStats.AllTextsCount | cppweb/cppw_string.cpp:1815-1816 | without the unique flag every text of the column is counted |
| Chunked.DecodeChunkedContent | cppweb/cppw_sock.cpp:344-356 | the erasing loops compute the decoding function and end, each round shortening the buffer |
| Chunked.SizeRead | cppweb/cppw_sock.cpp:349-351 | a size line, its digits followed by an extension or not, is read as the chunk's size |
| Chunked.SpellsRead | cppweb/cppw_sock.cpp:352 | digits are read as the number they spell in base 16, and as no other |
| Chunked.StrtolReads | cppweb/cppw_sock.cpp:352 | blanks, a sign, a 0x before a digit, and the number the digits spell kept within a long; what follows does not matter |
| Chunked.StrtolNone | cppweb/cppw_sock.cpp:352 | without a digit the size is 0 |
| Chunked.OneChunk | cppweb/cppw_sock.cpp:347-355 | one round turns size line, data and line end into the data, whatever bytes the data has |
| Chunked.KeepsBefore | cppweb/cppw_sock.cpp:347-355 | going only ahead, the decoder keeps everything before its place |
| Chunked.TrailersVanish | cppweb/cppw_sock.cpp:347-355 | where no end of a trailer line reads as a negative size, the trailers are erased exactly when each reads as 0 |
| Chunked.LastVanishes | cppweb/cppw_sock.cpp:347-355 | after lines that read as 0, the last one is erased exactly when it does too, whatever it reads as otherwise |
| Chunked.JumpBack | cppweb/cppw_sock.cpp:347-355 | going back into the data takes out more than the line end that was left |
| Chunked.DecodeNoTrailers | cppweb/cppw_sock.cpp:344-356 | without trailers decoding always gives the chunks' concatenation |
| Chunked.DecodeEncode | cppweb/cppw_sock.cpp:344-356 | decoding the chunked form (section 7.1 of RFC 9112) of any non-empty chunks with any trailer lines gives the chunks' concatenation exactly when every trailer line reads as the size 0; where a line before the last does not, for trailers no end of which reads as a negative size |
| Chunked.TrailerLeft | cppweb/cppw_sock.cpp:349-351 | the body of an empty message with the field `Date: x` does not decode to nothing |
| Chunked.TrailerErased | cppweb/cppw_sock.cpp:349-351 | with the field `X: y` it does |
| Chunked.JumpMadeUp | cppweb/cppw_sock.cpp:349-354 | with the lines `2` and `ab-2` it does too, although the first reads as 2 |
| Routes.DottedPrefix | kitchen-base/source/methods_page.js:23-32 | among dot-free names a dotted route begins with another exactly where its names do |
| Routes.NotBelow | kitchen-base/source/methods_page.js:77-86 | a route of as many names does not begin with another and its dot, so a rewritten reference is not rewritten again |
| Routes.RewriteRoute | kitchen-base/source/methods_page.js:77-86 | rewriting a route replaces the old route's names where it begins with them and leaves it alone otherwise |
| Routes.BelowByRoute | kitchen-base/source/methods_page.js:77-86 | with distinct routes, a page's route begins with another's names exactly when it stands below that page |
| Routes.NamesRenamed | kitchen-base/source/methods_page.js:23-32 | renaming a page changes one name in its own route and in those below it, and no other route |
| Routes.RefFollows | kitchen-base/source/methods_page.js:68-90 | rewriting the route of any page gives that page's route after the renaming |
| Routes.UpdateShape | kitchen-base/source/methods_page.js:68-90 | the traversal rewrites every text of every object below the root once and changes nothing else |
| Routes.RenameShape | kitchen-base/source/methods_page.js:68-90 | the renaming keeps every property where it is |
| Routes.RenameKeepsReferences | kitchen-base/source/methods_page.js:68-90 | a route property holding a page's route before `updateRefs` and the renaming holds that page's route afterwards |
| Routes.UpdateTouches | kitchen-base/source/methods_page.js:76-88 | at every place of every object, exactly the route properties below the root that hold the old route or begin with it and a dot change, to the new route with what followed; every other property is what it was |
| Routes.RenameTouches | kitchen-base/source/methods_page.js:68-90 | so does renaming a page |
| Routes.PlainTextStays | kitchen-base/source/methods_page.js:77 | a text of another subtype that is the page's name stays |
| Routes.FoundIs | kitchen-base/source/kitchen-base.js:627-631 | what the lookup by route finds is a page with that route |
| Routes.NotMissed | kitchen-base/source/kitchen-base.js:627-631 | and no page with that route is missed |
| Routes.FindsPage | kitchen-base/source/kitchen-base.js:627-631 | with distinct routes a page is found under its own route and no other |
| Routes.RenameKeepsLookups | kitchen-base/source/methods_page.js:68-90 | with distinct routes before and after, a route property under which a page was found finds the same page afterwards |
| Pages.KBaseObject.UpdateOwn | kitchen-base/source/methods_page.js:76-88 | the callback rewrites an object's own route properties and no other |
| Pages.KBaseObject.UpdateBelow | kitchen-base/source/kitchen-base.js:573-596 | the recursion over linked objects visits each object below exactly once |
| Pages.KBaseObject.GetRoot | kitchen-base/source/kitchen-base.js:342-348 | the first object of the chain of parents |
| Pages.KBaseObject.GetRoute | kitchen-base/source/methods_page.js:23-32 | the dotted names of the pages above, and the name asked for |
| Pages.KBaseObject.UpdateRefs | kitchen-base/source/methods_page.js:68-90 | the tree under the root becomes the one with the page's route under the old name, its own without one, rewritten to its route under the new name, or cleared without one; no other property of any object changes |
| Pages.OwnRoute | kitchen-base/source/methods_page.js:23-32 | the route found by walking up is the page's route in the tree, now and under another name |
| Kitchen.SavedMember | kitchen-base/source/kitchen-base.js:478-505 | the saved object shows a property exactly when it was not left out, with its saved value |
| Kitchen.SavedType | kitchen-base/source/kitchen-base.js:478-505 | the property called type is never left out |
| Kitchen.SavedShows | kitchen-base/source/kitchen-base.js:478-505 | which properties each level of simplification leaves out, and what is shown of the others: a value equal to its default, and with full simplification an object equal to a new one, an empty array, an empty JSON object without default |
| Kitchen.DefaultIs | kitchen-base/source/kitchen-base.js:459-476 | an object equals what its class creates exactly when it equals one that loaded nothing |
| Kitchen.UnderscoredIs | kitchen-base/source/kitchen-base.js:818-822 | a gas type's dashes become underscores and nothing else changes |
| Kitchen.GasPicks | kitchen-base/source/kitchen-base.js:810-833 | a gas element of type `text-box` becomes a `gas_text_box` where there is that class |
| Kitchen.DefaultLoads | kitchen-base/source/kitchen-base.js:459-476 | an object equal to what its class creates is what loading nothing gives |
| Kitchen.ValueBack | kitchen-base/source/kitchen-base.js:478-533 | a property's value comes back, saved or left out, exactly when its items are kept |
| Kitchen.ItemBack | kitchen-base/source/kitchen-base.js:776-843 | an item comes back exactly when its class, or its being none, is picked again |
| Kitchen.LoadSaved | kitchen-base/source/kitchen-base.js:507-533 | loading anything that shows the saved members gives the object back exactly when its items are kept |
| Kitchen.SaveLoad | kitchen-base/source/kitchen-base.js:478-533 | at every level of simplification, loading what was saved into a fresh object of the class gives an equal object exactly when every item is kept |
| Kitchen.ClassIsLost | kitchen-base/source/kitchen-base.js:810-826 | a component whose type names another class is not loaded back |
| Kitchen.PlainIsLost | kitchen-base/source/kitchen-base.js:829-842 | neither is a plain item of an array with a class |
| Kitchen.FreshLoads | kitchen-base/source/kitchen-base.js:233-266 | a new object and one that loaded nothing are equal, whatever they share |
| Kitchen.FreshShows | kitchen-base/source/kitchen-base.js:237-246 | of a property of type object or array without a default, plain simplification keeps a new object's value and leaves out one loaded from nothing |
| Kitchen.StartsWith | kitchen-base/source/kitchen-base.js:233-266 | what a property starts with: its default where it has one that counts as true, else false, 0, an empty text, object or array |
| KitchenObjects.KBaseObject.Create | kitchen-base/source/kitchen-base.js:121-127 | a new object in fresh memory, with the initial values of its class all the way down |
| KitchenObjects.KBaseObject.AddProperty | kitchen-base/source/kitchen-base.js:233-266 | a property starts as a new object, a new array, its default by reference when one is given, or a new value of its type |
| KitchenObjects.KBaseObject.Clear | kitchen-base/source/kitchen-base.js:448-457 | in place, the object becomes what its class creates, whatever it held |
| KitchenObjects.KBaseObject.Load | kitchen-base/source/kitchen-base.js:507-533 | in place, the object becomes what loading a fresh one gives, whatever it held, and its parts stay separate in memory |
| KitchenObjects.KBaseObject.EqualsDefault | kitchen-base/source/kitchen-base.js:459-476 | true exactly when the object equals what its class creates, all the way down |
| KitchenObjects.KBaseObject.Save | kitchen-base/source/kitchen-base.js:478-505 | the loop writes the members of the saved form, in order, and changes no object |
| KitchenObjects.KBaseObject.CloneFrom | kitchen-base/source/kitchen-base.js:535-537 | the object becomes equal to the other exactly when every item of that is kept |
| KitchenObjects.KBaseArray.Clear | kitchen-base/source/kitchen-base.js:752-754 | the array is emptied and keeps its item type |
| KitchenObjects.KBaseArray.Load | kitchen-base/source/kitchen-base.js:797-844 | each item becomes a new object of the class it picks, or stays a plain value, in order |
| KitchenObjects.KBaseArray.Save | kitchen-base/source/kitchen-base.js:776-795 | each item's saved form in order, with its class where that is not the array's own |

## Left out

- Apply.PatchImage.FromStr: the newline search is bounded by the end of the source, which is what is meant; the code passes the whole length at every line.
- Apply.PatchImage.InsertNull: the gap's empty slots are modelled as empty texts; every one is overwritten before it is read.
- Apply.ApplyHunk: a hunk whose lines the patch does not hold fails as a whole; failures of allocation are not modelled.
- Apply.ReversedRestores: asks also that the headers name the old side's places, which the forward direction does not look at.
- AttrParse.Parse: the assignments' own reference counts and failures of allocation are not modelled; the vector starts empty, as every caller passes it.
- AttrLookup.AttrForeach: the callback is a function from the call's number to its answer.
- Chunked.DecodeEncode: says nothing of several trailer lines of which one before the last does not read as 0 while some end of a line reads as a negative size: either may happen (`JumpMadeUp`); the total length stays below 2^64 - 2^31.
- HtmlNode.CWNode.DetachNode: the search goes over the direct children, which is where `Flatten` uses it, not below them.
- HtmlNode.CWNode.ParseTag: the tokens are values with their first character and text, not positions into the input; beyond 1024 tokens, or for a text of length -1, the code's behaviour is undefined and the model says so.
- HtmlRoundTrip.DocumentRoundTrip: the flag NewLineAfter, and Void on self-closing nodes, are not in the minified text and come back as their defaults; SpaceAfter comes back as its default too, its blank as text.
- Levenshtein.LevenshteinDist: says nothing of two empty strings, for which the code returns an element it never set; the unsigned counters do not wrap.
- JsonRoundTrip.ObjectRoundTrip: leaves out trees with floats, whose printed form loses digits.
- JsonRoundTrip.CopyFrom: nodes are values, so the freeing of what the copy held is not modelled.
- JsonText.Stringify: a float prints as spelled, while the code prints six decimals.
- HtmlNode.CWNode.Parse: only XML mode, without script, style and markdown.
- HtmlNode.CWNode.GetHTML: only the minified layout.
- Containers.CWStringTable.AddCol: the column's name is not modelled.
- Json.ReadNumber: integers are unbounded, while `atoi` overflows; a float keeps its spelling.
- Kitchen.SaveLoad: equality is of the trees, not of references; a property's falsy default is what its type creates, as in every declared class; the special case of `query.filter` and `query.options` is not modelled, nor are saved ids.
- KitchenObjects.KBaseObject.Save: saved ids are not modelled.
- KitchenObjects.KBaseArray.Save: saved ids are not modelled.
- KitchenObjects.KBaseArray.Load: loaded ids are not modelled; a gas item whose type is no string, for which the code throws, is taken for an item of the array's own class; so is an item naming `base_array`, of which the code makes an array where that class is registered.
- KitchenObjects.KBaseObject.Load: loaded ids and the special case of queries are not modelled; JSON values held by properties are values, so changing one through another property that shares it is not modelled beyond the note of which are the default itself.
- KitchenObjects.KBaseObject.Create: the kitchen's classes are given as a finite table in which an object property's class is made before its owner's.
- Routes.RenameKeepsReferences: routes are taken to mean themselves as regular expressions and replacements; properties of the root itself are not visited by the code and not promised.
- Pages.KBaseObject.UpdateRefs: nothing keeps an array in the tree from holding a route property, which the model would rewrite; arrays in the code have no such properties.
- Strings.Find: case-insensitive and whole-word search are not modelled.
- Strings.ReplaceSubString: case-insensitive and whole-word search are not modelled; replacing the empty string changes nothing.
- WordStats.WordStats: the columns' names are not modelled; counts are unbounded.
- SortedLists.CWSortedList.Merge: says which texts are kept, not in which order equal ones stand.
- AttrCache.RunSafe: the cache is alive throughout; flushing and freeing it, failures of allocation, and which files are stale or fail to load are choices of the environment or absent.
- AttrCache.RunProgress: progress of some thread, not fairness.
- Which attribute files are collected and whether a rule's pattern matches a path are inputs of the queries.
- Config and system-directory lookup, `apply_binary`, and everything else of libgit2.
- Files, sockets, processes, git and terminal code of `cppweb`; the rest of `cppw_sock.cpp`.
- JavaScript, Meteor and SimpleSchema print modes of JSON, YAML, and merging of objects.
- HTML parsing with script, style and markdown, the indented layout, JSX and Jade.
- UTF-8 decoding, URL encoding, float formatting, and locale in `strcasecmp` and `tolower`.
- `findObject` with callbacks that stop it, `getURL`, undo and redo, the GUI, the router and the server.
- Table operations beyond rows, columns, cells and sorting; `FindSimilar`.
