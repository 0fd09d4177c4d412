# unshield, verified

A Dafny model of the parts of unshield that have the hardest properties, with proofs. unshield reads
InstallShield cabinets: a set of volumes in which a file may be cut at the edges of volumes, obfuscated
byte by byte, and compressed in one of two framings. The model covers

* the stateful reader that delivers the bytes of a file across volumes and takes the obfuscation off
  (`Cabinet`, `Obfuscation`, `Reader`);
* the three ways to save a file (length-framed, raw, and with chunks that end in markers), first as
  functions of the volumes and of the descriptor (`SaveLoops`, `Outcomes`, `OldChunks`, `Search`,
  `Unpacking`, `OldSaves`, `Unsearchable`), then as the loops over buffers of the source, which are proved to
  compute those functions (`Extraction`, `OldExtraction`), then as operations on a set of volumes with its cache of
  descriptors, links followed (`Unshield`), and then as whole runs of such operations (`Session`);
* exactly when a save succeeds for a file in any number of volumes (`Boundaries`), what it leaves in the
  cached descriptor (`Leaves`, `Openings`), and what that means for a second save (`SecondSaves`, `Overrun`,
  `Straying`), and what saves make of cabinets that are written out byte by byte, in numbers and without naming
  the functions of the reader (`Packing`, `Outside`), one by one and in whole runs (`PackedRuns`);
* the incremental MD5 hasher that a save checks its output with, against the definition of sections 3.1
  to 3.5 of RFC 1321 and the digests that its section A.5 lists (`Md5Transform`, `Md5`, `Rfc1321`);
* the converter between UTF-8 and UTF-16, against section 4 of RFC 3629 and sections 2.1 and 2.2 of
  RFC 2781, what it writes when there is too little room, and the caller that sizes its buffer (`Unicode`,
  `Transcoding`, `ShortRoom`, `Converter`, `HeaderStrings`);
* the vendored scanner of command lines that rotates its arguments lazily between calls, and what it makes
  of command lines that are written out from options and words (`Arguments`, `Getopt`, `Rendering`).

Operations that change state in the source are methods that change state here: readers, descriptors,
digests and the scanner are classes with the fields of the source, and buffers and argument vectors are
arrays that are changed in place. Each method is proved against a function of the old state, and what
the source promises is proved about that function. Counters have their widths: 32 bits for what is left
of a volume or of a file, 64 for totals, and they go round where those of the source do.

A volume that can be opened and whose headers can be read is an entry of a map from volume numbers to
headers and bytes. Inflating is a parameter: any partial function whose outputs fit the 64 KiB buffer.
The output file is an object that may not open and that has room for so many bytes only.

What came out where the code does less than one might think:

* A read that starts at the very end of a piece fails, even if the next volume goes on. A file is
  therefore lost to `unshield_file_save` and `unshield_file_save_raw` whenever a buffer, a length or a
  payload happens to start where a volume ends; `Boundaries.SaveExactly` and `Boundaries.RawExactly` say
  exactly when, and `Boundaries.FullBufferBeforeEnd` gives a cabinet of two volumes with a whole file, of
  the right size and digest, for which that happens and which `unshield_file_save_old` does save.
* A save may change what a second one of the same file does, in cabinets of version 5. Reading on into
  another volume can set the split flag of the cached descriptor, and a file that is split is looked for in
  another place: `Overrun.FirstFailsSecondSucceeds` gives a cabinet, with bytes that raw DEFLATE rejects and
  accepts, for which the first save fails and the second succeeds. And a search that goes on to a volume which
  says nothing of the file keeps the count of the volume before, which a later search has not:
  `Straying.FirstSucceedsSecondFails` gives cabinets for which the first save succeeds and the second fails.
  `Openings.LeavesExactly` says exactly when a save leaves just what its search does, and
  `SecondSaves.SaveAgain` what a second save then comes to.
* The search for the marker in old data cuts the length that it goes on with by one at each candidate, not
  by what it skipped. It reads only what it was given exactly if the marker occurs there, or if no zero byte
  comes behind another byte where the marker would still have room (`Search.StaysExactly`).
  `Unsearchable.SearchLeavesPiece` shows that any piece for which neither is so can be the piece of a file,
  and `Unsearchable.FiveBytesLeave` is one.
* With too small a buffer, the converter leaves out codepoints that do not fit and goes on with shorter
  ones behind them, so that the output may have a gap. It is the front of the whole output exactly if nothing
  behind the first codepoint that does not fit would fit in its place (`ShortRoom.ShortOutputIsFront`); a
  euro sign and a letter in two octets come out as the letter (`ShortRoom.GapIn8`).
* Operands in front of `--` are not permuted to behind it: the scanner stops with its index behind the
  dashes, and they stay in front (`Getopt.OperandsBeforeDashes`).

## Model

| member | source | states |
|---|---|---|
| Obfuscation.Deobfuscate | lib/file.c:499-509 | the loop in place turns the first `size` bytes into their plain form for the seed, leaves the others, and hands back the seed for the next byte |
| Obfuscation.ByteInverse | lib/file.c:30-31 | xor with 0xd5, rotation and subtraction of seed mod 71 are undone by addition, rotation the other way and xor, and the other way round |
| Obfuscation.BytesInNumbers | lib/file.c:499-509 | in numbers: xor with 0xd5, the two low bits to the top, and what the seed leaves modulo 71 taken off; and the other way round |
| Obfuscation.PlainIsBijection | lib/file.c:499-509 | removing the obfuscation is a bijection on byte strings for every starting seed |
| Obfuscation.PlainSplit | lib/file.c:499-514 | any cut, with the 32-bit seed carried across, gives the same as the whole at once |
| Obfuscation.PlainPiecesIsPlain | lib/file.c:499-514 | so does any number of consecutive pieces |
| Cabinet.FlagsAfterEvolve | lib/file.c:418-435 | opening a volume only ever sets the split flag, does nothing once it is set, and does the same when repeated |
| Cabinet.EvolvedFlags | lib/file.c:418-435 | so the flags for obfuscated, compressed and invalid stay what they are |
| Cabinet.FlagsInNumbers | lib/libunshield.h:118-121 | split, obfuscated, compressed and invalid are the digits of the flags for 1, 2, 4 and 8, and marking as split adds 1 where it is missing |
| Cabinet.LinkedInNumbers | lib/cabfile.h:60-61 | a file has a previous link if and only if its link flags are odd |
| Cabinet.DeliverIsStream | lib/file.c:516-576 | a read of n bytes succeeds if and only if n > 0, it does not start at the end of a piece and the stream over complete, nonempty later pieces has n more bytes; it delivers those and leaves the rest |
| Cabinet.TakeIsStream | lib/file.c:516-585 | the same for the plain stream, with the seed carried from read to read |
| Cabinet.TakeReaches | lib/file.c:566-575 | a read that succeeds leaves in front a piece whose flags are those of the last piece that it opened |
| Cabinet.RunIsPrefix | lib/file.c:516-585 | over any run of successful reads of any sizes, the results are a prefix of the plain stream in order, and what is left is the rest of it |
| Reader.Reader.OpenVolume | lib/file.c:308-497 | the whole new state of the reader and of the flags: where the volume has the file, with the split flag found in the headers of version 5, or no change but the open file when it says nothing of it |
| Reader.Reader.ReadBytes | lib/file.c:544-551 | the bytes that the volume still has, up to n, arrive in the buffer, and nothing else in it changes |
| Reader.OpenedFollows | lib/file.c:437-496 | after the next volume is opened at the end of a piece, what is ahead are the pieces `Following`, or nothing that can be read where the volume says nothing of the file |
| Reader.Reader.OpenNext | lib/file.c:566-575 | going on to the next volume loses and adds nothing of what the rest of the read delivers |
| Reader.Reader.ReadPieces | lib/file.c:527-576 | the loop delivers and leaves what `Deliver` gives for the pieces ahead, fails where that gives nothing, and leaves the flags of the last piece that it opens (`Reached`), on failure too |
| Reader.Reader.Read | lib/file.c:516-585 | the same with the obfuscation removed, as `Take` gives it |
| Reader.Create | lib/file.c:673-717 | the search for the volume ends at the cursor, flags and volume that `Start` gives, or fails where that gives nothing; the descriptor is left as `Searched` says, on failure too |
| Reader.StartEvolves | lib/file.c:687-707 | the search only sets the split flag, goes forward, and ends in a volume that does not come before the file |
| Reader.StartAgain | lib/file.c:687-707 | starting again from where a search ended ends there at once: at the same cursor where the volume has a piece of the file, and otherwise with nothing left in front |
| Reader.SearchMoves | lib/file.c:687-707 | a search that goes on does not come back to where it started, also when the volume number goes round at 2^16 |
| Reader.StartHere | lib/file.c:687-707 | starting again from where a search both started and ended ends at the same cursor, whatever the volume says |
| SaveLoops.FramesUnique | lib/file.c:815-835 | bytes can be read in one way only as frames, each a payload of 1 to 65535 bytes behind its length in two bytes, the low one first |
| SaveLoops.NumberRead | lib/file.c:822 | two bytes are read as n if and only if they are n mod 256 and n div 256 |
| SaveLoops.FramesAreStream | lib/file.c:804-862 | the frames that the loop reads are valid, inflate, are the front of the plain stream, and their lengths add up to the counter modulo 2^32 |
| SaveLoops.FramesStopFirst | lib/file.c:804-862 | the loop stops at the first place where they do |
| SaveLoops.CopiedIsStream | lib/file.c:1038-1059 | the copying loop copies the front of the plain stream, as long as counted |
| SaveLoops.CopiedWhole | lib/file.c:1038-1059 | from one piece it succeeds if and only if the piece is complete, and copies it |
| SaveLoops.FramesWhole | lib/file.c:804-862 | from one piece the framing loop succeeds with frames if and only if those are valid and are the whole piece |
| SaveLoops.SaveAndRawAgree | lib/file.c:1038-1059 | from one piece, where the framing loop succeeds the copying loop does, and copies those frames |
| SaveLoops.CopiedAreFrames | lib/file.c:1038-1059 | from any number of pieces, where both loops succeed on a stream shorter than 4 GiB, the copying loop copies the frames that the framing loop reads, and nothing else |
| Boundaries.DeliverEnds | lib/file.c:527-545 | what a read leaves has its piece ends where they were |
| Boundaries.CopiedExactly | lib/file.c:1038-1059 | the copying loop succeeds if and only if the stream is long enough and no 64 KiB step starts at the end of a piece |
| Boundaries.FullBufferBeforeEnd | lib/file.c:532-542 | two volumes of version 6, with any bytes as headers, 64 KiB of an uncompressed file in the first and less in the second, size and digest right: neither `unshield_file_save` nor `unshield_file_save_raw` saves it, and `unshield_file_save_old` writes all of it |
| Boundaries.FramesExactly | lib/file.c:804-862 | the framing loop reads given frames if and only if they are valid, are the front of the stream, bring the 32-bit counter to zero behind the last and not before, and no length or payload starts at the end of a piece |
| Boundaries.SaveExactly | lib/file.c:733-932 | `SaveOutcome` is a given output if and only if the reader finds the file, its pieces hold frames or bytes for that output in the sense of `FramesExactly` and `CopiedExactly`, and size and (from version 6) MD5 are right |
| Boundaries.RawExactly | lib/file.c:976-1069 | `RawOutcome` is a given output if and only if the reader finds the file and its pieces can be copied in the sense of `CopiedExactly`; nothing is checked |
| Boundaries.SaveThenOld | lib/file.c:1281-1304 | an uncompressed file that a save writes is written by an old save too, and the same |
| Outcomes.SavedRound | lib/file.c:804-895 | `Saved`, what the framed or the copied loop writes, is what one `Round` writes and then `Saved` of what the round leaves, or nothing where the round gives up |
| Outcomes.RoundShrinks | lib/file.c:804-895 | every round that does not give up brings the end of the stream nearer, whatever the wrapping counter does, so that the loop ends |
| Outcomes.SaveIsWhole | lib/file.c:797-921 | a save that succeeds has written expanded_size bytes with the right digest: what frames at the front of the plain stream inflate to, or the front of that stream |
| Leaves.RoundReaches | lib/file.c:566-575 | what is ahead after a round has the flags of the last volume that the round opened |
| Leaves.LoopStep | lib/file.c:804-895 | the flags that the loop leaves (`LoopReached`) are those of the first round that gives up or finds no room, and otherwise those that the loop leaves from the state after the round |
| Leaves.RoomUsed | lib/file.c:885-892 | room in the output that a round does not use is there for what follows, and a round that needs more than there is ends the loop |
| Leaves.OldRoomUsed | lib/file.c:1268-1277 | the same for an old save |
| Leaves.RoomEnough | lib/file.c:804-895 | with room for all that is saved, the flags left are those of a save that throws its output away |
| Openings.ReachedTwice | lib/file.c:566-575 | two reads, the second not from the end of a piece, go as far as one read of both lengths |
| Openings.ReachedExactly | lib/file.c:527-576 | reads of n bytes leave the flags unchanged if and only if no piece has others among those in front of which all pieces are complete, not empty, and shorter than n together |
| Openings.LoopFar | lib/file.c:804-895 | the flags that the loop leaves are those of the last piece of which it asks for a byte, over any number of rounds, however it ends |
| Openings.LeavesExactly | lib/file.c:418-435 | a save, and a raw save, of a valid file leaves just the entry that its search does if and only if there is nothing to read or it asks for no byte of a volume that shows the file to be split where that was not known |
| SecondSaves.SearchAgain | lib/file.c:685-707 | from the entry that a search leaves, the next search leaves that entry as it is; it gives the same stream, or, where the first search went on to a volume that says nothing of the file (`Strays`), one from which nothing can be read |
| SecondSaves.LoopFlags | lib/file.c:418-435 | where all pieces come with the same flags, the loop leaves those, however it ends |
| SecondSaves.LeavesSearched | lib/file.c:418-435 | a save leaves just the entry that its search does if no further volume can show that the file is split, however the save ends; and if it succeeds on a stream that is not compressed or shorter than 4 GiB |
| SecondSaves.SavesFromSearched | lib/file.c:685-707 | from the entry that a search leaves, `SaveOutcome` and `RawOutcome` are what they were before, but for a search that has strayed: then they are nothing, unless the file is empty |
| SecondSaves.SaveAgain | lib/file.c:733-932 | after a save that left just the entry of its search, a second save and a second raw save have the outcome that they would have had first, or nothing where the search has strayed and the file is not empty; the entry stays |
| SecondSaves.OldLeavesSearched | lib/file.c:1126-1324 | an old save leaves just the entry that its search does where no volume that it may open can show that the file is split, however it ends, inside or outside of the cabinet |
| SecondSaves.SaveAfterOld | lib/file.c:1092-1324 | after such an old save, a save and a raw save have the outcomes of `SavesFromSearched`; an old save has the outcome that it would have had first, and leaves the same entry, unless the search has strayed |
| SecondSaves.SaveAndRaw | lib/file.c:976-1069 | where a save and a raw save of a file both succeed, in any number of volumes, the raw save writes valid frames whose inflated payloads are the output of the save, or for an uncompressed file that output |
| SecondSaves.SaveThenRaw | lib/file.c:976-1069 | for a file with no volume behind the one where its search ends, a raw save after a save that succeeded succeeds, and they agree as in `SaveAndRaw`, unless the search has strayed |
| Overrun.FirstFailsSecondSucceeds | lib/file.c:418-435 | two volumes of version 5 and a file whose first frame goes on behind what the descriptor counts: a first save fails on a payload that raw DEFLATE rejects and leaves the file marked as split, and a second save, from that entry, reads another payload from elsewhere and succeeds |
| Overrun.OverrunningExists | lib/file.c:418-435 | there are such volumes, with any 60 bytes as headers |
| Straying.SearchStrays | lib/file.c:437-476 | two volumes of version 5, of which the second ends in the file, shows that it is split and has no place for it: the search goes from the first to the second and keeps the count of the first |
| Straying.FirstSucceedsSecondFails | lib/file.c:685-707 | for any contents behind the headers of the second, a first save writes them and succeeds, and a second save, from the entry that the first has left, fails |
| Straying.StrayingExists | lib/file.c:437-476 | there are such volumes, with any 60 bytes as headers |
| Extraction.Output.Write | lib/file.c:885-892 | as many bytes as there is room for are added to the output |
| Extraction.SaveRound | lib/file.c:804-876 | one round over real buffers writes, and leaves of reader and counter, what `Round` gives, and fails where that gives nothing; the flags are `RoundReached` |
| Extraction.SaveFrame | lib/file.c:809-862 | the same for a frame, with the zero byte behind the payload, that is `Round` of a compressed file |
| Extraction.SaveStep | lib/file.c:804-895 | a round adds the bytes of `Round` to the digest and to the output alike, and succeeds only if all of them fit |
| Extraction.SaveLoop | lib/file.c:804-895 | the loop ends; digest and output are `Saved`, the flags left `LoopReached`, and the total is the length modulo 2^64 |
| Extraction.CheckAll | lib/file.c:897-921 | the checks pass if and only if size and (from version 6) the one-shot MD5 of all that was written are those of the descriptor |
| Extraction.SaveAll | lib/file.c:797-921 | succeeds if and only if `Saved` is something, `Checks` holds of it, and there was room; the output is then `Saved` |
| Extraction.RawLoop | lib/file.c:1031-1061 | the raw loop ends, writes `Copied`, fails where that is nothing or finds no room, and leaves the flags `LoopReached` |
| Extraction.OpenReader | lib/file.c:774-785 | what is ahead of the reader is the source of `Begin`, or there is no reader where that is nothing, also for a file that is not in the cabinet; the entry is left as `Searched` says |
| OldChunks.NoOverlap | lib/file.c:33 | two markers never overlap |
| OldChunks.OddInNumbers | lib/file.c:1225 | the bit that is tested behind a marker is the remainder modulo 2 |
| OldChunks.MarkerInBytes | lib/file.c:33 | a marker is just the bytes 00 00 ff ff |
| OldChunks.JoinedAgain | lib/file.c:1199-1265 | splitting loses nothing: the chunks joined with markers are what was split |
| OldChunks.FirstChunk | lib/file.c:1199-1240 | the first chunk found in a chunk, the bytes 00 00 ff ff and anything is that chunk if and only if it holds no such four bytes but in front of a byte that is 1 modulo 2, none reach over its end, and what follows starts with no byte that is 1 modulo 2 |
| OldChunks.SplitAgain | lib/file.c:1199-1265 | splitting joined chunks gives them back if and only if each is unbroken and none after the first starts with an odd byte |
| Search.StaysExactly | lib/file.c:1071-1090 | for every buffer and pattern, the search reads nothing but what it was given if and only if the pattern occurs there, or its first byte never comes behind another byte where the pattern would still have room |
| Search.SkippedLeaves | lib/file.c:1071-1090 | once something was skipped, a search that finds nothing stays inside only if it gives up at the very next candidate |
| Search.FirstByte | lib/file.c:1076 | the first place of the byte within the given length, or none |
| Search.FindBytes | lib/file.c:1071-1090 | wherever the search stays inside, it returns the first place where the pattern occurs, or NULL if it occurs nowhere |
| Unpacking.EndFromMarker | lib/file.c:1199-1240 | the end of a chunk is the next marker, or from behind that one when an odd byte follows |
| Unpacking.EndedIsSearchable | lib/file.c:1199-1240 | where a chunk does end, every search for its end reads only the piece, whatever is behind it |
| Unpacking.UnpackedInOrder | lib/file.c:1199-1277 | chunks from the front of the piece are unpacked in order up to the one where the 32-bit count of bytes to come is zero, and the count goes down by what they unpack to; if it is not zero at the end, they are the whole piece |
| Unpacking.UnpackedAll | lib/file.c:1199-1277 | chunks that can be told apart and come to no more than counted are all unpacked; where they come to just that, bytes behind them that start with no odd byte do no harm |
| OldSaves.ReopenedStream | lib/file.c:1166-1171 | going on to the next volume at the end of a piece changes nothing in the stream, and a reader that is then not ready has nothing left |
| OldSaves.OldCopies | lib/file.c:1281-1304 | an uncompressed file is saved if and only if the stream is long enough, wherever volumes end |
| OldSaves.OldSavedIsChunks | lib/file.c:1161-1278 | what is written is what chunks at the front of the plain stream unpack to, and its length is the counter modulo 2^32 |
| OldSaves.HeldIsSaved | lib/file.c:1161-1278 | pieces that are rows of chunks that can be told apart and that unpack to the counted length are saved whole, across volumes and obfuscation, with any bytes behind the last of them that start with no odd byte |
| OldSaves.ExternalIsRepaired | lib/file.c:629-655 | a compressed file outside of the cabinet that lost up to four bytes of its last marker is read as it was |
| OldSaves.ExternalExactly | lib/file.c:629-655 | for every descriptor and every file outside of the cabinet: the reader starts at its front, behind it come as many bytes from the end of 00 00 ff ff as it is short of the compressed size, at most four, and the count is that length, or the size in the descriptor, in 32 bits |
| OldSaves.OldSaveIsWhole | lib/file.c:1161-1314 | an old save that succeeds has written expanded_size bytes: what chunks at the front of the plain stream unpack to, or the front of that stream |
| OldSaves.HeldFileIsSaved | lib/file.c:1092-1324 | `OldOutcome` of a compressed file that was written as rows of such chunks is what all of them unpack to |
| Packing.PackedBegins | lib/file.c:673-785 | a file that is laid out over volumes as headers and descriptor say in numbers, known to be split or shown to be by either end of a header of version 5, or whole in one volume, is found with just those parts, also behind earlier volumes |
| Packing.PastHeaders | lib/file.c:437-472 | a volume with no place for a split file is open behind 60 bytes of headers, 84 from version 6 on, with the earlier count, and reading that goes on there finds nothing |
| Packing.RawOfPacked | lib/file.c:976-1069 | a raw save of such a file, obfuscated or not, writes the contents that were packed if no part ends where a multiple of 64 KiB starts, and fails otherwise |
| Packing.SaveOfPacked | lib/file.c:733-932 | so does a save of one that is not compressed, if the digest is right |
| Packing.SaveOfFramed | lib/file.c:733-932 | a save of a compressed one, of nonempty payloads of any length below 64 KiB behind their two length bytes, writes what the payloads inflate to if size and digest are right and no part ends where a length or a payload starts, and fails otherwise |
| Packing.FramesOnly | lib/file.c:804-862 | the framing loop reads no other frames than those at the front of the stream |
| Packing.OldOfPacked | lib/file.c:1281-1304 | an old save of one that is not compressed writes the contents, wherever parts end |
| Packing.OldOfChunks | lib/file.c:1092-1324 | an old save of a compressed one whose parts are rows of separable chunks, each with the bytes 00 00 ff ff behind it, writes what all chunks unpack to |
| Packing.RawAcrossEdge | lib/file.c:437-467 | for example, of two volumes of version 6 with any headers, any file in front and any behind, a raw save reads the first part of the file across the edge from the offset of the last file in the first header and the second from that of the first file in the second header, exactly if the first part is no multiple of 64 KiB |
| Packing.UnplacedNotSaved | lib/file.c:469-473 | a split file of which the volume in its descriptor says nothing is not saved, unless there is nothing to save |
| Packing.UnplacedOld | lib/file.c:1166-1171 | an old save goes on from there with volume 1, and writes the file if that is where it is packed |
| Outside.OutsideBegins | lib/file.c:1126-1142 | where the volume is as long as the offset that the descriptor gives, an old save reads just the file outside, from its front, and other saves read nothing |
| Outside.OldOfOutside | lib/file.c:1281-1304 | an old save writes such a file that is not compressed as it was before it was obfuscated, if it was |
| Outside.OldOfOutsideChunks | lib/file.c:629-655 | and a compressed one as what its chunks unpack to, also where up to four bytes of the last marker are missing |
| Outside.NotSaved | lib/file.c:745-785 | nothing is written of a file that is invalid, has no offset or a first volume that is not there, nor, by saves and raw saves, of one outside of the cabinet |
| Unsearchable.OneVolumeReadable | lib/file.c:1173-1210 | for a compressed file of one piece, in any volume of version 6, an old save reads nothing but the piece if and only if the searches in the piece do |
| Unsearchable.SearchLeavesPiece | lib/file.c:1071-1090 | for every piece without the marker in which a zero byte comes behind another byte where the marker would still have room, there is a cabinet for which an old save reads on behind the piece, whatever is inflated |
| Unsearchable.FiveBytesLeave | lib/file.c:1071-1090 | the five bytes 1, 0, 1, 1, 1 are such a piece |
| OldExtraction.FindMarker | lib/file.c:1202-1210 | the next marker in a part of the buffer, or none, wherever the search for it stays inside |
| OldExtraction.FindChunk | lib/file.c:1202-1237 | over any markers with an odd byte behind them, the end of the chunk, or none, wherever the searches stay inside |
| OldExtraction.SaveChunk | lib/file.c:1199-1277 | one pass over `ChunkEnd` bytes: fails where there is no such end; else the zero byte stored changes nothing in the buffer, and the bytes of the chunk are inflated and written |
| OldExtraction.SaveChunks | lib/file.c:1199-1277 | the loop over a buffer writes, and leaves of the counter, what `Unpacked` gives for the piece, also with bytes behind the last chunk that is needed; the size left never goes below zero |
| OldExtraction.NextPiece | lib/file.c:1166-1171 | after it, what is ahead delivers what `Reopened` delivers, and where it fails nothing could be read; the flags are those of the volume that it opens |
| OldExtraction.Grow | lib/file.c:1179-1189 | the buffer doubles until the piece fits, and keeps what is in it |
| OldExtraction.OldPiece | lib/file.c:1173-1278 | a whole piece is read, and `Unpacked` of it is written; where that gives nothing or there is no room, the save fails |
| OldExtraction.OldCopy | lib/file.c:1281-1304 | at most 64 KiB are read as `OldRead` gives them, and written |
| OldExtraction.OldStep | lib/file.c:1161-1306 | one round of the loop writes, and leaves of reader and counter, what `OldRound` gives, and fails where that gives nothing; the flags are `OldReached` |
| OldExtraction.OldLoop | lib/file.c:1155-1314 | the loop ends, and succeeds if and only if `OldSaved` is something, fits the output and has the size of the descriptor; the flags left are `OldLoopReached` |
| OldExtraction.CreateExternal | lib/file.c:600-671 | the reader for a file outside of the cabinet, with the end of a marker put behind one that is too short |
| OldExtraction.OpenOldReader | lib/file.c:1126-1143 | what is ahead of the reader is the source of `OldBegin`, inside or outside of the cabinet, or there is no reader where that is nothing |
| OldExtraction.SaveFileOld | lib/file.c:1126-1324 | success and output are those of `OldOutcome`, and the entry left is `OldLeaves` |
| Unshield.CacheStillFits | lib/file.c:146-164 | what fits a fresh parse, but for volume and split flag, still does after an operation |
| Unshield.CacheRun | lib/file.c:146-164 | over any row of states of which each keeps the one before, entries stay, differ from a fresh parse in volume and split flag only, the volume never goes back and the split flag is never cleared (while 65535 is no volume) |
| Unshield.SaveFile | lib/file.c:774-932 | success and output are those of `SaveOutcome`, and the entry left is `SaveLeaves`, for a file in any number of volumes |
| Unshield.SaveFileRaw | lib/file.c:1008-1069 | success and output are those of `RawOutcome`, and the entry left is `RawLeaves` |
| Unshield.Unshield.GetFileDescriptor | lib/file.c:146-164 | parses once: an entry that is there is returned as it is, a new one is what a fresh parse gives, no index outside has one, and no entry changes |
| Unshield.Unshield.SaveOne | lib/file.c:774-932 | a save has the outcome `SaveOutcome`, leaves the entry `SaveLeaves`, and changes no other entry |
| Unshield.Unshield.SaveOneRaw | lib/file.c:1008-1069 | a raw save has the outcome `RawOutcome`, leaves the entry `RawLeaves`, and changes no other entry |
| Unshield.Unshield.SaveOneOld | lib/file.c:1126-1324 | an old save has the outcome `OldOutcome`, leaves the entry `OldLeaves`, and changes no other entry, wherever each search reads only the piece |
| Unshield.Unshield.Save | lib/file.c:733-932 | along links that do not go in circles, a save writes `SaveOutcome` of the file they lead to, from the state of its entry, or fails; that entry becomes `SaveLeaves`, every other stays, and the cache keeps its invariant |
| Unshield.Unshield.SaveRaw | lib/file.c:976-1069 | a raw save does so with `RawOutcome` and `RawLeaves` |
| Unshield.Unshield.SaveOld | lib/file.c:1092-1324 | an old save does so with `OldOutcome` and `OldLeaves`, where each search for a marker that the loop makes reads only the piece |
| Session.Perform | lib/file.c:733-1324 | a query, a save, a raw save or an old save, into a file that may not open or be full: its reply is that of `SaveOutcome`, `RawOutcome` or `OldOutcome` for the file that links lead to in the state of the cache, and the state of all entries is `After` |
| Session.Run | lib/file.c:733-1324 | over any run of such operations, every reply is that of `Session.Perform` in the state that the operations before have left, and the last state is the fold of `After`; from any state to any later one entries stay, volumes do not go back (while 65535 is no volume), and of the flags only the split flag comes up |
| PackedRuns.EndOfLinks | lib/file.c:768-772 | a save of a file with links works on the file at their end |
| PackedRuns.RunOfPacked | lib/file.c:733-1324 | in any run of queries, saves, raw saves and old saves, in any order and with links, over a cabinet from version 6 on whose files are packed, every reply is the contents that were packed, cut off by nothing but a file that cannot be opened or has no room, and no entry of the cache changes |
| PackedRuns.RunPerformable | lib/file.c:1071-1090 | old saves in such a run read only what the pieces hold, wherever they are asked for files in chunks or plain ones |
| PackedRuns.PackedExists | lib/file.c:437-467 | there are such cabinets: three files of any nonempty contents in two volumes, one of them across the edge |
| Md5Transform.Round1 | lib/md5/md5c.c:191-207 | the unrolled steps 1 to 16 are steps 0 to 15 of the table-driven loop with rotating registers |
| Md5Transform.Round2 | lib/md5/md5c.c:209-225 | the same for steps 17 to 32 |
| Md5Transform.Round3 | lib/md5/md5c.c:227-243 | the same for steps 33 to 48 |
| Md5Transform.Round4 | lib/md5/md5c.c:245-261 | the same for steps 49 to 64 |
| Md5Transform.Decode | lib/md5/md5c.c:291-298 | the words of a block, low-order byte first |
| Md5Transform.Transform | lib/md5/md5c.c:185-271 | the compression of section 3.4 of RFC 1321 |
| Md5Transform.StepInverse | lib/md5/md5c.c:70-94 | every step can be undone, from either side |
| Md5Transform.CascadeIsBijection | lib/md5/md5c.c:187-261 | for every block, the 64 steps before the final additions are a bijection on the four words |
| Md5.Copy | lib/md5/md5c.c:303-311 | the bytes go where they should and nothing else changes |
| Md5.Encode | lib/md5/md5c.c:276-285 | words as bytes, low-order byte first |
| Md5.PaddingPrefix | lib/md5/md5c.c:56-60 | the front of the constant block is the padding of section 3.1 of RFC 1321 |
| Md5.CountedIndex | lib/md5/md5c.c:122-123 | the low word of the bit count gives the fill of the buffer |
| Md5.CountedMore | lib/md5/md5c.c:125-129 | adding with carry over two words keeps them the bit length modulo 2^64 |
| Md5.Context.constructor | lib/md5/md5c.c:99-109 | a new context has hashed nothing |
| Md5.Context.AddCount | lib/md5/md5c.c:125-129 | the two words count the longer message |
| Md5.Context.CompleteBlock | lib/md5/md5c.c:135-138 | the carried block is completed and taken in |
| Md5.Context.AbsorbBlocks | lib/md5/md5c.c:140-141 | every whole block of the input is taken in, with `i + 63` at 32 bits, for exactly the lengths for which that ends where the blocks do |
| Md5.EndsExactly | lib/md5/md5c.c:140 | at the end of the whole blocks the test of the 32-bit loop fails if and only if the input is countable; otherwise the loop goes on to a block that is not all there |
| Md5.Context.TakeIn | lib/md5/md5c.c:131-151 | afterwards the state is the fold of the compression over all whole blocks, and the buffer holds the rest |
| Md5.Context.Update | lib/md5/md5c.c:115-152 | the context that has hashed a message has then hashed that message and the input, whatever the cut, for every countable input |
| Md5.Context.Pad | lib/md5/md5c.c:164-174 | padding and length follow, as in sections 3.1 and 3.2 of RFC 1321 |
| Md5.Context.Final | lib/md5/md5c.c:157-181 | the digest is the one-shot digest of everything hashed, and the context is cleared |
| Md5.HashChunks | lib/file.c:793-921 | a whole run, one update for each of any number of chunks of any sizes, gives the one-shot digest of the chunks joined |
| Rfc1321.DigestOfEmpty | lib/md5/md5c.c:99-181 | the digest of no bytes is the one of section A.5 of RFC 1321 |
| Rfc1321.DigestOfAbc | lib/md5/md5c.c:99-181 | so is that of `abc` |
| Rfc1321.DigestOfAlphanumeric | lib/md5/md5c.c:99-181 | and that of the 62 letters and digits, which takes two blocks |
| Unicode.Utf8InGrammar | lib/converter.c:150-177 | the UTF-8 form of every scalar is in the grammar of section 4 of RFC 3629, with that scalar as its value |
| Unicode.GrammarIsUtf8 | lib/converter.c:206-270 | every sequence of the grammar is the UTF-8 form of the scalar that is its value |
| Unicode.ExactAcceptance | lib/converter.c:206-270 | a decoding step yields the scalar and takes exactly its octets for the sequences of the grammar, and yields U+FFFD when there is none in front |
| Unicode.Utf8InNumbers | lib/converter.c:150-177 | the octets of the UTF-8 form of every codepoint, as quotients and remainders by 64 |
| Unicode.AnnouncedInNumbers | lib/converter.c:206-245 | how many octets a first octet announces, by its value, and which octets go on |
| Unicode.PairInNumbers | lib/converter.c:85-120 | what makes a unit a surrogate, by its value, and the codepoint of a pair |
| Unicode.Utf16First | lib/converter.c:85-120 | a step takes exactly the units of a scalar in UTF-16 form and yields it, whatever follows |
| Unicode.HalvesOfPair | lib/converter.c:291-321 | encoding the codepoint of a surrogate pair gives that pair |
| Transcoding.Decode8Encode8 | lib/converter.c:330-338 | decoding inverts encoding in UTF-8, for all scalars |
| Transcoding.Decode16Encode16 | lib/converter.c:185-193 | the same in UTF-16 |
| Transcoding.Encode8Decode8 | lib/converter.c:206-270 | encoding inverts decoding in UTF-8 if and only if the input is well-formed |
| Transcoding.Encode16Decode16 | lib/converter.c:85-120 | in UTF-16, decoding and encoding put U+FFFD for exactly the unpaired surrogates |
| Transcoding.RoundTrip16 | lib/converter.c:179-196 | UTF-16 to UTF-8 and back replaces exactly the unpaired surrogates, and is the identity if and only if there are none |
| Transcoding.RoundTrip8 | lib/converter.c:324-341 | UTF-8 to UTF-16 and back is the identity if and only if the input is well-formed |
| Transcoding.ThirdConversion | lib/converter.c:179-196 | out, back and out again is out once, for every input on either side |
| Transcoding.OutputWellFormed | lib/converter.c:179-196 | whatever the input, the output is well-formed |
| Transcoding.ShortOutputWellFormed | lib/converter.c:150-156 | also when the room is short |
| Transcoding.SelfSynchronising8 | lib/converter.c:206-270 | what precedes an octet that is no continuation octet, valid or not, is converted on its own |
| Transcoding.SelfSynchronising16 | lib/converter.c:85-120 | the same in UTF-16 unless the cut is within a surrogate pair |
| Transcoding.SeparatedPair | lib/converter.c:85-120 | and then it never holds |
| Transcoding.Encode8Order | lib/converter.c:124-177 | UTF-8 forms compare octet by octet as the codepoint strings do |
| Transcoding.OrderPreserved | lib/converter.c:179-196 | for any two inputs, converted strings compare as what the inputs say, and are equal only if that is |
| Transcoding.Kept8Laws | lib/converter.c:150-156 | what fits is a subsequence within the room, and is everything if and only if everything fits |
| Transcoding.Kept16Laws | lib/converter.c:291-308 | the same in UTF-16 |
| ShortRoom.Kept8Behind | lib/converter.c:150-156 | behind a string that fits, a conversion breaks off if none of what follows fits, and else goes on with something that does |
| ShortRoom.Kept16Behind | lib/converter.c:291-308 | the same in UTF-16 |
| ShortRoom.EncodedFront8 | lib/converter.c:150-177 | a UTF-8 form is the front of another if and only if what it encodes is |
| ShortRoom.EncodedFront16 | lib/converter.c:291-321 | the same in UTF-16 |
| ShortRoom.ShortOutputIsFront | lib/converter.c:150-156 | for every input and every room, either way, what is written is the front of the whole output if and only if no codepoint behind the first that does not fit would fit in its place |
| ShortRoom.GapIn8 | lib/converter.c:150-156 | a euro sign and a letter, with room for two octets, come out as the letter |
| ShortRoom.GapIn16 | lib/converter.c:291-308 | a codepoint beyond the first plane and a letter, with room for one unit, come out as the letter |
| Converter.DecodeUtf16 | lib/converter.c:85-120 | the masks yield the first codepoint, and the index is left at its last unit |
| Converter.Utf8ByShifting | lib/converter.c:158-174 | six bits at a time from the end, with the patterns, gives the octets of section 3 of RFC 3629 |
| Converter.EncodeUtf8 | lib/converter.c:150-177 | writes the whole UTF-8 form in place or, for lack of room, nothing |
| Converter.Utf16ToUtf8 | lib/converter.c:179-196 | with a buffer of any size, writes the encoding of the codepoints that fit, greedily chosen, and nothing behind it; without one, returns the size that fits all |
| Converter.DecodeUtf8 | lib/converter.c:206-270 | patterns, collected bits and three tests yield `First` and take `Taken` octets, the step of the grammar of section 4 of RFC 3629 |
| Converter.Acceptable | lib/converter.c:250-267 | the three tests accept exactly a scalar, in range and no surrogate, that came from as many octets as its UTF-8 form has |
| Converter.SurrogateTest | lib/converter.c:258-265 | the mask over the low half, guarded by the comparison, and the range test leave exactly the scalars |
| Converter.EncodeUtf16 | lib/converter.c:291-321 | writes the whole UTF-16 form in place or, for lack of room, nothing |
| Converter.Utf8ToUtf16 | lib/converter.c:324-341 | as the other direction |
| HeaderStrings.StrlenUtf16 | lib/helper.c:220-226 | the length with the terminator, of a string whose buffer may end there |
| HeaderStrings.ThreeOctetsAUnit | lib/helper.c:241 | UTF-8 never takes more than three octets for a unit of UTF-16 |
| HeaderStrings.NoZeroOctets | lib/helper.c:243-246 | units that are not zero give no zero octet |
| HeaderStrings.TerminatedFits | lib/helper.c:237-247 | the terminator and one unit beyond it fit, and as a C string the result is the UTF-8 form of what precedes the terminator |
| HeaderStrings.Header.AddStringBuffer | lib/helper.c:229-234 | a new zeroed buffer goes in front of the list, which stays as it is |
| HeaderStrings.Header.Utf16ToUtf8 | lib/helper.c:237-247 | 3 * length + 1 suffices wherever it is an `int`: nothing is dropped, the text is the UTF-8 form of the units before the first zero, and earlier buffers are untouched |
| Arguments.ParseIsPartition | win32_msvc/getopt.h:144-242 | options with their arguments and operands are each in the order of the command line and together all of it, up to the dashes or the operand that ends the options |
| Arguments.OptionsAlone | win32_msvc/getopt.h:144-242 | the options with their arguments, on a command line of their own, give the same reports: operands make no difference |
| Getopt.RotatedOnTrack | win32_msvc/getopt.h:168-186 | moving the operands behind the option changes nothing of what the command line comes to |
| Getopt.Scanner.MoveBack | win32_msvc/getopt.h:176-183 | one element goes behind others, which keep their order |
| Getopt.Scanner.Rotate | win32_msvc/getopt.h:168-186 | the nested loops move all waiting operands behind the options, in order, and the index to the first of them |
| Getopt.Scanner.constructor | win32_msvc/getopt.h:80-118 | the plan of a run is what the command line comes to before anything is moved |
| Getopt.Scanner.SkipOperands | win32_msvc/getopt.h:202-218 | the next option behind operands, or the end of the run |
| Getopt.Scanner.FindLong | win32_msvc/getopt.h:310-347 | the first long option that the argument spells, alone or before an equals sign, or none |
| Getopt.Scanner.Found | win32_msvc/getopt.h:310-347 | for the option found: its index is stored, its argument is taken from behind the equals sign or from the next element, its value is returned or stored through its flag, and `ya_optopt` holds it where it is misused |
| Getopt.Scanner.ReadLong | win32_msvc/getopt.h:303-365 | one long option is reported as `ParseFrom` has it next, with `longindex`, `ya_optopt` and the stores through flags |
| Getopt.Scanner.ReadShort | win32_msvc/getopt.h:244-301 | one option of a group is reported as `ParseFrom` has it next, with its argument from the same element or the next, and with `ya_optopt` |
| Getopt.Scanner.ReadOption | win32_msvc/getopt.h:220-242 | the same for an option where it starts, and the end of the run at the dashes |
| Getopt.Scanner.Internal | win32_msvc/getopt.h:144-242 | every call of a run either reports what `ParseFrom` has next for the original command line, with all variables, or ends the run with the arguments sorted as `Finished` says |
| Getopt.Scanner.GetoptLong | win32_msvc/getopt.h:132-135 | and after every call the arguments are a permutation of what they were |
| Getopt.Scanner.Run | src/unshield.c:246-303 | the caller's loop ends, with all reports of `ParseFrom` in order and the arguments sorted |
| Getopt.StablePartition | win32_msvc/getopt.h:144-242 | without dashes, permuting: options with their arguments in their order, then operands in theirs, none of which looks like an option, and the index at the first of these |
| Getopt.OperandsBeforeDashes | win32_msvc/getopt.h:220-223 | with dashes, operands before them are left in front of the index, unless there are none |
| Getopt.HandleParameters | src/unshield.c:246-303 | a whole run from the initial variables: the reports are those of the command line as it was; with no sign in front of the option string, no dashes and no other order from the environment, the arguments become a stable partition with the index between the parts; with a plus, or the environment, the run ends at the first operand, with a minus operands are reported in place, and nothing is moved |
| Getopt.SignDecides | win32_msvc/getopt.h:106-118 | a minus in front of the option string leaves operands in place and reports them, a plus ends the run at the first, and so does the environment where there is no sign; otherwise operands are moved |
| Getopt.StaysInPlace | win32_msvc/getopt.h:144-242 | where operands are not moved, the command line stays as it is, up to the dashes or the operand that ends the run |
| Rendering.OptionFound | win32_msvc/getopt.h:244-301 | in an option string that is written from a list of options, each is found with as many colons as it was given |
| Rendering.SpellsMeans | win32_msvc/getopt.h:310-347 | a long option is spelled by its name alone or with an equals sign behind it |
| Rendering.LineParsed | win32_msvc/getopt.h:144-242 | a command line that is written from options, clusters, long options, mistakes and words comes to just those, with arguments, flags, `longindex`, `ya_optopt` and the codes 63 and 58 |
| Rendering.HandleLine | src/unshield.c:246-303 | a whole run over such a command line reports them and leaves options, words and what is behind in this order, or words in place where the sign or the environment says so |

## Left out

- Opening and closing files, file names, seeking that fails, partial reads for other reasons than the end of a volume, and volumes with headers that cannot be read (these count as missing).
- The inside of zlib: inflating is a parameter, also in `unshield_uncompress_old`. The digest of OpenSSL: saves use the MD5 of the repository.
- Parsing of the cabinet header: the descriptors that a fresh parse gives are a table. Components, file groups, directories and header lists with more than one entry are not part of this model.
- Finding the name of a file outside of the cabinet and the temporary copy of it: its contents are a parameter of `Unshield.Unshield.SaveOld`, and `copy_file` is not part of this model.
- Unshield.Unshield.Save: links are assumed not to go in circles (a rank that following a link lowers); in circles the source does not end. The same holds for raw and old saves.
- Reader.Create: some volume number below 65536 is assumed to be missing; if all are there, the search of old cabinets may not end. Volume numbers in the reader are not wrapped at 2^31.
- Unshield.CacheRun: that the volume never goes back is stated while there is no volume 65535, from which the 16-bit number goes round to 0.
- Unshield.Unshield.SaveOld: excludes compressed files for which some search for a marker reads on behind the piece, into what the buffer held before or behind its end. `Search.StaysExactly` says for which pieces that is. What the source does then depends on those bytes, which are not part of this model.
- Unshield.Unshield.SaveOneOld: excludes the same pieces, as the part of `Unshield.Unshield.SaveOld` that it is.
- OldExtraction.SaveFileOld: excludes the same pieces, as the part of `Unshield.Unshield.SaveOld` that it is.
- OldExtraction.OldLoop: excludes the same pieces, as the part of `Unshield.Unshield.SaveOld` that it is.
- OldExtraction.OldStep: excludes the same pieces, as the part of `Unshield.Unshield.SaveOld` that it is.
- OldExtraction.OldPiece: excludes the same pieces, as the part of `Unshield.Unshield.SaveOld` that it is.
- OldExtraction.SaveChunks: excludes the same pieces, as the part of `Unshield.Unshield.SaveOld` that it is.
- OldExtraction.SaveChunk: excludes the same pieces, as the part of `Unshield.Unshield.SaveOld` that it is.
- Session.Run: excludes runs in which an old save would come to such a piece when its turn comes.
- PackedRuns.RunOfPacked: says nothing of cabinets before version 6, in which a save may change entries (`Packing` says what one operation writes there, and `Openings.LeavesExactly` what it leaves), nor of saves of files in chunks and old saves of files in frames.
- Outside.OldOfOutsideChunks: of an obfuscated file that is short of its last marker it says something only where the marker, which the source puts behind in plain, happens to be what was there.
- SecondSaves.SaveAgain: says nothing of a second save where the first left another entry than its search did; then the volumes are searched as those of a file that is split.
- SecondSaves.SaveAfterOld: says when an old save leaves just the entry of its search, not exactly when; and nothing of a second old save where the search has strayed, which may read the first volume.
- Md5.Context.Update: excludes inputs that are not countable, for which `i + 63` goes round at 32 bits before the last whole block is behind (`Md5.EndsExactly`) and the source reads on behind its input; the saves pass 64 KiB at most.
- HeaderStrings.Header.Utf16ToUtf8: excludes strings for which 3 * length + 1 is no 32-bit `int`, where the arithmetic of the source overflows.
- Sizes are those of a platform with 64-bit `unsigned long` and `size_t`.
- Getopt.Scanner.Internal: error messages, the reset by an index of 0, `ya_getopt_long_only`, and calls after the first -1 are not part of this model.
- Names in cabinets before version 17 are handed out as the bytes that are there, little-endian fields are put together byte by byte, and the version is read from the header by shifts: each is one expression without state, and nothing here depends on it.
- The command line program but for its loop over options, and the replacements for `dirent.h` and `unistd.h`.
