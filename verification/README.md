# Verified model of the mepa_demo application

A Dafny model of those parts of the MEPA demo application that transform byte streams, text and
tables, with proofs of what they are for:

- **Register queries** (`Glob`, `ReplList`, `ReplPrint`, `ReplRoundTrip`, `ReplLength`, `Registers`,
  `RegisterState`, `RegisterQuery`, `RegisterCheck`, `PatternSyntax`, `ReplBuffer`): the glob matcher, replication
  lists, the three nested resumable iterators, the check that counts and measures, the pattern syntax.
- **Output multiplexer** (`MuxRecords`, `MuxBuffer`, `LineMux`, `LineSession`): fixed buffers, records, the main loop,
  whole sessions.
- **Firmware images** (`MfiOctets`, `MfiStage1`, `MfiStage2`, `MfiFormat`, `MfiImage`, `MfiSigning`, `MfiTool`): the
  format, its octets by position, its parser and writer, what signatures cover, and the objects with their lazy signatures.
- **Base64** (`Base64`): the in-place decoder.
- **JSON-RPC server** (`FdRegistry`, `JsonFraming`, `JsonServer`, `JsonPorts`): descriptors,
  connections, request reassembly, port lists.
- **CLI** (`IpcWire`, `IpcEnds`, `CommandList`, `CommandMatch`, `CliPorts`) and **trace registry**
  (`LinkedList`, `TraceRegistry`): the command protocol, sorted lists threaded through records,
  abbreviation matching.
- `CText` holds C strings, `strtoul` and `%d`; `Sequences` holds bytes.

Code that changes state in place is modelled by classes, arrays and loops, each proved against a
specification on values; the theorems are about those specifications. The environment (reads, writes,
readiness, clocks, signals, memory, the digest and the RSA operations) appears as parameters without
further assumptions, except that a signature made with a private key verifies with its public key and
that an MD5 digest has 16 bytes (`MfiImage.Lawful`).

Where the code does not do what its comments or its purpose say, the code is followed and it is proved
when it does:

- A replication list `[]` is documented to show all replications, but its brackets stay in the
  pattern. All other lists keep the name's selection (`PatternSyntax.EmptyListSelectsNothing`).
- A printed replication list is claimed to be never longer than the input. It is longer by at most one
  character for each octal-looking numeral that runs into an 8 or a 9, and never without one
  (`ReplLength.PrintedListGrows`); the text `08` meets the bound (`ReplLength.BrokenOctalGrows`). It
  is not longer exactly if its runs cost no more than the text (`ReplBuffer.NotLongerExactly`). Also a
  list that prints unchanged can need more room than the buffer it is printed to
  (`ReplBuffer.LongListAccepted`); it fits exactly if its runs cost no more (`ReplBuffer.PrintFits`).
- The multiplexer's loop ends as soon as nothing is open or buffered for the terminal, even if it was to look
  once more at an unfinished line, which is then lost (`LineSession.LostFragment`). A reader of the terminal
  misses at most the end of a stream behind its last newline, so nothing of a stream that ends in one; nothing
  either if the last look found that line late; and if none ever was late, exactly what chunks of full length
  leave of it (`LineSession.WhatIsMissing`). The exception is a source that is held up by a
  complete line too long for the empty terminal buffer; which lines these are is exact
  (`LineSession.StuckExactly`).
- A base64 text that ends in one padding character loses its last byte, which makes no difference exactly
  if that byte is zero (`Base64.DecodeOfEncode`).
- Replacing a stage 1 TLV from a file does not ask for a new signature; the signed bytes stay the same
  exactly if the data does (`MfiSigning.SetTlvSigned`, `MfiSigning.ReadTlvCovered`). Reading a root file
  system whose sub-TLVs are in another order changes its payload without asking for a new signature; it
  signs the same bytes exactly if the payload is as this tool serialises it (`MfiTool.ParsedUpToDate`,
  `MfiSigning.NonCanonicalOrder`).
- An image is written, but can be read back exactly if no stage 2 payload is empty (`MfiTool.WriteAndRead`).
- A failed read of a JSON-RPC header is not noticed, since -1 is compared as an unsigned number. When
  the first request behind it is complete, the requests handed on are not those of the stream; without such
  a read they always are (`JsonServer.Connection.Receive`, `JsonFraming.RequestIsWrong`).
- Port numbers in JSON wrap at 32 bits: a number is treated as it should be exactly if it is smaller than
  that or too large even after wrapping (`JsonPorts.PortReadAsItself`).
- The callers' buffer holds every printed JSON port list exactly if there are at most 88 ports
  (`JsonPorts.PortTextFits`).
- A help or exit command stays first exactly if it is registered before all others that it does not
  precede (`CommandList.HelpStaysFirst`).
- All commands are compared with the user's words exactly if each syntax is shorter than the buffer and has
  at most 64 words; the check lets a syntax of exactly the buffer's length pass (`CommandMatch.ScannedExactly`).
- A printed CLI port list can be read back exactly if it is not empty (`CliPorts.CliPortsRoundTrip`).

## Model

| member | source | states |
|---|---|---|
| Glob.Wildcmp | mepa_demo/symreg.c:296-342 | The iterative matcher with one retry point returns true exactly for the strings in the glob's language, and always ends. |
| Glob.OneCharMatches | mepa_demo/symreg.c:318-320 | In the glob's language a star stands for any string, a question mark for any one character, and any other character for itself. |
| Glob.MatchesInParts | mepa_demo/symreg.c:296-342 | Two globs in a row match exactly the strings that have two parts which they match. |
| Glob.LatestStarSuffices | mepa_demo/symreg.c:310-330 | Once a segment is placed, going back to an earlier star can find no match that the latest star misses. |
| Glob.PassStar | mepa_demo/symreg.c:311-317 | Forgetting the retry point of the previous star at the next one keeps the question undecided: the remaining search still has the answer. |
| Glob.PlaceOne | mepa_demo/symreg.c:318-320 | Matching one more character neither gains nor loses a match. |
| Glob.MismatchRetries | mepa_demo/symreg.c:321-329 | After a mismatch, retrying one position later behind the latest star loses no match. |
| Glob.MismatchDecides | mepa_demo/symreg.c:301-308 | A mismatch before any star means there is no match. |
| Glob.NameExhausted | mepa_demo/symreg.c:332-341 | At the end of the name, it matches exactly if only stars are left. |
| ReplList.Txt2ListBf | mepa_demo/symreg.c:132-216 | Accepts exactly the list grammar and marks exactly the numbers in its spans, or the default for all numbers after an error, in either representation. |
| ReplList.ReadBothForms | mepa_demo/symreg.c:132-216 | Bit field and byte array get the same members from every text, also after errors. |
| ReplList.MaskBits | mepa_demo/symreg.c:15-26 | Setting a bit of the field changes that member and no other. |
| ReplPrint.List2Txt | mepa_demo/symreg.c:225-250 | The one-pass printer with its counter prints the maximal runs of the list: singles, pairs and ranges. |
| ReplPrint.RunsCover | mepa_demo/symreg.c:225-250 | The printed runs hold exactly the members of the list. |
| ReplPrint.RunsAreApart | mepa_demo/symreg.c:225-250 | Between two runs at least one number is missing, so that they are as long as possible. |
| ReplPrint.JoinMeans | mepa_demo/symreg.c:225-250 | A run is printed as one number, as two with a comma, or as two with a dash if it has more than two members; commas separate runs. |
| ReplRoundTrip.PrintedListReadsBack | mepa_demo/symreg.c:132-250 | Printing any set and reading the text gives the set back, shifted by one for one-based printing. |
| ReplRoundTrip.PrintAndRead | mepa_demo/symreg.c:132-250 | The two procedures one after the other copy every list, with no error. |
| ReplRoundTrip.BadLists | mepa_demo/symreg.c:151-205 | Numbers out of bounds, a comma or dash at the end, and ranges that run backwards are errors. |
| ReplLength.PrintedListGrows | mepa_demo/symreg.c:281-289 | A list prints in at most as many characters as the text it was read from, and one for each octal-looking numeral in it that runs into an 8 or a 9. |
| ReplLength.PrintedListIsNotLonger | mepa_demo/symreg.c:281-289 | Without such numerals, which are counted exactly, a printed list is never longer than its text. |
| ReplLength.BrokenOctalGrows | mepa_demo/symreg.c:281-289 | The text `08` is read as two numbers and printed longer than it was, which meets the bound. |
| ReplBuffer.NotLongerExactly | mepa_demo/symreg.c:281-289 | A printed list is not longer than its text exactly if the boundaries of its runs cost no more than the text has characters, and one. |
| ReplBuffer.PrintFits | mepa_demo/symreg.c:281-289 | A printed list fits the buffer exactly if the boundaries of its runs cost no more; a text that is short enough, broken numerals counted twice, always does. |
| ReplBuffer.PrintedAgain | mepa_demo/symreg.c:281-289 | A text that was printed prints the same again, so it fits exactly if it is short enough itself. |
| ReplBuffer.LongListAccepted | mepa_demo/symreg.c:732-743 | There is a component that is short enough to be accepted, with a list that prints unchanged and does not fit the buffer. |
| ReplLength.WeightIsPrintedLength | mepa_demo/symreg.c:225-250 | The printed length is the sum of the costs at the boundaries of runs. |
| ReplLength.WeightOfUnion | mepa_demo/symreg.c:281-289 | A union of lists costs at most what the lists cost, so each run can be charged to the items inside it. |
| ReplLength.NumeralIsNotShorter | mepa_demo/symreg.c:151-157 | A number prints in at most as many characters as its numeral has, in any base. |
| CText.StrtoulDec | mepa_demo/symreg.c:151-157 | A printed number is read back by `strtoul`, whatever stands in front of it and whatever non-alphanumeric text follows. |
| CText.DecDigits | mepa_demo/symreg.c:238-238 | The digits of a printed number are those of its positions in base ten, without leading zeros. |
| CText.DigitValues | mepa_demo/symreg.c:151-157 | The sixteen digits in both cases have their values, and nothing else does. |
| CText.OctalExample | mepa_demo/symreg.c:151-157 | A leading zero means base 8: `017` is read as 15. |
| CText.HexadecimalExample | mepa_demo/symreg.c:151-157 | A leading `0x` means base 16: `0x1F` is read as 31. |
| CText.SignExample | mepa_demo/symreg.c:151-157 | White space and a sign may come first, and negative numbers wrap: ` -4` is read as 2^32 - 4. |
| Registers.AllIsExact | mepa_demo/symreg.c:851-894 | The nested-loop order lists exactly the selected register replications, each once: by target, then by group and its replication, then by register and its replication. |
| Registers.SelectedMeans | mepa_demo/symreg.c:347-512 | A register replication is selected exactly if the names of target, group and register match and the three replications exist and are wanted; a target's only replication is its number, or 0 if it has none. |
| Registers.HitsFromAreTheHits | mepa_demo/symreg.c:376-512 | What an iterator has still to deliver from any position are exactly the matching rows and replications from there on, in order. |
| RegisterState.SymregState.MatchName | mepa_demo/symreg.c:347-359 | A name is selected by the glob, or literally where there are no wildcards, and the match is remembered. |
| RegisterState.SymregState.RegNext | mepa_demo/symreg.c:376-419 | Moves to the next selected register replication and records its name, with the replication in brackets if there are several, and its address, four times the sum of the register's address and replication times width, modulo 2^32; or reports that none is left. Names seen on the way are remembered. |
| RegisterState.SymregState.GrpNext | mepa_demo/symreg.c:424-467 | The same for register groups, with the group's base address and width. |
| RegisterState.SymregState.TgtNext | mepa_demo/symreg.c:472-512 | The same for targets, which have one replication each: their number, or 0 if they have none. |
| RegisterQuery.QueryInst.QueryNext | mepa_demo/symreg.c:851-894 | A first call delivers the first of all selected registers, a later call the next one, with the three names, the sum of the three addresses and the distance from the origin, all by the fields of the tables; at the end there are no more. |
| RegisterQuery.NameAndAddress | mepa_demo/symreg.c:394-404 | Full name and address of any register replication, by the fields of the tables. |
| RegisterQuery.ReplicationsAreEvenlySpaced | mepa_demo/symreg.c:399-447 | The first replications lie at the sum of the bases, each further one four times its width behind the one before, modulo 2^32. |
| RegisterCheck.CheckPattern | mepa_demo/symreg.c:550-618 | The count is the number of selected registers modulo 2^32, the width the greatest length of their names, and the result is determined by the tables as stated in CheckSucceedsExactly. |
| RegisterCheck.CheckTgts | mepa_demo/symreg.c:557-584 | The triple loop visits exactly the registers that the resumable form delivers, and tallies names, replications, count and width over all of them. |
| RegisterCheck.CheckSucceedsExactly | mepa_demo/symreg.c:591-617 | The check succeeds exactly if each component met a selected name below the hits of the one before and every listed replication occurs in a selected register; otherwise it complains about the first of these six conditions that fails. |
| RegisterCheck.AllReplsPresent | mepa_demo/symreg.c:532-545 | The bytewise comparison decides whether all requested replications were met. |
| RegisterCheck.MaxWidthIsMaximum | mepa_demo/symreg.c:570-574 | The width is at least the length of every name and the length of one of them. |
| RegisterCheck.ListRegs | mepa_demo/symreg.c:918-967 | Asking for the first and then for the next register gives all selected registers in order, up to the first one whose access fails. |
| RegisterCheck.ListedMeans | mepa_demo/symreg.c:918-967 | The words that are accessed lie at the listed addresses, less the origin, divided by four; the one that fails is the next register's. |
| PatternSyntax.ScanIsExact | mepa_demo/symreg.c:765-796 | The bracket scan accepts exactly names without brackets and names with one bracketed text at the end. |
| PatternSyntax.AcceptedIsWellFormed | mepa_demo/symreg.c:758-816 | A component is accepted exactly if it has no brackets or one list at its end that is empty or readable. |
| PatternSyntax.SplitPattern | mepa_demo/symreg.c:712-755 | Cuts the pattern at its colons into at most three components that fit their buffers and are not all empty, with the error of the first violation. |
| PatternSyntax.PiecesMakePattern | mepa_demo/symreg.c:712-755 | The pieces have no colons, and with colons between them they are the pattern. |
| PatternSyntax.PiecesAreUnique | mepa_demo/symreg.c:712-755 | Any texts without colons are the pieces of what they make with colons between them. |
| PatternSyntax.PatternLevels | mepa_demo/symreg.c:712-755 | Target, group and register are selected by the components in this order; a missing one at the end is like an empty one. |
| PatternSyntax.PatternComplaints | mepa_demo/symreg.c:757-822 | The components are checked in the same order. |
| PatternSyntax.UpperMeans | mepa_demo/symreg.c:758-764 | Exactly the small letters become capital ones. |
| PatternSyntax.NameSelects | mepa_demo/symreg.c:797-822 | A component without a list selects the names that it matches as a glob, in upper case, or all if it is empty, and all replications. |
| PatternSyntax.ListSelects | mepa_demo/symreg.c:797-822 | With a list, it selects the same names and the replications on the list. |
| PatternSyntax.EmptyListSelects | mepa_demo/symreg.c:797-822 | With an empty list, the brackets stay part of the name. |
| PatternSyntax.UnpairedBracket | mepa_demo/symreg.c:765-796 | The complaints about a closing bracket without an opening one and the other way round. |
| PatternSyntax.MoreThanOneList | mepa_demo/symreg.c:765-796 | The complaints about a second opening bracket and about characters behind a list. |
| PatternSyntax.UnreadableList | mepa_demo/symreg.c:800-812 | The complaint about a list that cannot be read. |
| PatternSyntax.QueryInit | mepa_demo/symreg.c:685-833 | There is a handle exactly if memory is left, the pattern is accepted and its check succeeds; its target, group and register states select what the first, second and third component say, and count and width are those of the selected registers. |
| PatternSyntax.RegsPrint | mepa_demo/symreg.c:902-985 | The whole command lists every selected register in table order, up to the first that cannot be accessed; if there is none, as many as were counted. Every name fits the measured width, the longest one exactly. |
| PatternSyntax.EmptyListSelectsNothing | mepa_demo/symreg.c:797-816 | A bracketed list keeps the selection of the name in front of it exactly if the list is not empty. |
| MuxRecords.ParseEncoded | mepa_demo/easy_run.c:380-466 | A record can be read back from its line: letter, tag and payload. |
| MuxRecords.HeaderParts | mepa_demo/easy_run.c:418-432 | The header is `ER-`, the letter, process number, time and tag with dashes between them, and a space. |
| MuxRecords.RecordExtendsStream | mepa_demo/easy_run.c:380-466 | Appending a record to complete lines adds its bytes to the stream of its tag and changes no other stream. |
| MuxBuffer.FdData.MoveToFront | mepa_demo/easy_run.c:285-309 | The valid bytes move to the start of the buffer and stay the same. |
| MuxBuffer.CopyToBuffer | mepa_demo/easy_run.c:322-356 | One read adds what fits to the buffer and the same bytes to the echo buffer, which both have room; end of file and errors close the source. |
| MuxBuffer.CopyToTerm | mepa_demo/easy_run.c:491-520 | Writes until the buffer is empty or a write fails; written and remaining bytes together are the former content. |
| LineMux.CopyLines | mepa_demo/easy_run.c:380-466 | The bytes that leave the source are those of the records that enter the terminal buffer, cut into complete lines, over-long chunks and late fragments; copying stops only if nothing is left, the next record does not fit, or the line may still grow. |
| LineMux.Mux.Step | mepa_demo/easy_run.c:690-764 | One round of the main loop keeps all buffers and streams consistent, whatever the outside does. What is read, written, passed on and closed is determined by the open ends, the room in the buffers and the terminal buffer, and nothing is done exactly if there is nothing to wait for. |
| LineMux.Mux.StateIsSane | mepa_demo/easy_run.c:285-309 | What a buffer holds starts at its front and is what has entered it and not left it, so its room is known from these. |
| LineMux.TailIsTail | mepa_demo/easy_run.c:415-417 | The unfinished line of a stream is what follows its last newline. |
| LineMux.TerminalTellsStreams | mepa_demo/easy_run.c:690-764 | At every moment, reading the lines of one tag from the written and buffered terminal text, followed by what the source buffer holds, gives exactly the history of that source; the child's input is the history of standard input. |
| LineMux.StaysWhole | mepa_demo/easy_run.c:380-466 | Without late fragments, what has been shown of an unfinished line is a whole number of chunks of full length. |
| LineSession.Run | mepa_demo/easy_run.c:690-764 | Any number of rounds are a sequence of states, each following from the one before by what its round offers; it ends early exactly if there is nothing left to wait for. |
| LineSession.Session | mepa_demo/easy_run.c:676-764 | The same from the start of the program on, with all buffers empty and the ends open that `main` opens. |
| LineSession.LoopGoesOn | mepa_demo/easy_run.c:690-708 | The loop goes on as long as the child runs, there are bytes to write to an open end, or a source is open with room; an output only counts while the terminal buffer is empty. |
| LineSession.StandardInputIsRead | mepa_demo/easy_run.c:252-262 | Standard input is read in exactly the rounds in which it is open and ready, the child is running, and both of its buffers have room; the read gets what is there as far as it fits. |
| LineSession.OutputsAreRead | mepa_demo/easy_run.c:700-741 | Each output is read in exactly the rounds in which it is open and ready with room and the terminal buffer is empty; the read gets what is there as far as it fits. |
| LineSession.ChildGetsInput | mepa_demo/easy_run.c:468-489 | The child gets exactly as much of standard input, in order, as its writes accept, and as much waits for it as fits the buffer; when its end is closed. |
| LineSession.TerminalIsWritten | mepa_demo/easy_run.c:491-520 | All that waits for the terminal is written when it is ready, unless a write fails, and nothing otherwise. |
| LineSession.TerminalTellsAll | mepa_demo/easy_run.c:690-764 | At every moment the terminal text gives back, for each tag, what has left that source's buffer, and the child has got a first part of standard input. |
| LineSession.WhatIsLeft | mepa_demo/easy_run.c:399-466 | After every round a source holds nothing, an unfinished line that is neither over-long nor late, or a record for which there is no room. |
| LineSession.WhatIsMissing | mepa_demo/easy_run.c:690-764 | At the end, with the terminal open, it gives back each source up to the end of an unfinished line; nothing is missing if that line was late at the last look, and the exact number of characters is known if no line ever was. |
| LineSession.EndsThere | mepa_demo/easy_run.c:399-466 | Unless a complete line is left that is too long for the empty terminal buffer, copying leaves of a stream at most its unfinished line, less than a full chunk of it, nothing if it is always late, and exactly the remainder modulo the chunk length if no line ever was. In a stream whose lines fit, no such line is left. |
| LineSession.StuckExactly | mepa_demo/easy_run.c:399-466 | The next record may not fit the empty terminal buffer exactly if the first line is complete and longer than the buffer less the widest header. |
| LineSession.FittingWaits | mepa_demo/easy_run.c:399-466 | Apart from such lines, with an empty terminal buffer, copying leaves nothing but a line that may still grow. |
| LineSession.LostFragment | mepa_demo/easy_run.c:690-764 | A child that prints one character without a newline and exits: the loop ends, the terminal is open, and the character is not shown. |
| LineMux.RecordsExtendStream | mepa_demo/easy_run.c:380-466 | Records of one tag extend its stream by their bytes, in order, and leave every other stream alone. |
| MfiStage1.Stage1RoundTrip | mepa_demo/mfi.rb:511-623 | Parsing a written stage 1, whatever follows it, gives the same values (names NUL-padded to 32 bytes), the fingerprint, and the very bytes that were signed; nothing behind it is consumed. |
| MfiStage1.ParseOneTlv | mepa_demo/mfi.rb:215-223 | A written TLV with its padding is read as one TLV, up to where it ends. |
| MfiStage1.ZeroedIsSigned | mepa_demo/mfi.rb:550-554 | Zeroing the fingerprint of a written stage 1 gives the bytes that were signed. |
| MfiStage2.AttributesRoundTrip | mepa_demo/mfi.rb:898-973 | Parsing a serialised root file system gives every attribute back, for any choice of set attributes. |
| MfiStage2.Stage2RoundTrip | mepa_demo/mfi.rb:317-355 | Parsing a written stage 2 TLV gives it back, the bytes that were signed, and what follows it. |
| MfiStage2.ImageRoundTrip | mepa_demo/mfi.rb:682-709 | Parsing a written image returns stage 1 and every stage 2 TLV in order. |
| MfiOctets.NumberOctets | mepa_demo/mfi.rb:512-516 | Numbers are four octets, the least significant first. |
| MfiFormat.MagicOctets | mepa_demo/mfi.rb:394-395 | The octets of the three magic numbers. |
| MfiFormat.HashTypes | mepa_demo/mfi.rb:32-62 | The three hash types, and their lengths of 16 and 256. |
| MfiFormat.Stage1Layout | mepa_demo/mfi.rb:511-548 | Where the fields of a written stage 1 lie, with the octets of magic numbers and header length, names filled with NUL, and its own length; behind them the signature TLV and the others. |
| MfiFormat.TlvLayout | mepa_demo/mfi.rb:215-223 | The octets of a TLV: type, lengths, data and one to four NUL octets up to a multiple of four. |
| MfiFormat.TlvOrder | mepa_demo/mfi.rb:526-530 | The TLVs follow in the order of their types, without the signature. |
| MfiFormat.Stage2Layout | mepa_demo/mfi.rb:317-355 | The octets of a stage 2 TLV, by position; what is signed is all in front of the fingerprint. |
| MfiFormat.SubTlvLayout | mepa_demo/mfi.rb:928-934 | The octets of a sub-TLV. |
| MfiFormat.AttributeOrder | mepa_demo/mfi.rb:898-909 | The attributes are written in the order 1, 2, 3, 4, 5, 8, 6, 7. |
| MfiFormat.NoStage1Octets | mepa_demo/mfi.rb:562-569 | Data has no stage 1 exactly if neither magic number is at its place. |
| MfiFormat.BadMagicOctets | mepa_demo/mfi.rb:625-635 | A stage 2 TLV with data is refused for its magic number exactly if it starts with other octets. |
| MfiImage.UpdateMeans | mepa_demo/mfi.rb:64-88 | A fingerprint is an MD5 digest for type 1 and a signature for types 2 and 3, which need a key. |
| MfiImage.ValidateMeans | mepa_demo/mfi.rb:140-190 | When a fingerprint is valid, and when it is not validated. |
| MfiImage.UpdateCovers | mepa_demo/mfi.rb:64-88 | A renewed fingerprint of full length validates what was signed, with the public key of the signing key or by MD5. |
| MfiImage.Stage1.Write | mepa_demo/mfi.rb:511-548 | Back-patching both lengths and the fingerprint gives the image of the present values; the fingerprint is renewed if needed and then covers them; exactly when writing fails. |
| MfiImage.Stage1.Parse | mepa_demo/mfi.rb:562-623 | The parser's fields, its remaining data and its verdict are those of the format; an image without a key counts as signed. |
| MfiImage.Stage2Tlv.PayloadSet | mepa_demo/mfi.rb:286-292 | The flag is set exactly by a different payload; a TLV that is up to date stays so. |
| MfiImage.Stage2Tlv.Write | mepa_demo/mfi.rb:317-359 | A root file system is serialised first; the fingerprint is renewed exactly if the flag is set or the payload has changed, and covers the payload if the TLV was up to date; exactly when writing fails. |
| MfiTool.ParseStage2Tlv | mepa_demo/mfi.rb:625-670 | The object, verdict and rest that parsing one TLV gives, for every input. |
| MfiTool.Image.Write | mepa_demo/mfi.rb:682-689 | The file is stage 1 followed by all TLVs with their present contents, and if everything was up to date all fingerprints cover what they sign. |
| MfiTool.Image.Parse | mepa_demo/mfi.rb:691-709 | Both loops consume all data; the objects and verdicts are those of the format, and earlier TLVs stay in front. If the file is as this tool writes it and all signatures are valid, the image is up to date. |
| MfiTool.WriteAndRead | mepa_demo/mfi.rb:682-709 | An image that is up to date, written and read back, is readable exactly if no payload is empty; then all signatures are valid, the contents are the same, and it is up to date again. |
| MfiSigning.WrittenValidates | mepa_demo/mfi.rb:550-554 | An image whose fingerprints cover what they sign is read back with all signatures validated. |
| MfiSigning.ListReadable | mepa_demo/mfi.rb:625-629 | A written list of TLVs is readable exactly if no payload is empty. |
| MfiTool.ParsedUpToDate | mepa_demo/mfi.rb:943-973 | A TLV from a valid image would sign the bytes that were signed exactly if serialising its attributes gives the payload that was read. In that case it is up to date, otherwise only if its fingerprint validates two byte strings. |
| MfiSigning.CanonicalIsWritten | mepa_demo/mfi.rb:898-909 | Those payloads are exactly the ones this tool serialises. |
| MfiSigning.NonCanonicalOrder | mepa_demo/mfi.rb:898-973 | A version in front of a name is accepted but not such a payload. |
| MfiSigning.SetTlvSigned | mepa_demo/mfi.rb:487-502 | Storing a TLV keeps the signed bytes exactly for the signature TLV or the same data. |
| MfiSigning.ReadTlvCovered | mepa_demo/mfi.rb:498-502 | In a valid image, the stored fingerprint still covers the contents exactly if the same data was stored before, or the signature TLV is set, or it validates two byte strings. |
| MfiSigning.CanonicalBytes | mepa_demo/mfi.rb:511-548 | Stage 1 as it was parsed is written, and signed, as the same bytes as before. |
| MfiSigning.CanonicalSigns | mepa_demo/mfi.rb:562-670 | If writing what was read gives the file again, the bytes that were checked are those that would be signed now, in stage 1 and in every TLV. |
| MfiSigning.WrittenIsCanonical | mepa_demo/mfi.rb:682-709 | Every file that this tool writes, with non-empty payloads, is such a file. |
| Base64.DecodeInPlace | mepa_demo/base64decode.c:54-112 | The two in-place loops compute what an out-of-place decoder does, for every buffer: the result, the compacted input behind it, and the untouched rest. |
| Base64.CompactInPlace | mepa_demo/base64decode.c:63-71 | Exactly the alphabet and padding characters move to the front, in order; behind them the buffer is as before. |
| Base64.NoiseIsIgnored | mepa_demo/base64decode.c:63-71 | Characters outside the alphabet make no difference, wherever they are inserted. |
| Base64.GroupsLength | mepa_demo/base64decode.c:83-111 | The result has three quarters of the compacted length, less the padding. |
| Base64.GroupsOfEncode | mepa_demo/base64decode.c:83-111 | Decoding the RFC 4648 encoding gives the bytes back, but with a zero last byte if their number is 2 modulo 3. |
| Base64.DecodeOfEncode | mepa_demo/base64decode.c:102-108 | Decoding undoes encoding exactly if the length is not 2 modulo 3 or the last byte is zero. |
| Base64.EncodeOfGroups | mepa_demo/base64decode.c:16-34 | Text without padding is the encoding of what it decodes to, so no two such texts decode alike. |
| Base64.AlphabetIs | mepa_demo/base64decode.c:16-34 | The alphabet and the padding character of RFC 4648. |
| Base64.EncodeMeans | mepa_demo/base64decode.c:83-111 | The encoding takes three bytes as one number of 24 bits, six bits at a time, the highest first. |
| FdRegistry.Registry.Register | mepa_demo/main.c:1070-1105 | The table of slots behaves as a map of at most 32 descriptors: registration, re-registration and deregistration, and when each fails. |
| FdRegistry.FullTable | mepa_demo/main.c:1061-1105 | The table holds 32 descriptors exactly if no slot is free. |
| FdRegistry.SlotSet | mepa_demo/main.c:1099-1104 | Filling a free slot, or a descriptor's own, adds or replaces its entry and keeps descriptors distinct. |
| JsonFraming.DeframeOfFrames | mepa_demo/json_rpc.c:2468-2494 | Deframing undoes framing for all requests of legal length, whatever incomplete request follows. |
| JsonFraming.HeaderOctets | mepa_demo/json_rpc.c:2468-2480 | A header is the length of its request, most significant octet first. |
| JsonFraming.ShortFrame | mepa_demo/json_rpc.c:2468-2494 | A request of less than 256 octets is framed by three zero octets and its length. |
| JsonFraming.FramesOfDeframe | mepa_demo/json_rpc.c:2468-2494 | Deframed requests framed again and the rest make up the stream. |
| JsonFraming.DeframeContinues | mepa_demo/json_rpc.c:2481-2493 | Deframing a stream in pieces gives the same requests for every cut. |
| JsonFraming.RequestIsWrong | mepa_demo/json_rpc.c:2468-2494 | Bytes that follow complete requests without a header never are the next request of the stream. |
| JsonServer.Connection.Receive | mepa_demo/json_rpc.c:2455-2513 | For every result of a read: the length that a header of four octets stands for, most significant first, and that it is refused for 0 and more than 102400; which requests are handed on and when the connection fails. As long as no header read failed, the requests handed on are those that all received bytes decode to; when the next request behind such a history is complete, they still are, exactly if its own header read did not fail. The buffer always has room for the request and its terminator. |
| JsonServer.Server.OnReadable | mepa_demo/json_rpc.c:2455-2513 | A registered connection is found; only it changes, and when it fails its descriptor is deregistered and its place is free again. Used connections stay distinct and agree with the registry. |
| JsonServer.Server.OnAccept | mepa_demo/json_rpc.c:2515-2531 | A connection is accepted exactly if there is a free place and the registry takes the descriptor; the tables then agree again. |
| JsonServer.Server.Lookup | mepa_demo/json_rpc.c:2441-2453 | Finds the first connection with a descriptor, or shows that there is none. |
| JsonServer.OthersKeepAgreement | mepa_demo/main.c:1070-1105 | What other modules register or deregister keeps both tables in agreement exactly if it is no connection's descriptor. |
| JsonPorts.Str2PortList | mepa_demo/json_rpc.c:665-696 | The character loop with 32-bit arithmetic reads the tokens between commas; the list holds what was read up to an error. |
| JsonPorts.PortList2Str | mepa_demo/json_rpc.c:728-743 | Prints the members below the port count in ascending order, separated by commas. |
| JsonPorts.PortTextMeans | mepa_demo/json_rpc.c:728-743 | The text of a list: decimal numbers with commas between them. |
| JsonPorts.PortsRoundTrip | mepa_demo/json_rpc.c:665-743 | Reading a printed port list gives exactly the ports below the port count back. |
| JsonPorts.PortReadAsItself | mepa_demo/json_rpc.c:673-684 | A single port number is accepted as itself or rejected as too large exactly if it has at most 32 bits or is too large after wrapping, too. |
| JsonPorts.WrappedPort | mepa_demo/json_rpc.c:673-679 | The number 2^32 + 1 is accepted as port 1. |
| JsonPorts.PortTextFits | mepa_demo/json_rpc.c:746-751 | Every printed list fits the callers' buffer exactly if there are at most 88 ports. |
| CliPorts.PortListTxt | mepa_demo/cli.c:98-124 | Prints the maximal runs of ports, counted from one, or the word for none. |
| CliPorts.CliPortsRoundTrip | mepa_demo/cli.c:246-307 | A printed port list is accepted exactly if it is not empty, and then holds the ports, one higher. |
| CommandList.Commands.Register | mepa_demo/cli.c:460-494 | A command with a function is linked in front of the first command that must come later; the list stays acyclic and holds all others. |
| CommandList.RegisteredMeans | mepa_demo/cli.c:468-484 | The place of a new command: in front of the first one other than help and exit that is a debug command while it is not, or is of the same kind and greater. |
| CommandList.PrecedesMeans | mepa_demo/cli.c:474-484 | The order: debug commands last, otherwise by syntax; help and exit commands are those that start with these words. |
| CommandList.AfterAllRegistrations | mepa_demo/cli.c:460-494 | After any registrations each command is listed once, those other than help and exit are sorted with debug commands last, and commands of the same syntax keep the order of their registration. |
| CommandList.HelpStaysFirst | mepa_demo/cli.c:470-473 | If help and exit commands are first, they stay so exactly if the new command is another one, or is one of them and precedes all others. |
| CommandMatch.BuildWords | mepa_demo/cli.c:635-658 | Cutting in place gives the offsets where words start, lower case, and NUL for white space. |
| CommandMatch.CutWords | mepa_demo/cli.c:643-657 | The C string at a word's offset is that word in lower case. |
| CommandMatch.WordsMean | mepa_demo/cli.c:635-658 | A word is a part of the text without white space that has white space or an end on both sides, in lower case. |
| CommandMatch.WordsAreAll | mepa_demo/cli.c:635-658 | Every other character belongs to a word. |
| CommandMatch.LowerMeans | mepa_demo/cli.c:653-654 | Exactly the capital letters become small ones. |
| CommandMatch.MatchesMeans | mepa_demo/cli.c:712-729 | Each of the user's words must be the beginning of the word in its place, without regard to case, up to the first word with `<` or `[`. |
| CommandMatch.Scan | mepa_demo/cli.c:701-740 | Chains exactly the commands whose fixed words the arguments abbreviate, in list order; the shared index is that of the last match with parameters. The first syntax that does not fit the buffers decides whether the search is refused or a buffer overrun. |
| CommandMatch.ScannedExactly | mepa_demo/cli.c:664-710 | All commands are compared exactly if each syntax has less than 501 characters and at most 64 words; otherwise the first one that has not is refused if it has more than 501 characters, and overruns a buffer if not. |
| CommandMatch.MatchingMembers | mepa_demo/cli.c:712-739 | A command is chained exactly if it is in the list and its fixed words are abbreviated by the arguments. |
| CommandMatch.OneMatch | mepa_demo/cli.c:713-719 | With a single match, the shared index is that of its own first parameter, or 0. |
| IpcEnds.ReadBlock | mepa_demo/cli.c:1049-1069 | However the reads split the data, the buffer gets its first bytes, all that were asked for unless the data ends. |
| IpcEnds.ReadRequest | mepa_demo/cli.c:1071-1144 | The server accepts exactly the well-formed requests and rebuilds their arguments, for every split into reads, as long as memory is left. |
| IpcEnds.SendReply | mepa_demo/cli.c:1146-1162 | What the server writes, in any number of writes, is one message per printed text and the return value. |
| IpcEnds.ReadInput | mepa_demo/cmd.c:187-231 | The growing buffer holds all of standard input and a terminator, for every split into reads. |
| IpcEnds.SendRequest | mepa_demo/cmd.c:176-236 | What the client writes is the request of its arguments, with all of standard input as the last one if asked for. |
| IpcEnds.CopyTo | mepa_demo/cmd.c:94-113 | Copies exactly the given number of bytes, or what is there before the end. |
| IpcEnds.ShowReplies | mepa_demo/cmd.c:238-272 | The client's two outputs and exit code are those that the stream of messages stands for, for every split into reads. |
| IpcEnds.RunCommand | mepa_demo/cmd.c:176-272 | Client and server one after the other, in any number of reads and writes: unless one of them fails or memory runs out, the client shows what the command does for the client's own arguments and input, and exits with its value. |
| IpcWire.RequestRoundTrip | mepa_demo/cmd.c:175-184 | The server gets exactly the client's arguments, each with its terminator. |
| IpcWire.ReplyRoundTrip | mepa_demo/cmd.c:238-272 | The client shows the concatenation of all printed texts and exits with the command's value. |
| IpcWire.MessageOctets | mepa_demo/ipc.h:15-26 | Type and length of a message in four octets each, the least significant first. |
| IpcWire.RequestOctets | mepa_demo/cmd.c:175-180 | A request starts with a message of type 3 that holds the number of arguments. |
| IpcWire.ArgumentOctets | mepa_demo/cmd.c:182-184 | Each argument is a message of type 4, with its terminator. |
| IpcWire.ReplyOctets | mepa_demo/cli.c:1005-1048 | A reply is a message of type 0 for each text and one of type 2 with the return value. |
| IpcWire.ShownMeans | mepa_demo/cmd.c:238-272 | Messages of type 0 and 1 go to the two outputs, type 2 sets the exit code, and any other ends with -1, as does the lack of replies. |
| IpcWire.AcceptedRequest | mepa_demo/cli.c:1071-1144 | Only data that starts with the request of some arguments is accepted, and gives these. |
| IpcWire.Exchange | mepa_demo/cli.c:1071-1162 | A whole exchange shows what the command does for the client's own arguments, for any command. |
| LinkedList.Link | mepa_demo/trace.c:523-531 | Linking a node behind its predecessor gives a list with that node at its place and every other node kept. |
| LinkedList.LessTotal | mepa_demo/trace.c:514-514 | Comparing names decides between exactly one of smaller, equal and greater. |
| LinkedList.LessIsLexicographic | mepa_demo/trace.c:514-514 | Behind the longest common beginning, the smaller name ends or has the smaller character. |
| TraceRegistry.Insert | mepa_demo/trace.c:512-531 | A node enters a sorted list at its place unless its name is taken; then nothing changes. |
| TraceRegistry.Registry.RegisterModule | mepa_demo/trace.c:507-532 | A module enters the sorted list of modules unless its name is taken; every group list stays as it is. |
| TraceRegistry.RegisterGroups | mepa_demo/trace.c:541-564 | The list of groups is sorted and holds the groups in front of the first duplicate name, all of them if there is none. |
| TraceRegistry.PlaceFound | mepa_demo/trace.c:513-522 | In a sorted list, no name from the first greater one on can be equal, so stopping there misses no duplicate. |
| TraceRegistry.Registry.Register | mepa_demo/trace.c:507-566 | Modules and groups stay sorted lists that end; a module is taken exactly if neither its groups nor its own name are duplicates, otherwise the list of modules is unchanged; other modules keep their groups. |

## Left out

- CText.Strtoul: models 64-bit `unsigned long`; on a 32-bit target numbers clamp earlier.
- ReplList.Txt2ListBf: does not model a maximum of 2^32 - 1, with which the source's loops do not end; no caller uses it.
- RegisterQuery.QueryInst.QueryNext: register tables keep the limits that `symreg_init` checks (replication counts, names of at most 100 characters); larger tables overflow the source's buffers.
- PatternSyntax.QueryInit: `symreg_query_uninit` is not modelled; the line that is printed for each component is only modelled by its length (`ReplBuffer`).
- PatternSyntax.RegsPrint: the values that are read or written and the formatting of a line are not modelled.
- LineSession.Run: start and end messages of the multiplexer, select errors, signals to the child and process control are not modelled.
- LineSession.Session: of a stream that is held up by a line too long for the empty terminal buffer, only what is shown and buffered together is stated.
- LineMux.CopyLines: process number and time in a header are arbitrary texts of fixed width.
- MfiStage1.ParseStage1: data without a stage 1, the fingerprint file, and dumps are not modelled; truncated data for which Ruby raises an exception or works on nil counts as malformed.
- MfiImage.Validate: RSA and digests are abstract.
- MfiImage.Stage1.NameSet: names are byte strings; Ruby counts characters.
- MfiTool.Image.Parse: files of 4 GB and more, whose lengths do not fit the format, are read but nothing is said about their signatures; inserting, replacing and deleting TLVs by index and the option parser are not modelled.
- Base64.DecodeInPlace: characters are unsigned, as on the board; where they are signed, bytes of 128 and more index outside the source's table. Reading standard input and writing the file are not modelled.
- JsonServer.Connection.Receive: the request is handed on as bytes; parsing JSON and calling methods are not modelled beyond their success.
- JsonServer.Server.OnAccept: relies on the system not to return the descriptor of an open connection.
- LinkedList.Node: one class stands for trace modules, trace groups and CLI commands; names are compared by character code.
- CommandMatch.Scan: the command list is a sequence; what follows an overrun buffer, help output, the built-in exit words and the parsing of parameters behind the match are not modelled.
- IpcEnds.ReadRequest: arguments of 2 GB and more, whose length does not fit an `int`, are not modelled.
- IpcEnds.ShowReplies: promises nothing after a failed read, after which the client may take up in the middle of a message.
- IpcEnds.Sink.Write: a write of zero bytes does not occur.
- The option list of `main.c` is one more sorted list like those of the trace registry; registering CLI parameters and the MACsec and time stamping commands only puts them in front.
- Hardware access, drivers, board files, port and KR state machines, JSON structures, MACsec, time stamping and the demo menus.
