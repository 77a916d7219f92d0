# Verified models of ed, dd, date and cpdup

This project models the stateful cores of four base-system utilities and proves what they
are for. Each model keeps the form of its source: objects with fields changed in place,
buffers as arrays, loops as loops.

* **ed** (`Ed*.dfy`). The buffer is a circular doubly linked queue of line nodes over an
  append-only scratch file, with a cached lookup position, an undo stack of segments that
  keep their outward pointers, and the list of a global command. `EdLinks` has the three
  undo steps on pointers and shows that each is exactly undone by its flip; `EdUndo` and
  `EdTrack` lift that to whole stacks; `EdStack` has the loops over the stored records;
  `EdFlags` says line by line what a global command is still to visit; `EdBuffer` is the
  editor itself; `EdReference` is a line editor on plain sequences, global commands included,
  `EdLaws` and `EdGlobals` say what that one does line by line and over whole global commands;
  and `EdSession` proves that every session, with undos and global commands anywhere, shows
  what the reference editor shows. `EdCbc` is the encrypted file format.
* **dd** (`DdRecords.dfy`, `DdEngine.dfy`, `DdLaws.dfy`). `conv=block`, `conv=unblock` and table
  translation as functions on the whole input, and the engine that computes them from reads
  and writes of any sizes in buffers of exactly the allocated size; `DdLaws` gives every byte.
  The rules are those of the dd utility in the Shell and Utilities volume of POSIX.1.
* **date -v** (`DateCalendar.dfy`, `DateVary.dfy`). The chain of in-place adjustments
  against integer addition on civil counts of seconds, minutes, hours and days.
* **cpdup** (`CpdupWire.dfy`, `CpdupLink.dfy`, `CpdupIndex.dfy`). The packets of the host
  link and their chained reading, and the hashed name index that decides what is deleted.

`Slices.dfy` has the facts about parts of sequences that the others share.

In `EdBuffer` memory is explicit: a node is an address and the store maps every allocated
address to its pointers and its record. Following a pointer of an address that is not
allocated is a verification error, so "no use after free" is part of every method; a freed
address may be handed out again.

A C `assert` that fails is modelled as a false or failing result, never assumed away.
`read` and `write` transfer any positive number of bytes; `mktime`, `fnmatch`, the regular
expression matcher and the block cipher are parameters.

## Findings

* `hcc_check_space` (bin/cpdup/hclink.c:387-400) reserves `HCC_ALIGN(size) + 8 n` bytes,
  but every leaf is aligned on its own. For leaves announced truthfully this is enough
  exactly when they need less than 8 bytes of padding in all (`CpdupWire.TruthfulExact`).
  Two one-byte leaves at write index 65504 give a packet of 65536 bytes that the reader's
  assertion refuses; three at 65496 make the writer's own assertion fail
  (`CpdupWire.TwoShortLeaves`). Both callers in bin/cpdup/hcproto.c stay on the safe side
  (`CpdupWire.OneLeaf`, `CpdupWire.NumbersAndName`).
* With a translation table, `conv=block` does not translate a short last line that no
  newline ends (bin/dd/conv.c:183-200), although the comment there says that nothing is
  left to translate; the output is as if it did exactly when the table leaves that line
  alone (`DdRecords.LastUntranslated`). The single letter a with `conv=ucase` shows it
  (`DdRecords.LowerCaseTail`).
* Adding months and taking them away again gives back the date exactly when the month in
  between has the day (`DateVary.MonthsThereAndBack`); January 31 of 2001 does not come back
  (`DateVary.JanuaryThirtyFirst`).
* A chain of reply packets that ends before its first continuation packet does reads as
  complete (bin/cpdup/hclink.c:506-509): the transaction state is still HCT_DONE, and the
  NULL returned is that of the normal end. Every other cut breaks the walk off
  (`CpdupWire.Truncated`). A leaf sent in a packet with HCF_CONTINUE and again in a last
  packet shows it (`CpdupWire.FalseEnd`); a READFILE reply with 65536 bytes takes a second packet
  (`CpdupWire.FalseEndInputs`).
* put_sbuf_line loses the node it has allocated when it refuses a line (bin/ed/buf.c:88-99).
  No caller gets there: every command keeps the set of lost nodes as it was
  (`EdSession.Edit`), because lengths are counted in an int before.

## Model

| member | source | states |
|---|---|---|
| `EdLinks.StepInverse` | bin/ed/undo.c:100-121 | undoing an insertion, a deletion or a move keeps a well-formed ring, and undoing the flipped record gives back every pointer of every node, linked or not |
| `EdLinks.UnlinkRing` | bin/ed/undo.c:102-104 | one REQUE around a segment of the ring leaves the ring of the other lines |
| `EdLinks.RelinkRing` | bin/ed/undo.c:105-108 | two REQUEs on a segment that kept its outward pointers put it back where it was |
| `EdLinks.MoveRing` | bin/ed/undo.c:109-115 | three REQUEs move a segment to the other place and keep a well-formed ring |
| `EdUndo.UndoTwice` | bin/ed/undo.c:85-130 | the flipped and reversed stack is again a path of undoable steps, and it leads back to exactly the pointers and lines before |
| `EdUndo.DeletedSegment` | bin/ed/undo.c:135-148 | the segment of every deletion record is still one chain of distinct nodes that ends outside itself, whatever was edited since |
| `EdUndo.DeletedDisjoint` | bin/ed/undo.c:135-148 | no node is in two deletion records |
| `EdUndo.LinkedNotDeleted` | bin/ed/undo.c:135-148 | no line of the buffer, nor the head, is in a deletion record |
| `EdUndo.PathNodes` | bin/ed/undo.c:99-121 | lines now plus deleted lines are lines then plus inserted lines |
| `EdUndo.InsertLine` | bin/ed/buf.c:127-136 | linking a new node in and pushing its record keeps the path to the saved lines |
| `EdUndo.ExtendLine` | bin/ed/main.c:1060-1061 | lengthening the topmost insertion record by the line just added keeps the path to the saved lines |
| `EdUndo.RenderedRedo` | bin/ed/undo.c:120-124 | flipping and reversing the stored records gives the stored records of the reversed stack, the two records of a move staying adjacent |
| `EdTrack.TrackDelete` | bin/ed/main.c:1194-1214 | unlinking lines with the record pushed keeps the session invariant and the saved lines |
| `EdTrack.TrackMove` | bin/ed/main.c:1126-1144 | moving lines with both records pushed keeps the session invariant and the saved lines |
| `EdTrack.TrackInsert` | bin/ed/main.c:1057-1066 | adding a line with a new record keeps the session invariant and the saved lines |
| `EdTrack.TrackExtend` | bin/ed/main.c:1057-1066 | adding a line to the open record keeps the session invariant and the saved lines |
| `EdTrack.TrackUndo` | bin/ed/undo.c:98-127 | after an undo the invariant holds with the saved and the present lines exchanged |
| `EdStack.UndoRecords` | bin/ed/undo.c:99-121 | the loop over the stored records undoes the whole stack and flips every type |
| `EdStack.ReverseRecords` | bin/ed/undo.c:122-124 | the swapping loop reverses the records |
| `EdStack.FreeSegment` | bin/ed/undo.c:140-147 | the walk frees each node of the segment once and nothing else |
| `EdStack.FreeRecords` | bin/ed/undo.c:135-148 | what stays allocated is the head and the lines, with their pointers |
| `EdStack.TrackClear` | bin/ed/undo.c:135-152 | afterwards the invariant holds with an empty stack and the present lines saved |
| `EdActive.RotationCovers` | bin/ed/glbl.c:192-198 | from any start, the rotating index meets every entry within one turn |
| `EdActive.ActiveList.Set` | bin/ed/glbl.c:148-182 | the node is added at the end of the list |
| `EdActive.ActiveList.UnsetOne` | bin/ed/glbl.c:193-198 | exactly the entry of the node is cleared, wherever the rotating index stood |
| `EdActive.ActiveList.Next` | bin/ed/glbl.c:203-208 | the first entry not cleared is yielded, the others keep waiting in their order; nothing is yielded only when nothing is pending |
| `EdActive.ActiveList.Clear` | bin/ed/glbl.c:213-220 | nothing is pending |
| `EdFlags.TidyDelete` | bin/ed/main.c:1203-1208 | clearing the entries of deleted lines keeps the list in the order of the lines that are left |
| `EdFlags.TidyMove` | bin/ed/main.c:1141-1149 | clearing the entries of moved lines keeps the list in the order of the lines |
| `EdFlags.VisitFlags` | bin/ed/glbl.c:203-208 | the first entry of the list is the first line still to be visited |
| `EdFlags.InTurnEnd` | bin/ed/glbl.c:97-135 | nodes visited in the order of a list that only loses entries are in the order of the lines at the start |
| `EdScratch.ScratchFile.Get` | bin/ed/buf.c:47-76 | the bytes stored at the position come back, whether or not a seek was needed |
| `EdScratch.ScratchFile.Put` | bin/ed/buf.c:100-122 | the text goes to the end of the file and nothing before it changes |
| `EdScratch.ScratchFile.Reset` | bin/ed/main.c:502-505 | another, empty scratch file in position |
| `EdScratch.Interleave` | bin/ed/buf.c:46-123 | in any interleaving of puts and gets every get returns the text that was put |
| `EdScratch.AnswersLast` | bin/ed/buf.c:46-123 | after any run of puts and gets, the get of number n returns the n-th text put |
| `EdText.PiecesGlue` | bin/ed/main.c:1056-1067 | cutting a text into lines loses and invents nothing |
| `EdText.GluePieces` | bin/ed/main.c:1056-1067 | lines with newlines added are cut into the same lines |
| `EdText.CopyTwice` | bin/ed/main.c:1165-1171 | the two runs of a copy into its own range give the copied range at the destination |
| `EdSubst.SubstitutedMore` | bin/ed/sub.c:127-154 | one round of the loop replaces the next original line by the lines of its replacement, or leaves it |
| `EdSubst.SubstitutedFlagsMore` | bin/ed/sub.c:127-154 | in one round the flag of a replaced line gives way to unset flags for the lines of its replacement |
| `EdSubst.LastInRange` | bin/ed/sub.c:152-155 | the current line after a substitution is a line of the new text |
| `EdBuffer.Editor.constructor` | bin/ed/buf.c:249-268 | an empty buffer with nothing to undo |
| `EdBuffer.Editor.GetAddressedLineNode` | bin/ed/buf.c:158-184 | the cached lookup agrees with indexing from every cached position, one past the end included, and leaves the cache valid |
| `EdBuffer.Editor.PushUndo` | bin/ed/undo.c:42-71 | the record holds the nodes at the two addresses |
| `EdBuffer.Editor.AddLineNode` | bin/ed/buf.c:128-136 | the node is linked in after the current line; the cache stays valid |
| `EdBuffer.Editor.GetLineNodeAddr` | bin/ed/buf.c:141-153 | the line number of a node of the buffer; an error for any other node of a non-empty buffer |
| `EdBuffer.Editor.GetSbufLine` | bin/ed/buf.c:47-76 | the text of a node is the one it was made for |
| `EdBuffer.Editor.PutSbufLine` | bin/ed/buf.c:82-123 | the first line of the text becomes a line after the current one, not to be visited by a global command; a line of LINECHARS characters or more is refused and the node allocated for it lost |
| `EdBuffer.Editor.UnsetActiveNodes` | bin/ed/glbl.c:186-199 | exactly the entries of the lines of the range are cleared |
| `EdBuffer.Editor.DeleteLines` | bin/ed/main.c:1194-1214 | the range leaves the lines, the saved lines stay, the cache stays valid, and of the lines still to be visited exactly those of the range are dropped |
| `EdBuffer.Editor.DeleteNone` | bin/ed/main.c:1194-1214 | delete_lines(1, 0) in an empty buffer: the record names the head twice and no pointer changes |
| `EdBuffer.Editor.EraseAll` | bin/ed/main.c:499-505 | every line deleted, also when there is none, the stack cleared without freeing the head, the scratch file replaced |
| `EdBuffer.Editor.ReadStream` | bin/ed/io.c:70-114 | the lines read go after line n as one insertion; the saved lines stay |
| `EdBuffer.Editor.AppendLines` | bin/ed/main.c:1028-1072 | the lines before a lone period, the end of the input or a piece of a line go after line n as one insertion, none to be visited; failure exactly at a piece of a line; the saved lines stay |
| `EdBuffer.Editor.JoinLines` | bin/ed/main.c:1077-1109 | the range becomes one line of its joined text, which is not to be visited; when its length and two do not fit an int, nothing changes |
| `EdBuffer.Editor.MoveLines` | bin/ed/main.c:1114-1153 | the range goes to after the given line, to either side or nowhere; exactly its lines are no more to be visited |
| `EdBuffer.Editor.CopyLines` | bin/ed/main.c:1158-1189 | the texts of the range again after the given line, also when that lies inside the range; the copies are not to be visited, the others as before |
| `EdBuffer.Editor.SearchAndReplace` | bin/ed/sub.c:115-163 | every line of the original range once and in order gives way to the lines of its replacement, which are not to be visited, or keeps its text and flag; a line on which the replacement fails ends it there, with the lines before replaced and that line current; otherwise failure exactly when nothing matched outside a global command |
| `EdBuffer.Editor.PopUndoStack` | bin/ed/undo.c:86-130 | lines, their number and the current line are those saved, the present ones are saved instead, and every pointer is the one the undone stack leads to |
| `EdBuffer.Editor.ClearUndoStack` | bin/ed/undo.c:135-152 | only the head and the lines stay allocated, the texts stay, the present lines are saved |
| `EdBuffer.Editor.GetMatchingNodeAddr` | bin/ed/main.c:894-914 | the first matching line in cyclic order from the current one, in either direction; an error exactly when no line matches |
| `EdBuffer.ChosenMatch` | bin/ed/glbl.c:58-69 | the nodes on the list are those of the matching lines of the range |
| `EdBuffer.Editor.BuildActiveList` | bin/ed/glbl.c:43-70 | the matching lines of the range in order |
| `EdBuffer.Editor.BeginGlobal` | bin/ed/main.c:549-550 | the lines to be visited are exactly the matching lines of the range; the present lines are saved |
| `EdBuffer.Editor.NextActive` | bin/ed/glbl.c:97-99 | the first line still to be visited becomes current and is not visited again; none is left exactly when no line is flagged |
| `EdReference.ShiftedMoved` | bin/ed/main.c:1114-1153 | the move on the buffer's sequence is the exchange of two neighbouring blocks of the reference editor |
| `EdReference.FlagsConserved` | bin/ed/glbl.c:186-199 | a command takes lines from those still to be visited, as many as it deletes, changes, joins, moves or replaces, and adds none |
| `EdReference.LoopConserved` | bin/ed/glbl.c:97-135 | every line that matched is visited once, or taken by a command before its turn, or left over by a command that failed |
| `EdReference.GlobalUndone` | bin/ed/glbl.c:96-135 | in the reference editor one undo takes back a whole global command without undos of its own |
| `EdLaws.Addresses` | bin/ed/main.c:875-887 | exactly which addresses each command accepts in a buffer of so many lines |
| `EdLaws.Typeable` | bin/ed/main.c:1028-1072 | what may be read or replace a line: texts whose length fits an int, replacements of whole lines |
| `EdLaws.TypedLines` | bin/ed/main.c:1028-1072 | of what is typed after an append exactly the lines before a lone period, a piece of a line or the end are taken, and only a piece of a line is a failure |
| `EdLaws.AppendLaw` | bin/ed/main.c:460-465 | line by line: the new lines stand after the given one, unmarked, the others keep text and mark, and the last new line is current |
| `EdLaws.ChangeLaw` | bin/ed/main.c:466-474 | line by line: the new lines stand in the place of the range, unmarked, and the last of them is current, or the line before |
| `EdLaws.DeleteLaw` | bin/ed/main.c:475-484 | line by line: the range is gone, and the line that followed it is current, or the last line, or 0 |
| `EdLaws.JoinLaw` | bin/ed/main.c:1077-1109 | line by line: one line with the texts of the range and nothing in between, unmarked and current; from 2147483646 characters on a failure that changes nothing |
| `EdLaws.MoveLaw` | bin/ed/main.c:1114-1153 | line by line: where every line comes from, the moved ones unmarked and the last of them current |
| `EdLaws.CopyLaw` | bin/ed/main.c:1158-1189 | line by line: the copies after the given line, unmarked, and the last of them current |
| `EdLaws.GotoLaw` | bin/ed/main.c:1219-1238 | texts and marks stay |
| `EdLaws.SubstituteLaw` | bin/ed/sub.c:115-163 | the lines got through read, newlines included, as their replacements one after the other, the others keep text and mark; when it succeeds, and which line is current when it does not get through |
| `EdLaws.SubstituteCurrent` | bin/ed/sub.c:115-163 | without a match the current line stays, otherwise it is the last line of the last replacement |
| `EdLaws.SubstituteMarks` | bin/ed/sub.c:115-163 | where each line of the range is afterwards: itself with its mark, or its replacement without marks |
| `EdLaws.Status` | bin/ed/main.c:444-780 | an append or change fails only at a piece of a line; deleting, moving, copying and setting the current line never fail |
| `EdGlobals.VisitStep` | bin/ed/glbl.c:128-134 | each command of a list sees the current and the last line that the ones before left; one that fails ends the list |
| `EdGlobals.GlobalDelete` | bin/ed/glbl.c:96-135 | `g/re/d` leaves exactly the lines that do not match, in order; the line after the last deleted one is current |
| `EdGlobals.GlobalReverse` | bin/ed/glbl.c:96-135 | `g/re/m0` puts the matching lines first in the opposite order, the others after them in theirs |
| `EdGlobals.GlobalStops` | bin/ed/glbl.c:96-135 | the first command is the one for the first matching line, which is current; when it is refused the global command stops there |
| `EdGlobals.GlobalRefused` | bin/ed/main.c:543-548 | a range that is none changes nothing |
| `EdGlobals.TypedCommand` | bin/ed/main.c:212-214 | what may be typed at the prompt |
| `EdGlobals.UndoLaw` | bin/ed/undo.c:85-130 | an undo gives back text and current line before the last edit, a second one those after it; setting the current line and refused commands are no edits |
| `EdSession.Edit` | bin/ed/main.c:444-780 | every editing command does to the texts, the current line and the lines still to be visited what the reference editor does, reports success when it does, keeps what was saved and loses no node |
| `EdSession.EditAll` | bin/ed/main.c:444-780 | any number of editing commands keep what was saved |
| `EdSession.EditAndUndo` | bin/ed/undo.c:85-152 | after any commands since the stack was cleared, one undo gives back the same lines, texts, number of lines and current line |
| `EdSession.UndoTwiceSame` | bin/ed/undo.c:85-130 | two undos give back every pointer, the lines, the current line and the stored records, UMOV and VMOV counting as one, from every state |
| `EdSession.ExecInGlobal` | bin/ed/glbl.c:128-134 | a command or undo in a global command does to the text, the saved text and the lines still to be visited what the reference editor does; the nodes that stay waiting stay in their order |
| `EdSession.VisitNext` | bin/ed/glbl.c:97-134 | the node yielded is the first line still to be visited, its number is the current line when the commands start, and the first of them is the one for that number |
| `EdSession.ExecGlobal` | bin/ed/glbl.c:76-137 | the loop ends; text, saved text, outcome and number of visits are those of the reference editor, which visits the first flagged line until none is left; the nodes visited are distinct, in the order of the lines, and matched at the start |
| `EdSession.GlobalAndUndo` | bin/ed/glbl.c:96-135 | a global command and one undo give back texts, number of lines and current line |
| `EdSession.ExecLoad` | bin/ed/main.c:489-518 | the E command: the text is that of the file and there is nothing to undo |
| `EdSession.ExecGoto` | bin/ed/main.c:1219-1238 | setting the current line leaves the text as it is and an undo still gives what it gave before |
| `EdSession.Exec` | bin/ed/main.c:212-214 | whatever is typed at the prompt, an edit, a global command, an undo or one that only sets the current line, acts on the text, the current line and the saved text as in the reference editor |
| `EdSession.Run` | bin/ed/main.c:444-780 | whole sessions, with undos, global commands and settings of the current line anywhere, refine the reference editor |
| `EdSession.Transcript` | bin/ed/main.c:444-780 | the lines read back at the end of any session are the reference editor's text |
| `EdCbc.EncodeLength` | bin/ed/io.c:191-194 | the encoding of n bytes has n + 8 - n % 8 bytes |
| `EdCbc.DecodeEncode` | bin/ed/cbc.c:336-408 | decoding an encoding gives back the text for every block permutation and padding |
| `EdCbc.CipherBlock` | bin/ed/cbc.c:336-369 | every block of ciphertext is the enciphered exclusive or of the block before it and eight bytes of text, the last ones padded |
| `EdCbc.PaddedBytes` | bin/ed/cbc.c:360-365 | the last block is the bytes left, padding, and their number in the last byte |
| `EdCbc.PlainBlock` | bin/ed/cbc.c:374-408 | what is read from any file, block by block: all bytes of a block with something behind it, of the last as many as it says or none when that is over seven, nothing of less than a block |
| `EdCbc.Des.constructor` | bin/ed/cbc.c:103-117 | zero chaining vector, empty buffer |
| `EdCbc.Des.Put` | bin/ed/cbc.c:138-149 | after any bytes put, the whole blocks before the buffer are in the file, chained |
| `EdCbc.Des.Flush` | bin/ed/cbc.c:154-165 | the file is the encoding of all bytes put |
| `EdCbc.Des.EncodeFull` | bin/ed/cbc.c:343-349 | one chained block |
| `EdCbc.Des.EncodeLast` | bin/ed/cbc.c:360-365 | the last block: the bytes, padding, and their number in the last byte |
| `EdCbc.Des.CbcDecode` | bin/ed/cbc.c:374-408 | the next block's bytes; the last block gives as many as it says, or the end |
| `EdCbc.Des.Get` | bin/ed/cbc.c:122-133 | the next byte of what remains, or the end and then again the end |
| `EdCbc.WriteThenRead` | bin/ed/cbc.c:101-165 | any bytes put, flushed and read back are the same bytes and then the end; the file has the length ed reports |
| `DdRecords.UnblockBlock` | bin/dd/conv.c:96-264 | unblock after block gives back a text exactly when every line ends in a newline, has at most cbsz bytes and no trailing space |
| `DdRecords.BlockUnblock` | bin/dd/conv.c:96-264 | block after unblock gives back records exactly when they are whole and hold no newline |
| `DdRecords.BlockShape` | bin/dd/conv.c:149-177 | what block writes is whole records without a newline |
| `DdRecords.BlockShort` | bin/dd/conv.c:149-156 | a line that ends in the buffer before cbsz bytes becomes a padded record and the rest goes on after its newline |
| `DdRecords.BlockLong` | bin/dd/conv.c:157-171 | a line of at least cbsz bytes becomes a full record and the rest of the line is tossed |
| `DdRecords.ContToss` | bin/dd/conv.c:165-170 | tossing goes on over the next read or ends in it |
| `DdRecords.LastUntranslated` | bin/dd/conv.c:183-200 | block translates every record but a short unended last line: the exact condition under which that shows |
| `DdRecords.LowerCaseTail` | bin/dd/conv.c:183-200 | the letter a without a newline stays a lower-case letter under the table for upper case |
| `DdEngine.Dd.constructor` | bin/dd/dd.c:137-149 | one buffer of obs + ibs - 1 bytes, or two of max(ibs, cbsz) + cbsz and obs + cbsz |
| `DdEngine.Dd.WriteBlock` | bin/dd/dd.c:380-438 | a block goes out whole by writes of any sizes, and is counted |
| `DdEngine.Dd.DdOut` | bin/dd/dd.c:354-447 | nothing is lost or reordered; unforced output is whole blocks and leaves less than one; forced output is everything |
| `DdEngine.Dd.Read` | bin/dd/dd.c:255-319 | the bytes read are appended to the input buffer |
| `DdEngine.Dd.DefConv` | bin/dd/conv.c:53-79 | each byte read is translated once and appended to the output |
| `DdEngine.Dd.SkipTruncated` | bin/dd/conv.c:105-123 | the rest of a cut line is tossed up to its newline or the end of the read |
| `DdEngine.Dd.BlockRecord` | bin/dd/conv.c:130-178 | one record, with what is still to come unchanged, or a piece of a line left at the start of the buffer |
| `DdEngine.Dd.BlockConv` | bin/dd/conv.c:97-180 | output so far and output to come together do not change, whatever follows |
| `DdEngine.Dd.BlockClose` | bin/dd/conv.c:183-200 | a piece of a line left becomes the last record |
| `DdEngine.Dd.UnblockConv` | bin/dd/conv.c:210-243 | the same for unblock, the bytes read translated once |
| `DdEngine.Dd.UnblockClose` | bin/dd/conv.c:246-264 | a short record left becomes the last line |
| `DdEngine.Dd.DefClose` | bin/dd/conv.c:82-87 | everything is already buffered |
| `DdEngine.Dd.DdIn` | bin/dd/dd.c:227-327 | however the input is cut into reads, less than a block stays buffered, only whole blocks are written, and the whole output to be stays the same |
| `DdEngine.Dd.DdClose` | bin/dd/dd.c:334-352 | everything to come is written |
| `DdEngine.Reblock` | bin/dd/dd.c:76-92 | for all reads, writes and sizes the output is the conversion of the whole input, and st.bytes is its length; without block and unblock byte i is the table's code of byte i of the input |
| `DdEngine.BlockThenUnblock` | bin/dd/conv.c:96-264 | block and unblock with any reads, writes and buffer sizes on both passes give back exactly the Normal texts |
| `DdLaws.BlockByte` | bin/dd/conv.c:96-200 | every byte of the output of `conv=block`: the first bytes of each line and spaces behind them, translated once; the own bytes of a short unended last line are not |
| `DdLaws.UnblockLines` | bin/dd/conv.c:209-264 | the lines of the output of `conv=unblock`: every cbsz bytes, translated once, without the spaces at their end |
| `DdLaws.LinesOf` | bin/dd/conv.c:130-146 | every input is lines ended by a newline and a rest without one |
| `DdEngine.Brim` | bin/dd/dd.c:141-147 | unblock reaches the last byte of its output buffer of obs + cbsz bytes |
| `DateCalendar.YearStep` | bin/date/vary.c:104-124 | the closed form for days before a year grows by the length of the year |
| `DateCalendar.MonthStep` | bin/date/vary.c:104-124 | from the first of a month to the first of the next are as many days as the month has |
| `DateCalendar.MonthLengths` | bin/date/vary.c:102-124 | the length of each of the twelve months, with the Gregorian rule for February |
| `DateCalendar.MonthTable` | bin/date/vary.c:102-124 | the days before each month as a table |
| `DateCalendar.DaysFromMarch` | bin/date/vary.c:102-124 | the day count is a closed form without the length of any month: years from March on, day (153 m + 2) / 5 of the year for the first of the m-th month |
| `DateCalendar.SecondsOfDay` | bin/date/vary.c:287-412 | the second count is 86400 times the day count and 3600, 60 and 1 times the other fields |
| `DateCalendar.Billennium` | bin/date/vary.c:207-412 | 1:46:40 on September 9, 2001 is 1000000000 seconds after the first of January 1970 |
| `DateCalendar.DaysInjective` | bin/date/vary.c:207-249 | the day count determines year, month and day |
| `DateCalendar.SecondsInjective` | bin/date/vary.c:373-412 | the civil second count determines all fields |
| `DateVary.Tm.DaysInMonth` | bin/date/vary.c:104-124 | the Gregorian month length, 0 for no month |
| `DateVary.Tm.AdjYear` | bin/date/vary.c:127-146 | the month count changes by 12 val and nothing else does, so that a valid date stays one exactly unless it is February 29 landing in a common year; two digits name a year from 1969 to 2068 |
| `DateVary.Tm.AdjMon` | bin/date/vary.c:148-205 | the month count changes by exactly val, or runs to the next or last month of a name; the day is cut to the month |
| `DateVary.Tm.AdjDay` | bin/date/vary.c:207-249 | the day count changes by exactly val across months and leap years; a day the month lacks is refused; a negative val only moves the day field |
| `DateVary.Tm.AdjWday` | bin/date/vary.c:251-285 | val weeks on the day count whatever tm_wday says; or, with tm_wday right, the next, last or same week's day of a name |
| `DateVary.WeekdayKnown` | bin/date/vary.c:251-285 | the days of the week go round from a Thursday, the first of January 1970 |
| `DateVary.Tm.AdjHour` | bin/date/vary.c:287-330 | the hour count changes by exactly val |
| `DateVary.Tm.AdjMin` | bin/date/vary.c:332-371 | the minute count changes by exactly val |
| `DateVary.Tm.AdjSec` | bin/date/vary.c:373-412 | the civil second count changes by exactly val |
| `DateVary.Tm.DoMktime` | bin/date/vary.c:57-67 | the search ends for every mktime, at the first hour in its direction at which mktime succeeds or the year leaves 69..137 |
| `DateVary.HoursLeftPositive` | bin/date/vary.c:62-64 | between the limits, the hours left to the limit are never negative: the search of DoMktime, which has fewer of them after each hour, ends |
| `DateVary.Shift` | bin/date/vary.c:207-412 | val units change the second count by val times the unit |
| `DateVary.ThereAndBack` | bin/date/vary.c:207-412 | +v and then -v gives back every field, for seconds, minutes, hours, days and weeks |
| `DateVary.MonthsThereAndBack` | bin/date/vary.c:148-205 | for months, exactly when the month in between has the day |
| `DateVary.JanuaryThirtyFirst` | bin/date/vary.c:148-205 | January 31 of 2001, a month on and a month back, is January 28 |
| `DateVary.YearsThereAndBack` | bin/date/vary.c:127-146 | for years always, when no mktime comes in between |
| `CpdupWire.Align` | bin/cpdup/hclink.h:52-52 | the next multiple of 8 |
| `CpdupWire.ItemsMore` | bin/cpdup/hclink.c:338-350 | a leaf written after others is read after them, whatever bytes fill the alignment |
| `CpdupWire.ChainPacket` | bin/cpdup/hclink.c:499-513 | a packet in front of a stream contributes its leaves, and the chain goes on exactly with HCF_CONTINUE; a packet of 65536 bytes is refused |
| `CpdupWire.ReadingChain` | bin/cpdup/hclink.c:498-513 | the client's walk over a readable chain finds exactly its leaves |
| `CpdupWire.SomeHeader` | bin/cpdup/hclink.h:43-61 | a header byte by byte, with every constant in it |
| `CpdupWire.SomeLeaf` | bin/cpdup/hclink.c:338-350 | a leaf byte by byte, with its alignment |
| `CpdupWire.FlagBits` | bin/cpdup/hclink.h:60-61 | HCF_CONTINUE and HCF_REPLY are bits 14 and 15 |
| `CpdupWire.Arrives` | bin/cpdup/hclink.c:152-204 | what any header and any bytes behind it are to the reader: a packet, a mismatch, out of range or the end |
| `CpdupWire.ReadingOn` | bin/cpdup/hclink.c:498-513 | behind a packet with HCF_CONTINUE, an end, a piece of a packet or another transaction's packet completes the reply; a wrong magic number or length breaks it off |
| `CpdupWire.ReadingFurther` | bin/cpdup/hclink.c:498-513 | behind two such packets only another transaction's packet completes the reply |
| `CpdupWire.ReadingNothing` | bin/cpdup/hclink.c:283-294 | a reply that does not start with a whole packet of the transaction is none |
| `CpdupWire.Truncated` | bin/cpdup/hclink.c:506-509 | of the streams cut off before the end of their chain, exactly those with the first packet and not all of the second read as complete, with the leaves of the first |
| `CpdupWire.FalseEnd` | bin/cpdup/hclink.c:506-509 | a packet with a leaf and HCF_CONTINUE and a last one with the same leaf are a chain of two leaves, and the first packet alone reads as complete, with one |
| `CpdupWire.FalseEndInputs` | bin/cpdup/hcproto.c:957-962 | a leaf to do this with, and that the second of two leaves of 32768 bytes is flushed into a packet of its own |
| `CpdupWire.SaneReading` | bin/cpdup/hclink.c:498-513 | a stream of whole packets that contribute readable items or break the walk off reads as its chain |
| `CpdupWire.LeadsMore` | bin/cpdup/hclink.c:391-398 | a flushed packet adds its leaves to what the stream so far contributes |
| `CpdupWire.FitsRoom` | bin/cpdup/hclink.c:323-380 | leaves pass every size assertion on both sides exactly when their aligned sizes fit |
| `CpdupWire.CheckSpaceExact` | bin/cpdup/hclink.c:387-400 | wherever hcc_check_space lets leaves in they fit, exactly when they take no more than it reserves |
| `CpdupWire.TruthfulExact` | bin/cpdup/hclink.c:387-400 | with true counts, exactly when the padding is less than 8 bytes in all |
| `CpdupWire.GroupExact` | bin/cpdup/hclink.c:387-400 | a group goes through in every reply of guarded groups exactly when it is guarded |
| `CpdupWire.GuardedThrough` | bin/cpdup/hclink.c:387-400 | a reply of guarded groups meets no failing assertion |
| `CpdupWire.OneLeaf` | bin/cpdup/hcproto.c:957-962 | one leaf takes exactly what is reserved for it |
| `CpdupWire.LoneLeaf` | bin/cpdup/hclink.c:323-400 | a reply of one leaf goes through exactly when header, leaf and alignment are less than 65536 bytes |
| `CpdupWire.SpaceNeeded` | bin/cpdup/hclink.c:387-400 | the packet is flushed exactly when the index, the aligned size and 8 bytes a leaf come to 65536 |
| `CpdupWire.NumbersAndName` | bin/cpdup/hcproto.c:623-640 | numbers of at most 8 bytes and one name take no more than is reserved for a directory entry |
| `CpdupWire.TwoShortLeaves` | bin/cpdup/hclink.c:387-400 | concrete groups that are let in and fail an assertion |
| `CpdupLink.Writer.StartReply` | bin/cpdup/hclink.c:231-243 | an empty reply packet |
| `CpdupLink.Writer.FinishReply` | bin/cpdup/hclink.c:306-320 | length and error are in the header and the packet is on the stream |
| `CpdupLink.Writer.LeafData` | bin/cpdup/hclink.c:337-350 | one more leaf in the packet, or a failed assertion exactly when it does not fit |
| `CpdupLink.Writer.CheckSpace` | bin/cpdup/hclink.c:387-400 | too little space sends the packet with HCF_CONTINUE and begins another; otherwise nothing changes |
| `CpdupLink.Reply` | bin/cpdup/hclink.c:306-400 | a reply is written and readable exactly when it goes through, and reads as its leaves in order |
| `CpdupLink.AllLeavesMore` | bin/cpdup/hclink.c:306-400 | the leaves of a reply are those of its groups one after the other |
| `CpdupLink.Reader.ReadBytes` | bin/cpdup/hclink.c:162-167 | reads of any sizes fill the buffer with the next bytes of the stream, or the stream ends |
| `CpdupLink.Reader.ReadCommand` | bin/cpdup/hclink.c:152-204 | the packet at the front of the stream, or why there is none |
| `CpdupLink.Reader.FinishCommand` | bin/cpdup/hclink.c:283-294 | the first packet of the reply is there and belongs to the transaction, or the command fails |
| `CpdupLink.Reader.NextItem` | bin/cpdup/hclink.c:464-496 | the next leaf of the packet, its end, or a failed assertion |
| `CpdupLink.Reader.NextChainedItem` | bin/cpdup/hclink.c:498-524 | the next leaf of the chain across packets, the NULL of the end, which a missing first continuation packet also gives, or a failure, exactly as the stream says |
| `CpdupLink.Client` | bin/cpdup/hclink.c:498-524 | for every stream the walk ends, and gets what the stream reads as or fails when that breaks off |
| `CpdupLink.Transfer` | bin/cpdup/hclink.c:151-524 | written and read back over any splitting of the stream, no assertion fails on either side exactly when the reply goes through, as it does when every group is guarded; then the client has the leaves in order |
| `CpdupIndex.HashOf` | bin/cpdup/cpdup.c:1602-1620 | a bucket; bucket 0 for every name with a wildcard character |
| `CpdupIndex.WildcardNames` | bin/cpdup/cpdup.c:1608-1615 | a name with one of seven characters is in bucket 0 |
| `CpdupIndex.SomeBuckets` | bin/cpdup/cpdup.c:1602-1620 | the buckets of four names, one of them with a negative char and one in bucket 0 without a wildcard |
| `CpdupIndex.Shash` | bin/cpdup/cpdup.c:1602-1620 | the loop computes the hash |
| `CpdupIndex.List.constructor` | bin/cpdup/cpdup.c:1521-1526 | an empty list and empty chains |
| `CpdupIndex.List.AddList` | bin/cpdup/cpdup.c:1554-1599 | looking only into two chains decides whether any entry of the list stops the name; if none does it is added, and the chains stay the chains of the list |
| `CpdupIndex.List.IterateList` | bin/cpdup/cpdup.c:1542-1552 | the next entry with the value, none skipped |
| `CpdupIndex.List.AddNames` | bin/cpdup/cpdup.c:1411-1419 | after a directory, the list holds what its names and the exclusions say |
| `CpdupIndex.Plan` | bin/cpdup/cpdup.c:981-1030 | copied, once each: the source names not excluded; removed, once each: the destination names that are no source names, equal no exclusion and match none in bucket 0; an exclusion with a wildcard character keeps out whatever fnmatch accepts, and when only those make fnmatch accept another name the buckets do not matter |

## Left out

- Heap objects for ed's line nodes: nodes are addresses in an explicit store held by the editor; aliasing and freeing are modelled there, object layout is not.
- EdBuffer.Editor.AppendLines: where input comes from; in a global command it is part of the command list and always ends in a newline.
- ed: the `r`, `w` and shell commands, marks and `k`, what printing commands print and the address parser; `i` is an append one line earlier. The current line a printing command or a bare address leaves is a setting of the current line; so is an address before a semicolon, which may be 0 where printing refuses it.
- EdBuffer.Editor.JoinLines: the overflow of the int that counts the joined text is undefined in C; here the command fails and changes nothing. In C the buffer's own size overflows its int earlier: REALLOC (bin/ed/ed.h:143-157) adds what is asked for to the size it has, so that a joined text of about 1 GB that grows the buffer a second time is already undefined, where the model still joins.
- EdBuffer.Editor.ReadStream: the record is extended with the node just added, which the source follows with a pointer of its own; counts and messages are left out.
- ed: malloc and I/O failure, signals, the growth of the undo stack and of the active list, the binary translation, and overflow of line numbers.
- EdBuffer.Editor.SearchAndReplace: the text that one line turns into is a given function, and so is on which lines that fails; the regular expression matcher and the template are not modelled.
- EdSession.ExecGlobal: the commands of a visit are given by a function of the visit, the current and the last line, and their number by one of the visit; reading them from the terminal or the command buffer is not modelled, nor are `E` and another global command inside a global command.
- EdCbc.Des.Put: the return value is not modelled; key entry and the cipher itself are not.
- DdEngine.Dd.DdOut: sparse output, the counts of full and partial blocks, interrupted writes that transfer nothing and tape and character device messages.
- DdEngine.Dd.DdIn: `sync`, `swab`, `osync`, `noerror`, `bs=`, `count=`, and several input files.
- DdEngine.Dd.BlockRecord: st.trunc, which depends on how the input is cut into reads.
- DateVary.YearsThereAndBack: the normalisation of February 29 by a mktime in between.
- date: seconds of 60, int overflow, and the conversion of time_t to int in domktime. `vary_apply`'s parsing and the mktime calls between adjustments are not modelled.
- CpdupLink.Writer.LeafData: the string and integer variants, which differ only in how the data bytes are made.
- CpdupLink.Reader.ReadCommand: packets in the opposite byte order are reported as a mismatch; descriptors and the commands themselves are not modelled.
- CpdupLink.Reader.NextChainedItem: looking into the header of a continuation packet that is missing after another one is a failure here; in C it follows a null pointer.
- CpdupLink.Transfer: command codes that already carry HCF_CONTINUE, which no command does.
- CpdupIndex.Plan: reading the exclusion file, directories that cannot be opened, and the copying and removing themselves.
- The other utilities of the repository (cat, chio, chmod, cp, df, echo, hostname and so on): I/O and option handling.
