# Agar-Core kernel

A verified model of the data structures and codecs at the heart of Agar-Core, and of the
output device of Agar-AU. `dafny verify dfyconfig.toml` checks all of it.

| files | what they model |
|---|---|
| `RedBlackTree`, `RedBlackShapes`, `SplayTree`, `TreeShapes` | the tree macros of `core/btree.h`, on nodes with links; the shapes are the trees and contexts that the links stand for |
| `Tailq`, `TimerQueue`, `Lists` | the timers of `core/timeout.c` and `core/event.c`: the scan of AG_AddTimer on the links of `core/queue.h`, and everything else on the sequences that such lists hold |
| `AudioOut` | writers, device thread and closer of an audio device as atomic steps, each with the method that takes it |
| `HashStream`, `HashDigests` | MD5, SHA-1 and RIPEMD-160 as three ways of feeding one fold over blocks |
| `CString`, `Utf8`, `Snprintf`, `FormatString`, `FormatLaws` | string buffers and numerals, UTF-8, and the formatter, with the state machine over formats proved against what a format stands for, and laws of what that is |
| `VfsPath` | attaching, detaching, paths and their resolution |
| `GeneratedNames` | the names that AG_ObjectGenName makes up for new objects |
| `ByteOrder`, `Wire`, `DataSource`, `PaddedStrings` | integers, strings and versions as bytes in memory, and the memory source |
| `Format` | the bytes of strings, versions and tables in both orders and modes |
| `Flags`, `Variables`, `Archive`, `Loading`, `RoundTrip`, `Dependencies` | objects written to a source and read back, with the dependencies that are saved as paths and resolved again |
| `ClassPattern`, `HashTable`, `ClassSpec`, `ClassTable` | class patterns, the hash table, class specifications, and the registry over them |
| `Options`, `Powers`, `Words` | a value or none, powers of two, and integers of the C types |

Objects that the code changes in place are classes, arrays it fills are arrays, and lists that it
relinks or reallocates are sequences in fields. A predicate named `Valid` (or, in `VfsPath`,
`Linked`, `Named` and `Rooted`) says what holds between operations.

## Where the code differs from what one expects

The model follows the code. Each of these is proved, with the exact condition where there is one.

- AG_AddTimer on a timer that is still in the list works only if no timer before it has a later
  time; otherwise the links end up in a cycle (`Tailq.Head.Place`). AG_ResetTimer removes first.
- AG_ObjectAttach and AG_ObjectDetach set the root pointer of the object only, which is right only
  for objects without children (`VfsPath.Forest.Attach`, `Detach`).
- The size check of GenerateObjectPath leaves no room for the NUL (`GenerateObjectPath`). The path
  of a root with a name does not lead back to it (`PathLeadsBack`).
- CoreAutoWrite counts everything it writes as growth (`CoreAutoWrite`), and CoreSeek does not go to
  the end (`CoreSeek`): so a padded string at the end of a source is not read back (`PaddedBack`).
- AG_ReadStringLen and the skipping functions expect a type code ahead of a length where
  AG_WriteString writes none, so that they work outside debug mode only (`StringBack`, `SkipsBack`).
- A constant string is loaded as a variable of another type (`CodesDecode`, `EntryBack`), and an
  archive with children is not read (`ObjectReads`). Nor is, from a source in debug mode,
  one with dependencies or strings, or with the flag that switches the mode off (`SaveAndLoad`).
- AG_ObjectGenName does not end if and only if children have all names that the buffer can hold: with
  room for r digits one for r = 0, ten for r = 1, 10^r + 10^(r-1) for r < 10 and 2^32 else
  (`GeneratedNames.GenName`, `HangsWhen`). With fewer children than that it ends.
- Closing an audio device loses what is buffered while its thread is not waiting (`CloseDelivers`,
  and `CloseDropsBuffered` for a run that does).
- AG_ImportUnicode runs over a sequence that is cut short, and takes sequences that are not of the
  shortest form (`ImportUnicode`, `ImportBack`). AG_ExportUnicode says that the buffer is always
  terminated; on failure it is not, and with a size of zero it writes one byte (`ExportUnicode`).
- AG_ClassIsNamed differs from the general function on classes above the pattern and on wildcards
  that are not a token behind others (`FastPath`, `WildcardFirst`, `WildcardLast`, `WildcardOnly`).
- A hierarchy in which an '@' is left over is not found by its own name (`Idempotent`,
  `FindsItself`), and the expansion of a specification can exceed its buffer (`Expands`).
- The formatter drops the first of 20 or more digits (`IntBack`), makes some fields too narrow
  (`WidthIs`), reads behind a format that ends in the conversion 'w', as the format "%w" shows
  (`Dopr`, `PercentW`), and writes one byte where the maximum is 0.

## Model

| member | source | states |
|---|---|---|
| `RedBlackTree.RBHead.RotateLeft` | core/btree.h:335-352 | The head then holds the left rotation of the tree below the hole, all parent links right, in-order sequence unchanged. |
| `RedBlackTree.RBHead.RotateRight` | core/btree.h:354-372 | The mirror image. |
| `RedBlackTree.RBHead.InsertColor` | core/btree.h:388-430 | From a tree whose only defect is a red element under a red parent, the fix-up loop ends in a red-black tree with the same in-order sequence. |
| `RedBlackTree.RBHead.Insert` | core/btree.h:576-604 | Keeps parent links, order, no red-red edge and equal black heights; either adds exactly the new node, whose key no node had, or returns the node with that key, which may be the element itself, and changes nothing. |
| `RedBlackTree.RBHead.RemoveColor` | core/btree.h:432-505 | From a tree that is short of one black node on one side, the fix-up loop ends in a red-black tree with the same in-order sequence. |
| `RedBlackTree.RBHead.RemoveBinary` | core/btree.h:518-553 | With two children, the successor takes over the node's place and colour: what is left for the fix-up has the in-order sequence without the node. |
| `RedBlackTree.RBHead.Remove` | core/btree.h:508-573 | In all cases the tree is a valid red-black tree on exactly the other nodes. |
| `RedBlackTree.RBHead.Find` | core/btree.h:607-621 | Finds a node with the key if and only if one is in the tree. |
| `RedBlackTree.RBHead.Next` | core/btree.h:624-643 | The in-order successor of any node, or null for the last, by parent links only. |
| `RedBlackTree.RBHead.MinMax` | core/btree.h:645-657 | The first or the last node of the in-order sequence, null if and only if there is none. |
| `RedBlackTree.RBHead.Foreach` | core/btree.h:670-673 | RB_MINMAX and then RB_NEXT visit every node once, in increasing key order. |
| `RedBlackTree.RBHead.LogarithmicHeight` | core/btree.h:46-55 | The height h of every valid tree of n nodes meets 2^h <= (n+1)^2, that is h <= 2 lg(n+1). |
| `RedBlackShapes.TurnedLeftInv` | core/btree.h:404-411 | The one or two rotations and recolourings of an insertion under a black uncle leave no red-red edge and the same in-order sequence. |
| `RedBlackShapes.RaisedInv` | core/btree.h:396-403 | Recolouring under a red uncle moves the only possible red-red edge two levels up. |
| `RedBlackShapes.RedSiblingLeftInv` | core/btree.h:440-444 | The rotation for a red sibling keeps the shortage where it is and gives it a black sibling. |
| `RedBlackShapes.InnerNephewLeftInv` | core/btree.h:453-461 | The rotation for a red inner nephew leads to the case of a red outer one. |
| `RedBlackShapes.OuterNephewLeftInv` | core/btree.h:462-469 | The last rotation and recolouring restore all invariants. |
| `RedBlackShapes.HeightLogarithmic` | core/btree.h:46-55 | 2^height <= (size+1)^2 in every red-black tree. |
| `SplayTree.SPHead.Splay` | core/btree.h:202-235 | Top-down splaying ends, keeps the in-order sequence and the nodes, and leaves at the root the key looked for or a neighbour of it. |
| `SplayTree.RootOrNeighbour` | core/btree.h:202-235 | If the root then has another key, no node has the key. |
| `SplayTree.AssembledElems` | core/btree.h:105-110 | Assembling the two trees taken off with the rest gives the in-order sequence of all three, and the root is the key or a neighbour. |
| `SplayTree.SPHead.Find` | core/btree.h:121-130 | Finds the key if and only if it is in the tree, and then at the root. |
| `SplayTree.SPHead.Insert` | core/btree.h:157-179 | Refines insertion into a finite ordered set; the new node becomes the root, or the node with that key is returned and the contents are unchanged. |
| `SplayTree.SPHead.Remove` | core/btree.h:181-200 | Removes exactly the node with the key, or nothing if and only if no node has it. |
| `SplayTree.NoRightChild` | core/btree.h:190-196 | Splaying the left subtree with the larger key leaves a root without right child, so that nothing is lost when the right subtree is hung there. |
| `SplayTree.RejoinedElems` | core/btree.h:190-196 | The rejoined tree holds the sequence without the root. |
| `SplayTree.SPHead.Next` | core/btree.h:132-144 | The in-order successor, for any node of the tree; contents unchanged. |
| `SplayTree.SPHead.MinMax` | core/btree.h:240-271 | The first or last node of the sequence comes to the root; contents unchanged. |
| `SplayTree.SPHead.Foreach` | core/btree.h:285-288 | Visits the whole in-order sequence, although every step splays. |
| `Tailq.Head.InsertTail` | core/queue.h:361-367 | On links: a list of s becomes a list of s and the element. |
| `Tailq.Head.PutBefore` | core/queue.h:378-383 | The exact links that the macro sets, for any state of them. |
| `Tailq.Head.Remove` | core/queue.h:385-393 | On links: a list of s becomes a list of s without the element. |
| `Tailq.Head.Place` | core/timeout.c:92-108 | The scan of AG_AddTimer puts a timer where it belongs by time if and only if no timer before it has a later time; otherwise, for a timer that is still linked, the links then form a cycle and no list. |
| `Tailq.PlacedSorted` | core/timeout.c:92-108 | Put there, it leaves a list sorted by time sorted. |
| `TimerQueue.Place` | core/timeout.c:92-108 | The same scan on sequences: times stay sorted, and equal times in the order of their insertion. |
| `TimerQueue.SamePlace` | core/timeout.c:92-108 | On links and on sequences with the same times, the scan asks for the same and comes to the same place. |
| `TimerQueue.TimerQueue.AddOrdered` | core/timeout.c:60-132 | Keeps all invariants: an object is once in the queue of objects if and only if its list is not empty, each timer names the object whose list has it, and each list is sorted, first in first out. |
| `TimerQueue.TimerQueue.AddUnordered` | core/timeout.c:60-132 | The same with kernel timers, and on failure the timer is unlinked again. |
| `TimerQueue.TimerQueue.AddTimerKQUEUE` | core/event.c:1215-1237 | A new timer gets an identifier that no other timer has; fails exactly when a change is needed and the list of changes cannot grow. |
| `TimerQueue.TimerQueue.GenerateTimerID` | core/event.c:1191-1213 | Returns an identifier that no timer in the queue has, after at most one more try than there are identifiers in use, although the counter wraps. |
| `TimerQueue.EnoughIds` | core/event.c:1191-1213 | As many tries as fail are as many different identifiers in use. |
| `TimerQueue.TimerQueue.ResetTimer` | core/timeout.c:189-218 | Reschedules by removing first, so that the order is kept for every timer. |
| `TimerQueue.TimerQueue.DelTimer` | core/timeout.c:222-251 | The list without the timer, whose identifier becomes -1; the object leaves the queue with its last timer; a timer of another object is left alone. |
| `TimerQueue.TimerQueue.DelTimers` | core/timeout.c:255-269 | Empties the list, gives up all identifiers and takes the object out of the queue, keeping all invariants. |
| `TimerQueue.TimerQueue.IsRunning` | core/timeout.c:276-286 | True if and only if the timer is in the list. |
| `TimerQueue.TimerQueue.Expire` | core/event.c:1125-1158 | The expiry branch keeps all invariants, whether the timer restarts, expires or has been detached before. |
| `TimerQueue.TimerQueue.Fire` | core/timeout.c:331-349 | One timer fired: the due timers after it are the due timers before it without the first. |
| `TimerQueue.TimerQueue.ProcessTimeouts` | core/timeout.c:321-354 | Ends in spite of the rescans, and fires exactly the timers due, each once, in queue order; the others keep object and time, and none is due afterwards. |
| `TimerQueue.TimerQueue.DueOnce` | core/timeout.c:321-354 | The sequence fired has no duplicates and holds a timer if and only if it is in the queue and due. |
| `TimerQueue.DueAfter` | core/timeout.c:336-342 | A timer scheduled ival ticks ahead is due d ticks later if and only if ival <= d, although the counter wraps, for differences within 2^31. |
| `TimerQueue.TimerQueue.AddAndProcess` | core/timeout.c:60-132 | A timer added and the queues processed d ticks later: it fires if and only if its interval has passed. |
| `TimerQueue.TimerQueue.ResetAndProcess` | core/timeout.c:189-218 | The same for a timer that was rescheduled. |
| `AudioOut.AudioDev.WriteFloat` | au/au_dev_out.h:81-100 | Appends the frames, growing the buffer when it must; when it cannot grow, nothing changes: the step of that name, on the array. |
| `AudioOut.AudioDev.ThreadWake` | au/au_dev_pa.c:78-90 | Delivers the whole buffer and empties it when woken by a signal, and does neither on a time-out: the step of that name, on the array. |
| `AudioOut.Preserved` | au/au_dev_out.h:81-100 | Every step of a writer, the device thread and the closer keeps the invariant. |
| `AudioOut.Safety` | au/au_dev_pa.c:63-93 | After every interleaving: frames delivered and then buffered are all frames written, in order; the size stays within the maximum; the stream is closed only when the thread has exited. |
| `AudioOut.SafetyFromStart` | au/au_dev_out.c:119-147 | The same from the opened device on. |
| `AudioOut.AllDelivered` | au/au_dev_pa.c:63-93 | Over every run, all that was written is delivered if and only if nothing is put into the buffer after the last delivery, or none at all where there is no delivery and the buffer was empty. |
| `AudioOut.CloseDelivers` | au/au_dev_out.c:119-147 | From the call of AU_CloseOut on, everything is delivered if and only if the buffer was empty and stays so, or the thread was waiting and is woken and nothing is put in after that; with no more writes, if and only if the buffer was empty or the thread is woken. |
| `AudioOut.CloseTerminates` | au/au_dev_out.c:119-133 | Once the flag is up the thread takes at most two more steps, has one to take until it exits, and then the closer goes on. |
| `Md5.Update` | core/md5.c:77-108 | The state is the fold over the whole blocks of all input so far and the buffer holds the rest, whatever the chunks: the message grows by the input. |
| `Md5.Pad` | core/md5.c:115-130 | Feeds exactly the padding of sections 3.1 and 3.2 of RFC 1321: what is fed is the one string with the one bit, zeros and a length field whose bytes weigh up to the number of bits. |
| `Md5.Final` | core/md5.c:136-146 | The bytes of the digest weigh up to the words of the fold over the padded message, in the byte order of the digest; the context is wiped. |
| `Md5.Checksum` | core/object.c:2125-2190 | The hexadecimal digest depends on the concatenation of the chunks only. |
| `Sha1.Update` | core/sha1.c:131-147 | The state is the fold over the whole blocks of all input so far and the buffer holds the rest, whatever the chunks: the message grows by the input. |
| `Sha1.Pad` | core/sha1.c:154-169 | Feeds exactly the padding of section 4 of RFC 3174: what is fed is the one string with the one bit, zeros and a length field whose bytes weigh up to the number of bits. |
| `Sha1.Final` | core/sha1.c:172-184 | The bytes of the digest weigh up to the words of the fold over the padded message, in the byte order of the digest; the context is wiped. |
| `Sha1.Checksum` | core/object.c:2125-2190 | The hexadecimal digest depends on the concatenation of the chunks only. |
| `Rmd160.Update` | core/rmd160.c:104-128 | The state is the fold over the whole blocks of all input so far and the buffer holds the rest, whatever the chunks: the message grows by the input. |
| `Rmd160.Pad` | core/rmd160.c:131-149 | Feeds exactly the padding of sections 3.1 and 3.2 of RFC 1321: what is fed is the one string with the one bit, zeros and a length field whose bytes weigh up to the number of bits. |
| `Rmd160.Final` | core/rmd160.c:152-162 | The bytes of the digest weigh up to the words of the fold over the padded message, in the byte order of the digest; the context is wiped. |
| `Rmd160.Checksum` | core/object.c:2125-2190 | The hexadecimal digest depends on the concatenation of the chunks only. |
| `HashStream.FoldAppend` | core/md5.c:77-108 | Folding over a concatenation is folding over the first part and then over what it leaves and the second. |
| `HashStream.Consumed` | core/md5.c:93-101 | Taking whole blocks straight from the input keeps the state the fold of what was fed. |
| `HashStream.PaddedLength` | core/md5.c:115-130 | The padded message is a whole number of blocks long. |
| `HashStream.PaddedIs` | core/md5.c:115-130 | The padded message is a whole number of blocks, with the one bit, less than a block of zeros, and eight bytes that weigh up to the number of bits modulo 2^64. |
| `HashStream.OnePadded` | core/md5.c:115-130 | There is only one such string for a message. |
| `HashStream.WordsSpell` | core/md5.c:46-50 | The four bytes written for a word weigh up to it, in either order. |
| `HashStream.LengthWeighs` | core/md5.c:36-44 | The eight bytes of the length field weigh up to the number of bits. |
| `Md5.InitBytes` | core/md5.c:62-70 | The initial words as the bytes that section 3.3 of RFC 1321 lists. |
| `HashStream.ToHex` | core/md5.c:263-281 | Two lower-case hexadecimal digits for each byte, that of the high half first, each with the value of its half. |
| `CString.Strlcpy` | core/string.c:715-739 | As much of the source as fits, always terminated; the result is the whole length; nothing is written behind the size. |
| `CString.Strlcat` | core/string.c:749-775 | The same behind what the buffer holds. |
| `CString.StrReverse` | core/string.c:1149-1164 | The reversed string in place, nothing else touched. |
| `CString.PutNumber` | core/string.c:1172-1314 | The decimal numeral with its sign if it fits, which then reads as the number, or its last digits and a result that tells. |
| `CString.DecimalReadsBack` | core/string.c:1213-1238 | The numeral reads back to the number, so different numbers have different numerals. |
| `CString.SignedBack` | core/string.c:1172-1314 | The signed numeral reads as the number or its negative, in digits without zeros ahead of them. |
| `Utf8.LengthUTF8FromUCS4` | core/string.h:154-167 | The length of the encoding in the table of RFC 2279, or failure; no string that reads as the same characters is shorter. |
| `Utf8.LengthIs` | core/string.h:136-167 | There is a length if and only if all characters can be encoded, and it is that of the encoding. |
| `Utf8.LengthUTF8` | core/string.h:202-223 | The number of whole sequences, or failure at a bad first byte. |
| `Utf8.CharBack` | core/string.c:1093-1115 | The encoding of a character reads back, and is of the shortest form (section 2 of RFC 2279). |
| `Utf8.BytesBack` | core/string.c:956-990 | A sequence is the encoding of the character read from it if and only if it is of the shortest form. |
| `Utf8.EncodedRow` | core/string.c:1079-1125 | The bytes of every character are those of the table of section 2 of RFC 2279; below 0x80 it stands for itself. |
| `Utf8.NoneShorter` | core/string.h:135-151 | No sequence that reads as a character is shorter than the one written for it. |
| `Utf8.NoStringShorter` | core/string.h:154-167 | Nor is any string that reads as some characters shorter than the one written for them. |
| `Utf8.LeadIs` | core/string.h:173-199 | The length that each first byte tells of. |
| `Utf8.ExportBack` | core/string.c:1079-1125 | Export and then import is the identity on every string of characters from 1 to 0x7fffffff. |
| `Utf8.ImportBack` | core/string.c:938-996 | Import and then export is the identity if and only if every sequence is whole and of the shortest form. |
| `Utf8.ExportUnicode` | core/string.c:1079-1125 | Succeeds if and only if AG_LengthUTF8FromUCS4 and one more fit the buffer (or its size is zero); what it writes are the rows of the table of RFC 2279 and a NUL, or on failure the rows of the characters before, and no string that reads the same is shorter. |
| `Utf8.ImportUnicode` | core/string.c:938-996 | The characters of the string, in memory of just that size; runs over its end if and only if the last sequence is cut short. |
| `VfsPath.Forest.Attach` | core/object.c:392-447 | Appends the child; root pointers stay right if and only if it has no children of its own, and names stay different if and only if no sibling has its name. |
| `VfsPath.Forest.Detach` | core/object.c:489-544 | Removes the child; root pointers stay right if and only if it has no children of its own, and names stay different. |
| `VfsPath.Forest.GenerateObjectPath` | core/object.c:202-231 | Builds the path or fails by length, and overruns the buffer exactly when some step fills it to the last byte. |
| `VfsPath.Forest.CopyName` | core/object.c:238-260 | The absolute path, in any buffer that is longer than it. |
| `VfsPath.Forest.FindObjectByName` | core/object.c:548-576 | The descent along the names of the path. |
| `VfsPath.Forest.PathLeadsBack` | core/object.c:201-260 | Resolving the absolute path of an object from its root gives that object, if and only if it is below the root or the root has no name. |
| `VfsPath.Forest.ResolveDeps` | core/object.c:999-1038 | Of an object and its persistent children, all the way down: succeeds if and only if every dependency leads to an object, and then each is the object that it led to. |
| `GeneratedNames.GenName` | core/object.c:2329-2351 | The first name tried that no child has, after at most one more try than there are children, when there are fewer children than names that the buffer can hold; the search does not end if and only if children have all these names. |
| `GeneratedNames.HangsWhen` | core/object.c:2329-2351 | All 2^32 numbers give names that are taken if and only if the first ones do, as many as there are different names. |
| `GeneratedNames.Covered` | core/string.c:1288-1314 | A number that does not fit is cut to its last digits: these are those of one of the first numbers. |
| `GeneratedNames.NamesDiffer` | core/string.c:1288-1314 | The first numbers, cut or not, are all different. |
| `GeneratedNames.FreeSoon` | core/object.c:2329-2351 | With fewer children than names, no more tries than there are children fail. |
| `GeneratedNames.Enough` | core/object.c:2329-2351 | If the number of children fits behind the class name there are more names than children, and those tried up to that number are not cut. |
| `GeneratedNames.NoRoom` | core/object.c:2329-2351 | Without room for a digit there is one name only, whatever the number. |
| `GeneratedNames.AllTried` | core/object.c:2329-2351 | If the first n names are taken there are n children at least. |
| `ByteOrder.Swap32Value` | core/byteswap.h:77-98 | The 32-bit swap reverses the four bytes. |
| `ByteOrder.SwapReverses` | core/byteswap.h:38-141 | All three swaps reverse the bytes of the value. |
| `ByteOrder.HostIndependent` | core/load_integral.h:216-224 | What reaches the source depends on its byte order only, and not on that of the machine. |
| `ByteOrder.StoredValue` | core/load_integral.h:186-199 | Nor does what is read. |
| `ByteOrder.BytesWeigh` | core/load_integral.h:216-224 | The bytes written are the digits of the value to the base 256, the most significant first in the order BE and last in the order LE. |
| `ByteOrder.ValueWeighs` | core/load_integral.h:186-199 | The value read is the one number that the bytes weigh. |
| `ByteOrder.Value4` | core/load_integral.h:186-199 | The value of four bytes in each order. |
| `DataSource.CoreSource.CoreAutoWrite` | core/data_source.c:311-327 | Writes over or appends; the size is that of the memory afterwards if and only if it was appending. |
| `DataSource.CoreSource.CoreAutoWriteAt` | core/data_source.c:344-364 | Overwrites at an offset, growing if it must and behind the end after a gap, without moving the offset of the source; fails for a negative offset only. |
| `DataSource.CoreSource.CoreRead` | core/data_source.c:267-280 | All bytes asked for, or failure with nothing changed. |
| `DataSource.CoreSource.CoreSeek` | core/data_source.c:371-394 | Goes to every offset before the end and to no other, the exact end included. |
| `DataSource.CoreSource.Read` | core/data_source.c:615-627 | All or failure, and the count of bytes read, which a failure adds to once more. |
| `DataSource.CoreSource.WriteUint32At` | core/load_integral.h:237-245 | Overwrites one integer, its bytes in the order of the source, with its type code in debug mode; all else unchanged. |
| `DataSource.CoreSource.WriteInt` | core/load_integral.h:216-224 | Appends the type code in debug mode and the bytes of the value, each in its place in the order of the source. |
| `DataSource.CoreSource.ReadInt` | core/load_integral.h:186-199 | The value that the bytes weigh in the order of the source, behind the type code asked for. |
| `Wire.IntBack` | core/load_integral.h:186-224 | An integer reads back, in both byte orders and both modes. |
| `Wire.CopyBack` | core/load_string.c:281-333 | AG_CopyString gives back what AG_WriteString wrote, in both modes, if it fits. |
| `Wire.CopyCut` | core/load_string.c:281-333 | Of a string that does not fit, what does is copied, and the length reported is one more than that of the string. |
| `Wire.StringBack` | core/load_string.c:34-72 | AG_ReadStringLen gives every string back if and only if the source is not in debug mode and the string is no longer than allowed. |
| `Wire.VersionBack` | core/load_version.c:38-101 | A version reads back under its own name and major number, if and only if the name is shorter than its field. |
| `DataSource.CoreSource.WriteString` | core/load_string.c:172-210 | Appends the image of the string. |
| `DataSource.CoreSource.ReadString` | core/load_string.c:34-72 | Reads exactly what the pure reader says, at the offset behind it. |
| `DataSource.CoreSource.CopyString` | core/load_string.c:281-333 | The same for the truncating variant. |
| `DataSource.CoreSource.WriteVersion` | core/load_version.c:79-101 | Appends the image of the version, its name field filled up with letters. |
| `DataSource.CoreSource.ReadVersion` | core/load_version.c:38-75 | Reads a version, or fails on another name or major number. |
| `Wire.ManyBack` | core/object.c:1085-1108 | A counted list of items reads back item by item, if every item does. |
| `PaddedStrings.WriteStringPadded` | core/load_string.c:214-271 | A field of fixed length, or nothing if the string is longer. |
| `PaddedStrings.CopyStringPadded` | core/load_string.c:337-402 | Reads exactly what the pure reader says, and goes to the end of the field. |
| `PaddedStrings.PaddedBack` | core/load_string.c:214-402 | A padded string comes back, as far as it fits, if and only if its field does not end the source or nothing is left to skip. |
| `PaddedStrings.PaddedPlaced` | core/load_string.c:214-271 | Where everything is in the field: the two lengths in the order of the source, the characters, and zeros. |
| `PaddedStrings.SkipString` | core/load_string.c:406-426 | Goes to the end of the string that the length tells of, or fails, in debug mode as well as outside of it. |
| `PaddedStrings.SkipStringPadded` | core/load_string.c:430-451 | Goes to the end of the field that the second length tells of, or fails. |
| `PaddedStrings.SkipsBack` | core/load_string.c:406-426 | A string is skipped if and only if the source goes on behind it and is not in debug mode, or the string looks by chance like a type code and a length that leads there. |
| `PaddedStrings.PaddedSkipsBack` | core/load_string.c:430-451 | The same for a padded string. |
| `Variables.CodesDecode` | core/object.c:1153-1161 | Each type code is found again as its type, if and only if it is not that of a constant string. |
| `Variables.EntryBack` | core/object.c:1140-1265 | A variable reads back if and only if it is not a constant string. |
| `Variables.EntryExact` | core/object.c:1140-1265 | Any saved variable reads back if and only if it is no constant string, nor a string in debug mode or of more than 32767 characters. |
| `Variables.LongKeyFails` | core/object.c:1140-1152 | A name that does not fit its buffer is not read. |
| `Variables.TableBack` | core/object.c:1125-1265 | The table of variables reads back, every variable in order. |
| `Variables.SetAllSets` | core/object.c:1140-1198 | After loading, every saved variable has its saved value. |
| `Variables.SetIs` | core/object.c:1163-1198 | A variable that is there keeps its type unless a string is put in, and others are left alone. |
| `Flags.BitsReadBack` | core/object.c:1534 | Every flag reads back from the word of flags. |
| `Archive.MaskIs` | core/object.h:48-70 | The flags of the mask are those of the word 0xE55. |
| `Archive.FlagsMasked` | core/object.c:1534 | The word saved has exactly the flags of the object within that mask. |
| `Archive.SaveVariables` | core/object.c:1202-1265 | Appends the image of the table, with the count put in afterwards. |
| `Archive.SaveDeps` | core/object.c:1535-1551 | Appends the image of the table of persistent dependencies, with the count put in afterwards. |
| `Archive.Serialize` | core/object.c:1516-1608 | Appends exactly the image of the object, counts and data offset included, byte by byte where the format has it, and leaves debug mode as the code does. |
| `Archive.ImagePlaced` | core/object.c:1516-1608 | Where everything is in an image, in both byte orders and modes: signature, class, offset of the dataset, flags, the three tables behind their counts, the version of the class. |
| `Format.NumberPlaced` | core/load_integral.h:216-224 | A number: the letters AG, a zero and the type in debug mode, and its bytes, each in its place. |
| `Format.StringPlaced` | core/load_string.c:172-210 | A string: its type code in debug mode, its length, and its characters. |
| `Format.VersionPlaced` | core/load_version.c:79-101 | A version: the name and a NUL in a field of 48 bytes over the letters agar, and two numbers. |
| `Format.EntryPlaced` | core/object.c:1202-1265 | A variable: name, code of its type by the table of types, and a number of the size of that type or a string. |
| `Format.TablePlaced` | core/object.c:1202-1265 | The table of variables: its version, the count, and the variables one after the other. |
| `Archive.PathsJoin` | core/object.c:1535-1551 | The paths of the persistent dependencies are saved, in order. |
| `Archive.EnteredJoin` | core/object.c:1563-1574 | The persistent children are entered, in order. |
| `Archive.SavedJoin` | core/object.c:1202-1265 | The variables whose type is saved and that can be evaluated are saved, in order. |
| `Archive.OffsetExact` | core/object.c:1575-1576 | The data offset is where the dataset starts. |
| `Archive.HeaderReads` | core/object.c:1042-1081 | The header reads back. |
| `Archive.OldHeaderReads` | core/object.c:1042-1081 | A header of a minor version before 2 is read without a class. |
| `Archive.BodyReads` | core/object.c:1085-1198 | The tables read back if and only if no children were entered. |
| `Archive.PartsBack` | core/object.c:1656-1666 | What the load functions of the classes read is what their save functions wrote, in order, if each inverts its own. |
| `Archive.FlagsBack` | core/object.c:1629-1630 | The saved flags come back, and the others stay. |
| `Archive.ObjectReads` | core/object.c:1515-1681 | An image reads back as a whole if and only if no children were entered. |
| `Loading.LoadVariables` | core/object.c:1125-1198 | Sets every variable of the table in order, or fails. |
| `Loading.ReadDeps` | core/object.c:1085-1108 | The paths of the table in order, or failure. |
| `RoundTrip.SaveAndLoad` | core/object.c:1515-1681 | AG_ObjectSerialize and then AG_ObjectUnserialize give back the saved flags, the paths of the persistent dependencies in order, the variables and the data of the classes, if and only if no children were entered and, where the source was in debug mode, the object has no dependencies, no strings and no debugging flag, which would switch that mode off. |
| `RoundTrip.HeaderOtherMode` | core/object.c:1598-1600 | What was written in debug mode is not read outside of it. |
| `Archive.BodyFails` | core/object.c:1085-1198 | In debug mode the tables of an object with dependencies or strings are not read. |
| `Loading.Unserialize` | core/object.c:1615-1681 | Fills the object with what the three readers give, or fails and drops its dependencies. |
| `Dependencies.PathsLeadBack` | core/object.c:1535-1551 | The saved paths lead to the objects of the persistent dependencies, one by one. |
| `Dependencies.Survive` | core/object.c:999-1038 | Written, read again and resolved, an object has the objects of its persistent dependencies, in order; resolving fails if and only if a dependency of an object below it leads nowhere. |
| `ClassPattern.Strsep` | core/string.c:789-814 | The next token in place, the rest behind it, and whether there is one. |
| `ClassPattern.ClassIsNamedGeneral` | core/class.c:507-524 | True if and only if tokens and pattern agree as far as both go. |
| `ClassPattern.ClassIsNamed` | core/class.h:97-134 | Decides as the four cases of the code say. |
| `ClassPattern.UnderTokens` | core/class.h:118-123 | The comparison of string prefixes holds if and only if the tokens of one are the first of the other. |
| `ClassPattern.FastPath` | core/class.h:108-125 | For P:* the fast path holds if and only if P's tokens are the first of the class, and it disagrees with the general function on exactly the classes above P. |
| `ClassPattern.WildcardFirst` | core/class.h:126-127 | With a wildcard at the start only, the fast path holds of every class, and the general function of those that agree with the pattern behind the first token, as far as both go, if the wildcard is a token of its own, and of none if not. |
| `ClassPattern.WildcardLast` | core/class.h:111-125 | With a wildcard at the end and no colon before it, the fast path holds of no class, and the general function of those whose tokens are all among the pattern's before the last. |
| `ClassPattern.WildcardOnly` | core/class.h:117-119 | Both functions on a lone wildcard, with and without a colon before it. |
| `ClassPattern.ExactName` | core/class.h:105-107 | Without wildcards: the same tokens, where the general function also takes those above and below. |
| `HashTable.Tbl.constructor` | core/tbl.c:50-66 | An empty table. |
| `HashTable.Tbl.Hash` | core/tbl.h:43-52 | The bytes of the key as digits to the base 31, modulo 2^32 and then the number of buckets. |
| `HashTable.SummedWeight` | core/tbl.h:43-52 | The sum reduced at every step is what is left in 32 bits of the number that the bytes of the key make to the base 31. |
| `HashTable.Tbl.LookupHash` | core/tbl.c:89-103 | The first value entered with the key. |
| `HashTable.Tbl.ExistsHash` | core/tbl.c:107-117 | Whether there is one. |
| `HashTable.Tbl.InsertHash` | core/tbl.c:124-155 | Appends to the values of the key and to no other, unless duplicates are not allowed and there is one. |
| `HashTable.Tbl.DeleteHash` | core/tbl.c:159-184 | Removes the first value of the key, and no other of any key, collisions or not. |
| `HashTable.ValuesWithout` | core/tbl.c:159-184 | Shifting the arrays over the first entry of a key changes the values of that key only. |
| `ClassSpec.ParseClassSpec` | core/class.c:119-214 | The expansion of the specification, with syntax errors, and with an overrun if and only if it exceeds its buffer. |
| `ClassSpec.GetNamespace` | core/class.h:83-93 | The prefix of the first namespace of the name. |
| `ClassSpec.Expands` | core/class.c:119-214 | A specification written as namespaces with lists of classes, with or without libraries behind an '@', expands to all classes, in order, each with its prefix, and to the libraries; it is refused if and only if it is too long or a namespace is unknown. |
| `ClassSpec.FieldsAre` | core/class.c:185-214 | The hierarchy ends before its last @, the name is what follows its last colon, as far as it fits, and the specification is both with the libraries. |
| `ClassSpec.NoName` | core/class.c:139-143 | A parenthesis without a name before it is refused. |
| `ClassSpec.NestedOrStray` | core/class.c:139-166 | So are one within parentheses and a closing one outside of them. |
| `ClassSpec.Idempotent` | core/class.c:119-214 | Expanding an expansion again changes nothing, if and only if no '@' is left in it. |
| `ClassSpec.PrefixFlat` | core/class.c:134-184 | The front of an expanded hierarchy is one too. |
| `ClassTable.Registry.constructor` | core/class.c:68-90 | The table of the root class, with all invariants. |
| `ClassTable.Registry.LookupClass` | core/class.c:284-307 | The class that the expansion of the specification leads to, or the root. |
| `ClassTable.Registry.RootFound` | core/class.c:284-307 | The empty string, Agar(Object) and AG_Object find the root. |
| `ClassTable.Registry.Register` | core/class.c:218-254 | Succeeds if and only if the specification is good, the class above is known and the hierarchy is new; then the table leads from each hierarchy to its class, a class is once under the class above it, and has the name and libraries of its specification. |
| `ClassTable.Registry.Unregister` | core/class.c:258-277 | Takes the class out of table and tree; the invariants hold afterwards if and only if it had no subclasses. |
| `ClassTable.Registry.FindsItself` | core/class.c:284-307 | A class is found by its own hierarchy if and only if no '@' is in it. |
| `ClassTable.Registry.Above` | core/class.c:532-570 | The front of a hierarchy up to a colon finds the superclass of what the front up to the next colon finds. |
| `ClassTable.Registry.GetInheritHier` | core/class.c:532-570 | Returns the chain of superclass pointers, base first, if and only if no '@' is in the hierarchy. |
| `Snprintf.Out.Put` | core/snprintf.c:663-667 | Appends while there is room, and writes nothing behind the maximum. |
| `Snprintf.FmtInt` | core/snprintf.c:433-514 | Appends the text of the value in its field: sign, zeros and spaces as flags, width and precision ask for, on the side they ask for. |
| `Snprintf.FieldOf` | core/snprintf.c:433-514 | The text is spaces, the sign that the flags ask for, zeros, the digits in the case asked for and without needless zeros, and spaces; each as many as width and precision say. |
| `Snprintf.Convert` | core/snprintf.c:463-471 | The digits, least significant first, but no more than 19. |
| `Snprintf.WidthIs` | core/snprintf.c:473-485 | The text is as long as the width or its sign and digits and zeros, unless and only unless the zero flag meets a precision longer than the digits in a wider field. |
| `Snprintf.IntBack` | core/snprintf.c:433-514 | The text reads back to the integer modulo the 19th power of the base, with its sign, whatever the flags, width and precision. |
| `Snprintf.LongBack` | core/snprintf.c:433-514 | Every long reads back in decimal. |
| `FormatString.FmtStr` | core/snprintf.c:398-428 | The string in its field, cut at the precision. |
| `FormatString.Dopr` | core/snprintf.c:106-395 | Ends on every format; writes the longest front of the text that fits and a NUL, and nothing behind the maximum (one byte for a maximum of 0); reads behind the format if and only if it comes to a conversion 'w' at its end while the buffer has room. |
| `FormatString.WholeText` | core/snprintf.c:106-395 | A format written from characters and directives, known or unknown, stands for the characters and what each conversion writes of the arguments it takes, stars included, in order. |
| `FormatString.PastEnd` | core/snprintf.c:371-379 | A format of characters and directives that ends in a directive with the conversion 'w' is read behind its end, and those of `WholeText` are not. |
| `FormatString.PlainText` | core/snprintf.c:124-134 | A format without directives stands for itself, whatever letter it ends in. |
| `FormatString.AgSnprintf` | core/snprintf.c:670-679 | The same, and the length of what is in the buffer. |
| `FormatLaws.IntegerField` | core/snprintf.c:224-342 | A directive for integers writes its argument in the base of its conversion, in the field of its flags, width and precision. |
| `FormatLaws.SignedBack` | core/snprintf.c:225-240 | What %d and %i write reads back in decimal with the sign, for every int and long, whatever the flags, width and precision. |
| `FormatLaws.UnsignedBack` | core/snprintf.c:241-293 | What %o, %u, %x and %X write reads back in octal, decimal and hexadecimal, for every unsigned int, and for a long up to its last 19 digits. |
| `FormatLaws.PointerBack` | core/snprintf.c:335-342 | What %p writes reads back in hexadecimal. |
| `FormatLaws.BareBack` | core/snprintf.c:225-293 | The same of the bare directives. |
| `FormatLaws.CharText` | core/snprintf.c:322-325 | %c writes the character and %% a percent sign, whatever the flags, width and precision. |
| `FormatLaws.StringText` | core/snprintf.c:326-334 | %s writes its string in a field of the width, on the side that the flags ask for, and no more of it than the precision. |
| `FormatLaws.NothingText` | core/snprintf.c:304-321 | The other conversions write nothing. |
| `FormatLaws.SecondText` | core/snprintf.c:106-395 | The text of two directives is that of both, the second with the arguments behind those that the first takes. |

## Left out

- TimerQueue.TimerQueue.AddOrdered: for a timer in the list it asks that no timer before it has a later time; `Tailq.Head.Place` shows what happens otherwise.
- TimerQueue.TimerQueue.ProcessTimeouts: callbacks return their restart interval, given in advance, and leave the queues alone; restarts are less than 2^31 ticks behind the time.
- TimerQueue.TimerQueue.Expire: only the branch on one timer; waiting for kernel events and the sinks other than kqueue are not modelled.
- TimerQueue.TimerQueue.GenerateTimerID: asks for fewer than 2^32 identifiers in use; with all in use the code does not end.
- Tailq.Head.Place: pointer to the pointer to an element is modelled as the previous element, or null for the head.
- RedBlackTree.RBHead.Insert: RB_AUGMENT, which is empty, is left out, and keys are integers in place of a comparison function.
- AudioOut.Safety: samples are opaque, one closer and any number of writers; errors of the stream are ignored as in the code; AU_AddChannel and AU_DelChannel are left out.
- Md5.Update: the rounds of the three transforms are a parameter, and so is the assembly for other byte orders.
- CString.PutNumber: the smallest int, whose negation overflows, is left out.
- Utf8.ImportUnicode: only UTF-8; US-ASCII is a copy, and the other encodings are calls to iconv.
- VfsPath.Forest.Attach: the functions that an object can set for attaching and detaching, the events sent, and generated names on attaching are left out.
- VfsPath.Forest.GenerateObjectPath: the buffer is the string built in it, and an overrun is a result.
- DataSource.CoreSource.CoreAutoWriteAt: what the gap before an offset behind the end holds is a parameter.
- DataSource.CoreSource.WriteString: writes to a memory source do not fail; sources other than memory are not modelled.
- Archive.Serialize: save functions do not fail, and the hierarchy of the class is found; long double variables, strings in buffers of fixed size and functions as variables are left out, and real numbers are their bits.
- RoundTrip.SaveAndLoad: for objects whose names, paths and strings are within the limits of the code and that have no constant strings (`Archive.Restorable`), where the load functions of the classes invert the save functions and the target has the same debugging flag.
- Loading.Unserialize: the dataset that a failure frees is left out; an error of the data source counts as failure, where the default handler ends the program; checks that are compiled in for debugging are left out.
- GeneratedNames.GenName: a search that does not end is the result `hangs`; the NULL parent, for which the first name is taken, is left out.
- DataSource.CoreSource.ReadInt: a wrong type code is a failure, where AG_ReadUint32 and the like return 0 in debug mode and raise no error.
- Loading.LoadVariables: a string that cannot be read is a failure, where the code sets the empty string once an error handler returns; the default handler ends the program.
- Dependencies.Survive: for objects that `RoundTrip.SaveAndLoad` brings back, and paths shorter than AG_OBJECT_PATH_MAX, of characters of one byte.
- ClassSpec.ParseClassSpec: the buffers are strings with their sizes checked, and the names and prefixes of namespaces hold no parentheses.
- ClassPattern.FastPath: for a pattern and a hierarchy that fit their buffers; longer patterns are cut by the general function.
- ClassTable.Registry.Register: for a class that is not registered; a fatal error is the result false, and nothing is said of the state then. Namespaces do not change.
- ClassTable.Registry.Unregister: for a class that is registered, or whose hierarchy no class has, and not for the root.
- HashTable.Tbl.InsertHash: variables are values, and copying and freeing them is left out.
- Snprintf.FmtInt: widths and precisions do not overflow, and a long has 64 bits.
- FormatString.Dopr: what fmtfp writes is a parameter, and so are the arguments, each as the types that it is taken as; what '%n' stores is left out.
- Locks other than in the audio device, memory that runs out, and fatal errors: operations are taken as atomic and allocation as successful.
- Sockets, files, shared objects, processes, databases, threads and the graphical libraries: calls into systems that the model does not see.
- core/list.h and core/tree.h, event arguments, languages and locales, AG_Printf extensions: easier than what is here, or tied to the system.
