# Verified model of the Kafka producer client

The repository is a C++ client around librdkafka.  This project models, in Dafny, the
code whose behaviour is hard to see from one function, and proves what it is for:

* `Producer.dfy` - the life of a producer: the application thread in `initKafka`,
  `send`, `pollEvent` and `closeKafka`, the polling thread, the brokers and timers, as
  interleaved steps.  `DeliveryCallback.dfy` - the object that passes reports on.
* `TailQueue.dfy`, `CircleQueue.dfy`, `SimpleQueue.dfy` - the intrusive queues of
  `queue.h` as objects on the heap, each operation proved to change a sequence.
* `Crc32.dfy` - the table-driven CRC-32 against its definition by long division, and
  what the checksum detects.
* `Words.dfy`, `Varint.dfy`, `Wire.dfy`, `KafkaBuf.dfy`, `TmpBuf.dfy` - the wire format:
  64-bit words as numbers, what the writers append, what the readers make of it,
  back-patched array counts, checksum brackets, and the aligned scratch buffer.
* `Interval.dfy`, `Average.dfy`, `RoundRobin.dfy`, `RefCount.dfy` - rate limiter,
  statistics window, address rotation and reference counter, over whole runs.
* `Arithmetic.dfy`, `Options.dfy` - shared facts and types.

`dafny verify dfyconfig.toml` checks everything.

Bit-vector operators in `Crc32.dfy` and `Words.dfy` have names, and proofs about many
steps `hide` their definitions: the solver then reasons with their laws instead of with
single bits.

## Where the code does not do what is promised

Each of these is proved with the exact condition under which the promise holds.

* `rd_kafka_buf_finalize_arraycnt` in flexible mode: from a count of 2^28 - 1 on the
  encoder returns 0, `RD_UVARINT_OVERFLOW` (a comparison with `SIZE_MAX`) does not notice,
  and the four bytes are erased with no count in their place (`Wire.PatchedFlexible`).
  The same branch writes to the buffer without the assertion that no checksum is being
  computed; what that does to the checksum is `KafkaBuf.PatchInsideBracket` and
  `KafkaBuf.FourBytePatchInsideBracket`.
* Strings of 2^15 bytes and more in the standard encoding, and lengths of 2^31 and more
  elsewhere, are written with a truncated length and do not come back
  (`Wire.MessageRoundTrip`).
* `rd_kafka_buf_skip_tags` takes one byte less than the length of a tag.  A section whose
  last tag carries data is left one byte short if every earlier tag is empty or ends in a
  byte with the top bit set, and is skipped exactly if the last one is empty too
  (`Wire.TagSectionIsSkipped`).  Behind any other tag the reader takes a data byte for a
  type and the next type for a length (`Wire.TagSectionGoesOff`), which for two tags may
  even end at the right place (`Wire.TwoTagsAreSkippedIff`, `Wire.EarlierDataGoesEitherWay`).
* `rd_tmpabuf_failed` documents 1 after a failed operation; the flag is never set
  (`TmpBuf.Buf.Failed`).
* `rd_interval` documents that the first call fires immediately; without `immediate` it
  does so only once the clock is past the interval (`Interval.FirstCallFires`).
* A disabled interval is documented to stay so until init or reset; `rd_interval_expedite`
  with 0 ends it as well (`Interval.DisabledFiresIff`, `Interval.ExpediteEndsDisabling`).
* `minv` of an averager forgets a minimum of zero when another sample follows, and `maxv`
  is 0 when all samples are negative (`Average.MinIsRight`, `Average.MaxIsRight`).
* `ProducerCallback::setSendCallback` deletes the callback it replaces, so passing the
  installed one again leaves a deleted object installed
  (`DeliveryCallback.Dispatcher.SetSendCallback`).

## Model

| member | source | states |
|---|---|---|
| Producer.NoUseAfterDelete | KafkaProducer.cpp:143-177 | in every interleaving of the two threads, whatever step is possible next, if it calls into the producer then the pointer it goes through is not NULL and the object it names has not been deleted |
| Producer.DeletedAfterExit | KafkaProducer.cpp:156-170 | the step that deletes the producer is possible only once the polling thread has exited and no delivery callback is running on either thread |
| Producer.AllReportedAtClose | KafkaProducer.cpp:152-170 | when `closeKafka` reaches the deletion, and until the next `initKafka`, every message that `send` ever accepted has been reported exactly once, by whichever thread served it |
| Producer.OutcomeAtClose | ProducerCallback.cpp:24-41 | then `success` was called, once, for exactly the accepted messages with status PERSISTED or POSSIBLY_PERSISTED, and `fail`, once, for exactly the others |
| Producer.EveryOutcomeIsPossible | KafkaProducer.cpp:104-177 | whatever messages are sent, whatever statuses the brokers give them and whichever of them the polling thread is to report, some run from start to the end of `closeKafka` does so, with these outcomes: the model forbids nothing that the code lets happen there |
| Producer.ReportedAtMostOnce | ProducerCallback.cpp:24-41 | at any moment a message has been reported at most once, only if it was accepted, and to `success` or `fail` according to the status the brokers gave it |
| Producer.WorkIsDone | KafkaProducer.cpp:152-154 | in any run without sends, 2 x unacknowledged + waiting reports falls by exactly the number of acknowledgements and served reports, so the drain loop has a true measure |
| Producer.WorkStep | KafkaProducer.cpp:152-154 | each acknowledgement and each served report lowers 2 x unacknowledged + waiting reports by one, and no other step but `send` changes it |
| Producer.DrainEndsIff | KafkaProducer.cpp:152-154 | the drain loop ends at the first test that finds no producer, or nothing unacknowledged and no report or event waiting |
| Producer.EmptyPolls | KafkaProducer.cpp:152-154 | a poll that finds nothing leaves everything as it was, in `pollEvent`, in the drain loop and in the polling thread |
| Producer.CloseWithoutProducer | KafkaProducer.cpp:143-177 | `closeKafka` undoes a failed `initKafka`, and does nothing when nothing is open |
| Producer.CloseCanComplete | KafkaProducer.cpp:143-177 | from every reachable state inside `closeKafka` some run without sends ends it with producer and configuration deleted: draining and joining cannot block each other |
| Producer.ServedAtMost | KafkaProducer.cpp:152-154 | in any run of both threads without new messages and events, acknowledgements, served reports and events, and ended callbacks together number at most what is outstanding, the callbacks of both threads counted |
| Producer.CloseCannotLinger | KafkaProducer.cpp:143-177 | once nothing is outstanding, the application thread takes at most six more steps in any run of both threads, and until `closeKafka` is at its end with the producer deleted some thread can go on: only silent brokers keep it open |
| Producer.ThreadStops | KafkaProducer.cpp:251-261 | once `bRun` is cleared, the polling thread takes at most two steps more than there is left to serve, in any run, so that the join returns |
| Producer.InvStep | KafkaProducer.cpp:251-261 | every step of either thread, of the brokers and of the timers keeps the joint invariant (pointer validity, who may run when, empty queues past the drain loop, one place for each message, truthful reports) |
| DeliveryCallback.Dispatcher.DrCb | ProducerCallback.cpp:24-41 | a report reaches `success` if its status is PERSISTED or POSSIBLY_PERSISTED and `fail` otherwise, never both, and nothing else changes |
| DeliveryCallback.Dispatcher.SetSendCallback | ProducerCallback.cpp:43-53 | the replaced callback is deleted whoever created it; reports can be passed on afterwards if and only if the new callback is not NULL and not the one being replaced |
| DeliveryCallback.Dispatcher.Destroy | ProducerCallback.cpp:12-22 | the destructor deletes the callback if and only if it is the default one |
| TailQueue.Queue.Init | common/include/kafka/queue.h:488-491 | afterwards the queue is well linked and has no element |
| TailQueue.Queue.InsertHead | common/include/kafka/queue.h:493-502 | the element is put before all others, with every forward and backward link right again |
| TailQueue.Queue.InsertTail | common/include/kafka/queue.h:504-510 | the element is put after all others, and the tail address is that of its next field |
| TailQueue.Queue.InsertAfter | common/include/kafka/queue.h:512-522 | the element is put directly behind the given one, also when that was the last |
| TailQueue.Queue.InsertBefore | common/include/kafka/queue.h:524-530 | the element is put directly in front of the given one, also when that was the first, without access to the head |
| TailQueue.Queue.Remove | common/include/kafka/queue.h:532-542 | exactly the given element leaves, the order of the others stays, and the removed entry keeps its own fields |
| TailQueue.Queue.Replace | common/include/kafka/queue.h:544-554 | the new element takes the place of the old one, the rest of the sequence stays |
| TailQueue.Queue.Concat | common/include/kafka/queue.h:556-563 | all elements of the second queue follow those of the first, in order, and the second queue is empty and usable |
| TailQueue.Queue.First | common/include/kafka/queue.h:420-427 | the first element, or NULL exactly when there is none |
| TailQueue.Queue.Last | common/include/kafka/queue.h:423-424 | reading the entry behind `tqh_last` as a head yields the last element, or NULL exactly when the queue is empty |
| TailQueue.Queue.Prev | common/include/kafka/queue.h:425-426 | reading the struct behind `tqe_prev` as a head yields the element before, or NULL exactly for the first |
| TailQueue.Queue.ForEach | common/include/kafka/queue.h:430-433 | terminates and visits the elements in order, each once |
| TailQueue.Queue.ForEachReverse | common/include/kafka/queue.h:440-443 | terminates and visits exactly the reverse of the forward order |
| TailQueue.Queue.ForEachSafe | common/include/kafka/queue.h:435-438 | with a body that removes any set of elements as it meets them, all original elements are still visited in order, and exactly the others remain |
| TailQueue.Queue.ForEachReverseSafe | common/include/kafka/queue.h:445-448 | the same backwards, where the previous element is found by the layout pun before the body runs |
| TailQueue.WithoutIsFilter | common/include/kafka/queue.h:435-448 | what these two leave is every other element, once, in its old order |
| TailQueue.LinksDetermineElements | common/include/kafka/queue.h:400-427 | two well-linked chains with the same head are the same sequence: the links alone fix the elements and their order |
| CircleQueue.Queue.InsertAfter | common/include/kafka/queue.h:754-764 | the element is put directly behind the given one, in both directions, with the head as end mark |
| CircleQueue.Queue.InsertBefore | common/include/kafka/queue.h:766-776 | the element is put directly in front of the given one |
| CircleQueue.Queue.InsertHead | common/include/kafka/queue.h:778-787 | the element becomes the first |
| CircleQueue.Queue.InsertTail | common/include/kafka/queue.h:789-798 | the element becomes the last |
| CircleQueue.Queue.Remove | common/include/kafka/queue.h:800-814 | exactly the given element leaves, at either end and in the middle |
| CircleQueue.Queue.LoopStep | common/include/kafka/queue.h:840-847 | LOOP_NEXT and LOOP_PREV move by one position modulo the number of elements, never to the head |
| CircleQueue.Queue.LoopPrevUndoesLoopNext | common/include/kafka/queue.h:840-847 | each of LOOP_NEXT and LOOP_PREV undoes the other |
| CircleQueue.Queue.Loop | common/include/kafka/queue.h:840-843 | k rounds of LOOP_NEXT from position i lead to position i + k modulo the number of elements |
| CircleQueue.Queue.LoopIsInjective | common/include/kafka/queue.h:840-843 | the first n rounds from any of n elements visit no element twice |
| CircleQueue.Queue.LoopReaches | common/include/kafka/queue.h:840-843 | they leave no element out |
| CircleQueue.Queue.LoopReturns | common/include/kafka/queue.h:840-843 | the n-th round is back at the start |
| SimpleQueue.Queue.Init | common/include/kafka/queue.h:336-339 | afterwards the queue is well linked and has no element |
| SimpleQueue.Queue.InsertHead | common/include/kafka/queue.h:341-345 | the element becomes the first, and the tail address follows when the queue was empty |
| SimpleQueue.Queue.InsertTail | common/include/kafka/queue.h:347-351 | the element becomes the last |
| SimpleQueue.Queue.InsertAfter | common/include/kafka/queue.h:353-357 | the element is put directly behind the given one, and the tail address follows when that was the last |
| SimpleQueue.Queue.RemoveHead | common/include/kafka/queue.h:359-362 | the first element leaves, and an emptied queue can be appended to again |
| SimpleQueue.Queue.RemoveAfter | common/include/kafka/queue.h:364-368 | exactly the element behind the given one leaves |
| SimpleQueue.Queue.Remove | common/include/kafka/queue.h:370-381 | the search for the predecessor terminates, exactly the given member leaves, and the tail address is right even when it was the last |
| SimpleQueue.Queue.Concat | common/include/kafka/queue.h:383-389 | all elements of the second queue follow those of the first, and the second is empty and usable |
| SimpleQueue.Queue.Last | common/include/kafka/queue.h:391-395 | the object that holds the field behind the tail address is the last element, or NULL exactly when there is none |
| SimpleQueue.SListRemove | common/include/kafka/queue.h:164-175 | the search terminates and exactly the given member leaves |
| Crc32.Crc | common/include/kafka/rdcrc32.h:163-167 | the table-driven code computes the CRC that its parameters define: long division by x^32 + 0x04c11db7 of the reflected bits, reflected and inverted |
| Crc32.Update | common/include/kafka/rdcrc32.h:125-141 | for every starting value and every byte string the loop over the table equals feeding the bits one at a time, least significant first |
| Crc32.AbsorbByte | common/include/kafka/rdcrc32.h:133-138 | one round of the loop (index, table, shift, mask) is eight single-bit steps |
| Crc32.FeedIsDivide | common/include/kafka/rdcrc32.h:39-46 | bit steps on the reflected register mirror polynomial long division, most significant bit first, for every register and every bit string |
| Crc32.StepsAreLinear | common/include/kafka/rdcrc32.h:131-139 | any number of bit steps distributes over xor |
| Crc32.FeedTellsApart | common/include/kafka/rdcrc32.h:131-139 | from one register, two different strings of the same length of at most 32 bits never lead to the same register |
| Crc32.BurstIsDetected | common/include/kafka/rdcrc32.h:150-167 | two messages of equal length that differ, but only inside some window of at most 32 consecutive bits at any bit position, have different checksums |
| Crc32.TrailerIsAccepted | common/include/kafka/rdcrc32.h:150-167 | a message followed by four bytes leaves the residue 0xdebb20e3 if and only if those bytes are its checksum, low byte first |
| Crc32.KnownValues | common/include/kafka/rdcrc32.h:39-46 | the checksums of the empty message and of one letter, which fix initial value and final xor |
| Varint.EncodeU64 | common/include/kafka/rdvarint.h:48-61 | the loop writes exactly the shortest base-128 spelling when it fits the buffer and returns 0 exactly when it does not |
| Varint.Decode | common/include/kafka/rdvarint.h:114-129 | for any bytes, the loop stops at the first byte with a clear top bit and returns the number spelt modulo 2^64, or 0 when the bytes run out |
| Varint.UvarintAt | common/include/kafka/rdvarint.h:48-61 | byte j of an encoding is the digit of n with weight 128^j, with 128 added on all but the last |
| Varint.Base128At | common/include/kafka/rdvarint.h:114-129 | of any bytes, the number spelt has the low seven bits of byte j as its digit with weight 128^j |
| Varint.RunLengthIs | common/include/kafka/rdvarint.h:114-129 | of any bytes, the run ends at the first one below 128, and there is none exactly if all are 128 or more |
| Varint.UvarintRunLength | common/include/kafka/rdvarint.h:48-61 | an encoding ends itself: whatever bytes follow, the decoder stops at its end |
| Varint.UvarintValue | common/include/kafka/rdvarint.h:48-61 | the seven-bit digits of the encoding of n spell n |
| Varint.UvarintLength | common/include/kafka/rdvarint.h:147-148 | exactly the numbers below 128^k need at most k bytes |
| Varint.ZigZagWordIsZigZag | common/include/kafka/rdvarint.h:69 | for every 64-bit word, the shift-and-xor expression of the encoder computes 2v or -2v-1 of the signed number that the word stands for |
| Varint.UnZigZagWordIsUnZigZag | common/include/kafka/rdbuf.h:318-320 | for every 64-bit word, the expression of the decoder computes, as a signed number, n/2 or -(n/2)-1 |
| Varint.ZigZagWordRoundTrip | common/include/kafka/rdbuf.h:311-324 | the two word expressions undo each other, on every word, in both orders |
| Varint.ZigZagOrder | common/include/kafka/rdvarint.h:69 | zig-zag numbers all integers by magnitude, a negative one before its opposite |
| Varint.ZigZagRoundTrip | common/include/kafka/rdbuf.h:311-324 | on numbers, zig-zag decoding undoes encoding, and exactly the 64-bit values map below 2^64 |
| Wire.MessageRoundTrip | common/include/kafka/rdkafka_buf.h:1022-1208 | any list of values of the C types, written one after the other in either encoding and then read, comes back equal from exactly the bytes written, whatever follows, if and only if every string and byte array keeps its length limit |
| Wire.TruncatedMessage | common/include/kafka/rdkafka_buf.h:422-427 | a message that keeps the limits and lacks bytes at its end is never read: every shorter part of it underflows |
| Wire.MessageOnPrefix | common/include/kafka/rdkafka_buf.h:455-632 | of any bytes and any list of kinds: what is read from them is read from any first part that holds all it took, and a shorter part underflows |
| Wire.FieldRoundTrip | common/include/kafka/rdkafka_buf.h:905-1050 | one value comes back equal if and only if it keeps its limit, and a value over its limit never comes back equal |
| Wire.StrRoundTrip | common/include/kafka/rdkafka_buf.h:567-586 | strings come back, NULL and empty kept apart, if and only if shorter than 2^15 (standard) or 2^31 (compact) |
| Wire.BytesRoundTrip | common/include/kafka/rdkafka_buf.h:619-632 | byte arrays come back, NULL and empty kept apart, if and only if shorter than 2^31 |
| Wire.IntRoundTrip | common/include/kafka/rdkafka_buf.h:477-523 | an integer written in network order reads back as its conversion to the signed type of that many bytes |
| Wire.IntOnWire | common/include/kafka/rdkafka_buf.h:905-947 | network order: byte j of k is the digit of the two's complement value with weight 256^(k-1-j) |
| Wire.IntOffWire | common/include/kafka/rdkafka_buf.h:477-523 | of any bytes, the integer read is the one in range of the type that has the first k bytes as its digits, most significant first |
| Wire.UvarintOffWire | common/include/kafka/rdkafka_buf.h:551-559 | of any bytes, the number read is the one spelt up to the first byte below 128, modulo 2^64, and reading fails exactly if there is no such byte |
| Wire.StrOnWire | common/include/kafka/rdkafka_buf.h:1117-1150 | a standard string is two bytes of length and its characters, NULL is ff ff |
| Wire.CompactStrOnWire | common/include/kafka/rdkafka_buf.h:1117-1150 | a compact string is the varint of its length plus one and its characters, NULL is 00 |
| Wire.BytesOnWire | common/include/kafka/rdkafka_buf.h:1199-1208 | a byte array is four bytes of length and its bytes, NULL is ff ff ff ff |
| Wire.TagsOnWire | common/include/kafka/rdkafka_buf.h:705-709 | an empty tag section is 00 in flexible mode and nothing otherwise |
| Wire.StrFailsIff | common/include/kafka/rdkafka_buf.h:567-586 | of any bytes, a standard string fails to be read exactly on a missing length, one below -1, or one larger than what remains |
| Wire.CompactStrFailsIff | common/include/kafka/rdkafka_buf.h:567-586 | the same for a compact string, with the varint less one as its length |
| Wire.BytesFailIff | common/include/kafka/rdkafka_buf.h:619-632 | the same for a byte array |
| Wire.ArrayCntIs | common/include/kafka/rdkafka_buf.h:715-727 | of any bytes, an array count is the number in front, less one in flexible mode, and fails exactly on missing bytes, below zero, and above a maximum other than -1 |
| Wire.TagsRoundTrip | common/include/kafka/rdkafka_buf.h:686-709 | the empty tag section that is written is skipped exactly |
| Wire.TagSectionIsSkipped | common/include/kafka/rdkafka_buf.h:686-698 | a section of any number of tags, of which those before the last are empty or end in a byte with the top bit set, is skipped exactly if the last tag is empty, and one byte short otherwise |
| Wire.TagSectionGoesOff | common/include/kafka/rdkafka_buf.h:686-698 | behind the first tag whose data ends in a byte below 0x80, the reader takes the tags that follow from that byte on: what it skips in all is that much and what it makes of the rest, so the section is skipped exactly if and only if that rest is |
| Wire.TwoTagsAreSkippedIff | common/include/kafka/rdkafka_buf.h:686-698 | two tags, the first with data that ends in a byte below 0x80: skipped exactly if and only if the type of the second, less one, equals the size of its length and data |
| Wire.EarlierDataGoesEitherWay | common/include/kafka/rdkafka_buf.h:686-698 | inputs for both cases: data in an earlier tag may and may not keep the section from being skipped exactly |
| Wire.PatchedFlexible | common/include/kafka/rdkafka_buf.h:989-1015 | back-patching turns prefix + 4 bytes + suffix into prefix + compact count + suffix if and only if count + 1 < 2^28; above that the count is silently missing |
| Wire.ArrayCntRoundTrip | common/include/kafka/rdkafka_buf.h:715-727 | a back-patched count within that limit reads back, and the bytes before and after it are as written |
| Wire.PatchedMessageRoundTrip | common/include/kafka/rdkafka_buf.h:970-1015 | values, a back-patched count and more values decode in order to what was written |
| KafkaBuf.Buf.Write | common/include/kafka/rdkafka_buf.h:874-884 | appends, returns the old end, and the running checksum still covers what was appended since it was started, which is the end of the buffer from there on |
| KafkaBuf.Buf.CrcInit | common/include/kafka/rdkafka_buf.h:1237-1241 | starts a bracket at the end of the buffer, with nothing in it |
| KafkaBuf.Buf.CrcFinalize | common/include/kafka/rdkafka_buf.h:1246-1250 | however the bytes were split into writes, the result is the CRC-32 of all that was appended, and of the buffer from the start of the bracket to its end unless a count inside was patched to other bytes |
| KafkaBuf.Buf.Exchange | common/include/kafka/rdkafka_buf.h:477-1208 | on the object itself: a list of values written by the writers and then read by the readers comes back equal, with the cursor at the end, if and only if all keep their limits |
| KafkaBuf.Buf.ExchangeTruncated | common/include/kafka/rdkafka_buf.h:422-427 | with bytes missing at the end, the readers fail and set the error |
| KafkaBuf.Buf.WriteInt | common/include/kafka/rdkafka_buf.h:905-947 | appends the two's complement value in network order |
| KafkaBuf.Buf.WriteUvarint | common/include/kafka/rdkafka_buf.h:1055-1063 | the ten-byte scratch buffer is enough for every 64-bit value |
| KafkaBuf.Buf.WriteVarint | common/include/kafka/rdkafka_buf.h:1042-1050 | appends the zig-zag varint of any 64-bit value |
| KafkaBuf.Buf.WriteStr | common/include/kafka/rdkafka_buf.h:1117-1150 | appends the standard or compact string that the reader's inverse is proved for |
| KafkaBuf.Buf.WriteKstr | common/include/kafka/rdkafka_buf.h:1073-1108 | NULL, plain and pre-serialized Kafka strings give the same bytes as the corresponding C string |
| KafkaBuf.Buf.WriteBytes | common/include/kafka/rdkafka_buf.h:1199-1208 | appends the byte array, or the NULL length |
| KafkaBuf.Buf.WriteTags | common/include/kafka/rdkafka_buf.h:705-709 | appends an empty tag section in flexible mode and nothing otherwise |
| KafkaBuf.Buf.Update | common/include/kafka/rdkafka_buf.h:896-900 | outside a checksum bracket, overwrites in place and keeps every other byte and the length |
| KafkaBuf.Buf.WriteArrayCntPos | common/include/kafka/rdkafka_buf.h:974 | leaves four bytes for the count and returns where |
| KafkaBuf.Buf.FinalizeArrayCnt | common/include/kafka/rdkafka_buf.h:989-1015 | overwrite and erase together give the patched buffer that the count theorems are about; a bracket behind the count moves with its bytes, one around it no longer matches the buffer if these changed |
| KafkaBuf.PatchInsideBracket | common/include/kafka/rdkafka_buf.h:996-1015 | a flexible patch inside an open bracket, for every count: the checksum of the patched bytes is still that of the appended ones if and only if old bytes and new encoding lead from the register before them to one register; what follows makes no difference |
| KafkaBuf.FourBytePatchInsideBracket | common/include/kafka/rdkafka_buf.h:996-1015 | for counts that take four bytes the checksum stays right if and only if the patch changes nothing |
| KafkaBuf.Buf.Read | common/include/kafka/rdkafka_buf.h:455-459 | reads the bytes and moves on, or fails without moving when they are not there |
| KafkaBuf.Buf.ReadInt | common/include/kafka/rdkafka_buf.h:477-523 | the decoded value with the cursor behind it, or an underflow |
| KafkaBuf.Buf.ReadUvarint | common/include/kafka/rdkafka_buf.h:551-559 | the decoded value with the cursor behind it, or an underflow |
| KafkaBuf.Buf.ReadVarint | common/include/kafka/rdkafka_buf.h:538-545 | the decoded value with the cursor behind it, or an underflow |
| KafkaBuf.Buf.ReadStr | common/include/kafka/rdkafka_buf.h:567-586 | the decoded string with the cursor behind it; a negative length but -1, or one larger than what remains, is an underflow |
| KafkaBuf.Buf.ReadBytes | common/include/kafka/rdkafka_buf.h:619-632 | the decoded byte array with the cursor behind it; a negative length but -1, or one larger than what remains, is an underflow |
| KafkaBuf.Buf.SkipTagsLoop | common/include/kafka/rdkafka_buf.h:686-698 | the loop over a tag section of any count terminates where its specification says, or underflows |
| KafkaBuf.Buf.ReadArrayCnt | common/include/kafka/rdkafka_buf.h:715-727 | the count, which is never negative nor above a maximum other than -1, or a failure |
| TmpBuf.Buf.Alloc | common/include/kafka/rdkafka_buf.h:89-111 | on success the new region is 8-aligned, inside the buffer and apart from all earlier ones if and only if offset + size does not overflow; a failure changes nothing |
| TmpBuf.Buf.Write | common/include/kafka/rdkafka_buf.h:123-132 | the region holds the bytes, the rest of the memory is unchanged, and with it what every earlier write left in its region |
| TmpBuf.Buf.Serve | common/include/kafka/rdkafka_buf.h:57-132 | over any run of allocations and writes on a buffer: regions stay 8-aligned, pairwise apart and inside the buffer, everything ever written is still there at the end, and all requests succeed if and only if the sizes fit (`AllSucceed`) |
| TmpBuf.Buf.Failed | common/include/kafka/rdkafka_buf.h:77-80 | always 0: no operation sets the flag, although the documentation promises 1 after a failure |
| TmpBuf.RoundUpBounds | common/include/kafka/rd.h:207-208 | a rounded size is the next multiple of eight |
| TmpBuf.AllSucceedIff | common/include/kafka/rdkafka_buf.h:89-111 | that is, if and only if the rounded sizes of all but the last, plus the last, fit the buffer; in particular if all rounded sizes do |
| TmpBuf.RoundUpExpression | common/include/kafka/rd.h:207-208 | clearing the low bits rounds up to a multiple of eight |
| Interval.RdInterval.Check | common/include/kafka/rdinterval.h:66-87 | overshoot and new state of every call, with the clock read when the time given is 0; `immediate` counts only when the interval has not fired since init or reset |
| Interval.FiringsAreSpaced | common/include/kafka/rdinterval.h:66-87 | over any run of polls, immediate or not and each with any interval, and of non-negative back-offs: each firing is more than its own interval after the firing before |
| Interval.Perform | common/include/kafka/rdinterval.h:66-131 | the calls of a run made on the object: the polls that return a positive value are those of the run, and spaced as said |
| Interval.RateLimit | common/include/kafka/rdinterval.h:66-87 | n consecutive firings take at least (n - 1)(us + 1) when no poll asks for less than us |
| Interval.FiringsInWindow | common/include/kafka/rdinterval.h:66-87 | a window of length T holds at most T / (us + 1) + 1 firings |
| Interval.FiringsAreMaximal | common/include/kafka/rdinterval.h:66-87 | polling alone fires as often as the limit allows: no choice of polls spaced more than the interval is larger |
| Interval.BackoffDelaysOneFiring | common/include/kafka/rdinterval.h:112-118 | a back-off delays one firing only: the first poll past it fires, and all later polls fire as if there had been none |
| Interval.FirstCallFires | common/include/kafka/rdinterval.h:58-61 | the first call after a reset fires if and only if it is immediate or the clock is past interval and back-off; the documentation promises it without condition |
| Interval.RdInterval.Expedite | common/include/kafka/rdinterval.h:120-131 | with 0 the next call is like the first one, also on a disabled interval |
| Interval.DisabledFiresIff | common/include/kafka/rdinterval.h:107-150 | a disabled interval fires, in any run of polls, back-offs, expedites and resets before the far time, if and only if some poll after a reset or an expedite with 0 is immediate, or past its interval and the back-off then in force |
| Interval.DisabledNeverFires | common/include/kafka/rdinterval.h:142-150 | so it stays silent in every run without a reset and without an expedite with 0 |
| Interval.ExpediteEndsDisabling | common/include/kafka/rdinterval.h:120-150 | an input on which it fires although it was not reset |
| Average.RdAvg.Add | common/include/kafka/rdavg.h:77-93 | an enabled averager takes the sample into its window, a disabled one does nothing |
| Average.RdAvg.Rollover | common/include/kafka/rdavg.h:140-223 | the destination gets the whole window and its average, and the source starts an empty one; a disabled source yields zeroes |
| Average.Play | common/include/kafka/rdavg.h:77-223 | the calls of any history made on the object: windows, averages and the live window are those of the samples between the rollovers, with sums and counts conserved |
| Average.WindowsPartitionSamples | common/include/kafka/rdavg.h:140-173 | over any history every sample is in exactly one window, in order, and every window holds the statistics of its own samples |
| Average.TotalsAreConserved | common/include/kafka/rdavg.h:140-173 | sums and counts of all rolled-out windows and the live one are those of all samples |
| Average.MinIsRight | common/include/kafka/rdavg.h:85-86 | the recorded minimum is the true one if and only if that is not zero or the last sample is zero |
| Average.MaxIsRight | common/include/kafka/rdavg.h:83-84 | the recorded maximum is the true one, or 0 when all samples are negative |
| Average.GaugeBounds | common/include/kafka/rdavg.h:99-104 | the average of any window lies between its smallest and largest sample, and is the sum divided by the count, rounded toward zero |
| Average.PositiveWindow | common/include/kafka/rdavg.h:77-104 | for positive samples minv <= avg <= maxv with the true bounds, and avg * cnt <= sum < (avg + 1) * cnt |
| RoundRobin.AddrList.Next | common/include/kafka/rdaddr.h:129-133 | moves to the next index, after the last to 0, and returns it |
| RoundRobin.AddrList.Take | common/include/kafka/rdaddr.h:129-133 | any number of calls on the object: each result is the one before plus one modulo the count, any cnt in a row hold every index exactly once, and the numbers of times two indices come up differ by at most one |
| RoundRobin.CallShift | common/include/kafka/rdaddr.h:129-133 | a call moves the whole sequence of later results on by one |
| RoundRobin.RoundVisitsEachOnce | common/include/kafka/rdaddr.h:129-133 | any cnt calls in a row return every index exactly once |
| RoundRobin.Fair | common/include/kafka/rdaddr.h:129-133 | after any number of calls no address was returned two times more than another |
| RefCount.InvStep | common/include/kafka/rd.h:314-337 | every atomic step of any thread keeps the counter equal to the references held |
| RefCount.DestroyedOnce | common/include/kafka/rd.h:355-359 | in every interleaving the counter never goes below zero, the destructor runs at most once, it is due or done exactly when no reference is left, and no step on the counter follows |
| RefCount.DestroyCanComplete | common/include/kafka/rd.h:355-359 | from any moment on, some run gives back the references held and ends with the destructor called |
| RefCount.HoldersOnly | common/include/kafka/rd.h:314-337 | a thread can take, pass on and give back references exactly if it holds one, and the counter moves by one accordingly |

## Left out

- The producer is modelled on values, as a transition relation over both threads, not as an object updated in place; each step is one atomic access and memory is sequentially consistent.
- Assumed of callers and of the system: `initKafka` is called with no producer open, `send` with one open, neither from a delivery callback nor concurrently with `closeKafka`; `pthread_create` succeeds and `pthread_join` is called on the thread it made.
- Assumed of librdkafka, whose bodies are not part of this model: one report for each accepted message, `poll` serves waiting reports, `outq_len` as documented; no fairness between threads and no promise that brokers answer, so completion of `closeKafka` is bounded in steps once nothing is outstanding, and not inevitable before.
- Producer.NoUseAfterDelete: `pollEvent` is called by the application thread. `KafkaProducer.h:54` advises a separate thread for it; one that stands between its test of `producer` and `poll` while another thread is in `closeKafka` can use a deleted producer, so that use is not covered, as `send` concurrent with `closeKafka` is not.
- TmpBuf.Buf.Serve: sizes near 2^64, for which offset + size wraps, are left to the exact condition of `TmpBuf.Buf.Alloc`.
- Interval.DisabledFiresIff: `rd_interval_reset_to_now` and changes of the fixed interval are not among the operations of a run, so a run keeps one fixed interval.
- Producer configuration, message headers, UUIDs, time strings and logging in `KafkaProducer.cpp`, and the consumer: no property beyond single bodies.
- The segmented store behind `rd_buf_t` and `rd_slice_t`: their bodies are not part of this model, so the buffer is one sequence of bytes and `rd_slice_ensure_contig` never fails for want of contiguity.
- Varint.Decode: a byte at shift 70 or more, which only encodings of more than ten bytes have, is undefined in C; the model drops its bits.
- Wire.StrRoundTrip: the reader subtracts one from an `int32_t`, which overflows for a compact length of 2^31 - 1; two's complement wrap-around is assumed there and for `cnt + 1` in `finalize_arraycnt`.
- `rd_kafka_buf_write_kbytes` and the bytes with a varint length: the same encodings again, and their serialized shortcut is never taken.
- rd_tmpabuf with `assert_on_fail`, which ends the process instead of returning NULL.
- Interval.RdInterval.Check: times are unbounded integers, so overflow of 64-bit microseconds is not modelled.
- Average.RdAvg.Add: sums are unbounded integers, so overflow of a 64-bit sum is not modelled; nor are counter averages and the histogram.
- RefCount.DestroyedOnce: an operation on the counter is one atomic step; locks and machine atomics are not modelled.
- LIST_* of `queue.h`: covered in kind by the tail queue; LIST_MOVE leaves the first element pointing back at the old head, so the linked invariant does not survive it.
- `crc_table` of `rdcrc32.h` is only declared; its entries are taken to be eight bit steps of their index.
- The reference counter is modelled on values, as a transition relation over its threads, not as an object updated in place.
- The inline assembly around head comparisons in CIRCLEQ, the QUEUEDEBUG checks, and the build of the CRC on zlib.
