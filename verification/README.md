# Verified model of an embedded MQTT client and of the arithmetic under its TLS layer

Two parts of the repository are modelled closely, and four smaller ones beside them. Dafny 4.11 checks everything
with `dafny verify dfyconfig.toml`.

**Multi-precision arithmetic** (`network/mbedtls/library/bignum.c`). An `Mpi` is an object with a sign and a
little-endian buffer of 64-bit limbs that the methods rewrite in place; `Mag()` and `Int()` are the numbers it
stands for. Every routine is written as the C code has it (limb loops, wrap-around, carries found by comparison,
the half-limb division for machines without a double-width type, one buffer passed for several operands) and proved
against the integers. What the routines rest on is proved apart, over the integers: the estimate of a quotient
digit, the Newton steps, the window arithmetic, the gcd steps.

**The MQTT 3.1.1 client engine** (`mqttclient/mqttclient.c`, `common/mqtt_list.c`, `mqtt/*.c`), in layers:

1. `Bytes`, `Codec`, `CodecLists`, `CodecConnect`: packets as byte strings, the methods that write them, the parsers
   that move a cursor over them, and the round trips. `WireFormat`: the same packets in plain numbers, as the
   standard lays them out. `ReturnCodes`: what their return code 1 means.
   `PacketReader`: the blocking and the resumable reader. `TopicMatch`: the wildcard walk.
2. `List`: the intrusive circular list, node by node. `ClientEngine`: the client object, whose two tables are such
   lists and whose packets are written into one buffer. Each of its methods is proved to be one function of
   `ClientSpec` on the value of the client; `ClientTable` proves what all of those functions keep.
3. `QosSystem`: a client, two first-in first-out byte channels that can lose packets or be cut at any time, and a
   server that follows section 4.3.3 of MQTT 3.1.1. Its client steps are the functions of `ClientSpec`, that is,
   what the methods of `ClientEngine` were proved to do. `QosSafety` proves that every step keeps the invariant and
   draws the conclusions for whole runs; `QosStages` follows an outgoing message from record to record;
   `QosProgress` shows that no exchange gets stuck, and `QosFreshness` that identifiers are fresh until the counter
   has gone round. `ExactlyOnce` is the exchange of one identifier, which each direction of the system refines.
   `QosRecords` says which step makes and ends which record and what each step puts on the connection;
   `AtLeastOnce` is about the messages of QoS 0 and 1, and `Subscriptions` about the subscription table.

**Smaller parts**: the Camellia cipher with its reversed key schedule, the XTS mode of AES with ciphertext stealing,
the log's ring buffer with free-running 32-bit counters, and the two-pass base64 decoder.

## Where the code and what is said about it part

Each is kept as the code has it; the lemma or contract named says exactly what then holds.

- A publish of more than 65535 bytes is not kept whole for resending: its length goes through a 16-bit parameter
  (`QosSafety.ResendIsOriginal`, `QosSafety.LongNotKept`).
- A publish under an identifier that is still in use goes out before the table is asked; then it is refused, or
  there are a PUBREC and a PUBCOMP record for it at once (`QosFreshness.IdentifierInUse`).
- A division whose quotient overwrites an operand takes the sign of that operand after overwriting it
  (`MpiDiv.AliasedQuotExact`), and a remainder asked for beside it does so too (`MpiDiv.AliasedRemExact`).
- With a negative base, an odd exponent and a power divisible by the modulus, the modular exponentiation returns
  the modulus, not zero (`ExpMod.ExpModMpi`).
- The greatest common divisor with a second argument of zero comes out as zero (`GcdInv.GcdMpi`).
- The size estimate for packets is one too large at four sizes (`Bytes.PacketLenCovers`).
- Malformed packets are reported with the return code of success: a PUBLISH whose topic or identifier is cut, which
  ends behind the buffer or whose size field is too long (`ReturnCodes.MalformedPublishReturnsOne`), and PUBACK, PUBREC, PUBREL, PUBCOMP, SUBACK,
  SUBSCRIBE and UNSUBSCRIBE in similar cases (`MalformedAckReturnsOne`, `MalformedSubackReturnsOne`,
  `MalformedSubscribeReturnsOne`, `MalformedUnsubscribeReturnsOne` in `ReturnCodes`).
- The CONNECT parser refuses an empty string as the last field (`CodecConnect.ConnectRoundTrip`).
- The SUBACK parser stores one code more than its caller asks for before it gives up, or without giving up
  (`CodecLists.SubackRoundTrip`, `CodecLists.TwoCodesForOne`).
- A wildcard does not match an empty level, and `/#` not its parent level (`TopicMatch.StandardWhenFilled`).

## Model

| member | source | states |
|---|---|---|
| Mpis.Grow | network/mbedtls/library/bignum.c:120-145 | Growing keeps the number, the sign and the old limbs, and adds zero limbs up to the size asked for. |
| Mpis.Copy | network/mbedtls/library/bignum.c:191-228 | The target has the source's value afterwards, whether or not they are the same object, in a buffer that never shrinks and is otherwise no longer than the value needs. |
| Mpis.LSet | network/mbedtls/library/bignum.c:315-329 | The number becomes the given machine integer, of either sign; all higher limbs are cleared. |
| Mpis.CmpAbs | network/mbedtls/library/bignum.c:1005-1032 | Returns the order of the two magnitudes, whatever zero limbs lead the buffers. |
| Mpis.CmpMpi | network/mbedtls/library/bignum.c:1037-1067 | Returns the order of the two integers, with zero equal to minus zero. |
| Mpis.CmpInt | network/mbedtls/library/bignum.c:1072-1084 | Returns the order of the number and a machine integer. |
| MpiAddSub.PropagateCarry | network/mbedtls/library/bignum.c:1127-1138 | The open-ended carry loop ends: it adds the carry exactly and grows the buffer by at most one limb. |
| MpiAddSub.AddAbs | network/mbedtls/library/bignum.c:1089-1143 | The sum of the magnitudes, exactly, for all lengths, also when the target is one of the operands or both. |
| MpiAddSub.SubHlp | network/mbedtls/library/bignum.c:1148-1164 | Subtracting a number that is not larger ends its open-ended borrow loop inside the buffer and is exact. |
| MpiAddSub.SubAbs | network/mbedtls/library/bignum.c:1169-1210 | Refused, changing nothing, exactly when the first magnitude is smaller; otherwise the exact difference, under any aliasing. |
| MpiAddSub.AddMpi | network/mbedtls/library/bignum.c:1215-1245 | The sum of the integers, for every combination of signs and any aliasing. |
| MpiAddSub.SubMpi | network/mbedtls/library/bignum.c:1250-1280 | The difference of the integers, for every combination of signs and any aliasing. |
| MpiMul.MulAddC | network/mbedtls/include/mbedtls/bn_mul.h:887-911 | Four half-limb products with wrap-around make the exact double-width s*b + c + d. |
| MpiMul.MulHlp | network/mbedtls/library/bignum.c:1329-1388 | Adds a limb times a buffer at an offset; with room for the sum the carry loop at the end stops inside the buffer, and the limbs below are untouched. |
| MpiMul.MulMpi | network/mbedtls/library/bignum.c:1393-1428 | The product of the integers, signs included, also when the target is one of the factors or both. |
| MpiMul.MulInt | network/mbedtls/library/bignum.c:1433-1446 | The product with one limb. |
| MpiShift.Bitlen | network/mbedtls/library/bignum.c:414-428 | The magnitude lies between the two powers of two that the bit length names. |
| MpiShift.Lsb | network/mbedtls/library/bignum.c:380-391 | A nonzero number is odd once exactly that many bits are shifted out; zero gives zero. |
| MpiShift.ShiftL | network/mbedtls/library/bignum.c:910-956 | Multiplication by the power of two, in a buffer without a spare limb unless it had one before. |
| MpiShift.ShiftR | network/mbedtls/library/bignum.c:961-1000 | Division of the magnitude by the power of two; the sign is lost only when nothing is left. |
| IntDiv.CorrectionStep | network/mbedtls/library/bignum.c:1515-1521 | Whenever the test of the correction loop holds, although it multiplies with wrap-around, the estimate is above the true digit, so no decrement goes below it. |
| IntDiv.CorrectDigit | network/mbedtls/library/bignum.c:1515-1521 | The loop, left by its test or by its break, ends at the true half-limb digit. |
| IntDiv.IntDivInt | network/mbedtls/library/bignum.c:1452-1542 | Quotient and remainder of a double limb by a limb are exact whenever the quotient fits, although the intermediate remainder wraps; otherwise both come out as all ones. |
| MpiDiv.TruncatedDivision | network/mbedtls/library/bignum.c:1547-1660 | Quotient and remainder are the truncated ones if and only if A = Q*B + R with abs(R) < abs(B) and R zero or of A's sign. |
| MpiDiv.TrueDigitPasses | network/mbedtls/library/bignum.c:1598-1623 | No digit that is small enough fails the comparison of the leading limbs: the correction loop never goes below the true digit. |
| MpiDiv.OneAddBack | network/mbedtls/library/bignum.c:1625-1635 | A digit that passes the comparison overshoots by less than one divisor, so one add-back always suffices. |
| MpiDiv.EstimateDigit | network/mbedtls/library/bignum.c:1600-1623 | The do-while loop ends with a digit that passes the comparison and is at least the true digit. |
| MpiDiv.DivDigit | network/mbedtls/library/bignum.c:1598-1636 | One digit step takes exactly digit times divisor from the dividend and leaves it below the divisor at that place. |
| MpiDiv.DivMpi | network/mbedtls/library/bignum.c:1547-1660 | Division is refused exactly for a zero divisor; otherwise the truncated quotient and remainder, with Q or R absent, R aliasing an operand, and the exact outcome when Q aliases one. |
| MpiDiv.AliasedQuotExact | network/mbedtls/library/bignum.c:1638-1642 | A quotient stored over an operand is right if and only if it is zero or the operands' signs, after overwriting, agree. |
| MpiDiv.AliasedRemExact | network/mbedtls/library/bignum.c:1562-1652 | A remainder beside a quotient stored over the dividend is right if and only if the dividend is zero, or is not the smaller one and either has the divisor's sign or leaves no remainder. |
| MpiMod.ModMpi | network/mbedtls/library/bignum.c:1684-1705 | The non-negative residue, for a dividend of either sign; errors exactly for zero and negative moduli. |
| Montgomery.SeedIsInverse | network/mbedtls/library/bignum.c:1774-1775 | The starting value is an inverse modulo 16 of every odd limb. |
| Montgomery.NewtonDoubles | network/mbedtls/library/bignum.c:1777-1778 | A wrapped Newton step takes an inverse modulo w to one modulo w squared. |
| Montgomery.MontgInit | network/mbedtls/library/bignum.c:1769-1781 | For every odd modulus the constant mm satisfies N[0]*mm = -1 modulo 2^64. |
| Montgomery.LowLimbCancels | network/mbedtls/library/bignum.c:1806-1812 | The multiplier of the modulus, computed with wrap-around, makes the lowest limb of the row zero. |
| Montgomery.ScratchNeeded | network/mbedtls/library/bignum.c:1801-1813 | The row loop writes inside its scratch space if and only if that has 2 n + 2 limbs. |
| Montgomery.MontMul | network/mbedtls/library/bignum.c:1786-1824 | With A < N and B at most N the result is below N and, times 2^(64 n), congruent to A*B; B may be A. |
| ExpMod.MontRed | network/mbedtls/library/bignum.c:1829-1839 | Reduction takes the factor 2^(64 n) out, modulo N. |
| ExpMod.FillTable | network/mbedtls/library/bignum.c:1932-1955 | The table holds in every entry with the top window bit set that power of the base, in Montgomery form. |
| ExpMod.WindowFills | network/mbedtls/library/bignum.c:1994-2018 | A full window names an entry of the filled half of the table, and closing it accounts for exactly the bits read. |
| ExpMod.AbsorbBit | network/mbedtls/library/bignum.c:1975-2018 | Each bit read doubles the exponent absorbed so far and adds itself, whatever the state of the window. |
| ExpMod.ScanExponent | network/mbedtls/library/bignum.c:1963-2019 | When all limbs are read, the exponent in X and the bits left in the window make up E. |
| ExpMod.RemainingBits | network/mbedtls/library/bignum.c:2024-2032 | The bits of an unfinished last window are absorbed one by one, leaving the whole exponent. |
| ExpMod.ExpModMpi | network/mbedtls/library/bignum.c:1844-2056 | For every window size: refused exactly for an even or non-positive modulus or a negative exponent; A^E mod N for A not negative; for negative A congruent to the power and in [0, N], equal to N exactly in the one case named. |
| GcdInv.GcdGreatest | network/mbedtls/library/bignum.c:2061-2112 | Every common divisor divides what is called the divisor here, so it really is the greatest. |
| GcdInv.GcdMpi | network/mbedtls/library/bignum.c:2061-2112 | The result is the greatest common divisor if and only if B is not zero; for B zero the result is zero. |
| GcdInv.HalvingExact | network/mbedtls/library/bignum.c:2189-2201 | When the number is even, either both coefficients are, or both become even after adding TB and subtracting TA; halving keeps the combination. |
| GcdInv.Round | network/mbedtls/library/bignum.c:2187-2229 | A round keeps both combinations U1*TA + U2*TB = TU and V1*TA + V2*TB = TV and the divisor 1, and makes the numbers smaller. |
| GcdInv.InverseExists | network/mbedtls/library/bignum.c:2169-2175 | An inverse exists if and only if the greatest common divisor is 1. |
| GcdInv.InvMod | network/mbedtls/library/bignum.c:2154-2247 | Terminates for odd and even moduli; succeeds if and only if an inverse exists, with X in [0, N) and X*A = 1 modulo N; otherwise the error says which input was wrong and X is unchanged. |
| Bytes.EncodeLen | mqtt/MQTTPacket.c:29-45 | Writes the shortest form of the size field and returns its length. |
| Bytes.DecodeLen | mqtt/MQTTPacket.c:54-81 | Reads at most four bytes, least significant first, and counts the byte it could not accept. |
| Bytes.LenRoundTrip | mqtt/MQTTPacket.c:29-81 | Decoding an encoded size gives it back if and only if it is at most 268435455. |
| Bytes.PacketLenCovers | mqtt/MQTTPacket.c:84-98 | The estimate is the exact packet size, or one more, and the latter only for 127, 16383, 2097150 and 2097151. |
| Codec.SerializePublish | mqtt/MQTTSerializePublish.c:55-91 | Refused, writing nothing, exactly when the estimate exceeds the buffer; otherwise the packet's bytes, which WireFormat.PublishWire tells in plain numbers, stand at the front and nothing else changes. |
| Codec.DeserializePublish | mqtt/MQTTDeserializePublish.c:36-69 | The parser delivers what the layout of the buffer says, its early exits included; of a topic and a payload that end behind the buffer, to which the code only points, it delivers what lies in it, and the length as computed. |
| Codec.PublishRoundTrip | mqtt/MQTTDeserializePublish.c:36-69 | Parsing a serialized message, followed by anything, returns all its fields. |
| Codec.SerializeAck | mqtt/MQTTSerializePublish.c:104-127 | Four bytes, or a refusal exactly for shorter buffers. |
| Codec.DeserializeAck | mqtt/MQTTDeserializePublish.c:82-106 | The parser delivers what the layout of the buffer says. |
| Codec.AckRoundTrip | mqtt/MQTTDeserializePublish.c:82-106 | Parsing a serialized acknowledgement returns its kind, DUP flag and identifier. |
| CodecLists.SerializeSubscribe | mqtt/MQTTSubscribeClient.c:50-86 | Writes exactly the SUBSCRIBE packet of the list, or refuses without writing. |
| CodecLists.DeserializeSubscribe | mqtt/MQTTSubscribeServer.c:35-70 | The parser with its loop over filters delivers what the layout of the buffer says. |
| CodecLists.SubscribeRoundTrip | mqtt/MQTTSubscribeServer.c:35-70 | For filter lists of any length, parsing what was serialized returns them in order with their QoS. |
| CodecLists.SerializeUnsubscribe | mqtt/MQTTUnsubscribeClient.c:49-82 | Writes exactly the UNSUBSCRIBE packet of the list, or refuses without writing. |
| CodecLists.DeserializeUnsubscribe | mqtt/MQTTUnsubscribeServer.c:34-66 | The parser with its loop over topics delivers what the layout of the buffer says. |
| CodecLists.UnsubscribeRoundTrip | mqtt/MQTTUnsubscribeServer.c:34-66 | For topic lists of any length, parsing what was serialized returns them in order. |
| CodecLists.DeserializeSuback | mqtt/MQTTSubscribeClient.c:100-135 | The parser with its loop over return codes answers what the layout of the buffer says, and has stored the codes that say so, whatever the answer. |
| CodecLists.SubackRoundTrip | mqtt/MQTTSubscribeClient.c:100-135 | All codes are stored, or the caller's maximum and one more, and only more than that is answered with -1; nothing is stored behind the caller's array if and only if there are no more codes than its maximum. |
| CodecLists.TwoCodesForOne | mqtt/MQTTSubscribeClient.c:100-135 | With room for one code, as the client has, an acknowledgement of two is accepted and both are stored. |
| ReturnCodes.MalformedPublishReturnsOne | mqtt/MQTTDeserializePublish.c:36-69 | For every buffer: the code 1 is returned for a PUBLISH without its fields inside it if and only if the topic is cut and the size field has one byte, or the identifier is cut and read from behind the packet, or the packet ends behind the buffer, or the size field does not end within four bytes, where in the last two cases the topic fits the packet and the buffer holds the topic's size and the identifier, which are all the code reads. |
| ReturnCodes.MalformedWhole | mqtt/MQTTDeserializePublish.c:36-69 | Of the packets that lie in the buffer with two bytes behind them these are the ones with a cut topic and a size field of one byte, and the ones with a cut identifier. |
| ReturnCodes.IdentifierBehindBuffer | mqtt/MQTTDeserializePublish.c:60-61 | A packet in the buffer is read beyond the buffer if and only if its identifier is cut and the buffer ends before two more bytes. |
| ReturnCodes.LongField | mqtt/MQTTPacket.c:54-81 | A size field is too long if and only if its first four bytes all say that another follows. |
| ReturnCodes.CutTopic | mqtt/MQTTDeserializePublish.c:53-58 | A packet of the first class: three bytes. |
| ReturnCodes.CutIdentifier | mqtt/MQTTDeserializePublish.c:60-64 | A packet of the second class: the payload length comes out as minus two. |
| ReturnCodes.LongSize | mqtt/MQTTDeserializePublish.c:53-64 | A packet of the fourth class. |
| ReturnCodes.CutByBuffer | mqtt/MQTTDeserializePublish.c:53-64 | A packet of the third class: its payload is said to have seven bytes, none of which is in the buffer. |
| ReturnCodes.MalformedAckReturnsOne | mqtt/MQTTDeserializePublish.c:82-106 | For every buffer: an acknowledgement without an identifier inside it is answered with 1 if and only if its size field is one byte saying 0 or 1, or is too long. |
| ReturnCodes.MalformedSubackReturnsOne | mqtt/MQTTSubscribeClient.c:100-135 | For every buffer that holds the packet: a sound SUBACK is answered with 1 if and only if it has at most one code more than asked for, and a malformed one if and only if its size field is one byte saying 0 or 1, or is too long. |
| ReturnCodes.StoredOf | mqtt/MQTTSubscribeClient.c:120-129 | Which codes any SUBACK in the buffer leaves stored: all, or the maximum and one more; within the caller's array if and only if the size field allows no more. |
| ReturnCodes.MalformedSubscribeReturnsOne | mqtt/MQTTSubscribeServer.c:35-70 | A SUBSCRIBE in the buffer, which has two bytes behind the size field, is answered with 1 though malformed if and only if it has no room for the identifier, or its size field has one byte and what follows the identifier is no list of filters. |
| ReturnCodes.MalformedUnsubscribeReturnsOne | mqtt/MQTTUnsubscribeServer.c:34-66 | The same for UNSUBSCRIBE and its list of topics. |
| CodecConnect.SerializeConnect | mqtt/MQTTConnectClient.c:58-121 | Writes exactly the CONNECT packet of the options, or refuses without writing. |
| CodecConnect.ConnectLength | mqtt/MQTTConnectClient.c:27-48 | The length accumulated field by field is the number of bytes the serializer writes after the size field. |
| CodecConnect.DeserializeConnect | mqtt/MQTTConnectServer.c:51-108 | The parser reads the optional fields the flags announce and no others. |
| CodecConnect.ConnectRoundTrip | mqtt/MQTTConnectServer.c:51-108 | Parsing what was serialized returns every option if and only if there is no password without a user name and no empty string in the last place. |
| WireFormat.SizeIs | mqtt/MQTTPacket.c:29-45 | The size field is the one to four bytes of section 2.2.3 of MQTT 3.1.1, told digit by digit. |
| WireFormat.PublishWire | mqtt/MQTTSerializePublish.c:55-91 | A PUBLISH is 48 + 8 DUP + 2 QoS + RETAIN, the size field, the topic with its length, the identifier if the QoS is not 0, and the payload. |
| WireFormat.PublishBits | mqtt/MQTTPacket.h:83-98 | Bit 3 of the header is DUP, bits 2 and 1 are the QoS, bit 0 is RETAIN, and the high half is 3. |
| WireFormat.ParsedBits | mqtt/MQTTDeserializePublish.c:36-69 | The parser takes a packet for a PUBLISH by the same half byte and reads the same bits, for every buffer. |
| WireFormat.DupBit | mqttclient/mqttclient.c:97-115 | Setting DUP sets bit 3 of the header of a PUBLISH and leaves the other bits and bytes; other packets stay as they are. |
| WireFormat.AckWire | mqtt/MQTTSerializePublish.c:104-127 | PUBACK, PUBREC, PUBREL and PUBCOMP are 0x40, 0x50, 0x62 and 0x70, the size 2 and the identifier, high byte first. |
| WireFormat.AckRead | mqtt/MQTTDeserializePublish.c:82-106 | The parser reads type, DUP and identifier from those places, for every packet of that size. |
| WireFormat.SubscribeWire | mqtt/MQTTSubscribeClient.c:50-86 | A SUBSCRIBE is 0x82, the size field, the identifier, and each filter with its QoS behind it. |
| WireFormat.UnsubscribeWire | mqtt/MQTTUnsubscribeClient.c:49-83 | An UNSUBSCRIBE is 0xA2, the size field, the identifier and the filters. |
| WireFormat.SubackRead | mqtt/MQTTSubscribeClient.c:100-135 | From 0x90, the size 3, an identifier and a code the parser takes just these. |
| WireFormat.ConnectWire | mqtt/MQTTConnectClient.c:58-121 | A CONNECT is 0x10, the size field, protocol name and level, the flags bit by bit, the keep-alive time, then client identifier, will topic, will message, user name and password, as far as they are there. |
| WireFormat.ConnectAccepted | mqtt/MQTTConnectServer.c:51-108 | Whatever the parser accepts has level 3 or 4 with a protocol name that agrees with that of its level as far as both go, and the fields its flags announce, a password only with a user name. |
| PacketReader.ReadBlocking | mqtt/MQTTPacket.c:290-316 | What is returned, left in the buffer and consumed for every stream: empty, cut short anywhere, with a size field that is too long or a packet that does not fit. |
| PacketReader.ReadWhole | mqtt/MQTTPacket.c:290-316 | A whole packet that fits is read as a whole: its type, its bytes with the size field in shortest form, and nothing beyond its end. |
| PacketReader.Transport.DecodeNb | mqtt/MQTTPacket.c:324-352 | Can be called again after any byte and ends with the size the blocking decoder finds, or an error exactly for fields longer than four bytes. |
| PacketReader.Transport.ReadNb | mqtt/MQTTPacket.c:362-411 | "Call again" leaves the reading resumable where it stands; any other answer is the packet's type with the buffer complete, or the error for a packet that cannot be read, with the state reset for the next packet. |
| PacketReader.ReadUntilDone | mqtt/MQTTPacket.c:362-411 | Repeated calls come to an answer as soon as the transport has offered enough, whatever the pieces. |
| PacketReader.BothWays | mqtt/MQTTPacket.c:290-411 | However the stream is cut, the resumable reader ends with the type, the buffer and the place in the stream of one blocking read. |
| TopicMatch.TopicIsMatched | mqttclient/mqttclient.c:414-441 | The character walk returns, for well-formed filters, whether the levels match one by one. |
| TopicMatch.WalkIsLevels | mqttclient/mqttclient.c:414-441 | '+' takes one non-empty level, '#' takes one or more levels beginning with a non-empty one, and literal levels must be equal. |
| TopicMatch.StandardWhenFilled | mqttclient/mqttclient.c:414-441 | For all names: the code's match is the standard's (section 4.7.1 of MQTT 3.1.1) with every wildcard facing a level that is there and not empty. |
| TopicMatch.WalkAgainstStandard | mqttclient/mqttclient.c:414-441 | The same of the walk over the characters of filter and name. |
| TopicMatch.AgainstStandard | mqttclient/mqttclient.c:414-441 | On names without empty levels the standard's match is that match, or the match of the parent of a filter that ends in '#'. |
| TopicMatch.ParentNotMatched | mqttclient/mqttclient.c:414-441 | The name `a` is such a parent: the standard matches it with the filter `a/#`, the code does not. |
| List.AddTail | common/mqtt_list.c:110-113 | The node becomes the last of the circle; all other links are in order. |
| List.Add | common/mqtt_list.c:94-97 | The node becomes the first after the head. |
| List.Del | common/mqtt_list.c:125-128 | The circle closes over the place of the node, which keeps its own links, so a walk can go on from it. |
| List.DelInit | common/mqtt_list.c:140-144 | The circle closes over the place of the node, and the node is a circle of its own. |
| List.Move | common/mqtt_list.c:157-161 | Taking a node out and putting it first keeps all others in order. |
| ClientTable.RecordKeeps | mqttclient/mqttclient.c:644-663 | Recording keeps the tables sound: (kind, identifier) keys distinct, the counter equal to the length, every unsubscription tied to one installed subscription. |
| ClientTable.UnrecordKeeps | mqttclient/mqttclient.c:675-697 | Removing takes out exactly the record with that key, and the counter follows. |
| ClientTable.PublishKeeps | mqttclient/mqttclient.c:2225-2321 | Publishing keeps the tables sound, also when the send or the recording fails. |
| ClientTable.SubscribeKeeps | mqttclient/mqttclient.c:2082-2143 | Subscribing keeps the tables sound. |
| ClientTable.UnsubscribeKeeps | mqttclient/mqttclient.c:2162-2199 | Unsubscribing keeps the tables sound when the subscription is not being given up already. |
| ClientTable.OnPubrecPubrelKeeps | mqttclient/mqttclient.c:1164-1182 | Handling PUBREC and PUBREL keeps the tables sound. |
| ClientTable.OnSubackKeeps | mqttclient/mqttclient.c:1056-1089 | Handling SUBACK keeps the tables sound. |
| ClientTable.OnUnsubackKeeps | mqttclient/mqttclient.c:1091-1112 | Handling UNSUBACK takes the subscription out and leaves no record that points to it. |
| ClientTable.ScanKeeps | mqttclient/mqttclient.c:848-879 | A scan keeps the tables sound, whichever records have timed out and whichever sends fail. |
| ClientTable.ScanAtOnce | mqttclient/mqttclient.c:848-879 | A scan with flag 0 keeps exactly the records of QoS exchanges, in order, and sends each one's packet once. |
| ClientTable.CounterFits | mqttclient/mqttclient.c:644-663 | Distinct keys leave room for one more in the 24-bit counter, so it cannot overflow. |
| ClientEngine.MqttClient.constructor | mqttclient/mqttclient.c:1771-1815 | A new client has two empty lists, counter 0 and packet identifier 1. |
| ClientEngine.MqttClient.NextPacketId | mqttclient/mqttclient.c:174-180 | The identifier lies between 1 and 65534 and is one more than the last, as long as that was not the largest; what that means for requests in a row is ClientSpec.IdsComeRound. |
| ClientSpec.IdsComeRound | mqttclient/mqttclient.c:174-180 | Two requests have the same identifier if and only if their distance is a multiple of 65534, so the identifiers of any 65534 requests in a row are distinct. |
| ClientTable.NextIdRange | mqttclient/mqttclient.c:174-180 | With sound tables the next identifier is in range, never 0. |
| ClientEngine.MqttClient.NodeIsExist | mqttclient/mqttclient.c:611-629 | True exactly when a record of that kind and identifier is in the list. |
| ClientEngine.MqttClient.RecordWaiting | mqttclient/mqttclient.c:644-663 | Refused for a key on record; otherwise a new last node with a copy of the packet, and the counter one higher. |
| ClientEngine.MqttClient.UnrecordWaiting | mqttclient/mqttclient.c:675-697 | The loop that deletes while it walks leaves the list without that key and hands out the handler of the record. |
| ClientEngine.MqttClient.GetMsgHandler | mqttclient/mqttclient.c:471-487 | The first installed subscription whose filter equals the text or matches the name. |
| ClientEngine.MqttClient.InstallHandler | mqttclient/mqttclient.c:777-791 | Appends the subscription unless its filter is installed already. |
| ClientEngine.MqttClient.SetPublishDup | mqttclient/mqttclient.c:97-115 | Sets DUP in the header byte in the buffer and leaves all other bytes. |
| ClientEngine.MqttClient.HandlePublish | mqttclient/mqttclient.c:1114-1161 | Answers as the QoS says, records a QoS 2 identifier, and passes the message on unless the answer failed or the identifier was on record; what that means over runs is stated by AtLeastOnce.LowInOrder and QosSafety.InboundExactlyOnce. |
| ClientEngine.MqttClient.PublishAckPacket | mqttclient/mqttclient.c:984-1022 | For PUBREC the PUBCOMP record is taken before PUBREL is sent, and nothing is sent when it was there; for PUBREL a PUBCOMP is sent. |
| ClientEngine.MqttClient.HandlePubrecPubrel | mqttclient/mqttclient.c:1164-1182 | After a PUBREC the record that waited for it has given way to one that waits for PUBCOMP; after a PUBREL the record of the incoming message is gone, whether or not the answer went out. |
| ClientEngine.MqttClient.HandlePubackPubcomp | mqttclient/mqttclient.c:1037-1054 | The record that waited for the packet is gone. |
| ClientEngine.MqttClient.PublishMessage | mqttclient/mqttclient.c:2225-2321 | The message goes out under the next identifier and is then on record with DUP set; a full table, a packet that does not fit and a failed send have their own outcomes. |
| ClientEngine.MqttClient.Subscribe | mqttclient/mqttclient.c:2082-2143 | The request goes out and is on record with the new subscription, which is installed only later. |
| ClientEngine.MqttClient.Unsubscribe | mqttclient/mqttclient.c:2162-2199 | The request goes out and is on record, pointing to the installed subscription. |
| ClientEngine.MqttClient.HandleSuback | mqttclient/mqttclient.c:1056-1089 | The subscription on record is installed, or destroyed when it was refused; what that means for the table is stated by Subscriptions.SubackRead. |
| ClientEngine.MqttClient.HandleUnsuback | mqttclient/mqttclient.c:1091-1112 | The subscription on record leaves the list of subscriptions. |
| ClientEngine.MqttClient.ResendWaiting | mqttclient/mqttclient.c:585-598 | Sends the bytes on record and changes nothing else. |
| ClientEngine.MqttClient.AckListScan | mqttclient/mqttclient.c:848-879 | The scan over the heap list, which deletes as it goes, resends the due QoS records and gives up the other due ones with their subscriptions. |
| ClientEngine.MqttClient.CleanUp | mqttclient/mqttclient.c:800-836 | Both lists are empty, the counter is 0 and the state invalid; nothing is sent or passed on. |
| ExactlyOnce.Keeps | mqttclient/mqttclient.c:1114-1182 | Whatever is lost, repeated, ignored or cut, the exchange of one identifier keeps its invariant. |
| ExactlyOnce.InOrderOnce | mqttclient/mqttclient.c:1114-1182 | What was passed on is what was accepted, once each and in order, but for a last message still under way. |
| QosSafety.Keeps | mqttclient/mqttclient.c:984-1182 | Every step of client, server and connection keeps the invariant of the whole system, for all identifiers at once. |
| QosSafety.RunInv | mqttclient/mqttclient.c:984-1182 | The invariant holds at the end of every run. |
| QosSafety.InboundExactlyOnce | mqttclient/mqttclient.c:1114-1182 | In every run and for every identifier, the QoS 2 messages passed to the application are those the server was given, in order and each once, but for a last one under way; none is missing once the server has had its PUBREC, and so none by its PUBCOMP. |
| QosSafety.OutboundExactlyOnce | mqttclient/mqttclient.c:984-1022 | Likewise for messages accepted from the application; and no identifier ever has a PUBREC and a PUBCOMP record at once. |
| QosSafety.SetDupIs | mqttclient/mqttclient.c:97-115 | Setting the bit in the serialized packet gives the serialization of the message with DUP set. |
| QosSafety.ResendIsOriginal | mqttclient/mqttclient.c:2225-2321 | What is kept for resending is the packet sent with DUP set if and only if the packet has at most 65535 bytes. |
| QosSafety.LongNotKept | mqttclient/mqttclient.c:2225-2321 | A client with a write buffer of 100000 bytes accepts 70000 bytes of payload, and what it records is not the packet sent with DUP set. |
| QosStages.HeldUntilPubcomp | mqttclient/mqttclient.c:984-1022 | In every step but the one that reads its PUBCOMP a message under way stays on record, by exactly one record, which never goes back from PUBCOMP to PUBREC. |
| QosStages.PublishedAgain | mqttclient/mqttclient.c:585-598 | While a message is under way, the one step that publishes for its identifier is a resend before its PUBREC was read, of the original bytes with DUP set. |
| QosStages.NeverLost | mqttclient/mqttclient.c:984-1022 | The same over any stretch of a run with any number of cuts and timeouts: held by exactly one record until PUBCOMP is read, never another message under its identifier, no PUBLISH after PUBREL, and every repeat equal to the original but for DUP. |
| QosStages.AcceptedIsHeld | mqttclient/mqttclient.c:2225-2321 | An accepted QoS 2 message goes out as it is, is the last accepted under its identifier, and is on record to be answered by PUBREC. |
| QosStages.HeldFromAcceptance | mqttclient/mqttclient.c:984-1022 | From acceptance on, through any stretch of a run in which its PUBCOMP is not read, exactly one record holds the message, and all that is published for its identifier is the message with DUP set. |
| QosStages.DoneAtPubcomp | mqttclient/mqttclient.c:1037-1054 | When its PUBCOMP is read the message is on record no more, and the server has passed on all that was accepted for the identifier, each message once, this one last. |
| QosFreshness.KeepsCounted | mqttclient/mqttclient.c:174-180 | As long as the counter does not go round, no step brings an identifier into use that it has not counted. |
| QosFreshness.FirstRoundIsFresh | mqttclient/mqttclient.c:2225-2321 | In every run of fewer than 65533 requests the next identifier is in no use, so what is proved of runs holds of every message that is good of itself. |
| QosFreshness.IdentifierInUse | mqttclient/mqttclient.c:2225-2321 | A QoS 2 publish that goes out returns NodeExists, keeping nothing, if and only if its identifier has a PUBREC record, and leaves a PUBREC and a PUBCOMP record at once if and only if it had a PUBCOMP record. |
| QosRecords.RecordEnters | mqttclient/mqttclient.c:644-663 | In every state of a run a step makes a record only by sending a publish of QoS 1 or 2, a subscription or an unsubscription, or by reading a QoS 2 publish or a PUBREC, and the record is the one named, byte for byte. |
| QosRecords.RecordLeaves | mqttclient/mqttclient.c:675-697 | A record leaves if and only if the packet it waits for is read, or, for the two subscription kinds, a scan finds it due. |
| QosRecords.Answered | mqttclient/mqttclient.c:1114-1182 | Each packet read is answered, unless the send fails, by exactly one PUBACK, PUBREC, PUBREL or PUBCOMP with its identifier, in plain bytes; a PUBREC whose PUBREL is out, and other packets, by none. |
| QosRecords.ScanPutsOut | mqttclient/mqttclient.c:848-879 | A scan puts out the packets of the due records of QoS exchanges whose sends succeed, and no others. |
| QosRecords.PublishGoesOut | mqttclient/mqttclient.c:2225-2321 | A message goes out if and only if the client is connected, fewer than 64 records are there unless the QoS is 0, the estimate fits the write buffer and the send succeeds; at 64 the client is disconnected. |
| AtLeastOnce.LowInOrder | mqttclient/mqttclient.c:1114-1161 | In every run the messages of QoS 0 and 1 passed on are, in order and each once, those read while connected, of QoS 1 those whose PUBACK went out. |
| AtLeastOnce.PubackTold | mqttclient/mqttclient.c:1114-1161 | In every run each PUBACK on the connection belongs to a message of QoS 1 that was passed on. |
| AtLeastOnce.GoesToFirst | mqttclient/mqttclient.c:471-487 | A message handed on goes to the first subscription whose filter is its name or matches it level by level, and to none if and only if there is none. |
| AtLeastOnce.AcceptedOne | mqttclient/mqttclient.c:2225-2321 | An accepted message of QoS 1 goes out under the next identifier and is on record, with DUP set. |
| AtLeastOnce.HeldUntilPuback | mqttclient/mqttclient.c:1036-1054 | The record goes in exactly the steps that read its PUBACK. |
| AtLeastOnce.ResentUntilPuback | mqttclient/mqttclient.c:848-879 | Over any stretch of a run without that PUBACK the record holds the accepted message, and every scan that finds it due and can send puts it out again. |
| Subscriptions.NotesInBytes | mqttclient/mqttclient.c:1056-1112 | What the two handlers take from the bytes of a SUBACK with one code, which refuses if it is 0x80, and of an UNSUBACK. |
| Subscriptions.SubackRead | mqttclient/mqttclient.c:1056-1089 | Reading the SUBACK of a request on record takes the record away; granted, the subscription is in the table behind all that were there, refused, the table stays; and the return codes. |
| Subscriptions.UnsubackRead | mqttclient/mqttclient.c:1091-1112 | Reading the UNSUBACK takes the record and its subscription away and leaves all others. |
| Subscriptions.EntersGranted | mqttclient/mqttclient.c:1056-1089 | In every state of a run a subscription enters the table only in a step that reads a granting SUBACK for a request of it on record. |
| Subscriptions.LeavesEnded | mqttclient/mqttclient.c:848-879 | It leaves if and only if the UNSUBACK of its unsubscription is read or a scan gives that up as due. |
| Subscriptions.SubscribedByGrant | mqttclient/mqttclient.c:2082-2149 | In every run each subscription in the table was asked for, its SUBSCRIBE sent with that filter and QoS, and granted under the identifier of that request, and it has been in the table since. |
| Subscriptions.StaysSubscribed | mqttclient/mqttclient.c:848-879 | Over any stretch of a run in which its unsubscription is neither acknowledged nor given up a subscription stays. |
| QosProgress.InboundCompletes | mqttclient/mqttclient.c:1114-1182 | From every state that a run can reach, a message the server still holds can be brought to its end by connecting and repeating, and then all the server was given for that identifier has been passed on, each message once. |
| QosProgress.OutboundCompletes | mqttclient/mqttclient.c:848-1022 | Likewise for a message the client holds: a resend on a new connection leads to its PUBCOMP, and then all that was accepted has been passed on, each message once. |
| QosProgress.OneDue | mqttclient/mqttclient.c:848-879 | A scan in which one QoS record has timed out sends that record's packet and changes neither table. |
| Fifo.Flbs | common/log/fifo.c:6-33 | The position of the highest set bit, counted from one. |
| Fifo.RoundSize | common/log/fifo.c:47-48 | A power of two stays; any other size becomes the largest power of two below it. |
| Fifo.Ring.Write | common/log/fifo.c:72-95 | Accepts as many bytes as there is room for, from the front, after any number of wraps of the counters; what was handed out is a prefix of what was accepted, and at most the size is held. |
| Fifo.Ring.Read | common/log/fifo.c:97-115 | Hands out as many bytes as are held, the oldest first, unchanged, after any number of wraps of the counters, so all that was handed out stays a prefix of what was accepted. |
| Fifo.AllInPlace | common/log/fifo.c:83-89 | A write puts its bytes where the counters will look for them and disturbs no byte still held. |
| Base64.Encode | network/mbedtls/library/base64.c:77-139 | Writes the text with its terminator, or names the size needed and writes nothing, as it does without a destination. |
| Base64.Decode | network/mbedtls/library/base64.c:144-228 | Refused exactly for what the first pass rejects, when the predicted length exceeds the buffer, or for any character at all when there is no destination; the second pass never writes more than was predicted, and exactly that for whole groups. |
| Base64.Lengths | network/mbedtls/library/base64.c:199-223 | The predicted length is never too small, and exact when the letters make whole groups. |
| Base64.RoundTrip | network/mbedtls/library/base64.c:77-228 | Decoding an encoding gives the bytes back, and the first pass predicts their exact number. |
| Base64.LaidOutRoundTrip | network/mbedtls/library/base64.c:151-187 | So does decoding it in any layout with line ends anywhere and spaces only before them or at the end. |
| Base64.BreakInserted | network/mbedtls/library/base64.c:154-171 | Putting LF or CRLF, after any number of spaces, between any two characters leaves the text the same. |
| Base64.SpacesAtEnd | network/mbedtls/library/base64.c:154-171 | Spaces after the last character of an encoding with any layout leave the text the same. |
| Base64.TableOf | network/mbedtls/library/base64.c:44-71 | The two maps are the 64 letters of table 1 of RFC 1521 in their order, inverse to each other, and nothing else but the padding has a meaning. |
| Base64.TextGroups | network/mbedtls/library/base64.c:108-133 | Every four letters of an encoding are those of the 24 bits of their three bytes, with a padding for each byte that is missing. |
| Base64.DecodedGroups | network/mbedtls/library/base64.c:208-224 | Whatever is decoded, every four letters give the bytes of their 24 bits, one fewer for each padding so far, and an incomplete group gives none. |
| Base64.RefusedExactly | network/mbedtls/library/base64.c:151-187 | An input is refused if and only if a space or CR stands where no line ends, or its text is not letters of the table with at most two paddings behind them. |
| Base64.PredictedBytes | network/mbedtls/library/base64.c:190-206 | The size asked for is the number of bytes, whole or begun, in six bits a character, less the paddings. |
| Camellia.FLBack | network/mbedtls/library/camellia.c:274-284 | The two macros undo each other, in both orders, for every key. |
| Camellia.RoundBytes | network/mbedtls/library/camellia.c:303-325 | For any S-boxes a round adds the P-function of the S-function of half and subkey, byte by byte as section 2.4.1 of RFC 3713 lists them. |
| Camellia.FLBits | network/mbedtls/library/camellia.c:274-278 | FL as the RFC has it, bit by bit: each bit of the right word takes the AND of left word and subkey one place down, cyclically, then each bit of the left word the OR. |
| Camellia.FLInvBits | network/mbedtls/library/camellia.c:280-284 | FLInv likewise, in the opposite order. |
| Camellia.CipherSteps | network/mbedtls/library/camellia.c:505-567 | The cipher is a sequence of blocks from whitening to whitening in which each follows from the one before by such a round, FL or FLInv, with the subkeys in their order. |
| Camellia.SetkeyDec | network/mbedtls/library/camellia.c:473-494 | The walk with moving pointers leaves the round keys pair by pair from the end, and the whitening pairs exchanged in order. |
| Camellia.StepsBack | network/mbedtls/library/camellia.c:533-554 | With reversed subkeys and exchanged halves the steps lead back, one by one, for arbitrary S-boxes. |
| Camellia.CryptEcb | network/mbedtls/library/camellia.c:505-567 | From bytes to bytes, also in place, the code is the cipher of the RFC over any S-boxes and round keys: whitening, rounds byte by byte and FL layers bit by bit, in their order. |
| Camellia.CryptBack | network/mbedtls/library/camellia.c:454-567 | With reversed round keys the cipher undoes itself, for every block, every number of groups and every S-box. |
| Camellia.EncryptThenDecrypt | network/mbedtls/library/camellia.c:454-567 | For 128-bit keys (three groups) and 192- and 256-bit keys (four), the code run in place with the keys from the decryption schedule brings back the bytes that the code encrypted. |
| Xts.CryptBack | network/mbedtls/library/aes.c:1171-1275 | For every length from 16 bytes on, decrypting what was encrypted gives it back, with stealing and without, for any invertible block cipher and any tweak update. |
| Xts.UnitBytes | network/mbedtls/library/aes.c:1206-1272 | Byte by byte: each whole block is masked with its tweak, ciphered and masked again, tweak follows tweak by the update, and of the last two pieces one completes the other as the standard says. |
| Xts.Steal | network/mbedtls/library/aes.c:1238-1272 | The stealing step completes the data unit in either mode, with the tweaks of the last two pieces exchanged when decrypting. |
| Xts.CryptXts | network/mbedtls/library/aes.c:1171-1275 | Lengths below 16 bytes and above 2^24 are refused, writing nothing; otherwise the output is, byte by byte, the data unit encrypted or decrypted under the tweaks that start from its number, and what lies behind it is untouched. |

## Left out

Arithmetic:

- MpiDiv.DivMpi: quotient and remainder are different objects.
- MpiMod.ModMpi: the result is not stored over the modulus, which the code goes on reading.
- ExpMod.ExpModMpi: a base with no buffer at all is excluded, and so is a target that is also the exponent or the modulus.
- Montgomery.MontMul: scratch space of n + 1 to 2 n + 1 limbs is excluded. The check at bignum.c:1792 accepts it, but the row loop writes up to limb 2 n + 1 (Montgomery.ScratchNeeded). The function is static, and its one caller, exp_mod, allocates 2 n + 2 limbs (bignum.c:1885-1888). The subtraction at bignum.c:1821, which only serves timing, is modelled by its lack of effect on the result.
- MpiMul.MulHlp: the unrolling of the loop by sixteen and eight limbs is one loop here.
- Allocation failure and the limit on the number of limbs, for all of `bignum.c`: buffers always grow.
- A limb buffer belongs to one object: two numbers that share one buffer, which only the cached helper value of exp_mod does for a moment, are two objects here.
- Conversion to and from text and binary, division by and reduction modulo a machine integer, shrinking, swapping, conditional assignment, primes, random numbers.
- The 32-bit build and the assembly versions of the multiplication core.

MQTT:

- Sockets, TLS, timers and locks: a read yields any number of bytes, a send succeeds or fails as a whole, a record may time out at any moment, and every handler is one step. A failed send puts nothing on the connection. The record of an incoming QoS 2 message is taken after the write lock is released, which makes no difference to steps taken one at a time.
- The end of mqtt_yield is swallowed by the comment opened at mqttclient.c:1428; the scan it announces is a step that may happen at any time.
- CONNECT and CONNACK, keep-alive, clean session, the reconnect loop and resubscribing: cutting and opening connections are steps of every run, both ends keep their state, and the packets of resubscribing are the application's own requests.
- Allocation failure, for the client as well.
- QosSafety.OutboundExactlyOnce: an identifier must not be in use when the counter comes round to it, which QosFreshness.FirstRoundIsFresh proves for the first round (the call that meets one in use is QosFreshness.IdentifierInUse), and packets must fit 16 bits; what happens to longer ones is stated by QosSafety.ResendIsOriginal.
- QosSafety.ResendIsOriginal: states the case in which the send succeeds; after a failed send nothing is recorded.
- ClientEngine.MqttClient.Unsubscribe: two pending unsubscriptions of one subscription are excluded, since both would free it.
- ClientEngine.MqttClient.HandleUnsuback: an UNSUBACK without a record is excluded, since the code then reads a pointer it never set. That is one never asked for, and also one so late that a scan has given its record up, which a slow server can send; QosSafety.Keeps and what follows from it exclude the step too.
- ClientTable.OnUnsubackKeeps: the same UNSUBACK is excluded.
- ClientTable.UnsubscribeKeeps: a second unsubscription of a filter whose first is pending is excluded, as in the method.
- ClientEngine.MqttClient.PublishMessage: the reset of the caller's payload length at the end of the call is not modelled.
- ClientEngine.MqttClient.DeliverMessage: the callbacks themselves, and the shortening of long topic names for them, are not modelled.
- ClientEngine.MqttClient.constructor: the other methods ask for a write buffer of 4 to 268435455 bytes; the program replaces sizes outside narrower limits by a default.
- PacketReader.Transport.ReadNb: the buffer has at least five bytes, as the header and the size field are stored before the length is compared; reserved packet types, which read as "call again", and a transport that reports an error are excluded.
- PacketReader.ReadBlocking: the buffer has at least five bytes, for the same reason.
- Codec.DeserializePublish: where the code reads beyond the buffer, which it does for bytes of the size field, the two bytes of a string's size and the identifier, the model says so and stops, as do the other parsers. Bytes of topic and payload are not read, only pointed at; the model delivers those in the buffer.
- Subscriptions.SubackRead: the codes of a SUBACK pass through a plain char, which is taken as unsigned here; where it is signed, the refusal 0x80 arrives as -128 and is taken for a grant. A SUBACK that does not parse is read without effect.
- AtLeastOnce.GoesToFirst: the filters of the table are well formed, which the code does not check; for others TopicMatch.TopicIsMatched says what is walked.
- Malformed acknowledgements, after which the code goes on with whatever its variables hold, are read without effect.
- Strings given both as C string and with a length; protocol versions other than 3 and 4; the serializers only a server uses.
- Taking the payload length of a message from its C string, and draining a packet that is too long.

Smaller parts:

- Camellia.CryptEcb: the key schedule of encryption (any round keys) and the contents of the S-boxes are not modelled.
- Xts.CryptXts: the rounds of AES, its key schedule and the multiplication in the field stand as functions; input and output are different buffers.
- Fifo.Ring.constructor: sizes of 2^31 and above, whose rounding shifts into the sign bit, are excluded; the mutex and the semaphore are a free choice of success.
- The two functions that report how much can be read or written, whose formula differs once a counter has wrapped.
