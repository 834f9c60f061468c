# BreUtils, modelled and proved

BreUtils is a header-only C++ utility library. This project models its self-contained algorithms and state machines in
Dafny and proves what they promise. `dafny verify dfyconfig.toml` checks everything.

| part | files | main results |
|---|---|---|
| JSON parser and printer | `Chars`, `JsonValue`, `JsonSyntax`, `JsonParser`, `JsonText`, `JsonGenerator`, `JsonRoundTrip`, `JsonGrammar`, `JsonReading`, `JsonSoundness`, `JsonLayout` | what is printed is read back; the parser reads exactly the texts of a grammar; the layout of what is printed |
| Unicode escapes | `Utf8`, `JsonUnicode` | the emission is UTF-8; exactly which escapes mean what they should |
| comment removal | `JsonComments` | comments disappear and nothing else does |
| infix expressions | `Infix`, `InfixMeaning`, `InfixAnyText` | translation and evaluation preserve the meaning; what happens to any other text |
| blocking queue | `BlockQueue` | no lost wake-up, no lost item, over every interleaving |
| UDP fragments | `Udp` | what is delivered was sent, over every run of the network |
| prefix tree | `PrefixTree` | a heap of nodes agrees with a set of words |
| signals and slots | `Signal` | constant-time removal through stored indices is removal |
| id generator | `SnowWorker` | ids increase under any clock; the exact drift |
| Base64, byte buffer | `Base64`, `Buffer` | mutual inverses; first in, first out |
| shared | `Wrappers`, `Texts`, `Bits` | optional values; pieces of text and where they are found; shifts and masks |

Where the original changes state, the model has classes and loops too: the parser's cursor, the printer, the operator
stack writing into its buffer, the monitor, the receiver's groups, the nodes of the tree, the slots with their indices,
the id worker and the byte buffer. Their methods are proved against specification functions, and the theorems are about
those functions or about the states the methods keep. The clock, the network, the scheduler, the order in which a hash
table is enumerated and the outcome of `notify_one` are inputs or left open, so that the theorems hold for all of them.

Where the code does not do what it is meant to, the model follows the code, and a lemma says when it does what is meant:

- `\u` escapes take their digits one position late: `JsonUnicode.EscapeIsDecodedWhen` and
  `JsonUnicode.PairIsNeverDecoded`.
- The non-strict parser is handed an empty string: `JsonSoundness.LooseFails`.
- Comment removal looks back two characters only to tell whether a quote is escaped:
  `JsonComments.LiteralIsRespectedWhen` says for which literals that is enough, and
  `JsonComments.EscapedQuoteIsMisread` is one for which it is not.
- An expression that starts with two brackets reads in front of its buffer, and a literal close to the greatest `int`
  overflows while its last digit is added: `InfixMeaning.CalculateIsMeaning`.
- After `Close` a wake-up of a consumer can be lost: `BlockQueueSafety.EveryRunForgetsWhen` says by which steps, and
  `BlockQueueSafety.WakeUpLostAfterClose` is a run.
- Two bits of sequence numbers pass the first check of the options but never all of them: `SnowIds.AcceptedIsUsable`.

## Model

| member | source | states |
|---|---|---|
| `JsonRoundTrip.ParseAfterGenerate` | breUtils/Json/json_generator.hpp:14-97 | Round trip: whatever text the printer may produce for a value without doubles, with or without indentation, at any width and with the objects enumerated in any order, strict parsing gives the value back and stops at the end of the text; non-strict parsing of the same text always fails, because the cleaned text is lost with the inner variable |
| `JsonSoundness.ParseMeans` | breUtils/Json/json_parse.hpp:14-303 | Strict parsing gives a value and stops at a place if and only if the text up to there is white space and a text of the grammar for that value: any run of the six white-space bytes between any two tokens, every escape, repeated keys of which the last one counts, all numbers, and nothing else |
| `JsonSoundness.TextIsParsed` | breUtils/Json/json_parse.hpp:14-303 | Every text of the grammar between white space is read as what it means, and reading stops behind it |
| `JsonSoundness.LooseFails` | breUtils/Json/json_parse.hpp:14-23 | Parsing that is not strict fails on every text |
| `JsonReading.TreeIsRead` | breUtils/Json/json_parse.hpp:39-303 | A text of the grammar is read as what it means wherever it stands, unless what follows goes on with its number |
| `JsonSoundness.ValueIsTree` | breUtils/Json/json_parse.hpp:39-303 | Whatever is read as a value is a text of the grammar for it |
| `JsonReading.NumberIsRead` | breUtils/Json/json_parse.hpp:85-153 | Which number is an int of 32 bits and which a double, with the longest possible text taken |
| `JsonReading.UnicodeIsRead` | breUtils/Json/json_parse.hpp:189-236 | What a Unicode escape of any five characters appends, in terms of the values of hexadecimal digits, or that it fails |
| `JsonReading.NibbleIsValue` | breUtils/Json/json_parse.hpp:198-199 | The values of the hexadecimal digits, in numbers |
| `JsonReading.BlankIsSpace` | breUtils/Json/json_parse.hpp:381-385 | White space is exactly the six bytes 9 to 13 and 32 |
| `JsonRoundTrip.RenderedIsRead` | breUtils/Json/json_parse.hpp:39-303 | A printed value standing anywhere in an input, followed by anything that cannot continue a number, is read as that value and nothing more is consumed |
| `JsonRoundTrip.IntIsRead` | breUtils/Json/json_parse.hpp:85-153 | The decimal text of every 32-bit integer, the most negative one included, is read as an integer and not as a double |
| `JsonRoundTrip.StringIsRead` | breUtils/Json/json_parse.hpp:155-187 | Reading undoes escaping for every byte string, whatever has been read of the literal before |
| `JsonRoundTrip.ArrayIsRead` | breUtils/Json/json_parse.hpp:238-266 | A printed array, of any length and depth, is read back element by element in order |
| `JsonRoundTrip.ObjectIsRead` | breUtils/Json/json_parse.hpp:268-303 | A printed object is read back to the same map, although the order of its fields is the enumeration order of a hash table |
| `JsonParser.Parse` | breUtils/Json/json_parse.hpp:14-23 | The parser object gives the result of the specification for strict and non-strict calls alike, and a failure wherever the original throws |
| `JsonParser.Parser.ParseValue` | breUtils/Json/json_parse.hpp:39-64 | The cursor ends exactly where the specification says, at least one character further and never past the end; the recursion terminates on every input |
| `JsonParser.Parser.ParseNumber` | breUtils/Json/json_parse.hpp:85-153 | Which text is an int, which a double and which is refused, and where the cursor ends |
| `JsonParser.Parser.ParseString` | breUtils/Json/json_parse.hpp:155-187 | The text and the end of a string literal, escapes included, or the failure |
| `JsonParser.Parser.ParseUnicode` | breUtils/Json/json_parse.hpp:189-236 | What a Unicode escape appends and where the reading continues, with the four characters taken one position late as the code does |
| `JsonParser.Parser.ParseArray` | breUtils/Json/json_parse.hpp:238-266 | Elements in order, an optional comma before the next one, and the failures between elements |
| `JsonParser.Parser.ParseObject` | breUtils/Json/json_parse.hpp:268-303 | Fields in order, a later key overwriting an earlier one, and the failures between fields |
| `JsonGenerator.Generate` | breUtils/Json/json_generator.hpp:14-17 | The printed text is one of the texts that the specification allows for the value |
| `JsonGenerator.Generator.GenerateArray` | breUtils/Json/json_generator.hpp:39-57 | The array text with commas between the items only, line breaks and indentation as the width demands |
| `JsonGenerator.Generator.GenerateObject` | breUtils/Json/json_generator.hpp:60-79 | Every field exactly once, in some order, separated and indented like the items of an array |
| `JsonGenerator.Generator.EscapeString` | breUtils/Json/json_generator.hpp:82-97 | The text with every special character escaped, which `JsonRoundTrip.StringIsRead` inverts |
| `JsonLayout.EscapeOfOne` | breUtils/Json/json_generator.hpp:84-93 | Each of the seven special bytes is written as its two characters, given by their codes, and every other byte as itself |
| `JsonLayout.EscapeSplits` | breUtils/Json/json_generator.hpp:84-95 | Escaping a text escapes its parts one by one |
| `JsonLayout.NothingRaw` | breUtils/Json/json_generator.hpp:82-97 | None of the bytes 8, 9, 10, 12 and 13 is left in an escaped text |
| `JsonLayout.EscapedIsBody` | breUtils/Json/json_generator.hpp:82-97 | An escaped text is the inside of a literal as section 7 of RFC 8259 has it |
| `JsonLayout.ArrayLayout` | breUtils/Json/json_generator.hpp:39-57 | The items of an array stand between brackets with commas between them: on lines of their own, width times level blanks in, or all on one line |
| `JsonLayout.ObjectLayout` | breUtils/Json/json_generator.hpp:60-79 | So do the fields of an object, each as literal, colon, blank and value, in the order of some enumeration |
| `JsonLayout.EmptyLayout` | breUtils/Json/json_generator.hpp:40-61 | Empty arrays and objects are printed as two brackets only |
| `JsonLayout.ScalarLayout` | breUtils/Json/json_generator.hpp:26-33 | The words for null, true and false, and strings as literals |
| `JsonLayout.IntLayout` | breUtils/Json/json_generator.hpp:30 | An integer is printed as its decimal digits without leading zeros, a negative one behind a minus |
| `JsonValue.EqualsDecidesEquality` | breUtils/Json/json_tool.hpp:28-71 | Comparison of values, which looks keys up from the left operand only, is true exactly for identical values without doubles |
| `JsonCell.ValueCell.Append` | breUtils/Json/json_value.hpp:298-301 | An element goes to the end of an array; any other value is left alone and refused |
| `JsonCell.ValueCell.Assign` | breUtils/Json/json_value.hpp:270-276 | A null becomes an object, a key is set or overwritten and the other keys stay; any other value is refused |
| `Utf8.Emit` | breUtils/Json/json_parse.hpp:218-234 | The shifts and masks of the code emit the bytes that the encoding defines by division |
| `Utf8.EncodeIsDecoded` | breUtils/Json/json_parse.hpp:218-234 | The bytes emitted for a Unicode scalar value are valid UTF-8 for it, whatever follows (section 3 of RFC 3629) |
| `Utf8.DecodedIsEncoded` | breUtils/Json/json_parse.hpp:218-234 | Every valid UTF-8 sequence is the one the code emits for its scalar value: the emission is the shortest form |
| `Utf8.EncodeAllIsInjective` | breUtils/Json/json_parse.hpp:218-234 | A text of emitted scalar values can be read in one way only |
| `Utf8.EncodeIsInjective` | breUtils/Json/json_parse.hpp:218-234 | The emitted bytes tell all code points apart, surrogates included |
| `Utf8.LoneSurrogateIsInvalid` | breUtils/Json/json_parse.hpp:201-227 | A lone low surrogate is let through and emitted as bytes that are not UTF-8 |
| `Utf8.CombineIsBijective` | breUtils/Json/json_parse.hpp:215 | The surrogate formula is a bijection between pairs and U+10000 to U+10FFFF (section 2.2 of RFC 2781) |
| `JsonUnicode.CodePointRead` | breUtils/Json/json_parse.hpp:189-199 | The code point the escape is read as: the first digit is lost and a hexadecimal digit behind the escape is taken in |
| `JsonUnicode.EscapeIsDecodedWhen` | breUtils/Json/json_parse.hpp:189-236 | An escape of a character outside the surrogates is decoded to that character if and only if its first digit is 0 and no hexadecimal digit follows, or five equal digits stand there (section 7 of RFC 8259 asks for all) |
| `JsonUnicode.PairIsNeverDecoded` | breUtils/Json/json_parse.hpp:201-216 | No escaped surrogate pair is ever decoded to its character |
| `JsonUnicode.MisreadExample` | breUtils/Json/json_parse.hpp:189-199 | An input on which the escape of A, followed by B, becomes U+041B |
| `JsonComments.RemoveComments` | breUtils/Json/json_parse.hpp:345-379 | The three-flag loop computes the specification of comment removal |
| `JsonComments.CommentsAreRemoved` | breUtils/Json/json_parse.hpp:345-379 | From any sequence of JSON tokens and white space, string literals that survive, line comments and block comments, the last comment ended or not, exactly the comments disappear; line comments leave their newline and literals stay whole |
| `JsonComments.LiteralIsRespectedWhen` | breUtils/Json/json_parse.hpp:363-371 | A JSON literal is kept whole, and what follows is read as standing outside of it, whatever follows, if and only if an even number of its quotation marks is misread and nothing between them looks like a comment |
| `JsonComments.PlainLiteralSurvives` | breUtils/Json/json_parse.hpp:363 | Every literal without a quotation mark behind two backslashes survives, so every one without a backslash |
| `JsonComments.MisreadingsCancel` | breUtils/Json/json_parse.hpp:363 | A literal with two misread quotation marks that survives |
| `JsonComments.EscapedQuoteIsMisread` | breUtils/Json/json_parse.hpp:363-371 | A literal that the two-character look-back takes for closed: it loses a part as if it were a comment |
| `InfixMeaning.CalculateIsMeaning` | breUtils/NifixExpression.hpp:116-127 | Every well-formed expression gets its usual value (precedence, left association, brackets, division toward zero, by arithmetic of its own), and 0 where it divides by zero; the result is undefined exactly for an overflow of int, two opening brackets at the start, or a postfix form of more than 100 characters |
| `InfixMeaning.ApplyIsOperation` | breUtils/NifixExpression.hpp:91-103 | The four operators compute the sum, the difference, the product and the quotient rounded toward zero, within 32 bits, and there are no others |
| `InfixAnyText.ExceptionsGiveZero` | breUtils/NifixExpression.hpp:116-127 | For any text at all: a value only if every symbol is an operator that finds two operands, 0 for every exception, undefined for an overflow |
| `InfixAnyText.ValueNeedsOperands` | breUtils/NifixExpression.hpp:77-104 | Counting blanks and operators tells whether an operator finds its operands |
| `InfixAnyText.ExceptionMeans` | breUtils/NifixExpression.hpp:84-102 | The exceptions about operators are thrown only for a symbol that is not served |
| `InfixAnyText.TranslateLosesNothing` | breUtils/NifixExpression.hpp:30-69 | For any text at all: all digits are written in their order, every other character but brackets and blanks as often as it occurs, and no closing bracket |
| `InfixMeaning.TranslateIsPostfix` | breUtils/NifixExpression.hpp:30-69 | A well-formed expression is translated to exactly its postfix form, unless it starts with two brackets, where the buffer is read at index -1 |
| `InfixMeaning.FlushCompletes` | breUtils/NifixExpression.hpp:41-64 | The invariant of the operator stack: a character of lower or equal precedence, or a closing bracket, completes the postfix form of what has been read and leaves the operators below alone |
| `InfixMeaning.ExprIsTranslated` | breUtils/NifixExpression.hpp:34-64 | Reading an expression anywhere, on top of any stack it may rest on, writes its finished part and leaves its open operators waiting |
| `InfixMeaning.PostfixLength` | breUtils/NifixExpression.hpp:30-69 | The postfix form has digits + 3 * literals - 2 characters |
| `InfixMeaning.ExprIsEvaluated` | breUtils/NifixExpression.hpp:75-105 | Running over a postfix form pushes the value of the expression on whatever lies on the stack, or ends as its evaluation ends |
| `InfixMeaning.BlanksDoNoHarm` | breUtils/NifixExpression.hpp:79-112 | Any number of blanks behind the postfix form leaves the answer as it is |
| `InfixMeaning.OutcomeKinds` | breUtils/NifixExpression.hpp:84-103 | No well-formed expression lacks an operand or holds an unknown operator when it is evaluated |
| `InfixMeaning.MeaningBelongsToText` | breUtils/NifixExpression.hpp:30-113 | Two syntax trees that are written alike have the same postfix form and the same value, whatever they start with |
| `Infix.WrittenFits` | breUtils/NifixExpression.hpp:30-69 | What has been written at any moment fits wherever the final result fits |
| `Infix.ExpTransplant` | breUtils/NifixExpression.hpp:30-69 | The buffer holds the translation followed by what was behind it before |
| `Infix.CalS` | breUtils/NifixExpression.hpp:71-113 | The evaluator ends as the stack machine ends: with the value, or with the first error |
| `Infix.CalculateExpression` | breUtils/NifixExpression.hpp:116-127 | The result is that of translation and evaluation wherever C++ defines it; an exception gives 0 |
| `BlockQueueSafety.EveryRunIsSafe` | breUtils/BlockQueue.hpp:63-114 | In every interleaving of a queue nobody closes: never more than the capacity; the items of the pushes that got in are, in order, those handed to the callers of pop and then those in the queue; no wake-up is lost, and producers and consumers never all sleep |
| `BlockQueueSafety.StepIsSafe` | breUtils/BlockQueue.hpp:37-114 | The invariant behind it is kept by every critical section, under spurious wake-ups, time-outs and threads that slip in between |
| `BlockQueueSafety.StepIsRecorded` | breUtils/BlockQueue.hpp:63-109 | A push that finds room brings in the item its thread came with, at once or after it has waited, and a pop hands out the oldest item |
| `BlockQueueSafety.StepMovesItems` | breUtils/BlockQueue.hpp:37-109 | After a step the queue has lost what was handed out at its front and gained what was brought in at its end; closing empties it |
| `BlockQueueSafety.StepMovesOneThread` | breUtils/BlockQueue.hpp:37-114 | Only the thread of a step starts or ends to wait, and the notifications of Close leave nobody asleep |
| `BlockQueueSafety.StepNotifiesOne` | breUtils/BlockQueue.hpp:69-114 | A push, a pop and a flush notify exactly one sleeper of the other side, if there is one |
| `BlockQueueSafety.EveryRunIsBounded` | breUtils/BlockQueue.hpp:37-114 | In every run, closing included: the bound; items that come out do so in the order they went in, and the queue holds the latest ones; producers are notified for every free place unless a call of Close is about to notify them all |
| `BlockQueueSafety.EveryRunForgetsWhen` | breUtils/BlockQueue.hpp:37-114 | In every run, closed or not, no item is ever left beside a sleeping consumer without a notified one for it, if and only if no step of the run is a notified consumer's giving up on a closed queue while it is needed |
| `BlockQueueSafety.StepForgetsWhen` | breUtils/BlockQueue.hpp:80-92 | Exactly which step loses the wake-up of a consumer: a notified one gives up on a closed queue while others sleep and the remaining notified ones are fewer than the items |
| `BlockQueueSafety.StepKeepsOrder` | breUtils/BlockQueue.hpp:37-114 | No step, closing included, changes the order of items or brings one back |
| `BlockQueueSafety.WakeUpLostAfterClose` | breUtils/BlockQueue.hpp:80-92 | A run after closing in which an item stays beside a sleeping consumer |
| `BlockQueue.BlockQueue.Push` | breUtils/BlockQueue.hpp:63-70 | The critical section of a push is one step: it waits on a full queue, or appends and notifies one consumer |
| `BlockQueue.BlockQueue.ResumePush` | breUtils/BlockQueue.hpp:65-69 | A producer that wakes up tests again and waits or pushes its own item |
| `BlockQueue.BlockQueue.Pop` | breUtils/BlockQueue.hpp:80-92 | It waits on an empty queue, or takes the oldest item and notifies one producer |
| `BlockQueue.BlockQueue.ResumePop` | breUtils/BlockQueue.hpp:82-91 | A consumer that wakes up gives up on a closed queue, and otherwise waits again or takes the oldest item |
| `BlockQueue.BlockQueue.Close` | breUtils/BlockQueue.hpp:37-42 | The critical section empties the queue and marks it closed, and nobody has been notified yet |
| `BlockQueue.BlockQueue.WakeProducers` | breUtils/BlockQueue.hpp:43 | After the mutex is released, all producers are notified |
| `BlockQueue.BlockQueue.WakeConsumers` | breUtils/BlockQueue.hpp:44 | And then all consumers |
| `UdpRuns.DeliveredWasSent` | breUtils/net/UDPManager.hpp:116-139 | In every run with lost, repeated, reordered and foreign datagrams of interleaved messages, each delivery is exactly the bytes of the message sent under that group id |
| `UdpRuns.DeliveredOnce` | breUtils/net/UDPManager.hpp:116-139 | When no datagram arrives twice, a message is delivered if and only if all its datagrams have arrived, and then only once |
| `UdpRuns.DeliveredAtMostArrived` | breUtils/net/UDPManager.hpp:116-139 | However often datagrams are repeated, a message is delivered at most as often as each of its datagrams arrives |
| `UdpRuns.PacketIsHandled` | breUtils/net/UDPManager.hpp:116-139 | A datagram of a message completes its group exactly when its id is the last one missing; then the whole message is delivered and the group forgotten, otherwise its slice is kept |
| `UdpRuns.StatusCounts` | breUtils/net/UDPManager.hpp:148-162 | For groups of real slices the status is 1 or 0 and never -2: as many ids as announced means all ids |
| `UdpRuns.OversizedIsNeverWhole` | breUtils/net/UDPManager.hpp:52-58 | Messages of 2^32 datagrams and more announce too few datagrams, and what is merged is never the message |
| `UdpPackets.SlicesMakeTheMessage` | breUtils/net/UDPManager.hpp:48-64 | The slices of a message, in the order of their ids, make up the message |
| `UdpSending.UdpSender.Send` | breUtils/net/UDPManager.hpp:44-73 | (size + 9191) / 9192 datagrams under the next group id, the k-th with id k, the totals and the bytes from 9192 * k on; none has more than 9216 bytes, 24 of them the header, and only the last one fewer |
| `UdpReceiving.UdpReceiver.HandlePacket` | breUtils/net/UDPManager.hpp:116-139 | The groups kept and the delivery made are those of the specification for every datagram, foreign ones included |
| `UdpRuns.HandleMeans` | breUtils/net/UDPManager.hpp:116-139 | Any datagram: without the signature 0x12345678 nothing changes; else it joins its group, the first announcement holds, no other group is touched, and the group is forgotten exactly when it has all ids below the announced number |
| `UdpRuns.StatusMeans` | breUtils/net/UDPManager.hpp:148-162 | The status for any group, in terms of the set of its ids |
| `UdpReceiving.UdpReceiver.IsGroupComplete` | breUtils/net/UDPManager.hpp:148-162 | -1 for an unknown group, 0 when the number of packets differs, -2 when an id is missing, else 1 |
| `UdpReceiving.UdpReceiver.MergeGroup` | breUtils/net/UDPManager.hpp:164-175 | The payloads of all announced ids in order, a missing one counting as empty and left behind as an empty packet; nothing for an unknown group |
| `PrefixTree.PrefixTree.Insert` | breUtils/prefixTree.hpp:81-100 | The set of words grows by exactly the inserted word, the empty one excepted, and the tree stays a tree: siblings differ in their letters, and a word ends at or below every node |
| `PrefixTree.PrefixTree.Search` | breUtils/prefixTree.hpp:103-115 | Found if and only if the string is one of the inserted words; never the empty string |
| `PrefixTree.PrefixTree.StartWith` | breUtils/prefixTree.hpp:117-129 | True if and only if the string is not empty and some inserted word starts with it |
| `PrefixTree.PrefixTree.Walk` | breUtils/prefixTree.hpp:107-112 | The walk ends at the longest prefix of the string that is a path of the tree, reading the terminating NUL at most |
| `PrefixTree.PrefixTree.Extend` | breUtils/prefixTree.hpp:93-97 | Only paths along the inserted string are added, down to its end; all nodes that were there keep their place |
| `Signals.Signal.AddSlot` | breUtils/signal/Signal.hpp:798-818 | The slot joins at the end of its own group, every other group keeps its slots, ids stay ascending and every slot stands where its index says |
| `Signals.Signal.Connect` | breUtils/signal/Signal.hpp:616-621 | A new connected, unblocked slot is registered in the group asked for |
| `Signals.Signal.Clean` | breUtils/signal/Signal.hpp:762-782 | Removal through the stored index removes the slot wherever it is registered, by swapping in the last slot of its group, and does nothing for a slot removed before |
| `Signals.Signal.DisconnectSlot` | breUtils/signal/Signal.hpp:340-346 | True the first time only; afterwards the slot is not registered and all others are |
| `Signals.Signal.DisconnectIf` | breUtils/signal/Signal.hpp:822-843 | Exactly the slots that satisfy the condition are removed and counted, although slots change places meanwhile |
| `Signals.Signal.DisconnectGroup` | breUtils/signal/Signal.hpp:714-724 | Exactly the slots of that group are removed and counted; the others keep their order |
| `Signals.Signal.DisconnectAll` | breUtils/signal/Signal.hpp:730-733 | No slot is registered afterwards |
| `Signals.Signal.SlotCount` | breUtils/signal/Signal.hpp:749-756 | The number of different slots registered: none is counted twice |
| `Signals.Signal.Emit` | breUtils/signal/Signal.hpp:590-604 | Every registered slot that is not blocked is called exactly once, groups in ascending order; none when the signal is blocked |
| `Signals.AllInOrder` | breUtils/signal/Signal.hpp:549-552 | No slot occurs twice, and the groups follow one another in ascending order |
| `SnowIds.IdsIncrease` | breUtils/uuid/uuid.hpp:28-56 | Whatever the clock shows, backwards jumps included, every id is greater than all before it while its tick fits, so no id comes twice |
| `SnowIds.IdIsReadable` | breUtils/uuid/uuid.hpp:52-56 | Tick and sequence number can be read off an id, and the number lies in the range of the options |
| `SnowIds.TickDrift` | breUtils/uuid/uuid.hpp:28-56 | After n calls the tick is ahead of the greatest clock reading by at most floor((n - 1) / (max - min + 1)) |
| `SnowIds.DriftIsReached` | breUtils/uuid/uuid.hpp:36-39 | A clock that stands still reaches that bound exactly |
| `SnowIds.FitsMeans` | breUtils/uuid/uuid.hpp:53 | The ticks that fit are those of 63 - bits bits, and the next one makes the id negative, starting over from the least 64-bit number |
| `SnowIds.AcceptedIsUsable` | breUtils/uuid/uuid.hpp:59-92 | Accepted options leave room for sequence numbers; two bits, although the check admits them, are never accepted |
| `SnowIds.AcceptedWhen` | breUtils/uuid/uuid.hpp:59-92 | Exactly which options are accepted, and with which limits |
| `SnowIds.DefaultsAreAccepted` | breUtils/uuid/uuid.hpp:13-18 | The default options are |
| `SnowIds.SnowWorker.Next` | breUtils/uuid/uuid.hpp:28-42 | One call takes one step of the specified state, backward clocks included, and returns the id of the tick and number reached |
| `SnowIds.Make` | breUtils/uuid/uuid.hpp:23-25 | A worker in its first state, or the exception for options out of range |
| `Base64.DecodeAfterEncode` | breUtils/encoding/base64.hpp:8-71 | Decoding undoes encoding for every byte string |
| `Base64.EncodeAfterDecode` | breUtils/encoding/base64.hpp:8-71 | Encoding undoes decoding for every canonical padded text (sections 3.5 and 4 of RFC 4648) |
| `Base64.EncodedIsCanonical` | breUtils/encoding/base64.hpp:8-36 | Whatever is encoded is canonical, so the two are bijections |
| `Base64.Encode` | breUtils/encoding/base64.hpp:8-36 | The loop over groups and the treatment of the rest give the encoding, of length (n + 2) / 3 * 4 |
| `Base64.Decode` | breUtils/encoding/base64.hpp:38-71 | The decoded bytes for texts of any length, or the length error |
| `Base64.DecodingFailsWhen` | breUtils/encoding/base64.hpp:53-62 | Decoding throws exactly on texts shorter than a group that hold a padding character |
| `Base64.MissingMeans` | breUtils/encoding/base64.hpp:58-60 | Which texts count as padded by two, by one and not at all, wherever the marks stand |
| `Base64.SameNumber` | breUtils/encoding/base64.hpp:17-20 | The four characters of a group are, in base 64, the number that its bytes are in base 256 |
| `Base64.OthersHaveNoValue` | breUtils/encoding/base64.hpp:40-52 | Characters outside of the alphabet count as 0 |
| `Base64.SymbolHasValue` | breUtils/encoding/base64.hpp:40-52 | The decoder's table maps every symbol of the alphabet to the value it encodes |
| `Base64.ValueHasSymbol` | breUtils/encoding/base64.hpp:40-52 | And every character of the alphabet is the symbol of its value |
| `ByteQueue.FirstInFirstOut` | breUtils/Buffer.hpp:56-99 | Over any sequence of operations, clearing included, what left the buffer followed by what is left is what was there followed by what went in |
| `ByteQueue.Lengths` | breUtils/Buffer.hpp:56-99 | How many bytes each operation hands back and leaves |
| `ByteQueue.UntilIsShortest` | breUtils/Buffer.hpp:65-71 | Reading up to a delimiter hands back the shortest beginning that ends with it |
| `ByteQueue.UntilIsNothing` | breUtils/Buffer.hpp:65-71 | And nothing, without any change, when no beginning does |
| `ByteQueue.Buffer.ExpandBuffer` | breUtils/Buffer.hpp:102-113 | Growing or moving the bytes to the front over themselves keeps the readable bytes and always makes room; a new block is taken only when moving would not be enough |
| `ByteQueue.Buffer.Append` | breUtils/Buffer.hpp:93-99 | The bytes join the end of the readable ones |
| `ByteQueue.Buffer.Retrieve` | breUtils/Buffer.hpp:56-63 | The first bytes are returned and removed; asking for more than there are changes nothing and fails |
| `ByteQueue.Buffer.RetrieveUntil` | breUtils/Buffer.hpp:65-71 | Everything through the first occurrence of the delimiter is returned and removed, or nothing at all |
| `ByteQueue.Buffer.RetrieveAll` | breUtils/Buffer.hpp:77-81 | All readable bytes are returned and the buffer is empty |
| `Texts.Find` | breUtils/Buffer.hpp:66 | The first occurrence, or none anywhere, as the standard library promises |

## Left out

- JsonValue.EqualsDecidesEquality: only for values without doubles, because a double is kept as a text that denotes it and neither `std::stod`, `std::to_string(double)` nor the comparison of doubles is modelled.
- JsonRoundTrip.ParseAfterGenerate: only for values without doubles, because the printing of doubles loses digits and is not modelled.
- JsonParser.Parser.ParseUnicode: fails on an escape without any hexadecimal digit, where the original goes on with an uninitialised code point.
- JsonGenerator.Generate: for a double the relation of allowed texts leaves every text open.
- JsonGenerator.Generator.Indent: does not model the overflow of `level * indentWidth` in `int`.
- JsonComments.CommentsAreRemoved: between literals and comments no piece of text ends with a slash or a backslash.
- JSON error messages, their positions and the exception types: every exception is one failure.
- `removeTailComma`: its flags are not a nesting depth, so it does not do what it is meant to on nested input, and the parser never sees its result.
- The other accessors of the JSON value (`As...`, `Is...`, `Remove`, indexed access): they would only add easy members.
- JsonCell.ValueCell.Assign: stands for `cell[key] = v`; the reference that `operator[]` returns is not modelled by itself.
- Infix.CalculateExpression: is only asked where C++ defines the result; what happens after an overflow or a write past the 100 characters is not modelled.
- BlockQueue.BlockQueue.Timeout: may end the wait of any consumer that has not been notified, also of one that called `Pop` without a time limit; that only adds runs.
- BlockQueueSafety.EveryRunIsSafe: holds before `Close`; what holds after it is stated by `BlockQueueSafety.EveryRunIsBounded` and `BlockQueueSafety.EveryRunForgetsWhen`; and for time-outs that strike consumers not yet notified.
- `BlockQueue::Clear` (it calls a member that `std::queue` lacks), `Size`, `Empty`, `Full`, `Back`: not modelled.
- UdpRuns.DeliveredWasSent: assumes that group ids in flight differ and that messages have fewer than 2^32 datagrams; the wrap-around of the id shows in `UdpSending.UdpSender.Send` only.
- Sockets, the byte layout of the datagram header, pauses between sends and a missing callback: not modelled.
- PrefixTree.PrefixTree.Insert: for words without the NUL character, because the walk reads the character behind the end of the string and relies on no child carrying it.
- PrefixTree.PrefixTree.Extend: for words without the NUL character, as `Insert`.
- The children of a node in the prefix tree by reference (`getNode`, `setWord`) and its unused counters: not modelled.
- SnowIds.IdsIncrease: for one worker; `IdGenerator::instance` makes a new worker on every call, so its ids promise nothing, and the mutex of `Next` is not modelled.
- Signals.Signal.DisconnectIf: the condition is an arbitrary predicate in place of the comparison of callables and objects; slots it removes stay marked as connected, as in the original.
- Signals.Signal.Emit: what the callables do, and emission while another thread changes the registry, are not modelled; neither are moves of signals.
- Base64.Decode: for characters within its table only; the buffer holds whole groups and is cut to the final length, where the original writes up to three bytes past the end of its string.
- ByteQueue.Buffer.Append: appending a buffer to itself and moves of buffers are not modelled.
- TCP, broadcast, sessions, OpenSSL, MySQL and Redis pools, FFmpeg, files, logging, timers, singletons, `Math/big`, `BinaryTree.hpp`, `HexCov`, ini files and flags: input and output, foreign calls, unfinished code, or easy members.
