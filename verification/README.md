# Entropy coders and a radix trie, in Dafny

This project models four Java classes and proves properties about the models.

- **Entropy coders.** `ArithmeticCoder`, `RangeCoder` and `CarrylessRangeCoder` are three static, two-pass coders. Each builds a frequency table from the whole message (`count`) and turns it into a cumulative table. Each symbol narrows the coding interval to that symbol's slot. Each coder has its own renormalisation policy:
  - `ArithmeticCoder` is bit-oriented and keeps a carry counter.
  - `CarrylessRangeCoder` is byte-oriented and shrinks the interval so that no carry can arise. It comes in two variants: `encode`/`decode` and `encodeUnoptimized`/`decodeUnoptimized`.
  - `RangeCoder` is byte-oriented, holds back a pending byte, and keeps a run of `0xFF` bytes for the carry.
- **`RadixTrie`.** A string-keyed map stored as a compressed trie.

Java's 32-bit and 64-bit integer arithmetic is written out explicitly. Values are unbounded naturals, reduced modulo 2^32 where Java wraps. Unsigned comparisons become plain comparisons of those naturals. Streams are byte sequences with a read cursor; reading past the end yields 0, as `readNextByte` and `readBit` do. The trie is an immutable tree. `null` becomes `None`, and a node's child list is kept apart from "no child list".

Modules:

- `NatMath`: powers of two, Java division and wrap-around.
- `Wrappers`: `Option` and `Outcome`.
- `Bytes`: big-endian words.
- `BitIO`: the bit writer and reader of `ArithmeticCoder`.
- `Frequency`: `count`, the cumulative table and the decoder's symbol search.
- `ArithmeticCoder`, `RangeCoder`, `CarrylessRangeCoder`, `RadixTrie`.

Main results:

- **Round trips.** For every valid table and every message over the alphabet, `decode(encode(message), message.length)` returns the message. This holds for `ArithmeticCoder`, for both `CarrylessRangeCoder` pairs, and for `RangeCoder` with its termination corrected. It also holds with the table that `count` builds from the message itself.
- **`count`.** Every entry of the table is positive, every symbol that does not occur gets 1, and for messages shorter than 2^30 the total stays within the threshold.
- **`RadixTrie` refines a map.** `get`, `put` and `remove` of a stored key behave exactly like the operations on the map the trie stands for. `size()` is the number of entries. When `getBestMatch` reports a value, it is the value of the longest stored prefix of the key. As written, on every trie where no node sits at a longer prefix of the key, it answers that prefix whatever exit ends the walk, except that it answers null when the prefix's node has no child list (the line-120 finding below). On a trie built by `put`, a node at a longer prefix would be a point where two stored keys that extend the prefix part. Where the walk does pass the longest stored prefix, it can end in the look-back branch, or answer null when the key ends at a node with no value (the line-151 finding below). `getDepth()` is one more than the longest root-to-leaf path.

Where the Java comments and the code disagree, the model follows the code. The main case is `count`: when the largest counter reaches the threshold, the code shifts every counter LEFT (it doubles them), although the comment says it halves them.

## Model

| member | source | states |
|---|---|---|
| `Frequency.Count` | src/main/java/ArithmeticCoder.java:31-83 | `count` gives a table with one entry per symbol; every entry is a positive 32-bit value; a symbol that does not occur gets exactly 1 |
| `Frequency.CountFits` | src/main/java/ArithmeticCoder.java:78-82 | the final assertion of `count`: for messages shorter than 2^30 the entries are positive and sum to at most the threshold |
| `Frequency.TallyBounded` | src/main/java/ArithmeticCoder.java:36-51 | the first loop of `count` keeps every counter at most the running maximum; their sum equals the prefix length while the maximum is below the threshold, and is at most twice it once the counters have been doubled |
| `Frequency.HalvingsFit` | src/main/java/ArithmeticCoder.java:63-67 | without wrap-around, the `shiftBits` loop stops after at most 31 halvings, with the halved total plus the alphabet size within the threshold |
| `Frequency.ScaledTotal` | src/main/java/ArithmeticCoder.java:69-76 | shifting each counter by `shiftBits` and raising zeros to 1 gives entries that sum to at most the threshold |
| `Frequency.CumulativeTable` | src/main/java/ArithmeticCoder.java:125-129 | `sumProbs[c]` is the 32-bit sum of the frequencies before `c`, and `totalCount` is that of all of them; the coders use these sums (`CumBefore`, `Sum`) directly, so this method only ties the Java loop to them |
| `Frequency.ScanFindsSlot` | src/main/java/ArithmeticCoder.java:248-250 | the decoder's search stops at `c` exactly when the threshold lies in `c`'s slot `[sumProbs[c], sumProbs[c] + probs[c])` |
| `Frequency.ScanOffTable` | src/main/java/ArithmeticCoder.java:248-250 | the search runs past the table exactly when the threshold is at least the total |
| `Frequency.ScaledSlot` | src/main/java/ArithmeticCoder.java:143-144 | a symbol's slot scaled onto a range at least as wide as the total is non-empty and stays inside the range |
| `Frequency.FloorThreshold` | src/main/java/ArithmeticCoder.java:247 | the decoder's threshold `((d + 1) * total - 1) / range` falls in `[lo, hi)` exactly when the offset `d` falls in the scaled slot |
| `Frequency.TruncatedThreshold` | src/main/java/CarrylessRangeCoder.java:263 | `d / r` falls in `[lo, hi)` exactly when `d` falls in `[lo*r, hi*r)` |
| `ArithmeticCoder.CountFor` | src/main/java/ArithmeticCoder.java:18-31 | `count` with a quarter of the interval as threshold gives, for messages shorter than 2^30, a table the coder accepts |
| `ArithmeticCoder.Narrow` | src/main/java/ArithmeticCoder.java:139-144 | the interval for symbol `c` is `c`'s slot scaled onto `[left, right]` by floor division, and it is a non-empty part of `[left, right]` |
| `ArithmeticCoder.SettledWide` | src/main/java/ArithmeticCoder.java:139-140 | the assertion `range >= qtr` holds in every state the renormalisation loop exits in |
| `ArithmeticCoder.Renormalize` | src/main/java/ArithmeticCoder.java:147-167 | the loop terminates in a settled interval, and the carry is dropped as soon as a bit is written |
| `ArithmeticCoder.Terminate` | src/main/java/ArithmeticCoder.java:183-188 | termination writes the pending carries plus two bits |
| `ArithmeticCoder.TerminateWithin` | src/main/java/ArithmeticCoder.java:170-188 | the two closing bits, padded with zeros to `precision` bits, lie in the settled interval |
| `ArithmeticCoder.Encode` | src/main/java/ArithmeticCoder.java:93-114 | the output has one byte per eight bits, the last byte partly filled, with bit `k` at position `k % 8` of byte `k / 8` |
| `ArithmeticCoder.EncodeWithin` | src/main/java/ArithmeticCoder.java:137-188 | every code stream, read as a `precision`-bit number, lies in the interval it was coded from |
| `ArithmeticCoder.Decode` | src/main/java/ArithmeticCoder.java:221-281 | a decoded message has the requested length and stays in the alphabet |
| `ArithmeticCoder.SymbolIff` | src/main/java/ArithmeticCoder.java:242-256 | in a settled interval containing the value, the decoder's search stays in the table and finds `c` exactly when the value lies in the interval the encoder narrows to for `c` |
| `ArithmeticCoder.DecRenormSync` | src/main/java/ArithmeticCoder.java:259-277 | the decoder's renormalisation takes the same interval steps as the encoder's, with `value` sliding along the stream one bit per doubling |
| `ArithmeticCoder.RoundTrip` | src/main/java/ArithmeticCoder.java:120-281 | `decode(encode(msg), msg.length)` returns `msg` |
| `ArithmeticCoder.CountedRoundTrip` | src/main/java/ArithmeticCoder.java:31-281 | the same with the table `count` builds from the message |
| `BitIO.PackLayout` | src/main/java/ArithmeticCoder.java:93-114 | `outBit` followed by `flushStream` writes bit `k` into bit `k % 8` of byte `k / 8` |
| `BitIO.ReadNumberWindow` | src/main/java/ArithmeticCoder.java:197-219 | `readFirstNumber` reads the next `precision` stream bits most significant first, and zeros past the end |
| `RangeCoder.CountFor` | src/main/java/RangeCoder.java:16-78 | `count` with threshold `MIN_RANGE` gives, for messages shorter than 2^30, a table the coder accepts |
| `RangeCoder.Narrow` | src/main/java/RangeCoder.java:116-117 | narrowing in 64-bit arithmetic cast back to int gives a non-empty range no wider than before; without wrap it starts at the scaled start of `c`'s slot and ends inside it |
| `RangeCoder.Step` | src/main/java/RangeCoder.java:119-153 | one iteration of the encoder's loop keeps low below `TOP` and widens the range |
| `RangeCoder.Renormalize` | src/main/java/RangeCoder.java:119-153 | the loop ends with a range above `MIN_RANGE` and keeps the encoder's invariant (no carry runs past the first held byte) |
| `RangeCoder.StepKeeps` | src/main/java/RangeCoder.java:120-147 | each of the three branches (write the held bytes, carry into them, extend the `0xFF` run) keeps the invariant |
| `RangeCoder.CarryRoom` | src/main/java/RangeCoder.java:134-143 | when a carry arrives, `nextByte` has been set and is below `0xFF`, so `nextByte + 1` does not overflow |
| `RangeCoder.EncodeWithin` | src/main/java/RangeCoder.java:113-173 | with the termination corrected, every stream the encoder writes from a state points into that state's interval |
| `RangeCoder.FirstDecoder` | src/main/java/RangeCoder.java:184-193 | `readFirstNumber` gives a 31-bit value plus the spare `lastBit`, with the decoder's initial interval |
| `RangeCoder.DecStep` | src/main/java/RangeCoder.java:301-326 | one iteration of the decoder's loop keeps its registers in range and widens the range |
| `RangeCoder.SymbolIff` | src/main/java/RangeCoder.java:289-294 | the decoder picks `c` exactly when `value - low` (mod 2^32) lies in `c`'s scaled slot |
| `RangeCoder.SymbolOffTable` | src/main/java/RangeCoder.java:289-294 | the search runs past the table exactly when `value - low` (mod 2^32) is at least the range |
| `RangeCoder.DecRenormSync` | src/main/java/RangeCoder.java:301-326 | the decoder's loop, including the `invertCarry` correction, stays in step with the encoder's |
| `RangeCoder.Decode` | src/main/java/RangeCoder.java:265-334 | a decoded message has the requested length and stays in the alphabet |
| `RangeCoder.DecoderAsserts` | src/main/java/RangeCoder.java:287-330 | for a decoder in step with the encoder, `value` is at least `low` (the assert at line 287) and `low + range` is at most 2^32 (the assert at line 330) |
| `RangeCoder.StepAsserts` | src/main/java/RangeCoder.java:283-331 | one iteration of the decoder's loop, from a state in step with the corrected encoder, passes the assert before the symbol search and the assert after the renormalisation |
| `RangeCoder.RoundTrip` | src/main/java/RangeCoder.java:90-334 | with the termination corrected, `decode(encode(msg), msg.length)` returns `msg` |
| `RangeCoder.CountedRoundTrip` | src/main/java/RangeCoder.java:25-334 | the same with the table `count` builds |
| `RangeCoder.UninitedPendingLoses` | src/main/java/RangeCoder.java:157-171 | as written, the termination writes a `nextByte` that was never set: message `[1]` over table `[1, 1]` encodes to `00 80 00 00` and decodes to `[0]` |
| `RangeCoder.UninitedPendingCorrected` | src/main/java/RangeCoder.java:157-171 | corrected, the same message encodes to `80 00 00 00` |
| `RangeCoder.ShortTailLoses` | src/main/java/RangeCoder.java:167-171 | as written, the three tail bytes drop bits of low: `[0, 1]` over `[1, 256]` encodes to `00 00 FE 02` and decodes to `[0, 0]` |
| `RangeCoder.ShortTailEncode` | src/main/java/RangeCoder.java:113-171 | the encoder as written reaches low = 8323453 for `[0, 1]` over `[1, 256]` and writes only the termination |
| `CarrylessRangeCoder.CountFor` | src/main/java/CarrylessRangeCoder.java:20-82 | `count` with threshold `MIN_RANGE` gives, for messages shorter than 2^30, a table the coder accepts |
| `CarrylessRangeCoder.Unit` | src/main/java/CarrylessRangeCoder.java:92-94 | `unsignedDiv(range, totalCount)` is at least 1, and the whole table fits in the range at that scale |
| `CarrylessRangeCoder.Narrow` | src/main/java/CarrylessRangeCoder.java:194-195 | the new interval is exactly `c`'s slot `[sumProbs[c]*r, (sumProbs[c]+probs[c])*r)` of the old one, lies inside it, and keeps `low + range` within 2^32 |
| `CarrylessRangeCoder.Renormalize` | src/main/java/CarrylessRangeCoder.java:198-209 | the loop terminates in an interval its condition rejects: for `encode`, the top byte is unsettled and the range is at least `MIN_RANGE`; for `encodeUnoptimized` (lines 146-154), the range is above `MIN_RANGE` |
| `CarrylessRangeCoder.Run` | src/main/java/CarrylessRangeCoder.java:191-210 | the loop over the message leaves an interval ready for the next symbol |
| `CarrylessRangeCoder.RunEncodes` | src/main/java/CarrylessRangeCoder.java:191-218 | `encode` writes the bytes of the loop over the message followed by the termination of the interval the loop ends in |
| `CarrylessRangeCoder.EndAssertFails` | src/main/java/CarrylessRangeCoder.java:145-197 | as written, for the message `[0,0,0,0,0,0,0,1,0,0,0,0,0,0,0,1]` over `[1, 1]`, both encoders reach low = 0xFF000000, range = 2^24 after fifteen symbols; the last narrowing gives low = 0xFF800000, range = 0x800000, which ends exactly at 2^32 and fails the assert |
| `CarrylessRangeCoder.GuardsAgree` | src/main/java/CarrylessRangeCoder.java:147-149 | the encoder's guard (whose precedence turns the expression into `low & (MIN_RANGE - 2)`) and the decoder's guard at line 278 cut the range identically |
| `CarrylessRangeCoder.Terminate` | src/main/java/CarrylessRangeCoder.java:213-218 | termination writes exactly four bytes |
| `CarrylessRangeCoder.EncodeWithin` | src/main/java/CarrylessRangeCoder.java:191-218 | the first four bytes of every stream, read big-endian, lie in the interval it was coded from |
| `CarrylessRangeCoder.SymbolIff` | src/main/java/CarrylessRangeCoder.java:317-327 | for a value in the interval, the decoder finds `c` exactly when the value lies in the interval the encoder narrows to for `c` |
| `CarrylessRangeCoder.SymbolOffTable` | src/main/java/CarrylessRangeCoder.java:317-322 | the search runs past the table exactly when `value - low` is at least `totalCount * r` |
| `CarrylessRangeCoder.DecRenormSync` | src/main/java/CarrylessRangeCoder.java:331-343 | the decoder's loop shifts the same bytes into `value` that the encoder's loop writes |
| `CarrylessRangeCoder.RoundTrip` | src/main/java/CarrylessRangeCoder.java:177-351 | `decode(encode(msg), msg.length)` returns `msg` |
| `CarrylessRangeCoder.UnoptimizedRoundTrip` | src/main/java/CarrylessRangeCoder.java:121-293 | `decodeUnoptimized(encodeUnoptimized(msg), msg.length)` returns `msg` |
| `CarrylessRangeCoder.CountedRoundTrip` | src/main/java/CarrylessRangeCoder.java:29-351 | `decode(encode(msg))` returns `msg` with the table `count` builds |
| `RadixTrie.Find` | src/main/java/RadixTrie.java:215-220 | the child search returns the first child whose label starts with the character, or the end of the list |
| `RadixTrie.Agree` | src/main/java/RadixTrie.java:245-252 | the match loop stops at the length of the common prefix of the label and the rest of the key |
| `RadixTrie.Dispatch` | src/main/java/RadixTrie.java:163-173 | with children sorted by distinct first characters, whatever is stored below a node under the key is stored below the one child the scan picks for the key's first character |
| `RadixTrie.New` | src/main/java/RadixTrie.java:41-43 | a new trie is valid, stands for the empty map, and has size 0 and depth 1 |
| `RadixTrie.GetLookup` | src/main/java/RadixTrie.java:158-197 | `get` finds exactly the value stored under the key; its null exits lose nothing |
| `RadixTrie.Get` | src/main/java/RadixTrie.java:158-197 | `get(key)` is the map's entry for the key, or null |
| `RadixTrie.PutValid` | src/main/java/RadixTrie.java:204-283 | each of the five branches of `put` (new list, new child, two-way split, replace, three-way split) keeps the trie well formed: sorted, non-empty labels, no valueless leaves |
| `RadixTrie.PutLookup` | src/main/java/RadixTrie.java:204-283 | after `put`, the key holds the new value and every other key keeps its old one |
| `RadixTrie.PutOld` | src/main/java/RadixTrie.java:253-260 | `put` returns the value the key held before, or null |
| `RadixTrie.Put` | src/main/java/RadixTrie.java:199-284 | the map gains the entry `key := value`, and `put` returns the replaced value |
| `RadixTrie.Store` | src/main/java/RadixTrie.java:199-200 | a null value is refused with an error, and only a null value is; otherwise the map gains the entry `key := value` |
| `RadixTrie.UnlinkValid` | src/main/java/RadixTrie.java:313-327 | dropping a childless node, merging a node into its only child, or clearing its value keeps the trie well formed |
| `RadixTrie.RemoveLookup` | src/main/java/RadixTrie.java:286-334 | after `remove` of a stored key, that key is absent and every other key keeps its value; with the mismatch exit corrected this holds for every key |
| `RadixTrie.RemoveOld` | src/main/java/RadixTrie.java:312-329 | `remove` returns the value the key held |
| `RadixTrie.Remove` | src/main/java/RadixTrie.java:286-334 | for a stored key, `remove` returns its value and the map loses exactly that entry |
| `RadixTrie.RemoveCorrected` | src/main/java/RadixTrie.java:286-334 | with a label mismatch ending the search, `remove` of any key returns its entry (or null) and the map loses only that key |
| `RadixTrie.BestLongest` | src/main/java/RadixTrie.java:96-156 | a match holds a prefix of the key and the value stored there, which is null only when the prefix is the whole key; no longer prefix of the key is stored |
| `RadixTrie.BestMatch` | src/main/java/RadixTrie.java:115-156 | `getBestMatch` reports a prefix of the key with its map entry, and no longer prefix of the key is in the map; a null value comes only with the whole key (line 151); a reported value is the corrected answer's |
| `RadixTrie.BestBelowFinds` | src/main/java/RadixTrie.java:96-156 | with lines 120 and 151 corrected, the walk below a node answers either the match handed down from above or a stored prefix with its value, and no prefix stored below the node is longer |
| `RadixTrie.BestCorrectedAll` | src/main/java/RadixTrie.java:115-156 | from the root, the corrected walk answers a stored prefix of the key with its map entry, and every stored prefix is at most as long |
| `RadixTrie.BestMatchCorrected` | src/main/java/RadixTrie.java:115-156 | evidently intended: the longest stored prefix of the key with its value; null exactly when no prefix of the key is stored |
| `RadixTrie.AgreesCorrected` | src/main/java/RadixTrie.java:96-99 | any answer carrying a value that meets the as-written promise is the corrected answer |
| `RadixTrie.PutPruned` | src/main/java/RadixTrie.java:204-283 | each branch of `put` leaves every node below the root with a value or children, and the node it changes has children |
| `RadixTrie.PutKeepsPruned` | src/main/java/RadixTrie.java:199-284 | `put` keeps every node below the root holding a value or children |
| `RadixTrie.WalkStops` | src/main/java/RadixTrie.java:115-156 | on such a trie, when the longest stored prefix is known and nothing is stored past the key's next character, the walk reports that prefix or stops at a node without a child list |
| `RadixTrie.BestMatchPruned` | src/main/java/RadixTrie.java:115-156 | as written, on a trie built by `put` alone: if `key[..j]` is stored and no stored key starts with `key[..j+1]`, the answer is `key[..j]` with its value, or null when no stored key extends `key[..j]` |
| `RadixTrie.WalkUntil` | src/main/java/RadixTrie.java:115-156 | on any trie, when `key[i..j]` is stored below the node and no node sits at a longer prefix of the key, the walk reports `key[..j]` with its value, or stops at a node without a child list with nothing stored below that prefix |
| `RadixTrie.BestMatchStops` | src/main/java/RadixTrie.java:115-156 | as written, on any trie: if `key[..j]` is stored and no node sits at `key[..m]` for any `m` past `j`, the answer is `key[..j]` with its value, whichever of the exits at lines 138, 139, 151 and 152 ends the walk, or null (line 120) when no stored key extends `key[..j]` |
| `RadixTrie.SizeCounts` | src/main/java/RadixTrie.java:45-60 | `size()` counts the listed keys; they are distinct and are exactly the keys with a value |
| `RadixTrie.SizeIsCount` | src/main/java/RadixTrie.java:45-60 | `size()` is the number of entries in the map |
| `RadixTrie.PathShorter` | src/main/java/RadixTrie.java:66-84 | every path of child indices below the root is shorter than `getDepth()` |
| `RadixTrie.Deepest` | src/main/java/RadixTrie.java:66-84 | some path below the root has `getDepth() - 1` nodes |
| `RadixTrie.IsEmpty` | src/main/java/RadixTrie.java:62-64 | `isEmpty()` holds exactly when the depth is 1; then the size is 0 and no key is stored |
| `RadixTrie.IsEmptyCorrected` | src/main/java/RadixTrie.java:62-64 | evidently intended: empty exactly when the map has no entries; the code's `isEmpty()` implies it |
| `RadixTrie.Clear` | src/main/java/RadixTrie.java:336-339 | after `clear()`, the trie is empty and stands for the empty map |
| `RadixTrie.RemoveMismatchLoses` | src/main/java/RadixTrie.java:300-332 | as written, with "abc" and "abcabd" stored, `remove("abd")` deletes "abcabd" and returns 2 |
| `RadixTrie.RemoveMismatchCorrected` | src/main/java/RadixTrie.java:300-332 | corrected, the same `remove("abd")` changes nothing and returns null |
| `RadixTrie.BestMatchLeafLoses` | src/main/java/RadixTrie.java:119-120 | as written, with only "a" stored, `getBestMatch("ab")` returns null |
| `RadixTrie.BestMatchLeafCorrected` | src/main/java/RadixTrie.java:119-120 | corrected, the same call returns "a" with value 1 |
| `RadixTrie.BestMatchNullValue` | src/main/java/RadixTrie.java:148-151 | as written, with "x", "xab" and "xac" stored, `getBestMatch("xa")` returns "xa" with a null value |
| `RadixTrie.BestMatchNullValueCorrected` | src/main/java/RadixTrie.java:148-151 | corrected, the same call returns "x" with value 0 |
| `RadixTrie.EmptiedNotEmpty` | src/main/java/RadixTrie.java:62-64 | after `put` and `remove` of "ab" and "ac", the map is empty and `size()` is 0, yet `isEmpty()` is false |
| `RadixTrie.TestBestMatch` | src/test/java/Tests.java:63-73 | with "a", "ab", "abc" and "abcdef" stored, `getBestMatch("abcde")` is "abc" with value 3 |
| `RadixTrie.TestDepth` | src/test/java/Tests.java:36-48 | after storing "ab", "abcd", "abce" and "abc", the map holds the four entries and `getDepth()` is 4 |

## Left out

- `decodeOptimized` and `readFirstNumberOpt` (RangeCoder.java:195-263) are not modelled. They are an alternative decoder that the round trip does not need.
- The driver programs (`Program`, `CompressionProgram`, `RangeCompressionProgram`, `BenchProgram`) are file I/O, timing and printing, outside the coding core.
- Java's `ByteArrayOutputStream` and `ByteArrayInputStream` become byte sequences with a cursor. The per-instance bit state of `ArithmeticCoder` starts fresh for each call in the model: the writer's `currentByte` and `bitsUsed` (ArithmeticCoder.java:117-118) for each encode, and the reader's `readingByte` and `readedBits` (ArithmeticCoder.java:194-195) for each decode. In Java none of these fields is reset between calls; `flushStream` (ArithmeticCoder.java:110-114) writes the last partial byte without clearing `currentByte` or `bitsUsed`, so a second `encode` on the same instance would start mid-byte with stale bits.
- `Frequency.CountFits`: the total is bounded only for messages shorter than 2^30 symbols. Longer messages can wrap Java's 32-bit counters, and the model does not describe what the bound becomes then.
- `ArithmeticCoder.RoundTrip`, `RangeCoder.RoundTrip` and `CarrylessRangeCoder.RoundTrip` assume the table the coder holds is valid. Every entry must be positive and the total within the threshold, as `count` guarantees (`CountedRoundTrip`). A hand-made table that breaks this is not covered.
- `RangeCoder.RoundTrip`: it is stated for the corrected termination only. The encoder as written loses messages, as the findings below show.
- `RadixTrie.Remove`: as written, its contract covers stored keys only. For an absent key the mismatch path can delete another entry (see the findings). `RemoveCorrected` covers every key.
- `RadixTrie.Get` and `RadixTrie.Remove`: they require a non-empty key. On an empty key Java's `key.charAt(0)` throws (RadixTrie.java:164, 292), unless the root has no child list; then they return null (lines 162, 290).
- `RadixTrie.Put` and `RadixTrie.Store`: they require a non-empty key. On a root with no child list, Java's `put("")` stores the value in a child with an empty label (RadixTrie.java:205-211). Every later scan of the root's children then throws at `child.str.charAt(0)` (lines 127, 169, 216, 294). On a root with a child list, `put("")` throws at line 214. The model has no state for a trie that throws on every later call.
- `RadixTrie.BestMatch` and `RadixTrie.BestMatchCorrected`: they require a non-empty key. Java's `getBestMatch("")` returns null at RadixTrie.java:120 when the root has no child list, and otherwise throws at line 122.
- `RadixTrie.BestMatch`: the look-back branch of `getMatchResult` (RadixTrie.java:100-112) is represented by the `LookBack` answer only. That branch returns `node.o`, which is null on that path, and it reads `path.get(-1)` when no earlier node holds a value. The contract promises nothing about a `LookBack` answer. So it is sound but, in general, not complete: the walk can pass the longest stored prefix and end in look-back. Completeness is proved where no node of the trie sits at a prefix of the key longer than the longest stored prefix (`BestMatchStops`, on any trie). It is also proved where no stored key starts with the longest stored prefix followed by the key's next character, on tries where every node below the root holds a value or children (`BestMatchPruned`); `put` keeps that shape and `remove` can break it. The model does not prove that, on a trie built by `put`, the nodes are exactly the stored keys and the points where two stored keys part, so the first condition is stated on the trie's nodes and not on its map.
- The binary search for nodes with 25 or more children (RadixTrie.java:133-135, 175-177) is not modelled; the model always scans. Children stay sorted by distinct first characters, so a search by first character finds the same child the scan does (`RadixTrie.Dispatch`).
- The trie's `int` size counter is modelled as an unbounded natural, so overflow past 2^31 - 1 entries is not modelled. Characters are 16-bit UTF-16 units, modelled as Dafny `char` values with no encoding.
- `Node.toString` is not modelled, because it is for printing only.
- Java assertions (`assert`) are not run-time checks in the model. Each is either proved about the model (for example `Frequency.CountFits`, `ArithmeticCoder.SettledWide`, `RangeCoder.StepAsserts`) or, where a reachable state breaks it, listed under the findings (CarrylessRangeCoder.java:145 and 197). Past a failing assert the model codes on, as Java does with assertions disabled.
- `RangeCoder.Decode`: its contract does not state the asserts at RangeCoder.java:287 and 330. `StepAsserts` proves them for every iteration that starts in step with the corrected encoder, which is every iteration of the round trip. For other byte streams the model promises nothing about them.
- `Frequency.Count`: it requires every symbol to be below `alphabetSize`. Java throws `ArrayIndexOutOfBoundsException` at `++rawProbs[message[i]]` (ArithmeticCoder.java:38, RangeCoder.java:33, CarrylessRangeCoder.java:37) for a symbol at or above the alphabet size or a negative one. Symbols are naturals in the model, so negative symbols cannot be written, and the exception has no state in the model.
- `Frequency.Count`: it requires `alphabetSize <= threshold`. On larger alphabets the `shiftBits` loop (ArithmeticCoder.java:63-66) never ends: once `totalCount` reaches 0, `0 + alphabetSize` stays above the threshold.
- `ArithmeticCoder.Encode`, `RangeCoder.Encode` and `CarrylessRangeCoder.Encode`: they require every symbol to be in the table's alphabet. Java throws `ArrayIndexOutOfBoundsException` at `sumProbs[c]` otherwise (ArithmeticCoder.java:143, RangeCoder.java:116, CarrylessRangeCoder.java:194).
- The decoder's copies of the failing assert (CarrylessRangeCoder.java:275 and 329) are not shown failing on their own. The decoder retraces the encoder's intervals on the stream it reads, so they are expected to fail on the same input.

## Findings

| source | as written | input that shows it | evidently intended | confidence | as-written member | corrected member |
|---|---|---|---|---|---|---|
| src/main/java/CarrylessRangeCoder.java:197 | the assert after narrowing demands `low + range - 1 < 2^32 - 1`, but a narrowed interval can end exactly at 2^32; line 145 in `encodeUnoptimized` has the same assert and fails on the same input | table `[1, 1]`, message `[0,0,0,0,0,0,0,1,0,0,0,0,0,0,0,1]`: the last narrowing gives low = 0xFF800000, range = 0x800000 | `low + range <= 2^32`, the bound the rest of the code relies on | high (not executed) | `CarrylessRangeCoder.EndAssertFails` | `CarrylessRangeCoder.Narrow` |
| src/main/java/RangeCoder.java:157-166 | termination writes `nextByte` even when no iteration ever set it | message `[1]`, table `[1, 1]`: output `00 80 00 00`, decoded `[0]` | write the held byte only once it has been set | high (not executed) | `RangeCoder.UninitedPendingLoses` | `RangeCoder.UninitedPendingCorrected` |
| src/main/java/RangeCoder.java:167-171 | termination writes only bits 30..8 of low, and masks the third byte with `0xfe` (the fourth write is commented out) | message `[0, 1]`, table `[1, 256]`: output `00 00 FE 02`, decoded `[0, 0]` | write all 31 bits of low in four bytes | high (not executed) | `RangeCoder.ShortTailLoses` | `RangeCoder.RoundTrip` |
| src/main/java/RadixTrie.java:332 | on a label mismatch `remove` descends into the candidate without consuming its label | store "abc"→1 and "abcabd"→2, then `remove("abd")`: returns 2 and deletes "abcabd" | a mismatch ends the search and returns null, as `get` does at line 194 | high (not executed) | `RadixTrie.RemoveMismatchLoses` | `RadixTrie.RemoveCorrected` |
| src/main/java/RadixTrie.java:120 | `getBestMatch` returns null at a node without a child list, even when the node matched so far holds a value | store "a"→1, then `getBestMatch("ab")`: null | return the node's own key and value, as `getMatchResult` does | high (not executed) | `RadixTrie.BestMatchLeafLoses` | `RadixTrie.BestMatchCorrected` |
| src/main/java/RadixTrie.java:151 | when the key ends exactly at a node, `getBestMatch` returns that node's value even when it is null, although a shorter prefix of the key is stored | store "x"→0, "xab"→1 and "xac"→2, then `getBestMatch("xa")`: "xa" with null | fall back to the nearest stored prefix, as `getMatchResult` means to | medium (not executed) | `RadixTrie.BestMatchNullValue` | `RadixTrie.BestMatchCorrected` |
| src/main/java/RadixTrie.java:62-64 | `isEmpty()` tests only the root's child list, and `remove` leaves valueless nodes with empty child lists behind | put "ab" and "ac", remove both: `size()` is 0 but `isEmpty()` is false | empty exactly when no key is stored | medium (not executed) | `RadixTrie.EmptiedNotEmpty` | `RadixTrie.IsEmptyCorrected` |
