# TextCompressor, modelled in Dafny

`TextCompressor` is a command-line program. Its flag `-` compresses standard
input and `+` expands it. The compress path reads the whole input as a string,
counts how often each extended-ASCII character occurs, and lists the characters
that occur, in ascending value order. It then sorts that list with a bubble sort
into non-increasing frequency and gives every character its position in the
sorted list as its code. Finally it writes a header: the number of distinct
characters, the characters in code order, the code width (a fixed placeholder
of 1) and the input length. No character data follows the header. The expand
path only closes the output stream.

The source's header comment shows sample output sizes "when using 8-bit codes"
and a compression ratio, but the code writes no encoded character data and has
no decoder. This model follows the code.

The model has two modules:

- `FrequencyOrder` (`frequency_order.dfy`) holds the specification. It defines
  the histogram `Histogram`. It defines the code order `IsCodeOrder`: the used
  characters, most frequent first, with ties broken by ascending value. It
  defines the same-frequency subsequences `WithFrequency`, by which the sort's
  stability is stated. It defines the code map `LastIndexMap` and the header
  layout `HeaderLayout`. The lemmas relating these definitions are here too.
- `TextCompressor` (`text_compressor.dfy`) holds the steps of `compress()` as
  imperative methods over arrays, sequences and a map. Each method is proved
  against those definitions. The module also holds `expand()` and the
  dispatch in `main`.

A Java `char` is modelled as `Char`, an integer in `0 .. 65535`. The output
stream is modelled as the list of calls made on it: `Write(value, width)`,
`WriteInt(value)` for the default-width overload, and `Close`. The input string
is a parameter.

## Model

| member | source | states |
|---|---|---|
| `TextCompressor.CountFrequencies` | src/TextCompressor.java:43-47 | The count succeeds exactly when every character is below 256. When it succeeds, entry `c` of the 256-entry table is the number of occurrences of `c` in the input. |
| `FrequencyOrder.HistogramTotal` | src/TextCompressor.java:44-47 | For an input of characters below 256, the histogram entries add up to the input length. |
| `TextCompressor.UsedCharacters` | src/TextCompressor.java:49-55 | The list is strictly ascending, so each character appears once. It holds exactly the characters with a non-zero count, and it has at most 256 entries. |
| `TextCompressor.SwapNeighbours` | src/TextCompressor.java:61-66 | The two `set` calls exchange `list[j]` and `list[j + 1]` and change nothing else. |
| `FrequencyOrder.SwapKeepsFrequencyClasses` | src/TextCompressor.java:63-67 | Swapping two neighbours of different frequency is a permutation. It keeps, for every frequency, the subsequence of characters with that frequency. |
| `FrequencyOrder.PassStep` | src/TextCompressor.java:60-68 | One compare-and-swap step of a pass keeps the pass invariant. The list stays a permutation with the same frequency classes, nothing after the pass bound changes, and position `j + 1` holds a least frequent character of the prefix. |
| `TextCompressor.BubblePass` | src/TextCompressor.java:60-68 | One inner pass leaves a least frequent character of `list[..last + 1]` at `last`. It leaves the places after `last` untouched, permutes the list and keeps every same-frequency subsequence. |
| `FrequencyOrder.PassGrowsSortedSuffix` | src/TextCompressor.java:59-69 | After a pass, the sorted tail grows by one place. No character before the tail is less frequent than one in it. |
| `TextCompressor.SortByFrequency` | src/TextCompressor.java:57-69 | The result is a permutation of the input list with non-increasing frequencies. Every same-frequency subsequence is unchanged, so the sort is stable. Lists of length 0 or 1 are left as they are. |
| `FrequencyOrder.StableSortTiesAscending` | src/TextCompressor.java:59-69 | When the list started strictly ascending, a sort that keeps every same-frequency subsequence leaves characters of equal frequency in ascending value order. |
| `FrequencyOrder.SortedUniqueIsCodeOrder` | src/TextCompressor.java:50-69 | The used-character list, sorted as above, is the code order. It holds exactly the characters of non-zero frequency, more frequent first, with ties ascending. |
| `FrequencyOrder.CodeOrderUnique` | src/TextCompressor.java:50-69 | A frequency table has only one code order, so the header is a function of the input. |
| `TextCompressor.AssignCodes` | src/TextCompressor.java:71-75 | The map has exactly the list's characters as keys. Each is mapped to the index of its last occurrence, because `put` overwrites. |
| `FrequencyOrder.CodesAreRanks` | src/TextCompressor.java:72-78 | Over the code order, each character's code is its index. The codes are distinct and cover `0 .. numChars-1`, the keys are exactly the used characters, and a more frequent character never gets a larger code. |
| `TextCompressor.WriteHeader` | src/TextCompressor.java:84-97 | The calls made are exactly the header layout: the count, then one 8-bit write per character in list order, then the width, then the length. |
| `FrequencyOrder.HeaderFields` | src/TextCompressor.java:84-97 | The header has `numChars + 3` writes. It gives the position of every field and carries no character data of the input. |
| `TextCompressor.Compress` | src/TextCompressor.java:35-101 | Compress fails with an out-of-bounds error, writing nothing, exactly when some character is 256 or above. Otherwise it writes the header for the input's code order, with width 1 and the input length, and then closes. That is between 4 and 260 calls. |
| `TextCompressor.Expand` | src/TextCompressor.java:103-108 | Expand writes nothing and closes the stream. |
| `TextCompressor.Run` | src/TextCompressor.java:110-114 | `-` runs compress and `+` runs expand. Any other argument is an illegal-argument error, raised before any output. |

## Left out

- Reading the input (`BinaryStdIn.readString`): the input is a parameter of `Compress`.
- The bit packing, buffering and range checks of `BinaryStdOut`: each call is recorded as a `Write`, `WriteInt` or `Close` record. That library is not part of this model.
- Compress: when all 256 characters occur, it records `Write(256, FieldWidth)` (an 8-bit field) for the count. Whether the library accepts or rejects a value that does not fit in 8 bits is not modelled.
- The width of the final `write(chars.length)` call: it is fixed by the library's default overload, so it is recorded as `WriteInt`.
- A real code-width computation: the source has only the placeholder `bits = 1`, and the model uses that constant.
- A missing command-line argument (`args[0]` on an empty array): this is a Java runtime exception, not program logic.
- The partial counts left behind when the out-of-bounds exception aborts the count: the run ends there, before any output.
- Java `int` overflow of a count: no count exceeds the input length, and a Java string is shorter than 2^31 characters.
- The code map `charCode` is built and then not used, as in the source. `Compress` does not return it.
- An encoder of the character data, a decoder and a round trip: the source has none of them, and `expand()` is an empty stub.
