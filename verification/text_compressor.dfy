/**
 * The compress and expand entry points of the text compressor and the
 * command-line dispatch. Compress reads the whole input, counts how often each
 * character occurs, ranks the used characters by frequency with a bubble sort,
 * gives each one its rank as code, and writes a header. The output stream is
 * modelled as the list of calls made on it.
 */
module TextCompressor {
  import opened FrequencyOrder

  datatype Error =
    | IndexOutOfBounds  // a character of 256 or above indexes past the histogram
    | IllegalArgument   // the command-line flag is neither "-" nor "+"

  datatype Result<T> = Ok(value: T) | Err(error: Error)

  /**
   * Counting loop: one increment of `frequency[c]` per occurrence of `c`.
   * A character of 256 or more stops the count with an out-of-bounds failure.
   */
  method CountFrequencies(chars: array<Char>) returns (frequency: array<int>, inRange: bool)
    ensures frequency.Length == TableSize
    ensures inRange <==> InRange(chars[..], TableSize)
    ensures inRange ==> frequency[..] == Histogram(chars[..])
  {
    frequency := new int[TableSize](_ => 0);
    assert frequency[..] == Histogram(chars[..0]);
    var i := 0;
    while i < chars.Length
      invariant 0 <= i <= chars.Length
      invariant frequency.Length == TableSize
      invariant InRange(chars[..i], TableSize)
      invariant frequency[..] == Histogram(chars[..i])
    {
      if chars[i] >= frequency.Length {
        return frequency, false;
      }
      assert chars[..i + 1] == chars[..i] + [chars[i]];
      HistogramSnoc(chars[..i], chars[i]);
      frequency[chars[i]] := frequency[chars[i]] + 1;
      i := i + 1;
    }
    assert chars[..i] == chars[..];
    inRange := true;
  }

  /** The characters whose count is non-zero, scanned in ascending value order. */
  method UsedCharacters(frequency: array<int>) returns (uniqueChars: seq<Char>)
    requires frequency.Length <= 0x1_0000
    ensures StrictlyAscending(uniqueChars)
    ensures InRange(uniqueChars, frequency.Length) && |uniqueChars| <= frequency.Length
    ensures forall c: Char :: c in uniqueChars <==> c < frequency.Length && frequency[c] > 0
  {
    uniqueChars := [];
    var i := 0;
    while i < frequency.Length
      invariant 0 <= i <= frequency.Length
      invariant |uniqueChars| <= i
      invariant StrictlyAscending(uniqueChars)
      invariant forall k :: 0 <= k < |uniqueChars| ==> uniqueChars[k] < i
      invariant forall c: Char :: c in uniqueChars <==> c < i && frequency[c] > 0
    {
      if frequency[i] > 0 {
        uniqueChars := uniqueChars + [i as Char];
      }
      i := i + 1;
    }
  }

  /**
   * One pass of the bubble sort over `list[..last + 1]`: walks left to right,
   * swapping neighbours when the right one is strictly more frequent, which
   * moves a least frequent character of that prefix to position `last`.
   */
  method BubblePass(list: array<Char>, frequency: array<int>, last: nat)
    requires last < list.Length
    requires InRange(list[..], frequency.Length)
    modifies list
    ensures InRange(list[..], frequency.Length)
    ensures multiset(list[..]) == multiset(old(list[..]))
    ensures list[last + 1..] == old(list[last + 1..])
    ensures SameFrequencyClasses(list[..], old(list[..]), frequency[..])
    ensures forall k :: 0 <= k <= last ==> frequency[list[k]] >= frequency[list[last]]
  {
    ghost var freq := frequency[..];
    var j := 0;
    while j < last
      invariant 0 <= j <= last
      invariant PassInvariant(list[..], old(list[..]), j, last, freq)
    {
      ghost var cur := list[..];
      var first := list[j];
      var second := list[j + 1];
      if frequency[first] < frequency[second] {
        SwapNeighbours(list, j);
      }
      PassStep(cur, list[..], old(list[..]), j, last, freq);
      j := j + 1;
    }
  }

  /** The two `set` calls of one swap: `list[j]` and `list[j + 1]` trade places. */
  method SwapNeighbours(list: array<Char>, j: nat)
    requires j + 1 < list.Length
    modifies list
    ensures list[..] == old(list[..])[j := old(list[j + 1])][j + 1 := old(list[j])]
  {
    var first, second := list[j], list[j + 1];
    list[j] := second;
    list[j + 1] := first;
  }

  /**
   * Bubble sort of `list` into non-increasing frequency. Neighbours are swapped
   * only when the right one is strictly more frequent, so each same-frequency
   * subsequence keeps its order (the sort is stable).
   */
  method SortByFrequency(list: array<Char>, frequency: array<int>)
    requires InRange(list[..], frequency.Length)
    modifies list
    ensures InRange(list[..], frequency.Length)
    ensures multiset(list[..]) == multiset(old(list[..]))
    ensures NonIncreasing(list[..], frequency[..])
    ensures SameFrequencyClasses(list[..], old(list[..]), frequency[..])
    ensures list.Length <= 1 ==> list[..] == old(list[..])
  {
    ghost var freq := frequency[..];
    var n := list.Length;
    var i := 0;
    while i < n - 1
      invariant 0 <= i <= n && (n == 0 || i <= n - 1)
      invariant frequency[..] == freq
      invariant InRange(list[..], |freq|)
      invariant multiset(list[..]) == multiset(old(list[..]))
      invariant SameFrequencyClasses(list[..], old(list[..]), freq)
      // the last i places hold the i least frequent characters, in order
      invariant SortedFrom(list[..], n - i, freq) && SplitAt(list[..], n - i, freq)
      invariant n <= 1 ==> list[..] == old(list[..])
    {
      ghost var before := list[..];
      BubblePass(list, frequency, n - i - 1);
      PassGrowsSortedSuffix(before, list[..], n - i, freq);
      i := i + 1;
    }
    assert SortedFrom(list[..], 0, freq);
  }

  /**
   * Fills the code map with `charCode[list[i]] := i` for each position in
   * turn; a later position of a repeated character overwrites an earlier one.
   */
  method AssignCodes(list: array<Char>) returns (charCode: map<Char, int>)
    ensures LastIndexMap(list[..], charCode)
  {
    charCode := map[];
    var i := 0;
    while i < list.Length
      invariant 0 <= i <= list.Length
      invariant LastIndexMap(list[..i], charCode)
    {
      assert list[..i + 1] == list[..i] + [list[i]];
      charCode := charCode[list[i] := i];
      i := i + 1;
    }
    assert list[..i] == list[..];
  }

  /** Writes the header fields one after another and returns the calls made. */
  method WriteHeader(list: array<Char>, bits: int, length: int) returns (out: seq<OutputCall>)
    ensures out == HeaderLayout(list[..], bits, length)
  {
    out := [Write(list.Length, FieldWidth)];
    var i := 0;
    while i < list.Length
      invariant 0 <= i <= list.Length
      invariant out == [Write(list.Length, FieldWidth)] + CharRecords(list[..i])
    {
      assert CharRecords(list[..i + 1]) == CharRecords(list[..i]) + [Write(list[i], FieldWidth)];
      out := out + [Write(list[i], FieldWidth)];
      i := i + 1;
    }
    assert list[..i] == list[..];
    out := out + [Write(bits, FieldWidth)];
    out := out + [WriteInt(length)];
  }

  /**
   * What compress produces for `input`: an out-of-bounds failure, with nothing
   * written, when some character is 256 or more; otherwise the header for the
   * code order of the input's histogram, with code width 1, then the close.
   */
  ghost predicate CompressResult(input: seq<Char>, r: Result<seq<OutputCall>>)
  {
    && (r.Err? <==> !InRange(input, TableSize))
    && (r.Err? ==> r.error == IndexOutOfBounds)
    && (r.Ok? ==> exists order :: IsCodeOrder(order, Histogram(input))
                                  && r.value == HeaderLayout(order, 1, |input|) + [Close])
  }

  /**
   * compress: copies the input into a character array, counts, lists the used
   * characters, sorts them by frequency, assigns codes and writes the header.
   */
  method Compress(input: seq<Char>) returns (r: Result<seq<OutputCall>>)
    ensures CompressResult(input, r)
    ensures r.Ok? ==> 4 <= |r.value| <= TableSize + 4
  {
    var chars := new Char[|input|];
    var i := 0;
    while i < |input|
      invariant 0 <= i <= |input|
      invariant chars[..i] == input[..i]
    {
      chars[i] := input[i];
      i := i + 1;
    }
    assert chars[..] == input;

    var frequency, inRange := CountFrequencies(chars);
    if !inRange {
      return Err(IndexOutOfBounds);
    }

    var uniqueChars := UsedCharacters(frequency);
    var list := new Char[|uniqueChars|](k => if 0 <= k < |uniqueChars| then uniqueChars[k] else 0);
    assert list[..] == uniqueChars;
    SortByFrequency(list, frequency);
    SortedUniqueIsCodeOrder(uniqueChars, list[..], frequency[..]);

    var charCode := AssignCodes(list);
    CodesAreRanks(list[..], frequency[..], charCode);

    var bits := 1;
    var header := WriteHeader(list, bits, chars.Length);
    r := Ok(header + [Close]);
    assert IsCodeOrder(list[..], Histogram(input))
           && r.value == HeaderLayout(list[..], 1, |input|) + [Close];
    HeaderFields(list[..], 1, |input|);
  }

  /** Expand writes nothing before it closes the stream. */
  method Expand() returns (out: seq<OutputCall>)
    ensures out == [Close]
  {
    out := [Close];
  }

  /** The command-line dispatch: "-" compresses, "+" expands, anything else is refused. */
  method Run(arg: string, input: seq<Char>) returns (r: Result<seq<OutputCall>>)
    ensures arg == "-" ==> CompressResult(input, r)
    ensures arg == "+" ==> r == Ok([Close])
    ensures arg != "-" && arg != "+" ==> r == Err(IllegalArgument)
  {
    if arg == "-" {
      r := Compress(input);
    } else if arg == "+" {
      var out := Expand();
      r := Ok(out);
    } else {
      r := Err(IllegalArgument);
    }
  }
}
