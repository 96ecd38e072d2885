/**
 * Specification side of the text compressor: the character histogram, the
 * ranking of characters by frequency that the header transmits, the code map,
 * and the header layout. The imperative steps in module TextCompressor are
 * proved against the definitions here.
 */
module FrequencyOrder {

  /** A Java `char`: an unsigned 16-bit code unit. */
  type Char = c: int | 0 <= c < 0x1_0000

  /** Number of entries of the histogram (extended ASCII). */
  const TableSize := 256

  /** Every element of `s` is a valid index into a table of `n` entries. */
  ghost predicate InRange(s: seq<Char>, n: int)
  {
    forall k :: 0 <= k < |s| ==> s[k] < n
  }

  /** Number of occurrences of `c` in `s`, counted left to right. */
  ghost function Count(s: seq<Char>, c: int): nat
  {
    if s == [] then 0 else Count(s[..|s| - 1], c) + (if s[|s| - 1] == c then 1 else 0)
  }

  /** The 256-entry histogram of `s`: entry `c` is the number of occurrences of `c`. */
  ghost function Histogram(s: seq<Char>): (h: seq<int>)
    ensures |h| == TableSize
  {
    seq(TableSize, c => Count(s, c))
  }

  /** Sum of the entries of a table. */
  ghost function Total(h: seq<int>): int
  {
    if h == [] then 0 else h[0] + Total(h[1..])
  }

  lemma {:induction false} TotalUpdate(h: seq<int>, x: nat, v: int)
    requires x < |h|
    ensures Total(h[x := v]) == Total(h) - h[x] + v
  {
    if x == 0 {
      assert h[x := v][1..] == h[1..];
    } else {
      assert h[x := v][1..] == h[1..][x - 1 := v];
      TotalUpdate(h[1..], x - 1, v);
    }
  }

  lemma {:induction false} TotalOfZeros(h: seq<int>)
    requires forall k :: 0 <= k < |h| ==> h[k] == 0
    ensures Total(h) == 0
  {
    if h != [] {
      TotalOfZeros(h[1..]);
    }
  }

  /** Appending one character `x` increments exactly the histogram entry of `x`. */
  lemma HistogramSnoc(p: seq<Char>, x: Char)
    requires x < TableSize
    ensures Histogram(p + [x]) == Histogram(p)[x := Histogram(p)[x] + 1]
  {
    assert (p + [x])[..|p|] == p;
  }

  /** The histogram entries of an input of bytes add up to the input length. */
  lemma {:induction false} HistogramTotal(s: seq<Char>)
    requires InRange(s, TableSize)
    ensures Total(Histogram(s)) == |s|
  {
    if s == [] {
      TotalOfZeros(Histogram(s));
    } else {
      var p, x := s[..|s| - 1], s[|s| - 1];
      assert s == p + [x];
      HistogramTotal(p);
      HistogramSnoc(p, x);
      TotalUpdate(Histogram(p), x, Histogram(p)[x] + 1);
    }
  }

  /** Strictly ascending character values (hence no repetition). */
  ghost predicate StrictlyAscending(s: seq<Char>)
  {
    forall i, j :: 0 <= i < j < |s| ==> s[i] < s[j]
  }

  /** Frequencies along `s` never increase. */
  ghost predicate NonIncreasing(s: seq<Char>, freq: seq<int>)
    requires InRange(s, |freq|)
  {
    forall i, j :: 0 <= i < j < |s| ==> freq[s[i]] >= freq[s[j]]
  }

  /**
   * The subsequence of `s` made of the characters whose frequency is `f`.
   * A sort is stable exactly when it leaves each of these subsequences alone.
   */
  ghost function WithFrequency(s: seq<Char>, freq: seq<int>, f: int): seq<Char>
    requires InRange(s, |freq|)
  {
    if s == [] then []
    else (if freq[s[0]] == f then [s[0]] else []) + WithFrequency(s[1..], freq, f)
  }

  /** `s` and `t` have the same subsequence of characters of each frequency. */
  ghost predicate SameFrequencyClasses(s: seq<Char>, t: seq<Char>, freq: seq<int>)
    requires InRange(s, |freq|) && InRange(t, |freq|)
  {
    forall f :: WithFrequency(s, freq, f) == WithFrequency(t, freq, f)
  }

  lemma {:induction false} WithFrequencyMembers(s: seq<Char>, freq: seq<int>, f: int)
    requires InRange(s, |freq|)
    ensures forall x :: x in WithFrequency(s, freq, f) <==> x in s && freq[x] == f
  {
    if s != [] {
      WithFrequencyMembers(s[1..], freq, f);
      assert s == [s[0]] + s[1..];
    }
  }

  lemma WithFrequencyCons(a: Char, r: seq<Char>, freq: seq<int>, f: int)
    requires a < |freq| && InRange(r, |freq|)
    ensures InRange([a] + r, |freq|)
    ensures WithFrequency([a] + r, freq, f) == (if freq[a] == f then [a] else []) + WithFrequency(r, freq, f)
  {
    assert ([a] + r)[1..] == r;
  }

  lemma {:induction false} WithFrequencyConcat(s: seq<Char>, t: seq<Char>, freq: seq<int>, f: int)
    requires InRange(s, |freq|) && InRange(t, |freq|)
    ensures InRange(s + t, |freq|)
    ensures WithFrequency(s + t, freq, f) == WithFrequency(s, freq, f) + WithFrequency(t, freq, f)
  {
    if s != [] {
      var head := if freq[s[0]] == f then [s[0]] else [];
      assert s + t == [s[0]] + (s[1..] + t);
      assert s == [s[0]] + s[1..];
      WithFrequencyConcat(s[1..], t, freq, f);
      WithFrequencyCons(s[0], s[1..] + t, freq, f);
      WithFrequencyCons(s[0], s[1..], freq, f);
      calc {
        WithFrequency(s + t, freq, f);
        head + WithFrequency(s[1..] + t, freq, f);
        head + (WithFrequency(s[1..], freq, f) + WithFrequency(t, freq, f));
        (head + WithFrequency(s[1..], freq, f)) + WithFrequency(t, freq, f);
        WithFrequency(s, freq, f) + WithFrequency(t, freq, f);
      }
    } else {
      assert s + t == t;
    }
  }

  /**
   * Swapping two neighbours of different frequency keeps every
   * same-frequency subsequence, so a sort built from such swaps is stable.
   */
  lemma SwapKeepsFrequencyClasses(s: seq<Char>, freq: seq<int>, j: nat)
    requires InRange(s, |freq|)
    requires j + 1 < |s| && freq[s[j]] != freq[s[j + 1]]
    ensures InRange(s[j := s[j + 1]][j + 1 := s[j]], |freq|)
    ensures multiset(s[j := s[j + 1]][j + 1 := s[j]]) == multiset(s)
    ensures SameFrequencyClasses(s[j := s[j + 1]][j + 1 := s[j]], s, freq)
  {
    var x, y := s[j], s[j + 1];
    var pre, post := s[..j], s[j + 2..];
    var t := s[j := y][j + 1 := x];
    assert s == pre + ([x] + ([y] + post));
    assert t == pre + ([y] + ([x] + post));
    forall f
      ensures WithFrequency(t, freq, f) == WithFrequency(s, freq, f)
    {
      SwapPair(x, y, post, freq, f);
      WithFrequencyConcat(pre, [x] + ([y] + post), freq, f);
      WithFrequencyConcat(pre, [y] + ([x] + post), freq, f);
    }
  }

  lemma SwapPair(x: Char, y: Char, post: seq<Char>, freq: seq<int>, f: int)
    requires x < |freq| && y < |freq| && InRange(post, |freq|) && freq[x] != freq[y]
    ensures InRange([x] + ([y] + post), |freq|) && InRange([y] + ([x] + post), |freq|)
    ensures WithFrequency([x] + ([y] + post), freq, f) == WithFrequency([y] + ([x] + post), freq, f)
  {
    WithFrequencyCons(y, post, freq, f);
    WithFrequencyCons(x, post, freq, f);
    WithFrequencyCons(x, [y] + post, freq, f);
    WithFrequencyCons(y, [x] + post, freq, f);
  }

  lemma {:induction false} WithFrequencyAscending(s: seq<Char>, freq: seq<int>, f: int)
    requires InRange(s, |freq|) && StrictlyAscending(s)
    ensures StrictlyAscending(WithFrequency(s, freq, f))
  {
    if s != [] {
      WithFrequencyAscending(s[1..], freq, f);
      WithFrequencyMembers(s[1..], freq, f);
      var rest := WithFrequency(s[1..], freq, f);
      forall k | 0 <= k < |rest|
        ensures s[0] < rest[k]
      {
        assert rest[k] in s[1..];
      }
    }
  }

  /**
   * If the characters of frequency `f` appear in ascending order in the
   * same-frequency subsequence, any two of them appear in ascending order in `t`.
   */
  lemma {:induction false} TiesAscending(t: seq<Char>, freq: seq<int>, f: int)
    requires InRange(t, |freq|) && StrictlyAscending(WithFrequency(t, freq, f))
    ensures forall i, j :: 0 <= i < j < |t| && freq[t[i]] == f && freq[t[j]] == f ==> t[i] < t[j]
  {
    if t != [] {
      var rest := WithFrequency(t[1..], freq, f);
      assert t == [t[0]] + t[1..];
      WithFrequencyCons(t[0], t[1..], freq, f);
      WithFrequencyTailAscending(t, freq, f);
      TiesAscending(t[1..], freq, f);
      if freq[t[0]] == f {
        HeadBeforeTies(t, freq, f);
      }
      forall i, j | 0 < i < j < |t| && freq[t[i]] == f && freq[t[j]] == f
        ensures t[i] < t[j]
      {
        assert t[i] == t[1..][i - 1] && t[j] == t[1..][j - 1];
      }
    }
  }

  /** Dropping the head of `t` keeps its same-frequency subsequence ascending. */
  lemma WithFrequencyTailAscending(t: seq<Char>, freq: seq<int>, f: int)
    requires InRange(t, |freq|) && t != [] && StrictlyAscending(WithFrequency(t, freq, f))
    ensures StrictlyAscending(WithFrequency(t[1..], freq, f))
  {
    var w, rest := WithFrequency(t, freq, f), WithFrequency(t[1..], freq, f);
    assert rest == w || rest == w[1..];
  }

  lemma HeadBeforeTies(t: seq<Char>, freq: seq<int>, f: int)
    requires InRange(t, |freq|) && t != [] && freq[t[0]] == f
    requires StrictlyAscending(WithFrequency(t, freq, f))
    ensures forall j :: 0 < j < |t| && freq[t[j]] == f ==> t[0] < t[j]
  {
    var rest := WithFrequency(t[1..], freq, f);
    assert t == [t[0]] + t[1..];
    WithFrequencyCons(t[0], t[1..], freq, f);
    WithFrequencyMembers(t[1..], freq, f);
    assert WithFrequency(t, freq, f) == [t[0]] + rest;
    forall j | 0 < j < |t| && freq[t[j]] == f
      ensures t[0] < t[j]
    {
      assert t[j] == t[1..][j - 1];
      assert t[j] in rest;
      var m :| 0 <= m < |rest| && rest[m] == t[j];
      var w := WithFrequency(t, freq, f);
      assert w[0] == t[0] && w[m + 1] == t[j];
      assert w[0] < w[m + 1];
    }
  }

  /**
   * A sort that keeps every same-frequency subsequence of a strictly ascending
   * list leaves characters of equal frequency in ascending order.
   */
  lemma StableSortTiesAscending(s: seq<Char>, t: seq<Char>, freq: seq<int>)
    requires InRange(s, |freq|) && InRange(t, |freq|) && StrictlyAscending(s)
    requires SameFrequencyClasses(t, s, freq)
    ensures forall i, j :: 0 <= i < j < |t| && freq[t[i]] == freq[t[j]] ==> t[i] < t[j]
  {
    forall i, j | 0 <= i < j < |t| && freq[t[i]] == freq[t[j]]
      ensures t[i] < t[j]
    {
      var f := freq[t[i]];
      WithFrequencyAscending(s, freq, f);
      TiesAscending(t, freq, f);
    }
  }

  /** From position `p` on, frequencies along `s` never increase. */
  ghost predicate SortedFrom(s: seq<Char>, p: int, freq: seq<int>)
    requires InRange(s, |freq|)
  {
    forall k, l :: 0 <= p <= k < l < |s| ==> freq[s[k]] >= freq[s[l]]
  }

  /** No character before position `p` is less frequent than one from `p` on. */
  ghost predicate SplitAt(s: seq<Char>, p: int, freq: seq<int>)
    requires InRange(s, |freq|)
  {
    forall k, l :: 0 <= k < p <= l < |s| ==> freq[s[k]] >= freq[s[l]]
  }

  /**
   * State of a bubble pass over `orig[..last + 1]` after `j` steps: a
   * permutation of `orig` with the same frequency classes, untouched after
   * `last`, and with a least frequent character of `s[..j + 1]` at `j`.
   */
  ghost predicate PassInvariant(s: seq<Char>, orig: seq<Char>, j: int, last: int, freq: seq<int>)
  {
    && 0 <= j <= last < |s| == |orig|
    && InRange(s, |freq|) && InRange(orig, |freq|)
    && multiset(s) == multiset(orig)
    && s[last + 1..] == orig[last + 1..]
    && SameFrequencyClasses(s, orig, freq)
    && forall k :: 0 <= k < j ==> freq[s[k]] >= freq[s[j]]
  }

  /** One comparison step of a bubble pass keeps its invariant. */
  lemma PassStep(s: seq<Char>, t: seq<Char>, orig: seq<Char>, j: int, last: int, freq: seq<int>)
    requires PassInvariant(s, orig, j, last, freq) && j < last
    requires if freq[s[j]] < freq[s[j + 1]] then t == s[j := s[j + 1]][j + 1 := s[j]] else t == s
    ensures PassInvariant(t, orig, j + 1, last, freq)
  {
    if freq[s[j]] < freq[s[j + 1]] {
      SwapKeepsFrequencyClasses(s, freq, j);
    }
  }

  /** Two permutations of each other that agree from `p` on are permutations up to `p`. */
  lemma PrefixMultiset(a: seq<Char>, b: seq<Char>, p: nat)
    requires p <= |a| == |b| && multiset(a) == multiset(b) && a[p..] == b[p..]
    ensures multiset(a[..p]) == multiset(b[..p])
  {
    assert a == a[..p] + a[p..];
    assert b == b[..p] + b[p..];
    assert multiset(a[..p]) == multiset(a) - multiset(a[p..]);
    assert multiset(b[..p]) == multiset(b) - multiset(b[p..]);
  }

  /**
   * One bubble pass over `before[..p]` that ends with a least frequent
   * character of that prefix at `p - 1` grows the sorted suffix by one place.
   */
  lemma PassGrowsSortedSuffix(before: seq<Char>, after: seq<Char>, p: nat, freq: seq<int>)
    requires InRange(before, |freq|) && InRange(after, |freq|)
    requires 1 <= p <= |before| == |after|
    requires multiset(after) == multiset(before) && after[p..] == before[p..]
    requires SortedFrom(before, p, freq) && SplitAt(before, p, freq)
    requires forall k :: 0 <= k < p ==> freq[after[k]] >= freq[after[p - 1]]
    ensures SortedFrom(after, p - 1, freq) && SplitAt(after, p - 1, freq)
  {
    PrefixMultiset(after, before, p);
    forall k, l | 0 <= k < p <= l < |after|
      ensures freq[after[k]] >= freq[before[l]]
    {
      assert after[k] in multiset(after[..p]);
      var k' :| 0 <= k' < p && before[k'] == after[k];
      assert after[l] == before[l];
    }
  }

  /** `x` gets a smaller code than `y`: more frequent, or equally frequent and smaller. */
  ghost predicate Precedes(freq: seq<int>, x: Char, y: Char)
    requires x < |freq| && y < |freq|
  {
    freq[x] > freq[y] || (freq[x] == freq[y] && x < y)
  }

  ghost predicate Ranked(s: seq<Char>, freq: seq<int>)
    requires InRange(s, |freq|)
  {
    forall i, j :: 0 <= i < j < |s| ==> Precedes(freq, s[i], s[j])
  }

  /**
   * `order` is the list of characters in code order for the table `freq`:
   * exactly the characters of non-zero frequency, most frequent first, ties
   * broken by ascending character value.
   */
  ghost predicate IsCodeOrder(order: seq<Char>, freq: seq<int>)
  {
    && InRange(order, |freq|)
    && (forall c: Char :: c < |freq| ==> (c in order <==> freq[c] > 0))
    && Ranked(order, freq)
  }

  /**
   * The ascending list of used characters, after a stable sort into
   * non-increasing frequency, is the code order.
   */
  lemma SortedUniqueIsCodeOrder(s: seq<Char>, t: seq<Char>, freq: seq<int>)
    requires InRange(s, |freq|) && InRange(t, |freq|)
    requires StrictlyAscending(s)
    requires forall c: Char :: c < |freq| ==> (c in s <==> freq[c] > 0)
    requires multiset(t) == multiset(s)
    requires NonIncreasing(t, freq)
    requires SameFrequencyClasses(t, s, freq)
    ensures IsCodeOrder(t, freq)
  {
    StableSortTiesAscending(s, t, freq);
    forall c: Char | c < |freq|
      ensures c in t <==> freq[c] > 0
    {
      assert c in t <==> c in multiset(t);
      assert c in s <==> c in multiset(s);
    }
  }

  /** Two lists with the same members are both empty or both non-empty. */
  lemma SameMembersEmpty(s: seq<Char>, t: seq<Char>)
    requires forall x :: x in s <==> x in t
    ensures s == [] <==> t == []
  {
    if s != [] {
      assert s[0] in t;
    }
    if t != [] {
      assert t[0] in s;
    }
  }

  /** In a ranked list, the head precedes every other member. */
  lemma RankedHead(s: seq<Char>, freq: seq<int>, x: Char)
    requires InRange(s, |freq|) && Ranked(s, freq) && x in s
    ensures x == s[0] || Precedes(freq, s[0], x)
  {
    var k :| 0 <= k < |s| && s[k] == x;
    if k > 0 {
      assert Precedes(freq, s[0], s[k]);
    }
  }

  lemma {:induction false} RankedSameElementsEqual(s: seq<Char>, t: seq<Char>, freq: seq<int>)
    requires InRange(s, |freq|) && InRange(t, |freq|)
    requires Ranked(s, freq) && Ranked(t, freq)
    requires forall x :: x in s <==> x in t
    ensures s == t
  {
    SameMembersEmpty(s, t);
    if s != [] {
      // each head precedes the other unless they are equal, and precedence is strict
      assert s[0] in t && t[0] in s;
      RankedHead(s, freq, t[0]);
      RankedHead(t, freq, s[0]);
      assert s[0] == t[0];
      forall x
        ensures x in s[1..] <==> x in t[1..]
      {
        if x in s[1..] {
          var k :| 1 <= k < |s| && s[k] == x;
          assert Precedes(freq, s[0], s[k]);
          assert x in t;
        }
        if x in t[1..] {
          var k :| 1 <= k < |t| && t[k] == x;
          assert Precedes(freq, t[0], t[k]);
          assert x in s;
        }
      }
      RankedSameElementsEqual(s[1..], t[1..], freq);
      assert s == [s[0]] + s[1..] && t == [t[0]] + t[1..];
    }
  }

  /** The code order of a table is unique, so the header is determined by the input. */
  lemma CodeOrderUnique(o1: seq<Char>, o2: seq<Char>, freq: seq<int>)
    requires IsCodeOrder(o1, freq) && IsCodeOrder(o2, freq)
    ensures o1 == o2
  {
    forall x
      ensures x in o1 <==> x in o2
    {
      if x in o1 {
        var k :| 0 <= k < |o1| && o1[k] == x;
      }
      if x in o2 {
        var k :| 0 <= k < |o2| && o2[k] == x;
      }
    }
    RankedSameElementsEqual(o1, o2, freq);
  }

  /**
   * `m` is what filling a map with `m[s[i]] := i` for i = 0, 1, ... leaves:
   * every character of `s` is a key, mapped to the index of its last occurrence.
   */
  ghost predicate LastIndexMap(s: seq<Char>, m: map<Char, int>)
  {
    && (forall c :: c in m <==> c in s)
    && (forall c :: c in m ==> 0 <= m[c] < |s| && s[m[c]] == c)
    && (forall c, q :: c in m && m[c] < q < |s| ==> s[q] != c)
  }

  /**
   * Over the code order, the map from characters to their last index is the
   * rank: codes 0 .. n-1 are used once each, the keys are exactly the used
   * characters, and a more frequent character never gets a larger code.
   */
  lemma CodesAreRanks(order: seq<Char>, freq: seq<int>, m: map<Char, int>)
    requires IsCodeOrder(order, freq) && LastIndexMap(order, m)
    ensures forall k :: 0 <= k < |order| ==> order[k] in m && m[order[k]] == k
    ensures forall c: Char :: c in m <==> c < |freq| && freq[c] > 0
    ensures forall c, d :: c in m && d in m && c != d ==> m[c] != m[d]
    ensures forall c :: c in m ==> 0 <= m[c] < |order|
    ensures forall c, d :: c in m && d in m && freq[c] > freq[d] ==> m[c] < m[d]
  {
  }

  /** One record per call into the output stream. */
  datatype OutputCall =
    | Write(value: int, width: nat)  // write the low `width` bits of `value`
    | WriteInt(value: int)           // write an int with the stream's default width
    | Close                          // flush and close the stream

  /** Width, in bits, of each header field written with an explicit width. */
  const FieldWidth := 8

  /** One 8-bit record per character, in list order. */
  function CharRecords(order: seq<Char>): seq<OutputCall>
  {
    seq(|order|, k requires 0 <= k < |order| => Write(order[k], FieldWidth))
  }

  /**
   * The header that compress writes: the number of characters, the characters
   * in code order, the code width, and the input length.
   */
  function HeaderLayout(order: seq<Char>, bits: int, length: int): seq<OutputCall>
  {
    [Write(|order|, FieldWidth)] + CharRecords(order) + [Write(bits, FieldWidth), WriteInt(length)]
  }

  /** Field positions of the header: `|order| + 3` writes, character data in none of them. */
  lemma HeaderFields(order: seq<Char>, bits: int, length: int)
    ensures |HeaderLayout(order, bits, length)| == |order| + 3
    ensures HeaderLayout(order, bits, length)[0] == Write(|order|, FieldWidth)
    ensures forall k :: 0 <= k < |order| ==> HeaderLayout(order, bits, length)[k + 1] == Write(order[k], FieldWidth)
    ensures HeaderLayout(order, bits, length)[|order| + 1] == Write(bits, FieldWidth)
    ensures HeaderLayout(order, bits, length)[|order| + 2] == WriteInt(length)
  {
  }
}
