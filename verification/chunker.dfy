/** The chunker in front of the synthesis engine (`split_text` in main.py):
    split on whitespace as `str.split()` does, then emit groups of at most
    `maxWords` consecutive words joined by single spaces. */
module Chunker {
  import opened Seqs
  import opened Results

  function Min(a: int, b: int): int {
    if a <= b then a else b
  }

  /** A word of `str.split()`: non-empty and free of whitespace. */
  predicate IsWord(w: string, isSpace: char -> bool) {
    |w| > 0 && forall i :: 0 <= i < |w| ==> !isSpace(w[i])
  }

  /** Length of the longest whitespace-free prefix of `s`. */
  function WordLength(s: string, isSpace: char -> bool): (n: nat)
    ensures n <= |s|
    ensures forall i :: 0 <= i < n ==> !isSpace(s[i])
    ensures n < |s| ==> isSpace(s[n])
  {
    if |s| == 0 || isSpace(s[0]) then 0 else 1 + WordLength(s[1..], isSpace)
  }

  /** `s.split()`: the maximal whitespace-free runs of `s`, in order. */
  function Words(s: string, isSpace: char -> bool): (ws: seq<string>)
    ensures forall k :: 0 <= k < |ws| ==> IsWord(ws[k], isSpace)
    decreases |s|
  {
    if |s| == 0 then []
    else if isSpace(s[0]) then Words(s[1..], isSpace)
    else
      var n := WordLength(s, isSpace);
      [s[..n]] + Words(s[n..], isSpace)
  }

  /** `' '.join(ws)`. */
  function Join(ws: seq<string>): string {
    if |ws| == 0 then "" else if |ws| == 1 then ws[0] else ws[0] + " " + Join(ws[1..])
  }

  /** The non-whitespace characters of `s`, in order. */
  function NonSpace(s: string, isSpace: char -> bool): string {
    if |s| == 0 then [] else (if isSpace(s[0]) then [] else [s[0]]) + NonSpace(s[1..], isSpace)
  }

  /** Consecutive groups of at most `m` elements. */
  function Chunks<T>(xs: seq<T>, m: nat): (cs: seq<seq<T>>)
    requires m >= 1
    ensures |cs| == 0 <==> |xs| == 0
    ensures forall i :: 0 <= i < |cs| - 1 ==> |cs[i]| == m
    ensures forall i :: 0 <= i < |cs| ==> 1 <= |cs[i]| <= m
    decreases |xs|
  {
    if |xs| == 0 then []
    else
      var n := Min(m, |xs|);
      [xs[..n]] + Chunks(xs[n..], m)
  }

  /** No loss, duplication or reordering: the groups concatenate back to
      the input. */
  lemma {:induction false} ChunksFlatten<T>(xs: seq<T>, m: nat)
    requires m >= 1
    ensures Flatten(Chunks(xs, m)) == xs
    decreases |xs|
  {
    if |xs| > 0 {
      var n := Min(m, |xs|);
      ChunksFlatten(xs[n..], m);
      assert ([xs[..n]] + Chunks(xs[n..], m))[1..] == Chunks(xs[n..], m);
      assert xs[..n] + xs[n..] == xs;
    }
  }

  /** `split_text(text, maxWords)` for a positive word limit, its generator
      read out in full. */
  function SplitText(text: string, maxWords: nat, isSpace: char -> bool): seq<string>
    requires maxWords >= 1
  {
    var groups := Chunks(Words(text, isSpace), maxWords);
    seq(|groups|, i requires 0 <= i < |groups| => Join(groups[i]))
  }

  /** `range(start, stop, step)` for a positive step: `start`,
      `start + step`, ... while below `stop`. */
  function RangeUp(start: int, stop: int, step: nat): (r: seq<int>)
    requires step >= 1
    ensures |r| == 0 <==> start >= stop
    ensures |r| > 0 ==> r[0] == start && stop <= r[|r| - 1] + step
    ensures forall k :: 0 <= k < |r| ==> start <= r[k] < stop
    decreases stop - start
  {
    if start >= stop then [] else [start] + RangeUp(start + step, stop, step)
  }

  /** `range(start, stop, step)` for a negative step: `start`,
      `start + step`, ... while above `stop`. */
  function RangeDown(start: int, stop: int, step: int): (r: seq<int>)
    requires step <= -1
    ensures |r| == 0 <==> start <= stop
    ensures |r| > 0 ==> r[0] == start && r[|r| - 1] + step <= stop
    ensures forall k :: 0 <= k < |r| ==> stop < r[k] <= start
    decreases start - stop
  {
    if start <= stop then [] else [start] + RangeDown(start + step, stop, step)
  }

  /** Python's `range(start, stop, step)`: a zero step raises `ValueError`. */
  function PyRange(start: int, stop: int, step: int): (r: Result<seq<int>>)
    ensures r.Failure? <==> step == 0
    ensures r.Success? ==> forall k :: 0 <= k < |r.value| ==>
      (step > 0 ==> start <= r.value[k] < stop) && (step < 0 ==> stop < r.value[k] <= start)
  {
    if step == 0 then Failure(ValueError("range() arg 3 must not be zero"))
    else if step > 0 then Success(RangeUp(start, stop, step))
    else Success(RangeDown(start, stop, step))
  }

  /** A Python slice bound normalised against length `n`: a negative bound
      counts from the end, and the result is clipped to `0..n`. */
  function PyBound(i: int, n: nat): (r: nat)
    ensures r <= n
  {
    if i < 0 then (if i + n < 0 then 0 else i + n) else if i > n then n else i
  }

  /** Python's `xs[i:j]`: both bounds normalised, empty when the end does not
      lie past the start. */
  function PySlice<T>(xs: seq<T>, i: int, j: int): seq<T> {
    var a := PyBound(i, |xs|);
    var b := PyBound(j, |xs|);
    if b <= a then [] else xs[a..b]
  }

  /** With non-negative bounds, `xs[i:j]` takes the elements from `i` up to
      `j` clipped to the length, and nothing when that end is not past `i`.
      The bounds `split_text` passes are of this kind; the negative-bound
      branches of `PyBound` are never reached from it. */
  lemma PySliceNonNegative<T>(xs: seq<T>, i: int, j: int)
    requires 0 <= i && 0 <= j
    ensures PySlice(xs, i, j) == (if Min(j, |xs|) <= i then [] else xs[i..Min(j, |xs|)])
  {
  }

  /** `split_text(text, maxWords)` for any integer limit, read straight off
      the source: `' '.join(words[i:i + max_words])` for `i` in
      `range(0, len(words), max_words)`. */
  function SplitTextPy(text: string, maxWords: int, isSpace: char -> bool): (r: Result<seq<string>>)
    ensures r.Failure? <==> maxWords == 0
  {
    var words := Words(text, isSpace);
    match PyRange(0, |words|, maxWords)
    case Failure(e) => Failure(e)
    case Success(starts) => Success(MapSlices(words, starts, maxWords, Join))
  }

  /** `f(xs[i:i + width])` for each `i` of `starts`, in order. */
  function MapSlices<T, U>(xs: seq<T>, starts: seq<int>, width: int, f: seq<T> -> U): seq<U> {
    seq(|starts|, k requires 0 <= k < |starts| => f(PySlice(xs, starts[k], starts[k] + width)))
  }

  /** The `k`-th value of `range(start, stop, step)` for a positive step is
      `start + k * step`. */
  lemma {:induction false} RangeUpAt(start: int, stop: int, step: nat, k: nat)
    requires step >= 1
    requires k < |RangeUp(start, stop, step)|
    ensures RangeUp(start, stop, step)[k] == start + Offset(k, step)
    decreases k
  {
    if k > 0 {
      var tail := RangeUp(start + step, stop, step);
      assert RangeUp(start, stop, step) == [start] + tail;
      RangeUpAt(start + step, stop, step, k - 1);
      OffsetFromFront(k - 1, step);
    }
  }

  /** The `k`-th value of `range(start, stop, step)` for a negative step is
      `start - k * |step|`. */
  lemma {:induction false} RangeDownAt(start: int, stop: int, step: int, k: nat)
    requires step <= -1
    requires k < |RangeDown(start, stop, step)|
    ensures RangeDown(start, stop, step)[k] == start - Offset(k, -step)
    decreases k
  {
    if k > 0 {
      var tail := RangeDown(start + step, stop, step);
      assert RangeDown(start, stop, step) == [start] + tail;
      RangeDownAt(start + step, stop, step, k - 1);
      OffsetFromFront(k - 1, -step);
    }
  }

  /** `range(a, a + |xs|, m)` has one start per group of `xs`. */
  lemma {:induction false} RangeUpOfChunks<T>(xs: seq<T>, m: nat, a: int)
    requires m >= 1
    ensures |RangeUp(a, a + |xs|, m)| == |Chunks(xs, m)|
    decreases |xs|
  {
    if |xs| > 0 {
      var n := Min(m, |xs|);
      assert Chunks(xs, m) == [xs[..n]] + Chunks(xs[n..], m);
      assert RangeUp(a, a + |xs|, m) == [a] + RangeUp(a + m, a + |xs|, m);
      if m >= |xs| {
        assert |xs[n..]| == 0;
      } else {
        RangeUpOfChunks(xs[m..], m, a + m);
        assert a + m + |xs[m..]| == a + |xs|;
      }
    }
  }

  /** The `k`-th slice `split_text` takes for a positive limit,
      `words[k * maxWords:(k + 1) * maxWords]`, is the `k`-th group. */
  lemma SliceAtOffset<T>(xs: seq<T>, m: nat, k: nat, start: int)
    requires m >= 1
    requires k < |Chunks(xs, m)|
    requires start == Offset(k, m)
    ensures start >= 0
    ensures PySlice(xs, start, start + m) == Chunks(xs, m)[k]
  {
    ChunkAt(xs, m, k);
    assert PyBound(start, |xs|) == start;
    assert PyBound(start + m, |xs|) == Min(start + m, |xs|);
  }

  /** A negative limit makes `range` empty, so nothing is yielded. */
  lemma SplitTextPyNegative(text: string, maxWords: int, isSpace: char -> bool)
    requires maxWords < 0
    ensures SplitTextPy(text, maxWords, isSpace) == Success([])
  {
    var words := Words(text, isSpace);
    assert PyRange(0, |words|, maxWords) == Success(RangeDown(0, |words|, maxWords));
    assert |RangeDown(0, |words|, maxWords)| == 0;
    assert |SplitTextPy(text, maxWords, isSpace).value| == 0;
  }

  /** The `k`-th slice at the starts of `range(0, |xs|, m)` is the `k`-th
      group of `xs`. */
  lemma MapSliceAt<T, U>(xs: seq<T>, m: nat, k: nat, f: seq<T> -> U)
    requires m >= 1
    requires k < |Chunks(xs, m)|
    ensures k < |RangeUp(0, |xs|, m)|
    ensures MapSlices(xs, RangeUp(0, |xs|, m), m, f)[k] == f(Chunks(xs, m)[k])
  {
    var starts := RangeUp(0, |xs|, m);
    RangeUpChunkStart(xs, m, k);
    MapSlicesAt(xs, starts, m, k, f);
    SliceAtOffset(xs, m, k, starts[k]);
  }

  /** Group `k` of `xs` has a start in `range(0, |xs|, m)`: `k * m`. */
  lemma RangeUpChunkStart<T>(xs: seq<T>, m: nat, k: nat)
    requires m >= 1
    requires k < |Chunks(xs, m)|
    ensures k < |RangeUp(0, |xs|, m)|
    ensures RangeUp(0, |xs|, m)[k] == Offset(k, m)
  {
    RangeUpOfChunks(xs, m, 0);
    RangeUpAt(0, |xs|, m, k);
  }

  lemma MapSlicesAt<T, U>(xs: seq<T>, starts: seq<int>, width: int, k: nat, f: seq<T> -> U)
    requires k < |starts|
    ensures MapSlices(xs, starts, width, f)[k] == f(PySlice(xs, starts[k], starts[k] + width))
  {
  }

  /** Mapping over the slices at the starts of `range(0, |xs|, m)` maps
      over the groups of `xs`, one by one. */
  lemma MapSlicesOfRange<T, U>(xs: seq<T>, m: nat, f: seq<T> -> U)
    requires m >= 1
    ensures |MapSlices(xs, RangeUp(0, |xs|, m), m, f)| == |Chunks(xs, m)|
    ensures forall k :: 0 <= k < |Chunks(xs, m)| ==>
      MapSlices(xs, RangeUp(0, |xs|, m), m, f)[k] == f(Chunks(xs, m)[k])
  {
    RangeUpOfChunks(xs, m, 0);
    forall k | 0 <= k < |Chunks(xs, m)|
      ensures MapSlices(xs, RangeUp(0, |xs|, m), m, f)[k] == f(Chunks(xs, m)[k])
    {
      MapSliceAt(xs, m, k, f);
    }
  }

  /** A positive limit yields the joined groups, one per `range` start. */
  lemma SplitTextPyPositive(text: string, maxWords: int, isSpace: char -> bool)
    requires maxWords > 0
    ensures SplitTextPy(text, maxWords, isSpace) == Success(SplitText(text, maxWords, isSpace))
  {
    var words := Words(text, isSpace);
    var m: nat := maxWords;
    var starts := RangeUp(0, |words|, m);
    assert PyRange(0, |words|, maxWords) == Success(starts);
    var got := MapSlices(words, starts, m, Join);
    assert SplitTextPy(text, maxWords, isSpace) == Success(got);
    MapSlicesOfRange(words, m, Join);
    var want := SplitText(text, maxWords, isSpace);
    assert got == want;
  }

  /** What `split_text` does for each integer limit: a zero limit raises
      `ValueError` from `range`, a negative one yields nothing, and a
      positive one yields the joined groups of `SplitText`. */
  lemma SplitTextPyCases(text: string, maxWords: int, isSpace: char -> bool)
    ensures maxWords == 0 ==> SplitTextPy(text, maxWords, isSpace) == Failure(ValueError("range() arg 3 must not be zero"))
    ensures maxWords < 0 ==> SplitTextPy(text, maxWords, isSpace) == Success([])
    ensures maxWords > 0 ==> SplitTextPy(text, maxWords, isSpace) == Success(SplitText(text, maxWords, isSpace))
  {
    if maxWords < 0 {
      SplitTextPyNegative(text, maxWords, isSpace);
    } else if maxWords > 0 {
      SplitTextPyPositive(text, maxWords, isSpace);
    }
  }

  /** The loop of `split_text`: `' '.join(words[i:i + maxWords])` for `i`
      in `range(0, len(words), maxWords)`. */
  method SplitTextLoop(text: string, maxWords: nat, isSpace: char -> bool) returns (chunks: seq<string>)
    requires maxWords >= 1
    ensures chunks == SplitText(text, maxWords, isSpace)
  {
    var words := Words(text, isSpace);
    chunks := GroupLoop(words, maxWords, Join);
  }

  /** The stepped loop over a list: `f(xs[i:i + m])` for `i` in
      `range(0, len(xs), m)`, collected in order. It applies `f` to each
      group of `xs`, one result per group. */
  method GroupLoop<T, U>(xs: seq<T>, m: nat, f: seq<T> -> U) returns (out: seq<U>)
    requires m >= 1
    ensures |out| == |Chunks(xs, m)|
    ensures forall k :: 0 <= k < |out| ==> out[k] == f(Chunks(xs, m)[k])
  {
    ghost var groups := Chunks(xs, m);
    out := [];
    var i := 0;
    while i < |xs|
      invariant i == Offset(|out|, m)
      invariant |out| <= |groups|
      invariant |out| < |groups| <==> i < |xs|
      invariant forall k :: 0 <= k < |out| ==> out[k] == f(groups[k])
    {
      LoopStep(xs, m, |out|, i);
      out := out + [f(xs[i..Min(i + m, |xs|)])];
      i := i + m;
    }
  }

  /** One turn of the `split_text` loop: at offset `c * m` it slices the
      `c`-th group, and the next offset is in range exactly when another
      group follows. */
  lemma LoopStep<T>(xs: seq<T>, m: nat, c: nat, i: nat)
    requires m >= 1
    requires c < |Chunks(xs, m)|
    requires i == Offset(c, m)
    ensures i < |xs|
    ensures xs[i..Min(i + m, |xs|)] == Chunks(xs, m)[c]
    ensures i + m == Offset(c + 1, m)
    ensures c + 1 < |Chunks(xs, m)| <==> i + m < |xs|
  {
    ChunkAt(xs, m, c);
    if c + 1 < |Chunks(xs, m)| {
      ChunkAt(xs, m, c + 1);
    } else {
      ChunkCount(xs, m);
    }
  }

  /** Chunk count: `(c - 1) * m < |xs| <= c * m` for `c` groups, that is,
      `c` is `|xs| / m` rounded up (offsets as repeated addition). */
  lemma {:induction false} ChunkCount<T>(xs: seq<T>, m: nat)
    requires m >= 1
    ensures |Chunks(xs, m)| > 0 ==> Offset(|Chunks(xs, m)| - 1, m) < |xs| <= Offset(|Chunks(xs, m)|, m)
    decreases |xs|
  {
    if |xs| > 0 {
      var n := Min(m, |xs|);
      ChunkCount(xs[n..], m);
      assert |Chunks(xs, m)| == |Chunks(xs[n..], m)| + 1;
      OffsetFromFront(|Chunks(xs[n..], m)|, m);
    }
  }

  /** `Offset`'s defining equation with the addends swapped, named so that the
      induction proofs above can cite it as one step. */
  lemma {:induction false} OffsetFromFront(k: nat, m: nat)
    ensures Offset(k + 1, m) == m + Offset(k, m)
    ensures k > 0 ==> Offset(k, m) == m + Offset(k - 1, m)
  {
  }

  /** `i * m`, written as repeated addition so that the proofs about group
      offsets stay linear. */
  function Offset(i: nat, m: nat): nat {
    if i == 0 then 0 else Offset(i - 1, m) + m
  }

  lemma {:induction false} OffsetIsProduct(i: nat, m: nat)
    ensures Offset(i, m) == i * m
  {
    if i > 0 {
      OffsetIsProduct(i - 1, m);
      MulSucc(i - 1, m);
    }
  }

  /** The `i`-th group is the slice starting at word `i * m`, as the `range`
      loop of the source takes it. */
  lemma {:induction false} ChunkAt<T>(xs: seq<T>, m: nat, i: nat)
    requires m >= 1
    requires i < |Chunks(xs, m)|
    ensures Offset(i, m) < |xs|
    ensures Chunks(xs, m)[i] == xs[Offset(i, m) .. Min(Offset(i, m) + m, |xs|)]
    decreases i
  {
    if i > 0 {
      ChunksTail(xs, m, i);
      var ys := xs[m..];
      ChunkAt(ys, m, i - 1);
      var p := Offset(i - 1, m);
      var q := Min(p + m, |ys|);
      assert Offset(i, m) == m + p;
      assert Min(Offset(i, m) + m, |xs|) == m + q;
      SliceOfSuffix(xs, m, p, q);
    } else {
      var n := Min(m, |xs|);
      assert Chunks(xs, m) == [xs[..n]] + Chunks(xs[n..], m);
    }
  }

  /** Past the first group, the groups of `xs` are those of `xs[m..]`. */
  lemma ChunksTail<T>(xs: seq<T>, m: nat, i: nat)
    requires m >= 1
    requires 0 < i < |Chunks(xs, m)|
    ensures m < |xs|
    ensures i - 1 < |Chunks(xs[m..], m)|
    ensures Chunks(xs, m)[i] == Chunks(xs[m..], m)[i - 1]
  {
    var n := Min(m, |xs|);
    assert Chunks(xs, m) == [xs[..n]] + Chunks(xs[n..], m);
    assert |Chunks(xs[n..], m)| > 0;
  }

  /** A whitespace-free prefix followed by whitespace (or nothing) is split
      off as the first word. */
  lemma WordsOfWordThen(w: string, rest: string, isSpace: char -> bool)
    requires IsWord(w, isSpace)
    requires |rest| == 0 || isSpace(rest[0])
    ensures Words(w + rest, isSpace) == [w] + Words(rest, isSpace)
  {
    var s := w + rest;
    var n := WordLength(s, isSpace);
    assert forall i :: 0 <= i < |w| ==> s[i] == w[i];
    assert |rest| > 0 ==> s[|w|] == rest[0];
    assert n == |w|;
    assert s[..n] == w;
    assert s[n..] == rest;
  }

  /** Round trip: splitting a space-joined list of words gives the list back. */
  lemma {:induction false} WordsOfJoin(ws: seq<string>, isSpace: char -> bool)
    requires isSpace(' ')
    requires forall k :: 0 <= k < |ws| ==> IsWord(ws[k], isSpace)
    ensures Words(Join(ws), isSpace) == ws
  {
    if |ws| == 1 {
      WordsOfWordThen(ws[0], "", isSpace);
      assert ws[0] + "" == ws[0];
    } else if |ws| > 1 {
      var tail := Join(ws[1..]);
      WordsOfJoin(ws[1..], isSpace);
      assert ws[0] + " " + tail == ws[0] + (" " + tail);
      WordsOfWordThen(ws[0], " " + tail, isSpace);
      assert (" " + tail)[1..] == tail;
      assert [ws[0]] + ws[1..] == ws;
    }
  }

  /** Whitespace right after `a` ends the first word where `a` alone would
      end it. */
  lemma {:induction false} WordLengthBeforeSpace(a: string, t: string, isSpace: char -> bool)
    requires |t| > 0 && isSpace(t[0])
    ensures WordLength(a + t, isSpace) == WordLength(a, isSpace)
    decreases |a|
  {
    if |a| == 0 {
      assert a + t == t;
    } else if !isSpace(a[0]) {
      assert (a + t)[1..] == a[1..] + t;
      WordLengthBeforeSpace(a[1..], t, isSpace);
    }
  }

  /** Words end only at whitespace, and every whitespace character ends
      one: splitting at any whitespace character `c` splits the word list
      there. Together with `Words([]) == []` and `Words(w) == [w]` for a
      single word, this determines `str.split()`. */
  lemma {:induction false} WordsSplitAt(a: string, c: char, b: string, isSpace: char -> bool)
    requires isSpace(c)
    ensures Words(a + [c] + b, isSpace) == Words(a, isSpace) + Words(b, isSpace)
    decreases |a|
  {
    var s := a + [c] + b;
    if |a| == 0 {
      assert s == [c] + b;
      assert s[1..] == b;
    } else if isSpace(a[0]) {
      assert s[1..] == a[1..] + [c] + b;
      WordsSplitAt(a[1..], c, b, isSpace);
    } else {
      var n := WordLength(a, isSpace);
      assert s == a + ([c] + b);
      WordLengthBeforeSpace(a, [c] + b, isSpace);
      assert s[..n] == a[..n];
      assert s[n..] == a[n..] + [c] + b;
      WordsSplitAt(a[n..], c, b, isSpace);
      assert Words(a, isSpace) == [a[..n]] + Words(a[n..], isSpace);
    }
  }

  /** A single word splits to itself. */
  lemma WordsOfWord(w: string, isSpace: char -> bool)
    requires IsWord(w, isSpace)
    ensures Words(w, isSpace) == [w]
  {
    WordsOfWordThen(w, "", isSpace);
    assert w + "" == w;
  }

  /** `s.split()` is empty exactly when `s` is all whitespace. */
  lemma {:induction false} WordsEmptyIff(s: string, isSpace: char -> bool)
    ensures Words(s, isSpace) == [] <==> forall i :: 0 <= i < |s| ==> isSpace(s[i])
    decreases |s|
  {
    if |s| > 0 {
      if isSpace(s[0]) {
        WordsEmptyIff(s[1..], isSpace);
        if forall i :: 0 <= i < |s[1..]| ==> isSpace(s[1..][i]) {
          forall i | 0 <= i < |s|
            ensures isSpace(s[i])
          {
            if i > 0 {
              assert s[i] == s[1..][i - 1];
            }
          }
        }
      }
    }
  }

  /** When the first `n` characters are not whitespace they lead the
      non-whitespace text. */
  lemma {:induction false} NonSpacePrefix(s: string, n: nat, isSpace: char -> bool)
    requires n <= |s|
    requires forall i :: 0 <= i < n ==> !isSpace(s[i])
    ensures NonSpace(s, isSpace) == s[..n] + NonSpace(s[n..], isSpace)
  {
    if n > 0 {
      NonSpacePrefix(s[1..], n - 1, isSpace);
      assert s[1..][n - 1..] == s[n..];
      assert [s[0]] + s[1..][..n - 1] == s[..n];
    }
  }

  /** No loss, no duplication, no reordering: the words of `s.split()`,
      concatenated, are exactly the non-whitespace characters of `s`. */
  lemma {:induction false} WordsKeepNonSpace(s: string, isSpace: char -> bool)
    ensures Flatten(Words(s, isSpace)) == NonSpace(s, isSpace)
    decreases |s|
  {
    if |s| > 0 {
      if isSpace(s[0]) {
        WordsKeepNonSpace(s[1..], isSpace);
      } else {
        var n := WordLength(s, isSpace);
        WordsKeepNonSpace(s[n..], isSpace);
        NonSpacePrefix(s, n, isSpace);
        assert Words(s, isSpace) == [s[..n]] + Words(s[n..], isSpace);
        assert ([s[..n]] + Words(s[n..], isSpace))[1..] == Words(s[n..], isSpace);
      }
    }
  }

  /** The shape of a chunk: no leading or trailing whitespace, and every
      whitespace character is a single ASCII space between two
      non-whitespace characters. */
  predicate SingleSpaced(s: string, isSpace: char -> bool) {
    && |s| > 0
    && !isSpace(s[0])
    && !isSpace(s[|s| - 1])
    && forall j :: 0 <= j < |s| - 1 && isSpace(s[j]) ==> s[j] == ' ' && !isSpace(s[j + 1])
  }

  /** `' '.join` of at least one word is single-spaced. */
  lemma {:induction false} JoinSingleSpaced(ws: seq<string>, isSpace: char -> bool)
    requires |ws| >= 1
    requires forall k :: 0 <= k < |ws| ==> IsWord(ws[k], isSpace)
    ensures SingleSpaced(Join(ws), isSpace)
  {
    if |ws| > 1 {
      JoinSingleSpaced(ws[1..], isSpace);
      assert IsWord(ws[0], isSpace);
      SingleSpacedCons(ws[0], Join(ws[1..]), isSpace);
    }
  }

  /** A word, one space and a single-spaced string make a single-spaced
      string. */
  lemma SingleSpacedCons(w: string, tail: string, isSpace: char -> bool)
    requires IsWord(w, isSpace)
    requires SingleSpaced(tail, isSpace)
    ensures SingleSpaced(w + " " + tail, isSpace)
  {
    var s := w + " " + tail;
    assert forall j :: 0 <= j < |w| ==> s[j] == w[j];
    forall j | 0 <= j < |s| - 1 && isSpace(s[j])
      ensures s[j] == ' ' && !isSpace(s[j + 1])
    {
      if j == |w| {
        assert s[j + 1] == tail[0];
      } else if j > |w| {
        assert s[j] == tail[j - |w| - 1];
        assert s[j + 1] == tail[j - |w|];
      }
    }
    assert s[0] == w[0];
    assert s[|s| - 1] == tail[|tail| - 1];
  }

  /** The words of each chunk, as `chunk.split()` would give them. */
  function WordsOfEach(chunks: seq<string>, isSpace: char -> bool): seq<seq<string>> {
    seq(|chunks|, i requires 0 <= i < |chunks| => Words(chunks[i], isSpace))
  }

  /** Word preservation: splitting each chunk again gives the groups of
      consecutive words, and together they are exactly `text.split()`. */
  lemma SplitTextPreservesWords(text: string, maxWords: nat, isSpace: char -> bool)
    requires maxWords >= 1
    requires isSpace(' ')
    ensures WordsOfEach(SplitText(text, maxWords, isSpace), isSpace) == Chunks(Words(text, isSpace), maxWords)
    ensures Flatten(WordsOfEach(SplitText(text, maxWords, isSpace), isSpace)) == Words(text, isSpace)
  {
    var words := Words(text, isSpace);
    var groups := Chunks(words, maxWords);
    var chunks := SplitText(text, maxWords, isSpace);
    ChunksFlatten(words, maxWords);
    forall i | 0 <= i < |groups|
      ensures Words(chunks[i], isSpace) == groups[i]
    {
      assert chunks[i] == Join(groups[i]);
      GroupWords(words, maxWords, i, isSpace);
    }
  }

  /** Chunk `i` holds the words of the text from word `i * maxWords` on, as
      `words[i:i + max_words]` takes them. */
  lemma SplitTextChunkStarts(text: string, maxWords: nat, isSpace: char -> bool)
    requires maxWords >= 1
    requires isSpace(' ')
    ensures forall i :: 0 <= i < |SplitText(text, maxWords, isSpace)| ==>
      i * maxWords < |Words(text, isSpace)| &&
      Words(SplitText(text, maxWords, isSpace)[i], isSpace)
        == Words(text, isSpace)[i * maxWords .. Min(i * maxWords + maxWords, |Words(text, isSpace)|)]
  {
    forall i | 0 <= i < |SplitText(text, maxWords, isSpace)| {
      SplitTextChunkAt(text, maxWords, i, isSpace);
    }
  }

  /** One chunk of `SplitTextChunkStarts`. */
  lemma SplitTextChunkAt(text: string, maxWords: nat, i: nat, isSpace: char -> bool)
    requires maxWords >= 1
    requires isSpace(' ')
    requires i < |SplitText(text, maxWords, isSpace)|
    ensures i * maxWords < |Words(text, isSpace)|
    ensures Words(SplitText(text, maxWords, isSpace)[i], isSpace)
      == Words(text, isSpace)[i * maxWords .. Min(i * maxWords + maxWords, |Words(text, isSpace)|)]
  {
    var words := Words(text, isSpace);
    var group := Chunks(words, maxWords)[i];
    assert SplitText(text, maxWords, isSpace)[i] == Join(group);
    GroupWords(words, maxWords, i, isSpace);
    SliceAtProduct(words, maxWords, i, group);
  }

  /** A slice at `Offset(i, m)` is the slice at `i * m`. */
  lemma SliceAtProduct<T>(xs: seq<T>, m: nat, i: nat, ys: seq<T>)
    requires Offset(i, m) < |xs|
    requires ys == xs[Offset(i, m) .. Min(Offset(i, m) + m, |xs|)]
    ensures i * m < |xs|
    ensures ys == xs[i * m .. Min(i * m + m, |xs|)]
  {
    OffsetIsProduct(i, m);
  }

  /** The `i`-th group of a word list starts at word `Offset(i, m)`, and its join
      splits back to it. */
  lemma GroupWords(words: seq<string>, m: nat, i: nat, isSpace: char -> bool)
    requires m >= 1
    requires isSpace(' ')
    requires forall k :: 0 <= k < |words| ==> IsWord(words[k], isSpace)
    requires i < |Chunks(words, m)|
    ensures Words(Join(Chunks(words, m)[i]), isSpace) == Chunks(words, m)[i]
    ensures Offset(i, m) < |words|
    ensures Chunks(words, m)[i] == words[Offset(i, m) .. Min(Offset(i, m) + m, |words|)]
  {
    ChunkAt(words, m, i);
    GroupsAreWords(words, m, i, isSpace);
    WordsOfJoin(Chunks(words, m)[i], isSpace);
  }

  /** A group of words consists of words. */
  lemma GroupsAreWords(words: seq<string>, m: nat, i: nat, isSpace: char -> bool)
    requires m >= 1
    requires i < |Chunks(words, m)|
    requires forall k :: 0 <= k < |words| ==> IsWord(words[k], isSpace)
    ensures forall k :: 0 <= k < |Chunks(words, m)[i]| ==> IsWord(Chunks(words, m)[i][k], isSpace)
  {
    ChunkAt(words, m, i);
    var p := Offset(i, m);
    forall k | 0 <= k < |Chunks(words, m)[i]|
      ensures IsWord(Chunks(words, m)[i][k], isSpace)
    {
      assert Chunks(words, m)[i][k] == words[p + k];
    }
  }

  /** Chunk count in closed form: the `c` groups of at most `m` satisfy
      `(c - 1) * m < |xs| <= c * m`, so `c` is `ceil(|xs| / m)`. */
  lemma ChunkCountCeil<T>(xs: seq<T>, m: nat)
    requires m >= 1
    ensures |Chunks(xs, m)| == (|xs| + m - 1) / m
  {
    var c := |Chunks(xs, m)|;
    ChunkCount(xs, m);
    OffsetIsProduct(c, m);
    if c > 0 {
      OffsetIsProduct(c - 1, m);
    }
    CeilDivOfBounds(|xs|, c, m);
  }

  /** Chunk sizes: `ceil(n / maxWords)` chunks for the `n` words of the
      text, every chunk but the last has exactly `maxWords` words, the last
      between 1 and `maxWords`. */
  lemma SplitTextSizes(text: string, maxWords: nat, isSpace: char -> bool)
    requires maxWords >= 1
    requires isSpace(' ')
    ensures |SplitText(text, maxWords, isSpace)| == (|Words(text, isSpace)| + maxWords - 1) / maxWords
    ensures forall i :: 0 <= i < |SplitText(text, maxWords, isSpace)| - 1 ==>
      |Words(SplitText(text, maxWords, isSpace)[i], isSpace)| == maxWords
    ensures forall i :: 0 <= i < |SplitText(text, maxWords, isSpace)| ==>
      1 <= |Words(SplitText(text, maxWords, isSpace)[i], isSpace)| <= maxWords
  {
    var chunks := SplitText(text, maxWords, isSpace);
    var groups := Chunks(Words(text, isSpace), maxWords);
    SplitTextPreservesWords(text, maxWords, isSpace);
    forall i | 0 <= i < |chunks|
      ensures Words(chunks[i], isSpace) == groups[i]
    {
      assert WordsOfEach(chunks, isSpace)[i] == Words(chunks[i], isSpace);
    }
    ChunkCountCeil(Words(text, isSpace), maxWords);
  }

  /** `c` is `ceil(n / m)` when `(c - 1) * m < n <= c * m`. */
  lemma CeilDivOfBounds(n: nat, c: nat, m: nat)
    requires m >= 1
    requires c == 0 <==> n == 0
    requires c > 0 ==> (c - 1) * m < n <= c * m
    ensures c == (n + m - 1) / m
  {
    if c > 0 {
      var x := n + m - 1;
      assert c * m <= x < c * m + m;
      var q := x / m;
      assert x == q * m + x % m;
      MulSucc(c, m);
      MulSucc(c - 1, m);
      MulMonotone(c + 1, q, m);
      MulMonotone(q, c - 1, m);
    }
  }

  lemma SliceOfSuffix<T>(xs: seq<T>, k: nat, a: nat, b: nat)
    requires k <= |xs|
    requires a <= b <= |xs| - k
    ensures xs[k..][a..b] == xs[k + a..k + b]
  {
  }

  lemma MulSucc(k: int, m: int)
    ensures (k + 1) * m == k * m + m
  {
  }

  lemma MulMonotone(a: int, b: int, m: nat)
    ensures a <= b ==> a * m <= b * m
  {
    assert b * m - a * m == (b - a) * m;
  }

  /** Empty or whitespace-only text yields no chunk, and only such text does. */
  lemma SplitTextEmptyIff(text: string, maxWords: nat, isSpace: char -> bool)
    requires maxWords >= 1
    ensures SplitText(text, maxWords, isSpace) == [] <==> forall i :: 0 <= i < |text| ==> isSpace(text[i])
  {
    WordsEmptyIff(text, isSpace);
  }

  /** A text of 1 to `maxWords` words is one chunk: its words joined by
      single spaces. */
  lemma SplitTextSingleChunk(text: string, maxWords: nat, isSpace: char -> bool)
    requires maxWords >= 1
    requires 1 <= |Words(text, isSpace)| <= maxWords
    ensures SplitText(text, maxWords, isSpace) == [Join(Words(text, isSpace))]
  {
    var words := Words(text, isSpace);
    assert words[..|words|] == words;
    assert Chunks(words, maxWords) == [words] + Chunks(words[|words|..], maxWords);
  }

  /** Chunk shape: each chunk is single-spaced. */
  lemma SplitTextShape(text: string, maxWords: nat, isSpace: char -> bool)
    requires maxWords >= 1
    ensures forall i :: 0 <= i < |SplitText(text, maxWords, isSpace)| ==>
      SingleSpaced(SplitText(text, maxWords, isSpace)[i], isSpace)
  {
    var words := Words(text, isSpace);
    var groups := Chunks(words, maxWords);
    forall i | 0 <= i < |groups|
      ensures SingleSpaced(Join(groups[i]), isSpace)
    {
      GroupsAreWords(words, maxWords, i, isSpace);
      JoinSingleSpaced(groups[i], isSpace);
    }
  }
}
