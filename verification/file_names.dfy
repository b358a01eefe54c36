/** Names of the temporary files of one synthesis request:
    `<base>_<idx>.mp3` per chunk and `<base>_final.mp3` for the result. */
module FileNames {

  predicate IsDigit(c: char) {
    '0' <= c <= '9'
  }

  function DigitChar(d: nat): (c: char)
    requires d < 10
    ensures IsDigit(c)
    ensures DigitValue(c) == d
  {
    ('0' as int + d) as char
  }

  /** Python's `f"{n}"` for a non-negative integer: decimal, no leading zeros. */
  function Decimal(n: nat): (s: string)
    ensures |s| >= 1
    ensures forall i :: 0 <= i < |s| ==> IsDigit(s[i])
    ensures n > 0 ==> s[0] != '0'
    ensures |s| > 1 ==> s[0] != '0'
  {
    if n < 10 then [DigitChar(n)] else Decimal(n / 10) + [DigitChar(n % 10)]
  }

  function DigitValue(c: char): nat
    requires IsDigit(c)
  {
    c as int - '0' as int
  }

  /** The number a string of decimal digits denotes. */
  function DecimalValue(s: string): nat
    requires forall i :: 0 <= i < |s| ==> IsDigit(s[i])
  {
    if |s| == 0 then 0
    else DecimalValue(s[..|s| - 1]) * 10 + DigitValue(s[|s| - 1])
  }

  /** Reading back a rendered index gives the index. */
  lemma {:induction false} DecimalRoundTrip(n: nat)
    ensures DecimalValue(Decimal(n)) == n
  {
    if n >= 10 {
      var s := Decimal(n);
      DecimalRoundTrip(n / 10);
      assert s[..|s| - 1] == Decimal(n / 10);
    }
  }

  /** Distinct indices render differently. */
  lemma DecimalInjective(i: nat, j: nat)
    ensures Decimal(i) == Decimal(j) <==> i == j
  {
    DecimalRoundTrip(i);
    DecimalRoundTrip(j);
  }

  /** `f"{base_filename}_{idx}.mp3"`. */
  function ChunkFileName(base: string, idx: nat): string {
    base + "_" + Decimal(idx) + ".mp3"
  }

  /** `f"{base_filename}_final.mp3"`. */
  function FinalFileName(base: string): string {
    base + "_final.mp3"
  }

  /** The names of the first `k` chunk files, in chunk order. */
  function ChunkFileNames(base: string, k: nat): seq<string> {
    seq(k, i requires 0 <= i < k => ChunkFileName(base, i))
  }

  /** Chunk files of one request never collide: equal names mean equal
      indices. */
  lemma ChunkFileNamesDistinct(base: string, i: nat, j: nat)
    ensures ChunkFileName(base, i) == ChunkFileName(base, j) <==> i == j
  {
    var a := ChunkFileName(base, i);
    var b := ChunkFileName(base, j);
    if a == b {
      var p := |base| + 1;
      assert |Decimal(i)| == |Decimal(j)|;
      assert a[p..p + |Decimal(i)|] == Decimal(i);
      assert b[p..p + |Decimal(j)|] == Decimal(j);
      DecimalInjective(i, j);
    }
  }

  /** The final file is never one of the chunk files, so the clean-up loop
      does not delete it: after `<base>_` a chunk name has a digit where the
      final name has `f`. */
  lemma FinalFileNameNotChunk(base: string, i: nat)
    ensures FinalFileName(base) != ChunkFileName(base, i)
  {
    var p := |base| + 1;
    assert FinalFileName(base)[p] == 'f';
    assert ChunkFileName(base, i)[p] == Decimal(i)[0];
  }
}
