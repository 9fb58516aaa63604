/** upload.go: the arithmetic of chunked uploads. Go's int64 wraps around and divides toward zero. */
module UploadPlan {
  import opened FileSystem

  const MAX_INT64 := 0x7FFF_FFFF_FFFF_FFFF
  const DEFAULT_CHUNK := 0x20_0000  // 2 MB
  const MAX_CHUNK := 0x80_0000      // 8 MB

  /** Two's-complement wrap-around to int64. */
  function Wrap(x: int): int {
    (x + 0x8000_0000_0000_0000) % 0x1_0000_0000_0000_0000 - 0x8000_0000_0000_0000
  }

  /** Go's integer division by a positive divisor. */
  function Quotient(a: int, b: int): int
    requires b > 0
  {
    if a >= 0 then a / b else -(-a / b)
  }

  /** Division rounds toward zero: the remainder is smaller than the divisor and has the dividend's sign. */
  lemma QuotientExactly(a: int, b: int)
    requires b > 0
    ensures var r := a - Times(Quotient(a, b), b);
            -b < r < b && (a >= 0 ==> r >= 0) && (a <= 0 ==> r <= 0)
  {
    if a >= 0 {
      assert a == b * (a / b) + a % b;
    } else {
      assert -a == b * (-a / b) + (-a) % b;
      assert Times(Quotient(a, b), b) == -(b * (-a / b));
    }
  }

  /** The chunk size `init` settles on. */
  function ChunkSizeFor(requested: int): (c: int)
    ensures 0 < c <= MAX_CHUNK
    ensures 0 < requested <= MAX_CHUNK ==> c == requested
    ensures requested <= 0 ==> c == 2 * 1024 * 1024
    ensures requested > MAX_CHUNK ==> c == MAX_CHUNK
  {
    if requested <= 0 then DEFAULT_CHUNK else if requested > MAX_CHUNK then MAX_CHUNK else requested
  }

  /** The chunk count `init` computes, in int64. */
  function TotalChunks(size: int, chunk: int): int
    requires chunk > 0
  {
    if size == 0 then 1 else Quotient(Wrap(size + chunk - 1), chunk)
  }

  datatype Plan = Plan(size: int, chunk: int, total: int)

  function PlanFor(size: int, requested: int): Plan {
    var chunk := ChunkSizeFor(requested);
    Plan(size, chunk, TotalChunks(size, chunk))
  }

  /** The length `writeChunk` demands of chunk `index`, in int64. */
  function Expected(p: Plan, index: int): int {
    if index == p.total - 1 then Wrap(p.size - Wrap(Times(index, p.chunk))) else p.chunk
  }

  /** Where chunk `i` starts; the end of the file after the last one. */
  function Start(p: Plan, i: nat): int {
    if i == p.total then p.size else Times(i, p.chunk)
  }

  function Times(a: int, b: int): int {
    a * b
  }

  /** The chunks cut [0, size) into consecutive pieces: chunk i starts at i * chunk and ends where
      the next one starts, the last one ends at size, and none is empty unless the file is. */
  ghost predicate Tiles(p: Plan) {
    && p.total >= 1
    && forall i: nat :: i < p.total ==>
         && Start(p, i) + Expected(p, i) == Start(p, i + 1)
         && 0 <= Expected(p, i) <= p.chunk && (p.size > 0 ==> Expected(p, i) > 0)
  }

  lemma CeilingDivision(size: int, chunk: int)
    requires size > 0 && chunk > 0
    ensures var n := (size + chunk - 1) / chunk; n >= 1 && Times(n - 1, chunk) < size <= Times(n, chunk)
  {
    var n := (size + chunk - 1) / chunk;
    assert size + chunk - 1 == n * chunk + (size + chunk - 1) % chunk;
    assert (n - 1) * chunk == n * chunk - chunk;
  }

  lemma TimesStep(a: int, b: int)
    ensures Times(a + 1, b) == Times(a, b) + b
  {
  }

  lemma TimesMonotone(a: int, a': int, b: int)
    requires a <= a' && b >= 0
    ensures Times(a, b) <= Times(a', b)
  {
  }

  lemma WrapSmall(x: int)
    requires -MAX_INT64 - 1 <= x <= MAX_INT64
    ensures Wrap(x) == x
  {
  }

  lemma WrapOnce(x: int)
    requires MAX_INT64 < x <= 2 * MAX_INT64 + 1
    ensures Wrap(x) == x - 0x1_0000_0000_0000_0000
  {
  }

  lemma QuotientNegative(a: int, b: int)
    requires a < 0 && b > 0
    ensures Quotient(a, b) <= 0
  {
  }

  /** Any count with (total - 1) * chunk < size <= total * chunk tiles, since then nothing overflows. */
  lemma CeilingTiles(p: Plan)
    requires p.total >= 1 && 0 < p.chunk && 0 <= p.size <= MAX_INT64
    requires Times(p.total - 1, p.chunk) <= p.size <= Times(p.total, p.chunk)
    requires p.size > 0 ==> Times(p.total - 1, p.chunk) < p.size
    ensures Tiles(p)
  {
    forall i: nat | i < p.total
      ensures Start(p, i) + Expected(p, i) == Start(p, i + 1)
      ensures 0 <= Expected(p, i) <= p.chunk && (p.size > 0 ==> Expected(p, i) > 0)
    {
      TimesStep(i, p.chunk);
      TimesMonotone(0, i, p.chunk);
      TimesMonotone(i, p.total - 1, p.chunk);
      if i == p.total - 1 {
        WrapSmall(Times(i, p.chunk));
        WrapSmall(p.size - Times(i, p.chunk));
        assert Expected(p, i) == p.size - Times(i, p.chunk);
      } else if p.size == 0 {
        TimesStep(i, p.chunk);
        TimesMonotone(i + 1, p.total - 1, p.chunk);
      }
    }
  }

  /** For every size and chunk size: the plan tiles the file exactly when the int64 sum in the chunk
      count does not overflow. Where it does, the count is not positive and no chunk is ever accepted. */
  lemma TilesExactly(size: int, requested: int)
    requires 0 <= size <= MAX_INT64
    ensures var p := PlanFor(size, requested);
            && (Tiles(p) <==> size + p.chunk - 1 <= MAX_INT64)
            && (!Tiles(p) ==> p.total <= 0)
  {
    var p := PlanFor(size, requested);
    if size + p.chunk - 1 <= MAX_INT64 {
      WrapSmall(size + p.chunk - 1);
      if size > 0 {
        CeilingDivision(size, p.chunk);
      }
      CeilingTiles(p);
    } else {
      WrapOnce(size + p.chunk - 1);
      QuotientNegative(Wrap(size + p.chunk - 1), p.chunk);
    }
  }

  // ---------------------------------------------------------------- chunk file names

  function Digit(d: nat): char
    requires d < 10
  {
    ['0', '1', '2', '3', '4', '5', '6', '7', '8', '9'][d]
  }

  function Decimal(n: nat): string {
    if n < 10 then [Digit(n)] else Decimal(n / 10) + [Digit(n % 10)]
  }

  function Zeros(n: nat): string {
    seq(n, i => '0')
  }

  /** `%06d`. */
  function Padded(n: nat): string {
    var d := Decimal(n);
    if |d| < 6 then Zeros(6 - |d|) + d else d
  }

  function ChunkName(i: nat): string {
    "chunk_" + Padded(i)
  }

  function TmpName(i: nat): string {
    ChunkName(i) + ".tmp"
  }

  const META_NAME := "meta.json"

  function DigitValue(c: char): nat {
    if '0' <= c <= '9' then (c as int) - ('0' as int) else 0
  }

  /** Reading digits back. */
  function Value(s: string): nat {
    if s == "" then 0 else Value(s[..|s| - 1]) * 10 + DigitValue(s[|s| - 1])
  }

  lemma {:induction false} ValueOfDecimal(n: nat)
    ensures Value(Decimal(n)) == n
    ensures Decimal(n) != ""
    ensures forall c :: c in Decimal(n) ==> '0' <= c <= '9'
  {
    if n < 10 {
      assert [Digit(n)][..0] == "";
    } else {
      ValueOfDecimal(n / 10);
      var d := Decimal(n);
      assert d[..|d| - 1] == Decimal(n / 10);
    }
  }

  lemma {:induction false} LeadingZeros(k: nat, s: string)
    ensures Value(Zeros(k) + s) == Value(s)
  {
    if s == "" {
      assert Zeros(k) + s == Zeros(k);
      OnlyZeros(k);
    } else {
      var z := Zeros(k) + s;
      assert z[..|z| - 1] == Zeros(k) + s[..|s| - 1];
      LeadingZeros(k, s[..|s| - 1]);
    }
  }

  lemma {:induction false} OnlyZeros(k: nat)
    ensures Value(Zeros(k)) == 0
  {
    if k > 0 {
      assert Zeros(k)[..k - 1] == Zeros(k - 1);
      OnlyZeros(k - 1);
    }
  }

  lemma PaddedFacts(n: nat)
    ensures Value(Padded(n)) == n
    ensures forall c :: c in Padded(n) ==> '0' <= c <= '9'
    ensures Padded(n) != ""
  {
    ValueOfDecimal(n);
    var d := Decimal(n);
    if |d| < 6 {
      LeadingZeros(6 - |d|, d);
    }
  }

  /** Six digits at least, and no zero in front of more: "000007", "123456", "1234567". */
  lemma PaddedExactly(n: nat)
    ensures |Padded(n)| >= 6 && Value(Padded(n)) == n
    ensures |Padded(n)| > 6 ==> Padded(n)[0] != '0'
    ensures |Padded(n)| == 6 <==> n < 1_000_000
  {
    PaddedFacts(n);
    DecimalLength(n, 6);
    if |Decimal(n)| > 6 {
      LeadingDigit(n);
    }
  }

  function Power(k: nat): nat {
    if k == 0 then 1 else 10 * Power(k - 1)
  }

  lemma {:induction false} DecimalLength(n: nat, k: nat)
    requires k >= 1
    ensures |Decimal(n)| <= k <==> n < Power(k)
  {
    if k == 1 {
      assert Power(1) == 10 * Power(0);
      if n >= 10 {
        ValueOfDecimal(n / 10);
      }
    } else {
      PowerGrows(k);
      if n >= 10 {
        DecimalLength(n / 10, k - 1);
      }
    }
  }

  lemma PowerGrows(k: nat)
    requires k >= 1
    ensures Power(k) >= 10
  {
    if k > 1 {
      PowerGrows(k - 1);
    }
  }

  lemma {:induction false} LeadingDigit(n: nat)
    requires n > 0
    ensures Decimal(n) != "" && Decimal(n)[0] != '0'
  {
    if n >= 10 {
      LeadingDigit(n / 10);
    }
  }

  lemma ChunkNameShape(i: nat)
    ensures var a := ChunkName(i); |a| > 6 && a[6..] == Padded(i) && a[0] == 'c' && '0' <= a[|a| - 1] <= '9'
    ensures Value(Padded(i)) == i
  {
    PaddedFacts(i);
    hide Padded, Value;
    var a := ChunkName(i);
    assert a[6..] == Padded(i) && a[|a| - 1] == Padded(i)[|Padded(i)| - 1];
    assert a[|a| - 1] in Padded(i);
  }

  lemma TmpNameShape(i: nat)
    ensures var a := TmpName(i); |a| > 4 && a[..|a| - 4] == ChunkName(i) && a[0] == 'c' && a[|a| - 1] == 'p'
  {
    ChunkNameShape(i);
    hide ChunkName;
    var a := TmpName(i);
    assert a[..|a| - 4] == ChunkName(i) && a[0] == ChunkName(i)[0];
  }

  /** Different indices have different files, and no temporary file or metadata file is a chunk file. */
  lemma ChunkNamesDistinct(i: nat, j: nat)
    ensures ChunkName(i) == ChunkName(j) ==> i == j
    ensures TmpName(i) == TmpName(j) ==> i == j
    ensures ChunkName(i) != TmpName(j) && ChunkName(i) != META_NAME && TmpName(i) != META_NAME
  {
    hide ChunkName, TmpName, Padded, Value;
    ChunkNameShape(i);
    ChunkNameShape(j);
    TmpNameShape(i);
    TmpNameShape(j);
    assert META_NAME[0] == 'm';
  }

  /** A set of `n` indices below `n` holds them all. */
  lemma {:induction false} FullSet(x: set<nat>, n: nat)
    requires forall i :: i in x ==> i < n
    ensures |x| <= n
    ensures |x| == n ==> forall i: nat :: i < n ==> i in x
  {
    if n > 0 {
      FullSet(x - {n - 1}, n - 1);
      if n - 1 !in x {
        assert x - {n - 1} == x;
      }
    } else {
      assert x == {};
    }
  }

  // ---------------------------------------------------------------- putting chunks together

  /** The first `n` chunks, one after the other. */
  function Assembled(chunks: map<nat, Bytes>, n: nat): Bytes
    requires forall i :: 0 <= i < n ==> i in chunks
  {
    if n == 0 then [] else Assembled(chunks, n - 1) + chunks[n - 1]
  }

  ghost predicate Complete(p: Plan, chunks: map<nat, Bytes>) {
    && (forall i: nat :: i in chunks <==> i < p.total)
    && forall i :: i in chunks ==> |chunks[i]| == Expected(p, i)
  }

  lemma {:induction false} AssembledLength(p: Plan, chunks: map<nat, Bytes>, n: nat)
    requires Tiles(p) && Complete(p, chunks) && n <= p.total
    ensures |Assembled(chunks, n)| == Start(p, n)
  {
    if n > 0 {
      AssembledLength(p, chunks, n - 1);
      assert n - 1 in chunks;
    }
  }

  /** What the client cuts chunk i from. */
  ghost predicate IsSlice(p: Plan, payload: Bytes, chunk: Bytes, i: nat)
    requires i < p.total
  {
    0 <= Start(p, i) <= Start(p, i + 1) <= |payload| && chunk == payload[Start(p, i)..Start(p, i + 1)]
  }

  lemma GluePrefix(s: Bytes, a: nat, b: nat)
    requires a <= b <= |s|
    ensures s[..a] + s[a..b] == s[..b]
  {
  }

  lemma StartsAtZero(p: Plan)
    requires Tiles(p)
    ensures Start(p, 0) == 0
  {
  }

  lemma {:induction false} SlicesAssemble(p: Plan, payload: Bytes, chunks: map<nat, Bytes>, n: nat)
    requires Tiles(p) && |payload| == p.size && Complete(p, chunks) && n <= p.total
    requires forall i: nat :: i < p.total ==> IsSlice(p, payload, chunks[i], i)
    ensures 0 <= Start(p, n) <= |payload| && Assembled(chunks, n) == payload[..Start(p, n)]
  {
    hide Tiles, Expected;
    if n == 0 {
      StartsAtZero(p);
    } else {
      SlicesAssemble(p, payload, chunks, n - 1);
      assert IsSlice(p, payload, chunks[n - 1], n - 1);
      GluePrefix(payload, Start(p, n - 1), Start(p, n));
    }
  }

  /** Chunks that are the payload's slices assemble to the payload. */
  lemma PayloadRestored(p: Plan, payload: Bytes, chunks: map<nat, Bytes>)
    requires Tiles(p) && |payload| == p.size && Complete(p, chunks)
    requires forall i: nat :: i < p.total ==> IsSlice(p, payload, chunks[i], i)
    ensures Assembled(chunks, p.total) == payload
  {
    SlicesAssemble(p, payload, chunks, p.total);
    assert payload[..p.size] == payload;
  }
}
