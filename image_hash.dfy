/** Perceptual hashing of src/lib/imageUtils.ts: the "average hash" of a
    resampled size x size image and the Hamming distance between two hashes.
    Decoding and resampling the image is done by the browser canvas; the
    model starts from the RGBA bytes that `getImageData` returns. */
module ImageHash {
  import Seqs

  /** One channel of the RGBA buffer returned by `getImageData`. */
  type Byte = x: int | 0 <= x < 256

  // ---------------------------------------------------------------------
  // Gray vector

  /** Luminance 0.299 R + 0.587 G + 0.114 B, scaled by 1000 so that it is an
      exact integer. Every value is scaled by the same factor, so no
      comparison with the mean changes. */
  function Luma(r: Byte, g: Byte, b: Byte): nat {
    299 * r + 587 * g + 114 * b
  }

  /** One luminance per pixel, in row-major order; the alpha byte is skipped. */
  function GraySpec(data: seq<Byte>): (gray: seq<int>)
    requires |data| % 4 == 0
    ensures |gray| == |data| / 4
    decreases |data|
  {
    if data == [] then [] else [Luma(data[0], data[1], data[2])] + GraySpec(data[4..])
  }

  /** The `gray.push(...)` loop: walks the buffer four bytes at a time. */
  method GrayVector(data: seq<Byte>) returns (gray: seq<int>)
    requires |data| % 4 == 0
    ensures gray == GraySpec(data)
  {
    gray := [];
    var i := 0;
    while i < |data|
      invariant 0 <= i <= |data| && i % 4 == 0
      invariant gray + GraySpec(data[i..]) == GraySpec(data)
      decreases |data| - i
    {
      var r, g, b := data[i], data[i + 1], data[i + 2];
      assert GraySpec(data[i..]) == [Luma(r, g, b)] + GraySpec(data[i + 4..]) by {
        assert data[i..][4..] == data[i + 4..];
      }
      gray := gray + [Luma(r, g, b)];
      i := i + 4;
    }
    assert data[i..] == [];
  }

  // ---------------------------------------------------------------------
  // Mean threshold

  function Sum(xs: seq<int>): int
    decreases |xs|
  {
    if xs == [] then 0 else xs[0] + Sum(xs[1..])
  }

  /** `gray.map(v => v >= avg ? '1' : '0').join('')` with avg the mean of
      gray, compared without division: v >= sum / n is v * n >= sum. */
  function Threshold(gray: seq<int>): (h: string)
    ensures |h| == |gray|
    ensures forall i :: 0 <= i < |h| ==> h[i] == '0' || h[i] == '1'
  {
    seq(|gray|, i requires 0 <= i < |gray| => if gray[i] * |gray| >= Sum(gray) then '1' else '0')
  }

  lemma DivideCompare(v: int, s: int, n: int)
    requires n > 0
    ensures v * n >= s <==> v as real >= s as real / n as real
  {
    var m := s as real / n as real;
    assert m * n as real == s as real;
    assert (v * n) as real == v as real * n as real;
    if v as real >= m {
      assert v as real * n as real >= m * n as real;
    } else {
      assert v as real * n as real < m * n as real;
    }
  }

  /** Each bit is the comparison with the arithmetic mean, taken over the reals. */
  lemma ThresholdIsMeanTest(gray: seq<int>, i: nat)
    requires i < |gray|
    ensures Threshold(gray)[i] == '1' <==> gray[i] as real >= Sum(gray) as real / |gray| as real
  {
    assert Threshold(gray)[i] == '1' <==> gray[i] * |gray| >= Sum(gray);
    DivideCompare(gray[i], Sum(gray), |gray|);
  }

  lemma {:induction false} SumOfConstant(xs: seq<int>, c: int)
    requires forall i :: 0 <= i < |xs| ==> xs[i] == c
    ensures Sum(xs) == |xs| * c
    decreases |xs|
  {
    if xs != [] {
      SumOfConstant(xs[1..], c);
      assert |xs| * c == c + (|xs| - 1) * c;
    }
  }

  lemma {:induction false} SumAtMost(xs: seq<int>, b: int)
    requires forall i :: 0 <= i < |xs| ==> xs[i] <= b
    ensures Sum(xs) <= |xs| * b
    decreases |xs|
  {
    if xs != [] {
      SumAtMost(xs[1..], b);
      assert |xs| * b == b + (|xs| - 1) * b;
    }
  }

  /** A uniform image hashes to all ones, because the test is `v >= avg`. */
  lemma UniformIsAllOnes(gray: seq<int>, c: int)
    requires forall i :: 0 <= i < |gray| ==> gray[i] == c
    ensures forall i :: 0 <= i < |gray| ==> Threshold(gray)[i] == '1'
  {
    SumOfConstant(gray, c);
  }

  function Identity(x: int): int { x }

  /** Every non-empty hash has a one: the brightest pixel is never below the mean. */
  lemma SomeBitIsOne(gray: seq<int>)
    requires |gray| > 0
    ensures exists i :: 0 <= i < |gray| && Threshold(gray)[i] == '1'
  {
    var m := Seqs.FirstMaxIndex(gray, Identity);
    assert forall j :: 0 <= j < |gray| ==> gray[j] <= gray[m];
    SumAtMost(gray, gray[m]);
    assert gray[m] * |gray| == |gray| * gray[m];
    assert Threshold(gray)[m] == '1';
  }

  /** `aHashFromImageData(img, size)` from the RGBA bytes of the size x size
      canvas: one '0'/'1' character per pixel. */
  method AHashFromImageData(data: seq<Byte>, size: nat) returns (hash: string)
    requires |data| == 4 * (size * size)
    ensures hash == Threshold(GraySpec(data))
    ensures |hash| == size * size
    ensures forall i :: 0 <= i < |hash| ==> hash[i] == '0' || hash[i] == '1'
  {
    var gray := GrayVector(data);
    hash := Threshold(gray);
  }

  // ---------------------------------------------------------------------
  // Hamming distance

  /** Number of positions below n where a and b differ. */
  function Mismatches(a: string, b: string, n: nat): (r: nat)
    requires n <= |a| && n <= |b|
    ensures r <= n
    decreases n
  {
    if n == 0 then 0 else Mismatches(a, b, n - 1) + (if a[n - 1] != b[n - 1] then 1 else 0)
  }

  function Min(x: int, y: int): int { if x <= y then x else y }

  function Max(x: int, y: int): int { if x >= y then x else y }

  function Abs(x: int): nat { if x >= 0 then x else -x }

  /** Differences over the common prefix plus the difference in length. */
  function Distance(a: string, b: string): (d: nat)
    ensures Abs(|a| - |b|) <= d <= Max(|a|, |b|)
  {
    Mismatches(a, b, Min(|a|, |b|)) + Abs(|a| - |b|)
  }

  /** `hammingDistance(a, b)`: the counting loop over the common prefix. */
  method HammingDistance(a: string, b: string) returns (dist: nat)
    ensures dist == Distance(a, b)
  {
    var len := if |a| <= |b| then |a| else |b|;
    dist := 0;
    for i := 0 to len
      invariant dist == Mismatches(a, b, i)
    {
      if a[i] != b[i] {
        dist := dist + 1;
      }
    }
    dist := dist + if |a| >= |b| then |a| - |b| else |b| - |a|;
  }

  lemma {:induction false} MismatchesSymmetric(a: string, b: string, n: nat)
    requires n <= |a| && n <= |b|
    ensures Mismatches(a, b, n) == Mismatches(b, a, n)
    decreases n
  {
    if n > 0 {
      MismatchesSymmetric(a, b, n - 1);
    }
  }

  /** The distance does not depend on the order of its arguments. */
  lemma DistanceSymmetric(a: string, b: string)
    ensures Distance(a, b) == Distance(b, a)
  {
    MismatchesSymmetric(a, b, Min(|a|, |b|));
  }

  lemma {:induction false} MismatchesZero(a: string, b: string, n: nat)
    requires n <= |a| && n <= |b|
    ensures Mismatches(a, b, n) == 0 <==> forall i :: 0 <= i < n ==> a[i] == b[i]
    decreases n
  {
    if n > 0 {
      MismatchesZero(a, b, n - 1);
    }
  }

  /** Distance zero means the two hashes are the same string, and conversely. */
  lemma DistanceZeroIff(a: string, b: string)
    ensures Distance(a, b) == 0 <==> a == b
  {
    MismatchesZero(a, b, Min(|a|, |b|));
  }

  /** The number of differing positions, as a set of indices. */
  lemma {:induction false} MismatchesCountsPositions(a: string, b: string, n: nat)
    requires n <= |a| && n <= |b|
    ensures Mismatches(a, b, n) == |set i | 0 <= i < n && a[i] != b[i]|
    decreases n
  {
    if n > 0 {
      MismatchesCountsPositions(a, b, n - 1);
      var before := set i | 0 <= i < n - 1 && a[i] != b[i];
      var now := set i | 0 <= i < n && a[i] != b[i];
      if a[n - 1] != b[n - 1] {
        assert now == before + {n - 1};
        assert n - 1 !in before;
      } else {
        assert now == before;
      }
    }
  }

  /** For hashes of equal length the distance is the classical Hamming
      distance: the number of positions where they differ. */
  lemma DistanceEqualLength(a: string, b: string)
    requires |a| == |b|
    ensures Distance(a, b) == |set i | 0 <= i < |a| && a[i] != b[i]|
  {
    MismatchesCountsPositions(a, b, |a|);
  }
}
