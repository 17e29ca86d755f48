/** The `Math` operations the components use on numbers. */
module JsMath {

  /** `Math.round`: the nearest integer, halves rounded up. */
  function Round(x: real): (r: int)
    ensures r as real - 0.5 <= x < r as real + 0.5
  {
    (x + 0.5).Floor
  }

  /** Clamping x into lo..hi. src/components/FaceRecognition.tsx:70 writes it
      `Math.max(lo, Math.min(hi, x))` and
      src/components/NumberPlateRecognition.tsx:78 writes it
      `Math.min(hi, Math.max(lo, x))`; the two nestings agree whenever
      lo <= hi, which holds at both sites (0..100 and 50..100). */
  function Clamp(x: int, lo: int, hi: int): (r: int)
    requires lo <= hi
    ensures lo <= r <= hi
    ensures lo <= x <= hi ==> r == x
    ensures x < lo ==> r == lo
    ensures x > hi ==> r == hi
  {
    if x < lo then lo else if x > hi then hi else x
  }

  /** Rounding a value between two integers stays between them. */
  lemma RoundBetween(x: real, lo: int, hi: int)
    requires lo as real <= x <= hi as real
    ensures lo <= Round(x) <= hi
  {
  }
}
