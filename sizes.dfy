/**
 * The unit choice of `formatFileSize`, which the uploader and the gallery
 * define identically: `floor(log(bytes) / log(1024))`, or 0 for no bytes,
 * clamped to the last index of the unit table.
 */
module SizeUnits {

  const Units: seq<string> := ["B", "KB", "MB", "GB"]

  function Pow1024(k: nat): (p: nat)
    ensures p >= 1
  {
    if k == 0 then 1 else 1024 * Pow1024(k - 1)
  }

  lemma {:induction false} Pow1024Monotone(j: nat, k: nat)
    requires j <= k
    ensures Pow1024(j) <= Pow1024(k)
    decreases k
  {
    if j < k {
      Pow1024Monotone(j, k - 1);
    }
  }

  /** `floor(log(n) / log(1024))` in exact arithmetic. */
  function FloorLog1024(n: nat): (k: nat)
    requires n >= 1
    ensures Pow1024(k) <= n < Pow1024(k + 1)
    decreases n
  {
    if n < 1024 then 0
    else
      var k := FloorLog1024(n / 1024);
      assert 1024 * Pow1024(k) <= 1024 * (n / 1024) <= n;
      assert n / 1024 + 1 <= Pow1024(k + 1);
      assert n < 1024 * (n / 1024 + 1) <= 1024 * Pow1024(k + 1);
      1 + k
  }

  /** The index into `Units` that `formatFileSize` uses for `bytes`. */
  function UnitIndex(bytes: int): (k: nat)
    ensures k < |Units|
    ensures bytes <= 0 ==> k == 0
    ensures bytes > 0 ==> Pow1024(k) <= bytes
    ensures bytes > 0 && k < |Units| - 1 ==> bytes < Pow1024(k + 1)
  {
    var b := if bytes > 0 then bytes else 0;
    var pow := if b == 0 then 0 else FloorLog1024(b);
    if pow < |Units| - 1 then pow
    else
      Pow1024Monotone(|Units| - 1, pow);
      |Units| - 1
  }

  /** The chosen unit is the largest one whose size does not exceed `bytes`. */
  lemma UnitIndexIsLargest(bytes: int, k: nat)
    requires k < |Units| && bytes > 0 && Pow1024(k) <= bytes
    ensures k <= UnitIndex(bytes)
  {
    var u := UnitIndex(bytes);
    if u < k {
      Pow1024Monotone(u + 1, k);
    }
  }

  function UnitName(bytes: int): (u: string)
    ensures u in Units
  {
    Units[UnitIndex(bytes)]
  }

  lemma UnitNameExamples()
    ensures UnitName(0) == "B" && UnitName(1023) == "B"
    ensures UnitName(1024) == "KB" && UnitName(1536) == "KB"
    ensures UnitName(50 * 1024 * 1024) == "MB"
  {
    assert FloorLog1024(1536) == 1;
    assert FloorLog1024(50 * 1024 * 1024) == 2;
  }
}
