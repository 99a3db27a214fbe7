/** Numbers as big-endian bytes, as PutWord writes them. */
module Words {
  import opened Bytes

  // The n low bytes of v, the most significant first.
  function BigEndian(v: nat, n: nat): (s: seq<byte>)
    ensures |s| == n
  {
    if n == 0 then [] else BigEndian(v / 256, n - 1) + [v % 256]
  }

  function Value(s: seq<byte>): nat {
    if s == [] then 0 else 256 * Value(s[..|s| - 1]) + s[|s| - 1]
  }

  function Pow256(n: nat): (p: nat)
    ensures p > 0
  {
    if n == 0 then 1 else 256 * Pow256(n - 1)
  }

  lemma {:induction false} ValueOfBigEndian(v: nat, n: nat)
    requires v < Pow256(n)
    ensures Value(BigEndian(v, n)) == v
  {
    if n > 0 {
      var q, r := v / 256, v % 256;
      assert v == 256 * q + r && v < 256 * Pow256(n - 1) && BigEndian(v, n) == BigEndian(q, n - 1) + [r];
      hide Pow256, BigEndian;
      ValueOfBigEndian(q, n - 1);
      assert (BigEndian(q, n - 1) + [r])[..n - 1] == BigEndian(q, n - 1);
    }
  }

  lemma {:induction false} BigEndianOfValue(s: seq<byte>)
    ensures BigEndian(Value(s), |s|) == s
    ensures Value(s) < Pow256(|s|)
  {
    if s != [] {
      var t := s[..|s| - 1];
      BigEndianOfValue(t);
      assert Value(s) / 256 == Value(t) && Value(s) % 256 == s[|s| - 1];
    }
  }

  // A shorter word is the end of a longer one.
  lemma {:induction false} BigEndianSuffix(v: nat, n: nat, m: nat)
    requires n <= m
    ensures BigEndian(v, m)[m - n..] == BigEndian(v, n)
  {
    if n > 0 {
      BigEndianSuffix(v / 256, n - 1, m - 1);
    }
  }

  function ShiftBytes(v: nat, n: nat): nat {
    if n == 0 then v else 256 * ShiftBytes(v, n - 1)
  }

  // Counting in the low bytes leaves the high ones alone as long as the count fits.
  lemma {:induction false} CountInLowBytes(s: seq<byte>, j: nat, n: nat)
    requires j < Pow256(n)
    ensures BigEndian(ShiftBytes(Value(s), n) + j, |s| + n) == s + BigEndian(j, n)
  {
    if n == 0 {
      BigEndianOfValue(s);
      assert s + [] == s;
    } else {
      var v := ShiftBytes(Value(s), n - 1);
      CountInLowBytes(s, j / 256, n - 1);
      assert (256 * v + j) / 256 == v + j / 256;
      assert (256 * v + j) % 256 == j % 256;
      assert s + BigEndian(j, n) == (s + BigEndian(j / 256, n - 1)) + [j % 256];
    }
  }

  lemma {:induction false} ValueOfZeros(s: seq<byte>, z: seq<byte>)
    requires forall i :: 0 <= i < |z| ==> z[i] == 0
    ensures Value(s + z) == ShiftBytes(Value(s), |z|)
  {
    if z == [] {
      assert s + z == s;
    } else {
      var z' := z[..|z| - 1];
      ValueOfZeros(s, z');
      assert (s + z)[..|s + z| - 1] == s + z';
    }
  }
}
