/** Packet buffers: sequences of field elements that count as zero past their end. */
module Buffers {
  import opened Fields

  function At<T>(F: Field<T>, b: seq<T>, pos: nat): T {
    if pos < |b| then b[pos] else F.zero
  }

  /** GrowZeroPadded: makes a buffer at least `bytes` long. */
  function GrowZeroPadded<T>(F: Field<T>, b: seq<T>, bytes: nat): (r: seq<T>)
    ensures |r| == if |b| < bytes then bytes else |b|
    ensures forall pos: nat :: At(F, r, pos) == At(F, b, pos)
    ensures b <= r
  {
    if |b| < bytes then b + seq(bytes - |b|, i => F.zero) else b
  }

  /** gf256_muladd_mem: z[] += x[] * y over the first `bytes` bytes. */
  function MulAddMem<T>(F: Field<T>, z: seq<T>, y: T, x: seq<T>, bytes: nat): (r: seq<T>)
    requires bytes <= |z| && bytes <= |x|
    ensures |r| == |z|
    ensures forall i :: 0 <= i < |z| ==> r[i] == if i < bytes then F.add(z[i], F.mul(y, x[i])) else z[i]
  {
    seq(|z|, i requires 0 <= i < |z| => if i < bytes then F.add(z[i], F.mul(y, x[i])) else z[i])
  }

  /** gf256_add_mem: z[] += x[] over the first `bytes` bytes. */
  function AddMem<T>(F: Field<T>, z: seq<T>, x: seq<T>, bytes: nat): (r: seq<T>)
    requires bytes <= |z| && bytes <= |x|
    ensures |r| == |z|
    ensures forall i :: 0 <= i < |z| ==> r[i] == if i < bytes then F.add(z[i], x[i]) else z[i]
  {
    seq(|z|, i requires 0 <= i < |z| => if i < bytes then F.add(z[i], x[i]) else z[i])
  }

  /** gf256_mul_mem, in place on the bytes lo .. hi-1. */
  function MulMem<T>(F: Field<T>, x: seq<T>, y: T, lo: nat, hi: nat): (r: seq<T>)
    requires lo <= hi <= |x|
    ensures |r| == |x|
    ensures forall i :: 0 <= i < |x| ==> r[i] == if lo <= i < hi then F.mul(y, x[i]) else x[i]
  {
    seq(|x|, i requires 0 <= i < |x| => if lo <= i < hi then F.mul(y, x[i]) else x[i])
  }

  /** The bytes at one position of several buffers. */
  function Slice<T>(F: Field<T>, xs: seq<seq<T>>, pos: nat): (s: seq<T>)
    ensures |s| == |xs|
    ensures forall j :: 0 <= j < |xs| ==> s[j] == At(F, xs[j], pos)
  {
    seq(|xs|, j requires 0 <= j < |xs| => At(F, xs[j], pos))
  }

  /** Adding a whole buffer that fits adds it at every position. */
  lemma MulAddMemAt<T(!new)>(F: Field<T>, z: seq<T>, y: T, x: seq<T>, pos: nat)
    requires IsField(F) && |x| <= |z|
    ensures At(F, MulAddMem(F, z, y, x, |x|), pos) == F.add(At(F, z, pos), F.mul(y, At(F, x, pos)))
  {
    if |x| <= pos {
      MulZero(F, y);
      AddZero(F, At(F, z, pos));
    }
  }

  lemma AddMemAt<T(!new)>(F: Field<T>, z: seq<T>, x: seq<T>, bytes: nat, pos: nat)
    requires IsField(F) && bytes <= |z| && bytes <= |x| && pos < |z| && (bytes == |x| || bytes == |z|)
    ensures AddMem(F, z, x, bytes)[pos] == F.add(z[pos], At(F, x, pos))
  {
    AddZero(F, z[pos]);
  }
}
