/** Byte views (slice.h).  `SliceMut` and `Slice` are a pointer and a length
    into memory owned elsewhere; the model keeps, for each view, the sequence
    of bytes it currently refers to.  The comparisons are shared functions on
    byte sequences, used by both classes. */
module Slices {

  type Bytes = seq<bv8>

  function Min(a: nat, b: nat): nat { if a < b then a else b }

  /** `memcmp` over the first `n` bytes, compared as unsigned chars.  The C
      standard fixes only the sign of the result; the model returns the
      difference of the first pair of bytes that differ. */
  function Memcmp(a: Bytes, b: Bytes, n: nat): (r: int)
    requires n <= |a| && n <= |b|
    ensures r == 0 <==> a[..n] == b[..n]
    decreases n
  {
    if n == 0 then 0
    else if a[0] != b[0] then a[0] as int - b[0] as int
    else
      assert a[..n] == [a[0]] + a[1..][..n - 1];
      assert b[..n] == [b[0]] + b[1..][..n - 1];
      Memcmp(a[1..], b[1..], n - 1)
  }

  /** Unsigned-byte lexicographic order, a proper prefix sorting first. */
  predicate LexLess(a: Bytes, b: Bytes)
  {
    if |a| == 0 then |b| != 0
    else |b| != 0 && (a[0] < b[0] || (a[0] == b[0] && LexLess(a[1..], b[1..])))
  }

  /** `compare`: `memcmp` over the shorter length, the lengths breaking a
      tie. */
  function Compare(a: Bytes, b: Bytes): (r: int)
    ensures r == 0 <==> a == b
  {
    var minLen := Min(|a|, |b|);
    var r := Memcmp(a, b, minLen);
    if r == 0 then
      if |a| < |b| then -1
      else if |a| > |b| then 1
      else r
    else r
  }

  /** The sign of `compare` is lexicographic order. */
  lemma {:induction false} CompareIsLexicographic(a: Bytes, b: Bytes)
    ensures Compare(a, b) < 0 <==> LexLess(a, b)
    ensures Compare(a, b) == 0 <==> a == b
    ensures Compare(a, b) > 0 <==> LexLess(b, a)
    decreases |a|
  {
    if |a| == 0 || |b| == 0 {
      CompareEmpty(a, b);
    } else if a[0] != b[0] {
      CompareFirstDiffer(a, b);
    } else {
      CompareStep(a, b);
      CompareIsLexicographic(a[1..], b[1..]);
      assert a == [a[0]] + a[1..];
      assert b == [b[0]] + b[1..];
    }
  }

  /** Against an empty sequence only the lengths count. */
  lemma CompareEmpty(a: Bytes, b: Bytes)
    requires |a| == 0 || |b| == 0
    ensures Compare(a, b) == if |a| < |b| then -1 else if |a| > |b| then 1 else 0
  {
    assert Memcmp(a, b, 0) == 0;
  }

  /** Different first bytes decide the sign of the comparison. */
  lemma CompareFirstDiffer(a: Bytes, b: Bytes)
    requires |a| != 0 && |b| != 0 && a[0] != b[0]
    ensures Compare(a, b) < 0 <==> a[0] < b[0]
    ensures Compare(a, b) > 0 <==> a[0] > b[0]
  {
  }

  /** Equal first bytes leave the comparison to the rest. */
  lemma CompareStep(a: Bytes, b: Bytes)
    requires |a| != 0 && |b| != 0 && a[0] == b[0]
    ensures Compare(a, b) == Compare(a[1..], b[1..])
  {
    assert Min(|a|, |b|) - 1 == Min(|a[1..]|, |b[1..]|);
  }

  /** `compare` is antisymmetric in sign: swapping the operands turns a
      negative result into a positive one and back, keeps a zero result,
      and `a.compare(a)` is zero. */
  lemma CompareAntisymmetric(a: Bytes, b: Bytes)
    ensures Compare(b, a) < 0 <==> Compare(a, b) > 0
    ensures Compare(b, a) > 0 <==> Compare(a, b) < 0
    ensures Compare(b, a) == 0 <==> Compare(a, b) == 0
    ensures Compare(a, a) == 0
  {
    CompareIsLexicographic(a, b);
    CompareIsLexicographic(b, a);
    CompareIsLexicographic(a, a);
  }

  /** `starts_with`: `x` is a prefix of `s`. */
  function StartsWith(s: Bytes, x: Bytes): (r: bool)
    ensures r <==> x <= s
  {
    |s| >= |x| && Memcmp(s, x, |x|) == 0
  }

  /** `operator==`: same size and same bytes. */
  function Equal(x: Bytes, y: Bytes): (r: bool)
    ensures r <==> x == y
  {
    |x| == |y| && Memcmp(x, y, |x|) == 0
  }

  /** `operator!=`. */
  function NotEqual(x: Bytes, y: Bytes): (r: bool)
    ensures r <==> x != y
  {
    !Equal(x, y)
  }

  /** `==` agrees with a zero `compare`. */
  lemma EqualIffCompareZero(x: Bytes, y: Bytes)
    ensures Equal(x, y) <==> Compare(x, y) == 0
  {
    CompareIsLexicographic(x, y);
  }

  /** `SliceMut`: a view through which the bytes may be written. */
  class SliceMut {
    /** The bytes `data_[0 .. size_)`. */
    var data: Bytes

    /** `SliceMut()`: the empty view. */
    constructor Empty()
      ensures data == []
    {
      data := [];
    }

    /** `SliceMut(d, n)`: a view of the `n` bytes at `d`. */
    constructor (d: Bytes)
      ensures data == d
    {
      data := d;
    }

    /** `size()`. */
    function Size(): (r: nat)
      reads this
      ensures r == |data|
    {
      |data|
    }

    /** `empty()`: exactly when the view holds no bytes. */
    predicate IsEmpty()
      reads this
      ensures IsEmpty() <==> data == []
    {
      Size() == 0
    }

    /** `operator[]`, which asserts `n < size()`: the `n`-th byte. */
    function At(n: nat): (r: bv8)
      reads this
      requires n < Size()
      ensures r == data[n]
    {
      data[n]
    }

    method Clear()
      modifies this
      ensures data == [] && IsEmpty()
    {
      data := [];
    }

    /** `remove_prefix`, which asserts `n <= size()`. */
    method RemovePrefix(n: nat)
      requires n <= Size()
      modifies this
      ensures data == old(data)[n..]
      ensures Size() == old(Size()) - n
    {
      data := data[n..];
    }

    /** `compare`: negative, zero or positive exactly as this view is
        lexicographically below, equal to or above `b`. */
    function CompareTo(b: SliceMut): (r: int)
      reads this, b
      ensures r < 0 <==> LexLess(data, b.data)
      ensures r == 0 <==> data == b.data
      ensures r > 0 <==> LexLess(b.data, data)
    {
      CompareIsLexicographic(data, b.data);
      Compare(data, b.data)
    }

    /** `starts_with`: exactly when `x` is a prefix of this view. */
    function StartsWithSlice(x: SliceMut): (r: bool)
      reads this, x
      ensures r <==> x.data <= data
    {
      StartsWith(data, x.data)
    }
  }

  /** `Slice`: a read-only view. */
  class Slice {
    /** The bytes `data_[0 .. size_)`. */
    var data: Bytes

    /** `Slice()`: the empty view. */
    constructor Empty()
      ensures data == []
    {
      data := [];
    }

    /** `Slice(d, n)` and the string constructors. */
    constructor (d: Bytes)
      ensures data == d
    {
      data := d;
    }

    /** `size()`. */
    function Size(): (r: nat)
      reads this
      ensures r == |data|
    {
      |data|
    }

    /** `empty()`: exactly when the view holds no bytes. */
    predicate IsEmpty()
      reads this
      ensures IsEmpty() <==> data == []
    {
      Size() == 0
    }

    /** `operator[]`, which asserts `n < size()`: the `n`-th byte. */
    function At(n: nat): (r: bv8)
      reads this
      requires n < Size()
      ensures r == data[n]
    {
      data[n]
    }

    method Clear()
      modifies this
      ensures data == [] && IsEmpty()
    {
      data := [];
    }

    method RemovePrefix(n: nat)
      requires n <= Size()
      modifies this
      ensures data == old(data)[n..]
      ensures Size() == old(Size()) - n
    {
      data := data[n..];
    }

    /** `compare`: negative, zero or positive exactly as this view is
        lexicographically below, equal to or above `b`. */
    function CompareTo(b: Slice): (r: int)
      reads this, b
      ensures r < 0 <==> LexLess(data, b.data)
      ensures r == 0 <==> data == b.data
      ensures r > 0 <==> LexLess(b.data, data)
    {
      CompareIsLexicographic(data, b.data);
      Compare(data, b.data)
    }

    /** `starts_with`: exactly when `x` is a prefix of this view. */
    function StartsWithSlice(x: Slice): (r: bool)
      reads this, x
      ensures r <==> x.data <= data
    {
      StartsWith(data, x.data)
    }
  }
}
