/*
 * A fixed-capacity vector with embedded storage and a size counter
 * (src/utils/static_vector.hh). The storage is an array of exactly N
 * elements that is value-initialised once; `sz` counts the elements in use.
 */
module StaticVector {

  /** Largest value of the unsigned integer type with `bits` bits. */
  function UnsignedMax(bits: nat): nat
    requires bits in {8, 16, 32, 64}
  {
    match bits
    case 8 => 0xFF
    case 16 => 0xFFFF
    case 32 => 0xFFFF_FFFF
    case _ => 0xFFFF_FFFF_FFFF_FFFF
  }

  /** Number of bits of `SizeType`: the narrowest of uint8_t, uint16_t,
      uint32_t and uint64_t whose maximum is at least the capacity. */
  function SizeTypeBits(n: nat): (bits: nat)
    ensures bits in {8, 16, 32, 64}
    ensures n <= 0xFFFF_FFFF_FFFF_FFFF ==> n <= UnsignedMax(bits)
    ensures bits > 8 ==> n > UnsignedMax(bits / 2)
  {
    if n <= 0xFF then 8
    else if n <= 0xFFFF then 16
    else if n <= 0xFFFF_FFFF then 32
    else 64
  }

  class StaticVector<T> {
    /** The capacity, the template parameter N. */
    const N: nat
    /** The embedded `std::array<T, N>`. */
    const data: array<T>
    /** The size counter `sz`. */
    var sz: nat

    ghost predicate Valid()
      reads this
    {
      data.Length == N && sz <= N
    }

    /** The elements in use: what begin()..end() and the span conversions cover. */
    ghost function Elements(): seq<T>
      reads this, data
      requires Valid()
    {
      data[..sz]
    }

    /** The defaulted constructor: no elements, and every storage slot holds
        `zero`, the value `T{}` that `data = {}` initialises it with. */
    constructor Empty(n: nat, zero: T)
      ensures Valid() && fresh(data)
      ensures N == n && sz == 0 && Elements() == []
      ensures forall i :: 0 <= i < n ==> data[i] == zero
    {
      N := n;
      data := new T[n](_ => zero);
      sz := 0;
    }

    /** The initializer-list constructor; the source asserts that the list
        fits. The slots past the list keep their value-initialised `zero`. */
    constructor FromList(n: nat, zero: T, list: seq<T>)
      requires |list| <= n
      ensures Valid() && fresh(data)
      ensures N == n && sz == |list| && Elements() == list
      ensures forall i :: |list| <= i < n ==> data[i] == zero
    {
      N := n;
      var a := new T[n](_ => zero);
      var i := 0;
      while i < |list|
        invariant 0 <= i <= |list|
        invariant a[..i] == list[..i]
        invariant forall k :: |list| <= k < n ==> a[k] == zero
      {
        a[i] := list[i];
        i := i + 1;
      }
      data := a;
      sz := |list|;
      assert a[..|list|] == list[..|list|] == list;
    }

    /** The from_range constructor: push_back of every element in order, so
        the range has to fit (the assertion inside push_back). The slots past
        the range keep their value-initialised `zero`. */
    constructor FromRange(n: nat, zero: T, range: seq<T>)
      requires |range| <= n
      ensures Valid() && fresh(data)
      ensures N == n && Elements() == range
      ensures forall i :: |range| <= i < n ==> data[i] == zero
    {
      N := n;
      data := new T[n](_ => zero);
      sz := 0;
      new;
      var i := 0;
      while i < |range|
        invariant 0 <= i <= |range|
        invariant Valid()
        invariant Elements() == range[..i]
        invariant forall k :: i <= k < N ==> data[k] == zero
        modifies this, data
      {
        PushBack(range[i]);
        assert range[..i + 1] == range[..i] + [range[i]];
        i := i + 1;
      }
      assert range[..|range|] == range;
    }

    function Size(): (r: nat)
      reads this
      requires Valid()
      ensures r == |Elements()| && r <= N
    {
      sz
    }

    function IsEmpty(): (r: bool)
      reads this
      requires Valid()
      ensures r <==> Elements() == []
    {
      sz == 0
    }

    /** operator[]: indexes the storage array, so any index below the capacity is accepted. */
    function Get(index: nat): (r: T)
      reads this, data
      requires Valid() && index < N
      ensures index < sz ==> r == Elements()[index]
    {
      data[index]
    }

    /** The non-const operator[] used as an lvalue. */
    method Set(index: nat, value: T)
      requires Valid() && index < N
      modifies data
      ensures Valid() && sz == old(sz)
      ensures data[..] == old(data[..])[index := value]
      ensures index < sz ==> Elements() == old(Elements())[index := value]
    {
      data[index] := value;
    }

    method PushBack(a: T)
      requires Valid() && sz < N
      modifies this, data
      ensures Valid() && sz == old(sz) + 1
      ensures Elements() == old(Elements()) + [a]
      ensures data[sz..] == old(data[..])[sz..]
    {
      data[sz] := a;
      sz := sz + 1;
    }

    /** clear(): only the counter is reset; the storage keeps its values. */
    method Clear()
      requires Valid()
      modifies this
      ensures Valid() && sz == 0 && Elements() == []
      ensures data[..] == old(data[..])
    {
      sz := 0;
    }

    /** begin()..end(), and the span conversions. */
    method AsSpan() returns (s: seq<T>)
      requires Valid()
      ensures |s| == sz
      ensures forall i :: 0 <= i < sz ==> s[i] == data[i]
    {
      s := data[..sz];
    }
  }
}
