/** Node and edge identifiers (dyng/identifiers.h).
    Both kinds wrap an unsigned 32-bit value; the phantom kind parameter keeps
    node ids and edge ids apart, as the enable_if_id templates do: every
    operator below is defined only between two ids of the same kind. */
module Identifiers {

  const U32_LIMIT: int := 0x1_0000_0000

  /** C++ `unsigned` on the platforms the library targets. */
  type u32 = x: int | 0 <= x < 0x1_0000_0000

  /** Unsigned increment: wraps to 0 past the largest value. */
  function Inc(x: u32): (r: u32)
    ensures x < U32_LIMIT - 1 ==> r == x + 1
    ensures x == U32_LIMIT - 1 ==> r == 0
  {
    (x + 1) % U32_LIMIT
  }

  datatype NodeKind = NodeKind
  datatype EdgeKind = EdgeKind

  datatype Id<Kind> = Id(value: u32)

  type NodeId = Id<NodeKind>
  type EdgeId = Id<EdgeKind>

  /** operator== compares the wrapped values; it coincides with identity. */
  function Eq<K>(a: Id<K>, b: Id<K>): (r: bool)
    ensures r <==> a == b
  {
    a.value == b.value
  }

  /** operator!= is the negation of operator==. */
  function Ne<K>(a: Id<K>, b: Id<K>): (r: bool)
    ensures r <==> a != b
  {
    !Eq(a, b)
  }

  /** operator< compares the wrapped values: the ids are ordered as the
      numbers they carry, and two different ids are always ordered one way. */
  function Lt<K>(a: Id<K>, b: Id<K>): (r: bool)
    ensures r <==> a.value < b.value
    ensures !r && a != b ==> b.value < a.value
  {
    a.value < b.value
  }

  /** operator> is operator< with its operands swapped. */
  function Gt<K>(a: Id<K>, b: Id<K>): (r: bool)
    ensures r <==> b.value < a.value
    ensures r <==> Lt(b, a)
  {
    a.value > b.value
  }

  /** operator<= is defined as !(a > b); it is the numeric order of the values. */
  function Le<K>(a: Id<K>, b: Id<K>): (r: bool)
    ensures r <==> a.value <= b.value
    ensures r <==> Lt(a, b) || Eq(a, b)
  {
    !Gt(a, b)
  }

  /** operator>= is defined as !(a < b); it is the converse of operator<=. */
  function Ge<K>(a: Id<K>, b: Id<K>): (r: bool)
    ensures r <==> a.value >= b.value
    ensures r <==> Le(b, a)
  {
    !Lt(a, b)
  }

  /** `<` is a strict total order on ids of one kind, so ids can key an ordered map. */
  lemma LtIsStrictTotalOrder<K>(a: Id<K>, b: Id<K>, c: Id<K>)
    ensures !Lt(a, a)
    ensures Lt(a, b) && Lt(b, c) ==> Lt(a, c)
    ensures Lt(a, b) || Eq(a, b) || Lt(b, a)
    ensures Gt(a, b) <==> Lt(b, a)
  {
  }
}
