/** A buffer that can be indexed from either end: negative indices count back from its length. */
module CircularArrays {

  class CircularArray<T(0)> {
    const max: nat
    const data: array<T>

    ghost predicate Valid() {
      data.Length == max
    }

    constructor (size: nat)
      ensures Valid() && max == size && fresh(data)
    {
      max := size;
      data := new T[size];
    }

    function Slot(index: int): int {
      if index < 0 then max + index else index
    }

    ghost predicate InBounds(index: int) {
      0 <= Slot(index) < max
    }

    function Get(index: int): T
      requires Valid() && InBounds(index)
      reads data
    {
      data[Slot(index)]
    }

    method Set(index: int, value: T)
      requires Valid() && InBounds(index)
      modifies data
      ensures Get(index) == value
      ensures forall i :: InBounds(i) && Slot(i) != Slot(index) ==> Get(i) == old(Get(i))
    {
      data[Slot(index)] := value;
    }

    // Any max consecutive positions around zero name pairwise different slots.
    lemma SlotsAreDistinct(low: int, i: int, j: int)
      requires 0 <= low + max && low <= 0 && low <= i < low + max && low <= j < low + max
      ensures InBounds(i) && (Slot(i) == Slot(j) ==> i == j)
    {}
  }
}
