/** The shape/stride descriptor behind every leaf view (`tensor_desc_t`).

    RANK is a template parameter in the source; here it is the `rank` field.
    The constructor's two static assertions become the `Valid` invariant, and
    `Make` rejects the argument pairs the compiler would refuse.
 */
module Descriptor {
  import opened Results

  datatype Desc = Desc(rank: nat, sizes: seq<int>, strides: seq<int>) {

    /** Size and stride arrays agree in length, and that length is RANK. */
    predicate Valid() {
      |sizes| == |strides| && |sizes| == rank
    }

    /** Element count along `dim`. */
    function Size(dim: int): int
      requires Valid() && 0 <= dim < rank
    {
      sizes[dim]
    }

    /** Distance between neighbouring elements along `dim`. */
    function Stride(dim: int): int
      requires Valid() && 0 <= dim < rank
    {
      strides[dim]
    }

    /** The whole size array. */
    function Shape(): seq<int> {
      sizes
    }

    /** The compile-time rank. */
    function Rank(): nat {
      rank
    }
  }

  /** Construction from a size array and a stride array for a given RANK. */
  function Make(rank: nat, sizes: seq<int>, strides: seq<int>): (r: Result<Desc>)
    ensures r.Ok? <==> |sizes| == |strides| && |sizes| == rank
    ensures r.Err? ==> r.error == Rejected
    ensures r.Ok? ==> r.value.Valid()
    ensures r.Ok? ==> r.value.Rank() == rank && r.value.Shape() == sizes
    ensures r.Ok? ==> forall d :: 0 <= d < rank ==>
      r.value.Size(d) == sizes[d] && r.value.Stride(d) == strides[d]
  {
    if |sizes| != |strides| then Err(Rejected)
    else if |sizes| != rank then Err(Rejected)
    else Ok(Desc(rank, sizes, strides))
  }

  /** The rank of a descriptor depends only on RANK, never on the contents
      of its size and stride arrays. */
  lemma RankIgnoresContents(rank: nat, s1: seq<int>, t1: seq<int>, s2: seq<int>, t2: seq<int>)
    requires Make(rank, s1, t1).Ok? && Make(rank, s2, t2).Ok?
    ensures Make(rank, s1, t1).value.Rank() == Make(rank, s2, t2).value.Rank() == rank
    ensures |s1| == |s2| && |t1| == |t2|
  {
  }
}
