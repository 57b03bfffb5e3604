/**
 * ListFactory::make_list: the neighbour-list variant named by the `list_type`
 * key of the input file, `verlet` when the key is absent. Every variant is
 * built with the caller's particle count and simulation box.
 */
module ListFactory {
  import opened Results

  /** The neighbour-list classes the factory can build. */
  datatype ListKind = VerletList | BinVerletList | NoList | Cells | RodCells

  /** The `list_type` value that selects each class. */
  function KindName(k: ListKind): string {
    match k
    case VerletList => "verlet"
    case BinVerletList => "bin_verlet"
    case NoList => "no"
    case Cells => "cells"
    case RodCells => "rodcells"
  }

  /** The five accepted `list_type` values. */
  const KindNames: set<string> := {"verlet", "bin_verlet", "no", "cells", "rodcells"}

  /** The exception thrown for any other value, carrying that value. */
  datatype ListError = InvalidList(name: string)

  /** A built list: its class, with the particle count and the box it was given. */
  datatype NeighbourList<Box> = NeighbourList(kind: ListKind, n: int, box: Box)

  /** The `list_type` buffer after the input file is read: the given value, or the
      default `verlet` it was initialised with. */
  function ListType(input: Option<string>): (name: string)
    ensures input.None? ==> name == "verlet"
    ensures input.Some? ==> name == input.value
  {
    if input.Some? then input.value else "verlet"
  }

  /** `make_list`: the chain of whole-string comparisons, in source order. */
  function MakeList<Box(==)>(input: Option<string>, n: int, box: Box): (r: Result<NeighbourList<Box>, ListError>)
    ensures r.Ok? <==> ListType(input) in KindNames
    ensures r.Ok? ==> KindName(r.value.kind) == ListType(input)
    ensures r.Ok? ==> r.value.n == n && r.value.box == box
    ensures r.Err? ==> r.error == InvalidList(ListType(input))
  {
    var name := ListType(input);
    if name == "verlet" then Ok(NeighbourList(VerletList, n, box))
    else if name == "bin_verlet" then Ok(NeighbourList(BinVerletList, n, box))
    else if name == "no" then Ok(NeighbourList(NoList, n, box))
    else if name == "cells" then Ok(NeighbourList(Cells, n, box))
    else if name == "rodcells" then Ok(NeighbourList(RodCells, n, box))
    else Err(InvalidList(name))
  }

  /** Each class's own name selects exactly that class: the names are distinct
      and the dispatch inverts `KindName`. */
  lemma MakeListInvertsKindName<Box>(k: ListKind, n: int, box: Box)
    ensures MakeList(Some(KindName(k)), n, box) == Ok(NeighbourList(k, n, box))
  {
  }

  /** Without a `list_type` key the result is a Verlet list. */
  lemma DefaultIsVerlet<Box>(n: int, box: Box)
    ensures MakeList(None, n, box) == Ok(NeighbourList(VerletList, n, box))
  {
  }

  /** Matching is on the whole value: a name that only starts with, or only
      extends, an accepted name is rejected. */
  lemma WholeNameOnly<Box>(n: int, box: Box)
    ensures MakeList(Some("verlet2"), n, box) == Err(InvalidList("verlet2"))
    ensures MakeList(Some("cell"), n, box) == Err(InvalidList("cell"))
    ensures MakeList(Some("Verlet"), n, box) == Err(InvalidList("Verlet"))
  {
  }
}
