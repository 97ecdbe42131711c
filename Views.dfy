/**
 * The inspected application's views, as the view-inspector model hands them over.
 * A view is compared only by its identity; `isFakeRoot` marks the synthetic view
 * that groups several top-level surfaces under one root.
 */
module Views {
  import opened Wrappers

  /** The reference identity of a view. */
  type ViewId = int

  /** A view together with the finite hierarchy of its subviews. */
  datatype ViewTree = ViewTree(id: ViewId, isFakeRoot: bool, subviews: seq<ViewTree>)

  /** The identity of a possibly-null view (`view?.Identity`). */
  function IdOf(view: Option<ViewTree>): Option<ViewId>
  {
    match view
    case None => None
    case Some(v) => Some(v.id)
  }
}
