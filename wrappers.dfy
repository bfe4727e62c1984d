/** Optional values: boost::optional for costs and returned halfedges, and the
    nullable priority-queue handle. */
module Wrappers {

  datatype Option<+T> = None | Some(value: T)
}
