/** Optional values: a missing attribute, a search that found nothing, a trace step that cannot happen. */
module Wrappers {
  datatype Option<+T> = None | Some(value: T)
}
