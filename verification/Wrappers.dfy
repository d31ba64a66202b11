/** The optional value shared by the models: what the agent writes as `Option`
    and the sidecar as "a value or None". */
module Wrappers {
  datatype Option<+T> = None | Some(value: T)
}
