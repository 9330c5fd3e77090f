/** Value types shared by the models. */
module Common {

  datatype Option<+T> = None | Some(value: T)

  /** Seconds on one clock; every worker reads the same one. */
  type Time = real

  function Members(ids: seq<nat>): set<nat> {
    set i | i in ids
  }
}
