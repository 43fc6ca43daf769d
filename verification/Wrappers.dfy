/** Result types that several modules share. */
module Wrappers {

  datatype Option<+T> = None | Some(value: T)
}

/** What a piece of kernel code comes to: a value, or a trap. A trap stands for following a null
    link, leaving an array, an unexpected page fault, or having no frame left. */
module Traps {

  datatype Outcome<+T> = Done(value: T) | Trap
}
