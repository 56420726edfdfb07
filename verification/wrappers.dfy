/** The optional value used wherever the original code leaves a slot or a
    pointer empty (a NULL child, an absent lookup result). */
module Wrappers {

  datatype Option<+T> = None | Some(value: T)

}
