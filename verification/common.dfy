/** Small shared vocabulary: an optional value, used where the source keeps a
    nullable pointer or a "not found" result. */
module Common {

  datatype Option<+T> = None | Some(value: T)

}
