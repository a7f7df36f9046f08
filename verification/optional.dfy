/** The absent-or-present value that Kotlin expresses with a nullable type (`Int?`). */
module Optional {

  datatype Option<+T> = None | Some(value: T)

}
