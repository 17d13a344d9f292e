/** The optional value used wherever the launcher asks the operating system
    for something that may fail (a file size, a stat record). */
module Wrappers {

  datatype Option<+T> = None | Some(value: T)

}
