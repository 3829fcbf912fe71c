/** The optional value returned by a non-blocking receive: a packet, or nothing (Java's null). */
module Wrappers {

  datatype Option<+T> = None | Some(value: T)
}
