/** The two kinds of name the modules share: a local path and a Drive file id. */
module Identifiers {

  type Path = string
  type RemoteId = string
}
