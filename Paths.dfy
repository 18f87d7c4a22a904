/**
 * A file's location as java.io.File holds it: the directory part, kept as an
 * opaque key, and the last path component (getName()).
 */
module Paths {
  datatype FilePath = FilePath(parent: string, name: string)
}
