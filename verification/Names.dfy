/** Usernames, call ids and message ids: opaque text, only ever compared for equality. */
module Names {
  type Name(==, !new)
}
