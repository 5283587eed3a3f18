/** What the programs of the distributed file system have in common. */
module Common {

  datatype Option<T> = None | Some(value: T)

  const DFS_BLOCK_SIZE: nat := 1024

  /** A file and the number of one of its blocks. */
  type Key = (string, nat)
}
