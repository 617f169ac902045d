/** Constants of param.h. */
module Params {
  const MAXOPBLOCKS := 10             // blocks any file-system operation writes, at most
  const LOGSIZE := MAXOPBLOCKS * 3    // data blocks in the on-disk log, at most
  const NBUF := MAXOPBLOCKS * 3       // buffers in the cache
  const NPROC := 64                   // slots in the process table
}
