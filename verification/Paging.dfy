/** The page size of the machine, in bytes and in the 32-bit words of a message. */
module Paging {
  const PAGE_SIZE: int := 4096
  const PAGE_WORDS: int := 1024
}
