/** xmlrpc_mem_block: a growing run of bytes that printers append to. */
module MemBlocks {

  class MemBlock {
    var contents: string

    constructor ()
      ensures contents == ""
    {
      contents := "";
    }

    method Append(bytes: string)
      modifies this
      ensures contents == old(contents) + bytes
    {
      contents := contents + bytes;
    }
  }
}
