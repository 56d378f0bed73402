/** The on-disk files the vault reads and writes, as one mutable map shared by all vault objects. */
module Disk {
  import opened Common

  class FileSystem {
    /** Path to file contents; a path that is not a key does not exist. */
    var files: map<string, seq<byte>>

    constructor (files: map<string, seq<byte>>)
      ensures this.files == files
    {
      this.files := files;
    }

    /** `open(path, 'wb').write(data)`: the file now holds exactly `data`. */
    method Write(path: string, data: seq<byte>)
      modifies this
      ensures files == old(files)[path := data]
    {
      files := files[path := data];
    }
  }
}
