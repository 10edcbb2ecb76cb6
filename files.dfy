/**
 * The files of the working directory, as the encryptor sees them through
 * `std::ifstream` and `std::ofstream`. Directory `"."` is the only directory
 * the program touches, so files are named by their file names.
 */
module Files {
  import opened Base

  /** The bytes a read of `name` yields: nothing when the file does not exist. */
  function Lookup(files: map<string, Bytes>, name: string): Bytes
  {
    if name in files then files[name] else []
  }

  /** `name` exists in both maps with the same contents, or in neither. */
  predicate SameEntry(before: map<string, Bytes>, after: map<string, Bytes>, name: string)
  {
    (name in before <==> name in after) && (name in before ==> before[name] == after[name])
  }

  class FileStore {
    /** The regular files of the directory and their contents. */
    var files: map<string, Bytes>
    /** Names an `std::ofstream` cannot open for writing (permissions, locks). */
    const unwritable: set<string>

    constructor (files: map<string, Bytes>, unwritable: set<string>)
      ensures this.files == files && this.unwritable == unwritable
    {
      this.files := files;
      this.unwritable := unwritable;
    }

    /** `std::filesystem::exists(name)`. */
    predicate Exists(name: string)
      reads this
    {
      name in files
    }

    /** What a read through `std::ifstream` sees: nothing when the file does not exist. */
    function Contents(name: string): Bytes
      reads this
    {
      Lookup(files, name)
    }

    /** `std::ofstream out(name); if (out) out << data;`: opening truncates or
        creates the file; an open failure leaves everything as it was. */
    method Write(name: string, data: Bytes) returns (isOpen: bool)
      modifies this
      ensures isOpen == (name !in unwritable)
      ensures files == if isOpen then old(files)[name := data] else old(files)
    {
      isOpen := name !in unwritable;
      if isOpen {
        files := files[name := data];
      }
    }

    /** `std::filesystem::remove(name)`: the file is gone afterwards; removing
        a file that does not exist changes nothing. */
    method Remove(name: string)
      modifies this
      ensures files == old(files) - {name}
    {
      files := files - {name};
    }
  }
}
