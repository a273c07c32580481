/** The working directory as the set of paths that exist in it. Only
    existence matters to the bot's bookkeeping; contents are not modelled. */
module Files {

  class FileSystem {
    var files: set<string>

    constructor (initial: set<string>)
      ensures files == initial
    {
      files := initial;
    }

    /** `os.path.exists`. */
    predicate Exists(path: string)
      reads this
    {
      path in files
    }

    /** Creating or overwriting a file. */
    method Write(path: string)
      modifies this
      ensures files == old(files) + {path}
    {
      files := files + {path};
    }

    /** `if os.path.exists(p): os.remove(p)`: a missing file is no error. */
    method RemoveIfExists(path: string)
      modifies this
      ensures files == old(files) - {path}
      ensures !Exists(path)
    {
      if path in files {
        files := files - {path};
      }
    }

    /** `os.rename`: the target is replaced if it exists. */
    method Rename(source: string, target: string)
      requires Exists(source)
      modifies this
      ensures files == old(files) - {source} + {target}
    {
      files := files - {source} + {target};
    }
  }
}
