/**
 * The values a `JarResource` works with: resource locators, file handles,
 * the on-disk state of files, and the wrapped Spring `Resource`.
 */
module Resources {
  import opened Results

  type Path = string

  /** A resource locator (`java.net.URL`), compared by value. */
  datatype Url = Url(spec: string)

  /** A `java.io.File` handle: nothing but the path it names. */
  datatype File = File(path: Path)

  /** What the file system knows about an existing file. */
  datatype Stat = Stat(length: nat, lastModified: int)

  /** The disk: every existing file, by path. */
  type Files = map<Path, Stat>

  /** `File.exists()`. */
  predicate Exists(files: Files, f: File)
  {
    f.path in files
  }

  /** `File.length()`: the size of the file, or 0 when it does not exist. */
  function LengthOf(files: Files, f: File): nat
  {
    if Exists(files, f) then files[f.path].length else 0
  }

  /** `File.lastModified()`: the modification time, or 0 when the file does not exist. */
  function LastModifiedOf(files: Files, f: File): int
  {
    if Exists(files, f) then files[f.path].lastModified else 0
  }

  /**
   * The wrapped Spring `Resource`, described by what its methods answer:
   * `getURL()`, its own `getFile()`, the bytes `getInputStream()` yields,
   * `getDescription()`, and what `createRelative(p)` answers: the resource or
   * the failure listed for `p`, or the `unresolvable` failure for any other path.
   */
  datatype Resource = Resource(
    url: Result<Url>,
    file: Result<File>,
    content: Result<seq<bv8>>,
    description: string,
    relatives: map<string, Result<Resource>>,
    unresolvable: IoError)
  {
    /** `createRelative(p)` on this resource. */
    function Relative(p: string): Result<Resource>
    {
      if p in relatives then relatives[p] else Err(unresolvable)
    }
  }

  /**
   * What the environment decides when an entry is extracted: where the
   * temporary-file routine puts the copy for a given extract-path hint (or
   * why it cannot), and the clock reading stamped on the new file.
   */
  datatype Env = Env(placement: Option<string> -> Result<Path>, now: int)
}
