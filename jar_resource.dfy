/**
 * `JarResource` itself: a wrapper around a Spring `Resource` that, for a
 * resource inside a jar, extracts it to a file once and caches that file
 * by URL in a registry shared by every instance.
 */
module JarResources {
  import opened Results
  import opened Resources
  import CacheSpec

  newtype int32 = x: int | -0x8000_0000 <= x < 0x8000_0000

  /**
   * The process-wide URL -> File map. One object of this class plays the
   * static field; every `JarResource` is built with a reference to it.
   */
  class FileRegistry {
    var entries: map<Url, File>
    /** Every extraction this registry asked for, in order. */
    ghost var log: seq<CacheSpec.Extraction>

    constructor ()
      ensures entries == map[] && log == []
    {
      entries := map[];
      log := [];
    }
  }

  /** The disk the extracted files live on. */
  class FileSystem {
    var files: Files

    constructor (files: Files)
      ensures this.files == files
    {
      this.files := files;
    }

    /** The extraction routine: copy the resource's bytes to a new temporary file. */
    method Extract(res: Resource, extractPath: Option<string>, env: Env) returns (r: Result<File>)
      modifies this
      ensures CacheSpec.Extracted(r, files) == CacheSpec.Extract(old(files), res, extractPath, env)
    {
      if res.content.Err? {
        return Err(res.content.error);
      }
      var placed := env.placement(extractPath);
      if placed.Err? {
        return Err(placed.error);
      }
      files := files[placed.value := Stat(|res.content.value|, env.now)];
      r := Ok(File(placed.value));
    }

    /** Someone outside the program removes a file. */
    method Delete(p: Path)
      modifies this
      ensures files == old(files) - {p}
    {
      files := files - {p};
    }
  }

  /** What `equals` may be handed: this class, another Spring resource, or any other object. */
  datatype Obj = JarObj(jar: JarResource) | ResourceObj(resource: Resource) | NonResource

  class JarResource {
    const delegate: Resource
    const extractPath: Option<string>
    /** The shared registry that stands for the static map. */
    const registry: FileRegistry
    const fs: FileSystem

    /** `JarResource(resource, extractPath)`. */
    constructor (resource: Resource, extractPath: Option<string>, registry: FileRegistry, fs: FileSystem)
      ensures this.delegate == resource && this.extractPath == extractPath
      ensures this.registry == registry && this.fs == fs
    {
      this.delegate := resource;
      this.extractPath := extractPath;
      this.registry := registry;
      this.fs := fs;
    }

    /** `JarResource(resource)`: no extract-path hint. */
    constructor Default(resource: Resource, registry: FileRegistry, fs: FileSystem)
      ensures this.delegate == resource && this.extractPath == None
      ensures this.registry == registry && this.fs == fs
    {
      this.delegate := resource;
      this.extractPath := None;
      this.registry := registry;
      this.fs := fs;
    }

    function AsAdapter(): CacheSpec.Adapter
    {
      CacheSpec.Adapter(delegate, extractPath)
    }

    ghost function World(): CacheSpec.World
      reads registry, fs
    {
      CacheSpec.World(registry.entries, fs.files, registry.log)
    }

    /** `getFile()`: look up, check, extract and store, as `CacheSpec.GetFile` says. */
    method GetFile(isJarUrl: Url -> bool, env: Env) returns (r: Result<File>)
      modifies registry, fs
      ensures CacheSpec.Outcome(r, World()) == CacheSpec.GetFile(old(World()), AsAdapter(), isJarUrl, env)
    {
      var resourceUrl := delegate.url;
      if resourceUrl.Err? {
        return Err(resourceUrl.error);
      }
      var url := resourceUrl.value;
      if isJarUrl(url) {
        var tempFile: Option<File> := if url in registry.entries then Some(registry.entries[url]) else None;
        if tempFile.None? || !Exists(fs.files, tempFile.value) {
          var extracted := fs.Extract(delegate, extractPath, env);
          registry.log := registry.log + [CacheSpec.Extraction(url, extracted.Ok?)];
          if extracted.Err? {
            return Err(extracted.error);
          }
          tempFile := Some(extracted.value);
          registry.entries := registry.entries[url := extracted.value];
        }
        return Ok(File(tempFile.value.path));
      }
      r := delegate.file;
    }

    /** `contentLength()`: the length of the file `getFile()` answers. */
    method ContentLength(isJarUrl: Url -> bool, env: Env) returns (r: Result<int>)
      modifies registry, fs
      ensures CacheSpec.Outcome(r, World()) == CacheSpec.ContentLength(old(World()), AsAdapter(), isJarUrl, env)
    {
      var f := GetFile(isJarUrl, env);
      if f.Err? {
        return Err(f.error);
      }
      r := Ok(LengthOf(fs.files, f.value));
    }

    /** `lastModified()`: the modification time of the file `getFile()` answers. */
    method LastModified(isJarUrl: Url -> bool, env: Env) returns (r: Result<int>)
      modifies registry, fs
      ensures CacheSpec.Outcome(r, World()) == CacheSpec.LastModified(old(World()), AsAdapter(), isJarUrl, env)
    {
      var f := GetFile(isJarUrl, env);
      if f.Err? {
        return Err(f.error);
      }
      r := Ok(LastModifiedOf(fs.files, f.value));
    }

    /**
     * `createRelative(p)`: a new `JarResource` around the delegate's relative
     * resource, with the same hint and the same registry; when the delegate
     * fails, its failure is passed on unchanged.
     */
    method CreateRelative(relativePath: string) returns (r: Result<JarResource>)
      ensures r.Ok? <==> delegate.Relative(relativePath).Ok?
      ensures r.Err? ==> r.error == delegate.Relative(relativePath).error
      ensures r.Ok? ==> fresh(r.value) && r.value.delegate == delegate.Relative(relativePath).value
      ensures r.Ok? ==> r.value.extractPath == extractPath && r.value.registry == registry && r.value.fs == fs
    {
      var resolved := delegate.Relative(relativePath);
      if resolved.Err? {
        return Err(resolved.error);
      }
      var relative := new JarResource(resolved.value, extractPath, registry, fs);
      r := Ok(relative);
    }

    /** `getDescription()`, forwarded to the delegate. */
    function Description(): (d: string)
      ensures d == delegate.description
    {
      delegate.description
    }

    /**
     * `equals(obj)`: the same object, or any resource with the same
     * description. The identity test is only a shortcut.
     */
    predicate Equals(obj: Obj)
      ensures Equals(obj) <==> DescriptionOf(obj) == Some(Description())
    {
      obj == JarObj(this) ||
      (obj.JarObj? && obj.jar.Description() == Description()) ||
      (obj.ResourceObj? && obj.resource.description == Description())
    }

    /**
     * `hashCode()`: the hash of the description string, so every Spring
     * resource this one equals has a description with the same hash.
     */
    function HashCode(stringHash: string -> int32): (h: int32)
      ensures forall r: Resource :: Equals(ResourceObj(r)) ==> stringHash(r.description) == h
    {
      stringHash(Description())
    }
  }

  /** The description of `obj` if it is a resource at all. */
  function DescriptionOf(obj: Obj): Option<string>
  {
    match obj
    case JarObj(j) => Some(j.Description())
    case ResourceObj(r) => Some(r.description)
    case NonResource => None
  }

  /** Equal resources have equal hash codes, whatever hash `String` uses. */
  lemma EqualsAgreesWithHashCode(a: JarResource, b: JarResource, stringHash: string -> int32)
    requires a.Equals(JarObj(b))
    ensures a.HashCode(stringHash) == b.HashCode(stringHash)
  {
  }

  /** `equals` restricted to `JarResource`s is an equivalence relation. */
  lemma EqualsIsEquivalence(a: JarResource, b: JarResource, c: JarResource)
    ensures a.Equals(JarObj(a))
    ensures a.Equals(JarObj(b)) ==> b.Equals(JarObj(a))
    ensures a.Equals(JarObj(b)) && b.Equals(JarObj(c)) ==> a.Equals(JarObj(c))
  {
  }
}
