/**
 * The extract-once, cache-by-URL rule of `JarResource.getFile()` as a
 * transition on a `World`: the process-wide registry, the disk, and the
 * history of extractions the registry caused.
 */
module CacheSpec {
  import opened Results
  import opened Resources

  /** One call of the extraction routine for `url`, and whether it succeeded. */
  datatype Extraction = Extraction(url: Url, ok: bool)

  datatype World = World(registry: map<Url, File>, files: Files, log: seq<Extraction>)

  /** The value view of a `JarResource`: its delegate and its extract-path hint. */
  datatype Adapter = Adapter(delegate: Resource, extractPath: Option<string>)

  /** What a call answers, and the world after it. */
  datatype Outcome<+T> = Outcome(result: Result<T>, world: World)

  /** The result of the extraction routine, and the disk after it. */
  datatype Extracted = Extracted(file: Result<File>, files: Files)

  /** `url` has a registry entry whose file still exists. */
  predicate Live(w: World, url: Url)
  {
    url in w.registry && Exists(w.files, w.registry[url])
  }

  /**
   * The extraction routine: read all of the resource's bytes, then write them
   * to the new file the environment places for the extract-path hint.
   * Either step can fail; a failure leaves the disk as it was.
   */
  function Extract(files: Files, res: Resource, extractPath: Option<string>, env: Env): (x: Extracted)
    ensures files.Keys <= x.files.Keys
    ensures x.file.Ok? ==> Exists(x.files, x.file.value) && res.content.Ok?
    ensures x.file.Ok? ==> LengthOf(x.files, x.file.value) == |res.content.value|
    ensures x.file.Err? ==> x.files == files
  {
    match res.content
    case Err(e) => Extracted(Err(e), files)
    case Ok(bytes) =>
      match env.placement(extractPath)
      case Err(e) => Extracted(Err(e), files)
      case Ok(p) => Extracted(Ok(File(p)), files[p := Stat(|bytes|, env.now)])
  }

  /**
   * `getFile()`: resolve the URL; a non-jar URL is answered by the delegate;
   * a jar URL whose entry is live is answered from the registry; otherwise
   * the entry is extracted and, only if that succeeds, stored under the URL.
   * The caller gets a fresh handle on the registered file's path.
   */
  function GetFile(w: World, a: Adapter, isJarUrl: Url -> bool, env: Env): (o: Outcome<File>)
    ensures w.registry.Keys <= o.world.registry.Keys
    ensures w.files.Keys <= o.world.files.Keys
    ensures w.log <= o.world.log
    ensures a.delegate.url.Err? ==> o.result == Err(a.delegate.url.error)
    ensures a.delegate.url.Ok? && isJarUrl(a.delegate.url.value) && o.result.Ok? ==>
              Live(o.world, a.delegate.url.value) &&
              o.result.value.path == o.world.registry[a.delegate.url.value].path
  {
    match a.delegate.url
    case Err(e) => Outcome(Err(e), w)
    case Ok(url) =>
      if !isJarUrl(url) then
        Outcome(a.delegate.file, w)
      else if Live(w, url) then
        Outcome(Ok(File(w.registry[url].path)), w)
      else
        var x := Extract(w.files, a.delegate, a.extractPath, env);
        match x.file
        case Err(e) =>
          Outcome(Err(e), World(w.registry, x.files, w.log + [Extraction(url, false)]))
        case Ok(f) =>
          Outcome(Ok(File(f.path)), World(w.registry[url := f], x.files, w.log + [Extraction(url, true)]))
  }

  /** `contentLength()`: the length of the file `getFile()` answers. */
  function ContentLength(w: World, a: Adapter, isJarUrl: Url -> bool, env: Env): (o: Outcome<int>)
    ensures o.world == GetFile(w, a, isJarUrl, env).world
    ensures o.result.Err? <==> GetFile(w, a, isJarUrl, env).result.Err?
    ensures o.result.Err? ==> o.result.error == GetFile(w, a, isJarUrl, env).result.error
    ensures a.delegate.url.Ok? && !isJarUrl(a.delegate.url.value) ==>
              o.result == (if a.delegate.file.Ok? then Ok(LengthOf(w.files, a.delegate.file.value))
                           else Err(a.delegate.file.error))
    ensures a.delegate.url.Ok? && isJarUrl(a.delegate.url.value) && o.result.Ok? ==>
              o.result.value == o.world.files[o.world.registry[a.delegate.url.value].path].length
  {
    var g := GetFile(w, a, isJarUrl, env);
    match g.result
    case Err(e) => Outcome(Err(e), g.world)
    case Ok(f) => Outcome(Ok(LengthOf(g.world.files, f)), g.world)
  }

  /** `lastModified()`: the modification time of the file `getFile()` answers. */
  function LastModified(w: World, a: Adapter, isJarUrl: Url -> bool, env: Env): (o: Outcome<int>)
    ensures o.world == GetFile(w, a, isJarUrl, env).world
    ensures o.result.Err? <==> GetFile(w, a, isJarUrl, env).result.Err?
    ensures o.result.Err? ==> o.result.error == GetFile(w, a, isJarUrl, env).result.error
    ensures a.delegate.url.Ok? && !isJarUrl(a.delegate.url.value) ==>
              o.result == (if a.delegate.file.Ok? then Ok(LastModifiedOf(w.files, a.delegate.file.value))
                           else Err(a.delegate.file.error))
    ensures a.delegate.url.Ok? && isJarUrl(a.delegate.url.value) && o.result.Ok? ==>
              o.result.value == o.world.files[o.world.registry[a.delegate.url.value].path].lastModified
  {
    var g := GetFile(w, a, isJarUrl, env);
    match g.result
    case Err(e) => Outcome(Err(e), g.world)
    case Ok(f) => Outcome(Ok(LastModifiedOf(g.world.files, f)), g.world)
  }

  // ---- One call at a time ----

  /** A URL that is not a jar URL is answered by the delegate, and nothing else changes. */
  lemma NonJarPassesThrough(w: World, a: Adapter, isJarUrl: Url -> bool, env: Env)
    requires a.delegate.url.Ok? && !isJarUrl(a.delegate.url.value)
    ensures GetFile(w, a, isJarUrl, env) == Outcome(a.delegate.file, w)
  {
  }

  /** A live entry is reused: no extraction, nothing changes, the same path comes back. */
  lemma HitReusesEntry(w: World, a: Adapter, isJarUrl: Url -> bool, env: Env)
    requires a.delegate.url.Ok? && isJarUrl(a.delegate.url.value)
    requires Live(w, a.delegate.url.value)
    ensures GetFile(w, a, isJarUrl, env).world == w
    ensures GetFile(w, a, isJarUrl, env).result == Ok(File(w.registry[a.delegate.url.value].path))
  {
  }

  /**
   * A missing or stale entry is extracted exactly once; on success the entry
   * for the URL, and only that entry, now names the extracted file.
   */
  lemma MissExtractsOnce(w: World, a: Adapter, isJarUrl: Url -> bool, env: Env)
    requires a.delegate.url.Ok? && isJarUrl(a.delegate.url.value)
    requires !Live(w, a.delegate.url.value)
    ensures var o := GetFile(w, a, isJarUrl, env);
            var x := Extract(w.files, a.delegate, a.extractPath, env);
            var url := a.delegate.url.value;
            && o.world.files == x.files
            && o.result == x.file
            && o.world.log == w.log + [Extraction(url, x.file.Ok?)]
            && (x.file.Ok? ==> o.world.registry == w.registry[url := x.file.value])
            && (forall v :: v != url && v in w.registry ==> v in o.world.registry && o.world.registry[v] == w.registry[v])
  {
  }

  /** A failed extraction leaves the registry as it was: the entry is stored only afterwards. */
  lemma FailedExtractionKeepsRegistry(w: World, a: Adapter, isJarUrl: Url -> bool, env: Env)
    requires a.delegate.url.Ok? && isJarUrl(a.delegate.url.value)
    requires Extract(w.files, a.delegate, a.extractPath, env).file.Err?
    ensures GetFile(w, a, isJarUrl, env).world.registry == w.registry
    ensures GetFile(w, a, isJarUrl, env).world.files == w.files
  {
  }

  /**
   * Two calls in a row on the same jar URL, with nothing deleted between
   * them: the second extracts nothing, changes nothing, and names the same path.
   */
  lemma BackToBackCallsExtractOnce(w: World, a: Adapter, isJarUrl: Url -> bool, env1: Env, env2: Env)
    requires a.delegate.url.Ok? && isJarUrl(a.delegate.url.value)
    ensures var o1 := GetFile(w, a, isJarUrl, env1);
            var o2 := GetFile(o1.world, a, isJarUrl, env2);
            o1.result.Ok? ==> o2.world == o1.world && o2.result == o1.result
    ensures |GetFile(w, a, isJarUrl, env1).world.log| <= |w.log| + 1
  {
  }

  /**
   * The registry is keyed by the URL alone: once an adapter has obtained a
   * file for a URL, an adapter with another delegate and another extract-path
   * hint that resolves to the same URL gets the same path without extraction.
   */
  lemma KeyedByUrlOnly(w: World, a1: Adapter, a2: Adapter, isJarUrl: Url -> bool, env1: Env, env2: Env)
    requires a1.delegate.url.Ok? && isJarUrl(a1.delegate.url.value)
    requires a2.delegate.url == a1.delegate.url
    ensures var o1 := GetFile(w, a1, isJarUrl, env1);
            var o2 := GetFile(o1.world, a2, isJarUrl, env2);
            o1.result.Ok? ==> o2.world == o1.world && o2.result == o1.result
  {
  }

  /** A deleted cached file is not an error: the next call extracts again. */
  lemma DeletedFileIsReextracted(w: World, a: Adapter, isJarUrl: Url -> bool, env: Env)
    requires a.delegate.url.Ok? && isJarUrl(a.delegate.url.value)
    requires a.delegate.url.value in w.registry
    ensures var url := a.delegate.url.value;
            var gone := w.(files := w.files - {w.registry[url].path});
            GetFile(gone, a, isJarUrl, env).world.log == w.log + [Extraction(url, GetFile(gone, a, isJarUrl, env).result.Ok?)]
  {
  }

  /** On a cold cache, `contentLength()` of a jar entry is the number of bytes extracted. */
  lemma ColdContentLengthIsExtractedSize(w: World, a: Adapter, isJarUrl: Url -> bool, env: Env)
    requires a.delegate.url.Ok? && isJarUrl(a.delegate.url.value)
    requires a.delegate.url.value !in w.registry
    ensures var o := ContentLength(w, a, isJarUrl, env);
            o.result.Ok? ==> a.delegate.content.Ok? && o.result.value == |a.delegate.content.value|
    ensures |ContentLength(w, a, isJarUrl, env).world.log| == |w.log| + 1
  {
  }
}
