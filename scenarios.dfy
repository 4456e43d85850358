/**
 * Callers of `JarResource` that rely only on its contracts: what two
 * instances, or two calls, observe through the shared registry.
 */
module Scenarios {
  import opened Results
  import opened Resources
  import opened JarResources

  /**
   * Two instances whose delegates resolve to the same jar URL, built with
   * different extract-path hints, share one extraction: the second
   * instance's first call answers the file the first instance extracted.
   */
  method SharedAcrossInstances(first: Resource, second: Resource, hint1: Option<string>, hint2: Option<string>,
                               disk: Files, isJarUrl: Url -> bool, env1: Env, env2: Env)
    returns (r1: Result<File>, r2: Result<File>)
    requires first.url.Ok? && isJarUrl(first.url.value)
    requires second.url == first.url
    ensures r1.Ok? <==> first.content.Ok? && env1.placement(hint1).Ok?
    ensures r1.Ok? ==> r2 == r1 && r1.value.path == env1.placement(hint1).value
  {
    var registry := new FileRegistry();
    var fs := new FileSystem(disk);
    var a := new JarResource(first, hint1, registry, fs);
    var b := new JarResource(second, hint2, registry, fs);
    r1 := a.GetFile(isJarUrl, env1);
    r2 := b.GetFile(isJarUrl, env2);
  }

  /**
   * A cached file deleted from outside the program is extracted again: the
   * second call answers wherever the second extraction put the copy.
   */
  method DeletionForcesExtraction(res: Resource, hint: Option<string>, disk: Files,
                                  isJarUrl: Url -> bool, env1: Env, env2: Env)
    returns (r1: Result<File>, r2: Result<File>)
    requires res.url.Ok? && isJarUrl(res.url.value)
    ensures r1.Ok? ==> (r2.Ok? <==> res.content.Ok? && env2.placement(hint).Ok?)
    ensures r1.Ok? && r2.Ok? ==> r2.value.path == env2.placement(hint).value
  {
    var registry := new FileRegistry();
    var fs := new FileSystem(disk);
    var a := new JarResource(res, hint, registry, fs);
    r1 := a.GetFile(isJarUrl, env1);
    if r1.Ok? {
      fs.Delete(r1.value.path);
    }
    r2 := a.GetFile(isJarUrl, env2);
  }

  /**
   * On a cold registry `contentLength()` extracts, and answers the number of
   * bytes the resource's stream yields; a second call answers the same.
   */
  method ContentLengthOnColdRegistry(res: Resource, disk: Files, isJarUrl: Url -> bool, env1: Env, env2: Env)
    returns (n1: Result<int>, n2: Result<int>)
    requires res.url.Ok? && isJarUrl(res.url.value)
    ensures n1.Ok? ==> res.content.Ok? && n1.value == |res.content.value| && n2 == n1
  {
    var registry := new FileRegistry();
    var fs := new FileSystem(disk);
    var a := new JarResource.Default(res, registry, fs);
    n1 := a.ContentLength(isJarUrl, env1);
    n2 := a.ContentLength(isJarUrl, env2);
  }
}
