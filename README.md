# JarResource: extract once, cache by URL

A model of `JarResource` from spring-boot-jar-resources. A `JarResource` wraps a
Spring `Resource`. When the resource lives inside a jar, `getFile()` copies it to a
temporary file the first time and records that file in a process-wide registry keyed
by the resource's URL. Later calls answer a fresh handle on the cached file's path as
long as the file still exists. A missing or deleted file is extracted again and its
entry overwritten. The entry is written only after extraction succeeds. A resource
outside a jar is answered by the delegate's own `getFile()`. `contentLength()` and
`lastModified()` go through `getFile()`. `equals` and `hashCode` depend only on the
description string.

Layout:

- `results.dfy`: `Option`, and `Result` with `IoError` for the `IOException`s the source throws.
- `resources.dfy`: URLs, file handles, the disk (`Files`, path to size and time), the
  `java.io.File` queries, the wrapped `Resource`, and `Env`, the environment's part
  in an extraction.
- `cache_spec.dfy`: `getFile()`, `contentLength()` and `lastModified()` as pure
  transitions of a `World` (registry, disk, extraction history), with one lemma per case.
- `jar_resource.dfy`: the classes. `FileRegistry` stands for the static map. Nothing in the
  model forces a single registry: callers are expected to build every instance over the
  same `FileRegistry`, as `Runs` and `Scenarios` do. `FileSystem` is the disk. `JarResource` has methods that update
  both in place, each proved equal to its transition in `cache_spec.dfy`. The file also
  holds `equals` and `hashCode`.
- `runs.dfy`: arbitrary sequences of calls through any instances, interleaved with
  external deletions, and the extract-at-most-once theorems about them.
- `scenarios.dfy`: client methods on fresh objects that use only the class contracts.

Collaborators the class calls but does not define are parameters:

- `ResourceUtils.isJarURL` is the `isJarUrl: Url -> bool` argument.
- The extraction routine `JarUtils.getFile` is not part of this model. It is modelled
  as "read the delegate's bytes, then write them to the path the environment places
  for the extract-path hint". Either step may fail. The model assumes nothing about
  that path.
- `String.hashCode` is the `stringHash` argument.

## Model

| member | source | states |
|---|---|---|
| `CacheSpec.Extract` | spring-boot-jar-resources/src/main/java/com/github/ulisesbocchio/jar/resources/JarResource.java:68 | extraction never removes a file; on success the returned file exists and its length is the number of bytes the resource's stream yields; on failure the disk is unchanged (a modelling choice, see "Left out") |
| `CacheSpec.GetFile` | spring-boot-jar-resources/src/main/java/com/github/ulisesbocchio/jar/resources/JarResource.java:61-76 | no registry key and no file is ever dropped; the history only grows; a URL that cannot be resolved fails with that error; a successful jar call leaves the URL's entry live and answers its path |
| `CacheSpec.ContentLength` | spring-boot-jar-resources/src/main/java/com/github/ulisesbocchio/jar/resources/JarResource.java:78-81 | changes the world exactly as `getFile()` does and fails with `getFile()`'s own error; for a jar URL it answers the size of the registered file, for a non-jar URL the size of the delegate's own file (0 if absent) |
| `CacheSpec.LastModified` | spring-boot-jar-resources/src/main/java/com/github/ulisesbocchio/jar/resources/JarResource.java:83-86 | changes the world exactly as `getFile()` does and fails with `getFile()`'s own error; for a jar URL it answers the time of the registered file, for a non-jar URL the time of the delegate's own file (0 if absent) |
| `CacheSpec.NonJarPassesThrough` | spring-boot-jar-resources/src/main/java/com/github/ulisesbocchio/jar/resources/JarResource.java:63-75 | a non-jar URL answers exactly the delegate's `getFile()`, and registry, disk and history are unchanged |
| `CacheSpec.HitReusesEntry` | spring-boot-jar-resources/src/main/java/com/github/ulisesbocchio/jar/resources/JarResource.java:65-73 | a jar URL with a live entry extracts nothing, changes nothing, and answers the entry's path |
| `CacheSpec.MissExtractsOnce` | spring-boot-jar-resources/src/main/java/com/github/ulisesbocchio/jar/resources/JarResource.java:65-69 | a missing or stale entry causes exactly one extraction; on success the URL maps to the extracted file and every other key keeps its value |
| `CacheSpec.FailedExtractionKeepsRegistry` | spring-boot-jar-resources/src/main/java/com/github/ulisesbocchio/jar/resources/JarResource.java:68-69 | a failed extraction leaves the registry unchanged, since the entry is stored only after extraction returns (the disk is unchanged too, by the extraction model) |
| `CacheSpec.BackToBackCallsExtractOnce` | spring-boot-jar-resources/src/main/java/com/github/ulisesbocchio/jar/resources/JarResource.java:65-73 | the first call on a jar URL extracts at most once; after a successful first call the second extracts nothing, changes nothing and answers the same path |
| `CacheSpec.KeyedByUrlOnly` | spring-boot-jar-resources/src/main/java/com/github/ulisesbocchio/jar/resources/JarResource.java:65-69 | an adapter with another delegate and another extract-path hint that resolves to the same URL is answered the first adapter's file without extraction |
| `CacheSpec.DeletedFileIsReextracted` | spring-boot-jar-resources/src/main/java/com/github/ulisesbocchio/jar/resources/JarResource.java:66-69 | once the registered file is deleted, the next call extracts again |
| `CacheSpec.ColdContentLengthIsExtractedSize` | spring-boot-jar-resources/src/main/java/com/github/ulisesbocchio/jar/resources/JarResource.java:79-81 | on a cold registry `contentLength()` extracts once and answers the number of bytes in the resource's stream |
| `JarResources.FileRegistry.constructor` | spring-boot-jar-resources/src/main/java/com/github/ulisesbocchio/jar/resources/JarResource.java:24 | the registry starts empty, with no extraction history |
| `JarResources.FileSystem.Extract` | spring-boot-jar-resources/src/main/java/com/github/ulisesbocchio/jar/resources/JarResource.java:68 | the in-place extraction answers and leaves the disk exactly as `CacheSpec.Extract` says |
| `JarResources.JarResource.constructor` | spring-boot-jar-resources/src/main/java/com/github/ulisesbocchio/jar/resources/JarResource.java:31-34 | keeps the delegate and the extract-path hint it is given, and refers to the shared registry |
| `JarResources.JarResource.Default` | spring-boot-jar-resources/src/main/java/com/github/ulisesbocchio/jar/resources/JarResource.java:26-29 | the one-argument constructor: no extract-path hint |
| `JarResources.JarResource.GetFile` | spring-boot-jar-resources/src/main/java/com/github/ulisesbocchio/jar/resources/JarResource.java:61-76 | the lookup, existence check, extraction and `put` on the shared registry produce exactly the answer and new registry, disk and history of `CacheSpec.GetFile` |
| `JarResources.JarResource.ContentLength` | spring-boot-jar-resources/src/main/java/com/github/ulisesbocchio/jar/resources/JarResource.java:78-81 | answers and updates state exactly as `CacheSpec.ContentLength` |
| `JarResources.JarResource.LastModified` | spring-boot-jar-resources/src/main/java/com/github/ulisesbocchio/jar/resources/JarResource.java:83-86 | answers and updates state exactly as `CacheSpec.LastModified` |
| `JarResources.JarResource.CreateRelative` | spring-boot-jar-resources/src/main/java/com/github/ulisesbocchio/jar/resources/JarResource.java:88-91 | succeeds exactly when the delegate resolves the relative path, and otherwise fails with the delegate's own error; the new instance wraps that resource with the same hint and the same registry |
| `JarResources.JarResource.Equals` | spring-boot-jar-resources/src/main/java/com/github/ulisesbocchio/jar/resources/JarResource.java:121-125 | holds iff the other object is a resource whose description equals this one's; the identity test adds no case |
| `JarResources.JarResource.Description` | spring-boot-jar-resources/src/main/java/com/github/ulisesbocchio/jar/resources/JarResource.java:98-101 | `getDescription()` answers the delegate's description (pure forwarding; `equals` and `hashCode` are built on it) |
| `JarResources.JarResource.HashCode` | spring-boot-jar-resources/src/main/java/com/github/ulisesbocchio/jar/resources/JarResource.java:131-134 | every Spring resource this instance equals has a description whose hash is this hash code; `EqualsAgreesWithHashCode` gives the same between two instances |
| `JarResources.EqualsAgreesWithHashCode` | spring-boot-jar-resources/src/main/java/com/github/ulisesbocchio/jar/resources/JarResource.java:131-134 | equal instances have equal hash codes, whatever the string hash is |
| `JarResources.EqualsIsEquivalence` | spring-boot-jar-resources/src/main/java/com/github/ulisesbocchio/jar/resources/JarResource.java:121-125 | among instances `equals` is reflexive, symmetric and transitive |
| `Runs.Run` | spring-boot-jar-resources/src/main/java/com/github/ulisesbocchio/jar/resources/JarResource.java:61-76 | over any sequence of calls and deletions no registry entry is ever removed and the extraction history is only extended |
| `Runs.StepKeepsLive` | spring-boot-jar-resources/src/main/java/com/github/ulisesbocchio/jar/resources/JarResource.java:65-73 | a call never disturbs a live entry of any URL |
| `Runs.LiveEntriesPersist` | spring-boot-jar-resources/src/main/java/com/github/ulisesbocchio/jar/resources/JarResource.java:65-73 | while nothing is deleted, a live entry stays live and keeps its file through any calls by any instances |
| `Runs.ExtractsAtMostOncePerUrl` | spring-boot-jar-resources/src/main/java/com/github/ulisesbocchio/jar/resources/JarResource.java:65-73 | while nothing is deleted, a URL that was live is never extracted, and a URL is never extracted again after a successful extraction |
| `Runs.NonJarRunsLeaveWorld` | spring-boot-jar-resources/src/main/java/com/github/ulisesbocchio/jar/resources/JarResource.java:63-75 | calls on non-jar or unresolvable URLs leave registry, disk and history exactly as they were |
| `Scenarios.SharedAcrossInstances` | spring-boot-jar-resources/src/main/java/com/github/ulisesbocchio/jar/resources/JarResource.java:24-73 | on a cold registry, a second instance over the same jar URL answers the first instance's file, whatever its own hint and environment; that file is where the first extraction placed the copy |
| `Scenarios.DeletionForcesExtraction` | spring-boot-jar-resources/src/main/java/com/github/ulisesbocchio/jar/resources/JarResource.java:66-69 | after the cached file is deleted, the next call answers wherever a new extraction put the copy |
| `Scenarios.ContentLengthOnColdRegistry` | spring-boot-jar-resources/src/main/java/com/github/ulisesbocchio/jar/resources/JarResource.java:78-81 | a first `contentLength()` answers the size of the resource's stream, and a second call answers the same |

## Left out

- The forwarding methods `exists`, `isReadable`, `isOpen`, `getURL`, `getURI`, `getFilename`, `getInputStream` and `toString` (lines 36-59, 93-115) are left out. They only call the delegate; `getURL` appears as a field of the delegate value, and `getDescription` is modelled as `JarResource.Description`.
- Concurrency of the `ConcurrentHashMap` is not modelled; calls are sequential. In particular the cold-cache race, where two threads both extract and the last `put` wins, leaving an orphaned file, is not captured.
- The debug logging on lines 67 and 71 is not modelled.
- CacheSpec.Extract: a failed extraction is modelled as leaving no temporary file behind (the stream is read before anything is written, and a failure writes nothing). The routine is not part of this model, so a partly written or empty file left by a real failure is not captured; the registry half of "a failure changes nothing" does come from the source.
- `JarUtils.getFile` is not part of this model. Its naming, location and stream handling are abstracted into `Env.placement` and the delegate's byte content.
- `ResourceUtils.isJarURL` is a parameter. The URL classification is not reimplemented.
- `java.net.URL` equality is modelled as value equality of the URL text. Java's host-resolving `URL.equals` is not modelled.
- `String.hashCode` is a parameter. Its numeric value is not modelled.
- On a jar URL, Java answers a new `File` object built from the cached file's URI. Only the path is modelled, and it is answered as registered. Java answers its absolute form, resolved against the working directory, so for a relative path from the extraction routine the answered path is the absolute one. `CacheSpec.GetFile`, `CacheSpec.HitReusesEntry`, `CacheSpec.BackToBackCallsExtractOnce` and the scenarios say "the same path" in this sense. File handles here are values, so only the path they name is modelled.
- `contentLength` and `lastModified` answer Java `long`s. Overflow is not modelled, since file sizes fit in 63 bits.
- File contents are reduced to their length: `Stat` records size and modification time only.
- `File.exists()`, `length()` and `lastModified()` are modelled for regular files only. Directories and I/O errors during these queries are not modelled.
- The disk is not ghost, because `getFile()` branches on `File.exists()`.
