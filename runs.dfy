/**
 * Sequences of `getFile()` calls, made through any number of `JarResource`
 * instances that share the registry, interleaved with files being deleted
 * from outside the program.
 */
module Runs {
  import opened Resources
  import opened CacheSpec

  datatype Event =
    | Get(adapter: Adapter, env: Env)
    | Delete(path: Path)

  function Step(w: World, e: Event, isJarUrl: Url -> bool): World
  {
    match e
    case Get(a, env) => GetFile(w, a, isJarUrl, env).world
    case Delete(p) => w.(files := w.files - {p})
  }

  /**
   * The world after the events, in order. No event ever removes a registry
   * entry, and the extraction history is only ever extended.
   */
  function Run(w: World, events: seq<Event>, isJarUrl: Url -> bool): (r: World)
    ensures w.registry.Keys <= r.registry.Keys
    ensures w.log <= r.log
    decreases |events|
  {
    if events == [] then w else Run(Step(w, events[0], isJarUrl), events[1..], isJarUrl)
  }

  predicate NoDeletes(events: seq<Event>)
  {
    forall i :: 0 <= i < |events| ==> events[i].Get?
  }

  /** The extractions the events caused. */
  function NewExtractions(w: World, events: seq<Event>, isJarUrl: Url -> bool): seq<Extraction>
  {
    Run(w, events, isJarUrl).log[|w.log|..]
  }

  /** A call never deletes a file and never disturbs a live entry. */
  lemma StepKeepsLive(w: World, e: Event, isJarUrl: Url -> bool)
    requires e.Get?
    ensures forall url :: Live(w, url) ==>
              Live(Step(w, e, isJarUrl), url) && Step(w, e, isJarUrl).registry[url] == w.registry[url]
  {
  }

  /**
   * A call logs at most one extraction, of a URL that was not live, and a
   * successful one leaves that URL live.
   */
  lemma StepLogsOnlyMisses(w: World, e: Event, isJarUrl: Url -> bool)
    requires e.Get?
    ensures var w1 := Step(w, e, isJarUrl);
            && w.log <= w1.log && |w1.log| <= |w.log| + 1
            && (|w1.log| == |w.log| + 1 ==>
                  !Live(w, w1.log[|w.log|].url) && (w1.log[|w.log|].ok ==> Live(w1, w1.log[|w.log|].url)))
  {
  }

  /**
   * While nothing is deleted, a live entry stays live and keeps its file,
   * whatever calls are made through whatever instances.
   */
  lemma {:induction false} LiveEntriesPersist(w: World, events: seq<Event>, isJarUrl: Url -> bool, url: Url)
    requires NoDeletes(events)
    requires Live(w, url)
    ensures Live(Run(w, events, isJarUrl), url)
    ensures Run(w, events, isJarUrl).registry[url] == w.registry[url]
    decreases |events|
  {
    if events != [] {
      StepKeepsLive(w, events[0], isJarUrl);
      LiveEntriesPersist(Step(w, events[0], isJarUrl), events[1..], isJarUrl, url);
    }
  }

  /**
   * Extract once: while nothing is deleted, no URL that was live is ever
   * extracted, and after a successful extraction of a URL that URL is never
   * extracted again.
   */
  lemma {:induction false} ExtractsAtMostOncePerUrl(w: World, events: seq<Event>, isJarUrl: Url -> bool)
    requires NoDeletes(events)
    ensures var log := NewExtractions(w, events, isJarUrl);
            forall i :: 0 <= i < |log| ==> !Live(w, log[i].url)
    ensures SuccessNotRepeated(NewExtractions(w, events, isJarUrl))
    decreases |events|
  {
    if events != [] {
      var w1 := Step(w, events[0], isJarUrl);
      ExtractsAtMostOncePerUrl(w1, events[1..], isJarUrl);
      var head := w1.log[|w.log|..];
      var tail := NewExtractions(w1, events[1..], isJarUrl);
      var log := NewExtractions(w, events, isJarUrl);
      StepLogsOnlyMisses(w, events[0], isJarUrl);
      StepKeepsLive(w, events[0], isJarUrl);
      assert log == head + tail;
      forall i | 0 <= i < |log|
        ensures !Live(w, log[i].url)
      {
        if i < |head| {
          assert log[i] == w1.log[|w.log|];
        } else {
          assert log[i] == tail[i - |head|];
        }
      }
      assert head != [] && head[0].ok ==> forall k :: 0 <= k < |tail| ==> tail[k].url != head[0].url;
      SuccessNotRepeatedConcat(head, tail);
    }
  }

  /** After a successful extraction of a URL, no later extraction is of that URL. */
  predicate SuccessNotRepeated(log: seq<Extraction>)
  {
    forall i, j :: 0 <= i < j < |log| && log[i].url == log[j].url ==> !log[i].ok
  }

  lemma SuccessNotRepeatedConcat(head: seq<Extraction>, tail: seq<Extraction>)
    requires |head| <= 1
    requires SuccessNotRepeated(tail)
    requires head != [] && head[0].ok ==> forall k :: 0 <= k < |tail| ==> tail[k].url != head[0].url
    ensures SuccessNotRepeated(head + tail)
  {
    var log := head + tail;
    forall i, j | 0 <= i < j < |log| && log[i].url == log[j].url
      ensures !log[i].ok
    {
      assert log[j] == tail[j - |head|];
      if i >= |head| {
        assert log[i] == tail[i - |head|];
      }
    }
  }

  /**
   * Calls whose URLs are not jar URLs (or cannot be resolved) never touch the
   * registry, the disk or the extraction history.
   */
  lemma {:induction false} NonJarRunsLeaveWorld(w: World, events: seq<Event>, isJarUrl: Url -> bool)
    requires forall i :: 0 <= i < |events| ==>
               events[i].Get? && (events[i].adapter.delegate.url.Ok? ==> !isJarUrl(events[i].adapter.delegate.url.value))
    ensures Run(w, events, isJarUrl) == w
    decreases |events|
  {
    if events != [] {
      NonJarRunsLeaveWorld(Step(w, events[0], isJarUrl), events[1..], isJarUrl);
    }
  }
}
