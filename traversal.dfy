/** `process_sitemaps_iteratively`: a FIFO queue of sitemap URLs, a grow-only set of
    processed sitemaps and an accumulator of page URLs that is filtered, written and
    cleared whenever it holds more than 1000 URLs, and once more at the end.
    Fetching is abstract: `pageFetch` stands for the request `get_urls_from_source`
    makes (with browser headers) and `indexFetch` for the separate request
    `extract_sitemaps_from_index` makes (without them). The output file is the ghost
    sequence `output`, one element per written line. */
module Traversal {
  import opened Text
  import opened Collections
  import opened UrlFilter
  import opened Extract

  /** The accumulator size above which a flush happens. */
  const HighWaterMark := 1000

  /** The nested sitemaps reported for sitemap `u`. */
  function NestedOf(index: string -> Fetched<seq<string>>, u: string): seq<string> {
    ExtractSitemapsFromIndex(index(u))
  }

  /** The nested sitemaps that are enqueued: those not processed yet, in order, repeats kept. */
  function Unvisited(nested: seq<string>, done: set<string>): (r: seq<string>)
    ensures |r| <= |nested|
    ensures forall v :: v in r <==> v in nested && v !in done
  {
    Filter(v => v !in done, nested)
  }

  /** Enqueueing one more nested sitemap. */
  lemma UnvisitedSnoc(nested: seq<string>, done: set<string>, i: nat)
    requires i < |nested|
    ensures Unvisited(nested[..i + 1], done)
      == Unvisited(nested[..i], done) + (if nested[i] in done then [] else [nested[i]])
  {
    assert nested[..i + 1] == nested[..i] + [nested[i]];
    FilterConcat(v => v !in done, nested[..i], [nested[i]]);
  }

  /** Nothing written contains `?` or `javascript:void(0)`, because every written URL was
      reported for a processed sitemap. */
  lemma NothingQueried(pageFetch: string -> Fetched<PageMatches>, pages: string -> set<string>,
                       processed: set<string>, output: seq<string>)
    requires PagesFrom(pageFetch, pages)
    requires forall x :: x in output ==> exists u :: u in processed && x in pages(u)
    ensures forall x :: x in output ==> !Contains(x, "?") && !Contains(x, "javascript:void(0)")
  {
    forall x | x in output
      ensures !Contains(x, "?") && !Contains(x, "javascript:void(0)")
    {
      var u :| u in processed && x in pages(u);
      QueryNeverReported(u, pageFetch(u), x);
    }
  }

  /** `pages` maps each sitemap to the page URLs reported for it under `pageFetch`. */
  ghost predicate PagesFrom(pageFetch: string -> Fetched<PageMatches>, pages: string -> set<string>) {
    forall u {:trigger PageUrls(u, pageFetch(u))} :: pages(u) == PageUrls(u, pageFetch(u))
  }

  /** A map from each sitemap to the page URLs reported for it under a given page fetch. */
  lemma PagesUnder(pageFetch: string -> Fetched<PageMatches>) returns (pages: string -> set<string>)
    ensures PagesFrom(pageFetch, pages)
  {
    pages := u => PageUrls(u, pageFetch(u));
  }

  /** Every page URL reported for some sitemap of `log`. */
  ghost function PagesOf(pages: string -> set<string>, log: seq<string>): set<string> {
    UnionOver(pages, log)
  }

  /** The URLs of `s` that a flush writes. */
  ghost function KeptOf(domain: string, s: set<string>): set<string> {
    set x | x in s && Kept(domain, x)
  }

  /** `after` is `before` followed by one flush that wrote each URL of `batch` once. */
  ghost predicate Appended(before: seq<string>, after: seq<string>, batch: set<string>) {
    |before| <= |after| && after[..|before|] == before && Enumerates(after[|before|..], batch)
  }

  /** The accumulator and the output after the size test: more than `HighWaterMark`
      URLs are flushed and cleared, otherwise both stay as they are. */
  ghost predicate AfterSizeTest(domain: string, grown: set<string>, before: seq<string>, acc: set<string>, after: seq<string>) {
    if |grown| > HighWaterMark then acc == {} && Appended(before, after, KeptOf(domain, grown))
    else acc == grown && after == before
  }

  /** `S` contains every nested sitemap of each of its sitemaps. */
  ghost predicate ClosedUnder(index: string -> Fetched<seq<string>>, S: set<string>) {
    forall u, v :: u in S && v in NestedOf(index, u) ==> v in S
  }

  /** Each sitemap is handed to the extractors at most once (`log` has no repeats and
      holds exactly the processed ones), and the start is processed or still queued. */
  ghost predicate LogInv(start: string, queue: seq<string>, processed: set<string>, log: seq<string>) {
    && NoDup(log)
    && (forall u :: u in processed <==> u in log)
    && (start in processed || start in queue)
  }

  /** Whatever is processed or queued is reachable from the start: it lies in every set
      that contains the start and is closed under nested references. */
  ghost predicate ReachInv(index: string -> Fetched<seq<string>>, start: string, queue: seq<string>, processed: set<string>) {
    forall S :: start in S && ClosedUnder(index, S) ==>
      processed <= S && forall q :: q in queue ==> q in S
  }

  /** Every nested sitemap of a processed sitemap is processed or still queued. */
  ghost predicate FrontierInv(index: string -> Fetched<seq<string>>, queue: seq<string>, processed: set<string>) {
    forall u, v :: u in processed && v in NestedOf(index, u) ==> v in processed || v in queue
  }

  /** Everything accumulated or written was reported for a sitemap of `log`, and
      everything written passes both filters. */
  ghost predicate SoundInv(domain: string, pages: string -> set<string>, acc: set<string>,
                           output: seq<string>, log: seq<string>)
  {
    && acc <= PagesOf(pages, log)
    && forall x :: x in output ==> Kept(domain, x) && x in PagesOf(pages, log)
  }

  /** Every page URL of a processed sitemap that passes both filters is written or
      still accumulated. */
  ghost predicate CompleteInv(domain: string, pages: string -> set<string>, processed: set<string>,
                              acc: set<string>, output: seq<string>)
  {
    forall u, p :: u in processed && p in pages(u) && Kept(domain, p) ==> p in output || p in acc
  }

  /** Before the loop: only the start is queued, nothing is processed, accumulated or written. */
  lemma InitialInv(index: string -> Fetched<seq<string>>, start: string, domain: string, pages: string -> set<string>)
    ensures LogInv(start, [start], {}, [])
    ensures ReachInv(index, start, [start], {})
    ensures FrontierInv(index, [start], {})
    ensures SoundInv(domain, pages, {}, [], [])
    ensures CompleteInv(domain, pages, {}, {}, [])
  {
    assert PagesOf(pages, []) == {};
  }

  /** Skipping a dequeued sitemap that was processed keeps the log invariant. */
  lemma LogSkip(start: string, queue: seq<string>, processed: set<string>, log: seq<string>)
    requires LogInv(start, queue, processed, log)
    requires queue != [] && queue[0] in processed
    ensures LogInv(start, queue[1..], processed, log)
  {
    if start !in processed {
      assert start in queue && start != queue[0];
      assert start in queue[1..];
    }
  }

  /** Processing a dequeued sitemap that was not processed extends the log by it and
      keeps the log invariant, whatever is enqueued. */
  lemma LogStep(start: string, queue: seq<string>, processed: set<string>, log: seq<string>, added: seq<string>)
    requires LogInv(start, queue, processed, log)
    requires queue != [] && queue[0] !in processed
    ensures LogInv(start, queue[1..] + added, processed + {queue[0]}, log + [queue[0]])
  {
    var u := queue[0];
    assert u !in log;
    if start !in processed + {u} {
      assert start in queue && start != queue[0];
      assert start in queue[1..];
    }
  }

  /** Skipping a dequeued sitemap keeps everything processed or queued reachable. */
  lemma ReachSkip(index: string -> Fetched<seq<string>>, start: string, queue: seq<string>, processed: set<string>)
    requires ReachInv(index, start, queue, processed)
    requires queue != []
    ensures ReachInv(index, start, queue[1..], processed)
  {
    forall S | start in S && ClosedUnder(index, S) ensures forall q :: q in queue[1..] ==> q in S {
      forall q | q in queue[1..] ensures q in S {
        assert q in queue;
      }
    }
  }

  /** Processing a dequeued sitemap and enqueueing its unprocessed nested sitemaps keeps
      everything processed or queued reachable. */
  lemma ReachStep(index: string -> Fetched<seq<string>>, start: string, queue: seq<string>, processed: set<string>)
    requires ReachInv(index, start, queue, processed)
    requires queue != []
    ensures var u := queue[0];
      ReachInv(index, start, queue[1..] + Unvisited(NestedOf(index, u), processed + {u}), processed + {u})
  {
    var u := queue[0];
    var queue' := queue[1..] + Unvisited(NestedOf(index, u), processed + {u});
    forall S | start in S && ClosedUnder(index, S)
      ensures processed + {u} <= S && forall q :: q in queue' ==> q in S
    {
      assert u in S;
      forall q | q in queue' ensures q in S {
        if q in queue[1..] {
          assert q in queue;
        }
      }
    }
  }

  /** Skipping a dequeued sitemap that was processed keeps the frontier closed. */
  lemma FrontierSkip(index: string -> Fetched<seq<string>>, queue: seq<string>, processed: set<string>)
    requires FrontierInv(index, queue, processed)
    requires queue != [] && queue[0] in processed
    ensures FrontierInv(index, queue[1..], processed)
  {
    forall u, v | u in processed && v in NestedOf(index, u) && v !in processed ensures v in queue[1..] {
      assert v in queue && v != queue[0];
    }
  }

  /** Processing a dequeued sitemap and enqueueing its unprocessed nested sitemaps keeps
      the frontier closed. */
  lemma FrontierStep(index: string -> Fetched<seq<string>>, queue: seq<string>, processed: set<string>)
    requires FrontierInv(index, queue, processed)
    requires queue != []
    ensures var u := queue[0];
      FrontierInv(index, queue[1..] + Unvisited(NestedOf(index, u), processed + {u}), processed + {u})
  {
    var u := queue[0];
    var added := Unvisited(NestedOf(index, u), processed + {u});
    forall w, v | w in processed + {u} && v in NestedOf(index, w) && v !in processed + {u}
      ensures v in queue[1..] + added
    {
      if w == u {
        assert v in added;
      } else {
        assert v in queue && v != queue[0];
        assert v in queue[1..];
      }
    }
  }

  /** Accumulating the page URLs of a newly processed sitemap, then the size test, keep
      the output sound and complete and the accumulator bounded. */
  lemma OutputStep(domain: string, pages: string -> set<string>, processed: set<string>,
                   log: seq<string>, u: string, acc: set<string>, output: seq<string>,
                   acc': set<string>, output': seq<string>)
    requires SoundInv(domain, pages, acc, output, log)
    requires CompleteInv(domain, pages, processed, acc, output)
    requires AfterSizeTest(domain, acc + pages(u), output, acc', output')
    ensures |acc'| <= HighWaterMark
    ensures SoundInv(domain, pages, acc', output', log + [u])
    ensures CompleteInv(domain, pages, processed + {u}, acc', output')
  {
    var grown := acc + pages(u);
    UnionOverSnoc(pages, log, u);
    if |grown| > HighWaterMark {
      var n := |output|;
      var batch := output'[n..];
      assert output' == output + batch by {
        assert output'[..n] == output;
      }
      forall x | x in output' ensures Kept(domain, x) && x in PagesOf(pages, log + [u]) {
        if x !in output {
          assert x in batch;
          assert x in KeptOf(domain, grown);
        }
      }
      forall w, p | w in processed + {u} && p in pages(w) && Kept(domain, p) ensures p in output' {
        if p !in output {
          assert p in grown;
          assert p in KeptOf(domain, grown);
          assert p in batch;
        }
      }
    }
  }

  /** The final flush writes what is left, so nothing kept is left behind. */
  lemma FinalFlush(domain: string, pages: string -> set<string>, processed: set<string>,
                   acc: set<string>, output: seq<string>, output': seq<string>)
    requires CompleteInv(domain, pages, processed, acc, output)
    requires Appended(output, output', KeptOf(domain, acc))
    ensures forall u, p :: u in processed && p in pages(u) && Kept(domain, p) ==> p in output'
    ensures forall x :: x in output' ==> x in output || (x in acc && Kept(domain, x))
  {
    var batch := output'[|output|..];
    assert output' == output + batch by {
      assert output'[..|output|] == output;
    }
    forall u, p | u in processed && p in pages(u) && Kept(domain, p) ensures p in output' {
      if p !in output {
        assert p in KeptOf(domain, acc);
        assert p in batch;
      }
    }
    forall x | x in output' ensures x in output || (x in acc && Kept(domain, x)) {
      if x !in output {
        assert x in batch;
      }
    }
  }

  /** One iteration keeps the processed and queued sitemaps inside a closed set, and
      either processes a new sitemap of it or shortens the queue. */
  lemma StaysWithin(index: string -> Fetched<seq<string>>, universe: set<string>,
                    queue0: seq<string>, processed0: set<string>, queue: seq<string>, processed: set<string>)
    requires ClosedUnder(index, universe)
    requires processed0 <= universe && forall q :: q in queue0 ==> q in universe
    requires queue0 != []
    requires queue0[0] in processed0 ==> processed == processed0 && queue == queue0[1..]
    requires queue0[0] !in processed0 ==>
      processed == processed0 + {queue0[0]} && queue == queue0[1..] + Unvisited(NestedOf(index, queue0[0]), processed)
    ensures processed <= universe && forall q :: q in queue ==> q in universe
    ensures |universe - processed| < |universe - processed0|
      || (|universe - processed| == |universe - processed0| && |queue| < |queue0|)
  {
    var u := queue0[0];
    assert u in universe;
    if u !in processed0 {
      assert universe - processed0 == (universe - processed) + {u};
      forall q | q in queue ensures q in universe {
        if q !in queue0[1..] {
          assert q in NestedOf(index, u);
        } else {
          assert q in queue0;
        }
      }
    } else {
      forall q | q in queue ensures q in universe {
        assert q in queue0;
      }
    }
  }

  /** When the queue is empty, the processed sitemaps are the least closed set that
      contains the start, and everything written or accumulated was reported for one of them. */
  lemma Drained(index: string -> Fetched<seq<string>>, start: string, domain: string,
                pages: string -> set<string>, processed: set<string>, log: seq<string>,
                acc: set<string>, output: seq<string>)
    requires LogInv(start, [], processed, log)
    requires ReachInv(index, start, [], processed)
    requires FrontierInv(index, [], processed)
    requires SoundInv(domain, pages, acc, output, log)
    ensures start in processed && ClosedUnder(index, processed)
    ensures forall S :: start in S && ClosedUnder(index, S) ==> processed <= S
    ensures forall x :: x in output ==> exists u :: u in processed && x in pages(u)
    ensures forall x :: x in acc ==> exists u :: u in processed && x in pages(u)
  {
    forall x | x in PagesOf(pages, log) ensures exists u :: u in processed && x in pages(u) {
      UnionOverMembers(pages, log, x);
      var j :| 0 <= j < |log| && x in pages(log[j]);
      assert log[j] in processed;
    }
  }

  /** The state of `process_sitemaps_iteratively`. `fetched` (ghost) records the order in
      which sitemaps are handed to the extractors. */
  class Crawler {
    const start: string
    const pageFetch: string -> Fetched<PageMatches>
    const indexFetch: string -> Fetched<seq<string>>
    /** `get_domain(starting_sitemap)`, the domain every flush filters by. */
    const domain: string
    var queue: seq<string>
    var processed: set<string>
    var acc: set<string>
    ghost var output: seq<string>
    ghost var fetched: seq<string>

    /** The page URLs `get_urls_from_source` reports for each sitemap. */
    ghost const pages: string -> set<string>

    /** `pages` is the page extractor applied to the page fetch. */
    ghost predicate PagesAgree() {
      PagesFrom(pageFetch, pages)
    }

    ghost predicate Valid()
      reads this
    {
      && PagesAgree()
      && |acc| <= HighWaterMark
      && LogInv(start, queue, processed, fetched)
      && ReachInv(indexFetch, start, queue, processed)
      && FrontierInv(indexFetch, queue, processed)
      && SoundInv(domain, pages, acc, output, fetched)
      && CompleteInv(domain, pages, processed, acc, output)
    }

    /** The state before the loop: the queue holds the starting sitemap only. */
    constructor (start: string, pageFetch: string -> Fetched<PageMatches>, indexFetch: string -> Fetched<seq<string>>)
      ensures this.start == start && this.pageFetch == pageFetch && this.indexFetch == indexFetch
      ensures domain == GetDomain(start)
      ensures queue == [start] && processed == {} && acc == {}
      ensures output == [] && fetched == []
      ensures Valid()
    {
      this.start := start;
      this.pageFetch := pageFetch;
      this.indexFetch := indexFetch;
      this.domain := GetDomain(start);
      ghost var pages := PagesUnder(pageFetch);
      this.pages := pages;
      queue := [start];
      processed := {};
      acc := {};
      output := [];
      fetched := [];
      new;
      InitialInv(indexFetch, start, domain, pages);
    }

    /** A flush: both filters over the accumulator, in set iteration order, appended to
        the output. */
    method WriteFiltered()
      modifies this`output
      ensures Appended(old(output), output, KeptOf(domain, acc))
    {
      var all := Enumerate(acc);
      var filtered := FilterForOutput(domain, all);
      output := output + filtered;
      assert output[..|old(output)|] == old(output) && output[|old(output)|..] == filtered;
    }

    /** The loop over the nested sitemaps: each one not processed yet is enqueued, in order. */
    method EnqueueUnprocessed(nested: seq<string>)
      modifies this`queue
      ensures queue == old(queue) + Unvisited(nested, processed)
    {
      for i := 0 to |nested|
        invariant queue == old(queue) + Unvisited(nested[..i], processed)
      {
        UnvisitedSnoc(nested, processed, i);
        if nested[i] !in processed {
          queue := queue + [nested[i]];
        }
      }
      assert nested[..|nested|] == nested;
    }

    /** `all_urls.update(get_urls_from_source(current, session))`. */
    method AccumulatePages(current: string)
      requires PagesAgree()
      modifies this`acc
      ensures acc == old(acc) + pages(current)
    {
      var urls := GetUrlsFromSource(current, pageFetch(current));
      var batch := set x | x in urls;
      assert batch == pages(current) by {
        EnumeratedSet(urls, PageUrls(current, pageFetch(current)));
      }
      acc := acc + batch;
    }

    /** One iteration of the loop: dequeue a sitemap; skip it if it was processed;
        otherwise mark it processed, accumulate its page URLs, enqueue its unprocessed
        nested sitemaps and flush when the accumulator holds more than `HighWaterMark`. */
    method ProcessNext()
      requires Valid() && queue != []
      modifies this
      ensures Valid()
      ensures old(queue[0]) in old(processed) ==>
        && queue == old(queue[1..]) && processed == old(processed) && fetched == old(fetched)
        && acc == old(acc) && output == old(output)
      ensures old(queue[0]) !in old(processed) ==>
        var u := old(queue[0]);
        && processed == old(processed) + {u}
        && fetched == old(fetched) + [u]
        && queue == old(queue[1..]) + Unvisited(NestedOf(indexFetch, u), processed)
        && AfterSizeTest(domain, old(acc) + pages(u), old(output), acc, output)
    {
      var current := queue[0];
      ghost var queue0, processed0, log0, acc0, output0 := queue, processed, fetched, acc, output;
      queue := queue[1..];
      if current in processed {
        LogSkip(start, queue0, processed0, log0);
        ReachSkip(indexFetch, start, queue0, processed0);
        FrontierSkip(indexFetch, queue0, processed0);
        return;
      }
      ReachStep(indexFetch, start, queue0, processed0);
      FrontierStep(indexFetch, queue0, processed0);
      processed := processed + {current};
      fetched := fetched + [current];
      AccumulatePages(current);
      var nested := ExtractSitemapsFromIndex(indexFetch(current));
      EnqueueUnprocessed(nested);
      LogStep(start, queue0, processed0, log0, Unvisited(nested, processed));
      if |acc| > HighWaterMark {
        WriteFiltered();
        acc := {};
      }
      OutputStep(domain, pages, processed0, log0, current, acc0, output0, acc, output);
    }

    /** The loop. It terminates when every sitemap it can reach lies in a finite set
        closed under nested references. */
    method Drain(ghost universe: set<string>)
      requires Valid()
      requires processed <= universe && forall q :: q in queue ==> q in universe
      requires ClosedUnder(indexFetch, universe)
      modifies this
      ensures Valid() && queue == []
      ensures old(output) <= output
    {
      while queue != []
        invariant Valid()
        invariant processed <= universe && forall q :: q in queue ==> q in universe
        invariant old(output) <= output
        decreases |universe - processed|, |queue|
      {
        ghost var queue0, processed0, output0 := queue, processed, output;
        ProcessNext();
        StaysWithin(indexFetch, universe, queue0, processed0, queue, processed);
        assert output0 <= output;
      }
    }

    /** `process_sitemaps_iteratively` from its initial state: the loop, then the final
        flush. On exit, the processed sitemaps are exactly those reachable from the start,
        none was handed to the extractors twice, and the output holds every page URL of a
        processed sitemap that passes both filters, and nothing else. */
    method Run(ghost universe: set<string>)
      requires Valid()
      requires processed <= universe && forall q :: q in queue ==> q in universe
      requires ClosedUnder(indexFetch, universe)
      modifies this
      ensures queue == []
      ensures start in processed && ClosedUnder(indexFetch, processed)
      ensures forall S :: start in S && ClosedUnder(indexFetch, S) ==> processed <= S
      ensures NoDup(fetched) && forall u :: u in processed <==> u in fetched
      ensures old(output) <= output
      ensures forall x :: x in output ==> Kept(domain, x) && exists u :: u in processed && x in pages(u)
      ensures forall u, p :: u in processed && p in pages(u) && Kept(domain, p) ==> p in output
      ensures forall x :: x in output ==> !Contains(x, "?") && !Contains(x, "javascript:void(0)")
    {
      Drain(universe);
      Drained(indexFetch, start, domain, pages, processed, fetched, acc, output);
      ghost var output0 := output;
      if acc != {} {
        WriteFiltered();
        FinalFlush(domain, pages, processed, acc, output0, output);
      }
      NothingQueried(pageFetch, pages, processed, output);
    }
  }
}
