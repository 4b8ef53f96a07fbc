// old.py: the multi-threaded crawler over the syllabus pages. What is modelled
// is its sequential data path: department codes from the option values, the
// URL queue and pool size, and the per-page row parsing into all_data. The
// index built from all_data is in module Occupancy.

module Crawler {
  import opened Strings
  import opened Schedule

  // ---------------------------------------------------------------------------
  // split_in_n and the department codes

  /** The concatenation of a list of strings. */
  function Concat(ss: seq<string>): string
  {
    if ss == [] then [] else ss[0] + Concat(ss[1..])
  }

  /** split_in_n: consecutive slices of length n, the last one possibly shorter. */
  function SplitInN(x: string, n: nat): (r: seq<string>)
    requires n > 0
    ensures forall k :: 0 <= k < |r| ==> 0 < |r[k]| <= n
    decreases |x|
  {
    if x == [] then [] else if |x| <= n then [x] else [x[..n]] + SplitInN(x[n..], n)
  }

  /** The chunks concatenate back to the input. */
  lemma {:induction false} SplitInNConcat(x: string, n: nat)
    requires n > 0
    ensures Concat(SplitInN(x, n)) == x
    decreases |x|
  {
    if x != [] && |x| > n {
      SplitInNConcat(x[n..], n);
      assert x[..n] + x[n..] == x;
    } else if x != [] {
      assert x + [] == x;
    }
  }

  /** Every chunk but the last has length exactly n. */
  lemma {:induction false} SplitInNFull(x: string, n: nat)
    requires n > 0
    ensures forall k :: 0 <= k < |SplitInN(x, n)| - 1 ==> |SplitInN(x, n)[k]| == n
    decreases |x|
  {
    if x != [] && |x| > n {
      SplitInNFull(x[n..], n);
      var r := SplitInN(x, n);
      assert r[1..] == SplitInN(x[n..], n);
    }
  }

  /** The chunks of one option value that have length 4. */
  function KeepFull(chunks: seq<string>): (r: seq<string>)
    ensures forall k :: 0 <= k < |r| ==> |r[k]| == 4
  {
    if chunks == [] then []
    else (if |chunks[0]| == 4 then [chunks[0]] else []) + KeepFull(chunks[1..])
  }

  /** `[d for d in split_in_n(value, 4) if len(d) == 4]` */
  function FullChunks(value: string): (r: seq<string>)
    ensures forall k :: 0 <= k < |r| ==> |r[k]| == 4
  {
    KeepFull(SplitInN(value, 4))
  }

  lemma FullChunksUnfold(value: string)
    ensures FullChunks(value) == if |value| >= 4 then [value[..4]] + FullChunks(value[4..]) else []
  {
    if |value| == 4 {
      assert value[4..] == [];
      assert value[..4] == value;
      assert SplitInN(value, 4) == [value];
    } else if |value| > 4 {
      var rest := SplitInN(value[4..], 4);
      var chunks := [value[..4]] + rest;
      assert SplitInN(value, 4) == chunks;
      assert chunks[0] == value[..4] && |chunks[0]| == 4 && chunks[1..] == rest;
      assert KeepFull(chunks) == [value[..4]] + KeepFull(rest);
    } else {
      assert KeepFull(SplitInN(value, 4)) == [];
    }
  }

  /** The full chunks are the value cut short by its length modulo 4: the trailing 1 to 3 characters are lost. */
  lemma {:induction false} FullChunksPrefix(value: string)
    ensures Concat(FullChunks(value)) == value[..|value| - |value| % 4]
    decreases |value|
  {
    FullChunksUnfold(value);
    if |value| >= 4 {
      FullChunksPrefix(value[4..]);
      var rest := value[4..];
      assert |rest| % 4 == |value| % 4;
      assert value[..4] + rest[..|rest| - |rest| % 4] == value[..|value| - |value| % 4];
    }
  }

  /** The codes one option value contributes: none when the value is empty (falsy). */
  function OptionChunks(value: string): seq<string>
  {
    if value != "" then FullChunks(value) else []
  }

  /** The emptiness test changes nothing: an empty value has no full chunks anyway. */
  lemma OptionChunksFull(value: string)
    ensures OptionChunks(value) == FullChunks(value)
  {
    if value == "" {
      assert SplitInN(value, 4) == [];
    }
  }

  /** deps before deduplication: the full chunks of every truthy option value, in order. */
  function AllChunks(options: seq<string>): seq<string>
  {
    if options == [] then [] else AllChunks(options[..|options| - 1]) + OptionChunks(options[|options| - 1])
  }

  /** Every collected code is a full chunk of some option value... */
  lemma {:induction false} AllChunksSource(options: seq<string>, d: string) returns (i: nat)
    requires d in AllChunks(options)
    ensures i < |options| && d in FullChunks(options[i])
  {
    var n := |options| - 1;
    var init := options[..n];
    assert AllChunks(options) == AllChunks(init) + OptionChunks(options[n]);
    if d in AllChunks(init) {
      i := AllChunksSource(init, d);
      assert init[i] == options[i];
    } else {
      OptionChunksFull(options[n]);
      i := n;
    }
  }

  /** ...and every full chunk of every option value is collected. */
  lemma {:induction false} AllChunksHas(options: seq<string>, i: nat, d: string)
    requires i < |options| && d in FullChunks(options[i])
    ensures d in AllChunks(options)
  {
    var n := |options| - 1;
    var init := options[..n];
    var rest := AllChunks(init);
    var tail := OptionChunks(options[n]);
    assert AllChunks(options) == rest + tail;
    if i < n {
      assert init[i] == options[i];
      AllChunksHas(init, i, d);
    } else {
      OptionChunksFull(options[n]);
    }
  }

  /** Every collected code has four characters. */
  lemma {:induction false} AllChunksLength(options: seq<string>)
    ensures forall d :: d in AllChunks(options) ==> |d| == 4
  {
    if options != [] {
      AllChunksLength(options[..|options| - 1]);
    }
  }

  /**
   * get_deps after the page is fetched: the codes of the option values, each
   * once, in the arbitrary order of `list(set(deps))`.
   */
  method GetDeps(options: seq<string>) returns (deps: seq<string>)
    ensures Distinct(deps)
    ensures forall d :: d in deps <==> d in AllChunks(options)
  {
    var found: seq<string> := [];
    for i := 0 to |options|
      invariant found == AllChunks(options[..i])
    {
      var value := options[i];
      if value != "" {
        found := found + FullChunks(value);
      }
      assert options[..i + 1][..i] == options[..i];
    }
    assert options[..|options|] == options;
    var pending := set d | d in found;
    deps := [];
    while pending != {}
      invariant Distinct(deps)
      invariant forall d :: d in deps <==> d in found && d !in pending
      invariant forall d :: d in pending ==> d in found
      decreases pending
    {
      var d :| d in pending;
      deps := deps + [d];
      pending := pending - {d};
    }
  }

  // ---------------------------------------------------------------------------
  // Pool size

  /** MAX_THREADS */
  const MaxThreads: nat := 32

  /**
   * `MAX_THREADS - int((MAX_THREADS - 1) * cached_pct)` with the cached
   * fraction given exactly as hits out of total.
   */
  function PoolSize(hits: nat, total: nat): (r: int)
    requires 0 < total && hits <= total
    ensures 1 <= r <= MaxThreads
  {
    MulLeft(hits, total, MaxThreads - 1);
    DivUpperBound((MaxThreads - 1) * hits, MaxThreads - 1, total);
    MaxThreads - ((MaxThreads - 1) * hits) / total
  }

  /** Between one and MAX_THREADS workers; all of them when nothing is cached, one when everything is. */
  lemma PoolSizeBounds(hits: nat, total: nat)
    requires 0 < total && hits <= total
    ensures 1 <= PoolSize(hits, total) <= MaxThreads
    ensures hits == 0 ==> PoolSize(hits, total) == MaxThreads
    ensures hits == total ==> PoolSize(hits, total) == 1
  {
    MulLeft(hits, total, 31);
    DivUpperBound(31 * hits, 31, total);
    if hits == total {
      DivLowerBound(31, total, 31 * hits);
    }
  }

  lemma MulLeft(a: nat, b: nat, c: nat)
    requires a <= b
    ensures a * c <= b * c
  {
  }

  lemma DivLowerBound(q: nat, d: nat, x: nat)
    requires 0 < d && q * d <= x
    ensures q <= x / d
  {
    if q > x / d {
      MulLeft(x / d + 1, q, d);
    }
  }

  lemma DivUpperBound(x: nat, c: nat, d: nat)
    requires 0 < d && x <= c * d
    ensures x / d <= c
  {
    if x / d > c {
      MulLeft(c + 1, x / d, d);
    }
  }

  lemma FloorBelow(x: nat, b: nat)
    requires 0 < b
    ensures (x / b) * b <= x
  {
  }

  lemma CancelRight(x: nat, y: nat, b: nat)
    requires 0 < b && x * b <= y * b
    ensures x <= y
  {
    if x > y {
      MulLeft(y + 1, x, b);
    }
  }

  lemma CrossMultiply(q: nat, b: nat, d: nat, m: nat, a: nat, c: nat)
    requires q * b <= m * a && a * d <= c * b
    ensures (q * d) * b <= (m * c) * b
  {
    calc {
      (q * d) * b;
      == (q * b) * d;
      <= { MulLeft(q * b, m * a, d); }
      (m * a) * d;
      == (a * d) * m;
      <= { MulLeft(a * d, c * b, m); }
      (c * b) * m;
      == (m * c) * b;
    }
  }

  /** A floor quotient only grows with a larger fraction: a/b <= c/d gives floor(m*a/b) <= floor(m*c/d). */
  lemma FloorMonotone(m: nat, a: nat, b: nat, c: nat, d: nat)
    requires 0 < b && 0 < d && a * d <= c * b
    ensures (m * a) / b <= (m * c) / d
  {
    var q := (m * a) / b;
    FloorBelow(m * a, b);
    CrossMultiply(q, b, d, m, a, c);
    CancelRight(q * d, m * c, b);
    DivLowerBound(q, d, m * c);
  }

  /** More of the URLs cached never means more workers. */
  lemma PoolSizeMonotone(h1: nat, t1: nat, h2: nat, t2: nat)
    requires 0 < t1 && h1 <= t1 && 0 < t2 && h2 <= t2
    requires h1 * t2 <= h2 * t1
    ensures PoolSize(h2, t2) <= PoolSize(h1, t1)
  {
    FloorMonotone(MaxThreads - 1, h1, t1, h2, t2);
  }

  // ---------------------------------------------------------------------------
  // URLs

  const SyllabusPrefix: string := "http://www2.tau.ac.il/yedion/syllabus/?deployment=10&dep="

  /** The department code read back from a syllabus URL. */
  function DepOfUrl(url: string): string
  {
    if |url| >= |SyllabusPrefix| then url[|SyllabusPrefix|..] else url
  }

  /**
   * gen_urls: one syllabus URL per department code, in order. Each URL is the
   * syllabus address with its code as the final parameter, and gives that code
   * back, so distinct codes give distinct URLs.
   */
  function Urls(deps: seq<string>): (r: seq<string>)
    ensures |r| == |deps|
    ensures forall k :: 0 <= k < |r| ==> |r[k]| >= |SyllabusPrefix| && r[k][..|SyllabusPrefix|] == SyllabusPrefix
    ensures forall k :: 0 <= k < |r| ==> DepOfUrl(r[k]) == deps[k]
    ensures Distinct(deps) ==> Distinct(r)
  {
    var r := seq(|deps|, k requires 0 <= k < |deps| => SyllabusPrefix + deps[k]);
    forall k | 0 <= k < |r|
      ensures r[k][..|SyllabusPrefix|] == SyllabusPrefix && DepOfUrl(r[k]) == deps[k]
    {
      assert (SyllabusPrefix + deps[k])[|SyllabusPrefix|..] == deps[k];
    }
    r
  }

  /**
   * The records parsed from the pages of some URLs, one page after another;
   * every one names a building and a room and has an accepted span.
   */
  function Harvest(urls: seq<string>, pageOf: string -> seq<seq<string>>): (r: seq<Record>)
    ensures forall k :: 0 <= k < |r| ==> WellFormed(r[k])
  {
    if urls == [] then []
    else
      var page := pageOf(urls[|urls| - 1]);
      ParsePageWellFormed(page, OldLayout);
      Harvest(urls[..|urls| - 1], pageOf) + ParsePage(page, OldLayout)
  }

  /** The records of several pages, one page's records after another. */
  function Joined(recs: seq<seq<Record>>): seq<Record>
  {
    if recs == [] then [] else Joined(recs[..|recs| - 1]) + recs[|recs| - 1]
  }

  lemma JoinedSnoc(recs: seq<seq<Record>>, page: seq<Record>)
    ensures Joined(recs + [page]) == Joined(recs) + page
  {
    assert (recs + [page])[..|recs|] == recs;
  }

  /** Harvest is the join of the pages' records, however they were collected. */
  lemma {:induction false} HarvestJoined(urls: seq<string>, recs: seq<seq<Record>>, pageOf: string -> seq<seq<string>>)
    requires |recs| == |urls|
    requires forall k :: 0 <= k < |urls| ==> recs[k] == Reader(pageOf)(urls[k])
    ensures Joined(recs) == Harvest(urls, pageOf)
  {
    if urls != [] {
      var n := |urls| - 1;
      HarvestJoined(urls[..n], recs[..n], pageOf);
    }
  }

  /** What reading one URL contributes: the records of its page, with the old.py column layout. */
  function Reader(pageOf: string -> seq<seq<string>>): string -> seq<Record>
  {
    url => ParsePage(pageOf(url), OldLayout)
  }

  /**
   * Progress of task's loop over the URLs q0: those before `queue` have been
   * read, recs holds what each contributed, and that follows d0 in `data`.
   */
  ghost predicate Progress(q0: seq<string>, recs: seq<seq<Record>>, r0: nat, d0: seq<Record>,
                           recordsOf: string -> seq<Record>, queue: seq<string>, readCount: nat, data: seq<Record>)
  {
    && |recs| <= |q0| && queue == q0[|recs|..] && readCount == r0 + |recs|
    && (forall k :: 0 <= k < |recs| ==> recs[k] == recordsOf(q0[k]))
    && data == d0 + Joined(recs)
  }

  /** Reading the head of the queue and appending what it contributes keeps Progress. */
  lemma ProgressStep(q0: seq<string>, recs: seq<seq<Record>>, r0: nat, d0: seq<Record>,
                     recordsOf: string -> seq<Record>, queue: seq<string>, readCount: nat, data: seq<Record>,
                     page: seq<Record>)
    requires queue != [] && Progress(q0, recs, r0, d0, recordsOf, queue, readCount, data)
    requires page == recordsOf(queue[0])
    ensures Progress(q0, recs + [page], r0, d0, recordsOf, queue[1..], readCount + 1, data + page)
  {
    var recs' := recs + [page];
    JoinedSnoc(recs, page);
    assert (d0 + Joined(recs)) + page == d0 + (Joined(recs) + page);
    assert q0[|recs|] == queue[0];
    assert q0[|recs'|..] == queue[1..];
    assert forall k :: 0 <= k < |recs| ==> recs'[k] == recs[k];
    assert recs'[|recs|] == page;
  }

  // ---------------------------------------------------------------------------
  // Gilman

  /** The crawler object: the queue of URLs to read, the counters and the records read so far. */
  class Gilman {
    var allData: seq<Record>
    var queue: seq<string>
    var urlCount: nat
    var readCount: nat
    /** cached_pct, as the number of cached URLs out of all of them. */
    var cachedHits: nat
    var cachedTotal: nat
    var concurrent: int

    constructor ()
      ensures allData == [] && queue == [] && urlCount == 0 && readCount == 0
    {
      allData := [];
      queue := [];
      urlCount := 0;
      readCount := 0;
      cachedHits := 0;
      cachedTotal := 0;
      concurrent := 0;
    }

    /**
     * init: every URL goes on the queue, in generation order, before the pool
     * size is worked out; url_count is the number of departments before the
     * first URL is produced.
     */
    method Init(options: seq<string>, hits: nat, total: nat) returns (ghost deps: seq<string>)
      requires 0 < total && hits <= total
      modifies this
      ensures Distinct(deps) && forall d :: d in deps <==> d in AllChunks(options)
      ensures urlCount == |deps|
      ensures queue == old(queue) + Urls(deps)
      ensures cachedHits == hits && cachedTotal == total && concurrent == PoolSize(hits, total)
      ensures allData == old(allData) && readCount == old(readCount)
    {
      var ds := GetDeps(options);
      urlCount := |ds|;
      for k := 0 to |ds|
        invariant queue == old(queue) + Urls(ds[..k])
        invariant urlCount == |ds|
        invariant allData == old(allData) && readCount == old(readCount)
      {
        var url := SyllabusPrefix + ds[k];
        queue := queue + [url];
      }
      assert ds[..|ds|] == ds;
      cachedHits, cachedTotal := hits, total;
      concurrent := PoolSize(hits, total);
      deps := ds;
    }

    /** update_data */
    method UpdateData(data: seq<Record>)
      modifies this
      ensures allData == old(allData) + data
      ensures queue == old(queue) && urlCount == old(urlCount) && readCount == old(readCount)
      ensures cachedHits == old(cachedHits) && cachedTotal == old(cachedTotal) && concurrent == old(concurrent)
    {
      allData := allData + data;
    }

    /** parse: the records of one syllabus page, with the old.py column layout, appended to all_data. */
    method Parse(page: seq<seq<string>>)
      modifies this
      ensures allData == old(allData) + ParsePage(page, OldLayout)
      ensures queue == old(queue) && urlCount == old(urlCount) && readCount == old(readCount)
      ensures cachedHits == old(cachedHits) && cachedTotal == old(cachedTotal) && concurrent == old(concurrent)
    {
      var data := ParseRows(page, OldLayout);
      UpdateData(data);
    }

    /** Progress of task's loop, as a condition on the crawler's fields (see Progress). */
    ghost predicate Drained(q0: seq<string>, recs: seq<seq<Record>>, r0: nat, d0: seq<Record>,
                            pageOf: string -> seq<seq<string>>)
      reads this
    {
      Progress(q0, recs, r0, d0, Reader(pageOf), queue, readCount, allData)
    }

    /** One turn of task's loop: pop the next URL, parse its page, count it as read. */
    method ReadNext(pageOf: string -> seq<seq<string>>, ghost q0: seq<string>, ghost recs: seq<seq<Record>>,
                    ghost r0: nat, ghost d0: seq<Record>)
      returns (ghost recs': seq<seq<Record>>)
      requires queue != [] && Drained(q0, recs, r0, d0, pageOf)
      modifies this
      ensures Drained(q0, recs', r0, d0, pageOf)
      ensures queue == old(queue)[1..]
      ensures urlCount == old(urlCount) && concurrent == old(concurrent)
      ensures cachedHits == old(cachedHits) && cachedTotal == old(cachedTotal)
    {
      ghost var q, rc, data := queue, readCount, allData;
      var url := queue[0];
      queue := queue[1..];
      var response := pageOf(url);
      Parse(response);
      readCount := readCount + 1;
      ghost var page := ParsePage(response, OldLayout);
      ProgressStep(q0, recs, r0, d0, Reader(pageOf), q, rc, data, page);
      recs' := recs + [page];
    }

    /**
     * task, run by a single worker: take URLs off the queue until it is empty,
     * parse each page and count it as read. `pageOf` stands for fetching the URL.
     */
    method Task(pageOf: string -> seq<seq<string>>)
      modifies this
      ensures queue == []
      ensures readCount == old(readCount) + |old(queue)|
      ensures allData == old(allData) + Harvest(old(queue), pageOf)
      ensures urlCount == old(urlCount) && concurrent == old(concurrent)
      ensures cachedHits == old(cachedHits) && cachedTotal == old(cachedTotal)
    {
      ghost var q0, r0, d0 := queue, readCount, allData;
      ghost var recs: seq<seq<Record>> := [];
      assert d0 + [] == d0;
      while queue != []
        invariant Drained(q0, recs, r0, d0, pageOf)
        invariant urlCount == old(urlCount) && concurrent == old(concurrent)
        invariant cachedHits == old(cachedHits) && cachedTotal == old(cachedTotal)
        decreases |queue|
      {
        recs := ReadNext(pageOf, q0, recs, r0, d0);
      }
      HarvestJoined(q0, recs, pageOf);
    }

    /**
     * run with one worker on a fresh crawler: after init and the drain,
     * read_count has reached url_count, which is when join stops waiting, and
     * all_data holds the records of every department's page in queue order,
     * the queue is empty and the pool size is the one init worked out.
     */
    method Run(options: seq<string>, hits: nat, total: nat, pageOf: string -> seq<seq<string>>)
      returns (ghost deps: seq<string>)
      requires 0 < total && hits <= total
      requires queue == [] && readCount == 0
      modifies this
      ensures Distinct(deps) && forall d :: d in deps <==> d in AllChunks(options)
      ensures readCount == urlCount == |deps|
      ensures allData == old(allData) + Harvest(Urls(deps), pageOf)
      ensures queue == [] && cachedHits == hits && cachedTotal == total
      ensures concurrent == PoolSize(hits, total) && 1 <= concurrent <= MaxThreads
    {
      deps := Init(options, hits, total);
      assert queue == Urls(deps) by {
        assert [] + Urls(deps) == Urls(deps);
      }
      ghost var urls := queue;
      ghost var data := allData;
      PoolSizeBounds(hits, total);
      Task(pageOf);
      assert allData == data + Harvest(urls, pageOf);
    }
  }
}
