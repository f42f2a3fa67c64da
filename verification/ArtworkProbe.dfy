/** The browser artwork probe: what a report counts, and which observations it counts. */
module ArtworkProbe {
  import opened Strings
  import opened Wrappers

  /** An image element; the URL is empty where it has none. */
  datatype Image = Image(url: string)

  /** A resource timing entry; a value is None where the browser reports none, or nothing that reads as a
      number. */
  datatype Entry = Entry(
    name: string, initiator: string, status: Option<nat>,
    transferSize: Option<nat>, encodedBodySize: Option<nat>, decodedBodySize: Option<nat>)

  datatype Metrics = Metrics(
    imageElements: nat,
    uniqueImageUrls: nat,
    duplicateImageElements: nat,
    resourceRequests: nat,
    repeatedResourceRequests: nat,
    transferBytes: nat,
    encodedBytes: nat,
    decodedBytes: nat,
    zeroTransferEntries: nat,
    responseStatusCounts: map<string, nat>,
    mutations: nat,
    longTasks: nat,
    longTaskMs: real)

  // ------------------------------------------------------------------- counting

  function Occurrences(items: seq<string>, x: string): nat {
    if items == [] then 0 else (if items[|items| - 1] == x then 1 else 0) + Occurrences(items[..|items| - 1], x)
  }

  /** A map that counts a sequence: exactly its elements, each with its number of occurrences. */
  ghost predicate Counts(counts: map<string, nat>, items: seq<string>) {
    forall x :: (x in counts <==> x in items) && (x in counts ==> counts[x] == Occurrences(items, x))
  }

  lemma {:induction false} NoOccurrence(items: seq<string>, x: string)
    ensures x !in items ==> Occurrences(items, x) == 0
  {
    if items != [] { NoOccurrence(items[..|items| - 1], x); }
  }

  /** `counts.set(x, (counts.get(x) || 0) + 1)`. */
  function Counted(counts: map<string, nat>, x: string): map<string, nat> {
    counts[x := (if x in counts then counts[x] else 0) + 1]
  }

  lemma CountsMore(counts: map<string, nat>, items: seq<string>, x: string)
    requires Counts(counts, items)
    ensures Counts(Counted(counts, x), items + [x])
  {
    assert (items + [x])[..|items|] == items;
    NoOccurrence(items, x);
  }

  method CountAll(items: seq<string>) returns (counts: map<string, nat>)
    ensures Counts(counts, items)
  {
    counts := map[];
    for i := 0 to |items|
      invariant Counts(counts, items[..i])
    {
      assert items[..i + 1] == items[..i] + [items[i]];
      CountsMore(counts, items[..i], items[i]);
      counts := Counted(counts, items[i]);
    }
    assert items[..|items|] == items;
  }

  /** The sum of `f` over the counts of these keys. */
  ghost function Sum(counts: map<string, nat>, keys: set<string>, f: nat -> nat): nat
    requires keys <= counts.Keys
  {
    if keys == {} then 0
    else
      var x :| x in keys;
      f(counts[x]) + Sum(counts, keys - {x}, f)
  }

  lemma {:induction false} SumTakesOut(counts: map<string, nat>, keys: set<string>, f: nat -> nat, x: string)
    requires keys <= counts.Keys && x in keys
    ensures Sum(counts, keys, f) == f(counts[x]) + Sum(counts, keys - {x}, f)
    decreases keys
  {
    var y :| y in keys && Sum(counts, keys, f) == f(counts[y]) + Sum(counts, keys - {y}, f);
    if y != x {
      SumTakesOut(counts, keys - {y}, f, x);
      SumTakesOut(counts, keys - {x}, f, y);
      assert keys - {y} - {x} == keys - {x} - {y};
    }
  }

  lemma {:induction false} SumSame(a: map<string, nat>, b: map<string, nat>, keys: set<string>, f: nat -> nat)
    requires keys <= a.Keys && keys <= b.Keys && forall x :: x in keys ==> a[x] == b[x]
    ensures Sum(a, keys, f) == Sum(b, keys, f)
    decreases keys
  {
    if keys != {} {
      var x :| x in keys;
      SumTakesOut(a, keys, f, x);
      SumTakesOut(b, keys, f, x);
      SumSame(a, b, keys - {x}, f);
    }
  }

  const WHOLE: nat -> nat := n => n
  const SURPLUS: nat -> nat := n => if n == 0 then 0 else n - 1

  /** What one more element adds to the two sums. */
  lemma {:induction false} SumMore(counts: map<string, nat>, x: string)
    requires forall y :: y in counts ==> counts[y] > 0
    ensures var more := Counted(counts, x);
            && Sum(more, more.Keys, WHOLE) == Sum(counts, counts.Keys, WHOLE) + 1
            && Sum(more, more.Keys, SURPLUS) == Sum(counts, counts.Keys, SURPLUS) + (if x in counts then 1 else 0)
  {
    var more := Counted(counts, x);
    var others := counts.Keys - {x};
    assert more.Keys - {x} == others;
    SumTakesOut(more, more.Keys, WHOLE, x);
    SumTakesOut(more, more.Keys, SURPLUS, x);
    SumSame(counts, more, others, WHOLE);
    SumSame(counts, more, others, SURPLUS);
    if x in counts {
      SumTakesOut(counts, counts.Keys, WHOLE, x);
      SumTakesOut(counts, counts.Keys, SURPLUS, x);
    } else {
      assert others == counts.Keys;
    }
  }

  lemma {:induction false} CountsAreUnique(a: map<string, nat>, b: map<string, nat>, items: seq<string>)
    requires Counts(a, items) && Counts(b, items)
    ensures a == b
  {
    assert forall x :: x in a <==> x in b;
  }

  function Tally(items: seq<string>): map<string, nat> {
    if items == [] then map[] else Counted(Tally(items[..|items| - 1]), items[|items| - 1])
  }

  lemma {:induction false} NothingToSum(counts: map<string, nat>, f: nat -> nat)
    requires counts == map[]
    ensures Sum(counts, counts.Keys, f) == 0
  {}

  /** Counting loses nothing: the counts sum to the length, and every element is either the first of its
      kind or a duplicate. */
  lemma {:induction false} TallyAddsUp(items: seq<string>)
    ensures var counts := Tally(items);
            && Counts(counts, items)
            && (forall x :: x in counts ==> counts[x] > 0)
            && Sum(counts, counts.Keys, WHOLE) == |items|
            && |counts| + Sum(counts, counts.Keys, SURPLUS) == |items|
    decreases |items|
  {
    hide Occurrences, Sum;
    if items == [] {
      NothingToSum(map[], WHOLE);
      NothingToSum(map[], SURPLUS);
    } else {
      var (front, x) := (items[..|items| - 1], items[|items| - 1]);
      TallyAddsUp(front);
      CountsMore(Tally(front), front, x);
      assert front + [x] == items;
      SumMore(Tally(front), x);
    }
  }

  /** The same of any map that counts them, in terms of the distinct elements. */
  lemma {:induction false} CountsAddUp(counts: map<string, nat>, items: seq<string>)
    requires Counts(counts, items)
    ensures counts == Tally(items) && counts.Keys == set x | x in items
    ensures Sum(counts, counts.Keys, WHOLE) == |items|
    ensures |counts| + Sum(counts, counts.Keys, SURPLUS) == |items|
  {
    TallyAddsUp(items);
    CountsAreUnique(counts, Tally(items), items);
  }

  lemma DistinctAreFewer(items: seq<string>)
    ensures |set x | x in items| <= |items|
  {
    TallyAddsUp(items);
    CountsAddUp(Tally(items), items);
  }

  // ------------------------------------------------------------------- the metrics

  function Urls(images: seq<Image>): seq<string> {
    if images == [] then []
    else
      var url := images[|images| - 1].url;
      Urls(images[..|images| - 1]) + if url == "" then [] else [url]
  }

  /** What counts as an image request: the browser says so, or an image on the page shows it. */
  predicate IsResource(entry: Entry, urls: map<string, nat>) {
    entry.initiator == "img" || entry.name in urls
  }

  function Resources(entries: seq<Entry>, urls: map<string, nat>): seq<Entry> {
    if entries == [] then []
    else
      var last := entries[|entries| - 1];
      Resources(entries[..|entries| - 1], urls) + if IsResource(last, urls) then [last] else []
  }

  /** `String(entry.responseStatus || 'unavailable')`: an absent status and a zero read alike. */
  function StatusOf(entry: Entry): string {
    if entry.status == None || entry.status == Some(0) then "unavailable" else Decimal(entry.status.value)
  }

  /** How a status is counted: under `unavailable` where it is absent or zero, otherwise under its digits. */
  ghost predicate StatusReads(entry: Entry, text: string) {
    if entry.status == None || entry.status == Some(0) then text == "unavailable"
    else AllDigits(text) && Value(text) == entry.status.value && text[0] != '0'
  }

  lemma StatusMeans(entry: Entry)
    ensures StatusReads(entry, StatusOf(entry))
  {
    if entry.status.Some? && entry.status.value > 0 { DecimalIsPlain(entry.status.value); }
  }

  /** What counts as an image request, in terms of the page: the browser says so, or an image shows its URL. */
  ghost predicate IsRequest(entry: Entry, images: seq<Image>) {
    entry.initiator == "img" || (entry.name != "" && exists i :: 0 <= i < |images| && images[i].url == entry.name)
  }

  ghost function RequestsOf(entries: seq<Entry>, images: seq<Image>): seq<Entry> {
    if entries == [] then []
    else if IsRequest(entries[0], images) then [entries[0]] + RequestsOf(entries[1..], images)
    else RequestsOf(entries[1..], images)
  }

  lemma {:induction false} UrlsAre(images: seq<Image>, url: string)
    ensures url in Urls(images) <==> url != "" && exists i :: 0 <= i < |images| && images[i].url == url
  {
    if images != [] {
      var front := images[..|images| - 1];
      UrlsAre(front, url);
      assert images[|images| - 1].url == url || (forall i :: 0 <= i < |images| && images[i].url == url ==> front[i].url == url);
      if i :| 0 <= i < |front| && front[i].url == url { assert images[i].url == url; }
    }
  }

  lemma {:induction false} RequestsSplit(a: seq<Entry>, b: seq<Entry>, images: seq<Image>)
    ensures RequestsOf(a + b, images) == RequestsOf(a, images) + RequestsOf(b, images)
  {
    if a == [] {
      assert a + b == b;
    } else {
      assert (a + b)[1..] == a[1..] + b;
      RequestsSplit(a[1..], b, images);
    }
  }

  lemma {:induction false} ResourcesAre(entries: seq<Entry>, images: seq<Image>, counts: map<string, nat>)
    requires Counts(counts, Urls(images))
    ensures Resources(entries, counts) == RequestsOf(entries, images)
  {
    hide IsRequest, Counts;
    if entries != [] {
      var (front, last) := (entries[..|entries| - 1], entries[|entries| - 1]);
      ResourcesAre(front, images, counts);
      RequestsSplit(front, [last], images);
      assert front + [last] == entries;
      assert IsResource(last, counts) <==> IsRequest(last, images) by { RequestMeans(last, images, counts); }
    }
  }

  lemma {:induction false} RequestMeans(entry: Entry, images: seq<Image>, counts: map<string, nat>)
    requires Counts(counts, Urls(images))
    ensures IsResource(entry, counts) <==> IsRequest(entry, images)
  {
    UrlsAre(images, entry.name);
  }

  /** The sums, one element at a time and part by part. */
  lemma {:induction false} TotalsAdd(a: seq<Entry>, b: seq<Entry>, entry: Entry, field: Entry -> Option<nat>)
    ensures Total(a + b, field) == Total(a, field) + Total(b, field) && Total([], field) == 0
    ensures Total([entry], field) == if field(entry).Some? then field(entry).value else 0
  {
    assert [entry][..0] == [];
    if b == [] {
      assert a + b == a;
    } else {
      assert (a + b)[..|a + b| - 1] == a + b[..|b| - 1];
      TotalsAdd(a, b[..|b| - 1], entry, field);
    }
  }

  lemma {:induction false} DurationsAdd(a: seq<real>, b: seq<real>, task: real)
    ensures Durations(a + b) == Durations(a) + Durations(b) && Durations([]) == 0.0 && Durations([task]) == task
  {
    assert [task][..0] == [];
    if b == [] {
      assert a + b == a;
    } else {
      assert (a + b)[..|a + b| - 1] == a + b[..|b| - 1];
      DurationsAdd(a, b[..|b| - 1], task);
    }
  }

  lemma {:induction false} UrlsAdd(a: seq<Image>, b: seq<Image>, image: Image)
    ensures Urls(a + b) == Urls(a) + Urls(b) && Urls([]) == []
    ensures Urls([image]) == if image.url == "" then [] else [image.url]
  {
    assert [image][..0] == [];
    if b == [] {
      assert a + b == a && Urls(a) + [] == Urls(a);
    } else {
      assert (a + b)[..|a + b| - 1] == a + b[..|b| - 1];
      UrlsAdd(a, b[..|b| - 1], image);
    }
  }

  lemma {:induction false} WithoutBytesAdd(a: seq<Entry>, b: seq<Entry>, entry: Entry)
    ensures WithoutBytes(a + b) == WithoutBytes(a) + WithoutBytes(b) && WithoutBytes([]) == 0
    ensures WithoutBytes([entry]) == if entry.transferSize == Some(0) then 1 else 0
  {
    assert [entry][..0] == [];
    if b == [] {
      assert a + b == a;
    } else {
      assert (a + b)[..|a + b| - 1] == a + b[..|b| - 1];
      WithoutBytesAdd(a, b[..|b| - 1], entry);
    }
  }

  lemma {:induction false} TotalSame(entries: seq<Entry>, f: Entry -> Option<nat>, g: Entry -> Option<nat>)
    requires forall entry :: f(entry) == g(entry)
    ensures Total(entries, f) == Total(entries, g)
  {
    if entries != [] { TotalSame(entries[..|entries| - 1], f, g); }
  }

  /** How many entries were transferred with no byte over the network. */
  function WithoutBytes(entries: seq<Entry>): nat {
    if entries == [] then 0
    else WithoutBytes(entries[..|entries| - 1]) + if entries[|entries| - 1].transferSize == Some(0) then 1 else 0
  }

  lemma {:induction false} ZeroesAre(entries: seq<Entry>)
    ensures Total(entries, ZeroTransfer) == WithoutBytes(entries)
  {
    if entries != [] { ZeroesAre(entries[..|entries| - 1]); }
  }

  function Names(entries: seq<Entry>): seq<string> {
    seq(|entries|, i requires 0 <= i < |entries| => entries[i].name)
  }

  function Statuses(entries: seq<Entry>): seq<string> {
    seq(|entries|, i requires 0 <= i < |entries| => StatusOf(entries[i]))
  }

  /** The sum over the entries of one of their values, where they have it. */
  function Total(entries: seq<Entry>, field: Entry -> Option<nat>): nat {
    if entries == [] then 0
    else
      var last := field(entries[|entries| - 1]);
      Total(entries[..|entries| - 1], field) + if last.Some? then last.value else 0
  }

  /** The reduction behind each byte sum. */
  method AddUp(entries: seq<Entry>, field: Entry -> Option<nat>) returns (total: nat)
    ensures total == Total(entries, field)
  {
    total := 0;
    for i := 0 to |entries|
      invariant total == Total(entries[..i], field)
    {
      assert entries[..i + 1][..i] == entries[..i];
      var value := field(entries[i]);
      if value.Some? { total := total + value.value; }
    }
    assert entries[..|entries|] == entries;
  }

  function TransferSize(entry: Entry): Option<nat> { entry.transferSize }

  function EncodedSize(entry: Entry): Option<nat> { entry.encodedBodySize }

  function DecodedSize(entry: Entry): Option<nat> { entry.decodedBodySize }

  /** Zero transfers count themselves: a one for each entry whose transfer size is zero. */
  function ZeroTransfer(entry: Entry): Option<nat> {
    if entry.transferSize == Some(0) then Some(1) else None
  }

  function Durations(tasks: seq<real>): real {
    if tasks == [] then 0.0 else Durations(tasks[..|tasks| - 1]) + tasks[|tasks| - 1]
  }

  method AddDurations(tasks: seq<real>) returns (total: real)
    ensures total == Durations(tasks)
  {
    total := 0.0;
    for i := 0 to |tasks|
      invariant total == Durations(tasks[..i])
    {
      assert tasks[..i + 1][..i] == tasks[..i];
      total := total + tasks[i];
    }
    assert tasks[..|tasks|] == tasks;
  }

  /** `summarize`, its counts. Images with a URL are the unique URLs and the duplicates together, requests
      are the distinct names and the repeats together, and the status counts count the status of each. The byte
      sums and the zero transfers are over the same requests. */
  method Summarize(entries: seq<Entry>, images: seq<Image>, mutations: nat, tasks: seq<real>) returns (m: Metrics)
    ensures m.imageElements == |images| && m.mutations == mutations
    ensures m.longTasks == |tasks| && m.longTaskMs == Durations(tasks)
    ensures m.uniqueImageUrls + m.duplicateImageElements == |Urls(images)|
    ensures m.uniqueImageUrls == |set i | 0 <= i < |images| && images[i].url != "" :: images[i].url|
    ensures var requests := RequestsOf(entries, images);
            && m.resourceRequests == |requests|
            && m.transferBytes == Total(requests, (entry: Entry) => entry.transferSize)
            && m.encodedBytes == Total(requests, (entry: Entry) => entry.encodedBodySize)
            && m.decodedBytes == Total(requests, (entry: Entry) => entry.decodedBodySize)
            && m.zeroTransferEntries == WithoutBytes(requests)
            && m.repeatedResourceRequests + |set i | 0 <= i < |requests| :: requests[i].name| == |requests|
            && (exists statuses :: |statuses| == |requests| && Counts(m.responseStatusCounts, statuses)
                                   && forall i :: 0 <= i < |requests| ==> StatusReads(requests[i], statuses[i]))
            && Sum(m.responseStatusCounts, m.responseStatusCounts.Keys, WHOLE) == m.resourceRequests
  {
    hide Counts, Tally, Sum, StatusReads, StatusOf;
    var urls: seq<string> := [];
    for i := 0 to |images|
      invariant urls == Urls(images[..i])
    {
      assert images[..i + 1][..i] == images[..i];
      if images[i].url != "" { urls := urls + [images[i].url]; }
    }
    assert images[..|images|] == images;
    var counts := CountAll(urls);
    CountsAddUp(counts, urls);
    var duplicates := AddSurplus(counts);
    var resources: seq<Entry> := [];
    for i := 0 to |entries|
      invariant resources == Resources(entries[..i], counts)
    {
      assert entries[..i + 1][..i] == entries[..i];
      if IsResource(entries[i], counts) { resources := resources + [entries[i]]; }
    }
    assert entries[..|entries|] == entries;
    ResourcesAre(entries, images, counts);
    var statuses := CountAll(Statuses(resources));
    CountsAddUp(statuses, Statuses(resources));
    forall i | 0 <= i < |resources| ensures StatusReads(resources[i], Statuses(resources)[i]) { StatusMeans(resources[i]); }
    var names := set name | name in Names(resources);
    DistinctAreFewer(Names(resources));
    NamesAre(resources);
    UrlSet(images);
    TotalSame(resources, TransferSize, (entry: Entry) => entry.transferSize);
    TotalSame(resources, EncodedSize, (entry: Entry) => entry.encodedBodySize);
    TotalSame(resources, DecodedSize, (entry: Entry) => entry.decodedBodySize);
    ZeroesAre(resources);
    var transfer := AddUp(resources, TransferSize);
    var encoded := AddUp(resources, EncodedSize);
    var decoded := AddUp(resources, DecodedSize);
    var zero := AddUp(resources, ZeroTransfer);
    var elapsed := AddDurations(tasks);
    m := Metrics(|images|, |counts|, duplicates, |resources|, |resources| - |names|,
                 transfer, encoded, decoded, zero, statuses, mutations, |tasks|, elapsed);
  }

  lemma NamesAre(entries: seq<Entry>)
    ensures (set name | name in Names(entries)) == set i | 0 <= i < |entries| :: entries[i].name
  {
    var (a, b) := (set name | name in Names(entries), set i | 0 <= i < |entries| :: entries[i].name);
    forall name ensures name in a <==> name in b {
      if name in a {
        var i :| 0 <= i < |Names(entries)| && Names(entries)[i] == name;
        assert entries[i].name == name;
      }
      if name in b {
        var i :| 0 <= i < |entries| && entries[i].name == name;
        assert Names(entries)[i] == name;
      }
    }
  }

  lemma {:induction false} UrlSet(images: seq<Image>)
    ensures (set x | x in Urls(images)) == set i | 0 <= i < |images| && images[i].url != "" :: images[i].url
  {
    forall url ensures url in Urls(images) <==> url != "" && exists i :: 0 <= i < |images| && images[i].url == url {
      UrlsAre(images, url);
    }
    hide Urls;
    var (a, b) := (set x | x in Urls(images), set i | 0 <= i < |images| && images[i].url != "" :: images[i].url);
    forall url ensures url in a <==> url in b {}
  }

  /** The reduction over `counts.values()`. */
  method AddSurplus(counts: map<string, nat>) returns (n: nat)
    ensures n == Sum(counts, counts.Keys, SURPLUS)
  {
    n := 0;
    var left := counts.Keys;
    while left != {}
      invariant left <= counts.Keys && n + Sum(counts, left, SURPLUS) == Sum(counts, counts.Keys, SURPLUS)
    {
      var x :| x in left;
      SumTakesOut(counts, left, SURPLUS, x);
      n := n + if counts[x] == 0 then 0 else counts[x] - 1;
      left := left - {x};
    }
  }

  // ---------------------------------------------------------------------- the probe

  /** One capture: what its callbacks have received, and what its observer holds back. */
  datatype Session = Session(observed: bool, received: nat, pending: nat)

  /** The probe on a page. `happened` is what the browser knows: the mutation records since `start`. */
  class Probe {
    var active: Option<Session>
    var reports: seq<nat>
    ghost var happened: nat

    constructor ()
      ensures Valid() && active == None && reports == []
    {
      active, reports, happened := None, [], 0;
    }

    /** Every record is either received or still pending, and none is both. */
    ghost predicate Valid()
      reads this
    {
      active.Some? ==>
        (if active.value.observed then active.value.received + active.value.pending == happened
         else active.value.received == 0 && active.value.pending == 0)
    }

    /** `start`; `supported` says whether the page has a mutation observer that accepts the request. False
        where a capture is running. */
    method Start(supported: bool) returns (ok: bool)
      requires Valid()
      modifies this
      ensures Valid() && reports == old(reports)
      ensures ok <==> old(active).None?
      ensures ok ==> active == Some(Session(supported, 0, 0)) && happened == 0
      ensures !ok ==> active == old(active) && happened == old(happened)
    {
      if active.Some? { return false; }
      active, happened := Some(Session(supported, 0, 0)), 0;
      ok := true;
    }

    /** The page changes: the observer queues the records. */
    method Mutate(records: nat)
      requires Valid()
      modifies this
      ensures Valid() && reports == old(reports) && happened == old(happened) + records
      ensures active.Some? == old(active).Some?
      ensures active.Some? ==> active.value.observed == old(active).value.observed
    {
      happened := happened + records;
      if active.Some? && active.value.observed {
        active := Some(active.value.(pending := active.value.pending + records));
      }
    }

    /** The callback: all that is queued is handed over at once. */
    method Deliver()
      requires Valid()
      modifies this`active
      ensures Valid() && active.Some? == old(active).Some?
      ensures active.Some? ==> active.value.observed == old(active).value.observed
    {
      if active.Some? {
        var s := active.value;
        active := Some(s.(received := s.received + s.pending, pending := 0));
      }
    }

    /** `stop`: takes what is still pending, disconnects, and reports. None where no capture runs. The
        report counts each record since `start` exactly once, whether or not a callback had seen it. */
    method StopCapture() returns (mutations: Option<nat>)
      requires Valid()
      modifies this
      ensures Valid() && active.None?
      ensures mutations.Some? <==> old(active).Some?
      ensures mutations.Some? ==>
                mutations.value == (if old(active).value.observed then old(happened) else 0)
                && reports == old(reports) + [mutations.value]
      ensures mutations.None? ==> reports == old(reports)
    {
      if active.None? { return None; }
      var s := active.value;
      active := None;
      var total := s.received + s.pending;
      reports := reports + [total];
      mutations := Some(total);
    }
  }

  /** What may happen on the page between `start` and `stop`. */
  datatype Happening = Mutation(records: nat) | Callback

  function Records(happenings: seq<Happening>): nat {
    if happenings == [] then 0
    else
      var last := happenings[|happenings| - 1];
      Records(happenings[..|happenings| - 1]) + if last.Mutation? then last.records else 0
  }

  /** A whole capture under any interleaving of page changes and callbacks. */
  method Capture(probe: Probe, supported: bool, happenings: seq<Happening>) returns (mutations: nat)
    requires probe.Valid() && probe.active.None?
    modifies probe
    ensures probe.Valid() && probe.active.None?
    ensures mutations == if supported then Records(happenings) else 0
  {
    var ok := probe.Start(supported);
    for i := 0 to |happenings|
      invariant probe.Valid() && probe.active.Some? && probe.active.value.observed == supported
      invariant probe.happened == Records(happenings[..i])
    {
      assert happenings[..i + 1][..i] == happenings[..i];
      match happenings[i] {
        case Mutation(records) => probe.Mutate(records);
        case Callback => probe.Deliver();
      }
    }
    assert happenings[..|happenings|] == happenings;
    var result := probe.StopCapture();
    mutations := result.value;
  }
}
