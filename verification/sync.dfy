/** One reconcile-and-record pass: list the issue page, select the links
    whose filename is not tracked yet, and for each of them fetch, mail and
    record it. The network, the mailer and the disk are replaced by an oracle
    that says, for the k-th new item, whether its fetch, its send and its
    tracking-file write succeed. */
module Sync {
  import opened Listing
  import opened Ledger

  datatype Status = Ok | Err

  /** How the outside world answers the three calls made for one new item:
      the download, the mail submission and the rewrite of the tracking file. */
  datatype Attempt = Attempt(fetch: Status, send: Status, write: Status)

  /** The outcome of one new item, as the log reports it. `SentUnsaved`:
      mailed and recorded in memory, but the tracking file was not rewritten. */
  datatype Outcome = FetchFailed | SendFailed | SentUnsaved | Sent

  datatype Event = Event(item: Item, outcome: Outcome)

  /** The state of a run part-way through the loop over new items. */
  datatype Progress = Progress(store: Store, events: seq<Event>)

  /** The answer to the listing request: the hrefs of the page's anchors
      that end in ".epub", in page order, or a failure of the request. */
  datatype Response = Listed(hrefs: seq<string>) | Unreachable

  /** The end of a run; `failed` is set when the top-level handler caught an
      error. */
  datatype RunResult = RunResult(store: Store, events: seq<Event>, failed: bool)

  /** Both the download and the mail submission went through. */
  predicate Delivers(a: Attempt) {
    a.fetch == Ok && a.send == Ok
  }

  function OutcomeOf(a: Attempt): Outcome {
    if a.fetch == Err then FetchFailed
    else if a.send == Err then SendFailed
    else if a.write == Err then SentUnsaved
    else Sent
  }

  /** One pass of the loop body: download, mail, then append the filename to
      the in-memory list and rewrite the whole list to disk. An error in any
      call skips the rest of the body; an append is never undone. */
  function Step(s: Store, item: Item, a: Attempt): (p: Progress)
    ensures p.events == [Event(item, OutcomeOf(a))]
    ensures !Delivers(a) ==> p.store == s
    ensures Delivers(a) ==> p.store.memory == s.memory + [item.filename]
    ensures Delivers(a) && a.write == Ok ==> p.store.disk == p.store.memory
    ensures a.write == Err ==> p.store.disk == s.disk
    ensures Consistent(s) ==> Consistent(p.store)
  {
    if a.fetch == Err || a.send == Err then
      Progress(s, [Event(item, OutcomeOf(a))])
    else
      var memory := s.memory + [item.filename];
      var disk := if a.write == Ok then memory else s.disk;
      Progress(Store(memory, disk), [Event(item, OutcomeOf(a))])
  }

  /** The loop over the new items, each paired with its attempt; every item
      is processed whatever happened to the ones before it. */
  function Loop(s: Store, work: seq<(Item, Attempt)>): (p: Progress)
    ensures |p.events| == |work|
    ensures s.memory <= p.store.memory
    ensures Consistent(s) ==> Consistent(p.store)
    decreases |work|
  {
    if |work| == 0 then Progress(s, [])
    else
      var first := Step(s, work[0].0, work[0].1);
      var rest := Loop(first.store, work[1..]);
      Progress(rest.store, first.events + rest.events)
  }

  /** The k-th new item paired with the oracle's answer for it. */
  function Pairs(news: seq<Item>, oracle: nat -> Attempt): (work: seq<(Item, Attempt)>)
    ensures |work| == |news|
    ensures forall k :: 0 <= k < |news| ==> work[k] == (news[k], oracle(k))
  {
    seq(|news|, k requires 0 <= k < |news| => (news[k], oracle(k)))
  }

  /** Everything after the listing request: select the new links; with none
      the run returns early, otherwise the loop runs over them in listing
      order. */
  function Reconcile(s: Store, links: seq<Item>, oracle: nat -> Attempt): (p: Progress)
    ensures |NewFiles(links, s.memory)| == 0 ==> p == Progress(s, [])
    ensures |p.events| == |NewFiles(links, s.memory)|
    ensures s.memory <= p.store.memory
    ensures Consistent(s) ==> Consistent(p.store)
  {
    var news := NewFiles(links, s.memory);
    if |news| == 0 then Progress(s, [])
    else Loop(s, Pairs(news, oracle))
  }

  /** The body of `main`: a failed listing request is caught at top level
      and changes nothing; otherwise the listed hrefs become items and are
      reconciled against the tracking list. */
  function Run(s: Store, response: Response, oracle: nat -> Attempt): (r: RunResult)
    ensures r.failed <==> response.Unreachable?
    ensures response.Unreachable? ==> r.store == s && r.events == []
    ensures s.memory <= r.store.memory
    ensures Consistent(s) ==> Consistent(r.store)
  {
    match response
    case Unreachable => RunResult(s, [], true)
    case Listed(hrefs) =>
      var p := Reconcile(s, ToItems(hrefs), oracle);
      RunResult(p.store, p.events, false)
  }

  /** The `try` block for one new item, written as the source writes it:
      the list is pushed to before the file is rewritten, so a failed write
      leaves the name in memory only. */
  method ProcessItem(downloaded: seq<string>, disk: seq<string>, file: Item, a: Attempt)
    returns (downloaded': seq<string>, disk': seq<string>, e: Event)
    ensures Step(Store(downloaded, disk), file, a) == Progress(Store(downloaded', disk'), [e])
  {
    downloaded', disk' := downloaded, disk;
    if a.fetch == Err {
      e := Event(file, FetchFailed);
    } else if a.send == Err {
      e := Event(file, SendFailed);
    } else {
      downloaded' := downloaded + [file.filename];
      if a.write == Ok {
        disk' := downloaded';
        e := Event(file, Sent);
      } else {
        e := Event(file, SentUnsaved);
      }
    }
  }

  /** The loop from item i on is item i's step followed by the loop from
      item i + 1 on. */
  lemma {:induction false} LoopUnfold(st: Store, work: seq<(Item, Attempt)>, i: nat)
    requires i < |work|
    ensures var step := Step(st, work[i].0, work[i].1);
      var rest := Loop(step.store, work[i + 1..]);
      Loop(st, work[i..]) == Progress(rest.store, step.events + rest.events)
  {
    assert work[i..][0] == work[i];
    assert work[i..][1..] == work[i + 1..];
  }

  /** The `for` loop as written: a mutable list that is pushed to and
      rewritten after each delivered item. */
  method LoopOnce(s: Store, news: seq<Item>, oracle: nat -> Attempt) returns (p: Progress)
    ensures p == Loop(s, Pairs(news, oracle))
  {
    ghost var work := Pairs(news, oracle);
    ghost var total := Loop(s, work);
    var downloaded := s.memory;
    var disk := s.disk;
    var events: seq<Event> := [];
    var i := 0;
    while i < |news|
      invariant 0 <= i <= |news|
      invariant total.store == Loop(Store(downloaded, disk), work[i..]).store
      invariant total.events == events + Loop(Store(downloaded, disk), work[i..]).events
    {
      var file := news[i];
      var a := oracle(i);
      LoopUnfold(Store(downloaded, disk), work, i);
      var e;
      downloaded, disk, e := ProcessItem(downloaded, disk, file, a);
      events := events + [e];
      i := i + 1;
    }
    assert work[i..] == [];
    p := Progress(Store(downloaded, disk), events);
  }

  /** The part of `main` after the listing request, as written: the filter,
      the early return when nothing is new, then the loop. */
  method ReconcileOnce(s: Store, links: seq<Item>, oracle: nat -> Attempt) returns (p: Progress)
    ensures p == Reconcile(s, links, oracle)
  {
    var news := NewFiles(links, s.memory);
    if |news| == 0 {
      return Progress(s, []);
    }
    p := LoopOnce(s, news, oracle);
  }

  /** `main` with its top-level handler: a failed listing request is caught
      and ends the run. */
  method SyncOnce(s: Store, response: Response, oracle: nat -> Attempt) returns (r: RunResult)
    ensures r == Run(s, response, oracle)
  {
    if response.Unreachable? {
      return RunResult(s, [], true);
    }
    var p := ReconcileOnce(s, ToItems(response.hrefs), oracle);
    r := RunResult(p.store, p.events, false);
  }
}
