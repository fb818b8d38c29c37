/** What a run promises about the tracking list: it only grows at the end,
    it grows exactly by the items that were both fetched and mailed, the
    persisted copy is either the copy read at start-up, when no write
    succeeded, or a snapshot taken right after the last successful write,
    and a second run over the same listing after a fully successful one
    does nothing. */
module SyncProperties {
  import opened Text
  import opened Listing
  import opened Ledger
  import opened Sync

  const AllOk: Attempt := Attempt(Ok, Ok, Ok)

  /** Reference definition: the filenames of the items whose download and
      mail submission both succeeded, in loop order. */
  function Delivered(work: seq<(Item, Attempt)>): seq<string>
    decreases |work|
  {
    if |work| == 0 then []
    else (if Delivers(work[0].1) then [work[0].0.filename] else []) + Delivered(work[1..])
  }

  /** The write for this item happened and succeeded. */
  predicate Saves(a: Attempt) {
    Delivers(a) && a.write == Ok
  }

  lemma {:induction false} DeliveredAll(work: seq<(Item, Attempt)>)
    requires forall k :: 0 <= k < |work| ==> Delivers(work[k].1)
    ensures forall k :: 0 <= k < |work| ==> work[k].0.filename in Delivered(work)
    decreases |work|
  {
    if |work| > 0 {
      DeliveredAll(work[1..]);
      forall k | 1 <= k < |work|
        ensures work[k].0.filename in Delivered(work)
      {
        assert work[k] == work[1..][k - 1];
      }
    }
  }

  lemma {:induction false} DeliveredPrefix(work: seq<(Item, Attempt)>, j: nat)
    requires 0 < j <= |work|
    ensures Delivered(work[..j]) ==
      (if Delivers(work[0].1) then [work[0].0.filename] else []) + Delivered(work[1..][..j - 1])
  {
    assert work[..j][0] == work[0];
    assert work[..j][1..] == work[1..][..j - 1];
  }

  /** The in-memory list ends up as the initial list followed by the
      filenames of the fetched-and-mailed items, in loop order, whether or
      not their writes succeeded. */
  lemma {:induction false} LoopRecordsDelivered(s: Store, work: seq<(Item, Attempt)>)
    ensures Loop(s, work).store.memory == s.memory + Delivered(work)
    decreases |work|
  {
    if |work| > 0 {
      var first := Step(s, work[0].0, work[0].1);
      LoopRecordsDelivered(first.store, work[1..]);
    }
  }

  /** Item k's log outcome depends on item k's own attempt only: an earlier
      failure never stops or alters a later item. */
  lemma {:induction false} LoopEventsPerItem(s: Store, work: seq<(Item, Attempt)>)
    ensures forall k :: 0 <= k < |work| ==> Loop(s, work).events[k] == Event(work[k].0, OutcomeOf(work[k].1))
    decreases |work|
  {
    if |work| > 0 {
      var first := Step(s, work[0].0, work[0].1);
      LoopEventsPerItem(first.store, work[1..]);
      forall k | 1 <= k < |work|
        ensures Loop(s, work).events[k] == Event(work[k].0, OutcomeOf(work[k].1))
      {
        assert work[k] == work[1..][k - 1];
      }
    }
  }

  /** Without a single fetched-and-mailed item, neither copy of the list
      changes. */
  lemma {:induction false} LoopUnchangedWithoutDelivery(s: Store, work: seq<(Item, Attempt)>)
    requires forall k :: 0 <= k < |work| ==> !Delivers(work[k].1)
    ensures Loop(s, work).store == s
    decreases |work|
  {
    if |work| > 0 {
      assert !Delivers(work[0].1);
      LoopUnchangedWithoutDelivery(s, work[1..]);
    }
  }

  /** With every write succeeding, the persisted list ends equal to the
      in-memory one. */
  lemma {:induction false} LoopAllWritten(s: Store, work: seq<(Item, Attempt)>)
    requires s.disk == s.memory
    requires forall k :: 0 <= k < |work| ==> work[k].1.write == Ok
    ensures Loop(s, work).store.disk == Loop(s, work).store.memory
    decreases |work|
  {
    if |work| > 0 {
      var first := Step(s, work[0].0, work[0].1);
      assert work[0].1.write == Ok;
      LoopAllWritten(first.store, work[1..]);
    }
  }

  /** The persisted list `d` is the whole in-memory list as it stood right
      after item j, whose write succeeded. */
  predicate SnapshotAfter(s: Store, work: seq<(Item, Attempt)>, d: seq<string>, j: int) {
    0 <= j < |work| && Saves(work[j].1) && d == s.memory + Delivered(work[..j + 1])
  }

  /** No item after index j (all items, for j = -1) has a successful write. */
  predicate NoSaveAfter(work: seq<(Item, Attempt)>, j: int) {
    forall i :: 0 <= i && j < i < |work| ==> !Saves(work[i].1)
  }

  /** Without a successful write the persisted list is never touched. */
  lemma {:induction false} LoopDiskUntouchedWithoutSave(s: Store, work: seq<(Item, Attempt)>)
    requires NoSaveAfter(work, -1)
    ensures Loop(s, work).store.disk == s.disk
    decreases |work|
  {
    if |work| > 0 {
      var first := Step(s, work[0].0, work[0].1);
      assert !Saves(work[0].1);
      assert NoSaveAfter(work[1..], -1) by {
        forall i | 0 <= i < |work| - 1
          ensures !Saves(work[1..][i].1)
        {
          assert work[1..][i] == work[i + 1];
        }
      }
      LoopDiskUntouchedWithoutSave(first.store, work[1..]);
    }
  }

  /** After the last item whose write succeeded, the persisted list stays the
      snapshot that write made. */
  lemma {:induction false} LoopLastSave(s: Store, work: seq<(Item, Attempt)>, j: nat)
    requires j < |work| && Saves(work[j].1) && NoSaveAfter(work, j)
    ensures Loop(s, work).store.disk == s.memory + Delivered(work[..j + 1])
    decreases j
  {
    var first := Step(s, work[0].0, work[0].1);
    assert Loop(s, work).store == Loop(first.store, work[1..]).store;
    assert NoSaveAfter(work[1..], j - 1) by {
      forall i | j - 1 < i < |work| - 1
        ensures !Saves(work[1..][i].1)
      {
        assert work[1..][i] == work[i + 1];
      }
    }
    DeliveredPrefix(work, j + 1);
    if j == 0 {
      LoopDiskUntouchedWithoutSave(first.store, work[1..]);
      assert work[1..][..0] == [];
    } else {
      assert work[1..][j - 1] == work[j];
      LoopLastSave(first.store, work[1..], j - 1);
    }
  }

  /** The persisted list is untouched when no write succeeded, and otherwise
      is the whole in-memory list as it stood right after the last item whose
      write succeeded; a failed write is not rolled back, so memory may run
      ahead of it. */
  lemma {:induction false} LoopDiskSnapshot(s: Store, work: seq<(Item, Attempt)>)
    ensures NoSaveAfter(work, -1) ==> Loop(s, work).store.disk == s.disk
    ensures forall j :: 0 <= j < |work| && Saves(work[j].1) && NoSaveAfter(work, j) ==>
      SnapshotAfter(s, work, Loop(s, work).store.disk, j)
  {
    if NoSaveAfter(work, -1) {
      LoopDiskUntouchedWithoutSave(s, work);
    }
    forall j | 0 <= j < |work| && Saves(work[j].1) && NoSaveAfter(work, j)
      ensures SnapshotAfter(s, work, Loop(s, work).store.disk, j)
    {
      LoopLastSave(s, work, j);
    }
  }

  /** After the listing, the in-memory list grows by exactly the filenames of
      the new items that were fetched and mailed, one outcome is logged per
      new item in listing order, and nothing changes when no new item got
      through. */
  lemma {:induction false} ReconcileRecordsDelivered(s: Store, links: seq<Item>, oracle: nat -> Attempt)
    ensures var news := NewFiles(links, s.memory);
      var p := Reconcile(s, links, oracle);
      && p.store.memory == s.memory + Delivered(Pairs(news, oracle))
      && (forall k :: 0 <= k < |news| ==> p.events[k] == Event(news[k], OutcomeOf(oracle(k))))
      && ((forall k :: 0 <= k < |news| ==> !Delivers(oracle(k))) ==> p.store == s)
  {
    var news := NewFiles(links, s.memory);
    var work := Pairs(news, oracle);
    if |news| > 0 {
      LoopRecordsDelivered(s, work);
      LoopEventsPerItem(s, work);
      if forall k :: 0 <= k < |news| ==> !Delivers(oracle(k)) {
        LoopUnchangedWithoutDelivery(s, work);
      }
    }
  }

  /** Starting from a persisted list, with every write succeeding, the run
      leaves the persisted list equal to the in-memory one. */
  lemma {:induction false} ReconcileAllWritten(s: Store, links: seq<Item>, oracle: nat -> Attempt)
    requires s.disk == s.memory
    requires forall k: nat :: oracle(k).write == Ok
    ensures Reconcile(s, links, oracle).store.disk == Reconcile(s, links, oracle).store.memory
  {
    var news := NewFiles(links, s.memory);
    if |news| > 0 {
      LoopAllWritten(s, Pairs(news, oracle));
    }
  }

  /** After a pass in which every new item was fetched and mailed, every
      listed filename is tracked in memory. */
  lemma {:induction false} AllListedTracked(s: Store, links: seq<Item>, first: nat -> Attempt)
    requires forall k: nat :: Delivers(first(k))
    ensures forall x :: x in links ==> x.filename in Reconcile(s, links, first).store.memory
  {
    var news := NewFiles(links, s.memory);
    var memory := Reconcile(s, links, first).store.memory;
    NewFilesMembers(links, s.memory);
    if |news| > 0 {
      var work := Pairs(news, first);
      LoopRecordsDelivered(s, work);
      DeliveredAll(work);
      forall x | x in links && x.filename !in s.memory
        ensures x.filename in memory
      {
        var k :| 0 <= k < |news| && news[k] == x;
        assert work[k].0 == x;
      }
    }
  }

  /** After a pass in which every new item was fetched, mailed and written,
      the file and the in-memory list agree, and a second pass over the same
      links finds nothing new. */
  lemma {:induction false} ReconcileRerunIdempotent(s: Store, links: seq<Item>, first: nat -> Attempt, second: nat -> Attempt)
    requires s.disk == s.memory
    requires forall k: nat :: first(k) == AllOk
    ensures var p := Reconcile(s, links, first);
      && p.store.disk == p.store.memory
      && Reconcile(p.store, links, second) == Progress(p.store, [])
  {
    var p := Reconcile(s, links, first);
    ReconcileAllWritten(s, links, first);
    AllListedTracked(s, links, first);
    AllTrackedNothingNew(links, p.store.memory);
  }

  /** After a run in which every new item was fetched, mailed and written,
      the next process reads back the same list, and a run over the same
      listing finds nothing new: it sends nothing and changes nothing. */
  lemma {:induction false} RerunIdempotent(s: Store, hrefs: seq<string>, first: nat -> Attempt, second: nat -> Attempt)
    requires s.disk == s.memory
    requires forall k: nat :: first(k) == AllOk
    ensures var r1 := Run(s, Listed(hrefs), first);
      && Startup(Present(r1.store.disk), true) == Ready(r1.store)
      && Run(r1.store, Listed(hrefs), second) == RunResult(r1.store, [], false)
  {
    ReconcileRerunIdempotent(s, ToItems(hrefs), first, second);
  }

  /** The filter runs once, before the loop: an item listed twice whose name
      is not yet tracked is fetched, mailed and appended twice. */
  lemma {:induction false} DuplicateItemSentTwice(s: Store, it: Item, oracle: nat -> Attempt)
    requires it.filename !in s.memory
    requires oracle(0) == AllOk && oracle(1) == AllOk
    ensures var p := Reconcile(s, [it, it], oracle);
      && p.store.memory == s.memory + [it.filename, it.filename]
      && p.store.disk == p.store.memory
      && p.events == [Event(it, Sent), Event(it, Sent)]
  {
    var news := NewFiles([it, it], s.memory);
    assert NewFiles([it], s.memory) == [it] by {
      assert [it][1..] == [];
    }
    assert news == [it, it] by {
      assert [it, it][1..] == [it];
    }
    var work := Pairs(news, oracle);
    assert work == [(it, AllOk), (it, AllOk)];
    var one := Step(s, it, AllOk);
    var two := Step(one.store, it, AllOk);
    assert work[1..] == [(it, AllOk)];
    assert work[1..][1..] == [];
    assert Loop(two.store, []) == Progress(two.store, []);
    assert Loop(one.store, work[1..]) == Progress(two.store, two.events);
    assert Reconcile(s, [it, it], oracle) == Loop(s, work);
  }

  /** The same on a listing: a link that appears twice on the page is mailed
      twice and tracked twice. */
  lemma {:induction false} DuplicateLinkSentTwice(s: Store, href: string, oracle: nat -> Attempt)
    requires href != "" && Basename(href) !in s.memory
    requires oracle(0) == AllOk && oracle(1) == AllOk
    ensures var r := Run(s, Listed([href, href]), oracle);
      && r.store.memory == s.memory + [Basename(href), Basename(href)]
      && |r.events| == 2
  {
    ListedTwice(href);
    DuplicateItemSentTwice(s, ToItem(href), oracle);
  }

  lemma {:induction false} ListedTwice(href: string)
    requires href != ""
    ensures ToItems([href, href]) == [ToItem(href), ToItem(href)]
  {
    var hrefs := [href, href];
    assert hrefs[0] != "" && hrefs[1] != "";
    var kept := NonEmptyHrefs(hrefs);
    assert kept == hrefs;
    var links := ToItems(hrefs);
    assert |links| == 2;
    assert links[0] == ToItem(href) && links[1] == ToItem(href);
  }

  /** A failed write is not rolled back: the name stays in memory but the
      file lacks it, so the next process reads the old file and processes
      the item once more. The fourth conjunct is about a second pass in the
      same process, which the program never makes (`main` runs once); within
      the one pass, a later copy of the item is sent again, as
      FailedWriteThenDuplicateSent states. */
  lemma {:induction false} FailedWriteRetriedNextProcess(s: Store, it: Item, first: nat -> Attempt, second: nat -> Attempt)
    requires s.disk == s.memory && it.filename !in s.memory
    requires first(0) == Attempt(Ok, Ok, Err)
    ensures var p := Reconcile(s, [it], first);
      && p.store.memory == s.memory + [it.filename]
      && p.store.disk == s.disk
      && p.events == [Event(it, SentUnsaved)]
      && Reconcile(p.store, [it], second).events == []
      && Startup(Present(p.store.disk), true) == Ready(s)
      && |Reconcile(s, [it], second).events| == 1
  {
    assert [it][1..] == [];
    assert NewFiles([], s.memory) == [];
    var news := NewFiles([it], s.memory);
    assert news == [it];
    var work := Pairs(news, first);
    assert work == [(it, first(0))];
    var one := Step(s, it, first(0));
    assert Loop(one.store, []) == Progress(one.store, []);
    assert Loop(s, work) == one;
    var p := Reconcile(s, [it], first);
    assert p == one;
    assert NewFiles([it], p.store.memory) == [];
    assert |Pairs(news, second)| == 1;
  }

  /** Within one pass, a failed write does not stop a later copy of the same
      item: the filter ran before the push, so the copy is sent, appended
      and, its write succeeding, saved together with the first name. */
  lemma {:induction false} FailedWriteThenDuplicateSent(s: Store, it: Item, oracle: nat -> Attempt)
    requires it.filename !in s.memory
    requires oracle(0) == Attempt(Ok, Ok, Err) && oracle(1) == AllOk
    ensures var p := Reconcile(s, [it, it], oracle);
      && p.store.memory == s.memory + [it.filename, it.filename]
      && p.store.disk == p.store.memory
      && p.events == [Event(it, SentUnsaved), Event(it, Sent)]
  {
    var news := NewFiles([it, it], s.memory);
    assert NewFiles([it], s.memory) == [it] by {
      assert [it][1..] == [];
    }
    assert news == [it, it] by {
      assert [it, it][1..] == [it];
    }
    var work := Pairs(news, oracle);
    assert work == [(it, Attempt(Ok, Ok, Err)), (it, AllOk)];
    var one := Step(s, it, Attempt(Ok, Ok, Err));
    var two := Step(one.store, it, AllOk);
    assert work[1..] == [(it, AllOk)];
    assert work[1..][1..] == [];
    assert Loop(two.store, []) == Progress(two.store, []);
    assert Loop(one.store, work[1..]) == Progress(two.store, two.events);
    assert Reconcile(s, [it, it], oracle) == Loop(s, work);
  }

  /** The sample blob link holds "/blob/" at index 4 and nowhere before. */
  lemma {:induction false} BlobLinkSegment()
    ensures FirstOccurrence("/u/r/blob/m/x.epub", BlobSegment, 4)
  {
    var href := "/u/r/blob/m/x.epub";
    assert href[4..10] == BlobSegment;
    forall j | 0 <= j < 4
      ensures !OccursAt(href, BlobSegment, j)
    {
      assert href[j + 1] != BlobSegment[1];
    }
  }

  /** On a blob link the host is prefixed and the first "/blob/" becomes "/". */
  lemma {:induction false} BlobLinkUrl()
    ensures RawUrl("/u/r/blob/m/x.epub") == RawHost + "/u/r/m/x.epub"
  {
    var href := "/u/r/blob/m/x.epub";
    BlobLinkSegment();
    assert href[..4] == "/u/r";
    assert href[10..] == "m/x.epub";
    assert href[..4] + "/" + href[10..] == "/u/r/m/x.epub";
  }
}
