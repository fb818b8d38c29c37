/** The listing side of the sync pass: hrefs scraped from the issue page
    become items, and the items not yet recorded in the tracking list are
    selected as new. */
module Listing {
  import opened Text

  /** One downloadable issue: the name it is tracked and attached under,
      and the raw-content URL it is fetched from. */
  datatype Item = Item(filename: string, url: string)

  const RawHost: string := "https://raw.githubusercontent.com"
  const BlobSegment: string := "/blob/"

  /** The raw-content URL for an href: the raw host followed by the href
      with its leftmost "/blob/" turned into "/". */
  function RawUrl(href: string): (url: string)
    ensures |RawHost| <= |url| && url[..|RawHost|] == RawHost
    ensures Absent(href, BlobSegment) ==> url == RawHost + href
    ensures forall i :: FirstOccurrence(href, BlobSegment, i) ==>
      url == RawHost + href[..i] + "/" + href[i + |BlobSegment|..]
  {
    RawHost + ReplaceFirst(href, BlobSegment, "/")
  }

  /** The item for one anchor href: fetched from its raw URL, tracked and
      attached under the href's basename. */
  function ToItem(href: string): Item {
    Item(Basename(href), RawUrl(href))
  }

  /** The hrefs the `if (href)` guard lets through, in page order: an empty
      string is falsy in JavaScript and is skipped. */
  function NonEmptyHrefs(hrefs: seq<string>): (kept: seq<string>)
    ensures |kept| <= |hrefs|
    ensures forall k :: 0 <= k < |kept| ==> kept[k] != ""
    ensures (forall k :: 0 <= k < |hrefs| ==> hrefs[k] != "") ==> kept == hrefs
  {
    if |hrefs| == 0 then []
    else
      assert hrefs == [hrefs[0]] + hrefs[1..];
      var rest := NonEmptyHrefs(hrefs[1..]);
      if hrefs[0] == "" then rest else [hrefs[0]] + rest
  }

  /** The items for the matched hrefs, one per href that passes the guard,
      in page order. */
  function ToItems(hrefs: seq<string>): (links: seq<Item>)
    ensures |links| == |NonEmptyHrefs(hrefs)|
    ensures forall k :: 0 <= k < |links| ==> links[k] == ToItem(NonEmptyHrefs(hrefs)[k])
  {
    var kept := NonEmptyHrefs(hrefs);
    seq(|kept|, k requires 0 <= k < |kept| => ToItem(kept[k]))
  }

  /** For the hrefs the selector yields, none of which is empty, item k is
      built from href k: its filename is the href's basename and its URL the
      href's raw URL. */
  lemma {:induction false} ToItemsWhenNoneEmpty(hrefs: seq<string>)
    requires forall k :: 0 <= k < |hrefs| ==> hrefs[k] != ""
    ensures |ToItems(hrefs)| == |hrefs|
    ensures forall k :: 0 <= k < |hrefs| ==>
      ToItems(hrefs)[k].filename == Basename(hrefs[k]) && ToItems(hrefs)[k].url == RawUrl(hrefs[k])
  {
    assert NonEmptyHrefs(hrefs) == hrefs;
  }

  /** `a` can be obtained from `b` by deleting elements, so `a` keeps the
      relative order of `b`. */
  predicate IsSubsequence<T(==)>(a: seq<T>, b: seq<T>)
    decreases |b|
  {
    || |a| == 0
    || (&& |b| > 0
        && ((a[0] == b[0] && IsSubsequence(a[1..], b[1..])) || IsSubsequence(a, b[1..])))
  }

  /** The links whose filename is not yet in the tracking list, in listing
      order; the list is consulted once, so repeated links all stay. */
  function NewFiles(links: seq<Item>, downloaded: seq<string>): seq<Item>
  {
    if |links| == 0 then []
    else
      var rest := NewFiles(links[1..], downloaded);
      if links[0].filename in downloaded then rest else [links[0]] + rest
  }

  /** Only the empty href is dropped by the guard, every other href is kept
      as often as it occurs, and order is kept. */
  lemma {:induction false} NonEmptyHrefsSelects(hrefs: seq<string>)
    ensures IsSubsequence(NonEmptyHrefs(hrefs), hrefs)
    ensures forall h :: h in NonEmptyHrefs(hrefs) <==> h in hrefs && h != ""
    ensures forall h ::
      multiset(NonEmptyHrefs(hrefs))[h] == (if h == "" then 0 else multiset(hrefs)[h])
    decreases |hrefs|
  {
    if |hrefs| > 0 {
      NonEmptyHrefsSelects(hrefs[1..]);
      assert hrefs == [hrefs[0]] + hrefs[1..];
    }
  }

  /** The new items appear in listing order. */
  lemma {:induction false} NewFilesOrdered(links: seq<Item>, downloaded: seq<string>)
    ensures IsSubsequence(NewFiles(links, downloaded), links)
    decreases |links|
  {
    if |links| > 0 {
      NewFilesOrdered(links[1..], downloaded);
    }
  }

  /** Each link whose filename is untracked is new as often as it is listed;
      no other link is new. */
  lemma {:induction false} NewFilesCounts(links: seq<Item>, downloaded: seq<string>)
    ensures forall x ::
      multiset(NewFiles(links, downloaded))[x] == (if x.filename in downloaded then 0 else multiset(links)[x])
    decreases |links|
  {
    if |links| > 0 {
      NewFilesCounts(links[1..], downloaded);
      assert links == [links[0]] + links[1..];
    }
  }

  /** An item is new exactly when it is listed and its filename is untracked. */
  lemma {:induction false} NewFilesMembers(links: seq<Item>, downloaded: seq<string>)
    ensures forall x :: x in NewFiles(links, downloaded) <==> x in links && x.filename !in downloaded
  {
    NewFilesCounts(links, downloaded);
  }

  lemma {:induction false} SubsequenceCounts<T>(a: seq<T>, b: seq<T>)
    requires IsSubsequence(a, b)
    ensures multiset(a) <= multiset(b)
    decreases |b|
  {
    if |a| == 0 {
    } else if a[0] == b[0] && IsSubsequence(a[1..], b[1..]) {
      SubsequenceCounts(a[1..], b[1..]);
      assert a == [a[0]] + a[1..];
      assert b == [b[0]] + b[1..];
    } else {
      SubsequenceCounts(a, b[1..]);
      assert b == [b[0]] + b[1..];
    }
  }

  /** NewFilesOrdered and NewFilesCounts pin the result down: any
      order-preserving selection of the links that keeps every link with an
      untracked filename, as often as it occurs, and nothing else, is
      NewFiles. */
  lemma {:induction false} NewFilesUnique(links: seq<Item>, downloaded: seq<string>, news: seq<Item>)
    requires IsSubsequence(news, links)
    requires forall x :: multiset(news)[x] == if x.filename in downloaded then 0 else multiset(links)[x]
    ensures news == NewFiles(links, downloaded)
    decreases |links|
  {
    if |links| == 0 {
    } else {
      var l := links[0];
      var rest := links[1..];
      assert links == [l] + rest;
      if l.filename !in downloaded {
        assert multiset(news)[l] == multiset(rest)[l] + 1;
        assert |news| > 0;
        if news[0] == l && IsSubsequence(news[1..], rest) {
          assert news == [l] + news[1..];
          forall x
            ensures multiset(news[1..])[x] == if x.filename in downloaded then 0 else multiset(rest)[x]
          {
          }
          NewFilesUnique(rest, downloaded, news[1..]);
        } else {
          SubsequenceCounts(news, rest);
          assert false;
        }
      } else {
        assert multiset(news)[l] == 0;
        assert l !in news;
        assert IsSubsequence(news, rest);
        forall x
          ensures multiset(news)[x] == if x.filename in downloaded then 0 else multiset(rest)[x]
        {
          if x.filename !in downloaded {
            assert x != l;
          }
        }
        NewFilesUnique(rest, downloaded, news);
      }
    }
  }

  /** When every link's filename is already tracked, nothing is new. */
  lemma {:induction false} AllTrackedNothingNew(links: seq<Item>, downloaded: seq<string>)
    requires forall x :: x in links ==> x.filename in downloaded
    ensures NewFiles(links, downloaded) == []
    decreases |links|
  {
    if |links| > 0 {
      assert links[0] in links;
      AllTrackedNothingNew(links[1..], downloaded);
    }
  }
}
