// The table of URLs the freshness check visits: a dictionary merged in place, then
// sorted, written as proof rows and validated again under the rows' own key.
module FreshnessUrls {
  import opened Common
  import opened Ordering

  /** One call of `add_freshness_url`. */
  datatype Entry = Entry(
    role: string,
    url: string,
    assetName: string,
    releaseTag: string,
    source: string,
    size: Option<int>,
    sha256: Option<string>)

  datatype FreshUrl = FreshUrl(
    role: string,
    url: string,
    assetName: string,
    releaseTag: string,
    sources: seq<string>,
    size: Option<int>,
    sha256: Option<string>)

  /** The dictionary, and the order in which its keys were inserted. */
  datatype Table = Table(byUrl: map<string, FreshUrl>, order: seq<string>)

  const EMPTY := Table(map[], [])

  function Created(e: Entry): FreshUrl {
    FreshUrl(e.role, e.url, e.assetName, e.releaseTag, [e.source], e.size, e.sha256)
  }

  /** `add_freshness_url` on values */
  function Add(t: Table, e: Entry): Table {
    if e.url !in t.byUrl then Table(t.byUrl[e.url := Created(e)], t.order + [e.url])
    else
      var current := t.byUrl[e.url];
      if e.source in current.sources then t
      else t.(byUrl := t.byUrl[e.url := current.(sources := Sort(current.sources + [e.source], StringLe))])
  }

  function AddAll(entries: seq<Entry>): Table {
    if entries == [] then EMPTY else Add(AddAll(entries[..|entries| - 1]), entries[|entries| - 1])
  }

  /** The dictionary `by_url` that the calls update in place. */
  class UrlTable {
    var byUrl: map<string, FreshUrl>
    var order: seq<string>

    ghost function Contents(): Table
      reads this
    {
      Table(byUrl, order)
    }

    constructor ()
      ensures Contents() == EMPTY
    {
      byUrl, order := map[], [];
    }

    method AddFreshnessUrl(e: Entry)
      modifies this
      ensures Contents() == Add(old(Contents()), e)
    {
      if e.url !in byUrl {
        byUrl, order := byUrl[e.url := Created(e)], order + [e.url];
        return;
      }
      var current := byUrl[e.url];
      if e.source in current.sources {
        return;
      }
      byUrl := byUrl[e.url := current.(sources := Sort(current.sources + [e.source], StringLe))];
    }

    method AddEntries(entries: seq<Entry>)
      requires Contents() == EMPTY
      modifies this
      ensures Contents() == AddAll(entries)
    {
      for n := 0 to |entries|
        invariant Contents() == AddAll(entries[..n])
      {
        assert entries[..n + 1][..n] == entries[..n];
        AddFreshnessUrl(entries[n]);
      }
      assert entries[..|entries|] == entries;
    }
  }

  // ------------------------------------------------------------ what the table holds

  /** The first call that named `url`. */
  function First(entries: seq<Entry>, url: string): Option<Entry> {
    if entries == [] then None
    else
      var front := First(entries[..|entries| - 1], url);
      if front.Some? then front
      else if entries[|entries| - 1].url == url then Some(entries[|entries| - 1])
      else None
  }

  function SourcesOf(entries: seq<Entry>, url: string): set<string> {
    set e | e in entries && e.url == url :: e.source
  }

  /** The row of `url`: the first call's fields, and the sources of all calls, sorted, once each. */
  predicate RowOk(entries: seq<Entry>, row: FreshUrl, url: string) {
    && First(entries, url).Some?
    && row.url == url
    && row.role == First(entries, url).value.role
    && row.assetName == First(entries, url).value.assetName
    && row.releaseTag == First(entries, url).value.releaseTag
    && row.size == First(entries, url).value.size
    && row.sha256 == First(entries, url).value.sha256
    && SortedBy(row.sources, StringLe)
    && Distinct(row.sources)
    && (set s | s in row.sources) == SourcesOf(entries, url)
  }

  ghost predicate TableOk(entries: seq<Entry>, t: Table) {
    && (forall u :: u in t.byUrl <==> First(entries, u).Some?)
    && (forall u :: u in t.byUrl ==> RowOk(entries, t.byUrl[u], u))
    && (forall u :: u in t.order <==> u in t.byUrl)
    && Distinct(t.order)
  }

  lemma FirstSnoc(front: seq<Entry>, e: Entry, url: string)
    ensures First(front + [e], url) ==
            if First(front, url).Some? then First(front, url) else if e.url == url then Some(e) else None
    ensures SourcesOf(front + [e], url) == SourcesOf(front, url) + (if e.url == url then {e.source} else {})
  {
    var all := front + [e];
    assert all[..|all| - 1] == front;
    assert forall x :: x in all <==> x in front || x == e;
  }

  lemma {:induction false} FirstMatches(entries: seq<Entry>, url: string)
    ensures First(entries, url).Some? ==> First(entries, url).value in entries && First(entries, url).value.url == url
    ensures First(entries, url).None? ==> forall e :: e in entries ==> e.url != url
  {
    if entries != [] {
      var front, last := entries[..|entries| - 1], entries[|entries| - 1];
      assert entries == front + [last];
      FirstMatches(front, url);
    }
  }

  /** Merging one more source keeps the list sorted, without duplicates, and complete. */
  lemma MergeSource(sources: seq<string>, source: string)
    requires Distinct(sources) && source !in sources
    ensures var merged := Sort(sources + [source], StringLe);
            && SortedBy(merged, StringLe)
            && Distinct(merged)
            && (set s | s in merged) == (set s | s in sources) + {source}
  {
    StringLeTotalOrder();
    DistinctSnoc(sources, source);
    SortCorrect(sources + [source], StringLe);
    SortKeepsDistinct(sources + [source], StringLe);
  }

  lemma RowKept(front: seq<Entry>, e: Entry, row: FreshUrl, url: string)
    requires RowOk(front, row, url) && (e.url != url || e.source in row.sources)
    ensures RowOk(front + [e], row, url)
  {
    FirstSnoc(front, e, url);
  }

  lemma RowMerged(front: seq<Entry>, e: Entry, row: FreshUrl)
    requires RowOk(front, row, e.url) && e.source !in row.sources
    ensures RowOk(front + [e], row.(sources := Sort(row.sources + [e.source], StringLe)), e.url)
  {
    FirstSnoc(front, e, e.url);
    MergeSource(row.sources, e.source);
  }

  lemma RowCreated(front: seq<Entry>, e: Entry)
    requires First(front, e.url).None?
    ensures RowOk(front + [e], Created(e), e.url)
  {
    FirstSnoc(front, e, e.url);
    FirstMatches(front, e.url);
    assert SourcesOf(front, e.url) == {};
    assert (set s | s in [e.source]) == {e.source};
  }

  /** One more call keeps the table exact. */
  lemma AddKeepsTable(front: seq<Entry>, t: Table, e: Entry)
    requires TableOk(front, t)
    ensures TableOk(front + [e], Add(t, e))
  {
    var after := Add(t, e);
    forall u ensures u in after.byUrl <==> First(front + [e], u).Some? {
      FirstSnoc(front, e, u);
    }
    forall u | u in after.byUrl ensures RowOk(front + [e], after.byUrl[u], u) {
      if u != e.url {
        RowKept(front, e, t.byUrl[u], u);
      } else if u !in t.byUrl {
        RowCreated(front, e);
      } else if e.source in t.byUrl[u].sources {
        RowKept(front, e, t.byUrl[u], u);
      } else {
        RowMerged(front, e, t.byUrl[u]);
      }
    }
    if e.url !in t.byUrl {
      DistinctSnoc(t.order, e.url);
    }
  }

  /** After any calls the table holds each URL once, with the first call's fields and exactly the
      sorted set of its sources. */
  lemma {:induction false} TableIsExact(entries: seq<Entry>)
    ensures TableOk(entries, AddAll(entries))
  {
    if entries != [] {
      var front, last := entries[..|entries| - 1], entries[|entries| - 1];
      TableIsExact(front);
      AddKeepsTable(front, AddAll(front), last);
      assert entries == front + [last];
    }
  }

  // ------------------------------------------------------------ rows of the proof

  function SortKey(u: FreshUrl): seq<string> {
    [u.role, u.releaseTag, u.assetName, u.url] + u.sources
  }

  predicate UrlLe(a: FreshUrl, b: FreshUrl) {
    TupleLe(SortKey(a), SortKey(b))
  }

  lemma UrlLeTotal()
    ensures TotalPreorder(UrlLe)
  {
    TupleLeTotalOrder();
    forall a: FreshUrl, b: FreshUrl ensures UrlLe(a, b) || UrlLe(b, a) {
      assert TupleLe(SortKey(a), SortKey(b)) || TupleLe(SortKey(b), SortKey(a));
    }
    forall a: FreshUrl, b: FreshUrl, c: FreshUrl | UrlLe(a, b) && UrlLe(b, c) ensures UrlLe(a, c) {
      assert TupleLe(SortKey(a), SortKey(b)) && TupleLe(SortKey(b), SortKey(c));
    }
  }

  function Values(t: Table): (values: seq<FreshUrl>)
    requires forall u :: u in t.order ==> u in t.byUrl
    ensures |values| == |t.order|
    ensures forall i :: 0 <= i < |t.order| ==> values[i] == t.byUrl[t.order[i]]
  {
    seq(|t.order|, i requires 0 <= i < |t.order| => t.byUrl[t.order[i]])
  }

  /** `freshness_urls`, from its calls to the sorted list */
  function FreshnessList(entries: seq<Entry>): seq<FreshUrl> {
    TableIsExact(entries);
    Sort(Values(AddAll(entries)), UrlLe)
  }

  function ProofRow(u: FreshUrl): FreshUrl {
    u.(sources := Sort(u.sources, StringLe))
  }

  function MapRows(urls: seq<FreshUrl>): (rows: seq<FreshUrl>)
    ensures |rows| == |urls|
    ensures forall i :: 0 <= i < |urls| ==> rows[i] == ProofRow(urls[i])
  {
    Project(urls, ProofRow)
  }

  /** `checked_url_proof_rows` */
  function ProofRows(checks: seq<FreshUrl>): seq<FreshUrl> {
    MapRows(Sort(checks, UrlLe))
  }

  /** `validate_checked_urls` reports nothing */
  predicate RowsValid(rows: seq<FreshUrl>) {
    && rows == Sort(rows, UrlLe)
    && forall r :: r in rows ==> r.sources == Sort(r.sources, StringLe)
  }

  /** The validator asks for exactly this: rows in order, and the sources of each in order. */
  lemma RowsValidExactly(rows: seq<FreshUrl>)
    ensures RowsValid(rows) <==> SortedBy(rows, UrlLe) && forall r :: r in rows ==> SortedBy(r.sources, StringLe)
  {
    UrlLeTotal();
    StringLeTotalOrder();
    SortedExactly(rows, UrlLe);
    forall r | r in rows ensures r.sources == Sort(r.sources, StringLe) <==> SortedBy(r.sources, StringLe) {
      SortedExactly(r.sources, StringLe);
    }
  }

  lemma ListedRowOk(entries: seq<Entry>, u: FreshUrl)
    requires u in FreshnessList(entries)
    ensures u.url in AddAll(entries).byUrl && AddAll(entries).byUrl[u.url] == u
    ensures RowOk(entries, u, u.url)
  {
    TableIsExact(entries);
    UrlLeTotal();
    var t := AddAll(entries);
    SortCorrect(Values(t), UrlLe);
    assert u in Values(t);
    var i :| 0 <= i < |t.order| && Values(t)[i] == u;
    assert t.order[i] in t.order;
    assert RowOk(entries, t.byUrl[t.order[i]], t.order[i]);
  }

  lemma ValuesDistinct(entries: seq<Entry>)
    ensures TableOk(entries, AddAll(entries))
    ensures Distinct(Values(AddAll(entries)))
  {
    TableIsExact(entries);
    var t := AddAll(entries);
    forall i, j | 0 <= i < j < |t.order| ensures Values(t)[i] != Values(t)[j] {
      assert t.order[i] in t.order && t.order[j] in t.order;
      assert RowOk(entries, t.byUrl[t.order[i]], t.order[i]) && RowOk(entries, t.byUrl[t.order[j]], t.order[j]);
    }
  }

  lemma NamedUrlListed(entries: seq<Entry>, e: Entry)
    requires e in entries
    ensures e.url in AddAll(entries).byUrl && AddAll(entries).byUrl[e.url] in FreshnessList(entries)
  {
    TableIsExact(entries);
    UrlLeTotal();
    FirstMatches(entries, e.url);
    var t := AddAll(entries);
    SortCorrect(Values(t), UrlLe);
    assert e.url in t.order;
    var i :| 0 <= i < |t.order| && t.order[i] == e.url;
    assert Values(t)[i] == t.byUrl[e.url];
    assert Values(t)[i] in multiset(Values(t));
  }

  /** The list is ordered by role, then release tag, then asset name, then URL. */
  lemma ListInOrder(entries: seq<Entry>, i: nat, j: nat)
    requires i < j < |FreshnessList(entries)|
    ensures var a, b := FreshnessList(entries)[i], FreshnessList(entries)[j];
            TupleLe([a.role, a.releaseTag, a.assetName, a.url] + a.sources, [b.role, b.releaseTag, b.assetName, b.url] + b.sources)
  {
    TableIsExact(entries);
    UrlLeTotal();
    SortCorrect(Values(AddAll(entries)), UrlLe);
    assert UrlLe(FreshnessList(entries)[i], FreshnessList(entries)[j]);
  }

  /** The sorted list has one row for each URL that some call named and no other row; a row has
      the first call's fields and the sorted set of all its calls' sources. */
  lemma ListIsExact(entries: seq<Entry>)
    ensures forall u :: u in FreshnessList(entries) ==> RowOk(entries, u, u.url)
    ensures forall e :: e in entries ==> exists u :: u in FreshnessList(entries) && u.url == e.url
    ensures forall i, j :: 0 <= i < j < |FreshnessList(entries)| ==>
              FreshnessList(entries)[i].url != FreshnessList(entries)[j].url
  {
    var list := FreshnessList(entries);
    forall u | u in list ensures RowOk(entries, u, u.url) {
      ListedRowOk(entries, u);
    }
    forall e | e in entries ensures exists u :: u in list && u.url == e.url {
      NamedUrlListed(entries, e);
      ListedRowOk(entries, AddAll(entries).byUrl[e.url]);
      TableIsExact(entries);
      assert RowOk(entries, AddAll(entries).byUrl[e.url], e.url);
    }
    ValuesDistinct(entries);
    UrlLeTotal();
    SortKeepsDistinct(Values(AddAll(entries)), UrlLe);
    forall i, j | 0 <= i < j < |list| ensures list[i].url != list[j].url {
      ListedRowOk(entries, list[i]);
      ListedRowOk(entries, list[j]);
    }
  }

  lemma MapRowsIdentity(urls: seq<FreshUrl>)
    requires forall u :: u in urls ==> SortedBy(u.sources, StringLe)
    ensures MapRows(urls) == urls
    ensures forall u :: u in urls ==> u.sources == Sort(u.sources, StringLe)
  {
    forall u | u in urls ensures u.sources == Sort(u.sources, StringLe) {
      SortOfSorted(u.sources, StringLe);
    }
    forall i | 0 <= i < |urls| ensures MapRows(urls)[i] == urls[i] {
      assert urls[i] in urls;
    }
  }

  /** Every proof built from the table validates under the rows' key: the rows are the list
      itself. */
  lemma ProofRowsValidate(entries: seq<Entry>)
    ensures ProofRows(FreshnessList(entries)) == FreshnessList(entries)
    ensures RowsValid(ProofRows(FreshnessList(entries)))
  {
    TableIsExact(entries);
    UrlLeTotal();
    var list := FreshnessList(entries);
    SortCorrect(Values(AddAll(entries)), UrlLe);
    SortOfSorted(list, UrlLe);
    forall u | u in list ensures SortedBy(u.sources, StringLe) {
      ListedRowOk(entries, u);
    }
    MapRowsIdentity(list);
  }
}
