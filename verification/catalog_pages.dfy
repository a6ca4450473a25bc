/** Keyset pagination of the projection list. */
module CatalogPages {
  import opened Wrappers
  import opened Texts
  import opened JsonValues

  /** The ids that a query without cursor and limit would return: the matching ones, in order, each once. */
  ghost predicate IsListing(listing: seq<Text>, matching: set<Text>) {
    && (forall i, j :: 0 <= i < j < |listing| ==> LexLess(listing[i], listing[j]))
    && (forall id :: id in listing <==> id in matching)
  }

  /** The ids after the cursor, in order, up to a number of rows. */
  function Rows(listing: seq<Text>, after: Option<Text>, count: nat): seq<Text> {
    if listing == [] || count == 0 then []
    else if after.Some? && !LexLess(after.value, listing[0]) then Rows(listing[1..], after, count)
    else [listing[0]] + Rows(listing[1..], after, count - 1)
  }

  datatype Page = Page(ids: seq<Text>, next: Option<Text>)

  /** One page: one row more than the limit is read, to see whether there is another page. */
  function PageAfter(listing: seq<Text>, after: Option<Text>, limit: nat): Page
    requires limit >= 1
  {
    var rows := Rows(listing, after, limit + 1);
    var page := if |rows| <= limit then rows else rows[..limit];
    Page(page, if |rows| > limit then Some(page[|page| - 1]) else None)
  }

  lemma {:induction false} FirstRows(listing: seq<Text>, count: nat)
    ensures Rows(listing, None, count) == if count <= |listing| then listing[..count] else listing
  {
    if listing != [] && count > 0 {
      FirstRows(listing[1..], count - 1);
      assert listing == [listing[0]] + listing[1..];
    }
  }

  lemma {:induction false} RowsOfLarger(listing: seq<Text>, after: Text, count: nat)
    requires forall i :: 0 <= i < |listing| ==> LexLess(after, listing[i])
    ensures Rows(listing, Some(after), count) == Rows(listing, None, count)
  {
    hide LexLess;
    if listing != [] && count > 0 {
      RowsOfLarger(listing[1..], after, count - 1);
    }
  }

  /** After the id at position `k`, the rows go on at position `k + 1`. */
  lemma {:induction false} RowsAfter(listing: seq<Text>, k: nat, count: nat)
    requires forall i, j :: 0 <= i < j < |listing| ==> LexLess(listing[i], listing[j])
    requires k < |listing|
    ensures Rows(listing, Some(listing[k]), count) == Rows(listing[k + 1..], None, count)
  {
    LexTotal(listing[k], listing[k]);
    hide LexLess;
    if count == 0 {
    } else if k == 0 {
      RowsOfLarger(listing[1..], listing[0], count);
    } else {
      LexTotal(listing[0], listing[k]);
      RowsAfter(listing[1..], k - 1, count);
      assert listing[1..][k..] == listing[k + 1..];
    }
  }

  /** The page that starts at position `k`. */
  lemma NextPage(listing: seq<Text>, k: nat, after: Option<Text>, limit: nat)
    requires limit >= 1
    requires forall i, j :: 0 <= i < j < |listing| ==> LexLess(listing[i], listing[j])
    requires k <= |listing| && if k == 0 then after.None? else after == Some(listing[k - 1])
    ensures var page := PageAfter(listing, after, limit);
            if |listing| - k > limit then
              page == Page(listing[k..k + limit], Some(listing[k + limit - 1]))
            else page == Page(listing[k..], None)
  {
    hide LexLess;
    var rest := listing[k..];
    if k == 0 {
      assert rest == listing;
    } else {
      RowsAfter(listing, k - 1, limit + 1);
    }
    FirstRows(rest, limit + 1);
    if |rest| > limit {
      assert rest[..limit + 1][..limit] == rest[..limit] == listing[k..k + limit];
    }
  }

  /** On an unchanging table, a client that follows cursors until there is none collects every matching id exactly
      once, in order, whatever the page size. */
  method CollectPages(listing: seq<Text>, ghost matching: set<Text>, limit: nat) returns (ids: seq<Text>)
    requires limit >= 1 && IsListing(listing, matching)
    ensures ids == listing
    ensures forall id :: id in ids <==> id in matching
  {
    hide LexLess;
    var after: Option<Text> := None;
    ids := [];
    var more := true;
    while more
      invariant |ids| <= |listing| && ids == listing[..|ids|]
      invariant more ==> if ids == [] then after.None? else after == Some(ids[|ids| - 1])
      invariant !more ==> ids == listing
      decreases |listing| - |ids|, more
    {
      NextPage(listing, |ids|, after, limit);
      var page := PageAfter(listing, after, limit);
      ids := ids + page.ids;
      more := page.next.Some?;
      after := page.next;
    }
  }
}
