/**
 * The paging of the video grid (MeetingModel): which tiles the current page
 * shows, and whether the previous and next page buttons may be used.
 */
module Pagination {
  import opened Optional
  import opened Tiles

  /** Slots on one page of the video grid. */
  const VideoTileCountPerPage: nat := 4

  function Min(a: int, b: int): int
  {
    if a <= b then a else b
  }

  /**
   * Remote slots per page. The local tile, when there is one, takes one slot
   * of every page.
   */
  function RemoteCapacity(hasLocal: bool): (cap: nat)
    ensures 0 < cap <= VideoTileCountPerPage
    ensures cap + (if hasLocal then 1 else 0) == VideoTileCountPerPage
  {
    if !hasLocal then VideoTileCountPerPage else VideoTileCountPerPage - 1
  }

  /**
   * The remote tiles of page `pageIndex` when a page holds `cap` of them:
   * the slice from `pageIndex * cap` up to an inclusive end index, or nothing
   * when the end index falls before the start.
   */
  function RemoteWindow(remote: seq<Tile>, pageIndex: nat, cap: nat): (w: seq<Tile>)
    requires cap > 0
    ensures |w| <= cap
  {
    var start := pageIndex * cap;
    var endIndex := Min(|remote|, start + cap) - 1;
    if start <= endIndex then remote[start .. endIndex + 1] else []
  }

  /**
   * The page is rebuilt from scratch: the local tile first when there is one,
   * then the remote window of the page.
   */
  function ComputePage(local: Option<Tile>, remote: seq<Tile>, pageIndex: nat): (page: seq<Tile>)
    ensures |page| <= VideoTileCountPerPage
    ensures local.Some? ==> |page| >= 1 && page[0] == local.value
  {
    var head := if local.Some? then [local.value] else [];
    head + RemoteWindow(remote, pageIndex, RemoteCapacity(local.Some?))
  }

  /** The rest of a page is the remote window: four tiles wide, or three beside the local tile. */
  lemma PageLayout(local: Option<Tile>, remote: seq<Tile>, pageIndex: nat)
    ensures var page := ComputePage(local, remote, pageIndex);
            && (local.None? ==> page == RemoteWindow(remote, pageIndex, VideoTileCountPerPage))
            && (local.Some? ==> page[1..] == RemoteWindow(remote, pageIndex, VideoTileCountPerPage - 1))
  {
    var w := RemoteWindow(remote, pageIndex, RemoteCapacity(local.Some?));
    if local.Some? {
      assert ComputePage(local, remote, pageIndex)[1..] == w;
    }
  }

  /** The number of tiles of `page` that are not flagged as the local tile. */
  function RemoteCountInPage(page: seq<Tile>): (n: nat)
    ensures n <= |page|
  {
    if page == [] then 0
    else (if page[0].state.isLocalTile then 0 else 1) + RemoteCountInPage(page[1..])
  }

  /** Whether a page precedes the current one. */
  predicate CanGoToPrevVideoPage(pageIndex: nat)
  {
    pageIndex > 0
  }

  /**
   * For a page index that is 0 or starts inside the remote list, the
   * previous-page button is enabled exactly when a previous page exists, and
   * that page's window is then full.
   */
  lemma PrevPageIffFullPrevWindow(local: Option<Tile>, remote: seq<Tile>, pageIndex: nat)
    requires pageIndex == 0 || pageIndex * RemoteCapacity(local.Some?) < |remote|
    ensures CanGoToPrevVideoPage(pageIndex) <==>
              pageIndex > 0 && |RemoteWindow(remote, pageIndex - 1, RemoteCapacity(local.Some?))|
                               == RemoteCapacity(local.Some?)
  {
    var cap := RemoteCapacity(local.Some?);
    if pageIndex > 0 {
      assert (pageIndex - 1) * cap + cap == pageIndex * cap;
    }
  }

  /**
   * Whether a page follows the current one. The last page index is the
   * ceiling of remote count over remote capacity, minus one; the ceiling is
   * taken by integer division, which agrees with the floating-point ceiling
   * for non-negative counts.
   */
  function CanGoToNextVideoPage(hasLocal: bool, remoteCount: nat, pageIndex: nat): (b: bool)
    ensures b <==> (pageIndex + 1) * RemoteCapacity(hasLocal) < remoteCount
    ensures remoteCount == 0 ==> !b
  {
    var cap := RemoteCapacity(hasLocal);
    var maxVideoPageIndex := (remoteCount + cap - 1) / cap - 1;
    CeilingBound(remoteCount, cap, pageIndex);
    pageIndex < maxVideoPageIndex
  }

  /** Integer ceiling division: `ceil(n / cap) - 1 > p` exactly when `(p + 1) * cap < n`. */
  lemma CeilingBound(n: nat, cap: nat, p: nat)
    requires cap > 0
    ensures p < (n + cap - 1) / cap - 1 <==> (p + 1) * cap < n
  {
    var q := (n + cap - 1) / cap;
    var m := (n + cap - 1) % cap;
    assert n + cap - 1 == q * cap + m && 0 <= m < cap;
    if p < q - 1 {
      assert (p + 2) * cap <= q * cap by { MulMono(p + 2, q, cap); }
      assert (p + 2) * cap == (p + 1) * cap + cap;
    } else {
      MulMono(q, p + 1, cap);
    }
  }

  lemma MulMono(a: int, b: int, c: nat)
    requires a <= b
    ensures a * c <= b * c
  {
  }

  /** Page `p` of width `cap` holds exactly the indices whose quotient by `cap` is `p`. */
  lemma DivRange(i: nat, cap: nat, p: nat)
    requires cap > 0
    ensures i / cap == p <==> p * cap <= i < p * cap + cap
  {
    var q := i / cap;
    assert i == q * cap + i % cap;
    if q < p {
      MulMono(q + 1, p, cap);
      assert (q + 1) * cap == q * cap + cap;
    } else if q > p {
      MulMono(p + 1, q, cap);
      assert (p + 1) * cap == p * cap + cap;
    }
  }

  /**
   * The window of page `pageIndex` is the slice of the remote list starting
   * at `pageIndex * cap`, at most `cap` long and cut at the end of the list;
   * it is empty exactly when the page starts past the last remote tile.
   */
  lemma WindowIsSlice(remote: seq<Tile>, pageIndex: nat, cap: nat)
    requires cap > 0
    ensures var w := RemoteWindow(remote, pageIndex, cap);
            && (forall t :: t in w ==> t in remote)
            && (|w| > 0 <==> pageIndex * cap < |remote|)
            && (pageIndex * cap < |remote| ==>
                  w == remote[pageIndex * cap .. Min(|remote|, pageIndex * cap + cap)])
  {
  }

  /**
   * Remote tile `i` is shown on exactly one page, page `i / cap`, at slot
   * `i - pageIndex * cap` of the window.
   */
  lemma WindowHoldsItsIndices(remote: seq<Tile>, pageIndex: nat, cap: nat, i: nat)
    requires cap > 0 && i < |remote|
    ensures var w := RemoteWindow(remote, pageIndex, cap);
            (i / cap == pageIndex <==> pageIndex * cap <= i < pageIndex * cap + |w|)
    ensures i / cap == pageIndex ==>
              RemoteWindow(remote, pageIndex, cap)[i - pageIndex * cap] == remote[i]
  {
    DivRange(i, cap, pageIndex);
  }

  /**
   * When the local tile is the only tile flagged local, the remote count of a
   * computed page is the length of its remote window: the page length, less
   * one when a local tile is present.
   */
  lemma {:induction false} RemoteCountIsWindowLength(local: Option<Tile>, remote: seq<Tile>, pageIndex: nat)
    requires local.Some? ==> local.value.state.isLocalTile
    requires forall t :: t in remote ==> !t.state.isLocalTile
    ensures var page := ComputePage(local, remote, pageIndex);
            var w := RemoteWindow(remote, pageIndex, RemoteCapacity(local.Some?));
            && RemoteCountInPage(page) == |w|
            && RemoteCountInPage(page) == |page| - (if local.Some? then 1 else 0)
  {
    var page := ComputePage(local, remote, pageIndex);
    var w := RemoteWindow(remote, pageIndex, RemoteCapacity(local.Some?));
    NoLocalCount(w);
    if local.Some? {
      assert page == [local.value] + w;
      assert page[1..] == w;
    } else {
      assert page == w;
    }
  }

  lemma {:induction false} NoLocalCount(ts: seq<Tile>)
    requires forall t :: t in ts ==> !t.state.isLocalTile
    ensures RemoteCountInPage(ts) == |ts|
  {
    if ts != [] {
      assert forall t :: t in ts[1..] ==> t in ts;
      NoLocalCount(ts[1..]);
    }
  }

  /** The next-page button is enabled exactly when the next page's window is non-empty. */
  lemma NextPageIffNextWindowNonEmpty(local: Option<Tile>, remote: seq<Tile>, pageIndex: nat)
    ensures CanGoToNextVideoPage(local.Some?, |remote|, pageIndex)
            <==> |RemoteWindow(remote, pageIndex + 1, RemoteCapacity(local.Some?))| > 0
  {
  }

  /**
   * The page of a list whose pause states the engine changed is the old page
   * with the same change: the page holds the same tile objects, which share
   * the engine's state.
   */
  lemma PageOfPauseChange(local: Option<Tile>, remote: seq<Tile>, pageIndex: nat, id: int, p: PauseState)
    ensures var local' := if local.Some? then Some(WithPause(local.value, id, p)) else None;
            ComputePage(local', SetPauseState(remote, id, p), pageIndex)
              == SetPauseState(ComputePage(local, remote, pageIndex), id, p)
  {
    var cap := RemoteCapacity(local.Some?);
    var remote' := SetPauseState(remote, id, p);
    var start := pageIndex * cap;
    var endIndex := Min(|remote|, start + cap) - 1;
    var w := RemoteWindow(remote, pageIndex, cap);
    if start <= endIndex {
      SetPauseStateSlices(remote, [], start, endIndex + 1, id, p);
    }
    assert RemoteWindow(remote', pageIndex, cap) == SetPauseState(w, id, p);
    var head := if local.Some? then [local.value] else [];
    SetPauseStateSlices(head, w, 0, 0, id, p);
  }
}
