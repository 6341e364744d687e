/**
 * The meeting screen's tile coordinator (MeetingFragment with its
 * MeetingModel) as an immutable session record. Every engine callback and
 * button handler is a function from a session to a `Step`: the next session
 * and the engine calls made on the way, in order.
 */
module Coordinator {
  import opened Optional
  import opened Tiles
  import opened Engine
  import opened Capture
  import opened Pagination
  import ActiveSpeakers

  /** The tile id the screen unbinds for the local tile when the meeting ends. */
  const LocalTileId: int := 0

  datatype Session = Session(
    roster: map<string, string>,  // attendee id to display name
    local: Option<Tile>,          // the local video tile, if any
    remote: seq<Tile>,            // remote video tiles, in display order
    page: seq<Tile>,              // tiles of the current page, as last computed
    screen: seq<Tile>,            // content-share tiles
    pageIndex: nat,
    userPaused: set<int>,         // tile ids the user paused by hand
    capture: CaptureFlags,
    isMuted: bool,
    isCameraOn: bool)

  datatype Step = Step(session: Session, trace: seq<Command>)

  /** A fresh meeting: no tiles, first page, unmuted, camera off. */
  function Initial(roster: map<string, string>): (r: Session)
    ensures Inv(r) && r.local.None? && r.remote == [] && r.screen == [] && r.userPaused == {}
  {
    Session(roster, None, [], [], [], 0, {}, InitialFlags, false, false)
  }

  /** The page that page index `q` would show for the tiles of `s`. */
  function PageAt(s: Session, q: nat): seq<Tile>
  {
    ComputePage(s.local, s.remote, q)
  }

  function Capacity(s: Session): nat
  {
    RemoteCapacity(s.local.Some?)
  }

  // ---------------------------------------------------------------------
  // Pause and resume of remote tiles after a page change
  // ---------------------------------------------------------------------

  /**
   * The engine call made for one remote tile: a tile shown on the page and
   * not paused by the user is resumed if the engine holds it paused; any
   * other tile is paused unless the engine already holds it paused.
   */
  function Instruction(page: seq<Tile>, userPaused: set<int>, t: Tile): (r: seq<Command>)
    ensures |r| <= 1
    ensures var visible := Contains(page, t) && t.Id() !in userPaused;
            var held := t.state.pauseState == PausedByUserRequest;
            && (r == [ResumeRemoteVideoTile(t.Id())] <==> visible && held)
            && (r == [PauseRemoteVideoTile(t.Id())] <==> !visible && !held)
            && (r == [] <==> visible != held)
  {
    if Contains(page, t) && t.Id() !in userPaused then
      if t.state.pauseState == PausedByUserRequest then [ResumeRemoteVideoTile(t.Id())] else []
    else if t.state.pauseState != PausedByUserRequest then [PauseRemoteVideoTile(t.Id())]
    else []
  }

  /** The calls for all remote tiles, in remote-list order. */
  function Instructions(remote: seq<Tile>, page: seq<Tile>, userPaused: set<int>): (r: seq<Command>)
    ensures |r| <= |remote|
  {
    if remote == [] then []
    else Instruction(page, userPaused, remote[0]) + Instructions(remote[1..], page, userPaused)
  }

  /** Every call of a batch pauses or resumes one of the remote tiles. */
  lemma {:induction false} InstructionsNameRemoteTiles(remote: seq<Tile>, page: seq<Tile>, userPaused: set<int>)
    ensures forall c :: c in Instructions(remote, page, userPaused) ==>
              (c.ResumeRemoteVideoTile? || c.PauseRemoteVideoTile?) && HasId(remote, c.tileId)
  {
    if remote != [] {
      var rest := Instructions(remote[1..], page, userPaused);
      InstructionsNameRemoteTiles(remote[1..], page, userPaused);
      forall c | c in rest ensures HasId(remote, c.tileId) {
        var k :| 0 <= k < |remote[1..]| && remote[1..][k].Id() == c.tileId;
        assert remote[k + 1].Id() == c.tileId;
      }
    }
  }

  /**
   * The calls follow the remote list: the batch of two lists one after the
   * other is the first list's batch followed by the second's.
   */
  lemma {:induction false} InstructionsAppend(a: seq<Tile>, b: seq<Tile>, page: seq<Tile>, userPaused: set<int>)
    ensures Instructions(a + b, page, userPaused)
              == Instructions(a, page, userPaused) + Instructions(b, page, userPaused)
  {
    if a != [] {
      assert (a + b)[1..] == a[1..] + b;
      InstructionsAppend(a[1..], b, page, userPaused);
    } else {
      assert a + b == b;
    }
  }

  /** The batch of one tile is that tile's own call, if any. */
  lemma InstructionsSingle(t: Tile, page: seq<Tile>, userPaused: set<int>)
    ensures Instructions([t], page, userPaused) == Instruction(page, userPaused, t)
  {
  }

  /** The pause and resume calls that end a page update, in remote-list order. */
  function Batch(s: Session): seq<Command>
  {
    Instructions(s.remote, s.page, s.userPaused)
  }

  /** `k` copies of `b`, one after another. */
  function Repeat(b: seq<Command>, k: nat): seq<Command>
  {
    if k == 0 then [] else Repeat(b, k - 1) + b
  }

  // ---------------------------------------------------------------------
  // Page update and page-index revalidation
  // ---------------------------------------------------------------------

  /**
   * What a page update promises. Starting from `s`, the result `r` keeps
   * every field of `s` except the page index and the page; the index only
   * goes down; the new page is the computed page of the new index; that page
   * shows a remote tile unless the index is 0; every page strictly between
   * the new and the old index shows none; and the trace is the call batch of
   * the settled page, `extra` times more than the number of steps back.
   */
  predicate Settles(s: Session, r: Step, extra: nat)
  {
    var f := r.session.pageIndex;
    && f <= s.pageIndex
    && r.session == s.(pageIndex := f, page := PageAt(s, f))
    && (f == 0 || RemoteCountInPage(r.session.page) > 0)
    && NoRemoteBetween(s.local, s.remote, f, s.pageIndex)
    && r.trace == Repeat(Batch(r.session), s.pageIndex - f + extra)
  }

  /**
   * `onVideoPageUpdated`: recompute the page, revalidate the page index,
   * then issue the pause/resume calls. Revalidation calls back into this
   * function once per step back, so the page settles on the last index at or
   * below the current one whose page has a remote tile (or on 0), and the
   * call batch of the settled page is issued once per nesting level.
   */
  function PageUpdated(s: Session): (r: Step)
    decreases s.pageIndex, 1
    ensures Settles(s, r, 1)
  {
    var s1 := s.(page := PageAt(s, s.pageIndex));
    var v := Revalidate(s1);
    RecomputeSettles(s, v);
    Step(v.session, v.trace + Batch(v.session))
  }

  /**
   * `revalidateVideoPageIndex`: while a previous page exists and the current
   * page shows no remote tile, step back one page and update the page.
   */
  function Revalidate(s: Session): (r: Step)
    requires s.page == PageAt(s, s.pageIndex)
    decreases s.pageIndex, 0
    ensures Settles(s, r, 0)
  {
    if CanGoToPrevVideoPage(s.pageIndex) && RemoteCountInPage(s.page) == 0 then
      var u := PageUpdated(s.(pageIndex := s.pageIndex - 1));
      var w := Revalidate(u.session);
      StepBackFacts(s, u);
      SettledPageIsFixed(u.session, w);
      StepBackSettles(s, u, w);
      Step(w.session, u.trace + w.trace)
    else
      Step(s, [])
  }

  /** Every page above `f` up to `p` shows no remote tile. */
  predicate NoRemoteBetween(local: Option<Tile>, remote: seq<Tile>, f: nat, p: nat)
  {
    forall q: nat :: f < q <= p ==> RemoteCountInPage(ComputePage(local, remote, q)) == 0
  }

  /** Recomputing the page, revalidating, then issuing the batch once more. */
  lemma RecomputeSettles(s: Session, v: Step)
    requires Settles(s.(page := PageAt(s, s.pageIndex)), v, 0)
    ensures Settles(s, Step(v.session, v.trace + Batch(v.session)), 1)
  {
    var s1 := s.(page := PageAt(s, s.pageIndex));
    var f, b := v.session.pageIndex, Batch(v.session);
    assert s1.local == s.local && s1.remote == s.remote && s1.pageIndex == s.pageIndex;
    assert v.session == s.(pageIndex := f, page := PageAt(s, f));
    RepeatOnceMore(v.trace, b, s.pageIndex - f);
    SettlesIntro(s, Step(v.session, v.trace + b), 1);
  }

  lemma RepeatOnceMore(t: seq<Command>, b: seq<Command>, k: nat)
    requires t == Repeat(b, k)
    ensures t + b == Repeat(b, k + 1)
  {
  }

  /**
   * One pass of the revalidation loop: the page update from the previous
   * index settled at `u`, and revalidating there changed nothing.
   */
  lemma StepBackSettles(s: Session, u: Step, w: Step)
    requires var p, f := s.pageIndex, u.session.pageIndex;
             && f < p
             && u.session == s.(pageIndex := f, page := PageAt(s, f))
             && (f == 0 || RemoteCountInPage(u.session.page) > 0)
             && NoRemoteBetween(s.local, s.remote, f, p - 1)
             && RemoteCountInPage(ComputePage(s.local, s.remote, p)) == 0
             && u.trace == Repeat(Batch(u.session), p - f)
    requires w == Step(u.session, [])
    ensures Settles(s, Step(w.session, u.trace + w.trace), 0)
  {
    assert Step(w.session, u.trace + w.trace) == u by {
      assert u.trace + [] == u.trace;
    }
    ExtendEmptyRun(s.local, s.remote, u.session.pageIndex, s.pageIndex);
    SettlesIntro(s, u, 0);
  }

  /** What a page update from the previous index says about `s` itself. */
  lemma StepBackFacts(s: Session, u: Step)
    requires s.page == PageAt(s, s.pageIndex)
    requires s.pageIndex > 0 && RemoteCountInPage(s.page) == 0
    requires Settles(s.(pageIndex := s.pageIndex - 1), u, 1)
    ensures var p, f := s.pageIndex, u.session.pageIndex;
            && f < p
            && u.session == s.(pageIndex := f, page := PageAt(s, f))
            && (f == 0 || RemoteCountInPage(u.session.page) > 0)
            && NoRemoteBetween(s.local, s.remote, f, p - 1)
            && RemoteCountInPage(ComputePage(s.local, s.remote, p)) == 0
            && u.trace == Repeat(Batch(u.session), p - f)
  {
    var s1 := s.(pageIndex := s.pageIndex - 1);
    var p, f := s.pageIndex, u.session.pageIndex;
    assert s1.local == s.local && s1.remote == s.remote;
    assert PageAt(s1, f) == PageAt(s, f);
    assert s1.pageIndex - f + 1 == p - f;
  }

  /** The parts of `Settles`, one at a time. */
  lemma SettlesIntro(s: Session, r: Step, extra: nat)
    requires r.session.pageIndex <= s.pageIndex
    requires r.session == s.(pageIndex := r.session.pageIndex, page := PageAt(s, r.session.pageIndex))
    requires r.session.pageIndex == 0 || RemoteCountInPage(r.session.page) > 0
    requires NoRemoteBetween(s.local, s.remote, r.session.pageIndex, s.pageIndex)
    requires r.trace == Repeat(Batch(r.session), s.pageIndex - r.session.pageIndex + extra)
    ensures Settles(s, r, extra)
  {
  }

  /**
   * Revalidating a page that already satisfies the exit condition changes
   * nothing and issues nothing.
   */
  lemma SettledPageIsFixed(s: Session, w: Step)
    requires s.page == PageAt(s, s.pageIndex)
    requires s.pageIndex == 0 || RemoteCountInPage(s.page) > 0
    requires Settles(s, w, 0)
    ensures w == Step(s, [])
  {
    assert RemoteCountInPage(ComputePage(s.local, s.remote, s.pageIndex)) == RemoteCountInPage(s.page);
    assert w.session.pageIndex == s.pageIndex;
    assert w.session == s;
  }


  /** A run of pages without remote tiles, extended by one more such page above it. */
  lemma ExtendEmptyRun(local: Option<Tile>, remote: seq<Tile>, f: nat, p: nat)
    requires f < p
    requires NoRemoteBetween(local, remote, f, p - 1)
    requires RemoteCountInPage(ComputePage(local, remote, p)) == 0
    ensures NoRemoteBetween(local, remote, f, p)
  {
    forall q: nat | f < q <= p ensures RemoteCountInPage(ComputePage(local, remote, q)) == 0 {
      if q < p {
        assert f < q <= p - 1;
      }
    }
  }

  // ---------------------------------------------------------------------
  // Where revalidation settles
  // ---------------------------------------------------------------------

  /** The local tile is the only tile flagged local. */
  predicate KindsOk(s: Session)
  {
    && (s.local.Some? ==> s.local.value.state.isLocalTile)
    && (forall t :: t in s.remote ==> !t.state.isLocalTile)
  }

  /**
   * The page index revalidation settles on, in closed form: unchanged when
   * its page has a remote tile, otherwise the last page that has one, or 0
   * when there are no remote tiles.
   */
  function SettledIndex(hasLocal: bool, n: nat, p: nat): nat
  {
    var cap := RemoteCapacity(hasLocal);
    if n == 0 then 0 else if p * cap < n then p else (n - 1) / cap
  }

  lemma CountZeroIffPastEnd(s: Session, q: nat)
    requires KindsOk(s)
    ensures RemoteCountInPage(PageAt(s, q)) == 0 <==> q * Capacity(s) >= |s.remote|
  {
    RemoteCountIsWindowLength(s.local, s.remote, q);
  }

  lemma MulMonoIf(a: int, b: int, c: nat)
    ensures a <= b ==> a * c <= b * c
  {
    if a <= b { MulMono(a, b, c); }
  }

  /** Revalidation lands on the closed-form index. */
  lemma RevalidationSettles(s: Session)
    requires KindsOk(s)
    ensures PageUpdated(s).session.pageIndex == SettledIndex(s.local.Some?, |s.remote|, s.pageIndex)
  {
    var r := PageUpdated(s);
    SettlesInArithmetic(s, r, 1);
    SettledArithmetic(|s.remote|, Capacity(s), s.pageIndex, r.session.pageIndex);
  }

  /** The contract of a page update, read as arithmetic on the page start. */
  lemma SettlesInArithmetic(s: Session, r: Step, extra: nat)
    requires KindsOk(s) && Settles(s, r, extra)
    ensures var f, n, cap := r.session.pageIndex, |s.remote|, Capacity(s);
            && (f == 0 || f * cap < n)
            && (forall q: nat :: f < q <= s.pageIndex ==> q * cap >= n)
  {
    var f, n, cap := r.session.pageIndex, |s.remote|, Capacity(s);
    assert r.session.page == PageAt(s, f);
    CountZeroIffPastEnd(s, f);
    forall q: nat | f < q <= s.pageIndex ensures q * cap >= n {
      assert RemoteCountInPage(ComputePage(s.local, s.remote, q)) == 0;
      CountZeroIffPastEnd(s, q);
    }
  }

  /**
   * The arithmetic of settling: the largest index at or below `p` whose page
   * starts inside the list, or 0.
   */
  lemma SettledArithmetic(n: nat, cap: nat, p: nat, f: nat)
    requires cap > 0 && f <= p
    requires f == 0 || f * cap < n
    requires forall q: nat :: f < q <= p ==> q * cap >= n
    ensures f == if n == 0 then 0 else if p * cap < n then p else (n - 1) / cap
  {
    if n > 0 && p * cap >= n {
      var last := (n - 1) / cap;
      DivRange(n - 1, cap, last);
      MulMonoIf(p, last, cap);
      MulMonoIf(last + 1, f, cap);
      assert last < p;
      assert f >= last;
    }
  }

  // ---------------------------------------------------------------------
  // The session invariant
  // ---------------------------------------------------------------------

  /** What every tile operation keeps, independent of the page. */
  predicate TilesOk(s: Session)
  {
    && (s.local.Some? ==> s.local.value.state.isLocalTile && !s.local.value.state.isContent)
    && (forall t :: t in s.remote ==> !t.state.isLocalTile && !t.state.isContent)
    && UniqueIds(s.remote)
    && (forall t :: t in s.screen ==> t.state.isContent)
    && FiltersExclusive(s.capture)
  }

  /**
   * The session invariant: tiles well kept, the stored page is the computed
   * one, and the page index is 0 or shows at least one remote tile.
   */
  predicate Inv(s: Session)
  {
    && TilesOk(s)
    && s.page == PageAt(s, s.pageIndex)
    && (s.pageIndex == 0 || s.pageIndex * Capacity(s) < |s.remote|)
  }

  /** A page update re-establishes the invariant from any session whose tiles are well kept. */
  lemma PageUpdatedInv(s: Session)
    requires TilesOk(s)
    ensures Inv(PageUpdated(s).session)
  {
    var r := PageUpdated(s);
    var f := r.session.pageIndex;
    assert Settles(s, r, 1);
    assert r.session == s.(pageIndex := f, page := PageAt(s, f));
    assert TilesOk(r.session);
    assert r.session.page == PageAt(r.session, f);
    CountZeroIffPastEnd(s, f);
    assert f == 0 || f * Capacity(r.session) < |r.session.remote|;
  }

  /** Updating the page twice gives the session of one update; the second only repeats the calls. */
  lemma PageUpdatedIdempotent(s: Session)
    ensures var r := PageUpdated(s);
            PageUpdated(r.session) == Step(r.session, Batch(r.session))
  {
    var r := PageUpdated(s);
    var r2 := PageUpdated(r.session);
    SettledPageIsFixed(r.session, Revalidate(r.session));
  }

  // ---------------------------------------------------------------------
  // The pause/resume decision per remote tile
  // ---------------------------------------------------------------------

  /**
   * Each remote tile gets the call its own decision asks for, and no other
   * call names it: with unique ids, no two calls of a batch name one tile.
   */
  lemma {:induction false} InstructionsPerTile(remote: seq<Tile>, page: seq<Tile>, userPaused: set<int>)
    requires UniqueIds(remote)
    ensures var r := Instructions(remote, page, userPaused);
            && (forall c :: c in r ==> c.ResumeRemoteVideoTile? || c.PauseRemoteVideoTile?)
            && (forall j, k :: 0 <= j < k < |r| ==> r[j].tileId != r[k].tileId)
            && (forall i, c :: 0 <= i < |remote| && c in Instruction(page, userPaused, remote[i]) ==> c in r)
            && (forall i, c :: 0 <= i < |remote| && c in r && c.tileId == remote[i].Id() ==>
                  Instruction(page, userPaused, remote[i]) == [c])
  {
    InstructionsNameRemoteTiles(remote, page, userPaused);
    if remote != [] {
      var x, rest := remote[0], remote[1..];
      UniqueTail(remote);
      InstructionsNameRemoteTiles(rest, page, userPaused);
      InstructionsPerTile(rest, page, userPaused);
      var head, tail := Instruction(page, userPaused, x), Instructions(rest, page, userPaused);
      assert Instructions(remote, page, userPaused) == head + tail;
      assert forall c :: c in tail ==> c.tileId != x.Id();
      DistinctJoin(head, tail, x.Id());
      CompleteJoin(remote, page, userPaused);
      SoundJoin(remote, page, userPaused);
    }
  }

  /** The tail of a list with unique ids has unique ids and lacks the head's id. */
  lemma UniqueTail(remote: seq<Tile>)
    requires UniqueIds(remote) && remote != []
    ensures UniqueIds(remote[1..]) && !HasId(remote[1..], remote[0].Id())
  {
    var rest := remote[1..];
    forall i, j | 0 <= i < j < |rest| ensures rest[i].Id() != rest[j].Id() {
      assert remote[i + 1].Id() != remote[j + 1].Id();
    }
    forall k | 0 <= k < |rest| ensures rest[k].Id() != remote[0].Id() {
      assert remote[k + 1].Id() != remote[0].Id();
    }
  }

  /** At most one call naming `id`, followed by calls with pairwise distinct ids none of which is `id`. */
  lemma DistinctJoin(head: seq<Command>, tail: seq<Command>, id: int)
    requires forall c :: c in head + tail ==> c.ResumeRemoteVideoTile? || c.PauseRemoteVideoTile?
    requires |head| <= 1 && forall c :: c in head ==> c.tileId == id
    requires forall c :: c in tail ==> c.tileId != id
    requires forall j, k :: 0 <= j < k < |tail| ==> tail[j].tileId != tail[k].tileId
    ensures var r := head + tail;
            forall j, k :: 0 <= j < k < |r| ==> r[j].tileId != r[k].tileId
  {
    var r := head + tail;
    forall j, k | 0 <= j < k < |r| ensures r[j].tileId != r[k].tileId {
      if j < |head| {
        assert r[j] in head && r[k] == tail[k - |head|];
        assert r[k] in tail;
      } else {
        assert r[j] == tail[j - |head|] && r[k] == tail[k - |head|];
      }
    }
  }

  lemma CompleteJoin(remote: seq<Tile>, page: seq<Tile>, userPaused: set<int>)
    requires remote != []
    requires forall i, c :: 0 <= i < |remote[1..]| && c in Instruction(page, userPaused, remote[1..][i]) ==>
               c in Instructions(remote[1..], page, userPaused)
    ensures forall i, c :: 0 <= i < |remote| && c in Instruction(page, userPaused, remote[i]) ==>
              c in Instructions(remote, page, userPaused)
  {
    forall i, c | 0 <= i < |remote| && c in Instruction(page, userPaused, remote[i])
      ensures c in Instructions(remote, page, userPaused)
    {
      if i > 0 {
        assert remote[i] == remote[1..][i - 1];
      }
    }
  }

  lemma SoundJoin(remote: seq<Tile>, page: seq<Tile>, userPaused: set<int>)
    requires remote != [] && !HasId(remote[1..], remote[0].Id())
    requires forall c :: c in Instructions(remote, page, userPaused) ==>
               c.ResumeRemoteVideoTile? || c.PauseRemoteVideoTile?
    requires forall c :: c in Instructions(remote[1..], page, userPaused) ==>
               (c.ResumeRemoteVideoTile? || c.PauseRemoteVideoTile?) && c.tileId != remote[0].Id()
    requires forall i, c ::
               (0 <= i < |remote[1..]| && c in Instructions(remote[1..], page, userPaused) && c.tileId == remote[1..][i].Id())
               ==> Instruction(page, userPaused, remote[1..][i]) == [c]
    ensures forall i, c ::
              (0 <= i < |remote| && c in Instructions(remote, page, userPaused) && c.tileId == remote[i].Id())
              ==> Instruction(page, userPaused, remote[i]) == [c]
  {
    var rest := remote[1..];
    var head, tail := Instruction(page, userPaused, remote[0]), Instructions(rest, page, userPaused);
    forall i, c: Command | 0 <= i < |remote| && c in head + tail && c.tileId == remote[i].Id()
      ensures Instruction(page, userPaused, remote[i]) == [c]
    {
      if i == 0 {
        assert c !in tail;
      } else {
        assert remote[i] == rest[i - 1];
        assert remote[0].Id() != remote[i].Id() by {
          assert rest[i - 1].Id() == remote[i].Id();
        }
        assert c !in head;
      }
    }
  }

  /**
   * With the session invariant, a remote tile is on the page exactly when
   * its index lies on the current page: the local tile at the head of the
   * page is never a remote tile, and no two remote tiles are equal.
   */
  lemma ShownIffOnCurrentPage(s: Session, i: nat)
    requires Inv(s) && i < |s.remote|
    ensures Contains(s.page, s.remote[i]) <==> i / Capacity(s) == s.pageIndex
  {
    var w := RemoteWindow(s.remote, s.pageIndex, Capacity(s));
    var head := if s.local.Some? then [s.local.value] else [];
    assert s.page == head + w;
    WindowHasTile(s.remote, s.pageIndex, Capacity(s), i);
    assert s.remote[i] !in head by {
      assert s.remote[i] in s.remote;
    }
    if Contains(s.page, s.remote[i]) {
      var k :| 0 <= k < |s.page| && s.page[k] == s.remote[i];
      assert s.page[k] in head + w;
    }
    if s.remote[i] in w {
      var k :| 0 <= k < |w| && w[k] == s.remote[i];
      assert s.page[|head| + k] == s.remote[i];
    }
  }

  /** With unique ids, remote tile `i` is in the window of page `p` exactly when `i / cap == p`. */
  lemma WindowHasTile(remote: seq<Tile>, p: nat, cap: nat, i: nat)
    requires cap > 0 && i < |remote| && UniqueIds(remote)
    ensures remote[i] in RemoteWindow(remote, p, cap) <==> i / cap == p
  {
    WindowHoldsItsIndices(remote, p, cap, i);
    if remote[i] in RemoteWindow(remote, p, cap) {
      TileInWindowIsOnPage(remote, p, cap, i);
    }
  }

  /** A remote tile found in the window of page `p` has its index on that page: no other tile equals it. */
  lemma TileInWindowIsOnPage(remote: seq<Tile>, p: nat, cap: nat, i: nat)
    requires cap > 0 && i < |remote| && UniqueIds(remote)
    requires remote[i] in RemoteWindow(remote, p, cap)
    ensures i / cap == p
  {
    var w := RemoteWindow(remote, p, cap);
    var k :| 0 <= k < |w| && w[k] == remote[i];
    WindowSlot(remote, p, cap, k);
    var m := p * cap + k;
    assert remote[m].Id() == remote[i].Id();
    assert m == i;
    DivRange(m, cap, p);
  }

  /** Slot `k` of the window of page `p` is remote tile `p * cap + k`. */
  lemma WindowSlot(remote: seq<Tile>, p: nat, cap: nat, k: nat)
    requires cap > 0 && k < |RemoteWindow(remote, p, cap)|
    ensures p * cap + k < |remote| && RemoteWindow(remote, p, cap)[k] == remote[p * cap + k]
  {
  }

  /**
   * The pause/resume call for remote tile `i` after a page update: resume
   * exactly when the tile lies on the page, was not paused by the user and
   * is held paused; pause exactly when it lies off the page or was paused by
   * the user, and is not held paused; no other call names the tile.
   */
  lemma PauseResumeDecision(s: Session, i: nat)
    requires Inv(s) && i < |s.remote|
    ensures var t := s.remote[i];
            var shown := i / Capacity(s) == s.pageIndex && t.Id() !in s.userPaused;
            var held := t.state.pauseState == PausedByUserRequest;
            && (ResumeRemoteVideoTile(t.Id()) in Batch(s) <==> shown && held)
            && (PauseRemoteVideoTile(t.Id()) in Batch(s) <==> !shown && !held)
            && (forall c :: c in Batch(s) ==> c.ResumeRemoteVideoTile? || c.PauseRemoteVideoTile?)
            && (forall c :: c in Batch(s) && c.tileId == t.Id() ==>
                  c == ResumeRemoteVideoTile(t.Id()) || c == PauseRemoteVideoTile(t.Id()))
  {
    ShownIffOnCurrentPage(s, i);
    InstructionsPerTile(s.remote, s.page, s.userPaused);
    var t := s.remote[i];
    var d := Instruction(s.page, s.userPaused, t);
    if ResumeRemoteVideoTile(t.Id()) in Batch(s) {
      assert d == [ResumeRemoteVideoTile(t.Id())];
    }
    if PauseRemoteVideoTile(t.Id()) in Batch(s) {
      assert d == [PauseRemoteVideoTile(t.Id())];
    }
    if d != [] {
      assert d[0] in d;
    }
  }

  // ---------------------------------------------------------------------
  // Tiles added and removed
  // ---------------------------------------------------------------------

  /**
   * `showVideoTile`: a content tile joins the screen tiles and is paused at
   * once, the screen tab not being shown; a local tile takes the local slot
   * and any other tile goes to the end of the remote list, after which the
   * page is updated.
   */
  function ShowVideoTile(s: Session, ts: TileState): (r: Step)
    ensures var t := CreateTile(s.roster, ts);
            && (ts.isContent ==>
                  r.session == s.(screen := s.screen + [t]) && r.trace == [PauseRemoteVideoTile(ts.tileId)])
            && (!ts.isContent && ts.isLocalTile ==> Settles(s.(local := Some(t)), r, 1))
            && (!ts.isContent && !ts.isLocalTile ==> Settles(s.(remote := s.remote + [t]), r, 1))
  {
    var t := CreateTile(s.roster, ts);
    if ts.isContent then Step(s.(screen := s.screen + [t]), [PauseRemoteVideoTile(ts.tileId)])
    else if ts.isLocalTile then PageUpdated(s.(local := Some(t)))
    else PageUpdated(s.(remote := s.remote + [t]))
  }

  /**
   * `onVideoTileAdded`: a content tile not yet among the screen tiles is
   * shown; otherwise a local tile is always shown (replacing the local
   * slot), and any other tile only when no remote tile has its id. The
   * content check only looks at the screen tiles, so a content tile already
   * there falls through to the later tests (see `ContentTileAddedTwice`).
   */
  function VideoTileAdded(s: Session, ts: TileState): (r: Step)
    ensures var t := CreateTile(s.roster, ts);
            && (ts.isContent && !HasId(s.screen, ts.tileId) ==>
                  r.session == s.(screen := s.screen + [t]) && r.trace == [PauseRemoteVideoTile(ts.tileId)])
            && (!ts.isContent && ts.isLocalTile ==> Settles(s.(local := Some(t)), r, 1))
            && (!ts.isContent && !ts.isLocalTile && !HasId(s.remote, ts.tileId) ==>
                  Settles(s.(remote := s.remote + [t]), r, 1))
            && (!ts.isLocalTile && HasId(s.remote, ts.tileId) && (ts.isContent ==> HasId(s.screen, ts.tileId)) ==>
                  r == Step(s, []))
    ensures UniqueIds(s.remote) ==> UniqueIds(r.session.remote)
  {
    var r :=
      if ts.isContent && !HasId(s.screen, ts.tileId) then ShowVideoTile(s, ts)
      else if ts.isLocalTile then ShowVideoTile(s, ts)
      else if !HasId(s.remote, ts.tileId) then ShowVideoTile(s, ts)
      else Step(s, []);
    AddedRemoteUnique(s, ts, r);
    r
  }

  lemma AddedRemoteUnique(s: Session, ts: TileState, r: Step)
    requires r.session.remote == s.remote
          || (!HasId(s.remote, ts.tileId) && r.session.remote == s.remote + [CreateTile(s.roster, ts)])
    ensures UniqueIds(s.remote) ==> UniqueIds(r.session.remote)
  {
    if UniqueIds(s.remote) && r.session.remote != s.remote {
      AppendFreshKeepsUnique(s.remote, CreateTile(s.roster, ts));
    }
  }

  /**
   * The incomplete de-duplication of content tiles: a content tile whose id
   * is already among the screen tiles is appended a second time when it is
   * flagged local or no remote tile has its id.
   */
  lemma ContentTileAddedTwice(s: Session, ts: TileState)
    requires ts.isContent && HasId(s.screen, ts.tileId)
    requires ts.isLocalTile || !HasId(s.remote, ts.tileId)
    ensures var r := VideoTileAdded(s, ts);
            && r.session.screen == s.screen + [CreateTile(s.roster, ts)]
            && !UniqueIds(r.session.screen)
  {
    var screen := VideoTileAdded(s, ts).session.screen;
    var k :| 0 <= k < |s.screen| && s.screen[k].Id() == ts.tileId;
    assert screen[k] == s.screen[k];
    assert screen[|s.screen|].Id() == ts.tileId;
  }

  /**
   * `onVideoTileRemoved`: the view is unbound first. A content tile leaves
   * the screen tiles; otherwise the local slot is cleared when the id is the
   * local tile's, and every remote tile with the id is dropped when it is
   * not, after which the page is updated.
   */
  function VideoTileRemoved(s: Session, ts: TileState): (r: Step)
    ensures |r.trace| >= 1 && r.trace[0] == UnbindVideoView(ts.tileId)
    ensures var isLocal := s.local.Some? && s.local.value.Id() == ts.tileId;
            var rest := Step(r.session, r.trace[1..]);
            && (ts.isContent ==>
                  r.session == s.(screen := RemoveId(s.screen, ts.tileId)) && |r.trace| == 1)
            && (!ts.isContent && isLocal ==> Settles(s.(local := None), rest, 1))
            && (!ts.isContent && !isLocal ==> Settles(s.(remote := RemoveId(s.remote, ts.tileId)), rest, 1))
  {
    var unbind := [UnbindVideoView(ts.tileId)];
    if ts.isContent then
      Step(s.(screen := RemoveId(s.screen, ts.tileId)), unbind)
    else
      var u := if s.local.Some? && s.local.value.Id() == ts.tileId then PageUpdated(s.(local := None))
               else PageUpdated(s.(remote := RemoveId(s.remote, ts.tileId)));
      assert (unbind + u.trace)[1..] == u.trace;
      Step(u.session, unbind + u.trace)
  }

  /**
   * After a removal no list holds the id any more: not the screen tiles for
   * a content tile, otherwise neither the local slot nor the remote list
   * (a local match leaves the remote list as it was). An id no list holds
   * leaves all three lists unchanged.
   */
  lemma RemovedTileIsGone(s: Session, ts: TileState)
    ensures var r := VideoTileRemoved(s, ts).session;
            && (ts.isContent ==> !HasId(r.screen, ts.tileId) && r.local == s.local && r.remote == s.remote)
            && (!ts.isContent ==> r.screen == s.screen)
            && (!ts.isContent && s.local.Some? && s.local.value.Id() == ts.tileId ==>
                  r.local == None && r.remote == s.remote)
            && (!ts.isContent && !(s.local.Some? && s.local.value.Id() == ts.tileId) ==>
                  r.local == s.local && !HasId(r.remote, ts.tileId))
            && (!HasId(s.screen, ts.tileId) && !HasId(s.remote, ts.tileId)
                && !(s.local.Some? && s.local.value.Id() == ts.tileId) ==>
                  r.local == s.local && r.remote == s.remote && r.screen == s.screen)
  {
    RemoveIdKeepsOthers(s.screen, ts.tileId);
    RemoveIdKeepsOthers(s.remote, ts.tileId);
  }

  // ---------------------------------------------------------------------
  // Page buttons and active speakers
  // ---------------------------------------------------------------------

  /** The previous-page button: one page back and a page update, if there is a previous page. */
  function PrevVideoPage(s: Session): (r: Step)
    ensures !CanGoToPrevVideoPage(s.pageIndex) ==> r == Step(s, [])
    ensures CanGoToPrevVideoPage(s.pageIndex) ==> Settles(s.(pageIndex := s.pageIndex - 1), r, 1)
  {
    if CanGoToPrevVideoPage(s.pageIndex) then PageUpdated(s.(pageIndex := s.pageIndex - 1))
    else Step(s, [])
  }

  /** The next-page button: one page on and a page update, if there is a next page. */
  function NextVideoPage(s: Session): (r: Step)
    ensures var next := CanGoToNextVideoPage(s.local.Some?, |s.remote|, s.pageIndex);
            && (!next ==> r == Step(s, []))
            && (next ==> Settles(s.(pageIndex := s.pageIndex + 1), r, 1))
  {
    if CanGoToNextVideoPage(s.local.Some?, |s.remote|, s.pageIndex) then
      PageUpdated(s.(pageIndex := s.pageIndex + 1))
    else Step(s, [])
  }

  /**
   * From a session satisfying the invariant, the page buttons move the page
   * index by exactly one when enabled (revalidation does not step back) and
   * leave it alone when disabled.
   */
  lemma PageButtonsMoveByOne(s: Session)
    requires Inv(s)
    ensures var p := s.pageIndex;
            && PrevVideoPage(s).session.pageIndex == (if p > 0 then p - 1 else p)
            && NextVideoPage(s).session.pageIndex ==
                 (if (p + 1) * Capacity(s) < |s.remote| then p + 1 else p)
  {
    PrevPageMovesByOne(s);
    NextPageMovesByOne(s);
  }

  lemma PrevPageMovesByOne(s: Session)
    requires KindsOk(s) && (s.pageIndex == 0 || s.pageIndex * Capacity(s) < |s.remote|)
    ensures PrevVideoPage(s).session.pageIndex == if s.pageIndex > 0 then s.pageIndex - 1 else s.pageIndex
  {
    var p, n, cap := s.pageIndex, |s.remote|, Capacity(s);
    if p > 0 {
      var s1 := s.(pageIndex := p - 1);
      assert KindsOk(s1) && s1.local == s.local && |s1.remote| == n;
      RevalidationSettles(s1);
      MulMono(p - 1, p, cap);
      assert (p - 1) * cap < n;
    }
  }

  lemma NextPageMovesByOne(s: Session)
    requires KindsOk(s)
    ensures NextVideoPage(s).session.pageIndex ==
              if (s.pageIndex + 1) * Capacity(s) < |s.remote| then s.pageIndex + 1 else s.pageIndex
  {
    if CanGoToNextVideoPage(s.local.Some?, |s.remote|, s.pageIndex) {
      NextPageTaken(s);
    }
  }

  /** An enabled next-page button lands on the next page: that page starts inside the remote list. */
  lemma NextPageTaken(s: Session)
    requires KindsOk(s) && CanGoToNextVideoPage(s.local.Some?, |s.remote|, s.pageIndex)
    ensures NextVideoPage(s).session.pageIndex == s.pageIndex + 1
  {
    var s1 := s.(pageIndex := s.pageIndex + 1);
    assert s1.local == s.local && s1.remote == s.remote;
    UpdateKeepsStartedPage(s1);
  }

  /** A page update from an index whose page starts inside the remote list keeps that index. */
  lemma UpdateKeepsStartedPage(s: Session)
    requires KindsOk(s) && s.pageIndex * Capacity(s) < |s.remote|
    ensures PageUpdated(s).session.pageIndex == s.pageIndex
  {
    RevalidationSettles(s);
  }

  /**
   * `onActiveSpeakerDetected`: reorder the remote tiles, active speakers
   * first, then update the page.
   */
  function ActiveSpeakerDetected(s: Session, speakerIds: seq<string>): (r: Step)
    ensures Settles(s.(remote := ActiveSpeakers.ReorderByActiveSpeakers(s.remote, speakerIds)), r, 1)
    ensures multiset(r.session.remote) == multiset(s.remote)
  {
    PageUpdated(s.(remote := ActiveSpeakers.ReorderByActiveSpeakers(s.remote, speakerIds)))
  }

  /** A reorder keeps the number of remote tiles, so under the invariant the page index stays put. */
  lemma ActiveSpeakerKeepsPageIndex(s: Session, speakerIds: seq<string>)
    requires Inv(s)
    ensures ActiveSpeakerDetected(s, speakerIds).session.pageIndex == s.pageIndex
  {
    var s1 := s.(remote := ActiveSpeakers.ReorderByActiveSpeakers(s.remote, speakerIds));
    assert |s1.remote| == |multiset(s1.remote)| == |multiset(s.remote)| == |s.remote|;
    ReorderKeepsTiles(s, s1);
    RevalidationSettles(s1);
    SettledIndexFixed(s.local.Some?, |s.remote|, s.pageIndex);
  }

  /** A reordered remote list keeps the tiles well kept. */
  lemma ReorderKeepsTiles(s: Session, s1: Session)
    requires TilesOk(s) && s1 == s.(remote := s1.remote)
    requires multiset(s1.remote) == multiset(s.remote) && UniqueIds(s1.remote)
    ensures TilesOk(s1) && KindsOk(s1)
  {
    assert forall t :: t in s1.remote <==> t in multiset(s1.remote);
    assert forall t :: t in s.remote <==> t in multiset(s.remote);
  }

  /** An index that is 0 or starts inside the list is where revalidation settles. */
  lemma SettledIndexFixed(hasLocal: bool, n: nat, p: nat)
    requires p == 0 || p * RemoteCapacity(hasLocal) < n
    ensures SettledIndex(hasLocal, n, p) == p
  {
  }

  // ---------------------------------------------------------------------
  // Mute, camera and filter buttons
  // ---------------------------------------------------------------------

  /** `toggleMute`: one engine call that puts the microphone in the state the flipped flag names. */
  function ToggleMute(s: Session): (r: Step)
    ensures r.session.isMuted != s.isMuted && r.session.(isMuted := s.isMuted) == s
    ensures |r.trace| == 1
    ensures r.trace[0] == RealtimeLocalMute <==> r.session.isMuted
    ensures r.trace[0] == RealtimeLocalUnmute <==> !r.session.isMuted
  {
    var call := if s.isMuted then RealtimeLocalUnmute else RealtimeLocalMute;
    Step(s.(isMuted := !s.isMuted), [call])
  }

  /**
   * `toggleVideo`: stops local video when the camera flag is on and starts
   * it otherwise, then flips the flag; afterwards the flag and the started
   * state of local video agree.
   */
  function ToggleVideo(s: Session): (r: Step)
    ensures r.session.isCameraOn == !s.isCameraOn
    ensures r.session.capture.isLocalVideoStarted == r.session.isCameraOn
    ensures r.session == s.(isCameraOn := r.session.isCameraOn, capture := r.session.capture)
    ensures r.session.capture.(isLocalVideoStarted := s.capture.isLocalVideoStarted) == s.capture
    ensures FiltersExclusive(r.session.capture) == FiltersExclusive(s.capture)
    ensures s.isCameraOn ==>
              StopLocalVideo in r.trace && forall c :: c in r.trace ==> !c.StartLocalVideo?
    ensures !s.isCameraOn ==>
              StartLocalVideo(SelectedSource(s.capture)) in r.trace && StopLocalVideo !in r.trace
    ensures r.trace == (if s.isCameraOn then StopLocal(s.capture) else StartLocal(s.capture)).trace
  {
    var c := if s.isCameraOn then StopLocal(s.capture) else StartLocal(s.capture);
    Step(s.(capture := c.flags, isCameraOn := !s.isCameraOn), c.trace)
  }

  /**
   * `toggleCpuDemoFilter` (`gpu` false) and `toggleGpuDemoFilter` (`gpu`
   * true): only the capture flags may change, and the two filters stay
   * exclusive.
   */
  function ToggleDemoFilter(s: Session, gpu: bool): (r: Step)
    ensures r.session == s.(capture := r.session.capture)
    ensures r.trace == ToggleFilter(s.capture, gpu).trace && r.session.capture == ToggleFilter(s.capture, gpu).flags
    ensures FiltersExclusive(s.capture) ==> FiltersExclusive(r.session.capture)
  {
    var c := ToggleFilter(s.capture, gpu);
    Step(s.(capture := c.flags), c.trace)
  }

  // ---------------------------------------------------------------------
  // Ending the meeting
  // ---------------------------------------------------------------------

  /** One unbind call per tile, in list order. */
  function Unbinds(ts: seq<Tile>): (r: seq<Command>)
    ensures |r| == |ts|
    ensures forall i :: 0 <= i < |ts| ==> r[i] == UnbindVideoView(ts[i].Id())
  {
    if ts == [] then [] else [UnbindVideoView(ts[0].Id())] + Unbinds(ts[1..])
  }

  /**
   * `endMeeting`: unbinds the fixed local tile id 0 when a local tile
   * exists, then every remote and then every screen tile in list order, then
   * stops local video, remote video (twice) and the session. The session
   * record itself is left as it was.
   */
  function EndMeeting(s: Session): (r: Step)
    ensures r.session == s
    ensures var l := if s.local.Some? then 1 else 0;
            var tiles := s.remote + s.screen;
            && |r.trace| == l + |tiles| + 4
            && (s.local.Some? ==> r.trace[0] == UnbindVideoView(LocalTileId))
            && (forall i :: 0 <= i < |tiles| ==> r.trace[l + i] == UnbindVideoView(tiles[i].Id()))
            && r.trace[l + |tiles|..] == [StopLocalVideo, StopRemoteVideo, StopRemoteVideo, StopAudioVideo]
  {
    var local := if s.local.Some? then [UnbindVideoView(LocalTileId)] else [];
    var stops := [StopLocalVideo, StopRemoteVideo, StopRemoteVideo, StopAudioVideo];
    var u := Unbinds(s.remote + s.screen);
    Concat3(local, u, stops);
    Step(s, local + u + stops)
  }

  /** Positions in a concatenation of three sequences. */
  lemma Concat3<T>(a: seq<T>, b: seq<T>, c: seq<T>)
    ensures |a + b + c| == |a| + |b| + |c|
    ensures |a| > 0 ==> (a + b + c)[0] == a[0]
    ensures forall i :: 0 <= i < |b| ==> (a + b + c)[|a| + i] == b[i]
    ensures (a + b + c)[|a| + |b|..] == c
  {
  }

  /**
   * Every remote and screen tile is unbound; the local tile is unbound under
   * the fixed id 0, so a local tile with another id is not, unless some
   * other tile happens to share its id.
   */
  lemma EndMeetingUnbindsTiles(s: Session)
    ensures var tr := EndMeeting(s).trace;
            && (forall t :: t in s.remote + s.screen ==> UnbindVideoView(t.Id()) in tr)
            && (forall c :: c in tr && c.UnbindVideoView? ==>
                  (c.tileId == LocalTileId && s.local.Some?) || HasId(s.remote + s.screen, c.tileId))
  {
    var local := if s.local.Some? then [UnbindVideoView(LocalTileId)] else [];
    var stops := [StopLocalVideo, StopRemoteVideo, StopRemoteVideo, StopAudioVideo];
    var ts := s.remote + s.screen;
    assert EndMeeting(s).trace == local + Unbinds(ts) + stops;
    UnbindCalls(local, ts, stops, s.local.Some?);
  }

  /** The unbind calls of the end-of-meeting trace, apart from the rest of it. */
  lemma UnbindCalls(local: seq<Command>, ts: seq<Tile>, stops: seq<Command>, hasLocal: bool)
    requires local == if hasLocal then [UnbindVideoView(LocalTileId)] else []
    requires stops == [StopLocalVideo, StopRemoteVideo, StopRemoteVideo, StopAudioVideo]
    ensures var tr := local + Unbinds(ts) + stops;
            && (forall t :: t in ts ==> UnbindVideoView(t.Id()) in tr)
            && (forall c :: c in tr && c.UnbindVideoView? ==>
                  (c.tileId == LocalTileId && hasLocal) || HasId(ts, c.tileId))
  {
    var u := Unbinds(ts);
    var tr := local + u + stops;
    UnbindsCover(ts);
    forall t | t in ts ensures UnbindVideoView(t.Id()) in tr {
      assert UnbindVideoView(t.Id()) in u;
    }
    forall c | c in tr && c.UnbindVideoView?
      ensures (c.tileId == LocalTileId && hasLocal) || HasId(ts, c.tileId)
    {
      assert c !in stops;
    }
  }

  /** The unbind calls of a list name exactly the ids of its tiles. */
  lemma UnbindsCover(ts: seq<Tile>)
    ensures forall t :: t in ts ==> UnbindVideoView(t.Id()) in Unbinds(ts)
    ensures forall c :: c in Unbinds(ts) ==> c.UnbindVideoView? && HasId(ts, c.tileId)
  {
    var u := Unbinds(ts);
    forall t | t in ts ensures UnbindVideoView(t.Id()) in u {
      var k :| 0 <= k < |ts| && ts[k] == t;
      assert u[k] == UnbindVideoView(t.Id());
    }
    forall c | c in u ensures c.UnbindVideoView? && HasId(ts, c.tileId) {
      var k :| 0 <= k < |u| && u[k] == c;
      assert ts[k].Id() == c.tileId;
    }
  }

  /**
   * `onAudioSessionStopped`: ends the meeting first unless the status is OK,
   * then reports leaving.
   */
  function AudioSessionStopped(s: Session, statusOk: bool): (r: Step)
    ensures r.session == s
    ensures |r.trace| >= 1 && r.trace[|r.trace| - 1] == LeaveMeeting
    ensures statusOk ==> r.trace == [LeaveMeeting]
    ensures !statusOk ==> r.trace[..|r.trace| - 1] == EndMeeting(s).trace
  {
    var end := if statusOk then [] else EndMeeting(s).trace;
    assert (end + [LeaveMeeting])[..|end|] == end;
    Step(s, end + [LeaveMeeting])
  }

  // ---------------------------------------------------------------------
  // Pause-state changes
  // ---------------------------------------------------------------------

  /**
   * The engine set the pause state of tile `id` (after a pause or resume the
   * screen asked for, or for a poor connection). The collection tiles hold
   * the engine's state object, so every list holding the tile, the current
   * page included, sees the new state at once; nothing is called, and the
   * next page update decides from the new state.
   */
  function PauseStateChanged(s: Session, id: int, p: PauseState): (r: Step)
    ensures r.trace == []
    ensures r.session == s.(local := r.session.local, remote := r.session.remote,
                            screen := r.session.screen, page := r.session.page)
    ensures r.session.local == (if s.local.Some? then Some(WithPause(s.local.value, id, p)) else None)
    ensures r.session.remote == SetPauseState(s.remote, id, p)
    ensures r.session.screen == SetPauseState(s.screen, id, p)
    ensures r.session.page == SetPauseState(s.page, id, p)
  {
    var local := if s.local.Some? then Some(WithPause(s.local.value, id, p)) else None;
    Step(s.(local := local,
            remote := SetPauseState(s.remote, id, p),
            screen := SetPauseState(s.screen, id, p),
            page := SetPauseState(s.page, id, p)), [])
  }

  /**
   * The video adapter marks or unmarks tile `id` as paused by the user.
   * Only the set of user-paused ids changes.
   */
  function UserPauseChanged(s: Session, id: int, paused: bool): (r: Step)
    ensures r.trace == [] && r.session == s.(userPaused := r.session.userPaused)
    ensures id in r.session.userPaused <==> paused
    ensures forall k :: k != id ==> (k in r.session.userPaused <==> k in s.userPaused)
  {
    var ids := if paused then s.userPaused + {id} else s.userPaused - {id};
    Step(s.(userPaused := ids), [])
  }

  /** A pause-state change keeps the invariant: the stored page changes exactly as the computed one does. */
  lemma PauseStateChangedInv(s: Session, id: int, p: PauseState)
    requires Inv(s)
    ensures Inv(PauseStateChanged(s, id, p).session)
  {
    var u := PauseStateChanged(s, id, p).session;
    SetPauseStateKeepsTiles(s.remote, id, p);
    SetPauseStateKeepsTiles(s.screen, id, p);
    forall t | t in u.remote ensures !t.state.isLocalTile && !t.state.isContent {
      var i :| 0 <= i < |u.remote| && u.remote[i] == t;
      assert s.remote[i] in s.remote;
    }
    forall t | t in u.screen ensures t.state.isContent {
      var i :| 0 <= i < |u.screen| && u.screen[i] == t;
      assert s.screen[i] in s.screen;
    }
    assert TilesOk(u);
    PageOfPauseChange(s.local, s.remote, s.pageIndex, id, p);
    assert u.page == PageAt(u, u.pageIndex);
  }

  /**
   * A remote tile the engine now holds paused at the user's request is
   * resumed by the next page update exactly when it lies on the current page
   * and the user has not paused it; a tile it no longer holds paused is
   * paused exactly when it lies off the page or the user paused it.
   */
  lemma PauseChangeDecidesNextBatch(s: Session, i: nat, p: PauseState)
    requires Inv(s) && i < |s.remote|
    ensures var t := s.remote[i];
            var u := PauseStateChanged(s, t.Id(), p).session;
            var shown := i / Capacity(s) == s.pageIndex && t.Id() !in s.userPaused;
            && (ResumeRemoteVideoTile(t.Id()) in Batch(u) <==> shown && p == PausedByUserRequest)
            && (PauseRemoteVideoTile(t.Id()) in Batch(u) <==> !shown && p != PausedByUserRequest)
  {
    var t := s.remote[i];
    var u := PauseStateChanged(s, t.Id(), p).session;
    PauseStateChangedInv(s, t.Id(), p);
    SetPauseStateKeepsTiles(s.remote, t.Id(), p);
    PauseResumeDecision(u, i);
  }

  /**
   * A tile the user pauses is paused by the next page update, on the current
   * page or not, unless the engine already holds it paused; it is never
   * resumed.
   */
  lemma UserPausedTileIsPaused(s: Session, i: nat)
    requires Inv(s) && i < |s.remote|
    ensures var t := s.remote[i];
            var u := UserPauseChanged(s, t.Id(), true).session;
            && (PauseRemoteVideoTile(t.Id()) in Batch(u) <==> t.state.pauseState != PausedByUserRequest)
            && ResumeRemoteVideoTile(t.Id()) !in Batch(u)
  {
    var u := UserPauseChanged(s, s.remote[i].Id(), true).session;
    SameTilesInv(s, u);
    PauseResumeDecision(u, i);
  }

  // ---------------------------------------------------------------------
  // Event sequences
  // ---------------------------------------------------------------------

  /** The engine callbacks, buttons and pause-state writes the coordinator reacts to. */
  datatype Event =
    | TileAdded(added: TileState)
    | TileRemoved(removed: TileState)
    | ActiveSpeakersDetected(speakerIds: seq<string>)
    | PrevPagePressed
    | NextPagePressed
    | MutePressed
    | CameraPressed
    | FilterPressed(gpu: bool)
    | LeavePressed
    | AudioStopped(statusOk: bool)
    | PauseStateSet(tileId: int, pauseState: PauseState)
    | UserPauseSet(tileId: int, paused: bool)

  /** One event, handled as a whole; events are taken one at a time. */
  function Handle(s: Session, e: Event): Step
  {
    match e
    case TileAdded(ts) => VideoTileAdded(s, ts)
    case TileRemoved(ts) => VideoTileRemoved(s, ts)
    case ActiveSpeakersDetected(ids) => ActiveSpeakerDetected(s, ids)
    case PrevPagePressed => PrevVideoPage(s)
    case NextPagePressed => NextVideoPage(s)
    case MutePressed => ToggleMute(s)
    case CameraPressed => ToggleVideo(s)
    case FilterPressed(gpu) => ToggleDemoFilter(s, gpu)
    case LeavePressed => EndMeeting(s)
    case AudioStopped(ok) => AudioSessionStopped(s, ok)
    case PauseStateSet(id, p) => PauseStateChanged(s, id, p)
    case UserPauseSet(id, paused) => UserPauseChanged(s, id, paused)
  }

  /** Events handled in order; the traces are concatenated. */
  function Run(s: Session, es: seq<Event>): Step
    decreases |es|
  {
    if es == [] then Step(s, [])
    else
      var h := Handle(s, es[0]);
      var rest := Run(h.session, es[1..]);
      Step(rest.session, h.trace + rest.trace)
  }

  /** A session settled by a page update keeps the invariant when its tiles were well kept. */
  lemma SettledInv(s: Session, r: Step)
    requires TilesOk(s) && Settles(s, r, 1)
    ensures Inv(r.session)
  {
    var f, t := r.session.pageIndex, r.session;
    assert t == s.(pageIndex := f, page := PageAt(s, f));
    assert t.local == s.local && t.remote == s.remote && t.screen == s.screen && t.capture == s.capture;
    assert TilesOk(t);
    assert t.page == PageAt(t, f);
    CountZeroIffPastEnd(s, f);
  }

  lemma TileAddedInv(s: Session, ts: TileState)
    requires Inv(s)
    ensures Inv(VideoTileAdded(s, ts).session)
  {
    if ts.isContent {
      ContentAddedInv(s, ts);
    } else if ts.isLocalTile {
      LocalAddedInv(s, ts);
    } else {
      RemoteAddedInv(s, ts);
    }
  }

  lemma ContentAddedInv(s: Session, ts: TileState)
    requires Inv(s) && ts.isContent
    ensures Inv(VideoTileAdded(s, ts).session)
  {
    var r := VideoTileAdded(s, ts);
    if !HasId(s.screen, ts.tileId) {
      assert r.session == s.(screen := s.screen + [CreateTile(s.roster, ts)]);
    } else if !ts.isLocalTile && HasId(s.remote, ts.tileId) {
      assert r.session == s;
    } else {
      ContentTileAddedTwice(s, ts);
      assert r.session == s.(screen := s.screen + [CreateTile(s.roster, ts)]);
    }
  }

  lemma LocalAddedInv(s: Session, ts: TileState)
    requires Inv(s) && !ts.isContent && ts.isLocalTile
    ensures Inv(VideoTileAdded(s, ts).session)
  {
    var s1 := s.(local := Some(CreateTile(s.roster, ts)));
    assert TilesOk(s1);
    SettledInv(s1, VideoTileAdded(s, ts));
  }

  lemma RemoteAddedInv(s: Session, ts: TileState)
    requires Inv(s) && !ts.isContent && !ts.isLocalTile
    ensures Inv(VideoTileAdded(s, ts).session)
  {
    var t := CreateTile(s.roster, ts);
    if HasId(s.remote, ts.tileId) {
      assert VideoTileAdded(s, ts).session == s;
    } else {
      var s1 := s.(remote := s.remote + [t]);
      AppendFreshKeepsUnique(s.remote, t);
      assert TilesOk(s1);
      SettledInv(s1, VideoTileAdded(s, ts));
    }
  }


  lemma TileRemovedInv(s: Session, ts: TileState)
    requires Inv(s)
    ensures Inv(VideoTileRemoved(s, ts).session)
  {
    var r := VideoTileRemoved(s, ts);
    if ts.isContent {
      RemoveIdKeepsOthers(s.screen, ts.tileId);
      assert r.session == s.(screen := RemoveId(s.screen, ts.tileId));
    } else if s.local.Some? && s.local.value.Id() == ts.tileId {
      LocalRemovedInv(s, ts);
    } else {
      RemoteRemovedInv(s, ts);
    }
  }

  lemma LocalRemovedInv(s: Session, ts: TileState)
    requires Inv(s) && !ts.isContent && s.local.Some? && s.local.value.Id() == ts.tileId
    ensures Inv(VideoTileRemoved(s, ts).session)
  {
    var r := VideoTileRemoved(s, ts);
    var s1 := s.(local := None);
    assert TilesOk(s1);
    SettledInv(s1, Step(r.session, r.trace[1..]));
  }

  lemma RemoteRemovedInv(s: Session, ts: TileState)
    requires Inv(s) && !ts.isContent && !(s.local.Some? && s.local.value.Id() == ts.tileId)
    ensures Inv(VideoTileRemoved(s, ts).session)
  {
    var r := VideoTileRemoved(s, ts);
    var s1 := s.(remote := RemoveId(s.remote, ts.tileId));
    RemoveIdKeepsOthers(s.remote, ts.tileId);
    RemoveIdKeepsUnique(s.remote, ts.tileId);
    assert TilesOk(s1);
    SettledInv(s1, Step(r.session, r.trace[1..]));
  }


  lemma ActiveSpeakerInv(s: Session, ids: seq<string>)
    requires Inv(s)
    ensures Inv(ActiveSpeakerDetected(s, ids).session)
  {
    var s1 := s.(remote := ActiveSpeakers.ReorderByActiveSpeakers(s.remote, ids));
    assert forall t :: t in s1.remote <==> t in multiset(s1.remote);
    assert forall t :: t in s.remote <==> t in multiset(s.remote);
    SettledInv(s1, ActiveSpeakerDetected(s, ids));
  }

  lemma PageButtonsInv(s: Session)
    requires Inv(s)
    ensures Inv(PrevVideoPage(s).session) && Inv(NextVideoPage(s).session)
  {
    if s.pageIndex > 0 {
      SettledInv(s.(pageIndex := s.pageIndex - 1), PrevVideoPage(s));
    }
    if CanGoToNextVideoPage(s.local.Some?, |s.remote|, s.pageIndex) {
      SettledInv(s.(pageIndex := s.pageIndex + 1), NextVideoPage(s));
    }
  }

  /** Every event keeps the session invariant. */
  lemma HandlePreservesInv(s: Session, e: Event)
    requires Inv(s)
    ensures Inv(Handle(s, e).session)
  {
    match e
    case TileAdded(ts) => TileAddedInv(s, ts);
    case TileRemoved(ts) => TileRemovedInv(s, ts);
    case ActiveSpeakersDetected(ids) => ActiveSpeakerInv(s, ids);
    case PrevPagePressed => PageButtonsInv(s);
    case NextPagePressed => PageButtonsInv(s);
    case MutePressed => SameTilesInv(s, ToggleMute(s).session);
    case CameraPressed => SameTilesInv(s, ToggleVideo(s).session);
    case FilterPressed(gpu) => SameTilesInv(s, ToggleDemoFilter(s, gpu).session);
    case LeavePressed =>
    case AudioStopped(ok) =>
    case PauseStateSet(id, p) => PauseStateChangedInv(s, id, p);
    case UserPauseSet(id, paused) => SameTilesInv(s, UserPauseChanged(s, id, paused).session);
  }

  /** A change that leaves every tile field and the page alone keeps the invariant. */
  lemma SameTilesInv(s: Session, t: Session)
    requires Inv(s) && FiltersExclusive(t.capture)
    requires t.local == s.local && t.remote == s.remote && t.screen == s.screen
    requires t.page == s.page && t.pageIndex == s.pageIndex
    ensures Inv(t)
  {
    assert PageAt(t, t.pageIndex) == PageAt(s, s.pageIndex);
  }

  /** Any sequence of events from a session satisfying the invariant keeps it. */
  lemma {:induction false} RunPreservesInv(s: Session, es: seq<Event>)
    requires Inv(s)
    ensures Inv(Run(s, es).session)
    decreases |es|
  {
    if es != [] {
      HandlePreservesInv(s, es[0]);
      RunPreservesInv(Handle(s, es[0]).session, es[1..]);
    }
  }

  /** Every reachable session satisfies the invariant: remote ids stay unique, filters exclusive. */
  lemma ReachableInv(roster: map<string, string>, es: seq<Event>)
    ensures var s := Run(Initial(roster), es).session;
            Inv(s) && UniqueIds(s.remote) && FiltersExclusive(s.capture)
  {
    RunPreservesInv(Initial(roster), es);
  }

  /**
   * A local tile and five remote tiles: the first page shows the local tile
   * and remote tiles 1 to 3, the next-page button moves to a page showing
   * the local tile again with remote tiles 4 and 5, and from there the
   * next-page button does nothing.
   */
  lemma LocalPlusFiveRemotes(s: Session)
    requires Inv(s) && s.local.Some? && |s.remote| == 5 && s.pageIndex == 0
    ensures s.page == [s.local.value] + s.remote[..3]
    ensures var n := NextVideoPage(s).session;
            && n.pageIndex == 1
            && n.page == [s.local.value] + s.remote[3..]
            && NextVideoPage(n) == Step(n, [])
  {
    PageButtonsMoveByOne(s);
    var n := NextVideoPage(s).session;
    assert n.page == ComputePage(s.local, s.remote, 1);
    assert n.page[1..] == s.remote[3..];
    PageButtonsInv(s);
    assert !CanGoToNextVideoPage(n.local.Some?, |n.remote|, n.pageIndex);
  }
}
