/**
 * Video tiles as the meeting screen keeps them: the engine's tile state
 * plus the display name looked up in the roster when the tile was added.
 */
module Tiles {

  /** The pause state the media engine reports for a video tile. */
  datatype PauseState = Unpaused | PausedByUserRequest | PausedForPoorConnection

  /**
   * The engine's description of one tile. The stream's width and height
   * only ever reach the log and are not kept.
   */
  datatype TileState = TileState(
    tileId: int,
    attendeeId: string,
    isLocalTile: bool,
    isContent: bool,
    pauseState: PauseState)

  /** A video collection tile: a display name and the engine's tile state. */
  datatype Tile = Tile(attendeeName: string, state: TileState) {
    function Id(): int { state.tileId }
  }

  /**
   * Builds the collection tile for an added tile. The name comes from the
   * roster; an attendee missing from the roster gets the empty name.
   */
  function CreateTile(roster: map<string, string>, s: TileState): (t: Tile)
    ensures t.state == s && t.Id() == s.tileId
    ensures s.attendeeId in roster ==> t.attendeeName == roster[s.attendeeId]
    ensures s.attendeeId !in roster ==> t.attendeeName == ""
  {
    Tile(if s.attendeeId in roster then roster[s.attendeeId] else "", s)
  }

  /** Some tile of `ts` carries tile id `id` (Kotlin's `any { it.tileId == id }`). */
  predicate HasId(ts: seq<Tile>, id: int)
  {
    exists i :: 0 <= i < |ts| && ts[i].Id() == id
  }

  /**
   * Some tile of `ts` equals `t` in every field (Kotlin's `contains` on a
   * data class).
   */
  predicate Contains(ts: seq<Tile>, t: Tile)
  {
    exists i :: 0 <= i < |ts| && ts[i] == t
  }

  /** No two positions of `ts` carry the same tile id. */
  predicate UniqueIds(ts: seq<Tile>)
  {
    forall i, j :: 0 <= i < j < |ts| ==> ts[i].Id() != ts[j].Id()
  }

  /**
   * Kotlin's `removeAll { it.tileId == id }`: drops every tile with that id
   * and keeps the others in order (`RemoveIdKeepsOthers`, `RemoveIdIsFilter`).
   */
  function RemoveId(ts: seq<Tile>, id: int): (r: seq<Tile>)
    ensures |r| <= |ts|
  {
    if ts == [] then []
    else if ts[0].Id() == id then RemoveId(ts[1..], id)
    else [ts[0]] + RemoveId(ts[1..], id)
  }

  /**
   * Exactly the tiles with another id remain, so none with the id does; a
   * list without the id is left as it was.
   */
  lemma {:induction false} RemoveIdKeepsOthers(ts: seq<Tile>, id: int)
    ensures var r := RemoveId(ts, id);
            && (forall t :: t in r <==> t in ts && t.Id() != id)
            && !HasId(r, id)
            && (!HasId(ts, id) ==> r == ts)
    decreases |ts|
  {
    if ts != [] {
      var r, rest := RemoveId(ts, id), RemoveId(ts[1..], id);
      RemoveIdKeepsOthers(ts[1..], id);
      assert ts == [ts[0]] + ts[1..];
      if !HasId(ts, id) {
        assert ts[0].Id() != id;
        assert !HasId(ts[1..], id) by {
          forall k | 0 <= k < |ts[1..]| ensures ts[1..][k].Id() != id {
            assert ts[1..][k] == ts[k + 1];
          }
        }
      }
      assert !HasId(r, id) by {
        forall k | 0 <= k < |r| ensures r[k].Id() != id {
          assert r[k] in r;
        }
      }
    }
  }

  /** Removal keeps unique ids unique. */
  lemma {:induction false} RemoveIdKeepsUnique(ts: seq<Tile>, id: int)
    requires UniqueIds(ts)
    ensures UniqueIds(RemoveId(ts, id))
    decreases |ts|
  {
    if ts != [] {
      var x, tail := ts[0], ts[1..];
      UniqueSplit(ts);
      RemoveIdKeepsUnique(tail, id);
      if x.Id() != id {
        var rest := RemoveId(tail, id);
        RemoveIdKeepsOthers(tail, id);
        assert !HasId(rest, x.Id()) by {
          forall k | 0 <= k < |rest| ensures rest[k].Id() != x.Id() {
            assert rest[k] in rest;
          }
        }
        PrependFreshKeepsUnique(x, rest);
      }
    }
  }

  /** The tail of a list with unique ids has unique ids, none of them the head's. */
  lemma UniqueSplit(ts: seq<Tile>)
    requires UniqueIds(ts) && ts != []
    ensures UniqueIds(ts[1..]) && forall t :: t in ts[1..] ==> t.Id() != ts[0].Id()
  {
    var tail := ts[1..];
    forall i, j | 0 <= i < j < |tail| ensures tail[i].Id() != tail[j].Id() {
      assert tail[i] == ts[i + 1] && tail[j] == ts[j + 1];
    }
    forall t | t in tail ensures t.Id() != ts[0].Id() {
      var k :| 0 <= k < |tail| && tail[k] == t;
      assert ts[k + 1] == t;
    }
  }

  /** Putting a tile whose id is not yet present in front keeps the ids unique. */
  lemma PrependFreshKeepsUnique(x: Tile, ts: seq<Tile>)
    requires UniqueIds(ts) && !HasId(ts, x.Id())
    ensures UniqueIds([x] + ts)
  {
    var r := [x] + ts;
    forall i, j | 0 <= i < j < |r| ensures r[i].Id() != r[j].Id() {
      assert r[j] == ts[j - 1];
      if i > 0 {
        assert r[i] == ts[i - 1];
      }
    }
  }

  /**
   * Removal keeps the order of the survivors: it distributes over
   * concatenation, and on one tile it keeps the tile exactly when its id
   * differs (`RemoveIdSingle`). Together these pin it down as the
   * order-preserving filter.
   */
  lemma {:induction false} RemoveIdIsFilter(a: seq<Tile>, b: seq<Tile>, id: int)
    ensures RemoveId(a + b, id) == RemoveId(a, id) + RemoveId(b, id)
    decreases |a|
  {
    if a == [] {
      assert a + b == b;
    } else {
      var x, rest := a[0], a[1..];
      assert a == [x] + rest;
      assert a + b == [x] + (rest + b);
      RemoveIdCons(x, rest + b, id);
      RemoveIdCons(x, rest, id);
      RemoveIdIsFilter(rest, b, id);
    }
  }

  /** Removal from a list with a known first tile. */
  lemma RemoveIdCons(x: Tile, rest: seq<Tile>, id: int)
    ensures RemoveId([x] + rest, id) == (if x.Id() == id then [] else [x]) + RemoveId(rest, id)
  {
    assert ([x] + rest)[0] == x && ([x] + rest)[1..] == rest;
  }

  /** On a single tile, removal keeps the tile exactly when its id differs. */
  lemma RemoveIdSingle(t: Tile, id: int)
    ensures RemoveId([t], id) == (if t.Id() == id then [] else [t])
  {
    assert [t][1..] == [];
  }

  /**
   * The tile after the engine set the pause state of tile `id` to `p`. The
   * collection tile shares the engine's state object, so a tile with that id
   * sees the new pause state; nothing else about any tile changes.
   */
  function WithPause(t: Tile, id: int, p: PauseState): (u: Tile)
    ensures u.Id() == t.Id() && u.attendeeName == t.attendeeName
    ensures u.state.(pauseState := t.state.pauseState) == t.state
    ensures t.Id() == id ==> u.state.pauseState == p
    ensures t.Id() != id ==> u == t
  {
    if t.Id() == id then t.(state := t.state.(pauseState := p)) else t
  }

  /** Every tile of a list after the engine set the pause state of tile `id`. */
  function SetPauseState(ts: seq<Tile>, id: int, p: PauseState): (r: seq<Tile>)
    ensures |r| == |ts|
  {
    seq(|ts|, i requires 0 <= i < |ts| => WithPause(ts[i], id, p))
  }

  /**
   * A pause-state change keeps the order, the ids and the local and content
   * flags of every tile, so it keeps which ids are present and whether they
   * are unique; only tiles with the id take the new pause state.
   */
  lemma SetPauseStateKeepsTiles(ts: seq<Tile>, id: int, p: PauseState)
    ensures var r := SetPauseState(ts, id, p);
            && (forall i :: 0 <= i < |ts| ==>
                  && r[i].Id() == ts[i].Id()
                  && r[i].state.isLocalTile == ts[i].state.isLocalTile
                  && r[i].state.isContent == ts[i].state.isContent
                  && r[i].state.pauseState == (if ts[i].Id() == id then p else ts[i].state.pauseState))
            && (forall k :: HasId(r, k) <==> HasId(ts, k))
            && (UniqueIds(r) <==> UniqueIds(ts))
  {
    var r := SetPauseState(ts, id, p);
    forall k ensures HasId(r, k) <==> HasId(ts, k) {
      if HasId(ts, k) {
        var i :| 0 <= i < |ts| && ts[i].Id() == k;
        assert r[i].Id() == k;
      }
    }
  }

  /** A pause-state change commutes with taking a slice and with concatenation. */
  lemma SetPauseStateSlices(ts: seq<Tile>, us: seq<Tile>, lo: nat, hi: nat, id: int, p: PauseState)
    requires lo <= hi <= |ts|
    ensures SetPauseState(ts[lo..hi], id, p) == SetPauseState(ts, id, p)[lo..hi]
    ensures SetPauseState(ts + us, id, p) == SetPauseState(ts, id, p) + SetPauseState(us, id, p)
  {
  }

  /** Appending a tile whose id is not yet present keeps the ids unique. */
  lemma AppendFreshKeepsUnique(ts: seq<Tile>, t: Tile)
    requires UniqueIds(ts) && !HasId(ts, t.Id())
    ensures UniqueIds(ts + [t])
  {
    var r := ts + [t];
    forall i, j | 0 <= i < j < |r| ensures r[i].Id() != r[j].Id() {
      if j == |ts| {
        assert r[i] == ts[i];
      } else {
        assert r[i] == ts[i] && r[j] == ts[j];
      }
    }
  }
}
