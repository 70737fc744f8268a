/**
 * The selection logic of the "manage top tracks" screen: choosing up to ten
 * of the user's Spotify top tracks, pre-selecting the ones already saved,
 * and turning the selection into the requests that save it.
 */
module TopTracks {
  import opened Common

  /** The most tracks a user may select. */
  const MaxSelected: nat := 10

  /** A Spotify top track as the server lists it. */
  datatype Track = Track(id: string, name: string, artist: string, albumImage: string)

  /** The body of one POST /top-tracks request. */
  datatype TrackRequest = TrackRequest(trackName: string, artistName: string, albumImageUrl: string,
                                       spotifyTrackId: string, displayOrder: nat)

  /** No id occurs twice. */
  predicate NoDuplicates(ids: seq<string>) {
    forall i, j :: 0 <= i < j < |ids| ==> ids[i] != ids[j]
  }

  // ----- toggleTrack -----

  /** `prev.filter(x => x !== id)`. */
  function Without(prev: seq<string>, id: string): (r: seq<string>)
    ensures |r| <= |prev|
    ensures forall x :: x in r <==> x in prev && x != id
  {
    if prev == [] then []
    else
      assert forall x :: x in prev <==> x == prev[0] || x in prev[1..];
      (if prev[0] == id then [] else [prev[0]]) + Without(prev[1..], id)
  }

  /**
   * toggleTrack: a selected id is deselected; an unselected one is appended
   * unless ten or more are already selected, in which case the selection
   * stays as it is.
   */
  function ToggleTrack(prev: seq<string>, id: string): (r: seq<string>)
    ensures id in r <==> id !in prev && |prev| < MaxSelected
    ensures forall x :: x != id ==> (x in r <==> x in prev)
  {
    if id in prev then Without(prev, id)
    else if |prev| >= MaxSelected then prev
    else prev + [id]
  }

  /** Filtering out an id that is absent changes nothing. */
  lemma {:induction false} WithoutAbsent(prev: seq<string>, id: string)
    requires id !in prev
    ensures Without(prev, id) == prev
  {
    if prev != [] {
      WithoutAbsent(prev[1..], id);
      assert [prev[0]] + prev[1..] == prev;
    }
  }

  /** Filtering distributes over concatenation. */
  lemma {:induction false} WithoutAppend(a: seq<string>, b: seq<string>, id: string)
    ensures Without(a + b, id) == Without(a, id) + Without(b, id)
  {
    if a == [] {
      assert a + b == b;
    } else {
      var head := if a[0] == id then [] else [a[0]];
      WithoutAppend(a[1..], b, id);
      assert (a + b)[1..] == a[1..] + b;
      assert Without(a + b, id) == head + Without(a[1..] + b, id);
      assert Without(a, id) == head + Without(a[1..], id);
      assert head + (Without(a[1..], id) + Without(b, id)) == (head + Without(a[1..], id)) + Without(b, id);
    }
  }

  /** Filtering keeps a list free of duplicates. */
  lemma {:induction false} WithoutNoDuplicates(prev: seq<string>, id: string)
    requires NoDuplicates(prev)
    ensures NoDuplicates(Without(prev, id))
  {
    if prev != [] {
      WithoutNoDuplicates(prev[1..], id);
      var rest := Without(prev[1..], id);
      assert prev[0] !in prev[1..];
      assert prev[0] !in rest;
    }
  }

  /**
   * Deselecting an id that sits at position `k` of a duplicate-free
   * selection removes exactly that entry and keeps the others in order.
   */
  lemma DeselectRemovesEntry(prev: seq<string>, k: nat)
    requires NoDuplicates(prev) && k < |prev|
    ensures ToggleTrack(prev, prev[k]) == prev[..k] + prev[k + 1..]
  {
    var id := prev[k];
    var before, after := prev[..k], prev[k + 1..];
    OnlyOccurrence(prev, k);
    assert prev == before + ([id] + after);
    assert Without([id], id) == [] by {
      assert [id][1..] == [];
    }
    WithoutAppend(before, [id] + after, id);
    WithoutAppend([id], after, id);
    WithoutAbsent(before, id);
    WithoutAbsent(after, id);
    assert Without([id] + after, id) == after;
    assert ToggleTrack(prev, id) == Without(prev, id);
  }

  /** In a duplicate-free list the entry at `k` occurs nowhere else. */
  lemma OnlyOccurrence(prev: seq<string>, k: nat)
    requires NoDuplicates(prev) && k < |prev|
    ensures prev[k] !in prev[..k] && prev[k] !in prev[k + 1..]
  {
    forall j | 0 <= j < k ensures prev[..k][j] != prev[k] {
      assert prev[..k][j] == prev[j];
    }
    var after := prev[k + 1..];
    forall j | 0 <= j < |after| ensures after[j] != prev[k] {
      assert after[j] == prev[k + 1 + j];
    }
  }

  /** At the cap, selecting a new id is refused and changes nothing. */
  lemma SelectAtCapRefused(prev: seq<string>, id: string)
    requires id !in prev && |prev| >= MaxSelected
    ensures ToggleTrack(prev, id) == prev
  {
  }

  /** Below the cap, selecting a new id appends it at the end. */
  lemma SelectBelowCapAppends(prev: seq<string>, id: string)
    requires id !in prev && |prev| < MaxSelected
    ensures ToggleTrack(prev, id) == prev + [id]
  {
  }

  /** A selection of at most ten distinct ids stays one. */
  lemma ToggleKeepsSelectionValid(prev: seq<string>, id: string)
    requires |prev| <= MaxSelected && NoDuplicates(prev)
    ensures |ToggleTrack(prev, id)| <= MaxSelected && NoDuplicates(ToggleTrack(prev, id))
  {
    if id in prev {
      WithoutNoDuplicates(prev, id);
    }
  }

  /** Selecting a new id below the cap and then toggling it again restores the selection. */
  lemma SelectThenDeselect(prev: seq<string>, id: string)
    requires id !in prev && |prev| < MaxSelected
    ensures ToggleTrack(ToggleTrack(prev, id), id) == prev
  {
    WithoutAppend(prev, [id], id);
    WithoutAbsent(prev, id);
  }

  // ----- the pre-selection in loadData -----

  /**
   * The ids of the tracks, in track order, that occur in `saved` —
   * stated as the push loop builds it, one track at a time from the front.
   */
  function PreSelection(tracks: seq<Track>, saved: seq<string>): seq<string> {
    if tracks == [] then []
    else
      var last := tracks[|tracks| - 1];
      PreSelection(tracks[..|tracks| - 1], saved) + (if last.id in saved then [last.id] else [])
  }

  /** The same selection as a filter over the tracks, first track first. */
  function SavedIdsAmong(tracks: seq<Track>, saved: seq<string>): (r: seq<string>)
    ensures forall x :: x in r <==> x in saved && exists t :: t in tracks && t.id == x
  {
    if tracks == [] then []
    else
      assert forall t :: t in tracks <==> t == tracks[0] || t in tracks[1..];
      (if tracks[0].id in saved then [tracks[0].id] else []) + SavedIdsAmong(tracks[1..], saved)
  }

  /** Extending the filter by one track at the end. */
  lemma {:induction false} SavedIdsAmongSnoc(tracks: seq<Track>, t: Track, saved: seq<string>)
    ensures SavedIdsAmong(tracks + [t], saved) == SavedIdsAmong(tracks, saved) + (if t.id in saved then [t.id] else [])
  {
    if tracks != [] {
      SavedIdsAmongSnoc(tracks[1..], t, saved);
      assert (tracks + [t])[1..] == tracks[1..] + [t];
    } else {
      assert [t][1..] == [];
    }
  }

  /**
   * The pre-selection is exactly the track ids, in track order, that occur
   * among the saved ids.
   */
  lemma {:induction false} PreSelectionIsFilter(tracks: seq<Track>, saved: seq<string>)
    ensures PreSelection(tracks, saved) == SavedIdsAmong(tracks, saved)
  {
    if tracks != [] {
      var init := tracks[..|tracks| - 1];
      PreSelectionIsFilter(init, saved);
      SavedIdsAmongSnoc(init, tracks[|tracks| - 1], saved);
      assert init + [tracks[|tracks| - 1]] == tracks;
    }
  }

  /** With no saved ids nothing is pre-selected. */
  lemma {:induction false} NothingSavedNothingSelected(tracks: seq<Track>, saved: seq<string>)
    requires |saved| == 0
    ensures PreSelection(tracks, saved) == []
  {
    if tracks != [] {
      NothingSavedNothingSelected(tracks[..|tracks| - 1], saved);
    }
  }

  /**
   * The forEach of loadData: with saved ids, push the id of each track
   * whose id is among them; with none, select nothing.
   */
  method PreSelect(tracks: seq<Track>, saved: seq<string>) returns (selected: seq<string>)
    ensures selected == PreSelection(tracks, saved)
  {
    selected := [];
    if |saved| > 0 {
      var i := 0;
      while i < |tracks|
        invariant 0 <= i <= |tracks|
        invariant selected == PreSelection(tracks[..i], saved)
      {
        assert tracks[..i + 1][..i] == tracks[..i];
        if tracks[i].id in saved {
          selected := selected + [tracks[i].id];
        }
        i := i + 1;
      }
      assert tracks[..|tracks|] == tracks;
    } else {
      NothingSavedNothingSelected(tracks, saved);
    }
  }

  // ----- the save loop in saveTopTracks -----

  /** No track in `tracks` has id `id`. */
  predicate IdAbsent(tracks: seq<Track>, id: string) {
    forall t :: t in tracks ==> t.id != id
  }

  /** `tracks.find(t => t.id === id)`: the first track with that id. */
  function FindTrack(tracks: seq<Track>, id: string): (r: Option<Track>)
    ensures r.Some? ==> r.value in tracks && r.value.id == id
    ensures r.Some? ==> exists k :: 0 <= k < |tracks| && tracks[k] == r.value && IdAbsent(tracks[..k], id)
    ensures r.None? ==> IdAbsent(tracks, id)
  {
    if tracks == [] then None
    else if tracks[0].id == id then Some(tracks[0])
    else FindTrack(tracks[1..], id)
  }

  /** Some request carries displayOrder `order`. */
  predicate HasOrder(requests: seq<TrackRequest>, order: nat) {
    exists k :: 0 <= k < |requests| && requests[k].displayOrder == order
  }

  /** Appending a request with another displayOrder does not change whether `order` is taken. */
  lemma HasOrderAppend(requests: seq<TrackRequest>, x: TrackRequest, order: nat)
    requires x.displayOrder != order
    ensures HasOrder(requests + [x], order) <==> HasOrder(requests, order)
  {
    var r := requests + [x];
    if HasOrder(r, order) {
      var k :| 0 <= k < |r| && r[k].displayOrder == order;
      assert k < |requests| && requests[k] == r[k];
    }
    if HasOrder(requests, order) {
      var k :| 0 <= k < |requests| && requests[k].displayOrder == order;
      assert r[k] == requests[k];
    }
  }

  /** The request saving track `t` at position `order` of the selection. */
  function RequestFor(t: Track, order: nat): TrackRequest {
    TrackRequest(t.name, t.artist, t.albumImage, t.id, order)
  }

  /**
   * The loop of saveTopTracks: one request per selected id that names a
   * listed track, in selection order, carrying its position in the
   * selection as displayOrder; an id no track has is skipped.
   */
  method SaveTopTracks(selected: seq<string>, tracks: seq<Track>) returns (requests: seq<TrackRequest>)
    ensures forall k :: 0 <= k < |requests| ==>
              && requests[k].displayOrder < |selected|
              && FindTrack(tracks, selected[requests[k].displayOrder]).Some?
              && requests[k] == RequestFor(FindTrack(tracks, selected[requests[k].displayOrder]).value, requests[k].displayOrder)
    ensures forall i :: 0 <= i < |selected| ==>
              (FindTrack(tracks, selected[i]).Some? <==> HasOrder(requests, i))
    ensures forall k, m :: 0 <= k < m < |requests| ==> requests[k].displayOrder < requests[m].displayOrder
  {
    requests := [];
    var i := 0;
    while i < |selected|
      invariant 0 <= i <= |selected|
      invariant forall k :: 0 <= k < |requests| ==>
                  && requests[k].displayOrder < i
                  && FindTrack(tracks, selected[requests[k].displayOrder]).Some?
                  && requests[k] == RequestFor(FindTrack(tracks, selected[requests[k].displayOrder]).value, requests[k].displayOrder)
      invariant forall j :: 0 <= j < i ==>
                  (FindTrack(tracks, selected[j]).Some? <==> HasOrder(requests, j))
      invariant forall k, m :: 0 <= k < m < |requests| ==> requests[k].displayOrder < requests[m].displayOrder
    {
      var track := FindTrack(tracks, selected[i]);
      ghost var before := requests;
      if track.Some? {
        requests := requests + [RequestFor(track.value, i)];
        assert requests[|requests| - 1].displayOrder == i;
      }
      forall j | 0 <= j < i
        ensures HasOrder(requests, j) <==> HasOrder(before, j)
      {
        if track.Some? {
          HasOrderAppend(before, RequestFor(track.value, i), j);
        }
      }
      i := i + 1;
    }
  }
}
