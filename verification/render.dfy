/**
 What the discovery screen shows for a state, and what its taps do.

 The map appears only when the stored latitude is non-zero; its initial
 region is the stored position, and it carries one marker per collection point, in list
 order, whose tap asks the navigator for the detail screen of that point.
 Below the map, one chip per material type is highlighted when its id is
 selected, and its tap is a toggle event for that id.
 */
module Render {
  import Selection
  import opened Discovery

  datatype Option<T> = None | Some(value: T)

  /** Requests handed to the navigator. */
  datatype Intent = GoBack | NavigateToDetail(recyclerId: int)

  datatype Marker = Marker(key: int, coordinate: Coordinate, title: string, onPress: Intent)

  datatype MapView = MapView(initialRegion: Coordinate, loadingEnabled: bool, markers: seq<Marker>)

  datatype Chip = Chip(key: int, title: string, imageUrl: string, highlighted: bool, onPress: Event)

  datatype Screen = Screen(onBack: Intent, mapView: Option<MapView>, chips: seq<Chip>)

  function MarkerFor(r: Recycler): Marker
  {
    Marker(r.id, Coordinate(r.latitude, r.longitude), r.name, NavigateToDetail(r.id))
  }

  function ChipFor(t: MaterialType, selected: seq<int>): Chip
  {
    Chip(t.id, t.title, t.imageUrl, t.id in selected, TypeToggled(t.id))
  }

  /** The screen for state `s`. The map guard looks at the latitude alone. */
  function Render(s: State): (v: Screen)
    ensures v.onBack == GoBack
    ensures v.mapView.Some? <==> s.position.latitude != 0.0
    ensures v.mapView.Some? ==> v.mapView.value.initialRegion == s.position && !v.mapView.value.loadingEnabled
  {
    var mapView :=
      if s.position.latitude != 0.0 then
        Some(MapView(
          s.position,
          s.position.latitude == 0.0,
          seq(|s.recyclers|, i requires 0 <= i < |s.recyclers| => MarkerFor(s.recyclers[i]))))
      else None;
    Screen(GoBack, mapView, seq(|s.types|, i requires 0 <= i < |s.types| => ChipFor(s.types[i], s.selected)))
  }

  /** The intents emitted by tapping marker `i` of a shown map. */
  function PressMarker(v: Screen, i: int): seq<Intent>
    requires v.mapView.Some? && 0 <= i < |v.mapView.value.markers|
  {
    [v.mapView.value.markers[i].onPress]
  }

  /** The handler run by tapping chip `i`. */
  function PressChip(s: State, i: int): Transition
    requires 0 <= i < |Render(s).chips|
  {
    Step(s, Render(s).chips[i].onPress)
  }

  /** A shown map has one marker per collection point, in list order, keyed
      by the point's id and placed and labelled from that point. */
  lemma MarkersMatchRecyclers(s: State)
    requires s.position.latitude != 0.0
    ensures var ms := Render(s).mapView.value.markers;
            && |ms| == |s.recyclers|
            && forall i :: 0 <= i < |ms| ==>
                 && ms[i].key == s.recyclers[i].id
                 && ms[i].title == s.recyclers[i].name
                 && ms[i].coordinate == Coordinate(s.recyclers[i].latitude, s.recyclers[i].longitude)
  {
  }

  /** Tapping the marker of point `i` emits exactly one intent: open the
      detail screen with that point's id. */
  lemma PressMarkerNavigatesToDetail(s: State, i: int)
    requires s.position.latitude != 0.0 && 0 <= i < |s.recyclers|
    ensures Render(s).mapView.Some? && |Render(s).mapView.value.markers| == |s.recyclers|
    ensures PressMarker(Render(s), i) == [NavigateToDetail(s.recyclers[i].id)]
  {
  }

  /** The detail intents reachable from the map are exactly those for the
      ids of the current collection points: none is missing and none is
      invented. */
  lemma DetailTargetsAreRecyclerIds(s: State)
    requires s.position.latitude != 0.0
    ensures var ms := Render(s).mapView.value.markers;
            (set i | 0 <= i < |ms| :: ms[i].onPress) == (set r | r in s.recyclers :: NavigateToDetail(r.id))
  {
    var ms := Render(s).mapView.value.markers;
    var lhs := set i | 0 <= i < |ms| :: ms[i].onPress;
    var rhs := set r | r in s.recyclers :: NavigateToDetail(r.id);
    forall x | x in rhs
      ensures x in lhs
    {
      var r :| r in s.recyclers && x == NavigateToDetail(r.id);
      var i :| 0 <= i < |s.recyclers| && s.recyclers[i] == r;
      assert ms[i].onPress == x;
    }
  }

  /** There is one chip per material type, in list order, and a chip is
      highlighted iff the selection contains its type's id. */
  lemma ChipHighlightedIffSelected(s: State)
    ensures var cs := Render(s).chips;
            && |cs| == |s.types|
            && forall i :: 0 <= i < |cs| ==>
                 && cs[i].key == s.types[i].id
                 && (cs[i].highlighted <==> s.types[i].id in s.selected)
  {
  }

  /** Tapping chip `i` flips the highlight of every chip for the same type
      and leaves every other chip as it was, and issues one recyclers read
      with the new selection. */
  lemma PressChipFlipsHighlight(s: State, i: int, j: int)
    requires 0 <= i < |s.types| && 0 <= j < |s.types|
    ensures var t := PressChip(s, i);
            && |Render(t.state).chips| == |Render(s).chips|
            && (Render(t.state).chips[j].highlighted
                <==> (Render(s).chips[j].highlighted != (s.types[j].id == s.types[i].id)))
            && t.effects == [FetchRecyclers(t.state.selected)]
  {
    var t := PressChip(s, i);
    assert Render(s).chips[i].onPress == TypeToggled(s.types[i].id);
    assert t.state.selected == Selection.Toggle(s.selected, s.types[i].id);
    assert t.state.types == s.types;
  }

  /** The guard tests the latitude only: a fix on the equator, away from the
      placeholder, still hides the map. */
  lemma EquatorFixHidesMap(longitude: real)
    requires longitude != 0.0
    ensures Coordinate(0.0, longitude) != Placeholder
    ensures Render(Step(Init(), PositionResolved(Coordinate(0.0, longitude))).state).mapView.None?
  {
  }

  /** When no fix ever arrives (location access refused, however many
      refusals), the map is never shown: the position stays the placeholder. */
  lemma NoFixNoMap(evs: seq<Event>)
    requires forall k :: 0 <= k < |evs| ==> !evs[k].PositionResolved?
    ensures Run(Init(), evs).position == Placeholder
    ensures Render(Run(Init(), evs)).mapView.None?
  {
    NoFixes(evs);
    RunPositionIsLastFix(Init(), evs);
  }

  lemma {:induction false} NoFixes(evs: seq<Event>)
    requires forall k :: 0 <= k < |evs| ==> !evs[k].PositionResolved?
    ensures Fixes(evs) == []
    decreases |evs|
  {
    if |evs| > 0 {
      NoFixes(evs[1..]);
    }
  }

  /** A fix with non-zero latitude shows the map with that fix as its initial
      region, and the map stays shown with that region whatever else arrives,
      as long as no other fix does. */
  lemma MapStaysAfterFix(s: State, c: Coordinate, rest: seq<Event>)
    requires c.latitude != 0.0
    requires forall k :: 0 <= k < |rest| ==> !rest[k].PositionResolved?
    ensures Render(Run(s, [PositionResolved(c)] + rest)).mapView.Some?
    ensures Render(Run(s, [PositionResolved(c)] + rest)).mapView.value.initialRegion == c
  {
    var evs := [PositionResolved(c)] + rest;
    NoFixes(rest);
    assert evs[1..] == rest;
    RunPositionIsLastFix(s, evs);
    assert Fixes(evs) == [c] + Fixes(rest);
  }
}
