/**
 State of the collection-point discovery screen and its event handlers.

 The screen holds four pieces of state: the position the map opens at
 (starting at the placeholder [0, 0]), the material types offered as filter
 chips, the collection points ("recyclers") shown as markers, and the
 selected type ids. Each asynchronous completion of the screen (location
 permission, position fix, the two backend reads) and each chip tap is an
 `Event`; `Step` is the pure handler, returning the next state and the
 effects the screen starts in response.
 */
module Discovery {
  import Selection

  datatype Coordinate = Coordinate(latitude: real, longitude: real)

  /** The position the screen starts with, before any fix arrives. */
  const Placeholder := Coordinate(0.0, 0.0)

  /** A material type offered as a filter chip (a `/types` entry). */
  datatype MaterialType = MaterialType(id: int, title: string, imageUrl: string)

  /** A collection point (a `/recyclers` entry). */
  datatype Recycler = Recycler(id: int, name: string, latitude: real, longitude: real)

  datatype State = State(
    position: Coordinate,
    types: seq<MaterialType>,
    recyclers: seq<Recycler>,
    selected: seq<int>)

  /** Work the screen starts: the location request, the two backend reads
      (the recyclers read carries the selection as its `types` parameter)
      and the notice shown when location access is refused. */
  datatype Effect =
    | RequestLocation
    | FetchTypes
    | FetchRecyclers(types: seq<int>)
    | Alert(title: string, message: string)

  /** Completions and taps. A `/recyclers` response records the `types`
      parameter of the read it answers in `query`; the handler ignores it. */
  datatype Event =
    | PositionResolved(coordinate: Coordinate)
    | PermissionDenied
    | TypesLoaded(types: seq<MaterialType>)
    | RecyclersLoaded(query: seq<int>, recyclers: seq<Recycler>)
    | TypeToggled(id: int)

  datatype Transition = Transition(state: State, effects: seq<Effect>)

  const PermissionAlert := Alert("Oops!", "Precisamos da sua permissão para obter a localização")

  /** The state the screen is mounted with. */
  function Init(): (s: State)
    ensures s.position == Placeholder
    ensures s.types == [] && s.recyclers == [] && s.selected == []
  {
    State(Placeholder, [], [], [])
  }

  /** The three effects run once on mount, in declaration order: the
      position request, the unfiltered recyclers read, the types read. */
  function MountEffects(): (es: seq<Effect>)
    ensures |es| == 3
    ensures RequestLocation in es && FetchTypes in es
    ensures FetchRecyclers([]) in es
  {
    [RequestLocation, FetchRecyclers(Init().selected), FetchTypes]
  }

  /** The handler of one event. A refused permission only raises the notice;
      a fix overwrites the position; each response replaces its list
      wholesale, whichever request it answers; a toggle changes the selection
      and, because the selection changed, issues a new recyclers read for it. */
  function Step(s: State, e: Event): (t: Transition)
    ensures e.PermissionDenied? ==> t.state == s && t.effects == [PermissionAlert]
    ensures e.PositionResolved? ==>
              t.state.position == e.coordinate && t.state.(position := s.position) == s && t.effects == []
    ensures e.TypesLoaded? ==>
              t.state.types == e.types && t.state.(types := s.types) == s && t.effects == []
    ensures e.RecyclersLoaded? ==>
              t.state.recyclers == e.recyclers && t.state.(recyclers := s.recyclers) == s && t.effects == []
    ensures e.TypeToggled? ==>
              && (e.id in t.state.selected <==> e.id !in s.selected)
              && (forall x :: x != e.id ==> (x in t.state.selected <==> x in s.selected))
              && t.state.(selected := s.selected) == s
              && t.effects == [FetchRecyclers(t.state.selected)]
  {
    match e
    case PermissionDenied => Transition(s, [PermissionAlert])
    case PositionResolved(c) => Transition(s.(position := c), [])
    case TypesLoaded(ts) => Transition(s.(types := ts), [])
    case RecyclersLoaded(_, rs) => Transition(s.(recyclers := rs), [])
    case TypeToggled(id) =>
      var sel := Selection.Toggle(s.selected, id);
      Transition(s.(selected := sel), [FetchRecyclers(sel)])
  }

  /** The state after handling `evs` in arrival order. */
  function Run(s: State, evs: seq<Event>): State
    decreases |evs|
  {
    if |evs| == 0 then s else Run(Step(s, evs[0]).state, evs[1..])
  }

  /** The effects started while handling `evs` in arrival order. */
  function RunEffects(s: State, evs: seq<Event>): seq<Effect>
    decreases |evs|
  {
    if |evs| == 0 then []
    else
      var t := Step(s, evs[0]);
      t.effects + RunEffects(t.state, evs[1..])
  }

  // Per-component views of an event trace, in arrival order.

  function Fixes(evs: seq<Event>): seq<Coordinate>
  {
    if |evs| == 0 then []
    else (if evs[0].PositionResolved? then [evs[0].coordinate] else []) + Fixes(evs[1..])
  }

  function TypesResponses(evs: seq<Event>): seq<seq<MaterialType>>
  {
    if |evs| == 0 then []
    else (if evs[0].TypesLoaded? then [evs[0].types] else []) + TypesResponses(evs[1..])
  }

  function RecyclersResponses(evs: seq<Event>): seq<seq<Recycler>>
  {
    if |evs| == 0 then []
    else (if evs[0].RecyclersLoaded? then [evs[0].recyclers] else []) + RecyclersResponses(evs[1..])
  }

  function Toggles(evs: seq<Event>): seq<int>
  {
    if |evs| == 0 then []
    else (if evs[0].TypeToggled? then [evs[0].id] else []) + Toggles(evs[1..])
  }

  /** The last element of `xs`, or `default` when `xs` is empty. */
  function LastOr<T>(xs: seq<T>, default: T): T
  {
    if |xs| == 0 then default else xs[|xs| - 1]
  }

  /** `LastOr` over a list with a head: the last of the rest, or the head
      when the rest is empty. */
  lemma LastOrCons<T>(head: seq<T>, rest: seq<T>, default: T)
    requires |head| <= 1
    ensures LastOr(head + rest, default) == LastOr(rest, LastOr(head, default))
  {
  }

  /** The position after a trace is the last fix that arrived, or the
      previous position when none did: a refused permission never moves it. */
  lemma {:induction false} RunPositionIsLastFix(s: State, evs: seq<Event>)
    ensures Run(s, evs).position == LastOr(Fixes(evs), s.position)
    decreases |evs|
  {
    if |evs| > 0 {
      var s' := Step(s, evs[0]).state;
      RunPositionIsLastFix(s', evs[1..]);
      LastOrCons(if evs[0].PositionResolved? then [evs[0].coordinate] else [], Fixes(evs[1..]), s.position);
    }
  }

  /** The type list after a trace is the last `/types` response that
      arrived, or the previous list when none did. */
  lemma {:induction false} RunTypesIsLastResponse(s: State, evs: seq<Event>)
    ensures Run(s, evs).types == LastOr(TypesResponses(evs), s.types)
    decreases |evs|
  {
    if |evs| > 0 {
      var s' := Step(s, evs[0]).state;
      RunTypesIsLastResponse(s', evs[1..]);
      LastOrCons(if evs[0].TypesLoaded? then [evs[0].types] else [], TypesResponses(evs[1..]), s.types);
    }
  }

  /** Last-arrived-wins: the recycler list after a trace is the last
      `/recyclers` response that arrived, whichever request it answered, or
      the previous list when none did. */
  lemma {:induction false} RunRecyclersIsLastArrived(s: State, evs: seq<Event>)
    ensures Run(s, evs).recyclers == LastOr(RecyclersResponses(evs), s.recyclers)
    decreases |evs|
  {
    if |evs| > 0 {
      var s' := Step(s, evs[0]).state;
      RunRecyclersIsLastArrived(s', evs[1..]);
      LastOrCons(if evs[0].RecyclersLoaded? then [evs[0].recyclers] else [], RecyclersResponses(evs[1..]), s.recyclers);
    }
  }

  /** The selection after a trace is the previous selection with the trace's
      toggles applied in order; no other event touches it. */
  lemma {:induction false} RunSelectionIsToggles(s: State, evs: seq<Event>)
    ensures Run(s, evs).selected == Selection.ToggleAll(s.selected, Toggles(evs))
    decreases |evs|
  {
    if |evs| > 0 {
      var s' := Step(s, evs[0]).state;
      RunSelectionIsToggles(s', evs[1..]);
      if evs[0].TypeToggled? {
        var ids := Toggles(evs);
        assert ids == [evs[0].id] + Toggles(evs[1..]);
        assert ids[1..] == Toggles(evs[1..]);
        assert Selection.ToggleAll(s.selected, ids)
            == Selection.ToggleAll(Selection.Toggle(s.selected, ids[0]), ids[1..]);
      } else {
        assert Toggles(evs) == Toggles(evs[1..]);
      }
    }
  }

  /** On every reachable state the selection holds no id twice. */
  lemma SelectionStaysDuplicateFree(evs: seq<Event>)
    ensures Selection.NoDuplicates(Run(Init(), evs).selected)
  {
    RunSelectionIsToggles(Init(), evs);
    Selection.FromEmptyNoDuplicates(Toggles(evs));
  }

  /** The `types` parameters of the recyclers reads among `es`, in order. */
  function Reads(es: seq<Effect>): seq<seq<int>>
  {
    if |es| == 0 then []
    else (if es[0].FetchRecyclers? then [es[0].types] else []) + Reads(es[1..])
  }

  /** The selections passed through while toggling `ids` in order, starting
      from `sel`: one entry per toggle, the selection right after it. */
  function SelectionsAfter(sel: seq<int>, ids: seq<int>): seq<seq<int>>
    decreases |ids|
  {
    if |ids| == 0 then []
    else
      var next := Selection.Toggle(sel, ids[0]);
      [next] + SelectionsAfter(next, ids[1..])
  }

  lemma {:induction false} ReadsAppend(a: seq<Effect>, b: seq<Effect>)
    ensures Reads(a + b) == Reads(a) + Reads(b)
    decreases |a|
  {
    if |a| == 0 {
      assert a + b == b;
    } else {
      ReadsAppend(a[1..], b);
      assert (a + b)[1..] == a[1..] + b;
    }
  }

  /** The recyclers reads issued while handling a trace are, in issue order,
      one per toggle and carrying the selection right after that toggle: no
      toggle is missed and no other event issues a read. */
  lemma {:induction false} ReadsFollowToggles(s: State, evs: seq<Event>)
    ensures Reads(RunEffects(s, evs)) == SelectionsAfter(s.selected, Toggles(evs))
    ensures |Reads(RunEffects(s, evs))| == |Toggles(evs)|
    decreases |evs|
  {
    if |evs| > 0 {
      var t := Step(s, evs[0]);
      ReadsFollowToggles(t.state, evs[1..]);
      ReadsAppend(t.effects, RunEffects(t.state, evs[1..]));
      assert RunEffects(s, evs) == t.effects + RunEffects(t.state, evs[1..]);
      if evs[0].TypeToggled? {
        var ids := Toggles(evs);
        assert ids == [evs[0].id] + Toggles(evs[1..]);
        assert ids[1..] == Toggles(evs[1..]);
        assert Reads(t.effects) == [t.state.selected];
        assert SelectionsAfter(s.selected, ids)
            == [t.state.selected] + SelectionsAfter(t.state.selected, ids[1..]);
      } else {
        assert Toggles(evs) == Toggles(evs[1..]);
        assert Reads(t.effects) == [];
        assert t.state.selected == s.selected;
      }
    }
    assert |SelectionsAfter(s.selected, Toggles(evs))| == |Toggles(evs)| by {
      SelectionsAfterLength(s.selected, Toggles(evs));
    }
  }

  lemma {:induction false} SelectionsAfterLength(sel: seq<int>, ids: seq<int>)
    ensures |SelectionsAfter(sel, ids)| == |ids|
    decreases |ids|
  {
    if |ids| > 0 {
      SelectionsAfterLength(Selection.Toggle(sel, ids[0]), ids[1..]);
    }
  }

  /** Responses are not matched to requests. The user turns type 1 on and
      off again, issuing a read for `[1]` and then one for `[]`; the answer
      to `[]` arrives first and the answer to `[1]` after it. The screen ends
      showing the answer to `[1]` although the selection is empty: the
      committed list answers a read whose `types` differ from the current
      selection, and the later-issued read does not win. */
  lemma StaleResponseIsCommitted(all: seq<Recycler>, paperOnly: seq<Recycler>)
    requires all != paperOnly
    ensures var evs := [TypeToggled(1), TypeToggled(1), RecyclersLoaded([], all), RecyclersLoaded([1], paperOnly)];
            && Reads(RunEffects(Init(), evs)) == [[1], []]
            && Run(Init(), evs).selected == []
            && Run(Init(), evs).recyclers == evs[3].recyclers
            && evs[3].query != Run(Init(), evs).selected
            && Run(Init(), evs).recyclers != evs[2].recyclers
  {
    var evs := [TypeToggled(1), TypeToggled(1), RecyclersLoaded([], all), RecyclersLoaded([1], paperOnly)];
    var s1 := Step(Init(), evs[0]).state;
    assert s1.selected == [1];
    var s2 := Step(s1, evs[1]).state;
    assert Selection.Without([1], 1) == [];
    assert s2.selected == [];
    var s3 := Step(s2, evs[2]).state;
    var s4 := Step(s3, evs[3]).state;
    assert s4.selected == [] && s4.recyclers == paperOnly;
    assert evs[1..] == [evs[1], evs[2], evs[3]];
    assert evs[1..][1..] == [evs[2], evs[3]];
    assert evs[1..][1..][1..] == [evs[3]];
    assert evs[1..][1..][1..][1..] == [];
    assert Run(s4, []) == s4;
    assert Run(s3, [evs[3]]) == s4;
    assert Run(s2, [evs[2], evs[3]]) == s4;
    assert Run(s1, evs[1..]) == s4;
    assert Run(Init(), evs) == s4;
    assert RunEffects(s3, [evs[3]]) == [];
    assert RunEffects(s2, [evs[2], evs[3]]) == [];
    assert RunEffects(s1, evs[1..]) == [FetchRecyclers([])];
    assert RunEffects(Init(), evs) == [FetchRecyclers([1]), FetchRecyclers([])];
    assert Reads([FetchRecyclers([1]), FetchRecyclers([])]) == [[1], []] by {
      assert [FetchRecyclers([1]), FetchRecyclers([])][1..] == [FetchRecyclers([])];
      assert [FetchRecyclers([])][1..] == [];
    }
  }
}
