/** The UI builder's colour pass as the program runs it: one working context whose five
    collections the allocation loop updates in place, proved step by step against the
    functions of ColorAllocation. */
module UiUpdater {
  import opened Wrappers
  import opened Order
  import opened Sorting
  import opened Storage
  import opened ColorAllocation

  /** The locals of `_attach_consistent_colors` that `_assign_color` and the loops update:
      the palette and the free pool (lists), the ledger and the active colours (dicts; the
      active dict's key order is `activeOrder`) and the set of colours in use. */
  class ColorContext {
    const defaultPalette: seq<Color>
    const hash: string -> int
    var palette: seq<Color>
    var freePool: seq<Color>
    var ledger: map<string, Color>
    var activeOrder: seq<string>
    var activeColors: map<string, Color>
    var inUse: set<Color>

    function State(): (r: AllocState)
      reads this
    {
      AllocState(palette, freePool, ledger, activeOrder, activeColors, inUse)
    }

    /** The set-up before the snapshot loop: the ledger copies the seed's non-empty
        colours, and the palette drops every colour the ledger gives out. */
    constructor(seed: map<string, Color>, dp: seq<Color>, hash: string -> int)
      ensures defaultPalette == dp && this.hash == hash
      ensures State() == Initial(seed, dp)
    {
      defaultPalette := dp;
      this.hash := hash;
      var l := map n | n in seed && seed[n] != "" :: seed[n];
      ledger := l;
      palette := Without(dp, l.Values);
      freePool := [];
      activeOrder := [];
      activeColors := map[];
      inUse := {};
    }

    /** `_assign_color(name, ledger, free_pool, palette, in_use)`: it takes the colour
        out of the free pool or the palette, and changes nothing else. */
    method AssignColor(name: string) returns (color: Color)
      requires defaultPalette != []
      modifies this
      ensures var p := Choice(name, old(ledger), old(freePool), old(palette), old(inUse), defaultPalette, hash);
        color == p.color && palette == p.palette && freePool == p.freePool
      ensures ledger == old(ledger) && activeOrder == old(activeOrder)
      ensures activeColors == old(activeColors) && inUse == old(inUse)
    {
      if name in ledger && ledger[name] != "" && ledger[name] !in inUse {
        var preferred := ledger[name];
        if preferred in freePool {
          freePool := RemoveFirst(freePool, preferred);
        } else if preferred in palette {
          palette := RemoveFirst(palette, preferred);
        }
        return preferred;
      }
      if freePool != [] {
        var idx := Abs(hash(name)) % |freePool|;
        color := freePool[idx];
        freePool := RemoveAt(freePool, idx);
        return;
      }
      if palette == [] {
        palette := Without(defaultPalette, inUse);
        if palette == [] {
          palette := defaultPalette;
        }
      }
      color := palette[0];
      palette := palette[1..];
    }

    /** The body of the drop loop for an active name: if the name is missing from
        `current`, its colour leaves the active dict and `in_use` and is appended to the
        free pool, and the name leaves the ledger. */
    method DropIfDeparted(name: string, current: set<string>)
      requires name in activeColors
      modifies this
      ensures State() == DropOne(old(State()), name, current)
      ensures activeColors == if name in current then old(activeColors) else old(activeColors) - {name}
    {
      if name !in current {
        var color := activeColors[name];
        activeColors := activeColors - {name};
        activeOrder := Without(activeOrder, {name});
        inUse := inUse - {color};
        freePool := freePool + [color];
        ledger := ledger - {name};
      }
    }

    /** The drop loop over `list(active_colors.keys())`: each name missing from
        `current` gives its colour back to the free pool and leaves the active dict,
        `in_use` and the ledger. */
    method DropDeparted(current: set<string>)
      requires WellFormed(State())
      modifies this
      ensures State() == Dropped(old(State()), current)
      ensures WellFormed(State())
    {
      ghost var st0 := State();
      var keys := activeOrder;
      var i := 0;
      while i < |keys|
        invariant 0 <= i <= |keys|
        invariant State() == DropKeys(st0, keys[..i], current)
        invariant forall j :: i <= j < |keys| ==> keys[j] in activeColors
      {
        var name := keys[i];
        assert keys[..i + 1] == keys[..i] + [name];
        DropIfDeparted(name, current);
        forall j | i < j < |keys| ensures keys[j] in activeColors {
          assert keys[j] != keys[i];
        }
        i := i + 1;
      }
      assert keys[..|keys|] == keys;
      DropDepartedFrees(st0, current);
    }

    /** The body of the artist loop for a name: a name without an active colour gets
        one from `_assign_color`, which becomes its active and its ledger colour and
        goes into `in_use`. */
    method AdmitName(name: string)
      requires defaultPalette != [] && WellFormed(State())
      modifies this
      ensures State() == Admit(old(State()), name, defaultPalette, hash)
      ensures WellFormed(State())
      ensures name in activeColors
      ensures forall n :: n in old(activeColors) ==> n in activeColors && activeColors[n] == old(activeColors)[n]
    {
      if name !in activeColors {
        var color := AssignColor(name);
        activeColors := activeColors[name := color];
        activeOrder := activeOrder + [name];
        ledger := ledger[name := color];
        inUse := inUse + {color};
      }
    }

    /** The artist loop: every artist of the snapshot, in order, with its active colour. */
    method AdmitArtists(s: SnapshotPayload) returns (artists: seq<DecoratedArtist>)
      requires defaultPalette != [] && WellFormed(State())
      modifies this
      ensures State() == AdmitAll(old(State()), Names(s.artists), defaultPalette, hash)
      ensures WellFormed(State())
      ensures forall j :: 0 <= j < |s.artists| ==> s.artists[j].name in activeColors
      ensures artists == DecorateWith(s, activeColors).artists
    {
      ghost var st0 := State();
      var names := Names(s.artists);
      artists := [];
      var i := 0;
      while i < |s.artists|
        invariant 0 <= i <= |s.artists|
        invariant State() == AdmitAll(st0, names[..i], defaultPalette, hash)
        invariant WellFormed(State())
        invariant |artists| == i
        invariant forall j :: 0 <= j < i ==> s.artists[j].name in activeColors
        invariant forall j :: 0 <= j < i ==> artists[j] == Decorate(s.artists[j], activeColors[s.artists[j].name])
      {
        var name := s.artists[i].name;
        ghost var before, earlier := activeColors, artists;
        AdmitAllSnoc(st0, names, i, defaultPalette, hash);
        AdmitName(name);
        artists := artists + [Decorate(s.artists[i], activeColors[name])];
        KeptDecorations(s, i, earlier, before, activeColors);
        i := i + 1;
      }
      assert names[..|s.artists|] == names;
      assert forall j :: 0 <= j < |s.artists| ==> artists[j] == DecorateWith(s, activeColors).artists[j];
    }

    /** The artists listed so far keep their colours when a name is admitted. */
    static lemma KeptDecorations(s: SnapshotPayload, i: nat, earlier: seq<DecoratedArtist>,
                                 before: map<string, Color>, after: map<string, Color>)
      requires i < |s.artists| && |earlier| == i
      requires forall j :: 0 <= j < i ==> s.artists[j].name in before && earlier[j] == Decorate(s.artists[j], before[s.artists[j].name])
      requires forall n :: n in before ==> n in after && after[n] == before[n]
      requires s.artists[i].name in after
      ensures var artists := earlier + [Decorate(s.artists[i], after[s.artists[i].name])];
        forall j :: 0 <= j <= i ==> s.artists[j].name in after && artists[j] == Decorate(s.artists[j], after[s.artists[j].name])
    {
    }

    /** One pass of the snapshot loop: drop the departed, give every newcomer a colour
        and list the artists with their active colours. */
    method DecorateSnapshot(s: SnapshotPayload) returns (d: DecoratedSnapshot)
      requires defaultPalette != [] && WellFormed(State())
      modifies this
      ensures (State(), d) == Step(old(State()), s, defaultPalette, hash)
      ensures WellFormed(State())
    {
      DropDeparted(set i | 0 <= i < |s.artists| :: s.artists[i].name);
      var artists := AdmitArtists(s);
      d := DecoratedSnapshot(s.monthKey, s.monthLabel, s.generatedAt, artists);
    }
  }

  /** `_attach_consistent_colors(snapshots, seed_colors)`: one decorated snapshot per
      snapshot, in order, with the month fields and the artists copied and every artist
      in its colour; an artist of two consecutive months wears the same colour in both. */
  method AttachConsistentColors(snapshots: seq<SnapshotPayload>, seed: map<string, Color>, plotly: seq<Color>,
                                hash: string -> int) returns (decorated: seq<DecoratedSnapshot>)
    ensures decorated == ColorRun(snapshots, seed, plotly, hash)
    ensures |decorated| == |snapshots|
    ensures forall i :: 0 <= i < |snapshots| ==> MonthCopied(snapshots[i], decorated[i])
    ensures forall i :: 0 <= i < |snapshots| - 1 ==>
      ColoursCarryOver(snapshots[i], snapshots[i + 1], decorated[i], decorated[i + 1])
  {
    var dp := DefaultPalette(plotly);
    var context := new ColorContext(seed, dp, hash);
    ghost var st0 := context.State();
    decorated := [];
    var i := 0;
    while i < |snapshots|
      invariant 0 <= i <= |snapshots|
      invariant (context.State(), decorated) == Run(st0, snapshots[..i], dp, hash)
      invariant WellFormed(context.State())
    {
      RunSnoc(st0, snapshots, i, dp, hash);
      var d := context.DecorateSnapshot(snapshots[i]);
      decorated := decorated + [d];
      i := i + 1;
    }
    assert snapshots[..|snapshots|] == snapshots;
    ColorRunShape(snapshots, seed, plotly, hash);
  }

  // ---------------------------------------------------------------- `_prepare_snapshots`

  /** No two entries of the history dict share a key. */
  ghost predicate UniqueKeys(history: History) {
    forall i, j :: 0 <= i < j < |history| ==> history[i].key != history[j].key
  }

  lemma SortedHistoryOrder(history: History)
    requires UniqueKeys(history)
    ensures multiset(SortedHistory(history)) == multiset(history)
    ensures StrictlyAscendingBy(SortedHistory(history), EntryKey)
  {
    forall i, j | 0 <= i < j < |history| ensures EntryKey(history[i]) != EntryKey(history[j]) {
      if EntryKey(history[i]) == EntryKey(history[j]) {
        CodePointsInjective(history[i].key, history[j].key);
      }
    }
    SortByKeepsDistinct(history, EntryKey);
    SortedDistinctIsAscending(SortedHistory(history), EntryKey);
  }

  /** `_prepare_snapshots(history, seed_colors)`: the payloads in ascending key order,
      decorated with `seed_colors or {}` as the seed. One decorated snapshot comes out per
      key; when every payload carries its own key, the month keys ascend. */
  method PrepareSnapshots(history: History, seed: Option<map<string, Color>>, plotly: seq<Color>, hash: string -> int)
    returns (decorated: seq<DecoratedSnapshot>)
    requires UniqueKeys(history)
    ensures var ordered := SortedHistory(history);
      && multiset(ordered) == multiset(history)
      && StrictlyAscendingBy(ordered, EntryKey)
      && decorated == ColorRun(Values(ordered), seed.GetOr(map[]), plotly, hash)
      && |decorated| == |history|
      && forall i :: 0 <= i < |history| ==> MonthCopied(ordered[i].payload, decorated[i])
    ensures WellKeyed(history) ==>
      forall i, j :: 0 <= i < j < |decorated| ==> LexLess(CodePoints(decorated[i].monthKey), CodePoints(decorated[j].monthKey))
  {
    var ordered := Values(SortedHistory(history));
    decorated := AttachConsistentColors(ordered, seed.GetOr(map[]), plotly, hash);
    SortedHistoryOrder(history);
    if WellKeyed(history) {
      SortedHistoryAscending(history);
    }
  }

  // ---------------------------------------------------------------- `_load_existing_colors`

  /** An artist record of the saved history file, as parsed: `name` and `color` are None
      where the record lacks the key. */
  datatype SavedArtist = SavedArtist(name: Option<string>, color: Option<string>)

  /** A snapshot record of the saved history file; `artists` is None where it lacks the key. */
  datatype SavedSnapshot = SavedSnapshot(artists: Option<seq<SavedArtist>>)

  /** `if name and color`: both present and non-empty. */
  predicate HasColor(a: SavedArtist) {
    a.name.Some? && a.name.value != "" && a.color.Some? && a.color.value != ""
  }

  /** The artist records in file order: `snapshot.get("artists", [])` for each snapshot. */
  function SavedArtists(existing: seq<SavedSnapshot>): (r: seq<SavedArtist>) {
    if existing == [] then []
    else SavedArtists(existing[..|existing| - 1]) + existing[|existing| - 1].artists.GetOr([])
  }

  /** The colours dict after the records `artists`, one after another. */
  function Remembered(artists: seq<SavedArtist>): (r: map<string, Color>) {
    if artists == [] then map[]
    else
      var colors, a := Remembered(artists[..|artists| - 1]), artists[|artists| - 1];
      if HasColor(a) then colors[a.name.value := a.color.value] else colors
  }

  /** Record `i` is the last one naming `name` with a colour. */
  ghost predicate LastColoured(artists: seq<SavedArtist>, name: string, i: int) {
    && 0 <= i < |artists| && HasColor(artists[i]) && artists[i].name.value == name
    && forall j :: i < j < |artists| && HasColor(artists[j]) ==> artists[j].name.value != name
  }

  /** A name has a colour exactly when some record names it with a colour, and the colour
      is that of the last such record. */
  lemma RememberedIsLastColour(artists: seq<SavedArtist>, name: string)
    ensures name in Remembered(artists) <==>
      exists i :: 0 <= i < |artists| && HasColor(artists[i]) && artists[i].name.value == name
    ensures forall i :: LastColoured(artists, name, i) ==> name in Remembered(artists) && Remembered(artists)[name] == artists[i].color.value
  {
    RememberedDomain(artists, name);
    forall i | LastColoured(artists, name, i)
      ensures name in Remembered(artists) && Remembered(artists)[name] == artists[i].color.value
    {
      RememberedLast(artists, name, i);
    }
  }

  lemma {:induction false} RememberedDomain(artists: seq<SavedArtist>, name: string)
    ensures name in Remembered(artists) <==>
      exists i :: 0 <= i < |artists| && HasColor(artists[i]) && artists[i].name.value == name
    decreases |artists|
  {
    if artists != [] {
      var n := |artists| - 1;
      var prefix, a := artists[..n], artists[n];
      RememberedDomain(prefix, name);
      if name in Remembered(artists) && !(HasColor(a) && a.name.value == name) {
        var i :| 0 <= i < n && HasColor(prefix[i]) && prefix[i].name.value == name;
        assert artists[i] == prefix[i];
      }
      if exists i :: 0 <= i < |artists| && HasColor(artists[i]) && artists[i].name.value == name {
        var i :| 0 <= i < |artists| && HasColor(artists[i]) && artists[i].name.value == name;
        if i < n {
          assert prefix[i] == artists[i];
        }
      }
    }
  }

  lemma {:induction false} RememberedLast(artists: seq<SavedArtist>, name: string, i: int)
    requires LastColoured(artists, name, i)
    ensures name in Remembered(artists) && Remembered(artists)[name] == artists[i].color.value
    decreases |artists|
  {
    var n := |artists| - 1;
    if i < n {
      var prefix := artists[..n];
      assert prefix[i] == artists[i];
      assert LastColoured(prefix, name, i) by {
        forall j | i < j < |prefix| && HasColor(prefix[j]) ensures prefix[j].name.value != name {
          assert prefix[j] == artists[j];
        }
      }
      RememberedLast(prefix, name, i);
    }
  }

  /** One more record read. */
  lemma RememberedSnoc(before: seq<SavedArtist>, artists: seq<SavedArtist>, j: nat)
    requires j < |artists|
    ensures var a, r := artists[j], Remembered(before + artists[..j]);
      Remembered(before + artists[..j + 1]) == if HasColor(a) then r[a.name.value := a.color.value] else r
  {
    var all := before + artists[..j + 1];
    assert all[..|all| - 1] == before + artists[..j] && all[|all| - 1] == artists[j];
  }

  /** One more snapshot read. */
  lemma SavedArtistsSnoc(existing: seq<SavedSnapshot>, i: nat)
    requires i < |existing|
    ensures var artists := existing[i].artists.GetOr([]);
      SavedArtists(existing[..i + 1]) == SavedArtists(existing[..i]) + artists[..|artists|]
  {
    var upto := existing[..i + 1];
    assert upto[..|upto| - 1] == existing[..i] && upto[|upto| - 1] == existing[i];
    var artists := existing[i].artists.GetOr([]);
    assert artists[..|artists|] == artists;
  }

  /** `_load_existing_colors` from the parsed file on: None stands for a file that is
      missing or does not parse, which gives no colours. */
  method LoadExistingColors(file: Option<seq<SavedSnapshot>>) returns (colors: map<string, Color>)
    ensures file.None? ==> colors == map[]
    ensures file.Some? ==> colors == Remembered(SavedArtists(file.value))
  {
    colors := map[];
    if file.None? {
      return;
    }
    var existing := file.value;
    var i := 0;
    while i < |existing|
      invariant 0 <= i <= |existing|
      invariant colors == Remembered(SavedArtists(existing[..i]))
    {
      var artists := existing[i].artists.GetOr([]);
      ghost var before := SavedArtists(existing[..i]);
      assert before + artists[..0] == before;
      var j := 0;
      while j < |artists|
        invariant 0 <= j <= |artists|
        invariant colors == Remembered(before + artists[..j])
      {
        var artist := artists[j];
        RememberedSnoc(before, artists, j);
        if artist.name.Some? && artist.name.value != "" && artist.color.Some? && artist.color.value != "" {
          colors := colors[artist.name.value := artist.color.value];
        }
        j := j + 1;
      }
      SavedArtistsSnoc(existing, i);
      i := i + 1;
    }
    assert existing[..|existing|] == existing;
  }
}
