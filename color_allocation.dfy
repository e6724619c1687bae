/** The colour allocator of the UI builder, as functions over its working state: the five
    collections the allocation loop keeps (palette, free pool, ledger, active colours and
    the set of colours in use), one snapshot after another. */
module ColorAllocation {
  import opened Wrappers
  import opened Storage

  type Color = string

  /** The colours a fresh palette is built from when the plotly lists are empty. */
  const FallbackPalette: seq<Color> := ["#3e7cb1", "#f45d48", "#ffd166", "#6a4c93"]

  /** `_default_palette()`: the plotly colours, or the fallback when there are none. The
      plotly lists come from a library outside the model and are a parameter. */
  function DefaultPalette(plotly: seq<Color>): (r: seq<Color>)
    ensures r != []
    ensures plotly != [] ==> r == plotly
  {
    if plotly != [] then plotly else FallbackPalette
  }

  // ---------------------------------------------------------------- list helpers

  ghost predicate Distinct<T>(s: seq<T>) {
    forall i, j :: 0 <= i < j < |s| ==> s[i] != s[j]
  }

  /** `[x for x in s if x not in excluded]` */
  function Without(s: seq<string>, excluded: set<string>): (r: seq<string>)
    ensures |r| <= |s|
    ensures forall x :: x in r <==> x in s && x !in excluded
    ensures Distinct(s) ==> Distinct(r)
  {
    if s == [] then []
    else
      var rest := Without(s[1..], excluded);
      assert forall x :: x in rest ==> x in s[1..];
      if s[0] in excluded then rest else [s[0]] + rest
  }

  /** The filter keeps order: its first element is the first element of `s` not excluded. */
  lemma {:induction false} WithoutHead(s: seq<string>, excluded: set<string>, k: nat)
    requires k < |s| && s[k] !in excluded
    requires forall j :: 0 <= j < k ==> s[j] in excluded
    ensures Without(s, excluded) != [] && Without(s, excluded)[0] == s[k]
  {
    if k > 0 {
      forall j | 0 <= j < k - 1 ensures s[1..][j] in excluded {
        assert s[1..][j] == s[j + 1];
      }
      WithoutHead(s[1..], excluded, k - 1);
    }
  }

  lemma RemoveAtDistinct<T>(s: seq<T>, i: nat)
    requires i < |s|
    ensures Distinct(s) ==> Distinct(s[..i] + s[i + 1..]) && s[i] !in s[..i] + s[i + 1..]
  {
    var r := s[..i] + s[i + 1..];
    if Distinct(s) {
      forall a, b | 0 <= a < b < |r| ensures r[a] != r[b] {
        var a' := if a < i then a else a + 1;
        var b' := if b < i then b else b + 1;
        assert r[a] == s[a'] && r[b] == s[b'];
      }
      forall a | 0 <= a < |r| ensures r[a] != s[i] {
        var a' := if a < i then a else a + 1;
        assert r[a] == s[a'];
      }
    }
  }

  /** `s.pop(i)`: the rest of the list. */
  function RemoveAt(s: seq<string>, i: nat): (r: seq<string>)
    requires i < |s|
    ensures |r| == |s| - 1
    ensures multiset(r) == multiset(s) - multiset{s[i]}
    ensures Distinct(s) ==> Distinct(r) && s[i] !in r
  {
    assert s == s[..i] + [s[i]] + s[i + 1..];
    RemoveAtDistinct(s, i);
    s[..i] + s[i + 1..]
  }

  /** Where `x` first occurs in `s`. */
  function IndexOf(s: seq<string>, x: string): (i: nat)
    requires x in s
    ensures i < |s| && s[i] == x && x !in s[..i]
  {
    if s[0] == x then 0
    else
      var i := IndexOf(s[1..], x);
      assert s[..i + 1] == [s[0]] + s[1..][..i];
      i + 1
  }

  /** `s.remove(x)`: the first occurrence of `x` goes. */
  function RemoveFirst(s: seq<string>, x: string): (r: seq<string>)
    requires x in s
    ensures r == s[..IndexOf(s, x)] + s[IndexOf(s, x) + 1..]
    ensures multiset(r) == multiset(s) - multiset{x}
    ensures Distinct(s) ==> Distinct(r) && x !in r
  {
    RemoveAt(s, IndexOf(s, x))
  }

  function Abs(x: int): (r: nat) {
    if x < 0 then -x else x
  }

  // ---------------------------------------------------------------- `_assign_color`

  /** The colour handed out and the two lists it leaves behind. */
  datatype Pick = Pick(color: Color, palette: seq<Color>, freePool: seq<Color>)

  /** `preferred and preferred not in in_use`: the ledger holds a non-empty colour for the
      name that nobody active wears. */
  predicate HasUsablePreference(ledger: map<string, Color>, inUse: set<Color>, name: string) {
    name in ledger && ledger[name] != "" && ledger[name] !in inUse
  }

  /** The palette a newcomer draws from once both lists ran dry: the default colours not
      in use, or every default colour when all are in use. */
  function Refill(dp: seq<Color>, inUse: set<Color>): (r: seq<Color>)
    requires dp != []
    ensures r != []
    ensures (exists c :: c in dp && c !in inUse) ==> forall c :: c in r <==> c in dp && c !in inUse
    ensures (forall c :: c in dp ==> c in inUse) ==> r == dp
  {
    var unused := Without(dp, inUse);
    assert unused != [] ==> unused[0] in unused;
    if unused != [] then unused else dp
  }

  /** `_assign_color(name, ledger, free_pool, palette, in_use)` with `hash` for Python's
      string hash and `dp` for `_default_palette()`. */
  function Choice(name: string, ledger: map<string, Color>, freePool: seq<Color>, palette: seq<Color>,
                  inUse: set<Color>, dp: seq<Color>, hash: string -> int): (p: Pick)
    requires dp != []
  {
    if HasUsablePreference(ledger, inUse, name) then
      var preferred := ledger[name];
      if preferred in freePool then Pick(preferred, palette, RemoveFirst(freePool, preferred))
      else if preferred in palette then Pick(preferred, RemoveFirst(palette, preferred), freePool)
      else Pick(preferred, palette, freePool)
    else if freePool != [] then
      var idx := Abs(hash(name)) % |freePool|;
      Pick(freePool[idx], palette, RemoveAt(freePool, idx))
    else
      var source := if palette != [] then palette else Refill(dp, inUse);
      Pick(source[0], source[1..], freePool)
  }

  /** A usable ledger colour is handed out as it is, and leaves exactly one list it was in:
      the free pool if it is there, else the palette. */
  lemma PreferenceHonoured(name: string, ledger: map<string, Color>, freePool: seq<Color>, palette: seq<Color>,
                           inUse: set<Color>, dp: seq<Color>, hash: string -> int)
    requires dp != [] && HasUsablePreference(ledger, inUse, name)
    ensures var p := Choice(name, ledger, freePool, palette, inUse, dp, hash);
      && p.color == ledger[name]
      && (p.color in freePool ==>
            p.palette == palette && p.freePool == RemoveFirst(freePool, p.color)
            && multiset(p.freePool) == multiset(freePool) - multiset{p.color})
      && (p.color !in freePool && p.color in palette ==>
            p.freePool == freePool && p.palette == RemoveFirst(palette, p.color)
            && multiset(p.palette) == multiset(palette) - multiset{p.color})
      && (p.color !in freePool && p.color !in palette ==> p.palette == palette && p.freePool == freePool)
  {
  }

  /** Without a usable preference, a non-empty free pool gives up one of its colours,
      whichever the hash picks, and the palette is left alone. */
  lemma FreePoolServesNext(name: string, ledger: map<string, Color>, freePool: seq<Color>, palette: seq<Color>,
                           inUse: set<Color>, dp: seq<Color>, hash: string -> int)
    requires dp != [] && !HasUsablePreference(ledger, inUse, name) && freePool != []
    ensures var p := Choice(name, ledger, freePool, palette, inUse, dp, hash);
      && p.color in freePool
      && p.palette == palette
      && multiset(p.freePool) == multiset(freePool) - multiset{p.color}
  {
  }

  /** A single freed colour goes to the next newcomer without a usable preference, for
      every hash, and empties the free pool. */
  lemma SingleSlotReuse(name: string, ledger: map<string, Color>, c: Color, palette: seq<Color>,
                        inUse: set<Color>, dp: seq<Color>, hash: string -> int)
    requires dp != [] && !HasUsablePreference(ledger, inUse, name)
    ensures Choice(name, ledger, [c], palette, inUse, dp, hash) == Pick(c, palette, [])
  {
    assert Abs(hash(name)) % 1 == 0;
  }

  /** Without a usable preference or a free colour, the newcomer takes the palette's head. */
  lemma PaletteServesNext(name: string, ledger: map<string, Color>, palette: seq<Color>,
                          inUse: set<Color>, dp: seq<Color>, hash: string -> int)
    requires dp != [] && !HasUsablePreference(ledger, inUse, name) && palette != []
    ensures Choice(name, ledger, [], palette, inUse, dp, hash) == Pick(palette[0], palette[1..], [])
  {
  }

  /** With both lists empty the newcomer takes the head of a refilled palette: the first
      default colour not in use, or the first default colour when all are in use. */
  lemma RefillServesNext(name: string, ledger: map<string, Color>, inUse: set<Color>,
                         dp: seq<Color>, hash: string -> int)
    requires dp != [] && !HasUsablePreference(ledger, inUse, name)
    ensures var p := Choice(name, ledger, [], [], inUse, dp, hash);
      && p.freePool == []
      && [p.color] + p.palette == Refill(dp, inUse)
      && ((exists c :: c in dp && c !in inUse) ==> p.color in dp && p.color !in inUse)
      && (forall k :: 0 <= k < |dp| && dp[k] !in inUse && (forall j :: 0 <= j < k ==> dp[j] in inUse) ==> p.color == dp[k])
      && ((forall c :: c in dp ==> c in inUse) ==> p.color == dp[0] && p.palette == dp[1..])
  {
    var r := Refill(dp, inUse);
    assert r == [r[0]] + r[1..];
    assert r[0] in r;
    forall k | 0 <= k < |dp| && dp[k] !in inUse && (forall j :: 0 <= j < k ==> dp[j] in inUse)
      ensures Choice(name, ledger, [], [], inUse, dp, hash).color == dp[k]
    {
      WithoutHead(dp, inUse, k);
      assert Without(dp, inUse)[0] in Without(dp, inUse);
    }
  }

  /** Every list the allocator draws from avoids the colours in use. */
  ghost predicate PoolsAvoid(freePool: seq<Color>, palette: seq<Color>, inUse: set<Color>) {
    (forall c :: c in freePool ==> c !in inUse) && (forall c :: c in palette ==> c !in inUse)
  }

  /** While the lists avoid the colours in use, the colour handed out is never one in
      use, except by the last-resort refill once every default colour is in use. */
  lemma AssignFreshUnlessExhausted(name: string, ledger: map<string, Color>, freePool: seq<Color>, palette: seq<Color>,
                                   inUse: set<Color>, dp: seq<Color>, hash: string -> int)
    requires dp != [] && PoolsAvoid(freePool, palette, inUse)
    ensures var p := Choice(name, ledger, freePool, palette, inUse, dp, hash);
      p.color in inUse ==>
        && !HasUsablePreference(ledger, inUse, name) && freePool == [] && palette == []
        && forall c :: c in dp ==> c in inUse
  {
    var p := Choice(name, ledger, freePool, palette, inUse, dp, hash);
    if !HasUsablePreference(ledger, inUse, name) {
      if freePool != [] {
        FreePoolServesNext(name, ledger, freePool, palette, inUse, dp, hash);
      } else if palette != [] {
        assert p.color == palette[0];
      } else {
        RefillServesNext(name, ledger, inUse, dp, hash);
      }
    }
  }

  // ---------------------------------------------------------------- the allocation loop

  /** The working state of `_attach_consistent_colors`. `active_colors` is an insertion
      ordered dict: its keys in order are `activeOrder`, its entries `activeColors`. */
  datatype AllocState = AllocState(palette: seq<Color>, freePool: seq<Color>, ledger: map<string, Color>,
                                   activeOrder: seq<string>, activeColors: map<string, Color>, inUse: set<Color>)

  /** An artist of the history with the colour the chart shows it in. */
  datatype DecoratedArtist = DecoratedArtist(name: string, playcount: int, imageUrl: Option<string>,
                                             url: Option<string>, rank: int, color: Color)

  datatype DecoratedSnapshot = DecoratedSnapshot(monthKey: string, monthLabel: string, generatedAt: string,
                                                 artists: seq<DecoratedArtist>)

  /** `{name: color for name, color in seed_colors.items() if color}`: a new dict, so the
      caller's seed is never changed. */
  function SeedLedger(seed: map<string, Color>): (r: map<string, Color>) {
    map n | n in seed && seed[n] != "" :: seed[n]
  }

  /** The state before the first snapshot: the palette without any colour the ledger
      already gives out. */
  function Initial(seed: map<string, Color>, dp: seq<Color>): (r: AllocState) {
    var ledger := SeedLedger(seed);
    AllocState(Without(dp, ledger.Values), [], ledger, [], map[], {})
  }

  /** The palette starts in default order without the ledger's colours: its head is the
      first default colour the ledger does not give out. */
  lemma InitialPaletteHead(seed: map<string, Color>, dp: seq<Color>, k: nat)
    requires k < |dp| && dp[k] !in SeedLedger(seed).Values
    requires forall j :: 0 <= j < k ==> dp[j] in SeedLedger(seed).Values
    ensures Initial(seed, dp).palette != [] && Initial(seed, dp).palette[0] == dp[k]
  {
    WithoutHead(dp, SeedLedger(seed).Values, k);
  }

  /** The drop loop's body for one name of `list(active_colors.keys())`: a name missing
      from the current snapshot gives its colour back to the free pool and loses its
      ledger entry. */
  function DropOne(st: AllocState, name: string, current: set<string>): (r: AllocState) {
    if name in current || name !in st.activeColors then st
    else
      var c := st.activeColors[name];
      st.(activeOrder := Without(st.activeOrder, {name}), activeColors := st.activeColors - {name},
          inUse := st.inUse - {c}, freePool := st.freePool + [c], ledger := st.ledger - {name})
  }

  /** The drop loop over the keys `keys`, in order. */
  function DropKeys(st: AllocState, keys: seq<string>, current: set<string>): (r: AllocState) {
    if keys == [] then st else DropOne(DropKeys(st, keys[..|keys| - 1], current), keys[|keys| - 1], current)
  }

  /** The drop loop over a copy of the active names. */
  function Dropped(st: AllocState, current: set<string>): (r: AllocState) {
    DropKeys(st, st.activeOrder, current)
  }

  /** The admission of one artist of the snapshot: a name without a colour gets one from
      `_assign_color`, which becomes its active and its ledger colour. */
  function Admit(st: AllocState, name: string, dp: seq<Color>, hash: string -> int): (r: AllocState)
    requires dp != []
  {
    if name in st.activeColors then st
    else
      var p := Choice(name, st.ledger, st.freePool, st.palette, st.inUse, dp, hash);
      AllocState(p.palette, p.freePool, st.ledger[name := p.color], st.activeOrder + [name],
                 st.activeColors[name := p.color], st.inUse + {p.color})
  }

  /** Admitting the artists' names in order. Every name ends up active, and a name that
      was active keeps its colour. */
  function AdmitAll(st: AllocState, names: seq<string>, dp: seq<Color>, hash: string -> int): (r: AllocState)
    requires dp != []
    ensures forall n :: n in names ==> n in r.activeColors
    ensures forall n :: n in st.activeColors ==> n in r.activeColors && r.activeColors[n] == st.activeColors[n]
  {
    if names == [] then st
    else Admit(AdmitAll(st, names[..|names| - 1], dp, hash), names[|names| - 1], dp, hash)
  }

  function Names(artists: seq<ArtistPayload>): (r: seq<string>)
    ensures |r| == |artists| && forall i :: 0 <= i < |artists| ==> r[i] == artists[i].name
  {
    seq(|artists|, i requires 0 <= i < |artists| => artists[i].name)
  }

  function NameSet(artists: seq<ArtistPayload>): (r: set<string>) {
    set i | 0 <= i < |artists| :: artists[i].name
  }

  function Decorate(a: ArtistPayload, color: Color): (r: DecoratedArtist) {
    DecoratedArtist(a.name, a.playcount, a.imageUrl, a.url, a.rank, color)
  }

  /** The snapshot as the chart gets it: every artist with its active colour. */
  function DecorateWith(s: SnapshotPayload, active: map<string, Color>): (d: DecoratedSnapshot)
    requires forall i :: 0 <= i < |s.artists| ==> s.artists[i].name in active
  {
    DecoratedSnapshot(s.monthKey, s.monthLabel, s.generatedAt,
      seq(|s.artists|, i requires 0 <= i < |s.artists| => Decorate(s.artists[i], active[s.artists[i].name])))
  }

  /** One iteration of the snapshot loop: drop, admit, decorate. */
  function Step(st: AllocState, s: SnapshotPayload, dp: seq<Color>, hash: string -> int): (r: (AllocState, DecoratedSnapshot))
    requires dp != []
  {
    var dropped := Dropped(st, NameSet(s.artists));
    var admitted := AdmitAll(dropped, Names(s.artists), dp, hash);
    (admitted, DecorateWith(s, admitted.activeColors))
  }

  /** The snapshot loop from `st` over `snaps`. */
  function Run(st: AllocState, snaps: seq<SnapshotPayload>, dp: seq<Color>, hash: string -> int): (r: (AllocState, seq<DecoratedSnapshot>))
    requires dp != []
    ensures |r.1| == |snaps|
  {
    if snaps == [] then (st, [])
    else
      var before := Run(st, snaps[..|snaps| - 1], dp, hash);
      var after := Step(before.0, snaps[|snaps| - 1], dp, hash);
      (after.0, before.1 + [after.1])
  }

  /** Admitting one more name. */
  lemma AdmitAllSnoc(st: AllocState, names: seq<string>, i: nat, dp: seq<Color>, hash: string -> int)
    requires dp != [] && i < |names|
    ensures AdmitAll(st, names[..i + 1], dp, hash) == Admit(AdmitAll(st, names[..i], dp, hash), names[i], dp, hash)
  {
    var upto := names[..i + 1];
    assert upto[..|upto| - 1] == names[..i] && upto[|upto| - 1] == names[i];
  }

  /** Running the snapshot loop one snapshot further. */
  lemma RunSnoc(st: AllocState, snaps: seq<SnapshotPayload>, i: nat, dp: seq<Color>, hash: string -> int)
    requires dp != [] && i < |snaps|
    ensures var before := Run(st, snaps[..i], dp, hash);
      var after := Step(before.0, snaps[i], dp, hash);
      Run(st, snaps[..i + 1], dp, hash) == (after.0, before.1 + [after.1])
  {
    var upto := snaps[..i + 1];
    assert upto[..|upto| - 1] == snaps[..i] && upto[|upto| - 1] == snaps[i];
  }

  /** `_attach_consistent_colors(snapshots, seed_colors)` */
  function ColorRun(snaps: seq<SnapshotPayload>, seed: map<string, Color>, plotly: seq<Color>, hash: string -> int): (r: seq<DecoratedSnapshot>) {
    var dp := DefaultPalette(plotly);
    Run(Initial(seed, dp), snaps, dp, hash).1
  }

  // ---------------------------------------------------------------- shape and continuity

  /** The state before snapshot `i`. */
  function StateBefore(st: AllocState, snaps: seq<SnapshotPayload>, i: nat, dp: seq<Color>, hash: string -> int): (r: AllocState)
    requires dp != [] && i <= |snaps|
  {
    Run(st, snaps[..i], dp, hash).0
  }

  /** The `i`-th decorated snapshot is what the loop makes of snapshot `i` from the state
      the earlier snapshots left. */
  lemma RunIndex(st: AllocState, snaps: seq<SnapshotPayload>, i: nat, dp: seq<Color>, hash: string -> int)
    requires dp != [] && i < |snaps|
    ensures Run(st, snaps, dp, hash).1[i] == Step(StateBefore(st, snaps, i, dp, hash), snaps[i], dp, hash).1
    ensures StateBefore(st, snaps, i + 1, dp, hash) == Step(StateBefore(st, snaps, i, dp, hash), snaps[i], dp, hash).0
  {
    RunSnoc(st, snaps, i, dp, hash);
    RunPrefix(st, snaps, i + 1, dp, hash);
    var out := Run(st, snaps, dp, hash).1;
    assert out[i] == out[..i + 1][i];
  }

  /** The loop's output over the first `n` snapshots is the first `n` of its output. */
  lemma {:induction false} RunPrefix(st: AllocState, snaps: seq<SnapshotPayload>, n: nat, dp: seq<Color>, hash: string -> int)
    requires dp != [] && n <= |snaps|
    ensures Run(st, snaps[..n], dp, hash).1 == Run(st, snaps, dp, hash).1[..n]
    decreases |snaps| - n
  {
    if n == |snaps| {
      assert snaps[..n] == snaps;
    } else {
      var longer := Run(st, snaps[..n + 1], dp, hash).1;
      assert longer == Run(st, snaps, dp, hash).1[..n + 1] by {
        RunPrefix(st, snaps, n + 1, dp, hash);
      }
      assert Run(st, snaps[..n], dp, hash).1 == longer[..n] by {
        RunSnoc(st, snaps, n, dp, hash);
      }
    }
  }

  /** One decorated snapshot per snapshot, in order; each keeps the month fields and lists
      the same artists in the same order, each in its colour at the end of that month. */
  lemma RunShape(st: AllocState, snaps: seq<SnapshotPayload>, dp: seq<Color>, hash: string -> int)
    requires dp != []
    ensures var out := Run(st, snaps, dp, hash).1;
      && |out| == |snaps|
      && forall i :: 0 <= i < |snaps| ==>
        var d, s, after := out[i], snaps[i], StateBefore(st, snaps, i + 1, dp, hash);
        && d.monthKey == s.monthKey && d.monthLabel == s.monthLabel && d.generatedAt == s.generatedAt
        && |d.artists| == |s.artists|
        && forall j :: 0 <= j < |s.artists| ==>
             s.artists[j].name in after.activeColors && d.artists[j] == Decorate(s.artists[j], after.activeColors[s.artists[j].name])
  {
    forall i | 0 <= i < |snaps|
      ensures var d, s, after := Run(st, snaps, dp, hash).1[i], snaps[i], StateBefore(st, snaps, i + 1, dp, hash);
        && d.monthKey == s.monthKey && d.monthLabel == s.monthLabel && d.generatedAt == s.generatedAt
        && |d.artists| == |s.artists|
        && forall j :: 0 <= j < |s.artists| ==>
             s.artists[j].name in after.activeColors && d.artists[j] == Decorate(s.artists[j], after.activeColors[s.artists[j].name])
    {
      RunIndex(st, snaps, i, dp, hash);
    }
  }

  /** The drop loop never touches a name of the current snapshot. */
  lemma {:induction false} DropKeysKeepsCurrent(st: AllocState, keys: seq<string>, current: set<string>, n: string)
    requires n in current && n in st.activeColors
    ensures var r := DropKeys(st, keys, current); n in r.activeColors && r.activeColors[n] == st.activeColors[n]
    decreases |keys|
  {
    if keys != [] {
      DropKeysKeepsCurrent(st, keys[..|keys| - 1], current, n);
    }
  }

  /** Continuity: an artist in two consecutive snapshots has the same colour in both. */
  lemma Continuity(st: AllocState, snaps: seq<SnapshotPayload>, dp: seq<Color>, hash: string -> int,
                   i: nat, j: nat, k: nat)
    requires dp != [] && i + 1 < |snaps| && j < |snaps[i].artists| && k < |snaps[i + 1].artists|
    requires snaps[i].artists[j].name == snaps[i + 1].artists[k].name
    ensures var out := Run(st, snaps, dp, hash).1;
      |out[i].artists| == |snaps[i].artists| && |out[i + 1].artists| == |snaps[i + 1].artists| &&
      out[i].artists[j].color == out[i + 1].artists[k].color
  {
    var name := snaps[i].artists[j].name;
    RunShape(st, snaps, dp, hash);
    RunIndex(st, snaps, i + 1, dp, hash);
    var mid := StateBefore(st, snaps, i + 1, dp, hash);
    var current := NameSet(snaps[i + 1].artists);
    assert name in current;
    DropKeysKeepsCurrent(mid, mid.activeOrder, current, name);
  }

  /** A decorated snapshot keeps the month fields and lists the same artists in the same order. */
  predicate MonthCopied(s: SnapshotPayload, d: DecoratedSnapshot) {
    && d.monthKey == s.monthKey && d.monthLabel == s.monthLabel && d.generatedAt == s.generatedAt
    && |d.artists| == |s.artists|
    && forall j :: 0 <= j < |s.artists| ==> d.artists[j].name == s.artists[j].name
  }

  /** Every artist of month `s0` that is also in month `s1` has the same colour in both. */
  predicate ColoursCarryOver(s0: SnapshotPayload, s1: SnapshotPayload, d0: DecoratedSnapshot, d1: DecoratedSnapshot) {
    && |d0.artists| == |s0.artists| && |d1.artists| == |s1.artists|
    && forall j, k :: 0 <= j < |s0.artists| && 0 <= k < |s1.artists| && s0.artists[j].name == s1.artists[k].name ==>
         d0.artists[j].color == d1.artists[k].color
  }

  /** What `_attach_consistent_colors` returns: one decorated snapshot per snapshot, each
      a copy of its month, and colours that carry over between consecutive months. */
  lemma ColorRunShape(snaps: seq<SnapshotPayload>, seed: map<string, Color>, plotly: seq<Color>, hash: string -> int)
    ensures var out := ColorRun(snaps, seed, plotly, hash);
      && |out| == |snaps|
      && (forall i :: 0 <= i < |snaps| ==> MonthCopied(snaps[i], out[i]))
      && (forall i :: 0 <= i < |snaps| - 1 ==> ColoursCarryOver(snaps[i], snaps[i + 1], out[i], out[i + 1]))
  {
    var dp := DefaultPalette(plotly);
    var out := ColorRun(snaps, seed, plotly, hash);
    RunShape(Initial(seed, dp), snaps, dp, hash);
    forall i | 0 <= i < |snaps| - 1 ensures ColoursCarryOver(snaps[i], snaps[i + 1], out[i], out[i + 1]) {
      var s0, s1, d0, d1 := snaps[i], snaps[i + 1], out[i], out[i + 1];
      forall j, k | 0 <= j < |s0.artists| && 0 <= k < |s1.artists| && s0.artists[j].name == s1.artists[k].name
        ensures d0.artists[j].color == d1.artists[k].color
      {
        Continuity(Initial(seed, dp), snaps, dp, hash, i, j, k);
      }
    }
  }

  // ---------------------------------------------------------------- the drop step

  /** `active_colors` as an ordered dict: its key order lists each key once. */
  ghost predicate WellFormed(st: AllocState) {
    && Distinct(st.activeOrder)
    && forall n :: n in st.activeColors <==> n in st.activeOrder
  }

  /** The colours the drop loop appends to the free pool, in key order. */
  function DepartedColors(keys: seq<string>, active: map<string, Color>, current: set<string>): (r: seq<Color>) {
    if keys == [] then []
    else
      var k := keys[|keys| - 1];
      DepartedColors(keys[..|keys| - 1], active, current) + (if k !in current && k in active then [active[k]] else [])
  }

  lemma {:induction false} WithoutWithout(s: seq<string>, a: set<string>, b: set<string>)
    ensures Without(Without(s, a), b) == Without(s, a + b)
    decreases |s|
  {
    if s != [] {
      WithoutWithout(s[1..], a, b);
      if s[0] !in a {
        assert Without(s, a) == [s[0]] + Without(s[1..], a);
        assert Without(s, a)[1..] == Without(s[1..], a);
      }
    }
  }

  /** The drop loop over `keys` stated without the loop: exactly the keys that are not
      current leave the active dict, the ledger and `in_use`; their colours join the end
      of the free pool in key order; nothing else changes. */
  function DropReference(st: AllocState, keys: seq<string>, current: set<string>): (r: AllocState) {
    var gone := set n | n in keys && n !in current && n in st.activeColors;
    AllocState(st.palette,
               st.freePool + DepartedColors(keys, st.activeColors, current),
               map n | n in st.ledger && n !in gone :: st.ledger[n],
               Without(st.activeOrder, gone),
               map n | n in st.activeColors && n !in gone :: st.activeColors[n],
               st.inUse - (set n | n in gone :: st.activeColors[n]))
  }

  lemma DropReferenceStep(st: AllocState, ks: seq<string>, k: string, current: set<string>)
    requires k !in ks && k in st.activeColors
    ensures DropOne(DropReference(st, ks, current), k, current) == DropReference(st, ks + [k], current)
  {
    var keys := ks + [k];
    assert keys[..|keys| - 1] == ks;
    if k !in current {
      DropReferenceGone(st, ks, k, current);
    } else {
      var gone0 := set n | n in ks && n !in current && n in st.activeColors;
      var gone := set n | n in keys && n !in current && n in st.activeColors;
      assert gone == gone0;
      assert DepartedColors(keys, st.activeColors, current) == DepartedColors(ks, st.activeColors, current) + [];
    }
  }

  /** A departed key's step of the drop loop, against the reference. */
  lemma DropReferenceGone(st: AllocState, ks: seq<string>, k: string, current: set<string>)
    requires k !in ks && k in st.activeColors && k !in current
    ensures DropOne(DropReference(st, ks, current), k, current) == DropReference(st, ks + [k], current)
  {
    var lhs, rhs := DropOne(DropReference(st, ks, current), k, current), DropReference(st, ks + [k], current);
    GoneFreePool(st, ks, k, current);
    GoneOrderAndMaps(st, ks, k, current);
    GoneInUse(st, ks, k, current);
    assert lhs.palette == rhs.palette;
  }

  /** The names the reference drops for `ks`, and the key `k` still active before its step. */
  lemma GoneSets(st: AllocState, ks: seq<string>, k: string, current: set<string>)
    requires k !in ks && k in st.activeColors && k !in current
    ensures var prev := DropReference(st, ks, current);
      && k in prev.activeColors && prev.activeColors[k] == st.activeColors[k]
      && (set n | n in ks + [k] && n !in current && n in st.activeColors)
         == (set n | n in ks && n !in current && n in st.activeColors) + {k}
  {
  }

  lemma GoneFreePool(st: AllocState, ks: seq<string>, k: string, current: set<string>)
    requires k !in ks && k in st.activeColors && k !in current
    ensures DropOne(DropReference(st, ks, current), k, current).freePool == DropReference(st, ks + [k], current).freePool
  {
    GoneSets(st, ks, k, current);
    var c := st.activeColors[k];
    var dc := DepartedColors(ks, st.activeColors, current);
    DepartedColorsSnoc(ks, k, st.activeColors, current);
    assert st.freePool + dc + [c] == st.freePool + (dc + [c]);
  }

  lemma DepartedColorsSnoc(ks: seq<string>, k: string, active: map<string, Color>, current: set<string>)
    ensures DepartedColors(ks + [k], active, current)
      == DepartedColors(ks, active, current) + (if k !in current && k in active then [active[k]] else [])
  {
    var keys := ks + [k];
    assert keys[..|keys| - 1] == ks;
  }

  lemma GoneOrderAndMaps(st: AllocState, ks: seq<string>, k: string, current: set<string>)
    requires k !in ks && k in st.activeColors && k !in current
    ensures var lhs, rhs := DropOne(DropReference(st, ks, current), k, current), DropReference(st, ks + [k], current);
      lhs.activeOrder == rhs.activeOrder && lhs.activeColors == rhs.activeColors && lhs.ledger == rhs.ledger
  {
    GoneSets(st, ks, k, current);
    var gone0 := set n | n in ks && n !in current && n in st.activeColors;
    WithoutWithout(st.activeOrder, gone0, {k});
    RestrictMore(st.activeColors, gone0, k);
    RestrictMore(st.ledger, gone0, k);
  }

  lemma GoneInUse(st: AllocState, ks: seq<string>, k: string, current: set<string>)
    requires k !in ks && k in st.activeColors && k !in current
    ensures DropOne(DropReference(st, ks, current), k, current).inUse == DropReference(st, ks + [k], current).inUse
  {
    GoneSets(st, ks, k, current);
    var gone0 := set n | n in ks && n !in current && n in st.activeColors;
    var gone := set n | n in ks + [k] && n !in current && n in st.activeColors;
    assert (set n | n in gone :: st.activeColors[n]) == (set n | n in gone0 :: st.activeColors[n]) + {st.activeColors[k]};
  }

  lemma {:induction false} DropKeysSpec(st: AllocState, keys: seq<string>, current: set<string>)
    requires Distinct(keys) && forall k :: k in keys ==> k in st.activeColors
    ensures DropKeys(st, keys, current) == DropReference(st, keys, current)
    decreases |keys|
  {
    if keys == [] {
      DropReferenceNothing(st, current);
    } else {
      var ks, k := keys[..|keys| - 1], keys[|keys| - 1];
      assert keys == ks + [k];
      assert Distinct(ks) && k !in ks;
      assert forall x :: x in ks ==> x in keys;
      DropKeysSpec(st, ks, current);
      DropReferenceStep(st, ks, k, current);
    }
  }

  lemma DropReferenceNothing(st: AllocState, current: set<string>)
    ensures DropReference(st, [], current) == st
  {
    var r := DropReference(st, [], current);
    var gone: set<string> := set n | n in [] && n !in current && n in st.activeColors;
    assert gone == {};
    assert r.freePool == st.freePool by {
      assert DepartedColors([], st.activeColors, current) == [];
    }
    assert r.activeOrder == st.activeOrder by {
      WithoutNothing(st.activeOrder);
    }
    assert r.activeColors == st.activeColors by {
      RestrictNothing(st.activeColors);
    }
    assert r.ledger == st.ledger by {
      RestrictNothing(st.ledger);
    }
    assert r.inUse == st.inUse;
  }

  lemma RestrictNothing(m: map<string, string>)
    ensures (map n | n in m && n !in {} :: m[n]) == m
  {
  }

  lemma RestrictMore(m: map<string, string>, g: set<string>, k: string)
    ensures (map n | n in m && n !in g :: m[n]) - {k} == (map n | n in m && n !in g + {k} :: m[n])
  {
  }

  lemma {:induction false} WithoutNothing(s: seq<string>)
    ensures Without(s, {}) == s
    decreases |s|
  {
    if s != [] {
      WithoutNothing(s[1..]);
    }
  }

  /** The drop step of one snapshot: every active artist missing from `current` leaves the
      active dict, the ledger and `in_use`, and its colour is appended to the free pool;
      the palette and every other entry stay as they were. */
  lemma DropDepartedFrees(st: AllocState, current: set<string>)
    requires WellFormed(st)
    ensures var r, gone := Dropped(st, current), set n | n in st.activeColors && n !in current;
      && r.palette == st.palette
      && (forall n :: n in r.activeColors <==> n in st.activeColors && n in current)
      && (forall n :: n in r.activeColors ==> r.activeColors[n] == st.activeColors[n])
      && (forall n :: n in r.ledger <==> n in st.ledger && n !in gone)
      && (forall n :: n in r.ledger ==> r.ledger[n] == st.ledger[n])
      && r.inUse == st.inUse - (set n | n in gone :: st.activeColors[n])
      && r.freePool == st.freePool + DepartedColors(st.activeOrder, st.activeColors, current)
      && r.activeOrder == Without(st.activeOrder, gone)
      && WellFormed(r)
  {
    DropKeysSpec(st, st.activeOrder, current);
    var gone := set n | n in st.activeColors && n !in current;
    assert gone == set n | n in st.activeOrder && n !in current && n in st.activeColors;
  }

  // ---------------------------------------------------------------- no colour twice

  ghost predicate Injective(m: map<string, Color>) {
    forall a, b :: a in m && b in m && a != b ==> m[a] != m[b]
  }

  /** What keeps colours apart: `in_use` is exactly the set of active colours, no two
      active names share one, and the palette and the free pool are duplicate-free, apart
      from each other and from `in_use`. */
  ghost predicate Consistent(st: AllocState) {
    && st.inUse == st.activeColors.Values
    && Injective(st.activeColors)
    && Distinct(st.palette) && Distinct(st.freePool)
    && (forall c :: c in st.palette ==> c !in st.freePool)
    && PoolsAvoid(st.freePool, st.palette, st.inUse)
  }

  ghost predicate Good(st: AllocState) {
    WellFormed(st) && Consistent(st)
  }

  lemma {:induction false} DistinctSetSize(s: seq<string>)
    requires Distinct(s)
    ensures |set x | x in s| == |s|
    decreases |s|
  {
    if s != [] {
      assert Distinct(s[1..]) by {
        forall a, b | 0 <= a < b < |s[1..]| ensures s[1..][a] != s[1..][b] {
          assert s[1..][a] == s[a + 1] && s[1..][b] == s[b + 1];
        }
      }
      DistinctSetSize(s[1..]);
      assert s[0] !in s[1..] by {
        forall j | 0 <= j < |s[1..]| ensures s[1..][j] != s[0] {
          assert s[1..][j] == s[j + 1];
        }
      }
      assert (set x | x in s) == {s[0]} + (set x | x in s[1..]);
    }
  }

  lemma {:induction false} ValuesSize(m: map<string, Color>)
    ensures |m.Values| <= |m.Keys|
    decreases |m.Keys|
  {
    if m != map[] {
      var k :| k in m;
      var m' := m - {k};
      ValuesSize(m');
      assert m.Values <= m'.Values + {m[k]} by {
        forall c | c in m.Values ensures c in m'.Values + {m[k]} {
          var n :| n in m && m[n] == c;
          if n != k { assert n in m'; }
        }
      }
      SubsetSize(m.Values, m'.Values + {m[k]});
      assert m.Keys == m'.Keys + {k};
    }
  }

  lemma SubsetSize(a: set<string>, b: set<string>)
    requires a <= b
    ensures |a| <= |b|
  {
    assert b == a + (b - a);
  }

  /** With a duplicate-free default palette, every default colour is in use only when at
      least as many names are active as there are default colours. */
  lemma NotExhausted(st: AllocState, dp: seq<Color>)
    requires Consistent(st) && Distinct(dp) && |st.activeColors.Keys| < |dp|
    ensures exists c :: c in dp && c !in st.inUse
  {
    if forall c :: c in dp ==> c in st.inUse {
      DistinctSetSize(dp);
      SubsetSize((set x | x in dp), st.activeColors.Values);
      ValuesSize(st.activeColors);
      assert false;
    }
  }

  lemma DistinctConcat(a: seq<string>, b: seq<string>)
    requires Distinct(a) && Distinct(b) && forall x :: x in a ==> x !in b
    ensures Distinct(a + b)
  {
    var r := a + b;
    forall i, j | 0 <= i < j < |r| ensures r[i] != r[j] {
      if j < |a| {
        assert r[i] == a[i] && r[j] == a[j];
      } else if i >= |a| {
        assert r[i] == b[i - |a|] && r[j] == b[j - |a|];
      } else {
        assert r[i] == a[i] && r[j] == b[j - |a|] && a[i] in a;
      }
    }
  }

  lemma DepartedColorsFacts(keys: seq<string>, active: map<string, Color>, current: set<string>)
    requires Distinct(keys) && Injective(active)
    ensures var dc := DepartedColors(keys, active, current);
      && Distinct(dc)
      && forall c :: c in dc <==> c in (set n | n in keys && n !in current && n in active :: active[n])
  {
    DepartedColorsDistinct(keys, active, current);
    DepartedColorsMembers(keys, active, current);
  }

  /** The colours appended are those of the departed names. */
  lemma {:induction false} DepartedColorsMembers(keys: seq<string>, active: map<string, Color>, current: set<string>)
    ensures forall c :: c in DepartedColors(keys, active, current) <==>
      c in (set n | n in keys && n !in current && n in active :: active[n])
    decreases |keys|
  {
    if keys != [] {
      var ks, k := keys[..|keys| - 1], keys[|keys| - 1];
      assert keys == ks + [k];
      DepartedColorsMembers(ks, active, current);
      var dc0 := DepartedColors(ks, active, current);
      var tail := if k !in current && k in active then [active[k]] else [];
      var dc := DepartedColors(keys, active, current);
      assert dc == dc0 + tail;
      var all := set n | n in keys && n !in current && n in active :: active[n];
      var front := set n | n in ks && n !in current && n in active :: active[n];
      assert all == front + (set c | c in tail);
      forall c ensures c in dc <==> c in all {
        assert c in dc <==> c in dc0 || c in tail;
      }
    }
  }

  /** No colour is appended twice. */
  lemma {:induction false} DepartedColorsDistinct(keys: seq<string>, active: map<string, Color>, current: set<string>)
    requires Distinct(keys) && Injective(active)
    ensures Distinct(DepartedColors(keys, active, current))
    decreases |keys|
  {
    if keys != [] {
      var ks, k := keys[..|keys| - 1], keys[|keys| - 1];
      assert keys == ks + [k];
      assert Distinct(ks) && k !in ks;
      DepartedColorsDistinct(ks, active, current);
      var dc0 := DepartedColors(ks, active, current);
      var tail := if k !in current && k in active then [active[k]] else [];
      assert DepartedColors(keys, active, current) == dc0 + tail;
      if tail != [] {
        assert forall c :: c in dc0 ==> c != active[k] by {
          DepartedColorsMembers(ks, active, current);
          forall c | c in dc0 ensures c != active[k] {
            var n :| n in ks && n !in current && n in active && active[n] == c;
            assert n != k;
          }
        }
        DistinctConcat(dc0, tail);
      } else {
        assert dc0 + tail == dc0;
      }
    }
  }

  /** The drop step keeps the state consistent, and afterwards only current names are active. */
  lemma DropKeepsGood(st: AllocState, current: set<string>)
    requires Good(st)
    ensures Good(Dropped(st, current))
    ensures forall n :: n in Dropped(st, current).activeColors ==> n in current
  {
    DropDepartedFrees(st, current);
    DroppedInUse(st, current);
    DroppedPools(st, current);
  }

  lemma DroppedInUse(st: AllocState, current: set<string>)
    requires Good(st)
    ensures Dropped(st, current).inUse == Dropped(st, current).activeColors.Values
  {
    DropKeysSpec(st, st.activeOrder, current);
    var gone := set n | n in st.activeOrder && n !in current && n in st.activeColors;
    RestrictValues(st.activeColors, gone);
  }

  /** Removing names from an injective map removes exactly their colours. */
  lemma RestrictValues(m: map<string, Color>, gone: set<string>)
    requires Injective(m)
    ensures (map n | n in m && n !in gone :: m[n]).Values == m.Values - (set n | n in gone && n in m :: m[n])
  {
    var kept := map n | n in m && n !in gone :: m[n];
    var freed := set n | n in gone && n in m :: m[n];
    forall c ensures c in kept.Values <==> c in m.Values - freed {
      if c in kept.Values {
        var n :| n in kept && kept[n] == c;
        assert c in m.Values by { assert m[n] == c; }
      }
      if c in m.Values - freed {
        var n :| n in m && m[n] == c;
        assert n !in gone;
        assert kept[n] == c;
      }
    }
  }

  lemma DroppedPools(st: AllocState, current: set<string>)
    requires Good(st)
    ensures var r := Dropped(st, current);
      && Distinct(r.freePool)
      && (forall c :: c in r.palette ==> c !in r.freePool)
      && PoolsAvoid(r.freePool, r.palette, r.inUse)
  {
    DropDepartedFrees(st, current);
    var r := Dropped(st, current);
    var gone := set n | n in st.activeColors && n !in current;
    var freed := set n | n in gone :: st.activeColors[n];
    var dc := DepartedColors(st.activeOrder, st.activeColors, current);
    DepartedColorsFacts(st.activeOrder, st.activeColors, current);
    assert (set n | n in st.activeOrder && n !in current && n in st.activeColors :: st.activeColors[n]) == freed;
    assert forall c :: c in dc ==> c in st.inUse && c in freed;
    DistinctConcat(st.freePool, dc);
    assert r.inUse == st.inUse - freed;
  }

  /** The state after a newcomer is given `p.color`. */
  function Admitted(st: AllocState, name: string, p: Pick): (r: AllocState) {
    AllocState(p.palette, p.freePool, st.ledger[name := p.color], st.activeOrder + [name],
               st.activeColors[name := p.color], st.inUse + {p.color})
  }

  /** The lists `_assign_color` leaves stay duplicate-free, apart from each other, and free
      of the colour handed out and of the colours in use. */
  ghost predicate PoolsAfter(st: AllocState, p: Pick) {
    && Distinct(p.palette) && Distinct(p.freePool)
    && (forall c :: c in p.palette ==> c !in p.freePool)
    && PoolsAvoid(p.freePool, p.palette, st.inUse + {p.color})
  }

  lemma AdmittedGood(st: AllocState, name: string, p: Pick)
    requires Good(st) && name !in st.activeColors && p.color !in st.inUse && PoolsAfter(st, p)
    ensures Good(Admitted(st, name, p))
  {
    var r := Admitted(st, name, p);
    assert name !in st.activeOrder;
    assert forall x :: x in st.activeOrder ==> x !in [name];
    DistinctConcat(st.activeOrder, [name]);
    forall c ensures c in r.activeColors.Values <==> c in st.activeColors.Values + {p.color} {
      if c in r.activeColors.Values {
        var n :| n in r.activeColors && r.activeColors[n] == c;
        if n != name { assert n in st.activeColors; }
      }
      if c in st.activeColors.Values {
        var n :| n in st.activeColors && st.activeColors[n] == c;
        assert n != name && r.activeColors[n] == c;
      }
      if c == p.color { assert r.activeColors[name] == c; }
    }
  }

  /** An admission keeps the state consistent while a newcomer finds fewer active names
      than default colours: the colour handed out is one nobody active wears. */
  lemma AdmitKeepsGood(st: AllocState, name: string, dp: seq<Color>, hash: string -> int)
    requires Good(st) && Distinct(dp) && dp != []
    requires name in st.activeColors || |st.activeColors.Keys| < |dp|
    ensures Good(Admit(st, name, dp, hash))
    ensures name !in st.activeColors ==> Admit(st, name, dp, hash).activeColors[name] !in st.inUse
  {
    if name !in st.activeColors {
      var p := Choice(name, st.ledger, st.freePool, st.palette, st.inUse, dp, hash);
      assert Admit(st, name, dp, hash) == Admitted(st, name, p);
      AssignFreshUnlessExhausted(name, st.ledger, st.freePool, st.palette, st.inUse, dp, hash);
      NotExhausted(st, dp);
      PickKeepsPools(name, st, dp, hash);
      AdmittedGood(st, name, p);
    }
  }

  lemma PickKeepsPools(name: string, st: AllocState, dp: seq<Color>, hash: string -> int)
    requires Consistent(st) && Distinct(dp) && dp != []
    requires exists c :: c in dp && c !in st.inUse
    ensures PoolsAfter(st, Choice(name, st.ledger, st.freePool, st.palette, st.inUse, dp, hash))
  {
    var p := Choice(name, st.ledger, st.freePool, st.palette, st.inUse, dp, hash);
    if HasUsablePreference(st.ledger, st.inUse, name) {
      var c := st.ledger[name];
      if c in st.freePool {
        PreferredFromFreePool(st, c);
      } else if c in st.palette {
        PreferredFromPalette(st, c);
      }
    } else if st.freePool != [] {
      FromFreePool(st, Abs(hash(name)) % |st.freePool|);
    } else {
      var source := if st.palette != [] then st.palette else Refill(dp, st.inUse);
      assert p == Pick(source[0], source[1..], st.freePool);
      FromHead(st, source);
    }
  }

  lemma PreferredFromFreePool(st: AllocState, c: Color)
    requires Consistent(st) && c in st.freePool && c !in st.inUse
    ensures PoolsAfter(st, Pick(c, st.palette, RemoveFirst(st.freePool, c)))
  {
    var fp := RemoveFirst(st.freePool, c);
    assert multiset(fp) <= multiset(st.freePool);
    assert forall x :: x in fp ==> x in st.freePool;
  }

  lemma PreferredFromPalette(st: AllocState, c: Color)
    requires Consistent(st) && c in st.palette && c !in st.freePool && c !in st.inUse
    ensures PoolsAfter(st, Pick(c, RemoveFirst(st.palette, c), st.freePool))
  {
    var pl := RemoveFirst(st.palette, c);
    assert multiset(pl) <= multiset(st.palette);
    assert forall x :: x in pl ==> x in st.palette;
  }

  lemma FromFreePool(st: AllocState, idx: nat)
    requires Consistent(st) && idx < |st.freePool|
    ensures PoolsAfter(st, Pick(st.freePool[idx], st.palette, RemoveAt(st.freePool, idx)))
  {
    var fp := RemoveAt(st.freePool, idx);
    assert multiset(fp) <= multiset(st.freePool);
    assert forall x :: x in fp ==> x in st.freePool;
    assert st.freePool[idx] in st.freePool;
  }

  lemma FromHead(st: AllocState, source: seq<Color>)
    requires Consistent(st) && st.freePool == [] && source != [] && Distinct(source)
    requires forall x :: x in source ==> x !in st.inUse
    ensures PoolsAfter(st, Pick(source[0], source[1..], st.freePool))
  {
    assert source[0] !in source[1..] by {
      forall j | 0 <= j < |source[1..]| ensures source[1..][j] != source[0] {
        assert source[1..][j] == source[j + 1];
      }
    }
    assert Distinct(source[1..]) by {
      forall a, b | 0 <= a < b < |source[1..]| ensures source[1..][a] != source[1..][b] {
        assert source[1..][a] == source[a + 1] && source[1..][b] == source[b + 1];
      }
    }
    assert forall x :: x in source[1..] ==> x in source;
  }

  /** The admissions of one snapshot keep the state consistent when the snapshot has no
      more distinct names than there are default colours. */
  lemma {:induction false} AdmitAllKeepsGood(st: AllocState, names: seq<string>, allowed: set<string>,
                                             dp: seq<Color>, hash: string -> int)
    requires Good(st) && Distinct(dp) && dp != [] && |allowed| <= |dp|
    requires forall n :: n in names ==> n in allowed
    requires forall n :: n in st.activeColors ==> n in allowed
    ensures Good(AdmitAll(st, names, dp, hash))
    ensures forall n :: n in AdmitAll(st, names, dp, hash).activeColors ==> n in allowed
    decreases |names|
  {
    if names != [] {
      var prefix, name := names[..|names| - 1], names[|names| - 1];
      assert forall n :: n in prefix ==> n in names;
      AdmitAllKeepsGood(st, prefix, allowed, dp, hash);
      var mid := AdmitAll(st, prefix, dp, hash);
      if name !in mid.activeColors {
        assert mid.activeColors.Keys <= allowed - {name};
        SubsetSize(mid.activeColors.Keys, allowed - {name});
      }
      AdmitKeepsGood(mid, name, dp, hash);
    }
  }

  lemma NamesInNameSet(artists: seq<ArtistPayload>)
    ensures forall n :: n in Names(artists) ==> n in NameSet(artists)
  {
    forall n | n in Names(artists) ensures n in NameSet(artists) {
      var i :| 0 <= i < |artists| && Names(artists)[i] == n;
    }
  }

  /** A snapshot with no more distinct names than default colours keeps the state consistent. */
  lemma StepKeepsGood(st: AllocState, s: SnapshotPayload, dp: seq<Color>, hash: string -> int)
    requires Good(st) && Distinct(dp) && dp != [] && |NameSet(s.artists)| <= |dp|
    ensures Good(Step(st, s, dp, hash).0)
  {
    DropKeepsGood(st, NameSet(s.artists));
    NamesInNameSet(s.artists);
    AdmitAllKeepsGood(Dropped(st, NameSet(s.artists)), Names(s.artists), NameSet(s.artists), dp, hash);
  }

  /** The initial state is consistent: nothing is active and the palette is the default
      palette without the ledger's colours. */
  lemma InitialGood(seed: map<string, Color>, dp: seq<Color>)
    requires Distinct(dp)
    ensures Good(Initial(seed, dp))
  {
  }

  lemma {:induction false} RunKeepsGood(st: AllocState, snaps: seq<SnapshotPayload>, dp: seq<Color>, hash: string -> int)
    requires Good(st) && Distinct(dp) && dp != []
    requires forall i :: 0 <= i < |snaps| ==> |NameSet(snaps[i].artists)| <= |dp|
    ensures Good(Run(st, snaps, dp, hash).0)
    decreases |snaps|
  {
    if snaps != [] {
      var prefix := snaps[..|snaps| - 1];
      assert forall i :: 0 <= i < |prefix| ==> prefix[i] == snaps[i];
      RunKeepsGood(st, prefix, dp, hash);
      StepKeepsGood(Run(st, prefix, dp, hash).0, snaps[|snaps| - 1], dp, hash);
    }
  }

  /** No colour twice in a month: with a duplicate-free default palette and no month
      listing more distinct artists than there are default colours, two different artists
      of the same decorated snapshot never share a colour. */
  lemma NoDuplicateColours(snaps: seq<SnapshotPayload>, seed: map<string, Color>, plotly: seq<Color>,
                           hash: string -> int, i: nat, j: nat, k: nat)
    requires Distinct(DefaultPalette(plotly))
    requires forall t :: 0 <= t < |snaps| ==> |NameSet(snaps[t].artists)| <= |DefaultPalette(plotly)|
    requires i < |snaps| && j < |snaps[i].artists| && k < |snaps[i].artists|
    requires snaps[i].artists[j].name != snaps[i].artists[k].name
    ensures var out := ColorRun(snaps, seed, plotly, hash);
      |out[i].artists| == |snaps[i].artists| && out[i].artists[j].color != out[i].artists[k].color
  {
    var dp := DefaultPalette(plotly);
    var st := Initial(seed, dp);
    RunIndex(st, snaps, i, dp, hash);
    GoodThroughMonth(snaps, seed, dp, hash, i);
    StepColoursDistinct(StateBefore(st, snaps, i, dp, hash), snaps[i], dp, hash, j, k);
  }

  /** The state after month `i` is consistent. */
  lemma GoodThroughMonth(snaps: seq<SnapshotPayload>, seed: map<string, Color>, dp: seq<Color>, hash: string -> int, i: nat)
    requires dp != [] && Distinct(dp) && i < |snaps|
    requires forall t :: 0 <= t < |snaps| ==> |NameSet(snaps[t].artists)| <= |dp|
    ensures Good(Step(StateBefore(Initial(seed, dp), snaps, i, dp, hash), snaps[i], dp, hash).0)
  {
    var st := Initial(seed, dp);
    InitialGood(seed, dp);
    var prefix := snaps[..i + 1];
    assert forall t :: 0 <= t < |prefix| ==> prefix[t] == snaps[t];
    RunKeepsGood(st, prefix, dp, hash);
    RunIndex(st, snaps, i, dp, hash);
  }

  /** In a consistent state, different artists of the month wear different colours. */
  lemma StepColoursDistinct(st: AllocState, s: SnapshotPayload, dp: seq<Color>, hash: string -> int, j: nat, k: nat)
    requires dp != [] && Good(Step(st, s, dp, hash).0)
    requires j < |s.artists| && k < |s.artists| && s.artists[j].name != s.artists[k].name
    ensures var d := Step(st, s, dp, hash).1;
      |d.artists| == |s.artists| && d.artists[j].color != d.artists[k].color
  {
    var after := Step(st, s, dp, hash).0;
    var d := Step(st, s, dp, hash).1;
    assert d.artists[j].color == after.activeColors[s.artists[j].name];
    assert d.artists[k].color == after.activeColors[s.artists[k].name];
  }

  // ---------------------------------------------------------------- seed colours

  /** The ledger starts as a copy of the seed without empty colours, and the palette as
      the default colours the ledger does not give out; nothing is active or free yet. */
  lemma SeedColorsReserved(seed: map<string, Color>, dp: seq<Color>)
    ensures var st := Initial(seed, dp);
      && (forall n :: n in st.ledger <==> n in seed && seed[n] != "")
      && (forall n :: n in st.ledger ==> st.ledger[n] == seed[n])
      && (forall c :: c in st.palette <==> c in dp && forall n :: n in seed && seed[n] != "" ==> seed[n] != c)
      && st.freePool == [] && st.activeOrder == [] && st.activeColors == map[] && st.inUse == {}
  {
    var st := Initial(seed, dp);
    forall c ensures c in st.palette <==> c in dp && forall n :: n in seed && seed[n] != "" ==> seed[n] != c {
      if c in st.ledger.Values {
        var n :| n in st.ledger && st.ledger[n] == c;
        assert n in seed && seed[n] != "" && seed[n] == c;
      }
      if c !in st.ledger.Values {
        forall n | n in seed && seed[n] != "" ensures seed[n] != c {
          assert n in st.ledger;
        }
      }
    }
  }

  /** The names of `admitted` without a seed colour. */
  function Unseeded(admitted: seq<string>, l0: map<string, Color>): (r: set<string>) {
    set m | m in admitted && m !in l0
  }

  /** What holds while the first snapshot is admitted from the initial state with ledger
      `l0` and palette `p0`. */
  ghost predicate SeedInv(st: AllocState, admitted: seq<string>, l0: map<string, Color>, p0: seq<Color>) {
    && st.freePool == []
    && (forall m :: m in st.ledger <==> m in l0 || m in st.activeColors)
    && (forall m :: m in l0 ==> m in st.ledger && st.ledger[m] == l0[m])
    && (forall m :: m in st.activeColors <==> m in admitted)
    && (forall m :: m in st.activeColors && m in l0 ==> st.activeColors[m] == l0[m])
    && (forall m :: m in st.activeColors && m !in l0 ==> st.activeColors[m] in p0)
    && (forall c :: c in st.palette ==> c in p0)
    && st.inUse == st.activeColors.Values
    && |st.palette| + |Unseeded(admitted, l0)| == |p0|
  }

  lemma ValuesAfterAdd(m: map<string, Color>, name: string, c: Color)
    requires name !in m
    ensures m[name := c].Values == m.Values + {c}
  {
    var r := m[name := c];
    forall x ensures x in r.Values <==> x in m.Values + {c} {
      if x in r.Values {
        var n :| n in r && r[n] == x;
        if n != name { assert n in m; }
      }
      if x in m.Values {
        var n :| n in m && m[n] == x;
        assert n != name && r[n] == x;
      }
      if x == c { assert r[name] == x; }
    }
  }

  /** A seeded newcomer of the first snapshot gets its seed colour, and no list changes. */
  lemma SeededNewcomer(st: AllocState, admitted: seq<string>, name: string, l0: map<string, Color>, p0: seq<Color>,
                       dp: seq<Color>, hash: string -> int)
    requires dp != [] && SeedInv(st, admitted, l0, p0) && name in l0 && name !in st.activeColors
    requires forall m :: m in l0 ==> l0[m] != "" && l0[m] !in p0
    requires forall m :: m in admitted && m in l0 && m != name ==> l0[m] != l0[name]
    ensures Choice(name, st.ledger, st.freePool, st.palette, st.inUse, dp, hash) == Pick(l0[name], st.palette, st.freePool)
  {
    var c := l0[name];
    forall m | m in st.activeColors ensures st.activeColors[m] != c {
      if m in l0 { assert m in admitted && m != name; }
    }
    assert c !in st.inUse;
    assert c !in st.palette;
  }

  lemma SeedInvStep(st: AllocState, admitted: seq<string>, name: string, l0: map<string, Color>, p0: seq<Color>,
                    dp: seq<Color>, hash: string -> int)
    requires dp != [] && SeedInv(st, admitted, l0, p0)
    requires forall m :: m in l0 ==> l0[m] != "" && l0[m] !in p0
    requires name in l0 ==> forall m :: m in admitted && m in l0 && m != name ==> l0[m] != l0[name]
    requires name !in l0 && name !in admitted ==> |Unseeded(admitted, l0)| < |p0|
    ensures SeedInv(Admit(st, name, dp, hash), admitted + [name], l0, p0)
  {
    var after := admitted + [name];
    if name in st.activeColors {
      assert Unseeded(after, l0) == Unseeded(admitted, l0);
    } else if name in l0 {
      SeedInvSeeded(st, admitted, name, l0, p0, dp, hash);
    } else {
      SeedInvUnseeded(st, admitted, name, l0, p0, dp, hash);
    }
  }

  lemma SeedInvSeeded(st: AllocState, admitted: seq<string>, name: string, l0: map<string, Color>, p0: seq<Color>,
                      dp: seq<Color>, hash: string -> int)
    requires dp != [] && SeedInv(st, admitted, l0, p0) && name !in st.activeColors && name in l0
    requires forall m :: m in l0 ==> l0[m] != "" && l0[m] !in p0
    requires forall m :: m in admitted && m in l0 && m != name ==> l0[m] != l0[name]
    ensures SeedInv(Admit(st, name, dp, hash), admitted + [name], l0, p0)
  {
    var p := Choice(name, st.ledger, st.freePool, st.palette, st.inUse, dp, hash);
    assert Admit(st, name, dp, hash) == Admitted(st, name, p);
    ValuesAfterAdd(st.activeColors, name, p.color);
    SeededNewcomer(st, admitted, name, l0, p0, dp, hash);
    assert Unseeded(admitted + [name], l0) == Unseeded(admitted, l0);
    SeedInvAdmitted(st, admitted, name, l0, p0, p);
  }

  lemma SeedInvUnseeded(st: AllocState, admitted: seq<string>, name: string, l0: map<string, Color>, p0: seq<Color>,
                        dp: seq<Color>, hash: string -> int)
    requires dp != [] && SeedInv(st, admitted, l0, p0) && name !in st.activeColors && name !in l0
    requires |Unseeded(admitted, l0)| < |p0|
    ensures SeedInv(Admit(st, name, dp, hash), admitted + [name], l0, p0)
  {
    var p := Choice(name, st.ledger, st.freePool, st.palette, st.inUse, dp, hash);
    assert Admit(st, name, dp, hash) == Admitted(st, name, p);
    ValuesAfterAdd(st.activeColors, name, p.color);
    assert name !in admitted;
    assert p == Pick(st.palette[0], st.palette[1..], []) by {
      assert name !in st.ledger;
      assert st.palette != [];
    }
    assert |p.palette| + |Unseeded(admitted + [name], l0)| == |p0| by {
      assert Unseeded(admitted + [name], l0) == Unseeded(admitted, l0) + {name};
    }
    assert p.color in p0 && forall c :: c in p.palette ==> c in p0 by {
      assert st.palette[0] in st.palette;
      assert forall x :: x in st.palette[1..] ==> x in st.palette;
    }
    SeedInvAdmitted(st, admitted, name, l0, p0, p);
  }

  lemma SeedInvAdmitted(st: AllocState, admitted: seq<string>, name: string, l0: map<string, Color>, p0: seq<Color>, p: Pick)
    requires SeedInv(st, admitted, l0, p0) && name !in st.activeColors && p.freePool == []
    requires name in l0 ==> p.color == l0[name]
    requires name !in l0 ==> p.color in p0
    requires forall c :: c in p.palette ==> c in p0
    requires st.activeColors[name := p.color].Values == st.activeColors.Values + {p.color}
    requires |p.palette| + |Unseeded(admitted + [name], l0)| == |p0|
    ensures SeedInv(Admitted(st, name, p), admitted + [name], l0, p0)
  {
  }

  lemma {:induction false} SeedInvAll(st: AllocState, names: seq<string>, l0: map<string, Color>, p0: seq<Color>,
                                      dp: seq<Color>, hash: string -> int)
    requires dp != [] && SeedInv(st, [], l0, p0)
    requires forall m :: m in l0 ==> l0[m] != "" && l0[m] !in p0
    requires forall a, b :: a in names && b in names && a in l0 && b in l0 && a != b ==> l0[a] != l0[b]
    requires |Unseeded(names, l0)| <= |p0|
    ensures SeedInv(AdmitAll(st, names, dp, hash), names, l0, p0)
    decreases |names|
  {
    if names != [] {
      var prefix, name := names[..|names| - 1], names[|names| - 1];
      assert names == prefix + [name];
      assert forall x :: x in prefix ==> x in names;
      assert Unseeded(prefix, l0) <= Unseeded(names, l0);
      SubsetSize(Unseeded(prefix, l0), Unseeded(names, l0));
      SeedInvAll(st, prefix, l0, p0, dp, hash);
      if name !in l0 && name !in prefix {
        assert Unseeded(prefix, l0) <= Unseeded(names, l0) - {name};
        SubsetSize(Unseeded(prefix, l0), Unseeded(names, l0) - {name});
      }
      SeedInvStep(AdmitAll(st, prefix, dp, hash), prefix, name, l0, p0, dp, hash);
    }
  }

  /** Re-running a month with a seed: an artist with a seed colour keeps it, as long as no
      two artists of the month share a seed colour and the palette left after the seed
      colours has room for the artists without one. */
  lemma FirstMonthKeepsSeeds(s: SnapshotPayload, seed: map<string, Color>, plotly: seq<Color>, hash: string -> int, j: nat)
    requires j < |s.artists|
    requires var l0 := SeedLedger(seed);
      forall a, b :: a in NameSet(s.artists) && b in NameSet(s.artists) && a in l0 && b in l0 && a != b ==> l0[a] != l0[b]
    requires |Unseeded(Names(s.artists), SeedLedger(seed))| <= |Initial(seed, DefaultPalette(plotly)).palette|
    requires s.artists[j].name in seed && seed[s.artists[j].name] != ""
    ensures var out := ColorRun([s], seed, plotly, hash);
      |out| == 1 && |out[0].artists| == |s.artists| && out[0].artists[j].color == seed[s.artists[j].name]
  {
    var dp := DefaultPalette(plotly);
    var st := Initial(seed, dp);
    FirstStepKeepsSeeds(s, seed, dp, hash, j);
    SingleMonthRun(st, s, dp, hash);
  }

  /** The loop over one month is one step. */
  lemma SingleMonthRun(st: AllocState, s: SnapshotPayload, dp: seq<Color>, hash: string -> int)
    requires dp != []
    ensures Run(st, [s], dp, hash) == (Step(st, s, dp, hash).0, [Step(st, s, dp, hash).1])
  {
    assert [s][..0] == [];
    assert [] + [Step(st, s, dp, hash).1] == [Step(st, s, dp, hash).1];
  }

  lemma FirstStepKeepsSeeds(s: SnapshotPayload, seed: map<string, Color>, dp: seq<Color>, hash: string -> int, j: nat)
    requires dp != [] && j < |s.artists|
    requires var l0 := SeedLedger(seed);
      forall a, b :: a in NameSet(s.artists) && b in NameSet(s.artists) && a in l0 && b in l0 && a != b ==> l0[a] != l0[b]
    requires |Unseeded(Names(s.artists), SeedLedger(seed))| <= |Initial(seed, dp).palette|
    requires s.artists[j].name in seed && seed[s.artists[j].name] != ""
    ensures var d := Step(Initial(seed, dp), s, dp, hash).1;
      |d.artists| == |s.artists| && d.artists[j].color == seed[s.artists[j].name]
  {
    var st := Initial(seed, dp);
    var l0, p0 := st.ledger, st.palette;
    var admitted := AdmitAll(st, Names(s.artists), dp, hash);
    assert SeedInv(admitted, Names(s.artists), l0, p0) by {
      assert Unseeded([], l0) == {};
      assert SeedInv(st, [], l0, p0);
      NamesInNameSet(s.artists);
      assert forall m :: m in l0 ==> l0[m] != "" && l0[m] !in p0 by {
        forall m | m in l0 ensures l0[m] != "" && l0[m] !in p0 {
          assert l0[m] in l0.Values;
        }
      }
      SeedInvAll(st, Names(s.artists), l0, p0, dp, hash);
    }
    var step := Step(st, s, dp, hash);
    assert step.0 == admitted by {
      assert Dropped(st, NameSet(s.artists)) == st;
    }
    var name := s.artists[j].name;
    assert Names(s.artists)[j] == name;
    assert step.0.activeColors[name] == l0[name];
    assert step.1.artists[j].color == step.0.activeColors[name];
  }

  // ---------------------------------------------------------------- reuse of a freed colour

  /** The first of the two months: A and B both arrive and nothing is free afterwards. */
  lemma NewcomersAB(m1: SnapshotPayload, dp: seq<Color>, hash: string -> int)
    requires dp != [] && |m1.artists| == 2 && m1.artists[0].name != m1.artists[1].name
    ensures var a, b, r := m1.artists[0].name, m1.artists[1].name, Step(Initial(map[], dp), m1, dp, hash);
      && r.0.activeOrder == [a, b] && r.0.freePool == [] && r.0.ledger.Keys == {a, b}
      && r.0.activeColors.Keys == {a, b} && |r.1.artists| == 2 && r.1.artists[1].color == r.0.activeColors[b]
  {
    var a, b := m1.artists[0].name, m1.artists[1].name;
    var st0 := Initial(map[], dp);
    assert Dropped(st0, NameSet(m1.artists)) == st0;
    assert Names(m1.artists) == [a, b];
    assert [a, b][..1] == [a] && [a][..0] == [];
    var st1 := Admit(st0, a, dp, hash);
    assert st1.freePool == [] && st1.activeOrder == [a] && st1.ledger.Keys == {a} && st1.activeColors.Keys == {a};
    var st2 := Admit(st1, b, dp, hash);
    assert AdmitAll(st0, [a], dp, hash) == Admit(AdmitAll(st0, [], dp, hash), a, dp, hash) == st1;
    assert AdmitAll(st0, [a, b], dp, hash) == Admit(AdmitAll(st0, [a], dp, hash), b, dp, hash) == st2;
  }

  /** The second month: A stays, B leaves and C arrives to find B's colour alone in the
      free pool. */
  lemma NewcomerTakesFreed(st: AllocState, m2: SnapshotPayload, b: string, dp: seq<Color>, hash: string -> int)
    requires dp != [] && |m2.artists| == 2
    requires var a, c := m2.artists[0].name, m2.artists[1].name;
      a != b && c != b && a != c && st.activeOrder == [a, b] && st.freePool == [] && st.ledger.Keys == {a, b}
      && st.activeColors.Keys == {a, b}
    ensures var r := Step(st, m2, dp, hash); |r.1.artists| == 2 && r.1.artists[1].color == st.activeColors[b]
  {
    var a, c := m2.artists[0].name, m2.artists[1].name;
    var current := NameSet(m2.artists);
    var dropped := DropSecond(st, current, a, b);
    assert Names(m2.artists) == [a, c];
    assert [a, c][..1] == [a] && [a][..0] == [];
    assert AdmitAll(dropped, [a], dp, hash) == Admit(dropped, a, dp, hash) == dropped;
    assert c !in dropped.ledger && c !in dropped.activeColors;
    SingleSlotReuse(c, dropped.ledger, st.activeColors[b], dropped.palette, dropped.inUse, dp, hash);
    var st4 := Admit(dropped, c, dp, hash);
    assert st4.activeColors[c] == st.activeColors[b];
    assert AdmitAll(dropped, [a, c], dp, hash) == Admit(AdmitAll(dropped, [a], dp, hash), c, dp, hash) == st4;
    assert Step(st, m2, dp, hash).0 == st4;
  }

  /** The drop step of the second month, with only B gone. */
  lemma DropSecond(st: AllocState, current: set<string>, a: string, b: string) returns (dropped: AllocState)
    requires a != b && a in current && b !in current && st.activeOrder == [a, b] && st.freePool == []
    requires st.ledger.Keys == {a, b} && st.activeColors.Keys == {a, b}
    ensures dropped == Dropped(st, current)
    ensures dropped.freePool == [st.activeColors[b]] && dropped.ledger.Keys == {a} && dropped.activeColors.Keys == {a}
  {
    assert [a, b][..1] == [a] && [a][..0] == [];
    assert DropKeys(st, [a], current) == st;
    dropped := DropOne(st, b, current);
  }

  /** Two months without a seed, `[A, B]` and then `[A, C]`: B leaves, and C, the only
      newcomer, receives the colour B gave back, whatever the hash and the palette. */
  lemma FreedColourIsReused(m1: SnapshotPayload, m2: SnapshotPayload, plotly: seq<Color>, hash: string -> int)
    requires |m1.artists| == 2 && |m2.artists| == 2
    requires m1.artists[0].name == m2.artists[0].name
    requires m1.artists[0].name != m1.artists[1].name && m2.artists[0].name != m2.artists[1].name
    requires m1.artists[1].name != m2.artists[1].name
    ensures var out := ColorRun([m1, m2], map[], plotly, hash);
      |out| == 2 && |out[0].artists| == 2 && |out[1].artists| == 2 && out[1].artists[1].color == out[0].artists[1].color
  {
    var dp := DefaultPalette(plotly);
    var st0 := Initial(map[], dp);
    assert [m1, m2][..1] == [m1] && [m1][..0] == [];
    var first := Step(st0, m1, dp, hash);
    var run1 := Run(st0, [m1], dp, hash);
    assert Run(st0, [], dp, hash) == (st0, []);
    assert run1.0 == first.0 && run1.1 == [] + [first.1];
    NewcomersAB(m1, dp, hash);
    NewcomerTakesFreed(first.0, m2, m1.artists[1].name, dp, hash);
    var second := Step(first.0, m2, dp, hash);
    var run2 := Run(st0, [m1, m2], dp, hash);
    assert [m1, m2][1] == m2;
    assert run2.1 == run1.1 + [second.1];
  }
}
