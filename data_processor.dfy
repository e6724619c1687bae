/** The records of one month's chart and the normalisation of an API response into them. */
module DataProcessor {
  import opened Wrappers
  import opened Order
  import opened Sorting
  import opened Numbers

  /** At most this many artists are kept per month. */
  const MaxArtists: nat := 15

  datatype ArtistStat = ArtistStat(name: string, playcount: int, imageUrl: Option<string>, url: Option<string>, rank: int)

  datatype MonthlySnapshot = MonthlySnapshot(monthKey: string, monthLabel: string, generatedAt: string, artists: seq<ArtistStat>)

  /** A JSON value in the "playcount" slot of a response entry (Null also stands for a
      missing key; Container for any list or object). */
  datatype JsonValue = Null | Bool(b: bool) | Integer(i: int) | Text(s: string) | Container

  /** One entry of the response's artist list: its "name", "playcount" and "url". */
  datatype RawArtist = RawArtist(name: Option<string>, playcount: JsonValue, url: Option<string>)

  /** The response's "topartists" object and, in it, the "artist" list (None: key missing). */
  datatype TopArtists = TopArtists(artist: Option<seq<RawArtist>>)

  datatype RawResponse = RawResponse(topartists: Option<TopArtists>)

  /** `(raw_data or {}).get("topartists", {}).get("artist", [])` */
  function ArtistEntries(raw: Option<RawResponse>): (r: seq<RawArtist>) {
    match raw
    case None => []
    case Some(response) =>
      match response.topartists
      case None => []
      case Some(top) => top.artist.GetOr([])
    }

  /** `int(value or 0)`, where a TypeError or ValueError yields 0. */
  function CoercePlaycount(v: JsonValue): (r: int)
    ensures v.Integer? ==> r == v.i
    ensures v.Bool? ==> r == if v.b then 1 else 0
    ensures v.Text? && ParseInt(v.s).Some? ==> r == ParseInt(v.s).value
    ensures v.Text? && ParseInt(v.s) == None ==> r == 0
    ensures v.Null? || v.Container? ==> r == 0
  {
    match v
    case Null => 0
    case Bool(b) => if b then 1 else 0
    case Integer(i) => i
    case Text(s) => if s == "" then 0 else ParseInt(s).GetOr(0)
    case Container => 0
  }

  /** `str(name or f"Artist {rank}")` */
  function ArtistName(name: Option<string>, rank: int): (r: string) {
    if name.Some? && name.value != "" then name.value else "Artist " + Decimal(rank)
  }

  /** The ArtistStat the loop builds for `entry` at position `rank` (counting from 1). */
  function Normalized(entry: RawArtist, rank: int): (r: ArtistStat) {
    ArtistStat(ArtistName(entry.name, rank), CoercePlaycount(entry.playcount), None, entry.url, rank)
  }

  /** The key of the final sort: `(rank, -playcount, name.lower())`, with the case
      folding `lower` left as a parameter. */
  function SortKey(lower: string -> string): (r: ArtistStat -> seq<int>) {
    (a: ArtistStat) => [a.rank, -a.playcount] + CodePoints(lower(a.name))
  }

  /** Turns the response into the month's snapshot; the three timestamp strings are the
      outputs of the date formatting and are taken as given. */
  method ProcessData(raw: Option<RawResponse>, monthKey: string, monthLabel: string, generatedAt: string, lower: string -> string)
    returns (snapshot: MonthlySnapshot)
    ensures snapshot.monthKey == monthKey && snapshot.monthLabel == monthLabel && snapshot.generatedAt == generatedAt
    ensures |snapshot.artists| == if |ArtistEntries(raw)| < MaxArtists then |ArtistEntries(raw)| else MaxArtists
    ensures forall i :: 0 <= i < |snapshot.artists| ==>
      var a, e := snapshot.artists[i], ArtistEntries(raw)[i];
      && a.rank == i + 1
      && a.name == ArtistName(e.name, i + 1)
      && a.playcount == CoercePlaycount(e.playcount)
      && a.imageUrl == None
      && a.url == e.url
  {
    var entries := ArtistEntries(raw);
    var n := if |entries| < MaxArtists then |entries| else MaxArtists;
    entries := entries[..n];

    var artists: seq<ArtistStat> := [];
    for rank := 1 to n + 1
      invariant |artists| == rank - 1
      invariant forall i :: 0 <= i < |artists| ==> artists[i] == Normalized(entries[i], i + 1)
    {
      var entry := entries[rank - 1];
      var name := ArtistName(entry.name, rank);
      var playcount := CoercePlaycount(entry.playcount);
      artists := artists + [ArtistStat(name, playcount, None, entry.url, rank)];
    }

    RankedIsSorted(artists, lower);
    SortByOfSorted(artists, SortKey(lower));
    artists := SortBy(artists, SortKey(lower));

    snapshot := MonthlySnapshot(monthKey, monthLabel, generatedAt, artists);
  }

  /** Artists ranked 1, 2, ... in list order are already in sort-key order, whatever
      their playcounts and names: the rank alone decides. */
  lemma RankedIsSorted(artists: seq<ArtistStat>, lower: string -> string)
    requires forall i :: 0 <= i < |artists| ==> artists[i].rank == i + 1
    ensures SortedBy(artists, SortKey(lower))
  {
    forall i, j | 0 <= i < j < |artists|
      ensures !LexLess(SortKey(lower)(artists[j]), SortKey(lower)(artists[i]))
    {
      var kj, ki := SortKey(lower)(artists[j]), SortKey(lower)(artists[i]);
      assert kj[0] == j + 1 && ki[0] == i + 1;
    }
  }

  /** The final sort never reorders the ranked list. */
  lemma {:induction false} SortKeepsRankOrder(artists: seq<ArtistStat>, lower: string -> string)
    requires forall i :: 0 <= i < |artists| ==> artists[i].rank == i + 1
    ensures SortBy(artists, SortKey(lower)) == artists
  {
    RankedIsSorted(artists, lower);
    SortByOfSorted(artists, SortKey(lower));
  }

  /** A playcount written as decimal text is read as that number. */
  lemma DecimalPlaycountParses(n: int)
    ensures CoercePlaycount(Text(Decimal(n))) == n
  {
    DecimalRoundTrip(n);
  }

  /** Missing and falsy playcounts, and text that is not a number, become 0. */
  lemma PlaycountDefaultsToZero(s: string)
    requires ParseInt(s) == None
    ensures CoercePlaycount(Null) == 0 && CoercePlaycount(Text("")) == 0
    ensures CoercePlaycount(Integer(0)) == 0 && CoercePlaycount(Bool(false)) == 0
    ensures CoercePlaycount(Text(s)) == 0
  {
  }

  /** A missing or empty name becomes "Artist <rank>"; any other name is kept. */
  lemma NameDefaults(name: Option<string>, rank: nat)
    ensures name == None || name == Some("") ==> ArtistName(name, rank) == "Artist " + Decimal(rank)
    ensures name.Some? && name.value != "" ==> ArtistName(name, rank) == name.value
  {
  }

  /** No response, no "topartists" object or no "artist" list: no entries, so no artists. */
  lemma MissingEntriesGiveNone()
    ensures ArtistEntries(None) == []
    ensures ArtistEntries(Some(RawResponse(None))) == []
    ensures ArtistEntries(Some(RawResponse(Some(TopArtists(None))))) == []
  {
  }

  /** The first entry of the data processor's test: "Artist A" with playcount "42". */
  lemma FirstTestEntry(url: string)
    ensures Normalized(RawArtist(Some("Artist A"), Text("42"), Some(url)), 1)
         == ArtistStat("Artist A", 42, None, Some(url), 1)
  {
    ParseFortyTwo();
  }
}
