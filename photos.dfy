/** The photo queries over the manifest's photo list: filtering by tag or
    search term, paging, lookup by id, and the library statistics with
    their per-camera, per-lens and per-tag counts ranked by frequency.
    Fetching the manifest is left to the caller: each query takes the
    manifest's `photos` field, which may be absent. */
module Photos {
  import opened Wrappers
  import opened Js

  // ---------------------------------------------------------------------
  // Data
  // ---------------------------------------------------------------------

  /** The part of a photo's stored EXIF summary the queries look at. */
  datatype PhotoExif = PhotoExif(camera: Option<string>, lens: Option<string>, hasGps: bool)

  /** The fields of a manifest photo the queries look at. */
  datatype Photo = Photo(
    id: string,
    title: Option<string>,
    description: Option<string>,
    size: int,
    tags: Option<seq<string>>,
    exif: Option<PhotoExif>)

  /** `manifest.photos || []`. */
  function PhotoList(manifestPhotos: Option<seq<Photo>>): seq<Photo> {
    manifestPhotos.GetOr([])
  }

  /** `s?.toLowerCase().includes(term)`: false when `s` is absent. */
  predicate MentionsLower(s: Option<string>, term: string) {
    s.Some? && Includes(Lower(s.value), term)
  }

  /** `photo.tags?.some(tag => tag.toLowerCase().includes(term))`. */
  predicate SomeTagMentions(p: Photo, term: string) {
    p.tags.Some? && exists t :: t in p.tags.value && Includes(Lower(t), term)
  }

  function Camera(p: Photo): Option<string> {
    if p.exif.Some? then p.exif.value.camera else None
  }

  function Lens(p: Photo): Option<string> {
    if p.exif.Some? then p.exif.value.lens else None
  }

  // ---------------------------------------------------------------------
  // Filters
  // ---------------------------------------------------------------------

  /** `Array.prototype.filter`. */
  function Filter<T(!new)>(s: seq<T>, keep: T -> bool): (r: seq<T>)
    ensures |r| <= |s|
    ensures forall x :: x in r <==> x in s && keep(x)
  {
    if s == [] then []
    else Filter(s[..|s| - 1], keep) + (if keep(s[|s| - 1]) then [s[|s| - 1]] else [])
  }

  /** Filtering keeps order: it distributes over concatenation, so the kept
      photos of an earlier part come before those of a later part. */
  lemma {:induction false} FilterAppend<T(!new)>(a: seq<T>, b: seq<T>, keep: T -> bool)
    ensures Filter(a + b, keep) == Filter(a, keep) + Filter(b, keep)
    decreases |b|
  {
    if b == [] {
      assert a + b == a;
    } else {
      var last := b[|b| - 1];
      assert (a + b)[..|a + b| - 1] == a + b[..|b| - 1];
      FilterAppend(a, b[..|b| - 1], keep);
      var k := if keep(last) then [last] else [];
      assert Filter(a + b, keep) == Filter(a, keep) + Filter(b[..|b| - 1], keep) + k;
    }
  }

  /** The tag filter: some tag contains the query, both lower-cased. */
  predicate MatchesTag(p: Photo, tag: string) {
    SomeTagMentions(p, Lower(tag))
  }

  /** The search filter: the lower-cased term occurs in the title, the
      description, a tag, the camera or the lens, each lower-cased. */
  predicate MatchesSearch(p: Photo, search: string) {
    var term := Lower(search);
    MentionsLower(p.title, term) || MentionsLower(p.description, term) || SomeTagMentions(p, term)
    || MentionsLower(Camera(p), term) || MentionsLower(Lens(p), term)
  }

  datatype GetPhotosOptions = GetPhotosOptions(page: int, limit: int, tag: Option<string>, search: Option<string>)

  /** The photos left after the tag filter, then the search filter, each
      applied only when its option is a non-empty string. */
  function Filtered(photos: seq<Photo>, options: GetPhotosOptions): seq<Photo> {
    var byTag := if Truthy(options.tag, "") then Filter(photos, p => MatchesTag(p, options.tag.value)) else photos;
    if Truthy(options.search, "") then Filter(byTag, p => MatchesSearch(p, options.search.value)) else byTag
  }

  /** A photo survives the filters exactly when it is listed and matches
      every option given; nothing is added. */
  lemma FilteredMembers(photos: seq<Photo>, options: GetPhotosOptions, p: Photo)
    ensures p in Filtered(photos, options) <==>
      && p in photos
      && (Truthy(options.tag, "") ==> MatchesTag(p, options.tag.value))
      && (Truthy(options.search, "") ==> MatchesSearch(p, options.search.value))
  {
  }

  /** Filtering a longer list appends to the result of the shorter one:
      the result keeps the manifest's order. */
  lemma FilteredKeepsOrder(a: seq<Photo>, b: seq<Photo>, options: GetPhotosOptions)
    ensures Filtered(a + b, options) == Filtered(a, options) + Filtered(b, options)
  {
    if Truthy(options.tag, "") {
      FilterAppend(a, b, p => MatchesTag(p, options.tag.value));
    }
    var byTag := if Truthy(options.tag, "") then Filter(a + b, p => MatchesTag(p, options.tag.value)) else a + b;
    var byTagA := if Truthy(options.tag, "") then Filter(a, p => MatchesTag(p, options.tag.value)) else a;
    var byTagB := if Truthy(options.tag, "") then Filter(b, p => MatchesTag(p, options.tag.value)) else b;
    assert byTag == byTagA + byTagB;
    if Truthy(options.search, "") {
      FilterAppend(byTagA, byTagB, p => MatchesSearch(p, options.search.value));
    }
  }

  /** A tag query matches regardless of the letter case of the query. */
  lemma TagQueryIgnoresCase(p: Photo, tag: string)
    ensures MatchesTag(p, Lower(tag)) == MatchesTag(p, tag)
  {
    LowerIdempotent(tag);
  }

  // ---------------------------------------------------------------------
  // Paging
  // ---------------------------------------------------------------------

  /** `Math.ceil(total / limit)` for a non-zero limit; with a zero limit
      JavaScript yields Infinity or NaN, modelled as None. */
  function TotalPages(total: nat, limit: int): (r: Option<int>)
    ensures r.Some? <==> limit != 0
  {
    if limit > 0 then Some((total + limit - 1) / limit)
    else if limit < 0 then Some(-(total / -limit))
    else None
  }

  /** The number of pages is the least whole number covering `total`. */
  lemma TotalPagesCovers(total: nat, limit: int)
    requires limit >= 1
    ensures var pages := TotalPages(total, limit).value;
      && pages >= 0
      && (total == 0 ==> pages == 0)
      && (total > 0 ==> (pages - 1) * limit < total <= pages * limit)
  {
    var pages := (total + limit - 1) / limit;
    var r := (total + limit - 1) % limit;
    assert total + limit - 1 == pages * limit + r;
  }

  datatype PhotosResponse = PhotosResponse(photos: seq<Photo>, page: int, limit: int, total: nat, totalPages: Option<int>)

  /** `getPhotos`: filter, then the page-th slice of `limit` photos. */
  function GetPhotos(manifestPhotos: Option<seq<Photo>>, options: GetPhotosOptions): (r: PhotosResponse)
    ensures r.total == |Filtered(PhotoList(manifestPhotos), options)|
    ensures r.page == options.page && r.limit == options.limit
  {
    var photos := Filtered(PhotoList(manifestPhotos), options);
    var startIndex := (options.page - 1) * options.limit;
    PhotosResponse(Slice(photos, startIndex, startIndex + options.limit),
                   options.page, options.limit, |photos|, TotalPages(|photos|, options.limit))
  }

  function Min(a: int, b: int): int {
    if a <= b then a else b
  }

  /** A window of `limit` items from a non-negative start: what is left of
      the list there, at most `limit` items. */
  lemma Window<T>(all: seq<T>, start: int, limit: int)
    requires start >= 0 && limit >= 1
    ensures |Slice(all, start, start + limit)| <= limit
    ensures start >= |all| ==> Slice(all, start, start + limit) == []
    ensures start < |all| ==> Slice(all, start, start + limit) == all[start..Min(start + limit, |all|)]
  {
  }

  lemma MulNonNegative(a: int, b: int)
    requires a >= 0 && b >= 0
    ensures a * b >= 0
  {
  }

  /** For a valid page and limit, the page is the run of filtered photos
      starting at `(page-1)*limit`, cut at the end of the list, never more
      than `limit` long. */
  lemma PageWindow(manifestPhotos: Option<seq<Photo>>, options: GetPhotosOptions)
    requires options.page >= 1 && options.limit >= 1
    ensures var all := Filtered(PhotoList(manifestPhotos), options);
      var r := GetPhotos(manifestPhotos, options);
      var start := (options.page - 1) * options.limit;
      && |r.photos| <= options.limit
      && (start >= |all| ==> r.photos == [])
      && (start < |all| ==> r.photos == all[start..Min(start + options.limit, |all|)])
  {
    MulNonNegative(options.page - 1, options.limit);
    Window(Filtered(PhotoList(manifestPhotos), options), (options.page - 1) * options.limit, options.limit);
  }

  lemma DivMod(i: nat, limit: int)
    requires limit >= 1
    ensures (i / limit) * limit + i % limit == i && 0 <= i % limit < limit && (i / limit) * limit >= 0
  {
    MulNonNegative(i / limit, limit);
  }

  /** Item `m` of the window starting at `start` is item `start + m` of the list. */
  lemma ItemOfWindow<T>(all: seq<T>, start: int, limit: int, m: int)
    requires start >= 0 && 0 <= m < limit && start + m < |all|
    ensures m < |Slice(all, start, start + limit)| && Slice(all, start, start + limit)[m] == all[start + m]
  {
  }

  /** Every filtered photo is on exactly the page its index says: the
      photo at index `i` is item `i % limit` of page `i / limit + 1`. */
  lemma EveryPhotoOnItsPage(manifestPhotos: Option<seq<Photo>>, options: GetPhotosOptions, i: nat)
    requires options.limit >= 1
    requires i < |Filtered(PhotoList(manifestPhotos), options)|
    ensures var all := Filtered(PhotoList(manifestPhotos), options);
      var r := GetPhotos(manifestPhotos, options.(page := i / options.limit + 1));
      i % options.limit < |r.photos| && r.photos[i % options.limit] == all[i]
  {
    var all := Filtered(PhotoList(manifestPhotos), options);
    var limit := options.limit;
    var o := options.(page := i / limit + 1);
    assert Filtered(PhotoList(manifestPhotos), o) == all;
    var start := (i / limit) * limit;
    DivMod(i, limit);
    assert (o.page - 1) * o.limit == start;
    ItemOfWindow(all, start, limit, i % limit);
  }

  // ---------------------------------------------------------------------
  // Lookup
  // ---------------------------------------------------------------------

  /** `getPhoto`: the first photo with the id, or None. */
  function FindById(photos: seq<Photo>, id: string): (r: Option<Photo>)
    ensures r.Some? ==> r.value in photos && r.value.id == id
    ensures r.None? <==> forall p :: p in photos ==> p.id != id
  {
    if photos == [] then None
    else if photos[0].id == id then Some(photos[0])
    else FindById(photos[1..], id)
  }

  function GetPhoto(manifestPhotos: Option<seq<Photo>>, id: string): Option<Photo> {
    FindById(PhotoList(manifestPhotos), id)
  }

  /** The photo found is the first one with that id: none before it has it. */
  lemma {:induction false} FindByIdFirst(photos: seq<Photo>, id: string)
    requires FindById(photos, id).Some?
    ensures exists i :: 0 <= i < |photos| && photos[i] == FindById(photos, id).value
                        && forall j :: 0 <= j < i ==> photos[j].id != id
  {
    if photos[0].id == id {
      assert photos[0] == FindById(photos, id).value;
    } else {
      FindByIdFirst(photos[1..], id);
      var i :| 0 <= i < |photos[1..]| && photos[1..][i] == FindById(photos[1..], id).value
                && forall j :: 0 <= j < i ==> photos[1..][j].id != id;
      assert photos[i + 1] == FindById(photos, id).value;
      forall j | 0 <= j < i + 1
        ensures photos[j].id != id
      {
        if j > 0 {
          assert photos[j] == photos[1..][j - 1];
        }
      }
    }
  }

  // ---------------------------------------------------------------------
  // Counting
  // ---------------------------------------------------------------------

  /** How many times `k` occurs in `xs`. */
  function Occurrences(xs: seq<string>, k: string): (n: nat)
    ensures n <= |xs|
  {
    if xs == [] then 0
    else Occurrences(xs[..|xs| - 1], k) + (if xs[|xs| - 1] == k then 1 else 0)
  }

  lemma OccurrencesPositive(xs: seq<string>, k: string)
    ensures Occurrences(xs, k) > 0 <==> k in xs
  {
    if xs != [] {
      assert xs == xs[..|xs| - 1] + [xs[|xs| - 1]];
      OccurrencesPositive(xs[..|xs| - 1], k);
    }
  }

  /** A string-keyed record of counts: the keys in the order they were
      first assigned (the order `Object.entries` lists them) and the count
      under each. */
  datatype Tally = Tally(keys: seq<string>, counts: map<string, nat>)

  ghost predicate ValidTally(t: Tally) {
    && (forall i, j :: 0 <= i < j < |t.keys| ==> t.keys[i] != t.keys[j])
    && (forall k :: k in t.counts <==> k in t.keys)
    && (forall k :: k in t.counts ==> t.counts[k] >= 1)
  }

  /** `record[k] = (record[k] || 0) + 1`. */
  function Increment(t: Tally, k: string): (r: Tally)
    ensures k in r.counts
  {
    if k in t.counts then Tally(t.keys, t.counts[k := t.counts[k] + 1])
    else Tally(t.keys + [k], t.counts[k := 1])
  }

  /** The record after incrementing once for each element of `xs`, in order. */
  function TallyOf(xs: seq<string>): Tally {
    if xs == [] then Tally([], map[])
    else Increment(TallyOf(xs[..|xs| - 1]), xs[|xs| - 1])
  }

  lemma IncrementValid(t: Tally, k: string)
    requires ValidTally(t)
    ensures ValidTally(Increment(t, k))
  {
    if k !in t.counts {
      var keys := t.keys + [k];
      forall i, j | 0 <= i < j < |keys|
        ensures keys[i] != keys[j]
      {
        if j == |t.keys| {
          assert t.keys[i] in t.keys;
        }
      }
    }
  }

  /** Each key is listed once, every element of `xs` is a key, and its
      count is its number of occurrences. */
  lemma {:induction false} TallyOfCounts(xs: seq<string>)
    ensures ValidTally(TallyOf(xs))
    ensures forall k :: k in TallyOf(xs).counts <==> k in xs
    ensures forall k :: k in TallyOf(xs).counts ==> TallyOf(xs).counts[k] == Occurrences(xs, k)
    decreases |xs|
  {
    if xs != [] {
      var init, x := xs[..|xs| - 1], xs[|xs| - 1];
      TallyOfCounts(init);
      assert xs == init + [x];
      IncrementValid(TallyOf(init), x);
      forall k | k in TallyOf(xs).counts
        ensures TallyOf(xs).counts[k] == Occurrences(xs, k)
      {
        OccurrencesPositive(init, k);
      }
    }
  }

  datatype NameCount = NameCount(name: string, count: nat)

  /** `Object.entries(record)`: one pair per key, in key order. */
  function Entries(t: Tally): (r: seq<NameCount>)
    ensures |r| == |t.keys|
  {
    seq(|t.keys|, i requires 0 <= i < |t.keys| =>
      NameCount(t.keys[i], if t.keys[i] in t.counts then t.counts[t.keys[i]] else 0))
  }

  // ---------------------------------------------------------------------
  // Ranking
  // ---------------------------------------------------------------------

  predicate NonIncreasing(s: seq<NameCount>) {
    forall i, j :: 0 <= i < j < |s| ==> s[i].count >= s[j].count
  }

  predicate DistinctNames(s: seq<NameCount>) {
    forall i, j :: 0 <= i < j < |s| ==> s[i].name != s[j].name
  }

  /** Put `e` into a non-increasing list after every entry whose count is at
      least its own. */
  function InsertByCount(sorted: seq<NameCount>, e: NameCount): (r: seq<NameCount>)
    ensures |r| == |sorted| + 1
  {
    if sorted == [] then [e]
    else if sorted[0].count >= e.count then [sorted[0]] + InsertByCount(sorted[1..], e)
    else [e] + sorted
  }

  lemma {:induction false} InsertByCountPermutes(sorted: seq<NameCount>, e: NameCount)
    ensures multiset(InsertByCount(sorted, e)) == multiset(sorted) + multiset{e}
    decreases |sorted|
  {
    if sorted != [] {
      assert sorted == [sorted[0]] + sorted[1..];
      if sorted[0].count >= e.count {
        InsertByCountPermutes(sorted[1..], e);
      }
    }
  }

  lemma InsertByCountMembers(sorted: seq<NameCount>, e: NameCount)
    ensures forall x :: x in InsertByCount(sorted, e) <==> x in sorted || x == e
  {
    InsertByCountPermutes(sorted, e);
  }

  lemma {:induction false} InsertByCountSorted(sorted: seq<NameCount>, e: NameCount)
    requires NonIncreasing(sorted)
    ensures NonIncreasing(InsertByCount(sorted, e))
    decreases |sorted|
  {
    if sorted != [] && sorted[0].count >= e.count {
      var head, rest := sorted[0], InsertByCount(sorted[1..], e);
      InsertByCountSorted(sorted[1..], e);
      InsertByCountMembers(sorted[1..], e);
      forall j | 0 <= j < |rest|
        ensures rest[j].count <= head.count
      {
        assert rest[j] in rest;
        if rest[j] != e {
          var k :| 0 <= k < |sorted[1..]| && sorted[1..][k] == rest[j];
          assert sorted[k + 1] == rest[j];
        }
      }
      assert InsertByCount(sorted, e) == [head] + rest;
    }
  }

  lemma {:induction false} InsertByCountDistinct(sorted: seq<NameCount>, e: NameCount)
    requires DistinctNames(sorted)
    requires forall x :: x in sorted ==> x.name != e.name
    ensures DistinctNames(InsertByCount(sorted, e))
    decreases |sorted|
  {
    if sorted != [] && sorted[0].count >= e.count {
      var head, rest := sorted[0], InsertByCount(sorted[1..], e);
      InsertByCountDistinct(sorted[1..], e);
      InsertByCountMembers(sorted[1..], e);
      forall j | 0 <= j < |rest|
        ensures rest[j].name != head.name
      {
        assert rest[j] in rest;
        if rest[j] != e {
          var k :| 0 <= k < |sorted[1..]| && sorted[1..][k] == rest[j];
          assert sorted[k + 1] == rest[j];
        }
      }
      assert InsertByCount(sorted, e) == [head] + rest;
    }
  }

  /** `entries.sort(([, a], [, b]) => b - a)`: by count, largest first;
      the sort is stable, so equal counts keep their order. Written as an
      insertion sort over the entries taken left to right. */
  function SortByCount(s: seq<NameCount>): (r: seq<NameCount>)
    ensures |r| == |s|
  {
    if s == [] then []
    else InsertByCount(SortByCount(s[..|s| - 1]), s[|s| - 1])
  }

  /** The sort is a permutation. */
  lemma {:induction false} SortByCountPermutes(s: seq<NameCount>)
    ensures multiset(SortByCount(s)) == multiset(s)
    decreases |s|
  {
    if s != [] {
      assert s == s[..|s| - 1] + [s[|s| - 1]];
      SortByCountPermutes(s[..|s| - 1]);
      InsertByCountPermutes(SortByCount(s[..|s| - 1]), s[|s| - 1]);
    }
  }

  /** The sort orders by count, largest first. */
  lemma {:induction false} SortByCountSorted(s: seq<NameCount>)
    ensures NonIncreasing(SortByCount(s))
    decreases |s|
  {
    if s != [] {
      SortByCountSorted(s[..|s| - 1]);
      InsertByCountSorted(SortByCount(s[..|s| - 1]), s[|s| - 1]);
    }
  }

  lemma {:induction false} SortByCountDistinct(s: seq<NameCount>)
    requires DistinctNames(s)
    ensures DistinctNames(SortByCount(s))
    decreases |s|
  {
    if s != [] {
      var init, e := s[..|s| - 1], s[|s| - 1];
      SortByCountDistinct(init);
      SortByCountPermutes(init);
      forall x | x in SortByCount(init)
        ensures x.name != e.name
      {
        assert x in multiset(init);
        var k :| 0 <= k < |init| && init[k] == x;
      }
      InsertByCountDistinct(SortByCount(init), e);
    }
  }

  /** The `n` most frequent values of `xs` with their counts. */
  function Top(xs: seq<string>, n: nat): seq<NameCount> {
    Slice(SortByCount(Entries(TallyOf(xs))), 0, n)
  }

  /** The entries of a tally of `xs`: its distinct values, each with its
      number of occurrences. */
  lemma EntriesOfTally(xs: seq<string>)
    ensures var entries := Entries(TallyOf(xs));
      && DistinctNames(entries)
      && (forall x :: x in entries ==> x.name in xs && x.count == Occurrences(xs, x.name))
      && (forall k :: k in xs ==> exists x :: x in entries && x.name == k)
  {
    var t := TallyOf(xs);
    var entries := Entries(t);
    TallyOfCounts(xs);
    forall k | k in xs
      ensures exists x :: x in entries && x.name == k
    {
      var j := KeyIndex(t.keys, k);
      assert entries[j] in entries;
    }
  }

  /** The whole ranking: each distinct value once, with its count, by count. */
  lemma RankedEntries(xs: seq<string>)
    ensures var sorted := SortByCount(Entries(TallyOf(xs)));
      && NonIncreasing(sorted)
      && DistinctNames(sorted)
      && (forall x :: x in sorted ==> x.name in xs && x.count == Occurrences(xs, x.name))
      && (forall k :: k in xs ==> exists i :: 0 <= i < |sorted| && sorted[i].name == k)
  {
    var entries := Entries(TallyOf(xs));
    var sorted := SortByCount(entries);
    EntriesOfTally(xs);
    SortByCountSorted(entries);
    SortByCountPermutes(entries);
    SortByCountDistinct(entries);
    forall x | x in sorted
      ensures x.name in xs && x.count == Occurrences(xs, x.name)
    {
      assert x in multiset(entries);
    }
    forall k | k in xs
      ensures exists i :: 0 <= i < |sorted| && sorted[i].name == k
    {
      var x :| x in entries && x.name == k;
      assert x in multiset(sorted);
    }
  }

  /** The ranking of a list of values: at most `n` entries, largest count
      first, each name a distinct value of `xs` paired with its number of
      occurrences, and no value left out that occurs more often than the
      last one listed (when fewer than `n` are listed, none is left out). */
  lemma TopRanked(xs: seq<string>, n: nat)
    requires n >= 1
    ensures var r := Top(xs, n);
      && |r| <= n
      && NonIncreasing(r)
      && DistinctNames(r)
      && (forall x :: x in r ==> x.name in xs && x.count == Occurrences(xs, x.name))
      && (forall k :: k in xs && (forall x :: x in r ==> x.name != k) ==>
            |r| == n && Occurrences(xs, k) <= r[n - 1].count)
  {
    var sorted := SortByCount(Entries(TallyOf(xs)));
    RankedEntries(xs);
    var m := Min(n, |sorted|);
    SliceInBounds(sorted, 0, m);
    var r := sorted[..m];
    assert Top(xs, n) == r;
    PrefixOfRanking(sorted, m);
    forall k | k in xs && (forall x :: x in r ==> x.name != k)
      ensures |r| == n && Occurrences(xs, k) <= r[n - 1].count
    {
      var i :| 0 <= i < |sorted| && sorted[i].name == k;
      assert sorted[i] in sorted;
      forall j | 0 <= j < m
        ensures sorted[j].name != k
      {
        assert r[j] in r;
      }
      UnlistedRanksLower(sorted, n, i);
    }
  }

  /** A prefix of a ranking is a ranking drawn from it. */
  lemma PrefixOfRanking(sorted: seq<NameCount>, m: nat)
    requires NonIncreasing(sorted) && DistinctNames(sorted) && m <= |sorted|
    ensures NonIncreasing(sorted[..m]) && DistinctNames(sorted[..m])
    ensures forall x :: x in sorted[..m] ==> x in sorted
  {
  }

  /** An entry of a ranking missing from its first `n` entries comes after
      them, so there are `n` of them and its count is at most the last one's. */
  lemma UnlistedRanksLower(sorted: seq<NameCount>, n: nat, i: nat)
    requires NonIncreasing(sorted) && n >= 1 && i < |sorted|
    requires forall j :: 0 <= j < Min(n, |sorted|) ==> sorted[j].name != sorted[i].name
    ensures Min(n, |sorted|) == n && sorted[i].count <= sorted[..n][n - 1].count
  {
  }

  function KeyIndex(keys: seq<string>, k: string): (j: nat)
    requires k in keys
    ensures j < |keys| && keys[j] == k
  {
    if keys[0] == k then 0 else 1 + KeyIndex(keys[1..], k)
  }

  // ---------------------------------------------------------------------
  // Statistics
  // ---------------------------------------------------------------------

  datatype PhotoStats = PhotoStats(
    totalPhotos: nat,
    totalSize: int,
    withGps: nat,
    cameras: seq<NameCount>,
    lenses: seq<NameCount>,
    tags: seq<NameCount>)

  /** The camera of every photo that has a non-empty one, in order. */
  function Cameras(photos: seq<Photo>): seq<string> {
    if photos == [] then []
    else
      var p := photos[|photos| - 1];
      Cameras(photos[..|photos| - 1]) + (if Truthy(Camera(p), "") then [Camera(p).value] else [])
  }

  function Lenses(photos: seq<Photo>): seq<string> {
    if photos == [] then []
    else
      var p := photos[|photos| - 1];
      Lenses(photos[..|photos| - 1]) + (if Truthy(Lens(p), "") then [Lens(p).value] else [])
  }

  function TagsOf(p: Photo): seq<string> {
    p.tags.GetOr([])
  }

  /** Every tag of every photo, repeats included, in order. */
  function AllTags(photos: seq<Photo>): seq<string> {
    if photos == [] then []
    else AllTags(photos[..|photos| - 1]) + TagsOf(photos[|photos| - 1])
  }

  function TotalSize(photos: seq<Photo>): int {
    if photos == [] then 0
    else TotalSize(photos[..|photos| - 1]) + photos[|photos| - 1].size
  }

  predicate HasGps(p: Photo) {
    p.exif.Some? && p.exif.value.hasGps
  }

  function GpsCount(photos: seq<Photo>): (n: nat)
    ensures n <= |photos|
  {
    if photos == [] then 0
    else GpsCount(photos[..|photos| - 1]) + (if HasGps(photos[|photos| - 1]) then 1 else 0)
  }

  /** The statistics of a photo list. */
  function StatsOf(photos: seq<Photo>): PhotoStats {
    PhotoStats(|photos|, TotalSize(photos), GpsCount(photos),
               Top(Cameras(photos), 10), Top(Lenses(photos), 10), Top(AllTags(photos), 20))
  }

  /** `getStats`: one pass over the photos updating three count records and
      two counters, then each record ranked and cut to its top 10 or 20. */
  method GetStats(manifestPhotos: Option<seq<Photo>>) returns (stats: PhotoStats)
    ensures stats == StatsOf(PhotoList(manifestPhotos))
  {
    var photos := PhotoList(manifestPhotos);
    var cameraStats, lensStats, tagStats := Tally([], map[]), Tally([], map[]), Tally([], map[]);
    var totalSize, withGps := 0, 0;
    for i := 0 to |photos|
      invariant cameraStats == TallyOf(Cameras(photos[..i]))
      invariant lensStats == TallyOf(Lenses(photos[..i]))
      invariant tagStats == TallyOf(AllTags(photos[..i]))
      invariant totalSize == TotalSize(photos[..i])
      invariant withGps == GpsCount(photos[..i])
    {
      var photo := photos[i];
      StatsStep(photos, i);
      var camera, lens := Camera(photo), Lens(photo);
      if camera.Some? && camera.value != "" {
        TallyAppend(Cameras(photos[..i]), camera.value);
        cameraStats := Increment(cameraStats, camera.value);
        assert cameraStats == TallyOf(Cameras(photos[..i + 1]));
      } else {
        assert Cameras(photos[..i + 1]) == Cameras(photos[..i]);
      }
      if lens.Some? && lens.value != "" {
        TallyAppend(Lenses(photos[..i]), lens.value);
        lensStats := Increment(lensStats, lens.value);
        assert lensStats == TallyOf(Lenses(photos[..i + 1]));
      } else {
        assert Lenses(photos[..i + 1]) == Lenses(photos[..i]);
      }
      tagStats := CountTags(tagStats, AllTags(photos[..i]), TagsOf(photo));
      if photo.size != 0 {
        totalSize := totalSize + photo.size;
      }
      if photo.exif.Some? && photo.exif.value.hasGps {
        withGps := withGps + 1;
      }
    }
    assert photos[..|photos|] == photos;
    stats := PhotoStats(|photos|, totalSize, withGps,
                        Slice(SortByCount(Entries(cameraStats)), 0, 10),
                        Slice(SortByCount(Entries(lensStats)), 0, 10),
                        Slice(SortByCount(Entries(tagStats)), 0, 20));
  }

  /** `photo.tags?.forEach(tag => tagStats[tag] = (tagStats[tag] || 0) + 1)`. */
  method CountTags(tagStats: Tally, ghost before: seq<string>, tags: seq<string>) returns (r: Tally)
    requires tagStats == TallyOf(before)
    ensures r == TallyOf(before + tags)
  {
    r := tagStats;
    assert before + tags[..0] == before;
    for j := 0 to |tags|
      invariant r == TallyOf(before + tags[..j])
    {
      assert tags[..j + 1] == tags[..j] + [tags[j]];
      Assoc(before, tags[..j], [tags[j]]);
      TallyAppend(before + tags[..j], tags[j]);
      r := Increment(r, tags[j]);
    }
    assert tags[..|tags|] == tags;
  }

  /** What one more photo adds to each per-photo summary. */
  lemma StatsStep(photos: seq<Photo>, i: nat)
    requires i < |photos|
    ensures var p, pre, next := photos[i], photos[..i], photos[..i + 1];
      && Cameras(next) == Cameras(pre) + (if Truthy(Camera(p), "") then [Camera(p).value] else [])
      && Lenses(next) == Lenses(pre) + (if Truthy(Lens(p), "") then [Lens(p).value] else [])
      && AllTags(next) == AllTags(pre) + TagsOf(p)
      && TotalSize(next) == TotalSize(pre) + p.size
      && GpsCount(next) == GpsCount(pre) + (if HasGps(p) then 1 else 0)
  {
    assert photos[..i + 1][..i] == photos[..i];
  }

  /** The three ranked lists: at most 10 cameras, 10 lenses and 20 tags,
      each by count, largest first, each count the number of occurrences. */
  lemma StatsRanked(photos: seq<Photo>)
    ensures var s := StatsOf(photos);
      && |s.cameras| <= 10 && |s.lenses| <= 10 && |s.tags| <= 20
      && NonIncreasing(s.cameras) && NonIncreasing(s.lenses) && NonIncreasing(s.tags)
      && (forall x :: x in s.cameras ==> x.count == Occurrences(Cameras(photos), x.name))
      && (forall x :: x in s.lenses ==> x.count == Occurrences(Lenses(photos), x.name))
      && (forall x :: x in s.tags ==> x.count == Occurrences(AllTags(photos), x.name))
  {
    TopRanked(Cameras(photos), 10);
    TopRanked(Lenses(photos), 10);
    TopRanked(AllTags(photos), 20);
  }

  /** A camera's count is the number of photos taken with it. */
  lemma {:induction false} CameraCountIsPhotoCount(photos: seq<Photo>, camera: string)
    requires camera != ""
    ensures Occurrences(Cameras(photos), camera) == |Filter(photos, p => Camera(p) == Some(camera))|
    decreases |photos|
  {
    if photos != [] {
      var init, p := photos[..|photos| - 1], photos[|photos| - 1];
      CameraCountIsPhotoCount(init, camera);
      var added := if Truthy(Camera(p), "") then [Camera(p).value] else [];
      OccurrencesAppend(Cameras(init), added, camera);
    }
  }

  lemma {:induction false} OccurrencesAppend(a: seq<string>, b: seq<string>, k: string)
    ensures Occurrences(a + b, k) == Occurrences(a, k) + Occurrences(b, k)
    decreases |b|
  {
    if b == [] {
      assert a + b == a;
    } else {
      assert (a + b)[..|a + b| - 1] == a + b[..|b| - 1];
      OccurrencesAppend(a, b[..|b| - 1], k);
    }
  }

  lemma TallyAppend(xs: seq<string>, x: string)
    ensures TallyOf(xs + [x]) == Increment(TallyOf(xs), x)
  {
    assert (xs + [x])[..|xs|] == xs;
  }

  /** The counters: every photo counted, GPS photos among them, sizes summed. */
  lemma StatsCounters(photos: seq<Photo>)
    ensures StatsOf(photos).totalPhotos == |photos|
    ensures StatsOf(photos).withGps <= StatsOf(photos).totalPhotos
    ensures (forall i :: 0 <= i < |photos| ==> photos[i].size >= 0) ==> StatsOf(photos).totalSize >= 0
  {
    SizesNonNegative(photos);
  }

  lemma {:induction false} SizesNonNegative(photos: seq<Photo>)
    ensures (forall i :: 0 <= i < |photos| ==> photos[i].size >= 0) ==> TotalSize(photos) >= 0
    decreases |photos|
  {
    if photos != [] {
      SizesNonNegative(photos[..|photos| - 1]);
    }
  }
}
