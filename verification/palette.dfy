/**
  The palette partitioner run before the tilemap is built when the user asks
  for palettes: it collects the colour set of every tile, stops at the first
  tile with more colours than a palette holds, drops duplicate sets and sets
  strictly contained in another one, then greedily merges the remaining sets
  (smallest first) into as few palettes as the colour limit allows, and
  rejects the image when that needs more palettes than the format has.

  `format_palettes_size` and `format_palette_size` are not part of this
  model; their values enter as `maxPalettes` and `maxColors`. The two calls
  of `std::sort` are modelled by `SortBySize`, whose contract only says
  "sorted by size and a permutation": `std::sort` is not stable, so every
  property below is stated for every order it could produce.
 */
module Palette {
  import opened Tiles

  type ColorSet = set<Color>

  /** The colours that occur among the pixels `px`, gathered one pixel at a
      time as the inner insertion loop does. */
  function ColorsOf(px: seq<Color>): (r: ColorSet)
    ensures forall c :: c in r <==> c in px
    ensures |r| <= |px|
  {
    if |px| == 0 then {}
    else
      var r := ColorsOf(px[..|px| - 1]);
      assert px == px[..|px| - 1] + [px[|px| - 1]];
      r + {px[|px| - 1]}
  }

  /** The colour set of every tile, in tile order. */
  function TileColorSets(tiles: seq<Tile>): (cs: seq<ColorSet>)
    ensures |cs| == |tiles|
  {
    seq(|tiles|, k requires 0 <= k < |tiles| => ColorsOf(tiles[k]))
  }

  /** Every colour that belongs to one of the sets in `ss`. */
  function Union(ss: seq<ColorSet>): (u: ColorSet)
    ensures forall c :: c in u <==> exists k :: 0 <= k < |ss| && c in ss[k]
  {
    if |ss| == 0 then {}
    else Union(ss[..|ss| - 1]) + ss[|ss| - 1]
  }

  /** Every colour of the image. */
  function AllColors(tiles: seq<Tile>): ColorSet
  {
    Union(TileColorSets(tiles))
  }

  lemma UnionBounds(ss: seq<ColorSet>, k: nat)
    requires k < |ss|
    ensures ss[k] <= Union(ss)
  {
  }

  /** Gathers the colour sets of the tiles in order and stops at the first
      tile whose set exceeds the colour limit; `qi` is that tile's index, or
      the tile count when every tile fits. */
  method CollectColorSets(tiles: seq<Tile>, maxColors: nat) returns (qi: nat, cs: seq<ColorSet>)
    ensures qi <= |tiles| && |cs| == qi
    ensures forall k :: 0 <= k < qi ==> cs[k] == ColorsOf(tiles[k]) && |cs[k]| <= maxColors
    ensures qi < |tiles| ==> |ColorsOf(tiles[qi])| > maxColors
  {
    qi, cs := 0, [];
    while qi < |tiles|
      invariant qi <= |tiles| && |cs| == qi
      invariant forall k :: 0 <= k < qi ==> cs[k] == ColorsOf(tiles[k]) && |cs[k]| <= maxColors
    {
      var s := ColorsOf(tiles[qi]);
      if |s| > maxColors {
        return;
      }
      cs := cs + [s];
      qi := qi + 1;
    }
  }

  /** `n` empty sets: the contents the output vector of the duplicate
      removal starts with. */
  function EmptySets(n: nat): seq<ColorSet>
  {
    seq(n, _ => {})
  }

  /** Duplicate removal as written: `std::copy_if` keeps a set when `std::find`
      does not see it in the output vector, and that vector holds the sets
      kept so far followed by the empty sets it was created with. Processes
      the first `n` sets of `cs`. */
  function UniqAsWritten(cs: seq<ColorSet>, n: nat): (kept: seq<ColorSet>)
    requires n <= |cs|
    ensures |kept| <= n
    ensures forall s :: s in kept ==> s in cs[..n]
  {
    if n == 0 then []
    else
      var kept := UniqAsWritten(cs, n - 1);
      if cs[n - 1] in kept + EmptySets(|cs| - |kept|) then kept else kept + [cs[n - 1]]
  }

  ghost predicate NoDuplicates(xs: seq<ColorSet>)
  {
    forall i, j :: 0 <= i < j < |xs| ==> xs[i] != xs[j]
  }

  /** Reference duplicate removal: the first occurrence of every set, in
      order. */
  function Dedup(cs: seq<ColorSet>): (r: seq<ColorSet>)
    ensures forall s :: s in r <==> s in cs
    ensures NoDuplicates(r)
  {
    if |cs| == 0 then []
    else
      var r := Dedup(cs[..|cs| - 1]);
      var s := cs[|cs| - 1];
      assert cs == cs[..|cs| - 1] + [s];
      if s in r then r else r + [s]
  }

  /** The reference removal keeps the sets in the order of their first
      occurrence. */
  lemma {:induction false} DedupFirstOccurrenceOrder(cs: seq<ColorSet>)
    ensures forall i, j :: 0 <= i < j < |Dedup(cs)| ==>
      IndexOf(cs, Dedup(cs)[i]) < IndexOf(cs, Dedup(cs)[j])
  {
    if |cs| > 0 {
      var n := |cs|;
      var init, s := cs[..n - 1], cs[n - 1];
      var r, r' := Dedup(cs), Dedup(init);
      DedupFirstOccurrenceOrder(init);
      assert cs[..n - 1] == init;
      forall x | x in r'
        ensures IndexOf(cs, x) == IndexOf(init, x) < n - 1
      {
        IndexInPrefix(cs, x, n - 1);
      }
      if s !in r' {
        IndexUnique(cs, s, n - 1);
      }
      forall i, j | 0 <= i < j < |r| ensures IndexOf(cs, r[i]) < IndexOf(cs, r[j]) {
        assert r[i] in r';
        if j < |r'| {
          assert r[j] in r';
        }
      }
    }
  }

  /** The vector's initial empty sets hide an empty colour set from the
      output: the as-written removal never keeps one. */
  lemma {:induction false} UniqAsWrittenDropsEmpty(cs: seq<ColorSet>, n: nat)
    requires n <= |cs|
    ensures {} !in UniqAsWritten(cs, n)
  {
    if n > 0 {
      UniqAsWrittenDropsEmpty(cs, n - 1);
      var kept := UniqAsWritten(cs, n - 1);
      assert EmptySets(|cs| - |kept|)[0] == {};
    }
  }

  /** Since a tile has at least one pixel, no colour set is empty, and then
      the as-written removal is the reference one. */
  lemma {:induction false} UniqAsWrittenIsDedup(cs: seq<ColorSet>, n: nat)
    requires n <= |cs|
    requires forall k :: 0 <= k < |cs| ==> cs[k] != {}
    ensures UniqAsWritten(cs, n) == Dedup(cs[..n])
  {
    if n > 0 {
      UniqAsWrittenIsDedup(cs, n - 1);
      var kept := UniqAsWritten(cs, n - 1);
      var s := cs[n - 1];
      var d := Dedup(cs[..n - 1]);
      assert cs[..n][..n - 1] == cs[..n - 1];
      assert Dedup(cs[..n]) == if s in d then d else d + [s];
      assert s !in EmptySets(|cs| - |kept|);
      assert s in kept + EmptySets(|cs| - |kept|) <==> s in kept;
    }
  }

  /** `s` is a proper subset of a set of `uniq`, which the subset removal
      tests as "different and included". */
  predicate Dominated(s: ColorSet, uniq: seq<ColorSet>)
  {
    exists c :: c in uniq && s < c
  }

  /** The sets of `xs` that no set of `uniq` strictly contains, in order. */
  function Undominated(xs: seq<ColorSet>, uniq: seq<ColorSet>): (r: seq<ColorSet>)
    ensures |r| <= |xs|
    ensures forall s :: s in r <==> s in xs && !Dominated(s, uniq)
    ensures NoDuplicates(xs) ==> NoDuplicates(r)
  {
    if |xs| == 0 then []
    else
      var r := Undominated(xs[..|xs| - 1], uniq);
      var s := xs[|xs| - 1];
      assert xs == xs[..|xs| - 1] + [s];
      if Dominated(s, uniq) then r else r + [s]
  }

  /** The subset removal of the partitioner: the maximal sets of `uniq`. */
  function Maximal(uniq: seq<ColorSet>): (r: seq<ColorSet>)
    ensures forall s :: s in r ==> s in uniq && forall c :: c in uniq ==> !(s < c)
    ensures NoDuplicates(uniq) ==> NoDuplicates(r)
  {
    Undominated(uniq, uniq)
  }

  /** The filter keeps the sets it keeps in their order in `xs`. */
  lemma {:induction false} UndominatedKeepsOrder(xs: seq<ColorSet>, uniq: seq<ColorSet>)
    requires NoDuplicates(xs)
    ensures forall i, j :: 0 <= i < j < |Undominated(xs, uniq)| ==>
      IndexOf(xs, Undominated(xs, uniq)[i]) < IndexOf(xs, Undominated(xs, uniq)[j])
  {
    if |xs| > 0 {
      var n := |xs|;
      var init, s := xs[..n - 1], xs[n - 1];
      var r, r' := Undominated(xs, uniq), Undominated(init, uniq);
      assert NoDuplicates(init);
      UndominatedKeepsOrder(init, uniq);
      assert xs[..n - 1] == init;
      forall x | x in r'
        ensures IndexOf(xs, x) == IndexOf(init, x) < n - 1
      {
        IndexInPrefix(xs, x, n - 1);
      }
      if !Dominated(s, uniq) {
        assert s !in init;
        IndexUnique(xs, s, n - 1);
      }
      forall i, j | 0 <= i < j < |r| ensures IndexOf(xs, r[i]) < IndexOf(xs, r[j]) {
        assert r[i] in r';
        if j < |r'| {
          assert r[j] in r';
        }
      }
    }
  }

  /** Before the sort, the sets the two removals keep have no duplicates and
      appear in the order of their first occurrence among the tiles' sets. */
  lemma MaximalFirstOccurrenceOrder(cs: seq<ColorSet>)
    ensures NoDuplicates(Maximal(Dedup(cs)))
    ensures forall i, j :: 0 <= i < j < |Maximal(Dedup(cs))| ==>
      IndexOf(cs, Maximal(Dedup(cs))[i]) < IndexOf(cs, Maximal(Dedup(cs))[j])
  {
    var d := Dedup(cs);
    var m := Maximal(d);
    UndominatedKeepsOrder(d, d);
    DedupFirstOccurrenceOrder(cs);
    forall i, j | 0 <= i < j < |m| ensures IndexOf(cs, m[i]) < IndexOf(cs, m[j]) {
      var a, b := IndexOf(d, m[i]), IndexOf(d, m[j]);
      assert a < b && d[a] == m[i] && d[b] == m[j];
    }
  }

  /** Removing the dominated sets loses no colour: every set is contained in
      a kept one. */
  lemma {:induction false} MaximalCovers(uniq: seq<ColorSet>, s: ColorSet)
    requires s in uniq
    ensures exists m :: m in Maximal(uniq) && s <= m
    decreases set d | d in uniq && s < d
  {
    if !Dominated(s, uniq) {
      assert s in Maximal(uniq);
    } else {
      var c :| c in uniq && s < c;
      forall d | d in uniq && c < d ensures s < d { }
      ghost var above, aboveC := (set d | d in uniq && s < d), (set d | d in uniq && c < d);
      assert c in above && c !in aboveC;
      assert aboveC < above;
      MaximalCovers(uniq, c);
      var m :| m in Maximal(uniq) && c <= m;
      assert s <= m;
    }
  }

  /** `a` may precede `b` when sorting by size, ascending or descending. */
  predicate InOrder(a: ColorSet, b: ColorSet, desc: bool)
  {
    if desc then |a| >= |b| else |a| <= |b|
  }

  ghost predicate SortedBy(xs: seq<ColorSet>, desc: bool)
  {
    forall i, j :: 0 <= i < j < |xs| ==> InOrder(xs[i], xs[j], desc)
  }

  function InsertBySize(x: ColorSet, ys: seq<ColorSet>, desc: bool): (r: seq<ColorSet>)
    ensures multiset(r) == multiset(ys) + multiset{x}
  {
    if |ys| == 0 || InOrder(x, ys[0], desc) then [x] + ys
    else
      assert ys == [ys[0]] + ys[1..];
      [ys[0]] + InsertBySize(x, ys[1..], desc)
  }

  /** Inserting before the first element `x` may precede keeps a sorted
      sequence sorted. */
  lemma {:induction false} InsertKeepsSorted(x: ColorSet, ys: seq<ColorSet>, desc: bool)
    requires SortedBy(ys, desc)
    ensures SortedBy(InsertBySize(x, ys, desc), desc)
  {
    var r := InsertBySize(x, ys, desc);
    if |ys| == 0 || InOrder(x, ys[0], desc) {
      forall i, j | 0 <= i < j < |r| ensures InOrder(r[i], r[j], desc) {
        if i == 0 && j > 1 {
          assert InOrder(ys[0], ys[j - 1], desc);
        }
      }
    } else {
      var t := InsertBySize(x, ys[1..], desc);
      InsertKeepsSorted(x, ys[1..], desc);
      forall i, j | 0 <= i < j < |r| ensures InOrder(r[i], r[j], desc) {
        if i == 0 {
          assert r[j] == t[j - 1] && r[j] in multiset(t);
          if r[j] != x {
            var k :| 0 <= k < |ys[1..]| && ys[1..][k] == r[j];
            assert InOrder(ys[0], ys[k + 1], desc);
          }
        } else {
          assert r[i] == t[i - 1] && r[j] == t[j - 1];
        }
      }
    }
  }

  /** `std::sort` by colour count, ascending (`desc` false) or descending:
      some arrangement of `xs` sorted by size. */
  method SortBySize(xs: seq<ColorSet>, desc: bool) returns (ys: seq<ColorSet>)
    ensures multiset(ys) == multiset(xs)
    ensures SortedBy(ys, desc)
  {
    ys := [];
    for i := 0 to |xs|
      invariant multiset(ys) == multiset(xs[..i])
      invariant SortedBy(ys, desc)
    {
      assert xs[..i + 1] == xs[..i] + [xs[i]];
      InsertKeepsSorted(xs[i], ys, desc);
      ys := InsertBySize(xs[i], ys, desc);
    }
    assert xs[..|xs|] == xs;
  }

  /** Whether the colours of `s` can join palette `c`, computed as the merge
      step does: the palette's colours plus those of `s` it lacks. */
  predicate FitsWith(c: ColorSet, s: ColorSet, maxColors: nat)
  {
    |c| + |s - c| <= maxColors
  }

  /** The merge step's count is the size of the merged palette. */
  lemma FitsWithMeans(c: ColorSet, s: ColorSet, maxColors: nat)
    ensures FitsWith(c, s, maxColors) <==> |c + s| <= maxColors
  {
    assert c + s == c + (s - c);
    assert c * (s - c) == {};
  }

  /** The last palette `s` fits in, or -1 when it fits in none. */
  function LastFit(opt: seq<ColorSet>, s: ColorSet, maxColors: nat): (r: int)
    ensures -1 <= r < |opt|
    ensures r >= 0 ==> FitsWith(opt[r], s, maxColors)
    ensures forall k :: r < k < |opt| ==> !FitsWith(opt[k], s, maxColors)
  {
    if |opt| == 0 then -1
    else if FitsWith(opt[|opt| - 1], s, maxColors) then |opt| - 1
    else LastFit(opt[..|opt| - 1], s, maxColors)
  }

  /** The scan of the merge step: it walks every palette and remembers the
      last one the set fits in. */
  method FindLastFit(opt: seq<ColorSet>, s: ColorSet, maxColors: nat) returns (best: int)
    ensures best == LastFit(opt, s, maxColors)
  {
    best := -1;
    for i := 0 to |opt|
      invariant best == LastFit(opt[..i], s, maxColors)
    {
      assert opt[..i + 1][..i] == opt[..i];
      if FitsWith(opt[i], s, maxColors) {
        best := i;
      }
    }
    assert opt[..|opt|] == opt;
  }

  /** One merge step: `s` joins the last palette it fits in, or opens a new
      palette when it fits in none. */
  function Place(opt: seq<ColorSet>, s: ColorSet, maxColors: nat): (r: seq<ColorSet>)
    ensures |opt| <= |r| <= |opt| + 1
  {
    var best := LastFit(opt, s, maxColors);
    if best == -1 then opt + [s] else opt[best := opt[best] + s]
  }

  /** The greedy merge of the partitioner over the sets in `full`, in
      order. */
  function Combine(full: seq<ColorSet>, maxColors: nat): (opt: seq<ColorSet>)
    ensures |opt| <= |full|
    ensures |full| > 0 ==> |opt| > 0
  {
    if |full| == 0 then []
    else Place(Combine(full[..|full| - 1], maxColors), full[|full| - 1], maxColors)
  }

  /** A new palette is opened exactly when the set fits in no palette; any
      other step grows one palette and leaves the rest alone. */
  lemma PlaceOpensOnlyWhenNoneFits(opt: seq<ColorSet>, s: ColorSet, maxColors: nat)
    ensures |Place(opt, s, maxColors)| == |opt| + 1
        <==> forall k :: 0 <= k < |opt| ==> !FitsWith(opt[k], s, maxColors)
    ensures |Place(opt, s, maxColors)| == |opt| ==>
        exists k :: 0 <= k < |opt| && FitsWith(opt[k], s, maxColors)
                 && Place(opt, s, maxColors) == opt[k := opt[k] + s]
  {
  }

  /** Palettes only grow, and the placed set ends up in one of them. */
  lemma PlaceGrows(opt: seq<ColorSet>, s: ColorSet, maxColors: nat)
    ensures |Place(opt, s, maxColors)| >= |opt|
    ensures forall k :: 0 <= k < |opt| ==> opt[k] <= Place(opt, s, maxColors)[k]
    ensures exists k :: 0 <= k < |Place(opt, s, maxColors)| && s <= Place(opt, s, maxColors)[k]
  {
    var r := Place(opt, s, maxColors);
    if LastFit(opt, s, maxColors) == -1 {
      assert s <= r[|opt|];
    } else {
      assert s <= r[LastFit(opt, s, maxColors)];
    }
  }

  /** Some palette of `opt` holds every colour of `s`. */
  ghost predicate Covered(s: ColorSet, opt: seq<ColorSet>)
  {
    exists k :: 0 <= k < |opt| && s <= opt[k]
  }

  /** Every merged set is contained in some palette. */
  lemma {:induction false} CombineCovers(full: seq<ColorSet>, maxColors: nat)
    ensures forall q :: 0 <= q < |full| ==> Covered(full[q], Combine(full, maxColors))
  {
    if |full| > 0 {
      var init := full[..|full| - 1];
      var opt := Combine(init, maxColors);
      var s := full[|full| - 1];
      CombineCovers(init, maxColors);
      PlaceGrows(opt, s, maxColors);
      var r := Combine(full, maxColors);
      assert r == Place(opt, s, maxColors);
      forall q | 0 <= q < |full|
        ensures Covered(full[q], r)
      {
        if q < |full| - 1 {
          assert full[q] == init[q] && Covered(init[q], opt);
          var k :| 0 <= k < |opt| && init[q] <= opt[k];
          assert full[q] <= r[k];
        } else {
          var k :| 0 <= k < |r| && s <= r[k];
          assert full[q] <= r[k];
        }
      }
    }
  }

  /** Palettes stay within the colour limit when every merged set does. */
  lemma {:induction false} CombineWithinLimit(full: seq<ColorSet>, maxColors: nat)
    requires forall q :: 0 <= q < |full| ==> |full[q]| <= maxColors
    ensures forall k :: 0 <= k < |Combine(full, maxColors)| ==> |Combine(full, maxColors)[k]| <= maxColors
  {
    if |full| > 0 {
      var init := full[..|full| - 1];
      var opt := Combine(init, maxColors);
      var s := full[|full| - 1];
      CombineWithinLimit(init, maxColors);
      var best := LastFit(opt, s, maxColors);
      if best != -1 {
        FitsWithMeans(opt[best], s, maxColors);
      }
    }
  }

  /** Merging invents no colour: palettes stay inside any set that holds
      every merged set. */
  lemma {:induction false} CombineWithin(full: seq<ColorSet>, maxColors: nat, u: ColorSet)
    requires forall q :: 0 <= q < |full| ==> full[q] <= u
    ensures forall k :: 0 <= k < |Combine(full, maxColors)| ==> Combine(full, maxColors)[k] <= u
  {
    if |full| > 0 {
      CombineWithin(full[..|full| - 1], maxColors, u);
    }
  }

  /** The sets the merge may see: the maximal distinct tile colour sets,
      sorted by ascending size in some order `std::sort` may leave them. */
  ghost predicate Arrangement(full: seq<ColorSet>, tiles: seq<Tile>)
  {
    && SortedBy(full, false)
    && multiset(full) == multiset(Maximal(Dedup(TileColorSets(tiles))))
  }

  datatype Partition =
    | TooColorful(x: nat, y: nat)  // position, in tiles, of the first tile over the limit
    | TooManyPalettes
    | Palettes(palettes: seq<ColorSet>)

  /** The palette block of the conversion. `w` is the image width in tiles. */
  method PartitionPalettes(tiles: seq<Tile>, w: nat, maxColors: nat, maxPalettes: nat)
    returns (r: Partition)
    requires w > 0
    ensures r.TooColorful? <==> exists q :: 0 <= q < |tiles| && |ColorsOf(tiles[q])| > maxColors
    ensures r.TooColorful? ==>
      var q := r.y * w + r.x;
      && r.x < w && q < |tiles| && |ColorsOf(tiles[q])| > maxColors
      && forall k :: 0 <= k < q ==> |ColorsOf(tiles[k])| <= maxColors
    ensures !r.TooColorful? ==>
      (exists full :: Arrangement(full, tiles)
        && (r.TooManyPalettes? <==> |Combine(full, maxColors)| > maxPalettes)
        && (r.Palettes? ==> multiset(r.palettes) == multiset(Combine(full, maxColors))))
    ensures r.Palettes? ==> |r.palettes| <= maxPalettes && SortedBy(r.palettes, true)
    ensures r.Palettes? ==> forall b :: b in r.palettes ==> |b| <= maxColors && b <= AllColors(tiles)
    ensures r.Palettes? ==> forall q :: 0 <= q < |tiles| ==>
      exists b :: b in r.palettes && ColorsOf(tiles[q]) <= b
    ensures r.Palettes? ==> Union(r.palettes) == AllColors(tiles)
  {
    var qi, cs := CollectColorSets(tiles, maxColors);
    if qi < |tiles| {
      var pos := GridCell(qi, w);
      return TooColorful(pos.0, pos.1);
    }
    assert cs == TileColorSets(tiles);
    NonEmptyColorSets(tiles);
    UniqAsWrittenIsDedup(cs, |cs|);
    assert cs[..|cs|] == cs;
    var uniq := UniqAsWritten(cs, |cs|);
    var full := SortBySize(Maximal(uniq), false);
    assert Arrangement(full, tiles);
    var opt := Combine(full, maxColors);
    if |opt| > maxPalettes {
      return TooManyPalettes;
    }
    var sorted := SortBySize(opt, true);
    r := Palettes(sorted);
    PartitionFacts(tiles, maxColors, full);
    assert forall b :: b in sorted <==> b in multiset(opt);
    CoverIsUnion(tiles, sorted);
  }

  /** Palettes made of the image's colours that hold every tile's colours
      hold exactly the image's colours. */
  lemma CoverIsUnion(tiles: seq<Tile>, pal: seq<ColorSet>)
    requires forall b :: b in pal ==> b <= AllColors(tiles)
    requires forall q :: 0 <= q < |tiles| ==> exists b :: b in pal && ColorsOf(tiles[q]) <= b
    ensures Union(pal) == AllColors(tiles)
  {
    forall c | c in AllColors(tiles) ensures c in Union(pal) {
      var cs := TileColorSets(tiles);
      var q :| 0 <= q < |cs| && c in cs[q];
      var b :| b in pal && ColorsOf(tiles[q]) <= b;
      var k :| 0 <= k < |pal| && pal[k] == b;
    }
    forall c | c in Union(pal) ensures c in AllColors(tiles) {
      var k :| 0 <= k < |pal| && c in pal[k];
      assert pal[k] in pal;
    }
  }

  /** What the merge makes of an arrangement when every tile fits: palettes
      within the colour limit, made of the image's colours, that together
      hold every tile's colours. */
  lemma PartitionFacts(tiles: seq<Tile>, maxColors: nat, full: seq<ColorSet>)
    requires Arrangement(full, tiles)
    requires forall q :: 0 <= q < |tiles| ==> |ColorsOf(tiles[q])| <= maxColors
    ensures forall b :: b in Combine(full, maxColors) ==> |b| <= maxColors && b <= AllColors(tiles)
    ensures forall q :: 0 <= q < |tiles| ==>
      exists b :: b in Combine(full, maxColors) && ColorsOf(tiles[q]) <= b
  {
    var cs := TileColorSets(tiles);
    var d := Dedup(cs);
    var opt := Combine(full, maxColors);
    forall j | 0 <= j < |full|
      ensures |full[j]| <= maxColors && full[j] <= AllColors(tiles)
    {
      assert full[j] in multiset(Maximal(d));
      assert full[j] in cs;
      var q :| 0 <= q < |cs| && cs[q] == full[j];
      UnionBounds(cs, q);
    }
    CombineWithinLimit(full, maxColors);
    CombineWithin(full, maxColors, AllColors(tiles));
    CombineCovers(full, maxColors);
    forall q | 0 <= q < |tiles|
      ensures exists b :: b in opt && ColorsOf(tiles[q]) <= b
    {
      assert cs[q] in d;
      MaximalCovers(d, cs[q]);
      var m :| m in Maximal(d) && cs[q] <= m;
      assert m in multiset(full);
      var j :| 0 <= j < |full| && full[j] == m;
      assert Covered(full[j], opt);
      var k :| 0 <= k < |opt| && full[j] <= opt[k];
      assert opt[k] in opt;
    }
  }

  lemma NonEmptyColorSets(tiles: seq<Tile>)
    ensures forall k :: 0 <= k < |tiles| ==> TileColorSets(tiles)[k] != {}
  {
    forall k | 0 <= k < |tiles| ensures TileColorSets(tiles)[k] != {} {
      assert tiles[k][0] in ColorsOf(tiles[k]);
    }
  }
}
