/**
 * The catalog query helpers of the recommendation service: attaching image
 * locators, case-insensitive name search, and same-cluster recommendation.
 *
 * The catalog is a sequence of rows that already carry the `cluster` label
 * the clustering pipeline assigns when the service starts; a pandas boolean
 * mask `df[mask]` is `Select(df, mask)`, and `df[cond]` for a row condition is
 * `Where(df, cond)`.
 */
module Backend {
  import opened Wrappers
  import Decimal

  /** One catalog row: the columns kept after loading, plus its cluster. */
  datatype Row = Row(
    id: int,
    productDisplayName: string,
    masterCategory: string,
    articleType: string,
    baseColour: string,
    gender: string,
    season: string,
    year: int,
    usage: string,
    cluster: int)

  /** A row of a frame returned by `add_image_url`: the row and its `image` column. */
  datatype Record = Record(row: Row, image: string)

  /** The image route of the service, to which the item id is appended. */
  const ImageRoute: string := "http://127.0.0.1:5000/image/"

  /** Number of recommendations returned when the caller gives no count. */
  const DefaultCount: nat := 8

  function Min(a: nat, b: nat): nat {
    if a <= b then a else b
  }

  // ---------------------------------------------------------------------
  // add_image_url
  // ---------------------------------------------------------------------

  /** The image locator of an item: the image route followed by the item's id in decimal. */
  function ImageUrl(id: int): (r: string)
    ensures |r| > |ImageRoute| && r[..|ImageRoute|] == ImageRoute
  {
    ImageRoute + Decimal.IntToString(id)
  }

  /** Two items with different ids never share an image locator. */
  lemma ImageUrlInjective(a: int, b: int)
    requires ImageUrl(a) == ImageUrl(b)
    ensures a == b
  {
    assert Decimal.IntToString(a) == ImageUrl(a)[|ImageRoute|..];
    assert Decimal.IntToString(b) == ImageUrl(b)[|ImageRoute|..];
    Decimal.IntToStringInjective(a, b);
  }

  /**
   * A copy of the frame with the `image` column set from each row's id:
   * the same rows, in the same order, with the same fields.
   */
  function AddImageUrl(df: seq<Row>): (r: seq<Record>)
    ensures |r| == |df|
    ensures forall i :: 0 <= i < |r| ==> r[i].row == df[i] && r[i].image == ImageUrl(df[i].id)
  {
    if df == [] then [] else [Record(df[0], ImageUrl(df[0].id))] + AddImageUrl(df[1..])
  }

  /** The catalog rows underneath a returned frame. */
  function Rows(r: seq<Record>): (df: seq<Row>)
    ensures |df| == |r|
    ensures forall i :: 0 <= i < |df| ==> df[i] == r[i].row
  {
    if r == [] then [] else [r[0].row] + Rows(r[1..])
  }

  /** Dropping the image column of `add_image_url`'s output gives back its input. */
  lemma {:induction false} RowsOfAddImageUrl(df: seq<Row>)
    ensures Rows(AddImageUrl(df)) == df
  {
    if df != [] {
      RowsOfAddImageUrl(df[1..]);
      assert AddImageUrl(df)[1..] == AddImageUrl(df[1..]);
    }
  }

  /** Every record of `add_image_url`'s output carries the locator of its own id. */
  predicate HasImages(r: seq<Record>) {
    forall i :: 0 <= i < |r| ==> r[i].image == ImageUrl(r[i].row.id)
  }

  // ---------------------------------------------------------------------
  // Case-insensitive literal substring match
  // ---------------------------------------------------------------------

  function LowerChar(c: char): char {
    if 'A' <= c <= 'Z' then (c as int - 'A' as int + 'a' as int) as char else c
  }

  function Lower(s: string): (r: string)
    ensures |r| == |s|
    ensures forall i :: 0 <= i < |s| ==> r[i] == LowerChar(s[i])
  {
    if s == [] then [] else [LowerChar(s[0])] + Lower(s[1..])
  }

  /** `needle` occurs in `hay` at offset `k`. */
  predicate OccursAt(hay: string, needle: string, k: int) {
    0 <= k <= |hay| - |needle| && hay[k..k + |needle|] == needle
  }

  /** Whether `needle` occurs anywhere in `hay`, trying each offset in turn. */
  function Contains(hay: string, needle: string): (r: bool)
    ensures needle == [] ==> r
    ensures r ==> |needle| <= |hay|
    decreases |hay|
  {
    needle <= hay || (hay != [] && Contains(hay[1..], needle))
  }

  /** `Contains` holds exactly when `needle` occurs at some offset of `hay`. */
  lemma {:induction false} ContainsIff(hay: string, needle: string)
    ensures Contains(hay, needle) <==> exists k :: OccursAt(hay, needle, k)
  {
    if needle <= hay {
      assert OccursAt(hay, needle, 0);
    } else if hay != [] {
      ContainsIff(hay[1..], needle);
      if Contains(hay[1..], needle) {
        var k :| OccursAt(hay[1..], needle, k);
        assert OccursAt(hay, needle, k + 1);
      }
      if exists k :: OccursAt(hay, needle, k) {
        var k :| OccursAt(hay, needle, k);
        assert k != 0;
        assert OccursAt(hay[1..], needle, k - 1);
      }
    } else {
      assert forall k :: !OccursAt(hay, needle, k);
    }
  }

  /** `str.contains(query, case=False)`, with the query taken literally. */
  predicate NameMatches(name: string, query: string) {
    Contains(Lower(name), Lower(query))
  }

  // ---------------------------------------------------------------------
  // Boolean masks
  // ---------------------------------------------------------------------

  /** The row conditions the helpers build their boolean masks from. */
  datatype Condition =
    | NameContains(query: string)   // productDisplayName.str.contains(query, case=False)
    | ClusterIs(cluster: int)        // cluster == c
    | IdIsNot(id: int)               // id != item_id

  predicate Holds(c: Condition, x: Row) {
    match c
    case NameContains(q) => NameMatches(x.productDisplayName, q)
    case ClusterIs(k) => x.cluster == k
    case IdIsNot(id) => x.id != id
  }

  /** The boolean column a condition evaluates to, row by row. */
  function MaskOf(df: seq<Row>, c: Condition): (mask: seq<bool>)
    ensures |mask| == |df|
    ensures forall i :: 0 <= i < |df| ==> mask[i] == Holds(c, df[i])
  {
    if df == [] then [] else [Holds(c, df[0])] + MaskOf(df[1..], c)
  }

  /** `df[mask]`: the rows at the positions where the mask is true, in frame order. */
  function Select(df: seq<Row>, mask: seq<bool>): (r: seq<Row>)
    requires |mask| == |df|
    ensures |r| <= |df|
  {
    if df == [] then []
    else if mask[0] then [df[0]] + Select(df[1..], mask[1..]) else Select(df[1..], mask[1..])
  }

  /**
   * `Select` is an order-preserving selection of exactly the marked
   * positions: `idx` lists them in increasing order and `Select` returns
   * the rows at those positions.
   */
  lemma {:induction false} SelectPositions(df: seq<Row>, mask: seq<bool>) returns (idx: seq<nat>)
    requires |mask| == |df|
    ensures |idx| == |Select(df, mask)|
    ensures forall j :: 0 <= j < |idx| ==> idx[j] < |df| && Select(df, mask)[j] == df[idx[j]]
    ensures forall j, k :: 0 <= j < k < |idx| ==> idx[j] < idx[k]
    ensures forall p :: 0 <= p < |df| ==> (p in idx <==> mask[p])
  {
    if df == [] {
      return [];
    }
    var rest := SelectPositions(df[1..], mask[1..]);
    var shifted := ShiftPositions(df, mask, rest);
    var sel := Select(df[1..], mask[1..]);
    var all := Select(df, mask);
    if mask[0] {
      idx := [0] + shifted;
      assert all == [df[0]] + sel;
      forall j | 1 <= j < |idx|
        ensures idx[j] < |df| && all[j] == df[idx[j]]
      {
        assert idx[j] == shifted[j - 1] && all[j] == sel[j - 1];
      }
    } else {
      idx := shifted;
      assert all == sel;
    }
  }

  /** The marked positions of `df[1..]`, renumbered as positions of `df`. */
  lemma ShiftPositions(df: seq<Row>, mask: seq<bool>, rest: seq<nat>) returns (shifted: seq<nat>)
    requires df != [] && |mask| == |df|
    requires |rest| == |Select(df[1..], mask[1..])|
    requires forall j :: 0 <= j < |rest| ==>
               rest[j] < |df| - 1 && Select(df[1..], mask[1..])[j] == df[1..][rest[j]]
    requires forall j, k :: 0 <= j < k < |rest| ==> rest[j] < rest[k]
    requires forall p :: 0 <= p < |df| - 1 ==> (p in rest <==> mask[1..][p])
    ensures |shifted| == |rest| && 0 !in shifted
    ensures forall j :: 0 <= j < |shifted| ==>
              shifted[j] < |df| && Select(df[1..], mask[1..])[j] == df[shifted[j]]
    ensures forall j, k :: 0 <= j < k < |shifted| ==> shifted[j] < shifted[k]
    ensures forall p :: 1 <= p < |df| ==> (p in shifted <==> mask[p])
  {
    shifted := seq(|rest|, j requires 0 <= j < |rest| => rest[j] + 1);
    forall p | 1 <= p < |df|
      ensures p in shifted <==> mask[p]
    {
      assert mask[p] == mask[1..][p - 1];
      if p in shifted {
        var j :| 0 <= j < |shifted| && shifted[j] == p;
        assert rest[j] == p - 1;
      }
      if p - 1 in rest {
        var j :| 0 <= j < |rest| && rest[j] == p - 1;
        assert shifted[j] == p;
      }
    }
  }

  /** Selecting takes each row of the frame at most as often as it occurs there. */
  lemma {:induction false} SelectSubMultiset(df: seq<Row>, mask: seq<bool>)
    requires |mask| == |df|
    ensures multiset(Select(df, mask)) <= multiset(df)
  {
    if df != [] {
      SelectSubMultiset(df[1..], mask[1..]);
      assert df == [df[0]] + df[1..];
    }
  }

  /** An all-true mask selects the whole frame. */
  lemma {:induction false} SelectAll(df: seq<Row>, mask: seq<bool>)
    requires |mask| == |df|
    requires forall i :: 0 <= i < |mask| ==> mask[i]
    ensures Select(df, mask) == df
  {
    if df != [] {
      SelectAll(df[1..], mask[1..]);
    }
  }

  /** The rows a condition's mask selects are exactly the rows satisfying it. */
  lemma SelectMembers(df: seq<Row>, c: Condition)
    ensures forall x :: x in Select(df, MaskOf(df, c)) <==> x in df && Holds(c, x)
  {
    var mask := MaskOf(df, c);
    var idx := SelectPositions(df, mask);
    var r := Select(df, mask);
    forall x
      ensures x in r <==> x in df && Holds(c, x)
    {
      if x in r {
        var j :| 0 <= j < |r| && r[j] == x;
        assert idx[j] in idx;
      }
      if x in df && Holds(c, x) {
        var p :| 0 <= p < |df| && df[p] == x;
        assert p in idx;
        var j :| 0 <= j < |idx| && idx[j] == p;
        assert r[j] == x;
      }
    }
  }

  /** A condition's mask keeps every occurrence of a row that satisfies it and none of one that does not. */
  lemma {:induction false} SelectCount(df: seq<Row>, c: Condition, x: Row)
    ensures multiset(Select(df, MaskOf(df, c)))[x] == if Holds(c, x) then multiset(df)[x] else 0
  {
    if df != [] {
      var mask := MaskOf(df, c);
      var rest := Select(df[1..], MaskOf(df[1..], c));
      assert mask[1..] == MaskOf(df[1..], c);
      assert Select(df, mask) == if mask[0] then [df[0]] + rest else rest;
      SelectCount(df[1..], c, x);
      assert df == [df[0]] + df[1..];
      assert multiset(df)[x] == multiset([df[0]])[x] + multiset(df[1..])[x];
    }
  }

  /** `df[c]`: the rows of `df` satisfying `c`, in frame order. */
  function Where(df: seq<Row>, c: Condition): (r: seq<Row>)
    ensures |r| <= |df|
    ensures multiset(r) <= multiset(df)
    ensures forall x :: x in r <==> x in df && Holds(c, x)
    ensures forall x :: multiset(r)[x] == if Holds(c, x) then multiset(df)[x] else 0
  {
    SelectMembers(df, c);
    SelectSubMultiset(df, MaskOf(df, c));
    forall x ensures multiset(Select(df, MaskOf(df, c)))[x] == if Holds(c, x) then multiset(df)[x] else 0 {
      SelectCount(df, c, x);
    }
    Select(df, MaskOf(df, c))
  }

  // ---------------------------------------------------------------------
  // search_items
  // ---------------------------------------------------------------------

  /** The rows whose display name contains the query, ignoring case, with their images. */
  function SearchItems(data: seq<Row>, query: string): (r: seq<Record>)
    ensures |r| <= |data|
    ensures HasImages(r)
    ensures forall i :: 0 <= i < |r| ==>
              r[i].row in data && NameMatches(r[i].row.productDisplayName, query)
    ensures forall x :: x in data && NameMatches(x.productDisplayName, query) ==> x in Rows(r)
  {
    var found := Where(data, NameContains(query));
    RowsOfAddImageUrl(found);
    AddImageUrl(found)
  }

  /**
   * The search result is the ordered subsequence of the catalog rows whose
   * name matches: `idx` lists, in increasing order, exactly the positions
   * of matching rows, and record `j` is row `idx[j]` with its image.
   */
  lemma SearchItemsInOrder(data: seq<Row>, query: string) returns (idx: seq<nat>)
    ensures |idx| == |SearchItems(data, query)|
    ensures forall j :: 0 <= j < |idx| ==>
              idx[j] < |data| && SearchItems(data, query)[j] == Record(data[idx[j]], ImageUrl(data[idx[j]].id))
    ensures forall j, k :: 0 <= j < k < |idx| ==> idx[j] < idx[k]
    ensures forall p :: 0 <= p < |data| ==>
              (p in idx <==> NameMatches(data[p].productDisplayName, query))
  {
    idx := SelectPositions(data, MaskOf(data, NameContains(query)));
  }

  /** The query's case does not matter. */
  lemma SearchIgnoresCase(data: seq<Row>, q1: string, q2: string)
    requires Lower(q1) == Lower(q2)
    ensures SearchItems(data, q1) == SearchItems(data, q2)
  {
    assert MaskOf(data, NameContains(q1)) == MaskOf(data, NameContains(q2));
  }

  /** An empty query (the route's default) matches every row. */
  lemma SearchEmptyQueryReturnsAll(data: seq<Row>)
    ensures Rows(SearchItems(data, "")) == data
  {
    forall i | 0 <= i < |data|
      ensures Holds(NameContains(""), data[i])
    {
      assert Lower("") <= Lower(data[i].productDisplayName);
    }
    SelectAll(data, MaskOf(data, NameContains("")));
    RowsOfAddImageUrl(data);
  }

  // ---------------------------------------------------------------------
  // recommend_items
  // ---------------------------------------------------------------------

  predicate InCatalog(data: seq<Row>, id: int) {
    exists k :: 0 <= k < |data| && data[k].id == id
  }

  /** The position of the first row with the given id, as `.iloc[0]` picks it. */
  function FirstIndex(data: seq<Row>, id: int): (r: Option<nat>)
    ensures r.None? <==> !InCatalog(data, id)
    ensures r.Some? ==> r.value < |data| && data[r.value].id == id &&
                        forall j :: 0 <= j < r.value ==> data[j].id != id
  {
    if data == [] then None
    else if data[0].id == id then Some(0)
    else match FirstIndex(data[1..], id)
         case None => None
         case Some(k) => Some(k + 1)
  }

  /**
   * The rows a recommendation may draw from: those in the cluster of the
   * first row with that id, other than rows with that id.
   */
  function Candidates(data: seq<Row>, id: int): (r: seq<Row>)
    ensures multiset(r) <= multiset(data)
    ensures !InCatalog(data, id) ==> r == []
    ensures InCatalog(data, id) ==> forall x :: x in r <==>
              x in data && x.cluster == data[FirstIndex(data, id).value].cluster && x.id != id
    ensures InCatalog(data, id) ==>
              forall x :: multiset(r)[x] ==
                (if x.cluster == data[FirstIndex(data, id).value].cluster && x.id != id then multiset(data)[x] else 0)
  {
    match FirstIndex(data, id)
    case None => []
    case Some(k) => Where(Where(data, ClusterIs(data[k].cluster)), IdIsNot(id))
  }

  /**
   * `draw` is the order in which `sample` visits the candidates: any
   * rearrangement of them. Taking a prefix of it samples without replacement.
   */
  predicate IsDraw(draw: seq<Row>, candidates: seq<Row>) {
    multiset(draw) == multiset(candidates)
  }

  /**
   * Up to `n` rows sampled from the cluster of item `id`, with their images;
   * empty when `id` is not in the catalog or its cluster has no other item.
   */
  function RecommendItems(data: seq<Row>, id: int, draw: seq<Row>, n: nat := DefaultCount): (r: seq<Record>)
    requires IsDraw(draw, Candidates(data, id))
    ensures !InCatalog(data, id) ==> r == []
    ensures |r| == Min(n, |Candidates(data, id)|)
    ensures HasImages(r)
  {
    if !InCatalog(data, id) then []
    else
      var candidates := Candidates(data, id);
      if |candidates| == 0 then []
      else
        DrawLength(draw, candidates);
        AddImageUrl(draw[..Min(n, |candidates|)])
  }

  lemma DrawLength(draw: seq<Row>, candidates: seq<Row>)
    requires IsDraw(draw, candidates)
    ensures |draw| == |candidates|
  {
    assert |multiset(draw)| == |multiset(candidates)|;
  }

  /** The first `m` rows of a draw are distinct occurrences of candidate rows. */
  lemma DrawPrefix(draw: seq<Row>, candidates: seq<Row>, m: nat)
    requires IsDraw(draw, candidates) && m <= |candidates|
    ensures |draw| == |candidates| && m <= |draw|
    ensures multiset(draw[..m]) <= multiset(candidates)
    ensures forall x :: x in draw[..m] ==> x in candidates
  {
    DrawLength(draw, candidates);
    assert draw == draw[..m] + draw[m..];
    forall x | x in draw[..m]
      ensures x in candidates
    {
      assert x in multiset(draw[..m]);
      assert x in multiset(candidates);
    }
  }

  /** What `recommend_items` returns are rows of the catalog, as `add_image_url` copies them. */
  lemma RecommendRows(data: seq<Row>, id: int, draw: seq<Row>, n: nat) returns (m: nat)
    requires IsDraw(draw, Candidates(data, id))
    ensures m == |RecommendItems(data, id, draw, n)| && m <= |draw|
    ensures Rows(RecommendItems(data, id, draw, n)) == draw[..m]
    ensures multiset(draw[..m]) <= multiset(Candidates(data, id))
    ensures forall x :: x in draw[..m] ==> x in Candidates(data, id)
  {
    var c := Candidates(data, id);
    m := Min(n, |c|);
    DrawPrefix(draw, c, m);
    if !InCatalog(data, id) || |c| == 0 {
      assert draw[..m] == [];
    } else {
      RowsOfAddImageUrl(draw[..m]);
    }
  }

  /**
   * Sampling is without replacement: no catalog row is returned more often
   * than it occurs among the candidates.
   */
  lemma RecommendWithoutReplacement(data: seq<Row>, id: int, draw: seq<Row>, n: nat)
    requires IsDraw(draw, Candidates(data, id))
    ensures multiset(Rows(RecommendItems(data, id, draw, n))) <= multiset(Candidates(data, id))
    ensures multiset(Rows(RecommendItems(data, id, draw, n))) <= multiset(data)
  {
    var m := RecommendRows(data, id, draw, n);
  }

  /**
   * Every recommended row is a catalog row in the cluster of the first row
   * with that id, and none of them has that id.
   */
  lemma RecommendSameClusterOtherId(data: seq<Row>, id: int, draw: seq<Row>, n: nat)
    requires IsDraw(draw, Candidates(data, id))
    ensures var r := RecommendItems(data, id, draw, n);
            forall i :: 0 <= i < |r| ==>
              InCatalog(data, id) && r[i].row in data && r[i].row.id != id &&
              r[i].row.cluster == data[FirstIndex(data, id).value].cluster
  {
    var m := RecommendRows(data, id, draw, n);
    var r := RecommendItems(data, id, draw, n);
    if r != [] {
      CandidatesQualify(data, id, draw[..m]);
    }
  }

  /** Rows taken from the candidates are other items of the same cluster. */
  lemma CandidatesQualify(data: seq<Row>, id: int, picked: seq<Row>)
    requires InCatalog(data, id)
    requires forall x :: x in picked ==> x in Candidates(data, id)
    ensures forall i :: 0 <= i < |picked| ==>
              picked[i] in data && picked[i].id != id &&
              picked[i].cluster == data[FirstIndex(data, id).value].cluster
  {
    forall i | 0 <= i < |picked|
      ensures picked[i] in data && picked[i].id != id &&
              picked[i].cluster == data[FirstIndex(data, id).value].cluster
    {
      assert picked[i] in Candidates(data, id);
    }
  }

  /** With the default count, at most eight items are recommended. */
  lemma RecommendDefaultBound(data: seq<Row>, id: int, draw: seq<Row>)
    requires IsDraw(draw, Candidates(data, id))
    ensures |RecommendItems(data, id, draw)| <= 8
    ensures |Candidates(data, id)| >= 8 ==> |RecommendItems(data, id, draw)| == 8
  {
  }

  /** The candidate set is empty exactly when the cluster has no other item. */
  lemma RecommendEmptyIff(data: seq<Row>, id: int, draw: seq<Row>, n: nat)
    requires IsDraw(draw, Candidates(data, id))
    requires n > 0
    ensures RecommendItems(data, id, draw, n) == [] <==>
              !InCatalog(data, id) ||
              forall x :: x in data && x.cluster == data[FirstIndex(data, id).value].cluster ==> x.id == id
  {
    if InCatalog(data, id) {
      var c := Candidates(data, id);
      if |c| > 0 {
        assert c[0] in c;
      }
    }
  }

  predicate UniqueIds(data: seq<Row>) {
    forall i, j :: 0 <= i < j < |data| ==> data[i].id != data[j].id
  }

  lemma {:induction false} UniqueIdsCountAtMostOne(data: seq<Row>, x: Row)
    requires UniqueIds(data)
    ensures multiset(data)[x] <= 1
  {
    if data != [] {
      assert UniqueIds(data[1..]);
      UniqueIdsCountAtMostOne(data[1..], x);
      assert data == [data[0]] + data[1..];
      if data[0] == x {
        assert x !in data[1..];
      }
    }
  }

  lemma RepeatCountsTwice(s: seq<Row>, i: nat, j: nat)
    requires i < j < |s| && s[i] == s[j]
    ensures multiset(s)[s[i]] >= 2
  {
    assert s == s[..i] + [s[i]] + s[i + 1..j] + [s[j]] + s[j + 1..];
  }

  /**
   * In a catalog with unique ids, the recommended items are pairwise
   * different items: sampling is without replacement.
   */
  lemma RecommendDistinct(data: seq<Row>, id: int, draw: seq<Row>, n: nat)
    requires IsDraw(draw, Candidates(data, id))
    requires UniqueIds(data)
    ensures var r := RecommendItems(data, id, draw, n);
            forall i, j :: 0 <= i < j < |r| ==> r[i].row.id != r[j].row.id
  {
    var r := RecommendItems(data, id, draw, n);
    var rows := Rows(r);
    RecommendWithoutReplacement(data, id, draw, n);
    RecommendSameClusterOtherId(data, id, draw, n);
    forall i, j | 0 <= i < j < |r|
      ensures r[i].row.id != r[j].row.id
    {
      if r[i].row == r[j].row {
        RepeatCountsTwice(rows, i, j);
        UniqueIdsCountAtMostOne(data, rows[i]);
        assert false;
      } else {
        var p :| 0 <= p < |data| && data[p] == r[i].row;
        var q :| 0 <= q < |data| && data[q] == r[j].row;
        assert p != q;
      }
    }
  }
}
