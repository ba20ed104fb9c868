/**
 * Content negotiation: quality lists (src/headers_ext/quality_value.rs), codings
 * (src/headers_ext/content_coding.rs) and the preferred encoding (src/compression.rs).
 */
module Negotiation {
  import opened Wrappers
  import opened Bytes
  import opened Text
  import opened Sorting

  /** Parsing of a trimmed q-value to thousandths, as `f32` parsing and scaling give it. */
  type QParser = string -> Option<nat>

  datatype ContentCoding = BROTLI | COMPRESS | DEFLATE | GZIP | IDENTITY | ZSTD

  function Priority(c: ContentCoding): nat {
    match c
    case IDENTITY => 1
    case COMPRESS => 2
    case DEFLATE => 3
    case GZIP => 4
    case BROTLI => 5
    case ZSTD => 6
  }

  /** Unknown codings count as `identity`. */
  function CodingOf(s: string): ContentCoding {
    if s == "BROTLI" || s == "br" then BROTLI
    else if s == "COMPRESS" || s == "compress" then COMPRESS
    else if s == "DEFLATE" || s == "deflate" then DEFLATE
    else if s == "GZIP" || s == "gzip" then GZIP
    else if s == "ZSTD" || s == "zstd" then ZSTD
    else IDENTITY
  }

  const AVAILABLE_ENCODINGS: seq<ContentCoding> := [DEFLATE, GZIP, BROTLI, ZSTD]

  // ----- One item -----

  datatype QualityMeta = QualityMeta(data: string, quality: nat)

  const DEFAULT_QUALITY: nat := 1000

  /** The quality a parameter sets, if it is a `q=` that parses. */
  function QualityOf(part: string, parse: QParser): Option<nat> {
    var p := TrimStart(part);
    if |p| >= 2 && p[..2] == "q=" then parse(Trim(p[2..])) else None
  }

  /** The quality set by the last parameter that sets one; `None` when none does. */
  function LastQuality(parts: seq<string>, parse: QParser): Option<nat> {
    if parts == [] then None
    else if QualityOf(parts[|parts| - 1], parse).Some? then QualityOf(parts[|parts| - 1], parse)
    else LastQuality(parts[..|parts| - 1], parse)
  }

  /** The last parameter that sets a quality wins: `i` is its index, or -1 if there is none. */
  lemma {:induction false} LastParseableWins(parts: seq<string>, parse: QParser) returns (i: int)
    ensures -1 <= i < |parts|
    ensures LastQuality(parts, parse) == if i == -1 then None else QualityOf(parts[i], parse)
    ensures i >= 0 ==> QualityOf(parts[i], parse).Some?
    ensures forall j | i < j < |parts| :: QualityOf(parts[j], parse).None?
  {
    hide QualityOf;
    if parts == [] {
      i := -1;
    } else if QualityOf(parts[|parts| - 1], parse).Some? {
      i := |parts| - 1;
    } else {
      i := LastParseableWins(parts[..|parts| - 1], parse);
    }
  }

  function ItemOf(val: string, parse: QParser): QualityMeta {
    var parts := Split(val, ';');
    var q := LastQuality(parts, parse);
    QualityMeta(Trim(parts[0]), if q.Some? then q.value else DEFAULT_QUALITY)
  }

  method ParseItem(val: string, parse: QParser) returns (item: QualityMeta)
    ensures item == ItemOf(val, parse)
  {
    var parts := Split(val, ';');
    var data := Trim(parts[0]);
    var quality := DEFAULT_QUALITY;
    for k := 0 to |parts|
      invariant var q := LastQuality(parts[..k], parse); quality == if q.Some? then q.value else DEFAULT_QUALITY
    {
      assert parts[..k + 1][..k] == parts[..k];
      var part := TrimStart(parts[k]);
      if |part| >= 2 && part[..2] == "q=" {
        var parsed := parse(Trim(part[2..]));
        if parsed.None? {
          continue;
        }
        quality := parsed.value;
      }
    }
    assert parts[..|parts|] == parts;
    item := QualityMeta(data, quality);
  }

  // ----- A header -----

  function ItemsOf(vals: seq<string>, parse: QParser): seq<QualityMeta> {
    seq(|vals|, i requires 0 <= i < |vals| => ItemOf(vals[i], parse))
  }

  /** The items of one header value, unsorted; a value that is not visible ASCII has none. */
  function Items(value: HeaderValue, parse: QParser): seq<QualityMeta> {
    if Visible(value) then ItemsOf(Split(value, ','), parse) else []
  }

  function ItemKey(m: QualityMeta): Key {
    Key(m.quality, Priority(CodingOf(m.data)))
  }

  function SortedItems(value: HeaderValue, parse: QParser): seq<QualityMeta> {
    StableSort(Items(value, parse), ItemKey)
  }

  method Iter(value: HeaderValue, parse: QParser) returns (items: seq<QualityMeta>)
    ensures items == SortedItems(value, parse)
  {
    items := [];
    if Visible(value) {
      var vals := Split(value, ',');
      for k := 0 to |vals|
        invariant items == ItemsOf(vals[..k], parse)
      {
        var item := ParseItem(vals[k], parse);
        items := items + [item];
      }
      assert vals[..|vals|] == vals;
    }
    items := StableSort(items, ItemKey);
  }

  // ----- Several header values -----

  function Folded(values: seq<HeaderValue>): HeaderValue {
    if values == [] then "" else if |values| == 1 then values[0] else Folded(values[..|values| - 1]) + ", " + values[|values| - 1]
  }

  method TryFromValues(values: seq<HeaderValue>) returns (value: HeaderValue)
    ensures value == Folded(values)
  {
    if values == [] {
      return "";
    }
    var buf := values[0];
    for k := 1 to |values|
      invariant buf == Folded(values[..k])
    {
      assert values[..k + 1][..k] == values[..k];
      buf := buf + ", ";
      buf := buf + values[k];
    }
    assert values[..|values|] == values;
    value := buf;
  }

  /** Values are joined by a comma and a blank, in order. */
  lemma FoldedSnoc(values: seq<HeaderValue>, value: HeaderValue)
    ensures Folded(values + [value]) == if values == [] then value else Folded(values) + ", " + value
  {
    assert (values + [value])[..|values|] == values;
  }

  function AllItems(values: seq<HeaderValue>, parse: QParser): seq<QualityMeta> {
    if values == [] then [] else AllItems(values[..|values| - 1], parse) + Items(values[|values| - 1], parse)
  }

  lemma {:induction false} TrimmedSpace(s: string)
    ensures TrimStart([' '] + s) == TrimStart(s)
  {
    assert ([' '] + s)[1..] == s;
  }

  /** A blank in front of an item changes nothing. */
  lemma ItemAfterSpace(val: string, parse: QParser)
    ensures ItemOf([' '] + val, parse) == ItemOf(val, parse)
  {
    var parts := Split(val, ';');
    assert ([' '] + val)[1..] == val;
    var spaced := Split([' '] + val, ';');
    assert spaced == [[' '] + parts[0]] + parts[1..];
    TrimmedSpace(parts[0]);
    QualityAfterSpace(parts, parse);
  }

  lemma {:induction false} QualityAfterSpace(parts: seq<string>, parse: QParser)
    requires parts != []
    ensures LastQuality([[' '] + parts[0]] + parts[1..], parse) == LastQuality(parts, parse)
  {
    var spaced := [[' '] + parts[0]] + parts[1..];
    TrimmedSpace(parts[0]);
    if |parts| == 1 {
      assert spaced[..0] == parts[..0];
    } else {
      QualityAfterSpace(parts[..|parts| - 1], parse);
      assert spaced[..|spaced| - 1] == [[' '] + parts[..|parts| - 1][0]] + parts[..|parts| - 1][1..];
      assert spaced[|spaced| - 1] == parts[|parts| - 1];
    }
  }

  lemma ItemsOfAppend(a: seq<string>, b: seq<string>, parse: QParser)
    ensures ItemsOf(a + b, parse) == ItemsOf(a, parse) + ItemsOf(b, parse)
  {
  }

  lemma ItemsOfJoined(a: HeaderValue, b: HeaderValue, parse: QParser)
    requires Visible(a) && Visible(b)
    ensures Visible(a + ", " + b) && Items(a + ", " + b, parse) == Items(a, parse) + Items(b, parse)
  {
    var rest := Split(b, ',');
    var spaced := [' '] + b;
    assert spaced[1..] == b;
    assert a + ", " + b == a + [','] + spaced;
    SplitAtSeparator(a, ',', spaced);
    ItemsOfAppend(Split(a, ','), Split(spaced, ','), parse);
    assert Split(spaced, ',') == [[' '] + rest[0]] + rest[1..];
    ItemAfterSpace(rest[0], parse);
    assert ItemsOf(Split(spaced, ','), parse) == ItemsOf(rest, parse);
  }

  lemma VisibleJoined(a: HeaderValue, b: HeaderValue)
    ensures Visible(a + ", " + b) <==> Visible(a) && Visible(b)
  {
    var whole := a + ", " + b;
    forall c
      ensures c in whole <==> c in a || c in ", " || c in b
    {
    }
    assert Visible(whole) ==> (forall c <- a :: c in whole) && (forall c <- b :: c in whole);
  }

  lemma {:induction false} FoldedVisible(values: seq<HeaderValue>)
    ensures Visible(Folded(values)) <==> forall v <- values :: Visible(v)
  {
    if |values| > 1 {
      var init, last := values[..|values| - 1], values[|values| - 1];
      FoldedVisible(init);
      assert values == init + [last];
      VisibleJoined(Folded(init), last);
    } else if values != [] {
      assert values == [values[0]];
    }
  }

  lemma {:induction false} FoldedItems(values: seq<HeaderValue>, parse: QParser)
    requires values != [] && forall v <- values :: Visible(v)
    ensures Items(Folded(values), parse) == AllItems(values, parse)
  {
    if |values| == 1 {
      assert AllItems(values, parse) == AllItems([], parse) + Items(values[0], parse);
    } else {
      var init, last := values[..|values| - 1], values[|values| - 1];
      FoldedItems(init, parse);
      FoldedVisible(init);
      ItemsOfJoined(Folded(init), last, parse);
    }
  }

  lemma {:induction false} AllItemsNonEmpty(values: seq<HeaderValue>, parse: QParser)
    ensures AllItems(values, parse) == [] <==> forall v <- values :: !Visible(v)
  {
    if values != [] {
      AllItemsNonEmpty(values[..|values| - 1], parse);
      assert values == values[..|values| - 1] + [values[|values| - 1]];
    }
  }

  /**
   * Parsing the joined header gives the concatenation of parsing each value alone, exactly when all values
   * are visible ASCII, or none is (then both sides have no items).
   */
  lemma FoldingIsHomomorphic(values: seq<HeaderValue>, parse: QParser)
    requires values != []
    ensures Items(Folded(values), parse) == AllItems(values, parse)
       <==> (forall v <- values :: Visible(v)) || (forall v <- values :: !Visible(v))
  {
    FoldedVisible(values);
    AllItemsNonEmpty(values, parse);
    if forall v <- values :: Visible(v) {
      FoldedItems(values, parse);
    }
  }

  // ----- Picking an encoding -----

  function Codings(items: seq<QualityMeta>): seq<ContentCoding> {
    seq(|items|, i requires 0 <= i < |items| => CodingOf(items[i].data))
  }

  /** `sorted_encodings`, for a request with these `Accept-Encoding` values. */
  function SortedEncodings(values: seq<HeaderValue>, parse: QParser): seq<ContentCoding> {
    if values == [] then [] else Codings(SortedItems(Folded(values), parse))
  }

  function Available(encodings: seq<ContentCoding>): seq<ContentCoding> {
    if encodings == [] then []
    else (if encodings[0] in AVAILABLE_ENCODINGS then [encodings[0]] else []) + Available(encodings[1..])
  }

  function GetEncodings(values: seq<HeaderValue>, parse: QParser): seq<ContentCoding> {
    Available(SortedEncodings(values, parse))
  }

  function FirstAvailable(encodings: seq<ContentCoding>): Option<ContentCoding> {
    if encodings == [] then None
    else if encodings[0] in AVAILABLE_ENCODINGS then Some(encodings[0])
    else FirstAvailable(encodings[1..])
  }

  function GetPreferredEncoding(values: seq<HeaderValue>, parse: QParser): Option<ContentCoding> {
    FirstAvailable(SortedEncodings(values, parse))
  }

  predicate IsAvailable(m: QualityMeta) {
    CodingOf(m.data) in AVAILABLE_ENCODINGS
  }

  /** An item that satisfies `p` and that every other such item is strictly below, unless it is level and for the same coding. */
  ghost predicate Best(items: seq<QualityMeta>, p: QualityMeta -> bool, m: QualityMeta) {
    && m in items && p(m)
    && forall m' <- items | p(m') ::
         || Above(ItemKey(m), ItemKey(m'))
         || (ItemKey(m') == ItemKey(m) && CodingOf(m'.data) == CodingOf(m.data))
  }

  lemma PriorityIsInjective(a: ContentCoding, b: ContentCoding)
    requires Priority(a) == Priority(b)
    ensures a == b
  {
  }

  /** Of a sorted list, the first element that satisfies `p` is above or level with all that do. */
  lemma {:induction false} FirstIsBest<T>(s: seq<T>, key: T -> Key, p: T -> bool) returns (k: nat)
    requires Sorted(s, key)
    ensures k <= |s| && (forall i | 0 <= i < k :: !p(s[i])) && (k < |s| ==> p(s[k]))
    ensures k < |s| ==> forall x <- s | p(x) :: !Above(key(x), key(s[k]))
  {
    k := 0;
    while k < |s| && !p(s[k])
      invariant k <= |s| && forall i | 0 <= i < k :: !p(s[i])
    {
      k := k + 1;
    }
  }

  /** The first suitable item of the sorted list is a best one. */
  lemma FirstSorted(items: seq<QualityMeta>, p: QualityMeta -> bool) returns (k: nat)
    ensures var sorted := StableSort(items, ItemKey);
            && k <= |sorted| && (forall i | 0 <= i < k :: !p(sorted[i]))
            && (k < |sorted| ==> Best(items, p, sorted[k]))
            && (k == |sorted| ==> forall m <- items :: !p(m))
  {
    var sorted := StableSort(items, ItemKey);
    SortIsStable(items, ItemKey);
    k := FirstIsBest(sorted, ItemKey, p);
    forall m
      ensures m in items <==> m in sorted
    {
      assert m in multiset(items) <==> m in multiset(sorted);
    }
    if k < |sorted| {
      var m := sorted[k];
      forall m' <- items | p(m')
        ensures Above(ItemKey(m), ItemKey(m')) || (ItemKey(m') == ItemKey(m) && CodingOf(m'.data) == CodingOf(m.data))
      {
        if !Above(ItemKey(m), ItemKey(m')) {
          PriorityIsInjective(CodingOf(m'.data), CodingOf(m.data));
        }
      }
    }
  }

  lemma {:induction false} FirstAvailableAt(encodings: seq<ContentCoding>, k: nat)
    requires k <= |encodings| && forall i | 0 <= i < k :: encodings[i] !in AVAILABLE_ENCODINGS
    requires k < |encodings| ==> encodings[k] in AVAILABLE_ENCODINGS
    ensures FirstAvailable(encodings) == if k < |encodings| then Some(encodings[k]) else None
    ensures var all := Available(encodings);
            FirstAvailable(encodings) == if all == [] then None else Some(all[0])
  {
    if k > 0 {
      FirstAvailableAt(encodings[1..], k - 1);
    }
    if k == 0 && encodings != [] {
      assert Available(encodings) == [encodings[0]] + Available(encodings[1..]);
    }
  }

  /** The items of a request with these `Accept-Encoding` values. */
  function RequestItems(values: seq<HeaderValue>, parse: QParser): seq<QualityMeta> {
    if values == [] then [] else Items(Folded(values), parse)
  }

  /**
   * The preferred encoding is an available coding asked for by an item that no item asking for an available
   * coding beats in (quality, priority), and every item for another available coding is strictly beaten; there
   * is none exactly when no item asks for an available coding; and it is the head of `get_encodings`.
   */
  lemma PreferredIsBest(values: seq<HeaderValue>, parse: QParser)
    ensures var items, best := RequestItems(values, parse), GetPreferredEncoding(values, parse);
            && (best.None? <==> forall m <- items :: !IsAvailable(m))
            && (best.Some? ==> exists m :: Best(items, IsAvailable, m) && CodingOf(m.data) == best.value)
            && best == (var all := GetEncodings(values, parse); if all == [] then None else Some(all[0]))
  {
    if values != [] {
      var items := RequestItems(values, parse);
      var sorted := StableSort(items, ItemKey);
      var k := FirstSorted(items, IsAvailable);
      FirstAvailableAt(Codings(sorted), k);
      if k < |sorted| {
        assert Best(items, IsAvailable, sorted[k]) && CodingOf(sorted[k].data) == Codings(sorted)[k];
      }
    }
  }

  // ----- Encodings by name -----

  /** The names of the encodings that can be preferred, best first at equal quality; each has two spellings. */
  const NAMES: seq<(string, string)> := [("zstd", "ZSTD"), ("br", "BROTLI"), ("gzip", "GZIP"), ("deflate", "DEFLATE")]

  predicate IsNamed(m: QualityMeta, rank: nat)
    requires rank < 4
  {
    m.data == NAMES[rank].0 || m.data == NAMES[rank].1
  }

  /** Of the encodings named, the item asks for the best by quality, and among equals by the order of the names. */
  ghost predicate NamesBest(items: seq<QualityMeta>, m: QualityMeta, rank: nat)
    requires rank < 4
  {
    && m in items && IsNamed(m, rank)
    && forall m', rank' | m' in items && 0 <= rank' < 4 && IsNamed(m', rank') ::
         m'.quality < m.quality || (m'.quality == m.quality && rank <= rank')
  }

  lemma NameOfCoding(m: QualityMeta, rank: nat)
    requires rank < 4
    ensures IsNamed(m, rank) <==> CodingOf(m.data) == [ZSTD, BROTLI, GZIP, DEFLATE][rank]
    ensures IsNamed(m, rank) ==> Priority(CodingOf(m.data)) == 6 - rank
  {
  }

  /**
   * What a request gets, by the names it sends: the coding named best, and none exactly when none of the
   * names is sent.
   */
  lemma PreferredByName(values: seq<HeaderValue>, parse: QParser, m: QualityMeta, rank: nat)
    requires rank < 4
    ensures var items, best := RequestItems(values, parse), GetPreferredEncoding(values, parse);
            && (NamesBest(items, m, rank) ==> best == Some([ZSTD, BROTLI, GZIP, DEFLATE][rank]))
            && (best.None? <==> forall m' <- items :: forall r: nat | r < 4 :: !IsNamed(m', r))
  {
    hide RequestItems, GetPreferredEncoding, CodingOf;
    var items, best := RequestItems(values, parse), GetPreferredEncoding(values, parse);
    PreferredIsBest(values, parse);
    forall m', r: nat | r < 4
      ensures IsNamed(m', r) <==> CodingOf(m'.data) == [ZSTD, BROTLI, GZIP, DEFLATE][r]
    {
      NameOfCoding(m', r);
    }
    forall m'
      ensures IsAvailable(m') <==> IsNamed(m', 0) || IsNamed(m', 1) || IsNamed(m', 2) || IsNamed(m', 3)
    {
      AvailableIsNamed(m');
    }
    if NamesBest(items, m, rank) {
      assert IsAvailable(m);
      var top :| Best(items, IsAvailable, top) && CodingOf(top.data) == best.value;
      BestIsNamedBest(items, top, m, rank);
    }
  }

  lemma AvailableIsNamed(m: QualityMeta)
    ensures IsAvailable(m) <==> IsNamed(m, 0) || IsNamed(m, 1) || IsNamed(m, 2) || IsNamed(m, 3)
  {
  }

  lemma BestIsNamedBest(items: seq<QualityMeta>, top: QualityMeta, m: QualityMeta, rank: nat)
    requires rank < 4 && Best(items, IsAvailable, top) && NamesBest(items, m, rank)
    ensures CodingOf(top.data) == [ZSTD, BROTLI, GZIP, DEFLATE][rank]
  {
    NameOfCoding(m, rank);
    AvailableIsNamed(m);
    AvailableIsNamed(top);
    var r := if IsNamed(top, 0) then 0 else if IsNamed(top, 1) then 1 else if IsNamed(top, 2) then 2 else 3;
    NameOfCoding(top, r);
    hide CodingOf;
    assert IsNamed(top, r);
    assert !Above(ItemKey(m), ItemKey(top)) || r == rank;
  }

  /** The quality a parameter sets: the number that parses behind `q=`, with white space before and around it. */
  predicate Sets(part: string, parse: QParser, quality: nat) {
    var p := TrimStart(part);
    |p| >= 2 && p[0] == 'q' && p[1] == '=' && parse(Trim(p[2..])) == Some(quality)
  }

  /** An item's name is its first part; its quality the one set by its last part that sets one, else 1, in thousandths. */
  lemma ItemIs(val: string, parse: QParser) returns (i: int)
    ensures var parts, item := Split(val, ';'), ItemOf(val, parse);
            && -1 <= i < |parts| && item.data == Trim(parts[0])
            && (if i == -1 then item.quality == 1000 else Sets(parts[i], parse, item.quality))
            && forall j, quality | i < j < |parts| :: !Sets(parts[j], parse, quality)
  {
    i := LastParseableWins(Split(val, ';'), parse);
  }
}
