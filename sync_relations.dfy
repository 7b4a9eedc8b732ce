/** The relation loop of the sync script: every link row with a non-zero,
    numeric source and destination files its destination under its source
    anime, in the "recommended" list when its link type mentions
    "recommend" and in the "related" list otherwise. */
module SyncRelations {
  import opened Js
  import opened Text

  datatype Kind = Related | Recommended

  /** The two lists kept per source anime. */
  datatype Bucket = Bucket(related: seq<Number>, recommended: seq<Number>)

  /** `String(linkType || "").toLowerCase().includes("recommend")`. A falsy
      link type reads as ""; a number or `true` prints as digits, signs,
      "e", "Infinity" or "true", none of which spells "recommend"; and the
      letters of "recommend" come out of `toLowerCase` only from themselves
      and their ASCII capitals. */
  predicate IsRecommendation(linkType: JsValue)
  {
    linkType.Str? && Includes(ToLowerAscii(linkType.s), "recommend")
  }

  function KindOf(linkType: JsValue): (kind: Kind)
    ensures kind == Recommended <==> IsRecommendation(linkType)
  {
    if IsRecommendation(linkType) then Recommended else Related
  }

  function Source(r: Record, parse: string -> Number): Number
  {
    ToNumber(Get(r, "src_anime_id"), parse)
  }

  function Target(r: Record, parse: string -> Number): Number
  {
    ToNumber(Get(r, "dst_anime_id"), parse)
  }

  /** `!src || !dst` fails: both ends convert to numbers other than 0 and
      NaN. */
  predicate ValidLink(r: Record, parse: string -> Number)
  {
    Truthy(Num(Source(r, parse))) && Truthy(Num(Target(r, parse)))
  }

  /** The destinations filed under `src` in the list of `kind`, in row
      order. */
  function Targets(rows: seq<Record>, parse: string -> Number, src: Number, kind: Kind): seq<Number>
  {
    if rows == [] then []
    else
      var r := rows[|rows| - 1];
      Targets(rows[..|rows| - 1], parse, src, kind)
      + (if ValidLink(r, parse) && Source(r, parse) == src && KindOf(Get(r, "link_type")) == kind
         then [Target(r, parse)] else [])
  }

  /** The number of valid links that leave `src`. */
  function OutDegree(rows: seq<Record>, parse: string -> Number, src: Number): nat
  {
    if rows == [] then 0
    else
      var r := rows[|rows| - 1];
      OutDegree(rows[..|rows| - 1], parse, src)
      + (if ValidLink(r, parse) && Source(r, parse) == src then 1 else 0)
  }

  function Sources(rows: seq<Record>, parse: string -> Number): set<Number>
  {
    set i | 0 <= i < |rows| && ValidLink(rows[i], parse) :: Source(rows[i], parse)
  }

  /** The map the relation loop builds. */
  function BucketsOf(rows: seq<Record>, parse: string -> Number): map<Number, Bucket>
  {
    map src | src in Sources(rows, parse) ::
      Bucket(Targets(rows, parse, src, Related), Targets(rows, parse, src, Recommended))
  }

  /** Files `dst` under the list of `kind`. */
  function Push(b: Bucket, kind: Kind, dst: Number): Bucket
  {
    match kind
    case Related => b.(related := b.related + [dst])
    case Recommended => b.(recommended := b.recommended + [dst])
  }

  // ---------- properties of the specification ----------

  /** `d` is listed under `src` and `kind` exactly when some valid link row
      goes from `src` to `d` with a link type of that kind. */
  lemma {:induction false} TargetsMembership(rows: seq<Record>, parse: string -> Number, src: Number, kind: Kind, d: Number)
    ensures d in Targets(rows, parse, src, kind) <==>
      exists i :: 0 <= i < |rows| && ValidLink(rows[i], parse) && Source(rows[i], parse) == src
        && Target(rows[i], parse) == d && KindOf(Get(rows[i], "link_type")) == kind
  {
    if rows != [] {
      var pre := rows[..|rows| - 1];
      TargetsMembership(pre, parse, src, kind, d);
      assert forall i :: 0 <= i < |pre| ==> pre[i] == rows[i];
    }
  }

  /** Every valid link lands in exactly one of the two lists of its
      source. */
  lemma {:induction false} BucketsPartitionLinks(rows: seq<Record>, parse: string -> Number, src: Number)
    ensures |Targets(rows, parse, src, Related)| + |Targets(rows, parse, src, Recommended)|
      == OutDegree(rows, parse, src)
  {
    if rows != [] {
      BucketsPartitionLinks(rows[..|rows| - 1], parse, src);
    }
  }

  lemma SourcesSnoc(pre: seq<Record>, r: Record, parse: string -> Number)
    ensures Sources(pre + [r], parse)
      == Sources(pre, parse) + (if ValidLink(r, parse) then {Source(r, parse)} else {})
  {
    var rows := pre + [r];
    assert forall i :: 0 <= i < |pre| ==> rows[i] == pre[i];
    if ValidLink(r, parse) {
      assert Source(rows[|pre|], parse) in Sources(rows, parse);
    }
  }

  lemma {:induction false} TargetsNonEmpty(rows: seq<Record>, parse: string -> Number, src: Number)
    ensures Targets(rows, parse, src, Related) != [] || Targets(rows, parse, src, Recommended) != []
      <==> src in Sources(rows, parse)
  {
    if rows != [] {
      var pre, r := rows[..|rows| - 1], rows[|rows| - 1];
      TargetsNonEmpty(pre, parse, src);
      SourcesSnoc(pre, r, parse);
      assert rows == pre + [r];
    }
  }

  /** Appending a link row leaves the lists of every other source, and of a
      row that is dropped, alone. */
  lemma TargetsOther(pre: seq<Record>, r: Record, parse: string -> Number, src: Number, kind: Kind)
    requires !ValidLink(r, parse) || Source(r, parse) != src || KindOf(Get(r, "link_type")) != kind
    ensures Targets(pre + [r], parse, src, kind) == Targets(pre, parse, src, kind)
  {
    assert (pre + [r])[..|pre|] == pre;
    var ts := Targets(pre, parse, src, kind);
    assert ts + [] == ts;
  }

  lemma TargetsSnoc(pre: seq<Record>, r: Record, parse: string -> Number)
    requires ValidLink(r, parse)
    ensures Targets(pre + [r], parse, Source(r, parse), KindOf(Get(r, "link_type")))
      == Targets(pre, parse, Source(r, parse), KindOf(Get(r, "link_type"))) + [Target(r, parse)]
  {
    assert (pre + [r])[..|pre|] == pre;
  }

  /** No link rows give the empty map. */
  lemma GroupOfNoLinks(parse: string -> Number)
    ensures BucketsOf([], parse) == map[]
  {
    assert Sources([], parse) == {};
  }

  /** A dropped link row changes nothing. */
  lemma BucketsSkip(pre: seq<Record>, r: Record, parse: string -> Number)
    requires !ValidLink(r, parse)
    ensures BucketsOf(pre + [r], parse) == BucketsOf(pre, parse)
  {
    SourcesSnoc(pre, r, parse);
    var after, before := BucketsOf(pre + [r], parse), BucketsOf(pre, parse);
    forall s | s in after
      ensures s in before && after[s] == before[s]
    {
      TargetsOther(pre, r, parse, s, Related);
      TargetsOther(pre, r, parse, s, Recommended);
    }
    assert after.Keys == before.Keys;
  }

  /** `relatedByAnime.get(src)`, or the fresh pair of empty lists the loop
      creates for a source it has not met. */
  function Entry(m: map<Number, Bucket>, src: Number): Bucket
  {
    if src in m then m[src] else Bucket([], [])
  }

  /** A valid link row adds its source to the keys. */
  lemma BucketsFileKeys(pre: seq<Record>, r: Record, parse: string -> Number)
    requires ValidLink(r, parse)
    ensures BucketsOf(pre + [r], parse).Keys == BucketsOf(pre, parse).Keys + {Source(r, parse)}
  {
    SourcesSnoc(pre, r, parse);
  }

  /** A valid link row leaves the lists of every other source alone. */
  lemma BucketsFileOther(pre: seq<Record>, r: Record, parse: string -> Number, s: Number)
    requires ValidLink(r, parse) && s != Source(r, parse) && s in BucketsOf(pre, parse)
    ensures s in BucketsOf(pre + [r], parse) && BucketsOf(pre + [r], parse)[s] == BucketsOf(pre, parse)[s]
  {
    SourcesSnoc(pre, r, parse);
    TargetsOther(pre, r, parse, s, Related);
    TargetsOther(pre, r, parse, s, Recommended);
  }

  /** A valid link row appends its destination to the list of its kind
      under its source. */
  lemma BucketsFileSource(pre: seq<Record>, r: Record, parse: string -> Number)
    requires ValidLink(r, parse)
    ensures Source(r, parse) in BucketsOf(pre + [r], parse)
    ensures BucketsOf(pre + [r], parse)[Source(r, parse)]
      == Push(Entry(BucketsOf(pre, parse), Source(r, parse)), KindOf(Get(r, "link_type")), Target(r, parse))
  {
    SourcesSnoc(pre, r, parse);
    var src, kind := Source(r, parse), KindOf(Get(r, "link_type"));
    TargetsSnoc(pre, r, parse);
    TargetsOther(pre, r, parse, src, if kind == Related then Recommended else Related);
    TargetsNonEmpty(pre, parse, src);
  }

  /** A valid link row creates its source's lists if needed and appends
      its destination to the list of its kind. */
  lemma BucketsFile(pre: seq<Record>, r: Record, parse: string -> Number)
    requires ValidLink(r, parse)
    ensures
      var m, src := BucketsOf(pre, parse), Source(r, parse);
      BucketsOf(pre + [r], parse) == m[src := Push(Entry(m, src), KindOf(Get(r, "link_type")), Target(r, parse))]
  {
    var after, before := BucketsOf(pre + [r], parse), BucketsOf(pre, parse);
    var src := Source(r, parse);
    BucketsFileKeys(pre, r, parse);
    BucketsFileSource(pre, r, parse);
    forall s | s in before && s != src
      ensures after[s] == before[s]
    {
      BucketsFileOther(pre, r, parse, s);
    }
  }

  /** Row `i` of the relation loop, as a step from the map of the rows
      before it. */
  lemma BucketsPrefixStep(rows: seq<Record>, i: nat, parse: string -> Number)
    requires i < |rows|
    ensures var m, r := BucketsOf(rows[..i], parse), rows[i];
      BucketsOf(rows[..i + 1], parse)
        == if ValidLink(r, parse)
           then m[Source(r, parse) := Push(Entry(m, Source(r, parse)), KindOf(Get(r, "link_type")), Target(r, parse))]
           else m
  {
    assert rows[..i + 1] == rows[..i] + [rows[i]];
    if ValidLink(rows[i], parse) {
      BucketsFile(rows[..i], rows[i], parse);
    } else {
      BucketsSkip(rows[..i], rows[i], parse);
    }
  }

  // ---------- the loop ----------

  /** The relation loop over `linkRows`. */
  method BucketRelations(linkRows: seq<Record>, parse: string -> Number) returns (m: map<Number, Bucket>)
    ensures m == BucketsOf(linkRows, parse)
  {
    m := map[];
    assert linkRows[..0] == [];
    GroupOfNoLinks(parse);
    for i := 0 to |linkRows|
      invariant m == BucketsOf(linkRows[..i], parse)
    {
      BucketsPrefixStep(linkRows, i, parse);
      var r := linkRows[i];
      var src := ToNumber(Get(r, "src_anime_id"), parse);
      var dst := ToNumber(Get(r, "dst_anime_id"), parse);
      if !Truthy(Num(src)) || !Truthy(Num(dst)) {
        continue;
      }
      var kind := KindOf(Get(r, "link_type"));
      // a source met for the first time starts with two empty lists
      var bucket := if src in m then m[src] else Bucket([], []);
      if kind == Recommended {
        bucket := bucket.(recommended := bucket.recommended + [dst]);
      } else {
        bucket := bucket.(related := bucket.related + [dst]);
      }
      m := m[src := bucket];
    }
    assert linkRows[..|linkRows|] == linkRows;
  }

  /** Nothing with a zero or non-numeric end is kept: every source and
      every destination in the map is a number other than 0 and NaN. */
  lemma BucketsHoldOnlyValidEnds(rows: seq<Record>, parse: string -> Number, src: Number, d: Number)
    requires src in BucketsOf(rows, parse)
    requires d in BucketsOf(rows, parse)[src].related || d in BucketsOf(rows, parse)[src].recommended
    ensures Truthy(Num(src)) && Truthy(Num(d))
  {
    TargetsMembership(rows, parse, src, Related, d);
    TargetsMembership(rows, parse, src, Recommended, d);
  }
}
