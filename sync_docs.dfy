/** Document assembly in the sync script: one MongoDB document per anime
    row, filled from the row and from the maps the grouping helpers and the
    relation loop built, with a default wherever data is absent. */
module SyncDocs {
  import opened Js
  import opened SyncGroup
  import opened SyncRelations

  /** The fields of an `anime_cache` document (the `updated_at` timestamp
      is not modelled). */
  datatype Doc = Doc(
    animeId: Number,
    title: JsValue,
    kind: JsValue,
    episodes: JsValue,
    score: JsValue,
    members: JsValue,
    synopsis: JsValue,
    genres: seq<JsValue>,
    studios: seq<JsValue>,
    related: seq<Number>,
    recommended: seq<Number>,
    images: seq<JsValue>)

  /** `v ?? fallback`. */
  function Coalesce(v: JsValue, fallback: JsValue): (r: JsValue)
    ensures IsNullish(v) ==> r == fallback
    ensures !IsNullish(v) ==> r == v
  {
    if IsNullish(v) then fallback else v
  }

  /** `v != null ? Number(v) : null`. */
  function NumberOrNull(v: JsValue, parse: string -> Number): (r: JsValue)
    ensures r == Null <==> IsNullish(v)
    ensures !IsNullish(v) ==> r == Num(ToNumber(v, parse))
  {
    if IsNullish(v) then Null else Num(ToNumber(v, parse))
  }

  /** `m.get(k) ?? []` on a map filled by a grouping helper. */
  function ListAt(m: map<JsValue, seq<JsValue>>, k: JsValue): (l: seq<JsValue>)
    ensures k !in m ==> l == []
    ensures k in m ==> l == m[k]
  {
    if k in m then m[k] else []
  }

  /** `relatedByAnime.get(k)`: the map's keys are numbers, so only a
      numeric `k` can find an entry. */
  function BucketAt(m: map<Number, Bucket>, k: JsValue): (b: Option<Bucket>)
    ensures b.Some? <==> k.Num? && k.n in m
    ensures b.Some? ==> b.value == m[k.n]
  {
    if k.Num? && k.n in m then Some(m[k.n]) else None
  }

  /** The document built from one anime row. */
  function BuildDoc(a: Record, genres: map<JsValue, seq<JsValue>>, studios: map<JsValue, seq<JsValue>>,
                    related: map<Number, Bucket>, images: map<JsValue, seq<JsValue>>, parse: string -> Number): (d: Doc)
    ensures d.animeId == ToNumber(Get(a, "anime_id"), parse)
    ensures IsNullish(Get(a, "title")) ==> d.title == Str("Untitled")
    ensures !IsNullish(Get(a, "title")) ==> d.title == Get(a, "title")
    ensures d.kind == Null <==> IsNullish(Get(a, "type"))
    ensures d.synopsis == Null <==> IsNullish(Get(a, "synopsis"))
    ensures d.episodes == Null <==> IsNullish(Get(a, "episodes"))
    ensures d.score == Null <==> IsNullish(Get(a, "score"))
    ensures d.members == Null <==> IsNullish(Get(a, "members"))
    ensures Get(a, "anime_id") !in genres ==> d.genres == []
    ensures Get(a, "anime_id") !in studios ==> d.studios == []
    ensures BucketAt(related, Get(a, "anime_id")).None? ==> d.related == [] && d.recommended == []
    ensures Get(a, "anime_id") !in images ==> d.images == []
    ensures !IsNullish(Get(a, "type")) ==> d.kind == Get(a, "type")
    ensures !IsNullish(Get(a, "synopsis")) ==> d.synopsis == Get(a, "synopsis")
    ensures !IsNullish(Get(a, "episodes")) ==> d.episodes == Num(ToNumber(Get(a, "episodes"), parse))
    ensures !IsNullish(Get(a, "score")) ==> d.score == Num(ToNumber(Get(a, "score"), parse))
    ensures !IsNullish(Get(a, "members")) ==> d.members == Num(ToNumber(Get(a, "members"), parse))
    ensures Get(a, "anime_id") in genres ==> d.genres == genres[Get(a, "anime_id")]
    ensures Get(a, "anime_id") in studios ==> d.studios == studios[Get(a, "anime_id")]
    ensures Get(a, "anime_id") in images ==> d.images == images[Get(a, "anime_id")]
    ensures BucketAt(related, Get(a, "anime_id")).Some? ==>
      && d.related == BucketAt(related, Get(a, "anime_id")).value.related
      && d.recommended == BucketAt(related, Get(a, "anime_id")).value.recommended
  {
    var id := Get(a, "anime_id");
    var links := BucketAt(related, id);
    Doc(
      ToNumber(id, parse),
      Coalesce(Get(a, "title"), Str("Untitled")),
      Coalesce(Get(a, "type"), Null),
      NumberOrNull(Get(a, "episodes"), parse),
      NumberOrNull(Get(a, "score"), parse),
      NumberOrNull(Get(a, "members"), parse),
      Coalesce(Get(a, "synopsis"), Null),
      ListAt(genres, id),
      ListAt(studios, id),
      if links.Some? then links.value.related else [],
      if links.Some? then links.value.recommended else [],
      ListAt(images, id))
  }

  /** `animeRows.map(...)`: one document per anime row, in row order. */
  function BuildDocs(animeRows: seq<Record>, genres: map<JsValue, seq<JsValue>>, studios: map<JsValue, seq<JsValue>>,
                     related: map<Number, Bucket>, images: map<JsValue, seq<JsValue>>, parse: string -> Number): (docs: seq<Doc>)
    ensures |docs| == |animeRows|
    ensures forall i :: 0 <= i < |animeRows| ==> docs[i] == BuildDoc(animeRows[i], genres, studios, related, images, parse)
  {
    seq(|animeRows|, i requires 0 <= i < |animeRows| => BuildDoc(animeRows[i], genres, studios, related, images, parse))
  }

  /** The documents the script upserts, as a function of the query results. */
  function SyncedDocs(animeRows: seq<Record>, genreRows: seq<Record>, studioRows: seq<Record>,
                      linkRows: seq<Record>, imageRows: seq<Record>, parse: string -> Number): seq<Doc>
  {
    BuildDocs(animeRows,
      SetMapOf(genreRows, "anime_id", "genre"),
      SetMapOf(studioRows, "anime_id", "studio"),
      BucketsOf(linkRows, parse),
      ArrMapOf(imageRows, "anime_id", "image_path"),
      parse)
  }

  /** Steps 3 to 7 of the script, from the rows its queries returned to the
      documents it upserts. */
  method Synchronise(animeRows: seq<Record>, genreRows: seq<Record>, studioRows: seq<Record>,
                     linkRows: seq<Record>, imageRows: seq<Record>, parse: string -> Number)
    returns (docs: seq<Doc>)
    ensures docs == SyncedDocs(animeRows, genreRows, studioRows, linkRows, imageRows, parse)
  {
    var genresByAnime := GroupToSetMap(genreRows, "anime_id", "genre");
    var studiosByAnime := GroupToSetMap(studioRows, "anime_id", "studio");
    var relatedByAnime := BucketRelations(linkRows, parse);
    var imagesByAnime := GroupToArrMap(imageRows, "anime_id", "image_path");
    docs := BuildDocs(animeRows, genresByAnime, studiosByAnime, relatedByAnime, imagesByAnime, parse);
  }

  // ---------- end-to-end properties ----------

  /** A document's genres are exactly the genres joined to its anime id,
      each once. */
  lemma DocGenres(animeRows: seq<Record>, genreRows: seq<Record>, studioRows: seq<Record>,
                  linkRows: seq<Record>, imageRows: seq<Record>, parse: string -> Number, i: nat, g: JsValue)
    requires i < |animeRows|
    ensures var d := SyncedDocs(animeRows, genreRows, studioRows, linkRows, imageRows, parse)[i];
      && NoDuplicates(d.genres)
      && (g in d.genres <==>
          exists j :: 0 <= j < |genreRows| && Kept(genreRows[j], "anime_id", "genre")
            && Get(genreRows[j], "anime_id") == Get(animeRows[i], "anime_id") && Get(genreRows[j], "genre") == g)
  {
    var id := Get(animeRows[i], "anime_id");
    var m := SetMapOf(genreRows, "anime_id", "genre");
    SetMapMembership(genreRows, "anime_id", "genre", id, g);
    if id in m {
      SetMapWellFormed(genreRows, "anime_id", "genre", id);
    }
  }

  /** A document's images are all the image paths of its anime, in row
      order, repetitions included. */
  lemma DocImages(animeRows: seq<Record>, genreRows: seq<Record>, studioRows: seq<Record>,
                  linkRows: seq<Record>, imageRows: seq<Record>, parse: string -> Number, i: nat)
    requires i < |animeRows|
    ensures SyncedDocs(animeRows, genreRows, studioRows, linkRows, imageRows, parse)[i].images
      == ValuesFor(imageRows, "anime_id", "image_path", Get(animeRows[i], "anime_id"))
  {
    ValuesForNonEmpty(imageRows, "anime_id", "image_path", Get(animeRows[i], "anime_id"));
  }

  /** A document's related and recommended lists are the destinations of
      the valid links leaving its anime, split by link type; an anime id
      that is not a number finds none. */
  lemma DocRelations(animeRows: seq<Record>, genreRows: seq<Record>, studioRows: seq<Record>,
                     linkRows: seq<Record>, imageRows: seq<Record>, parse: string -> Number, i: nat)
    requires i < |animeRows|
    ensures var d := SyncedDocs(animeRows, genreRows, studioRows, linkRows, imageRows, parse)[i];
      var id := Get(animeRows[i], "anime_id");
      && (id.Num? ==> d.related == Targets(linkRows, parse, id.n, Related)
                      && d.recommended == Targets(linkRows, parse, id.n, Recommended))
      && (!id.Num? ==> d.related == [] && d.recommended == [])
  {
    var id := Get(animeRows[i], "anime_id");
    if id.Num? {
      TargetsNonEmpty(linkRows, parse, id.n);
    }
  }
}
