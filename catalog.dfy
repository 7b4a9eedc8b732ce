/** The catalog page's client logic: choosing a value for each table cell
    from whichever of several columns a row has, shortening long synopses,
    and remembering the trimmed search query that decides which list is
    requested. */
module Catalog {
  import opened Js
  import opened Text

  /** `row[k] !== undefined && row[k] !== null && row[k] !== ''`. */
  predicate Present(row: Record, k: string)
  {
    var v := Get(row, k);
    v != Undefined && v != Null && v != Str("")
  }

  /** `pick(row, keys, fallback)`: the value of the first key whose value is
      present, or the fallback when there is none. */
  function Pick(row: Record, keys: seq<string>, fallback: JsValue): (v: JsValue)
    ensures (forall j :: 0 <= j < |keys| ==> !Present(row, keys[j])) ==> v == fallback
    ensures forall i :: (0 <= i < |keys| && Present(row, keys[i])
                         && (forall j :: 0 <= j < i ==> !Present(row, keys[j]))) ==> v == Get(row, keys[i])
  {
    if keys == [] then fallback
    else if Present(row, keys[0]) then Get(row, keys[0])
    else
      assert forall i :: 1 <= i < |keys| ==> keys[1..][i - 1] == keys[i];
      Pick(row, keys[1..], fallback)
  }

  /** The value `pick` returns is the fallback or a present value of one of
      the keys. */
  lemma {:induction false} PickSource(row: Record, keys: seq<string>, fallback: JsValue)
    ensures Pick(row, keys, fallback) == fallback
      || exists i :: 0 <= i < |keys| && Present(row, keys[i]) && Pick(row, keys, fallback) == Get(row, keys[i])
  {
    if keys != [] && !Present(row, keys[0]) {
      PickSource(row, keys[1..], fallback);
      var v := Pick(row, keys, fallback);
      if v != fallback {
        var i :| 0 <= i < |keys[1..]| && Present(row, keys[1..][i]) && v == Get(row, keys[1..][i]);
        assert keys[i + 1] == keys[1..][i];
      }
    }
  }

  /** With none of the keys present, `pick` gives the fallback. */
  lemma PickAbsent(row: Record, keys: seq<string>, fallback: JsValue)
    requires forall k :: k in keys ==> !Present(row, k)
    ensures Pick(row, keys, fallback) == fallback
  {
    assert forall j :: 0 <= j < |keys| ==> keys[j] in keys;
  }

  const SynopsisLimit: nat := 220
  const Ellipsis: char := '\U{2026}'

  /** `if (synopsis && synopsis.length > 220) synopsis = synopsis.slice(0, 220) + '…'`. */
  function ShortenSynopsis(synopsis: JsValue): (r: JsValue)
    ensures synopsis.Str? && |synopsis.s| > SynopsisLimit ==>
      r.Str? && |r.s| == SynopsisLimit + 1 && r.s[..SynopsisLimit] == synopsis.s[..SynopsisLimit]
      && r.s[SynopsisLimit] == Ellipsis
    ensures !(synopsis.Str? && |synopsis.s| > SynopsisLimit) ==> r == synopsis
  {
    if Truthy(synopsis) && LengthAbove(synopsis, SynopsisLimit) then
      Str(Take(synopsis.s, SynopsisLimit) + [Ellipsis])
    else synopsis
  }

  /** The nine cells of one table row. */
  datatype Cells = Cells(
    title: JsValue, kind: JsValue, episodes: JsValue, score: JsValue, status: JsValue,
    season: JsValue, startDate: JsValue, endDate: JsValue, synopsis: JsValue)

  /** `x || ''` in the date cells. */
  function OrEmpty(v: JsValue): (r: JsValue)
    ensures Truthy(v) ==> r == v
    ensures !Truthy(v) ==> r == Str("")
  {
    if Truthy(v) then v else Str("")
  }

  /** The cells `displayTable` fills for one row. */
  function RowCells(row: Record): (c: Cells)
    ensures c.title == Pick(row, ["title", "name"], Str("Untitled"))
    ensures c.synopsis == ShortenSynopsis(Pick(row, ["synopsis", "description", "summary"], Str("")))
    ensures c.kind == Pick(row, ["type", "format"], Str(""))
    ensures c.episodes == Pick(row, ["num_episodes", "episodes", "eps"], Str(""))
    ensures c.score == Pick(row, ["score", "rating", "score_rank"], Str(""))
    ensures c.status == Pick(row, ["status"], Str(""))
    ensures c.season == Pick(row, ["season"], Str(""))
    ensures c.startDate == OrEmpty(Pick(row, ["start_date", "aired_from", "start"], Str("")))
    ensures c.endDate == OrEmpty(Pick(row, ["end_date", "aired_to", "end"], Str("")))
    ensures !Truthy(c.startDate) ==> c.startDate == Str("")
    ensures !Truthy(c.endDate) ==> c.endDate == Str("")
  {
    Cells(
      Pick(row, ["title", "name"], Str("Untitled")),
      Pick(row, ["type", "format"], Str("")),
      Pick(row, ["num_episodes", "episodes", "eps"], Str("")),
      Pick(row, ["score", "rating", "score_rank"], Str("")),
      Pick(row, ["status"], Str("")),
      Pick(row, ["season"], Str("")),
      OrEmpty(Pick(row, ["start_date", "aired_from", "start"], Str(""))),
      OrEmpty(Pick(row, ["end_date", "aired_to", "end"], Str(""))),
      ShortenSynopsis(Pick(row, ["synopsis", "description", "summary"], Str(""))))
  }

  /** A row with none of the looked-up columns shows "Untitled" and empty
      cells. */
  lemma BareRowCells(row: Record)
    requires forall k :: (k in ["title", "name", "type", "format", "num_episodes", "episodes", "eps",
                                "score", "rating", "score_rank", "status", "season",
                                "start_date", "aired_from", "start", "end_date", "aired_to", "end",
                                "synopsis", "description", "summary"]) ==> !Present(row, k)
    ensures RowCells(row) == Cells(Str("Untitled"), Str(""), Str(""), Str(""), Str(""), Str(""), Str(""), Str(""), Str(""))
  {
    PickAbsent(row, ["title", "name"], Str("Untitled"));
    PickAbsent(row, ["type", "format"], Str(""));
    PickAbsent(row, ["num_episodes", "episodes", "eps"], Str(""));
    PickAbsent(row, ["score", "rating", "score_rank"], Str(""));
    PickAbsent(row, ["status"], Str(""));
    PickAbsent(row, ["season"], Str(""));
    PickAbsent(row, ["start_date", "aired_from", "start"], Str(""));
    PickAbsent(row, ["end_date", "aired_to", "end"], Str(""));
    PickAbsent(row, ["synopsis", "description", "summary"], Str(""));
  }

  /** The list request `loadData` sends: the query parameter `q` only for a
      non-empty query (its URL encoding is not modelled). */
  datatype ListRequest = AllAnime | Search(q: string)

  function RequestFor(lastQuery: string): (req: ListRequest)
    ensures req.Search? <==> lastQuery != ""
    ensures req.Search? ==> req.q == lastQuery
  {
    if lastQuery != "" then Search(lastQuery) else AllAnime
  }

  /** The page state that outlives a handler: the last search query. */
  class SearchPage {
    var lastQuery: string

    constructor ()
      ensures lastQuery == ""
    {
      lastQuery := "";
    }

    /** `applySearch`: store the trimmed input, then load. (The input
        box's value is always a string, so `|| ''` changes nothing.) */
    method ApplySearch(input: string) returns (req: ListRequest)
      modifies this
      ensures lastQuery == Trim(input)
      ensures req == RequestFor(lastQuery)
    {
      lastQuery := Trim(input);
      req := RequestFor(lastQuery);
    }

    /** The refresh button reloads with the stored query. */
    method Refresh() returns (req: ListRequest)
      ensures req == RequestFor(lastQuery)
    {
      req := RequestFor(lastQuery);
    }
  }

  /** A search sends `q` exactly when the input has something besides
      whitespace, and what it sends carries no surrounding whitespace. */
  lemma SearchQueryIsTrimmed(input: string)
    ensures RequestFor(Trim(input)).Search? <==> !AllWhitespace(input)
    ensures RequestFor(Trim(input)).Search? ==> Trim(RequestFor(Trim(input)).q) == RequestFor(Trim(input)).q
  {
    TrimEmptyIff(input);
    TrimIdempotent(input);
  }
}
