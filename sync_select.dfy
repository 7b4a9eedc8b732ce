/** The adaptive column mapping of `selectAnime`: for every wanted field,
    in declaration order, use the column of that name if the anime table
    has it, otherwise the first listed alias it has, otherwise a constant.
    The table's columns are given as a set; the INFORMATION_SCHEMA query
    behind `hasCol` is not modelled. */
module SyncSelect {
  import opened Js

  /** A wanted field and its aliases, in the order they are tried. */
  datatype Want = Want(name: string, aliases: seq<string>)

  /** The fields the sync script asks for. */
  const AnimeWants: seq<Want> := [
    Want("anime_id", []),
    Want("title", ["name"]),
    Want("type", []),
    Want("episodes", ["episode_count", "total_episodes"]),
    Want("score", ["rating"]),
    Want("members", ["popularity", "member_count"]),
    Want("synopsis", ["description"])
  ]

  /** The constant selected when no column matches. */
  datatype SqlDefault = UntitledText | Zero | SqlNull

  /** One item of the SELECT list: `<column> AS <field>` or
      `<constant> AS <field>`. */
  datatype Piece = Column(column: string, field: string) | Constant(value: SqlDefault, field: string)

  /** 'Untitled' for the title, 0 for the score and the member count,
      NULL for everything else. */
  function DefaultFor(field: string): SqlDefault
  {
    if field == "title" then UntitledText
    else if field == "score" then Zero
    else if field == "members" then Zero
    else SqlNull
  }

  /** The first alias, in list order, that the table has. */
  function FirstAlias(aliases: seq<string>, columns: set<string>): (r: Option<string>)
    ensures r.None? <==> forall j :: 0 <= j < |aliases| ==> aliases[j] !in columns
    ensures r.Some? ==>
      exists j :: 0 <= j < |aliases| && aliases[j] == r.value && r.value in columns
        && forall j' :: 0 <= j' < j ==> aliases[j'] !in columns
  {
    if aliases == [] then None
    else if aliases[0] in columns then Some(aliases[0])
    else FirstAlias(aliases[1..], columns)
  }

  /** The first alias is the one at the first index whose alias exists. */
  lemma FirstAliasAt(aliases: seq<string>, columns: set<string>, j: nat)
    requires j < |aliases| && aliases[j] in columns
    requires forall j' :: 0 <= j' < j ==> aliases[j'] !in columns
    ensures FirstAlias(aliases, columns) == Some(aliases[j])
  {
    var r := FirstAlias(aliases, columns);
    var i :| 0 <= i < |aliases| && aliases[i] == r.value && r.value in columns
      && forall j' :: 0 <= j' < i ==> aliases[j'] !in columns;
    assert !(i < j) && !(j < i);
  }

  /** The SELECT item for one wanted field. */
  function PieceFor(want: Want, columns: set<string>): (p: Piece)
    ensures p.field == want.name
    ensures want.name in columns ==> p == Column(want.name, want.name)
    ensures want.name !in columns && FirstAlias(want.aliases, columns).Some? ==>
      p == Column(FirstAlias(want.aliases, columns).value, want.name)
    ensures p.Constant? <==> want.name !in columns && forall j :: 0 <= j < |want.aliases| ==> want.aliases[j] !in columns
    ensures p.Constant? ==> p.value == DefaultFor(want.name)
  {
    if want.name in columns then Column(want.name, want.name)
    else
      match FirstAlias(want.aliases, columns)
      case Some(alias) => Column(alias, want.name)
      case None => Constant(DefaultFor(want.name), want.name)
  }

  /** The column-selection loop of `selectAnime`: one piece per wanted
      field, in the order the fields are declared. (Every wanted name and
      alias is non-empty, so the source's `!picked` means "nothing
      picked".) */
  method SelectPieces(columns: set<string>) returns (pieces: seq<Piece>)
    ensures |pieces| == |AnimeWants|
    ensures forall i :: 0 <= i < |AnimeWants| ==> pieces[i] == PieceFor(AnimeWants[i], columns)
  {
    var wants := AnimeWants;
    pieces := [];
    for i := 0 to |wants|
      invariant |pieces| == i
      invariant forall i' :: 0 <= i' < i ==> pieces[i'] == PieceFor(wants[i'], columns)
    {
      var want := wants[i];
      var picked: Option<string> := None;
      if want.name in columns {
        picked := Some(want.name);
      } else {
        var j := 0;
        while j < |want.aliases|
          invariant 0 <= j <= |want.aliases|
          invariant picked == None
          invariant forall j' :: 0 <= j' < j ==> want.aliases[j'] !in columns
        {
          if want.aliases[j] in columns {
            picked := Some(want.aliases[j]);
            FirstAliasAt(want.aliases, columns, j);
            break;
          }
          j := j + 1;
        }
      }
      if picked.None? {
        pieces := pieces + [Constant(DefaultFor(want.name), want.name)];
      } else {
        pieces := pieces + [Column(picked.value, want.name)];
      }
    }
  }

  /** A wanted field whose column and aliases are all missing from the
      table is selected as its constant default. */
  lemma NoColumnsGivesDefaults(i: nat, columns: set<string>)
    requires i < |AnimeWants|
    requires AnimeWants[i].name !in columns
    requires forall a :: a in AnimeWants[i].aliases ==> a !in columns
    ensures PieceFor(AnimeWants[i], columns) == Constant(DefaultFor(AnimeWants[i].name), AnimeWants[i].name)
    ensures AnimeWants[i].name == "title" <==> PieceFor(AnimeWants[i], columns).value == UntitledText
  {
  }
}
