/**
 * The query-URL builder of nfl_data.py: the Position enumeration and
 * build_pfr_url, which turns a season and a position into a Pro Football
 * Reference game-finder URL with a fixed set of query parameters.
 */
module PfrUrl {
  import opened Wrappers
  import opened Decimal
  import opened FormEncoding

  /** The positions a query can be built for (passing, rushing, receiving). */
  datatype Position = QB | RB | REC

  /** The comparison-stat key of a position: the `cstat` entry of its value; it identifies the position. */
  function CStat(p: Position): (s: string)
    ensures AllUnreserved(s) && PositionOfCStat(s) == Some(p)
  {
    match p
    case QB => "pass_att"
    case RB => "rush_att"
    case REC => "rec"
  }

  /** The sort key of a position: the `order_by` entry of its value; it identifies the position. */
  function OrderBy(p: Position): (s: string)
    ensures AllUnreserved(s) && PositionOfOrderBy(s) == Some(p)
  {
    match p
    case QB => "pass_rating"
    case RB => "rush_yds"
    case REC => "rec_yds"
  }

  /** The position whose comparison-stat key is `s`, if there is one. */
  function PositionOfCStat(s: string): Option<Position> {
    if s == "pass_att" then Some(QB)
    else if s == "rush_att" then Some(RB)
    else if s == "rec" then Some(REC)
    else None
  }

  /** The position whose sort key is `s`, if there is one. */
  function PositionOfOrderBy(s: string): Option<Position> {
    if s == "pass_rating" then Some(QB)
    else if s == "rush_yds" then Some(RB)
    else if s == "rec_yds" then Some(REC)
    else None
  }

  /** The comparison-stat key identifies the position, and every key is a plain word. */
  lemma CStatIdentifiesPosition(p: Position, s: string)
    ensures PositionOfCStat(s) == Some(p) <==> CStat(p) == s
    ensures AllUnreserved(CStat(p)) && AllUnreserved(OrderBy(p))
  {
  }

  const Base: string := "https://www.pro-football-reference.com/play-index/pgl_finder.cgi"

  /** What every URL starts with: the base, a slash and the query separator. */
  const Prefix: string := Base + "/?"

  /** The query dictionary of build_pfr_url, in insertion order: eighteen entries. */
  function PfrQuery(year: int, position: Position): (q: Query)
    ensures |q| == 18
  {
    [ ("request", Int(1)),
      ("match", Str("game")),
      ("year_min", Int(year)),
      ("year_max", Int(year)),
      ("season_start", Int(1)),
      ("season_end", Int(-1)),
      ("age_min", Int(0)),
      ("age_max", Int(99)),
      ("game_type", Str("A")),
      ("game_num_min", Int(0)),
      ("game_num_max", Int(99)),
      ("week_num_min", Int(1)),
      ("week_num_max", Int(1)),
      ("c1stat", Str(CStat(position))),
      ("c1comp", Str("gt")),
      ("c1val", Int(1)),
      ("order_by", Str(OrderBy(position))),
      ("from_link", Int(1)) ]
  }

  /**
   * build_pfr_url, with the same default arguments: the game-finder prefix
   * followed by an encoded query.
   */
  function BuildPfrUrl(year: int := 2019, position: Position := QB): (url: string)
    ensures |Prefix| < |url| && url[..|Prefix|] == Prefix
    ensures AllQueryChars(url[|Prefix|..])
  {
    Prefix + UrlEncode(PfrQuery(year, position))
  }

  /** The pairs the URL's query holds, each written as strings. */
  function ExpectedPairs(year: int, position: Position): seq<(string, string)> {
    [ ("request", "1"),
      ("match", "game"),
      ("year_min", IntToString(year)),
      ("year_max", IntToString(year)),
      ("season_start", "1"),
      ("season_end", "-1"),
      ("age_min", "0"),
      ("age_max", "99"),
      ("game_type", "A"),
      ("game_num_min", "0"),
      ("game_num_max", "99"),
      ("week_num_min", "1"),
      ("week_num_max", "1"),
      ("c1stat", CStat(position)),
      ("c1comp", "gt"),
      ("c1val", "1"),
      ("order_by", OrderBy(position)),
      ("from_link", "1") ]
  }

  /** The renderings of the integer constants of the query. */
  lemma ConstantRenderings()
    ensures IntToString(0) == "0" && IntToString(1) == "1"
    ensures IntToString(-1) == "-1" && IntToString(99) == "99"
  {
    assert NatToString(9) == "9";
  }

  lemma RenderedPfrQuery(year: int, position: Position)
    ensures Rendered(PfrQuery(year, position)) == ExpectedPairs(year, position)
  {
    var q := PfrQuery(year, position);
    var e := ExpectedPairs(year, position);
    ConstantRenderings();
    assert Stringify(Int(0)) == "0" && Stringify(Int(1)) == "1";
    assert Stringify(Int(-1)) == "-1" && Stringify(Int(99)) == "99";
    forall i | 0 <= i < |q| ensures Rendered(q)[i] == e[i] {
      RenderedEntry(q, e, i);
    }
  }

  lemma RenderedEntry(q: Query, e: seq<(string, string)>, i: int)
    requires 0 <= i < |q| == |e| && e[i] == (q[i].0, Stringify(q[i].1))
    ensures Rendered(q)[i] == e[i]
  {
  }

  /**
   * The dictionary's keys are distinct, as a dictionary's are, and each is
   * one of the eighteen parameter names of `Keys`.
   */
  lemma PfrQueryKeys(year: int, position: Position)
    ensures forall i, j :: 0 <= i < j < 18 ==> PfrQuery(year, position)[i].0 != PfrQuery(year, position)[j].0
    ensures forall i :: 0 <= i < 18 ==> PfrQuery(year, position)[i].0 in Keys
  {
  }

  /** Every key and every rendered value of the query is made of unreserved characters. */
  lemma PfrQueryUnreserved(year: int, position: Position)
    ensures forall i :: 0 <= i < 18 ==> PlainPair(PfrQuery(year, position)[i])
  {
    var q := PfrQuery(year, position);
    PlainKeys();
    ConstantRenderings();
    assert AllUnreserved(IntToString(year));
    CStatIdentifiesPosition(position, CStat(position));
    assert AllUnreserved("game") && AllUnreserved("A") && AllUnreserved("gt");
    forall i | 0 <= i < 18 ensures PlainPair(q[i]) {
      var p := q[i];
      assert p.0 in Keys;
      assert AllUnreserved(Stringify(p.1));
    }
  }

  predicate PlainPair(p: (string, Value)) {
    AllUnreserved(p.0) && AllUnreserved(Stringify(p.1))
  }

  const Keys: set<string> := {
    "request", "match", "year_min", "year_max", "season_start", "season_end",
    "age_min", "age_max", "game_type", "game_num_min", "game_num_max",
    "week_num_min", "week_num_max", "c1stat", "c1comp", "c1val", "order_by", "from_link" }

  lemma PlainKeys()
    ensures forall k :: k in Keys ==> AllUnreserved(k)
  {
  }

  /**
   * The URL starts with the base and '/?', and the query that follows reads
   * back as exactly the eighteen pairs of the dictionary, in insertion order:
   * year_min and year_max are the year, c1stat and order_by come from the
   * position, and all other values are constants.
   */
  lemma UrlQuery(year: int, position: Position)
    ensures |Prefix| <= |BuildPfrUrl(year, position)|
    ensures BuildPfrUrl(year, position)[..|Prefix|] == "https://www.pro-football-reference.com/play-index/pgl_finder.cgi/?"
    ensures ParseQuery(BuildPfrUrl(year, position)[|Prefix|..]) == Some(ExpectedPairs(year, position))
  {
    var url := BuildPfrUrl(year, position);
    assert url[|Prefix|..] == UrlEncode(PfrQuery(year, position));
    UrlEncodeRoundTrip(PfrQuery(year, position));
    RenderedPfrQuery(year, position);
  }

  /**
   * Encoding leaves every pair unchanged: the URL is the prefix followed by
   * `request=1&match=game&year_min=<year>&...&from_link=1`.
   */
  lemma UrlText(year: int, position: Position)
    ensures BuildPfrUrl(year, position) == Prefix + Join(PairTexts(ExpectedPairs(year, position)), '&')
  {
    var q := PfrQuery(year, position);
    PfrQueryUnreserved(year, position);
    UrlEncodePlain(q);
    RenderedPfrQuery(year, position);
  }

  /**
   * Only year_min, year_max (indices 2 and 3), c1stat (13) and order_by (16)
   * depend on the arguments; the keys and every other value are the same for
   * all arguments.
   */
  lemma ConstantParameters(y1: int, p1: Position, y2: int, p2: Position)
    ensures |PfrQuery(y1, p1)| == |PfrQuery(y2, p2)| == 18
    ensures forall i :: 0 <= i < 18 ==> PfrQuery(y1, p1)[i].0 == PfrQuery(y2, p2)[i].0
    ensures forall i :: 0 <= i < 18 && i != 2 && i != 3 && i != 13 && i != 16 ==>
      PfrQuery(y1, p1)[i] == PfrQuery(y2, p2)[i]
  {
  }

  /**
   * Reads the year and the position back from a game-finder URL: the year
   * from year_min, the position from c1stat.
   */
  function ReadPfrUrl(url: string): Option<(int, Position)> {
    if |url| < |Prefix| || url[..|Prefix|] != Prefix then None
    else
      match ParseQuery(url[|Prefix|..])
      case None => None
      case Some(pairs) => ReadPairs(pairs)
  }

  function ReadPairs(pairs: seq<(string, string)>): Option<(int, Position)> {
    if |pairs| != 18 || pairs[2].0 != "year_min" || pairs[13].0 != "c1stat" then None
    else
      match (ParseInt(pairs[2].1), PositionOfCStat(pairs[13].1))
      case (Some(year), Some(position)) => Some((year, position))
      case _ => None
  }

  lemma ReadExpectedPairs(year: int, position: Position)
    ensures ReadPairs(ExpectedPairs(year, position)) == Some((year, position))
  {
    var pairs := ExpectedPairs(year, position);
    assert pairs[2] == ("year_min", IntToString(year));
    assert pairs[13] == ("c1stat", CStat(position));
    ParseIntToString(year);
    CStatIdentifiesPosition(position, CStat(position));
  }

  /** Reading a built URL back gives the arguments it was built from. */
  lemma ReadBuildPfrUrl(year: int, position: Position)
    ensures ReadPfrUrl(BuildPfrUrl(year, position)) == Some((year, position))
  {
    UrlQuery(year, position);
    ReadExpectedPairs(year, position);
  }

  /** Distinct (year, position) pairs give distinct URLs. */
  lemma BuildPfrUrlInjective(y1: int, p1: Position, y2: int, p2: Position)
    ensures BuildPfrUrl(y1, p1) == BuildPfrUrl(y2, p2) <==> y1 == y2 && p1 == p2
  {
    ReadBuildPfrUrl(y1, p1);
    ReadBuildPfrUrl(y2, p2);
  }

  /** The default arguments select the 2019 season and quarterbacks. */
  lemma DefaultUrl()
    ensures ReadPfrUrl(BuildPfrUrl()) == Some((2019, QB))
  {
    ReadBuildPfrUrl(2019, QB);
  }

  /** With the default arguments the query carries year_min=2019, c1stat=pass_att and order_by=pass_rating. */
  lemma DefaultPairs()
    ensures ExpectedPairs(2019, QB)[2] == ("year_min", "2019")
    ensures ExpectedPairs(2019, QB)[3] == ("year_max", "2019")
    ensures ExpectedPairs(2019, QB)[13] == ("c1stat", "pass_att")
    ensures ExpectedPairs(2019, QB)[16] == ("order_by", "pass_rating")
  {
    assert NatToString(2) == "2";
    assert NatToString(20) == "20";
    assert NatToString(201) == "201";
    assert NatToString(2019) == "2019";
    assert IntToString(2019) == "2019";
  }
}
