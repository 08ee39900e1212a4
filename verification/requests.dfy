/**
 The request paths sent to the provider: the search path (title lookup or
 list search, with an optional year) and the detail path for one id.
 `ParseSearchPath` reads a search path back, to show that the path carries
 exactly the mode, the query and the year it was built from.
 */
module Requests {
  import opened Text
  import opened QueryEncoding

  /** Every request starts with the fixed credential. */
  const ApiPrefix: string := "/?apikey=fb4a2231&"

  /**
   The search request: the credential, `t=` for a title lookup or `s=` for a
   list search, the encoded query, and `&y=` with the year only when the
   year has exactly four characters.
   */
  function SearchPath(query: string, year: string, exactMatch: bool): (p: string)
    ensures |p| >= |ApiPrefix| + 2
    ensures p[..|ApiPrefix|] == ApiPrefix
    ensures p[|ApiPrefix|..|ApiPrefix| + 2] == (if exactMatch then "t=" else "s=")
    ensures p[|ApiPrefix| + 2..] == EncodeQuery(query) + (if |year| == 4 then "&y=" + year else "")
  {
    var n := |ApiPrefix|;
    var head := ApiPrefix + (if exactMatch then "t=" else "s=");
    var p := head + (EncodeQuery(query) + (if |year| == 4 then "&y=" + year else ""));
    assert p[..n + 2] == head;
    assert head[..n] == ApiPrefix && head[n..] == (if exactMatch then "t=" else "s=");
    p
  }

  const DetailSuffix: string := "&plot=full"

  /** The detail request for one id: the credential, `i=`, the id as it is (unencoded), and `&plot=full`. */
  function DetailPath(imdbId: string): (p: string)
    ensures |p| == |ApiPrefix| + 2 + |imdbId| + |DetailSuffix|
    ensures p[..|ApiPrefix| + 2] == ApiPrefix + "i="
    ensures p[|ApiPrefix| + 2..|p| - |DetailSuffix|] == imdbId
    ensures p[|p| - |DetailSuffix|..] == DetailSuffix
  {
    var head := ApiPrefix + "i=";
    var p := head + imdbId + DetailSuffix;
    assert p[..|head|] == head;
    assert p[|head|..|p| - |DetailSuffix|] == imdbId;
    p
  }

  /** Different ids are requested on different paths. */
  lemma DetailPathInjective(a: string, b: string)
    requires DetailPath(a) == DetailPath(b)
    ensures a == b
  {
    var pa := DetailPath(a);
    assert a == pa[|ApiPrefix| + 2..|pa| - |DetailSuffix|];
  }

  /** What a search path asks for. */
  datatype SearchRequest = SearchRequest(exactMatch: bool, query: string, year: Option<string>)

  /** Reads a search path back into its mode, query and year filter. */
  function ParseSearchPath(p: string): Option<SearchRequest>
  {
    var n := |ApiPrefix|;
    if |p| < n + 2 || p[..n] != ApiPrefix then None
    else
      var mode := p[n..n + 2];
      if mode != "t=" && mode != "s=" then None
      else
        match ParseQueryAndYear(p[n + 2..])
        case None => None
        case Some(parts) => Some(SearchRequest(mode == "t=", parts.0, parts.1))
  }

  /** Reads the part after `t=` or `s=`: the encoded query up to the first `&`, then an optional `&y=` year. */
  function ParseQueryAndYear(rest: string): Option<(string, Option<string>)>
  {
    var cut := match Find(rest, "&") case Some(k) => k case None => |rest|;
    var tail := rest[cut..];
    match DecodeQuery(rest[..cut])
    case None => None
    case Some(q) =>
      if |tail| == 0 then Some((q, None))
      else if |tail| >= 3 && tail[..3] == "&y=" then Some((q, Some(tail[3..])))
      else None
  }

  /** An encoded query holds no `&`, so it never runs into the year parameter. */
  lemma NoAmpersandInEncoding(q: string, j: int)
    ensures !OccursAt(EncodeQuery(q), "&", j)
  {
    var e := EncodeQuery(q);
    if 0 <= j < |e| {
      assert IsEncodedChar(e[j]);
      assert e[j..j + 1] == [e[j]];
    }
  }

  /** The first `&` after an encoded query is where the suffix starts, if it has one. */
  lemma FindAfterEncoding(query: string, suffix: string)
    requires |suffix| == 0 || suffix[0] == '&'
    ensures Find(EncodeQuery(query) + suffix, "&")
         == (if |suffix| == 0 then None else Some(|EncodeQuery(query)|))
  {
    var enc := EncodeQuery(query);
    var rest := enc + suffix;
    forall j | 0 <= j < |enc|
      ensures !OccursAt(rest, "&", j)
    {
      NoAmpersandInEncoding(query, j);
      assert rest[j..j + 1] == enc[j..j + 1];
    }
    if |suffix| == 0 {
      assert rest == enc;
      forall j | 0 <= j
        ensures !OccursAt(rest, "&", j)
      {
        NoAmpersandInEncoding(query, j);
      }
    } else {
      assert rest[|enc|..|enc| + 1] == [suffix[0]];
      assert OccursAt(rest, "&", |enc|);
    }
  }

  lemma QueryAndYearRoundTrip(query: string, year: string)
    requires IsByteString(query)
    ensures ParseQueryAndYear(EncodeQuery(query) + (if |year| == 4 then "&y=" + year else ""))
         == Some((query, if |year| == 4 then Some(year) else None))
  {
    var enc := EncodeQuery(query);
    var suffix := if |year| == 4 then "&y=" + year else "";
    var rest := enc + suffix;
    FindAfterEncoding(query, suffix);
    assert rest[..|enc|] == enc;
    assert rest[|enc|..] == suffix;
    DecodeEncode(query);
    if |year| == 4 {
      assert suffix[..3] == "&y=" && suffix[3..] == year;
    }
  }

  /**
   The search path determines the request: mode, query and year filter can
   be read back from it, and the year is present exactly when it has four
   characters.
   */
  lemma SearchPathRoundTrip(query: string, year: string, exactMatch: bool)
    requires IsByteString(query)
    ensures ParseSearchPath(SearchPath(query, year, exactMatch))
         == Some(SearchRequest(exactMatch, query, if |year| == 4 then Some(year) else None))
  {
    QueryAndYearRoundTrip(query, year);
  }
}
