/** The closed set of book genres: a Python `enum.Enum` whose member values
    are the member names. */
module Genres {
  import opened Wrappers
  import opened Text

  datatype Genre = Fantasy | Detective | History | Other

  /** Every genre, listed once. */
  const AllGenres: set<Genre> := {Fantasy, Detective, History, Other}

  /** The enum has exactly the four members. */
  lemma GenreMembers(g: Genre)
    ensures g in AllGenres
    ensures |AllGenres| == 4
  {
  }

  /** `g.value`: the member's string value. */
  function ToString(g: Genre): String {
    match g
    case Fantasy => "fantasy"
    case Detective => "detective"
    case History => "history"
    case Other => "other"
  }

  /** The string values of the members. */
  const GenreValues: set<String> := {"fantasy", "detective", "history", "other"}

  /** `Genre(s)`: lookup by value, which fails for every other string. */
  function FromString(s: String): (r: Option<Genre>)
    ensures r.Some? <==> s in GenreValues
    ensures r.Some? ==> ToString(r.value) == s
  {
    if s == "fantasy" then Some(Fantasy)
    else if s == "detective" then Some(Detective)
    else if s == "history" then Some(History)
    else if s == "other" then Some(Other)
    else None
  }

  /** Rendering a member and looking it up again gives the same member, and
      the rendered values are exactly the valid ones. */
  lemma GenreRoundTrip(g: Genre)
    ensures FromString(ToString(g)) == Some(g)
    ensures ToString(g) in GenreValues
  {
  }

  /** Distinct members have distinct values. */
  lemma ToStringInjective(g: Genre, h: Genre)
    requires ToString(g) == ToString(h)
    ensures g == h
  {
    GenreRoundTrip(g);
    GenreRoundTrip(h);
  }
}
