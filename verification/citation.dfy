/** The citation record of the job (`SetCartesianProduct.Citation` and `CitationPair`):
    parsing a line of text, the author-list helper, ordering and the text rendering. */
module Citations {
  import opened Optional
  import opened JavaLang

  /** A parsed citation. The author list is not kept (its field is commented out in the
      record), so a citation is its id, title, venue and 32-bit year. */
  datatype Citation = Citation(id: string, title: string, venue: string, year: int32)

  /** A candidate pair: a citation of set R and one of set S, in that order. */
  datatype CitationPair = CitationPair(entityA: Citation, entityB: Citation)

  /** `Citation.clone`: a fresh citation with the same field values. */
  function Clone(src: Citation): (r: Citation)
    ensures r == src
  {
    Citation(src.id, src.title, src.venue, src.year)
  }

  // ---------------------------------------------------------------- parseCitation

  /** The delimiter the record is split on: a comma followed by a double quote. */
  const Separator: string := ",\""

  /** A token trimmed and then stripped of every double quote, in that order. */
  function Clean(token: string): (r: string)
    ensures '"' !in r
  {
    RemoveChar(Trim(token), '"')
  }

  /** The venue/year token: the third token when there are exactly three, the fourth
      otherwise (the third is then an author list, which is ignored). */
  function VenueYearToken(tokens: seq<string>): string
    requires |tokens| >= 3
  {
    if |tokens| == 3 then tokens[2] else tokens[3]
  }

  /** The venue and the year of a cleaned venue/year token, split at its last comma: the
      trimmed text before it and the integer after it. No comma (`substring(0, -1)` throws)
      or a bad integer gives `None`. */
  function ParseVenueYear(venueYear: string): (r: Option<(string, int32)>)
    ensures ',' !in venueYear ==> r.None?
    ensures r.Some? ==> Trim(r.value.0) == r.value.0
  {
    var separator := LastIndexOf(venueYear, ',');
    if separator < 0 then None
    else
      match ParseInt(venueYear[separator + 1..])
      case None => None
      case Some(year) =>
        TrimIdempotent(venueYear[..separator]);
        Some((Trim(venueYear[..separator]), year))
  }

  /** Whatever precedes the last comma, the venue is that text trimmed and the year is the
      text after the comma read as an integer. */
  lemma ParseVenueYearLastComma(head: string, tail: string)
    requires ',' !in tail
    ensures ParseVenueYear(head + ([','] + tail))
      == match ParseInt(tail)
         case None => None
         case Some(year) => Some((Trim(head), year))
  {
    var vy := head + ([','] + tail);
    assert vy == head + [','] + tail;
    LastIndexOfAfter(head, ',', tail);
    assert vy[..|head|] == head;
    assert vy[|head| + 1..] == tail;
  }

  /** A slice of a string without `c` has no `c` either. */
  lemma SliceAbsent(s: string, c: char, i: nat, j: nat)
    requires c !in s && i <= j <= |s|
    ensures c !in s[i..j]
  {
    forall k | 0 <= k < j - i ensures s[i..j][k] != c {
      assert s[i..j][k] == s[i + k];
    }
  }

  /** `Citation.parseCitation`. Every exception the Java code catches (a missing token, no
      comma in the venue/year token, a year that is not a 32-bit integer) gives `None`; any
      other line parses, its id and title cleaned from the first two tokens and its venue and
      year read from the venue/year token. */
  function ParseCitation(citationRecord: string): (r: Option<Citation>)
    ensures var tokens := Split(citationRecord, Separator);
      && (|tokens| < 3 ==> r.None?)
      && (|tokens| >= 3 && ParseVenueYear(Clean(VenueYearToken(tokens))).None? ==> r.None?)
      && (|tokens| >= 3 && ParseVenueYear(Clean(VenueYearToken(tokens))).Some? ==> r.Some?)
      && (r.Some? ==>
            && |tokens| >= 3
            && r.value.id == Clean(tokens[0])
            && r.value.title == Clean(tokens[1])
            && ParseVenueYear(Clean(VenueYearToken(tokens))) == Some((r.value.venue, r.value.year)))
    ensures r.Some? ==> '"' !in r.value.id && '"' !in r.value.title && '"' !in r.value.venue
  {
    var tokens := Split(citationRecord, Separator);
    if |tokens| < 3 then None
    else
      var venueYear := Clean(VenueYearToken(tokens));
      match ParseVenueYear(venueYear)
      case None => None
      case Some((venue, year)) =>
        var separator := LastIndexOf(venueYear, ',');
        SliceAbsent(venueYear, '"', 0, separator);
        TrimAbsent(venueYear[..separator], '"');
        Some(Citation(Clean(tokens[0]), Clean(tokens[1]), venue, year))
  }

  // ---------------------------------------------------------------- lines that parse

  /** The separator occurs nowhere in `s`. */
  ghost predicate NoSeparator(s: string)
  {
    forall j: nat :: !MatchAt(s, Separator, j)
  }

  /** A field that can be written between double quotes and read back: it holds no double
      quote and does not end with a comma (which would form a separator with the closing
      quote). */
  predicate SafeField(f: string)
  {
    '"' !in f && (f == [] || f[|f| - 1] != ',')
  }

  /** A citation the line format can carry unchanged: safe fields, a title that does not
      start with a blank (its leading blanks are trimmed away) and a trimmed venue. */
  predicate WellFormed(c: Citation)
  {
    && SafeField(c.id)
    && SafeField(c.title) && (c.title == [] || !IsBlank(c.title[0]))
    && SafeField(c.venue) && Trim(c.venue) == c.venue
  }

  /** The tokens of the line `"id","title","venue",year` (the year not quoted), that is,
      the text between the separators. */
  function LineTokens(c: Citation): seq<string>
  {
    ["\"" + c.id + "\"", c.title + "\"", c.venue + ("\"," + IntToString(c.year as int))]
  }

  /** The line `"id","title","venue",year` of the citation. */
  function FormatLine(c: Citation): string
  {
    JoinWith(LineTokens(c), Separator)
  }

  /** The line `"id","title","authors","venue",year` of the citation. */
  function FormatLineWithAuthors(c: Citation, authors: string): string
  {
    var t := LineTokens(c);
    JoinWith([t[0], t[1], authors + "\"", t[2]], Separator)
  }

  lemma SeparatorMatch(s: string, j: nat)
    ensures MatchAt(s, Separator, j) <==> j + 2 <= |s| && s[j] == ',' && s[j + 1] == '"'
  {
    if j + 2 <= |s| && s[j] == ',' && s[j + 1] == '"' {
      assert s[j..j + 2] == Separator;
    }
  }

  lemma NoSeparatorPieces(s: string)
    requires NoSeparator(s)
    ensures Pieces(s, Separator) == [s]
  {
    PiecesNoMatch(s, Separator);
  }

  lemma SeparatorAfter(a: string, b: string)
    requires NoSeparator(a)
    ensures Pieces(a + Separator + b, Separator) == [a] + Pieces(b, Separator)
  {
    var s := a + Separator + b;
    forall j: nat | j < |a| ensures !MatchAt(s, Separator, j) {
      SeparatorMatch(s, j);
      SeparatorMatch(a, j);
      if j < |a| - 1 {
        assert s[j] == a[j] && s[j + 1] == a[j + 1];
      } else {
        assert s[j + 1] == ',';
      }
    }
    PiecesAfter(a, Separator, b);
  }

  /** Tokens without a separator, joined with separators, split back into those tokens. */
  lemma {:induction false} PiecesOfJoin(tokens: seq<string>)
    requires |tokens| >= 1
    requires forall k :: 0 <= k < |tokens| ==> NoSeparator(tokens[k])
    ensures Pieces(JoinWith(tokens, Separator), Separator) == tokens
  {
    if |tokens| == 1 {
      NoSeparatorPieces(tokens[0]);
    } else {
      var rest := tokens[1..];
      assert forall k :: 0 <= k < |rest| ==> NoSeparator(rest[k]) by {
        forall k | 0 <= k < |rest| ensures NoSeparator(rest[k]) {
          assert rest[k] == tokens[k + 1];
        }
      }
      PiecesOfJoin(rest);
      SeparatorAfter(tokens[0], JoinWith(rest, Separator));
      assert tokens == [tokens[0]] + rest;
    }
  }

  /** `split` gives back the joined tokens when the last one is not empty. */
  lemma SplitOfJoin(tokens: seq<string>)
    requires |tokens| >= 1 && tokens[|tokens| - 1] != []
    requires forall k :: 0 <= k < |tokens| ==> NoSeparator(tokens[k])
    ensures Split(JoinWith(tokens, Separator), Separator) == tokens
  {
    PiecesOfJoin(tokens);
  }

  lemma NoSeparatorConcat(a: string, b: string)
    requires NoSeparator(a) && NoSeparator(b)
    requires a == [] || b == [] || !(a[|a| - 1] == ',' && b[0] == '"')
    ensures NoSeparator(a + b)
  {
    var s := a + b;
    forall j: nat ensures !MatchAt(s, Separator, j) {
      SeparatorMatch(s, j);
      if j + 2 <= |s| {
        if j < |a| - 1 {
          SeparatorMatch(a, j);
          assert s[j] == a[j] && s[j + 1] == a[j + 1];
        } else if j == |a| - 1 {
          assert s[j] == a[|a| - 1] && s[j + 1] == b[0];
        } else {
          SeparatorMatch(b, j - |a|);
          assert s[j] == b[j - |a|] && s[j + 1] == b[j - |a| + 1];
        }
      }
    }
  }

  lemma QuoteFreeNoSeparator(s: string)
    requires '"' !in s
    ensures NoSeparator(s)
  {
    forall j: nat ensures !MatchAt(s, Separator, j) {
      SeparatorMatch(s, j);
      if j + 2 <= |s| {
        assert s[j + 1] in s;
      }
    }
  }

  /** `"f"` with a safe field holds no separator. */
  lemma QuotedNoSeparator(f: string)
    requires SafeField(f)
    ensures NoSeparator("\"" + f + "\"")
  {
    QuoteFreeNoSeparator(f);
    NoSeparatorConcat("\"", f);
    NoSeparatorConcat("\"" + f, "\"");
  }

  /** `f"` with a safe field holds no separator. */
  lemma ClosedNoSeparator(f: string)
    requires SafeField(f)
    ensures NoSeparator(f + "\"")
  {
    QuoteFreeNoSeparator(f);
    NoSeparatorConcat(f, "\"");
  }

  /** The token `venue",year` of a formatted line holds no separator. */
  lemma VenueYearNoSeparator(venue: string, y: string)
    requires SafeField(venue) && '"' !in y
    ensures NoSeparator(venue + ("\"," + y))
  {
    QuoteFreeNoSeparator(y);
    assert NoSeparator("\",") by {
      forall j: nat ensures !MatchAt("\",", Separator, j) {
        SeparatorMatch("\",", j);
      }
    }
    NoSeparatorConcat("\",", y);
    QuoteFreeNoSeparator(venue);
    NoSeparatorConcat(venue, "\"," + y);
  }

  /** Cleaning a token that starts and ends with non-blank characters removes its quotes. */
  lemma CleanUntrimmed(token: string)
    requires token == [] || (!IsBlank(token[0]) && !IsBlank(token[|token| - 1]))
    ensures Clean(token) == RemoveChar(token, '"')
  {
    TrimKeeps(token);
  }

  lemma RemoveQuoteVenueYear(venue: string, y: string)
    requires '"' !in venue && '"' !in y
    ensures RemoveChar(venue + ("\"," + y), '"') == venue + ([','] + y)
  {
    RemoveCharConcat(venue, "\"," + y, '"');
    assert RemoveChar(venue, '"') == venue;
    RemoveCharConcat("\",", y, '"');
    assert RemoveChar(y, '"') == y;
    assert RemoveChar("\",", '"') == [','];
    assert RemoveChar("\"," + y, '"') == [','] + y;
  }

  /** The token `venue",year` of a formatted line cleans to `venue,year`. */
  lemma CleanVenueYear(venue: string, y: string)
    requires '"' !in venue && '"' !in y
    requires venue == [] || !IsBlank(venue[0])
    requires |y| > 0 && !IsBlank(y[|y| - 1])
    ensures Clean(venue + ("\"," + y)) == venue + ([','] + y)
  {
    var t := venue + ("\"," + y);
    assert t[|t| - 1] == y[|y| - 1];
    assert !IsBlank(t[0]);
    CleanUntrimmed(t);
    RemoveQuoteVenueYear(venue, y);
  }

  /** Cleaning `"f"` gives a quote-free field back. */
  lemma CleanQuoted(f: string)
    requires '"' !in f
    ensures Clean("\"" + f + "\"") == f
  {
    var q := "\"" + f + "\"";
    CleanUntrimmed(q);
    RemoveCharConcat("\"" + f, "\"", '"');
    RemoveCharConcat("\"", f, '"');
  }

  /** Cleaning `f"` gives a quote-free field back when it does not start with a blank. */
  lemma CleanClosed(f: string)
    requires '"' !in f && (f == [] || !IsBlank(f[0]))
    ensures Clean(f + "\"") == f
  {
    var t := f + "\"";
    assert !IsBlank(t[0]);
    CleanUntrimmed(t);
    RemoveCharConcat(f, "\"", '"');
  }

  /** The tokens of a formatted line hold no separator, and they clean back to the fields
      of a well-formed citation. */
  lemma WellFormedTokens(c: Citation)
    requires WellFormed(c)
    ensures var t := LineTokens(c);
      && NoSeparator(t[0]) && NoSeparator(t[1]) && NoSeparator(t[2]) && t[2] != []
      && Clean(t[0]) == c.id
      && Clean(t[1]) == c.title
      && ParseVenueYear(Clean(t[2])) == Some((c.venue, c.year))
  {
    TokensNoSeparator(c);
    CleanIdTitle(c);
    CleanVenueYearToken(c);
  }

  lemma TokensNoSeparator(c: Citation)
    requires SafeField(c.id) && SafeField(c.title) && SafeField(c.venue)
    ensures var t := LineTokens(c);
      NoSeparator(t[0]) && NoSeparator(t[1]) && NoSeparator(t[2]) && t[2] != []
  {
    var y := IntToString(c.year as int);
    var t := LineTokens(c);
    assert t[0] == "\"" + c.id + "\"" && t[1] == c.title + "\"" && t[2] == c.venue + ("\"," + y);
    IntToStringChars(c.year as int);
    QuotedNoSeparator(c.id);
    ClosedNoSeparator(c.title);
    VenueYearNoSeparator(c.venue, y);
  }

  lemma CleanIdTitle(c: Citation)
    requires SafeField(c.id) && SafeField(c.title) && (c.title == [] || !IsBlank(c.title[0]))
    ensures var t := LineTokens(c);
      Clean(t[0]) == c.id && Clean(t[1]) == c.title
  {
    var t := LineTokens(c);
    assert t[0] == "\"" + c.id + "\"" && t[1] == c.title + "\"";
    CleanQuoted(c.id);
    CleanClosed(c.title);
  }

  lemma CleanVenueYearToken(c: Citation)
    requires WellFormed(c)
    ensures ParseVenueYear(Clean(LineTokens(c)[2])) == Some((c.venue, c.year))
  {
    var y := IntToString(c.year as int);
    assert LineTokens(c)[2] == c.venue + ("\"," + y);
    IntToStringChars(c.year as int);
    assert c.venue == [] || !IsBlank(c.venue[0]) by {
      assert Trim(c.venue) == c.venue;
    }
    CleanVenueYear(c.venue, y);
    ParseVenueYearLastComma(c.venue, y);
    ParseIntToString(c.year);
  }

  /** Three tokens without a separator, the last not empty, split back from their join. */
  lemma SplitOfThree(a: string, b: string, d: string)
    requires NoSeparator(a) && NoSeparator(b) && NoSeparator(d) && d != []
    ensures Split(JoinWith([a, b, d], Separator), Separator) == [a, b, d]
  {
    SplitOfJoin([a, b, d]);
  }

  /** Four tokens without a separator, the last not empty, split back from their join. */
  lemma SplitOfFour(a: string, b: string, d: string, e: string)
    requires NoSeparator(a) && NoSeparator(b) && NoSeparator(d) && NoSeparator(e) && e != []
    ensures Split(JoinWith([a, b, d, e], Separator), Separator) == [a, b, d, e]
  {
    SplitOfJoin([a, b, d, e]);
  }

  /** What `parseCitation` returns once the split of the line and the venue/year token
      are known. */
  lemma ParseCitationOf(line: string, tokens: seq<string>, venue: string, year: int32)
    requires Split(line, Separator) == tokens && |tokens| >= 3
    requires ParseVenueYear(Clean(VenueYearToken(tokens))) == Some((venue, year))
    ensures ParseCitation(line) == Some(Citation(Clean(tokens[0]), Clean(tokens[1]), venue, year))
  {
  }

  /** A line whose tokens are those of a well-formed citation parses to that citation. */
  lemma ParseLineTokens(c: Citation, line: string)
    requires WellFormed(c)
    requires Split(line, Separator) == LineTokens(c)
    ensures ParseCitation(line) == Some(c)
  {
    WellFormedTokens(c);
    ParseCitationOf(line, LineTokens(c), c.venue, c.year);
  }

  /** Round trip: a well-formed citation written as `"id","title","venue",year` parses
      back to itself. */
  lemma ParseFormatLine(c: Citation)
    requires WellFormed(c)
    ensures ParseCitation(FormatLine(c)) == Some(c)
  {
    var t := LineTokens(c);
    WellFormedTokens(c);
    SplitOfThree(t[0], t[1], t[2]);
    ParseLineTokens(c, FormatLine(c));
  }

  /** Round trip with the optional author list: `"id","title","authors","venue",year` parses
      back to the citation, whatever the (safe) author list is. */
  lemma ParseFormatLineWithAuthors(c: Citation, authors: string)
    requires WellFormed(c) && SafeField(authors)
    ensures ParseCitation(FormatLineWithAuthors(c, authors)) == Some(c)
  {
    var t := LineTokens(c);
    var line := FormatLineWithAuthors(c, authors);
    var t4 := [t[0], t[1], authors + "\"", t[2]];
    WellFormedTokens(c);
    ClosedNoSeparator(authors);
    SplitOfFour(t[0], t[1], authors + "\"", t[2]);
    ParseCitationOf(line, t4, c.venue, c.year);
  }

  /** A line that quotes its year, `"id","title","venue","1999"`, has four tokens, so the
      year token (which has no comma) is taken as the venue/year token and the parse fails. */
  lemma QuotedYearRejected(id: string, title: string, venue: string, yearText: string)
    requires SafeField(id) && SafeField(title) && SafeField(venue) && SafeField(yearText)
    requires ',' !in yearText
    ensures ParseCitation(JoinWith(["\"" + id + "\"", title + "\"", venue + "\"", yearText + "\""],
      Separator)) == None
  {
    var p3 := yearText + "\"";
    QuotedNoSeparator(id);
    ClosedNoSeparator(title);
    ClosedNoSeparator(venue);
    ClosedNoSeparator(yearText);
    SplitOfFour("\"" + id + "\"", title + "\"", venue + "\"", p3);
    assert ',' !in p3;
    TrimAbsent(p3, ',');
    assert multiset(Clean(p3))[','] == 0;
  }

  // ---------------------------------------------------------------- getAuthors

  /** A character that does not occur in the joined text occurs in none of the parts. */
  lemma {:induction false} JoinWithAbsent(parts: seq<string>, d: string, c: char)
    requires |parts| >= 1
    requires c !in JoinWith(parts, d)
    ensures forall k :: 0 <= k < |parts| ==> c !in parts[k]
  {
    if |parts| > 1 {
      var rest := JoinWith(parts[1..], d);
      var all := JoinWith(parts, d);
      assert all == parts[0] + d + rest;
      SliceAbsent(all, c, 0, |parts[0]|);
      assert all[..|parts[0]|] == parts[0];
      SliceAbsent(all, c, |parts[0]| + |d|, |all|);
      assert all[|parts[0]| + |d|..] == rest;
      JoinWithAbsent(parts[1..], d, c);
      forall k | 1 <= k < |parts| ensures c !in parts[k] {
        assert parts[k] == parts[1..][k - 1];
      }
    }
  }

  /** No piece of a split on a single character contains that character. */
  lemma SplitCharAbsent(piece: string, c: char)
    requires forall j :: !MatchAt(piece, [c], j)
    ensures c !in piece
  {
    forall i | 0 <= i < |piece| ensures piece[i] != c {
      if piece[i] == c {
        assert piece[i..i + 1] == [c];
        assert MatchAt(piece, [c], i);
      }
    }
  }

  /** The author record trimmed, stripped of double quotes and split on commas: no token
      holds a comma or a double quote. */
  function AuthorTokens(authorsRecord: string): (r: seq<string>)
    ensures forall k :: 0 <= k < |r| ==> ',' !in r[k] && '"' !in r[k]
    ensures var pieces := Pieces(RemoveChar(Trim(authorsRecord), '"'), ",");
      && |r| <= |pieces| && r == pieces[..|r|]
      && (|pieces| == 1 ==> r == pieces)
      && (|pieces| > 1 ==> (r == [] || r[|r| - 1] != [])
                           && forall i :: |r| <= i < |pieces| ==> pieces[i] == [])
  {
    var cleaned := RemoveChar(Trim(authorsRecord), '"');
    var r := Split(cleaned, ",");
    assert forall k :: 0 <= k < |r| ==> ',' !in r[k] && '"' !in r[k] by {
      PiecesJoin(cleaned, ",");
      JoinWithAbsent(Pieces(cleaned, ","), ",", '"');
      forall k | 0 <= k < |r| ensures ',' !in r[k] && '"' !in r[k] {
        assert r[k] == Pieces(cleaned, ",")[k];
        SplitCharAbsent(r[k], ',');
      }
    }
    r
  }

  /** The author tokens lose nothing but trailing commas: joined back with commas, they are
      the cleaned record (trimmed, without double quotes) up to a final run of commas. */
  lemma AuthorTokensJoin(authorsRecord: string)
    ensures var cleaned := RemoveChar(Trim(authorsRecord), '"');
      var r := AuthorTokens(authorsRecord);
      var joined := if r == [] then "" else JoinWith(r, ",");
      |joined| <= |cleaned| && cleaned[..|joined|] == joined
      && forall i :: |joined| <= i < |cleaned| ==> cleaned[i] == ','
  {
    SplitRejoin(RemoveChar(Trim(authorsRecord), '"'), ',');
  }

  /** Trimming tokens without commas or double quotes gives trimmed tokens without them. */
  lemma TrimmedTokens(tokens: seq<string>)
    requires forall k :: 0 <= k < |tokens| ==> ',' !in tokens[k] && '"' !in tokens[k]
    ensures forall k :: 0 <= k < |tokens| ==>
      ',' !in Trim(tokens[k]) && '"' !in Trim(tokens[k]) && Trim(Trim(tokens[k])) == Trim(tokens[k])
  {
    forall k | 0 <= k < |tokens|
      ensures ',' !in Trim(tokens[k]) && '"' !in Trim(tokens[k])
      ensures Trim(Trim(tokens[k])) == Trim(tokens[k])
    {
      TrimAbsent(tokens[k], ',');
      TrimAbsent(tokens[k], '"');
      TrimIdempotent(tokens[k]);
    }
  }

  /** The loop of `Citation.getAuthors`: every token trimmed, in order. */
  method TrimAll(tokens: seq<string>) returns (authors: seq<string>)
    ensures |authors| == |tokens|
    ensures forall i :: 0 <= i < |tokens| ==> authors[i] == Trim(tokens[i])
  {
    authors := [];
    for k := 0 to |tokens|
      invariant |authors| == k
      invariant forall i :: 0 <= i < k ==> authors[i] == Trim(tokens[i])
    {
      authors := authors + [Trim(tokens[k])];
    }
  }

  /** `Citation.getAuthors`: each token of the author record trimmed, in order; no author
      holds a comma or a double quote, and each is already trimmed. */
  method GetAuthors(authorsRecord: string) returns (authors: seq<string>)
    ensures |authors| == |AuthorTokens(authorsRecord)|
    ensures forall i :: 0 <= i < |authors| ==> authors[i] == Trim(AuthorTokens(authorsRecord)[i])
    ensures forall i :: 0 <= i < |authors| ==>
      ',' !in authors[i] && '"' !in authors[i] && Trim(authors[i]) == authors[i]
  {
    var authorStr := AuthorTokens(authorsRecord);
    authors := TrimAll(authorStr);
    TrimmedTokens(authorStr);
  }

  // ---------------------------------------------------------------- compareTo

  /** `Citation.compareTo`: citations are ordered by id alone. */
  function CompareTo(a: Citation, b: Citation): (r: int)
    ensures r == 0 <==> a.id == b.id
  {
    CompareText(a.id, b.id)
  }

  /** The order ignores title, venue and year. */
  lemma CompareToIdOnly(a: Citation, a': Citation, b: Citation, b': Citation)
    requires a.id == a'.id && b.id == b'.id
    ensures CompareTo(a, b) == CompareTo(a', b')
  {
  }

  /** The order is antisymmetric and transitive. */
  lemma CompareToOrder(a: Citation, b: Citation, c: Citation)
    ensures CompareTo(a, b) == -CompareTo(b, a)
    ensures CompareTo(a, b) < 0 && CompareTo(b, c) < 0 ==> CompareTo(a, c) < 0
  {
    CompareTextAntisymmetric(a.id, b.id);
    if CompareTo(a, b) < 0 && CompareTo(b, c) < 0 {
      CompareTextTransitive(a.id, b.id, c.id);
    }
  }

  // ---------------------------------------------------------------- toString

  /** `Citation.toString`; the author slot is always empty. */
  function CitationToString(c: Citation): string
  {
    "Citation [id=" + c.id + ", title=" + c.title + ", authors=" + ", venue=" + c.venue
      + ", year=" + IntToString(c.year as int) + "]"
  }

  /** `CitationPair.toString`. */
  function PairToString(p: CitationPair): string
  {
    "{" + CitationToString(p.entityA) + " | " + CitationToString(p.entityB) + "}"
  }

  /** Text ending in `=<year><suffix>`, where the suffix has no `=`: its last `=` is the one
      before the year, and the text between that `=` and the suffix is the year's text. */
  lemma YearAfterLastEquals(before: string, year: int32, suffix: string)
    requires '=' !in suffix
    ensures var t := before + ['='] + (IntToString(year as int) + suffix);
      var i := LastIndexOf(t, '=');
      i == |before| && t[i + 1..|t| - |suffix|] == IntToString(year as int)
  {
    var y := IntToString(year as int);
    var head := before + ['='];
    EqualsBeforeYear(before, year, suffix);
    var t := head + (y + suffix);
    assert t[|head|..|t| - |suffix|] == y;
  }

  /** The `=` before the year is the last one: the year's text holds none. */
  lemma EqualsBeforeYear(before: string, year: int32, suffix: string)
    requires '=' !in suffix
    ensures LastIndexOf(before + ['='] + (IntToString(year as int) + suffix), '=') == |before|
  {
    var y := IntToString(year as int);
    IntToStringChars(year as int);
    assert '=' !in y + suffix;
    LastIndexOfAfter(before, '=', y + suffix);
  }

  /** The text of a citation up to the `=` before its year. */
  function CitationTextHead(c: Citation): string
  {
    "Citation [id=" + c.id + ", title=" + c.title + ", authors=" + ", venue=" + c.venue + ", year"
  }

  /** A citation's text is its head, `=`, the year and the closing bracket. */
  lemma CitationTextParts(c: Citation)
    ensures CitationToString(c)
      == CitationTextHead(c) + ['='] + (IntToString(c.year as int) + "]")
  {
  }

  /** The year can be read back from a citation's text: between the last `=` and the
      closing bracket stands the year's decimal text, whatever the other fields hold, and
      `ParseIntToString` reads it back. */
  lemma CitationTextYear(c: Citation)
    ensures var t := CitationToString(c);
      var i := LastIndexOf(t, '=');
      0 <= i < |t| - 1 && t[|t| - 1] == ']' && t[i + 1..|t| - 1] == IntToString(c.year as int)
  {
    CitationTextParts(c);
    YearAfterLastEquals(CitationTextHead(c), c.year, "]");
  }

  /** A slice that is a number's text reads back as that number. */
  lemma ReadBackSlice(t: string, i: nat, j: nat, n: int32)
    requires i <= j <= |t| && t[i..j] == IntToString(n as int)
    ensures ParseInt(t[i..j]) == Some(n)
  {
    ParseIntToString(n);
  }

  /** Round trip through a citation's text: `parseInt` of the text between the last `=` and
      the closing bracket is the citation's year. */
  lemma CitationTextYearReadBack(c: Citation)
    ensures var t := CitationToString(c);
      var i := LastIndexOf(t, '=');
      0 <= i < |t| - 1 && ParseInt(t[i + 1..|t| - 1]) == Some(c.year)
  {
    CitationTextYear(c);
    var t := CitationToString(c);
    ReadBackSlice(t, LastIndexOf(t, '=') + 1, |t| - 1, c.year);
  }

  /** The text of a pair up to the `=` before the S citation's year. */
  function PairTextHead(p: CitationPair): (r: string)
    ensures |r| > 0 && r[0] == '{'
  {
    "{" + CitationToString(p.entityA) + " | " + CitationTextHead(p.entityB)
  }

  /** A pair's text is its head, `=`, the S year and the closing brackets. */
  lemma PairTextParts(p: CitationPair)
    ensures PairToString(p)
      == PairTextHead(p) + ['='] + (IntToString(p.entityB.year as int) + "]}")
  {
    var b := p.entityB;
    var w := "{" + CitationToString(p.entityA) + " | ";
    CitationTextParts(b);
    var y := IntToString(b.year as int);
    assert w + (CitationTextHead(b) + ['='] + (y + "]")) + "}"
      == (w + CitationTextHead(b)) + ['='] + (y + ("]" + "}"));
  }

  /** A pair's text is braced, and the S citation's year text stands between the last `=`
      and the closing brackets. */
  lemma PairTextYear(p: CitationPair)
    ensures var t := PairToString(p);
      var i := LastIndexOf(t, '=');
      t[0] == '{' && t[|t| - 1] == '}' &&
      0 <= i < |t| - 2 && t[i + 1..|t| - 2] == IntToString(p.entityB.year as int)
  {
    PairTextParts(p);
    YearAfterLastEquals(PairTextHead(p), p.entityB.year, "]}");
  }

  /** Round trip through a pair's text: `parseInt` of the text between the last `=` and the
      closing brackets is the S citation's year. */
  lemma PairTextYearReadBack(p: CitationPair)
    ensures var t := PairToString(p);
      var i := LastIndexOf(t, '=');
      0 <= i < |t| - 2 && ParseInt(t[i + 1..|t| - 2]) == Some(p.entityB.year)
  {
    PairTextYear(p);
    var t := PairToString(p);
    ReadBackSlice(t, LastIndexOf(t, '=') + 1, |t| - 2, p.entityB.year);
  }
}
