# Entity matching by set cartesian product — a Dafny model

This project models the Hadoop job `SetCartesianProduct` of EntityMatcher. The job reads
citation records, one per line. Records whose id is made only of decimal digits are set R;
all others are set S. It writes, as text, every (R, S) pair of citations that share a
publication year, which are the candidates for a later, expensive matching step.

The model has six modules:

- **`Optional`**: the `Option` type. A Java method that returns `null` or throws becomes a
  function that returns `None`.
- **`JavaLang`**: the parts of `java.lang.String` and `Integer` the job relies on, written
  out as functions:
  - `trim`, `replace` of a single character, `contains`, `split` and `lastIndexOf`.
  - `Integer.parseInt` (32-bit, optional sign) and `Integer.toString`.
  - Hadoop's `Text.compareTo`.
- **`Citations`**: the `Citation` and `CitationPair` records, plus:
  - `parseCitation`, `getAuthors`, `clone`, `compareTo` and the two `toString` methods.
  - The round trip from a citation to a line and back.
- **`EntityRules`**: `isEntityOfSetR` (the R/S classifier), `areSameEntities` (the blocking
  rule) and `extractReduceKey`.
- **`EntityJoin`**: a specification of what a `reduce` call computes.
  - `ReduceStep` works from the buffered R citations; `ReduceAll` covers a run of calls.
  - The join it writes is the year-filtered cartesian product of R and S, with
    multiplicities. This is proved as a count.
  - Buffering every R call before any S call yields that join.
- **`EntityMatchJob`**: the job's imperative parts.
  - The output `Context`, a class whose `Write` appends a record.
  - The mapper's `Map` method.
  - The `EntityMatchReducer` class: its `citationsSetR` map field is updated by `Setup` and
    `Reduce`. Each `Reduce` call is proved against `ReduceStep`.
  - End-to-end lemmas from the input lines to the pairs written.

Behaviour of the code worth knowing, which the model follows:

- **Quoted year.** A line that quotes its year, `"id","title","venue","year"`, is dropped.
  It splits into four tokens, so the code takes the year token as the venue/year token.
  That token has no comma, so parsing fails (`QuotedYearRejected`).
  - The lines the code does parse are `"id","title","venue",year` and
    `"id","title","authors","venue",year` (`ParseFormatLine`, `ParseFormatLineWithAuthors`).
  - A line whose year has a comma inside the quotes, `"id","title","venue,year"`, also parses.
- **Ids.** An empty id is accepted, and like any id made only of digits it puts the citation
  in set R (`IsEntityOfSetRCases`).
- **Short keys.** `extractReduceKey` throws on a key shorter than two characters. `Reduce`
  then reports the failure and changes nothing.
- **Loop order.** The outer loop runs over the incoming S citations and the inner loop over
  the buffered R citations. So the written order is, for each S citation in turn, its
  matches in buffer order (`Join`).
- **Value order.** The framework does not guarantee the order of the values within a key.
  The order-independent statement is `JoinCount`: each pair's multiplicity is a product of
  counts.

## Model

All source paths are in `src/hdpjobs/SetCartesianProduct.java`.

| member | source | states |
|---|---|---|
| JavaLang.Trim | src/hdpjobs/SetCartesianProduct.java:226 | `trim` gives a string no longer than its input, neither starting nor ending with a character at or below U+0020; `TrimLeft`/`TrimRight` state which characters were dropped |
| JavaLang.TrimIdempotent | src/hdpjobs/SetCartesianProduct.java:306 | trimming twice is trimming once |
| JavaLang.TrimAbsent | src/hdpjobs/SetCartesianProduct.java:239 | `trim` only removes characters: one absent before is absent after |
| JavaLang.RemoveChar | src/hdpjobs/SetCartesianProduct.java:226 | `replace("\"", "")` leaves no double quote and keeps the multiset of every other character |
| JavaLang.RemoveCharConcat | src/hdpjobs/SetCartesianProduct.java:231 | deleting a character distributes over concatenation |
| JavaLang.IndexOf | src/hdpjobs/SetCartesianProduct.java:365 | the first occurrence at or after `from`, with none before it; `None` exactly when there is none |
| JavaLang.ContainsIff | src/hdpjobs/SetCartesianProduct.java:365 | `contains` holds exactly when the text occurs at some index |
| JavaLang.Pieces | src/hdpjobs/SetCartesianProduct.java:224 | at least one piece, and no piece holds the delimiter |
| JavaLang.PiecesJoin | src/hdpjobs/SetCartesianProduct.java:224 | joining the pieces with the delimiter gives the input back |
| JavaLang.PiecesAfter | src/hdpjobs/SetCartesianProduct.java:224 | the split point is the first occurrence of the delimiter |
| JavaLang.JoinTrailingEmpty | src/hdpjobs/SetCartesianProduct.java:209 | parts ending in empty parts join to the join of the leading parts followed by a run of the delimiter |
| JavaLang.DropTrailingEmpty | src/hdpjobs/SetCartesianProduct.java:224 | a prefix that does not end in an empty string, and everything dropped is empty |
| JavaLang.Split | src/hdpjobs/SetCartesianProduct.java:224 | `split` gives the text whole when the delimiter does not occur; otherwise the pieces with exactly the trailing empty pieces dropped; no piece holds the delimiter |
| JavaLang.SplitRejoin | src/hdpjobs/SetCartesianProduct.java:209 | splitting on one character loses only trailing delimiters: the pieces joined back are the text up to a final run of that character |
| JavaLang.LastIndexOf | src/hdpjobs/SetCartesianProduct.java:237 | the index of the last occurrence, -1 when there is none, and no occurrence after it |
| JavaLang.LastIndexOfAfter | src/hdpjobs/SetCartesianProduct.java:237 | in `a + [c] + b`, with no `c` in `b`, the last `c` is at the index just after `a` |
| JavaLang.ParseInt | src/hdpjobs/SetCartesianProduct.java:240 | `parseInt` succeeds exactly on an optional sign followed by at least one ASCII digit whose signed decimal value fits in 32 bits, and returns that value |
| JavaLang.NatToString | src/hdpjobs/SetCartesianProduct.java:139 | the decimal digits of `n`, whose value is `n`, without leading zeros |
| JavaLang.ParseIntToString | src/hdpjobs/SetCartesianProduct.java:240 | `parseInt(Integer.toString(n)) == n` for every 32-bit `n` |
| JavaLang.IntToStringChars | src/hdpjobs/SetCartesianProduct.java:139 | a number's text holds no comma, quote, `=` or blank |
| JavaLang.CompareText | src/hdpjobs/SetCartesianProduct.java:192 | `Text.compareTo` is zero exactly on equal texts |
| JavaLang.IntToString | src/hdpjobs/SetCartesianProduct.java:139 | `Integer.toString` gives at least one character, all ASCII digits except a leading minus sign; `ParseIntToString` reads it back |
| JavaLang.Contains | src/hdpjobs/SetCartesianProduct.java:365 | `contains` on a non-empty needle; `ContainsIff` characterises it as an occurrence at some index |
| JavaLang.CompareTextAntisymmetric | src/hdpjobs/SetCartesianProduct.java:192 | swapping the operands negates the result |
| JavaLang.CompareTextTransitive | src/hdpjobs/SetCartesianProduct.java:192 | "sorts before" is transitive |
| Citations.Clone | src/hdpjobs/SetCartesianProduct.java:96-99 | the clone has the same field values as the source |
| Citations.Clean | src/hdpjobs/SetCartesianProduct.java:226-227 | a trimmed, unquoted token holds no double quote |
| Citations.ParseVenueYear | src/hdpjobs/SetCartesianProduct.java:237-240 | no comma means failure, since `substring(0, -1)` throws; a parsed venue is trimmed |
| Citations.ParseVenueYearLastComma | src/hdpjobs/SetCartesianProduct.java:237-240 | the split is at the last comma: the venue is the trimmed text before it, the year is `parseInt` of the text after it |
| Citations.VenueYearToken | src/hdpjobs/SetCartesianProduct.java:229-235 | the third token of three, else the fourth; read through `ParseCitation`'s contract |
| Citations.ParseCitation | src/hdpjobs/SetCartesianProduct.java:221-249 | the line parses exactly when it splits into at least three tokens and its venue/year token (the third of three, else the fourth) parses; on success the id and title are the cleaned first two tokens, the venue and year come from that token, and no field holds a double quote |
| Citations.PiecesOfJoin | src/hdpjobs/SetCartesianProduct.java:224 | tokens without the separator are the pieces of their join |
| Citations.SplitOfJoin | src/hdpjobs/SetCartesianProduct.java:224 | `split` of such a join, the last token not empty, gives the tokens back |
| Citations.WellFormedTokens | src/hdpjobs/SetCartesianProduct.java:224-240 | the tokens of a well-formed citation's line hold no separator and clean back to the id, the title, and the venue with the year |
| Citations.ParseLineTokens | src/hdpjobs/SetCartesianProduct.java:221-249 | a line that splits into a well-formed citation's tokens parses to that citation |
| Citations.ParseFormatLine | src/hdpjobs/SetCartesianProduct.java:221-249 | round trip: `"id","title","venue",year` parses back to the well-formed citation |
| Citations.ParseFormatLineWithAuthors | src/hdpjobs/SetCartesianProduct.java:230-235 | round trip through the four-token form: the author token is skipped, for any author list without a double quote that does not end in a comma |
| Citations.QuotedYearRejected | src/hdpjobs/SetCartesianProduct.java:224-240 | a line that quotes its year fails to parse |
| Citations.AuthorTokens | src/hdpjobs/SetCartesianProduct.java:209 | the tokens are the comma pieces of the trimmed, unquoted record with exactly the trailing empty pieces dropped; no token holds a comma or a double quote |
| Citations.AuthorTokensJoin | src/hdpjobs/SetCartesianProduct.java:209 | the author tokens joined back with commas are the trimmed, unquoted record up to a final run of commas |
| Citations.TrimAll | src/hdpjobs/SetCartesianProduct.java:210-212 | the loop keeps every token, in order, trimmed |
| Citations.GetAuthors | src/hdpjobs/SetCartesianProduct.java:206-215 | one author per token, in order, each trimmed, with no comma or double quote |
| Citations.CompareTo | src/hdpjobs/SetCartesianProduct.java:190-193 | citations compare equal exactly when their ids are equal |
| Citations.CompareToIdOnly | src/hdpjobs/SetCartesianProduct.java:190-193 | the order ignores title, venue and year |
| Citations.CompareToOrder | src/hdpjobs/SetCartesianProduct.java:190-193 | the order is antisymmetric and transitive |
| Citations.CitationToString | src/hdpjobs/SetCartesianProduct.java:136-140 | the labelled text of a citation; its year is located by `CitationTextYear` and read back by `CitationTextYearReadBack` |
| Citations.CitationTextYear | src/hdpjobs/SetCartesianProduct.java:136-140 | the year's decimal text stands between the last `=` and the closing `]`, whatever the other fields hold |
| Citations.CitationTextYearReadBack | src/hdpjobs/SetCartesianProduct.java:136-140 | round trip: `parseInt` of the text between the last `=` and the closing bracket is the citation's year |
| Citations.PairToString | src/hdpjobs/SetCartesianProduct.java:267-271 | the braced text of a pair; its S year is located by `PairTextYear` and read back by `PairTextYearReadBack` |
| Citations.PairTextYear | src/hdpjobs/SetCartesianProduct.java:267-271 | a pair's text is braced, and the S citation's year text stands between the last `=` and the closing brackets |
| Citations.PairTextYearReadBack | src/hdpjobs/SetCartesianProduct.java:267-271 | round trip: `parseInt` of the text between the last `=` and the closing brackets is the S citation's year |
| EntityRules.MatchesDigitStar | src/hdpjobs/SetCartesianProduct.java:280 | `matches("[0-9]*")` holds exactly when every character is an ASCII digit |
| EntityRules.IsEntityOfSetR | src/hdpjobs/SetCartesianProduct.java:277-281 | a citation is in set R exactly when every character of its id is a digit |
| EntityRules.IsEntityOfSetRIdOnly | src/hdpjobs/SetCartesianProduct.java:277-281 | the classification depends on the id alone |
| EntityRules.IsEntityOfSetRCases | src/hdpjobs/SetCartesianProduct.java:277-281 | an empty id is in R; an id holding a non-digit is in S |
| EntityRules.AreSameEntities | src/hdpjobs/SetCartesianProduct.java:291-301 | the pair survives exactly when the years are equal |
| EntityRules.AreSameEntitiesYearOnly | src/hdpjobs/SetCartesianProduct.java:291-301 | the rule is symmetric and reads the years only |
| EntityRules.ExtractReduceKey | src/hdpjobs/SetCartesianProduct.java:303-309 | fails exactly on keys shorter than two characters; otherwise gives a trimmed text at most two characters shorter than the key |
| EntityRules.ExtractReduceKeyTagged | src/hdpjobs/SetCartesianProduct.java:303-309 | a cell name followed by any two-character tag reduces to the trimmed cell name |
| EntityJoin.AppendTo | src/hdpjobs/SetCartesianProduct.java:366-373 | the cell's list grows by the citations, every other cell is unchanged, and the cell becomes a key only when something is added |
| EntityJoin.AppendToTwice | src/hdpjobs/SetCartesianProduct.java:366-373 | appending in two steps is appending the concatenation |
| EntityJoin.MatchesOf | src/hdpjobs/SetCartesianProduct.java:378-384 | at most one pair per buffered citation |
| EntityJoin.MatchesOfCount | src/hdpjobs/SetCartesianProduct.java:378-384 | the pair (r, s) occurs as often as r is buffered when the years agree, never otherwise |
| EntityJoin.Join | src/hdpjobs/SetCartesianProduct.java:375-386 | for each S citation in turn, its matches in buffer order; characterised by `JoinCount`, `JoinMembers` and `JoinConcat` |
| EntityJoin.JoinLength | src/hdpjobs/SetCartesianProduct.java:362-386 | at most buffer × stream pairs |
| EntityJoin.JoinConcat | src/hdpjobs/SetCartesianProduct.java:362-386 | joining a stream in two parts is joining each part, in order |
| EntityJoin.JoinEmptyBuffer | src/hdpjobs/SetCartesianProduct.java:376-385 | an empty buffer matches nothing |
| EntityJoin.JoinCount | src/hdpjobs/SetCartesianProduct.java:362-386 | the pair (r, s) occurs (count of r in the buffer) × (count of s in the stream) times when the years agree, and never otherwise |
| EntityJoin.JoinMembers | src/hdpjobs/SetCartesianProduct.java:362-386 | (r, s) is written exactly when r is buffered, s is streamed and the years agree |
| EntityJoin.ReduceStep | src/hdpjobs/SetCartesianProduct.java:361-389 | a call throws exactly when it has a value and a key shorter than two characters; an R call writes nothing; only an R call with values changes the map |
| EntityJoin.ReduceAll | src/hdpjobs/SetCartesianProduct.java:353-389 | successive `reduce` calls sharing `citationsSetR`, stopping at the first throw; characterised by `ReduceAllConcat`, `RPhase`, `SPhase` and `BufferThenStream` |
| EntityJoin.ReduceAllConcat | src/hdpjobs/SetCartesianProduct.java:353 | the map outlives a call: running two batches of calls is running the second from the map the first left |
| EntityJoin.RPhase | src/hdpjobs/SetCartesianProduct.java:365-374 | calls on one R key append all their values, in order, and write nothing |
| EntityJoin.SPhase | src/hdpjobs/SetCartesianProduct.java:375-386 | calls on one S key write the join of the cell's buffer with all their values |
| EntityJoin.BufferThenStream | src/hdpjobs/SetCartesianProduct.java:361-389 | R calls, then S calls of the same cell, write exactly the join of everything buffered with all S values |
| EntityMatchJob.Context.Write | src/hdpjobs/SetCartesianProduct.java:382 | `context.write` appends one record to the output |
| EntityMatchJob.Emit | src/hdpjobs/SetCartesianProduct.java:330-347 | what `map` writes for a parse result; characterised by `MapOutputShape` and `EmitGroups` |
| EntityMatchJob.MapOutput | src/hdpjobs/SetCartesianProduct.java:328-348 | what `map` writes for a line; `Map` is proved to append exactly this |
| EntityMatchJob.MapKeyBuilt | src/hdpjobs/SetCartesianProduct.java:342-345 | the string builder yields `1.1.R` or `1.1.S` |
| EntityMatchJob.Map | src/hdpjobs/SetCartesianProduct.java:328-348 | `map` appends exactly `MapOutput` of the line to the context |
| EntityMatchJob.MapOutputShape | src/hdpjobs/SetCartesianProduct.java:328-348 | an unparsable line writes nothing; a parsed citation is written once, under `1.1.R` exactly when its id is all digits, else under `1.1.S` |
| EntityMatchJob.TrimCell | src/hdpjobs/SetCartesianProduct.java:306 | `trim` leaves the cell name `1.1` unchanged |
| EntityMatchJob.KeyCells | src/hdpjobs/SetCartesianProduct.java:303-309 | both keys reduce to the cell `1.1` |
| EntityMatchJob.KeysDiffer | src/hdpjobs/SetCartesianProduct.java:336-339 | the R and S keys differ |
| EntityMatchJob.KeyTags | src/hdpjobs/SetCartesianProduct.java:365-375 | the R key contains `.R`; the S key contains `.S` but not `.R` |
| EntityMatchJob.KeyOrder | src/hdpjobs/SetCartesianProduct.java:342-345 | `1.1.R` sorts before `1.1.S` |
| EntityMatchJob.MapperKeys | src/hdpjobs/SetCartesianProduct.java:342-345 | one cell, the right tags, and R sorts first, so one reducer buffers R before it streams S |
| EntityMatchJob.MapAllNext | src/hdpjobs/SetCartesianProduct.java:328-348 | the mappers' output for one more line is extended by `map` of that line |
| EntityMatchJob.SomesMembers | src/hdpjobs/SetCartesianProduct.java:329-332 | a citation is among the parsed ones exactly when some line parses to it |
| EntityMatchJob.OfSetMembers | src/hdpjobs/SetCartesianProduct.java:335-340 | a citation is in the selection of a set exactly when it is in the input and belongs to that set |
| EntityMatchJob.OfSetConcat | src/hdpjobs/SetCartesianProduct.java:335-340 | selecting a set distributes over concatenation |
| EntityMatchJob.ValuesForConcat | src/hdpjobs/SetCartesianProduct.java:347 | grouping by key distributes over concatenation |
| EntityMatchJob.EmitGroups | src/hdpjobs/SetCartesianProduct.java:329-347 | one parse result is written under the key of its set and under no other |
| EntityMatchJob.EmitAllGroups | src/hdpjobs/SetCartesianProduct.java:329-347 | the R group holds the set-R citations and the S group the set-S citations, in order; other keys are empty |
| EntityMatchJob.MapAllGroups | src/hdpjobs/SetCartesianProduct.java:328-348 | for the input lines: the R group is the parsed set-R citations and the S group the parsed set-S citations, in input order, and nothing else is written |
| EntityMatchJob.JobOutput | src/hdpjobs/SetCartesianProduct.java:361-389 | end to end: given the R group and then the S group, the reducer buffers the set-R citations under `1.1` and writes their join with the set-S citations |
| EntityMatchJob.JobPairs | src/hdpjobs/SetCartesianProduct.java:361-389 | the job writes (r, s) exactly when both parse from the input, r's id is all digits, s's id is not, and their years agree |
| EntityMatchJob.Render | src/hdpjobs/SetCartesianProduct.java:382 | one text record per pair |
| EntityMatchJob.RenderConcat | src/hdpjobs/SetCartesianProduct.java:382 | rendering two runs of pairs is rendering each, in order |
| EntityMatchJob.Match | src/hdpjobs/SetCartesianProduct.java:379-383 | at most the one pair (R, S), present exactly when the years agree |
| EntityMatchJob.WriteMatch | src/hdpjobs/SetCartesianProduct.java:379-383 | one inner iteration writes the text of the pair exactly when the year rule lets it through |
| EntityMatchJob.WriteMatches | src/hdpjobs/SetCartesianProduct.java:377-384 | the inner loop writes the texts of `MatchesOf(buffer, s)`, in buffer order |
| EntityMatchJob.BufferNext | src/hdpjobs/SetCartesianProduct.java:366-373 | appending value `i` after the values before it is appending the values up to `i` |
| EntityMatchJob.StreamNext | src/hdpjobs/SetCartesianProduct.java:375-386 | streaming value `i` after the values before it writes the texts of the join up to `i` |
| EntityMatchJob.EntityMatchReducer.constructor | src/hdpjobs/SetCartesianProduct.java:353 | a new reducer has no map |
| EntityMatchJob.EntityMatchReducer.Setup | src/hdpjobs/SetCartesianProduct.java:355-359 | creates an empty map when there is none and keeps an existing one |
| EntityMatchJob.EntityMatchReducer.BufferEntity | src/hdpjobs/SetCartesianProduct.java:366-373 | the R branch appends a clone of the citation to the cell's list, creating the list when absent |
| EntityMatchJob.EntityMatchReducer.StreamEntity | src/hdpjobs/SetCartesianProduct.java:375-386 | the S branch writes the texts of the citation's matches against the cell's list, or nothing when the cell has none |
| EntityMatchJob.EntityMatchReducer.Reduce | src/hdpjobs/SetCartesianProduct.java:361-389 | returns `false` and changes nothing exactly when `ReduceStep` throws; otherwise the new map and the appended records are those of `ReduceStep` |
| EntityMatchJob.RunReducer | src/hdpjobs/SetCartesianProduct.java:352-390 | a new reducer, once set up and given the mapper's R group and then its S group, succeeds on both calls and writes exactly the texts of the join of the parsed set-R citations with the parsed set-S citations |

## Left out

- `SetCartesianProduct.run` and `main`: job configuration, file paths and the exit code.
  They are the framework's configuration, not logic.
- `Citation.readFields` and `write`: Hadoop's binary serialization. A citation is a value here.
- `Citation.equals` and `hashCode`. `equals` compares the year objects by reference
  (line 130), which only object identity could model. The model's citations are compared by
  value.
- Shuffle, sort and partitioning. The model takes the values of one key in the order they
  were written, and it takes the R group before the S group (`MapperKeys` shows why one
  reducer sees that order). `JoinCount` is the statement that does not depend on value order.
  Several reducers, and the framework's own scheduling, are not modelled.
- The `X` and `Y` shard counts: both are the constant 1, so the only cell is `1.1`.
- `DroolsUtils` and `Labs` are not part of this model; they are not called from the job's
  core.
- The `System.out.println` logging in `parseCitation`'s exception handler.
- `Integer.parseInt` accepts Unicode decimal digits beyond ASCII. The model accepts ASCII
  digits only.
- `Text.compareTo` compares UTF-8 bytes and returns a difference of bytes or of byte
  lengths. The model compares code points and returns a difference of code points or of
  lengths. Code-point order is UTF-8 byte order, so the sign agrees on all text; only the
  magnitude differs.
- `null` inputs, such as a `null` record line or a `null` map when `reduce` runs before
  `setup`. `Reduce` requires `Setup` to have run, as the framework guarantees.
- Hadoop's reuse of one value object across iterations, which is why the code clones R
  citations. Citations are values here, so `Clone` is the identity.
