/** The job's mapper and reducer (`EntityMatchMapper.map`, `EntityMatchReducer.setup` and
    `reduce`), the output context they write to, and what one reducer writes for the whole
    input. */
module EntityMatchJob {
  import opened Optional
  import opened JavaLang
  import opened Citations
  import opened EntityRules
  import opened EntityJoin

  /** A task's output context: `write` appends a record to what the task has written. */
  class Context<T> {
    var written: seq<T>

    constructor ()
      ensures written == []
    {
      written := [];
    }

    method Write(record: T)
      modifies this
      ensures written == old(written) + [record]
    {
      written := written + [record];
    }
  }

  // ---------------------------------------------------------------- the mapper

  /** A map output record: a key and a citation. */
  type Keyed = (string, Citation)

  /** The mapper's `KEY_SEPARATOR`. */
  const KeySeparator: string := "."

  /** The key of R citations and the key of S citations: row block 1, column block 1. */
  const RKey: string := "1.1.R"
  const SKey: string := "1.1.S"

  /** What `map` writes for a parse result: nothing for a line that did not parse, else the
      citation under the key of its set. */
  function Emit(parsed: Option<Citation>): seq<Keyed>
  {
    match parsed
    case None => []
    case Some(entity) => [(if IsEntityOfSetR(entity) then RKey else SKey, entity)]
  }

  /** What `map` writes for one input line. */
  function MapOutput(entityRecord: string): seq<Keyed>
  {
    Emit(ParseCitation(entityRecord))
  }

  /** The key the mapper builds for a data source, `1.1.R` or `1.1.S`, starting from an empty
      string builder. */
  lemma MapKeyBuilt(dataSource: string)
    requires dataSource == "R" || dataSource == "S"
    ensures [] + IntToString(1) + KeySeparator + IntToString(1) + KeySeparator + dataSource
      == if dataSource == "R" then RKey else SKey
  {
    assert IntToString(1) == "1";
  }

  /** `EntityMatchMapper.map`: parse the line, pick the data source and build the key
      `1.1.<source>` with a string builder. */
  method Map(entityRecord: string, context: Context<Keyed>)
    modifies context
    ensures context.written == old(context.written) + MapOutput(entityRecord)
  {
    var entity := ParseCitation(entityRecord);
    if entity.None? {
      return;
    }
    var dataSource: string;
    if IsEntityOfSetR(entity.value) {
      dataSource := "R";
    } else {
      dataSource := "S";
    }
    var mapKey: string := [];
    mapKey := mapKey + IntToString(1) + KeySeparator;
    mapKey := mapKey + IntToString(1) + KeySeparator;
    mapKey := mapKey + dataSource;
    MapKeyBuilt(dataSource);
    context.Write((mapKey, entity.value));
  }

  /** A line either writes nothing (it does not parse) or exactly its citation, under the R
      key when the id is all digits and under the S key otherwise. */
  lemma MapOutputShape(entityRecord: string)
    ensures ParseCitation(entityRecord).None? <==> MapOutput(entityRecord) == []
    ensures ParseCitation(entityRecord).Some? ==>
      var entity := ParseCitation(entityRecord).value;
      MapOutput(entityRecord) == [(RKey, entity)] <==> AllDigits(entity.id)
    ensures ParseCitation(entityRecord).Some? ==>
      var entity := ParseCitation(entityRecord).value;
      MapOutput(entityRecord) == [(SKey, entity)] <==> !AllDigits(entity.id)
  {
    KeysDiffer();
  }

  /** `trim` leaves the cell name `1.1` alone. */
  lemma TrimCell()
    ensures Trim("1.1") == "1.1"
  {
    assert !IsBlank("1.1"[0]) && !IsBlank("1.1"[2]);
    TrimKeeps("1.1");
  }

  /** Both keys land in one cell, `1.1`. */
  lemma KeyCells()
    ensures ExtractReduceKey(RKey) == Some("1.1") && ExtractReduceKey(SKey) == Some("1.1")
  {
    assert RKey[..3] == "1.1";
    assert SKey[..3] == "1.1";
    TrimCell();
  }

  /** The two keys differ. */
  lemma KeysDiffer()
    ensures RKey != SKey
  {
    assert RKey[4] != SKey[4];
  }

  /** The R key holds the `.R` tag; the S key holds the `.S` tag and not the `.R` one. */
  lemma KeyTags()
    ensures Contains(RKey, RTag)
    ensures !Contains(SKey, RTag) && Contains(SKey, STag)
  {
    assert MatchAt(RKey, RTag, 3);
    assert MatchAt(SKey, STag, 3);
    forall j: nat ensures !MatchAt(SKey, RTag, j) {
      if j + 2 <= |SKey| {
        assert SKey[j..j + 2] == [SKey[j], SKey[j + 1]];
      }
    }
  }

  /** The two keys land in one cell, `1.1`; the R key is the one tagged `.R`, the S key is
      tagged `.S` only; and the R key sorts first, so a single reducer, which receives its
      keys in sorted order, buffers set R before it streams set S. */
  lemma MapperKeys()
    ensures ExtractReduceKey(RKey) == Some("1.1") && ExtractReduceKey(SKey) == Some("1.1")
    ensures Contains(RKey, RTag)
    ensures !Contains(SKey, RTag) && Contains(SKey, STag)
    ensures CompareText(RKey, SKey) < 0
  {
    KeyCells();
    KeyTags();
    KeyOrder();
  }

  /** `1.1.R` sorts before `1.1.S`. */
  lemma KeyOrder()
    ensures CompareText(RKey, SKey) < 0
  {
  }

  // ---------------------------------------------------------------- the whole input

  /** The parse result of every input line, in order. */
  function ParseAll(lines: seq<string>): seq<Option<Citation>>
  {
    seq(|lines|, i requires 0 <= i < |lines| => ParseCitation(lines[i]))
  }

  /** What `map` writes for a run of parse results, one after the other. */
  function EmitAll(parsed: seq<Option<Citation>>): seq<Keyed>
  {
    if parsed == [] then [] else EmitAll(parsed[..|parsed| - 1]) + Emit(parsed[|parsed| - 1])
  }

  /** What the mappers write for the input lines, line by line. */
  function MapAll(lines: seq<string>): seq<Keyed>
  {
    EmitAll(ParseAll(lines))
  }

  /** One more line adds what `map` writes for it. */
  lemma MapAllNext(lines: seq<string>, line: string)
    ensures MapAll(lines + [line]) == MapAll(lines) + MapOutput(line)
  {
    var p := ParseAll(lines + [line]);
    assert p[..|lines|] == ParseAll(lines);
    assert p[|lines|] == ParseCitation(line);
  }

  /** The citation of a parse result, if any. */
  function Found(parsed: Option<Citation>): seq<Citation>
  {
    match parsed
    case None => []
    case Some(c) => [c]
  }

  /** The citations of a run of parse results, in order. */
  function Somes(parsed: seq<Option<Citation>>): seq<Citation>
  {
    if parsed == [] then [] else Somes(parsed[..|parsed| - 1]) + Found(parsed[|parsed| - 1])
  }

  /** The citations of the lines that parse, in order. */
  function Parsed(lines: seq<string>): seq<Citation>
  {
    Somes(ParseAll(lines))
  }

  /** A citation is among the parsed ones exactly when some line parses to it. */
  lemma {:induction false} SomesMembers(parsed: seq<Option<Citation>>, c: Citation)
    ensures c in Somes(parsed) <==> Some(c) in parsed
    decreases |parsed|
  {
    if parsed != [] {
      var n := |parsed| - 1;
      SomesMembers(parsed[..n], c);
      assert parsed == parsed[..n] + [parsed[n]];
    }
  }

  /** The values written under `key`, in order: what the framework hands to the `reduce`
      call of that key (taking the values in the order they were written). */
  function ValuesFor(records: seq<Keyed>, key: string): seq<Citation>
  {
    if records == [] then []
    else
      var n := |records| - 1;
      ValuesFor(records[..n], key) + (if records[n].0 == key then [records[n].1] else [])
  }

  /** The citations of set R (`r`) or of set S (`!r`), in order. */
  function OfSet(citations: seq<Citation>, r: bool): seq<Citation>
  {
    if citations == [] then []
    else
      var n := |citations| - 1;
      OfSet(citations[..n], r) + (if IsEntityOfSetR(citations[n]) == r then [citations[n]] else [])
  }

  /** Every citation of a set belongs to it. */
  lemma {:induction false} OfSetMembers(citations: seq<Citation>, r: bool, c: Citation)
    ensures c in OfSet(citations, r) <==> c in citations && IsEntityOfSetR(c) == r
    decreases |citations|
  {
    if citations != [] {
      var n := |citations| - 1;
      OfSetMembers(citations[..n], r, c);
      assert citations == citations[..n] + [citations[n]];
    }
  }

  lemma {:induction false} OfSetConcat(a: seq<Citation>, b: seq<Citation>, r: bool)
    ensures OfSet(a + b, r) == OfSet(a, r) + OfSet(b, r)
    decreases |b|
  {
    if b != [] {
      var n := |b| - 1;
      assert (a + b)[..|a + b| - 1] == a + b[..n];
      assert (a + b)[|a + b| - 1] == b[n];
      OfSetConcat(a, b[..n], r);
      var last := if IsEntityOfSetR(b[n]) == r then [b[n]] else [];
      assert OfSet(a, r) + OfSet(b[..n], r) + last == OfSet(a, r) + (OfSet(b[..n], r) + last);
    } else {
      assert a + b == a;
    }
  }

  lemma {:induction false} ValuesForConcat(a: seq<Keyed>, b: seq<Keyed>, key: string)
    ensures ValuesFor(a + b, key) == ValuesFor(a, key) + ValuesFor(b, key)
    decreases |b|
  {
    if b != [] {
      var n := |b| - 1;
      assert (a + b)[..|a + b| - 1] == a + b[..n];
      assert (a + b)[|a + b| - 1] == b[n];
      ValuesForConcat(a, b[..n], key);
      var last := if b[n].0 == key then [b[n].1] else [];
      assert ValuesFor(a, key) + ValuesFor(b[..n], key) + last == ValuesFor(a, key) + (ValuesFor(b[..n], key) + last);
    } else {
      assert a + b == a;
    }
  }

  /** One parse result: its citation, if any, is written under the key of its set and under
      no other key. */
  lemma EmitGroups(parsed: Option<Citation>, key: string)
    ensures ValuesFor(Emit(parsed), RKey) == OfSet(Found(parsed), true)
    ensures ValuesFor(Emit(parsed), SKey) == OfSet(Found(parsed), false)
    ensures key != RKey && key != SKey ==> ValuesFor(Emit(parsed), key) == []
  {
    KeysDiffer();
    if parsed.Some? {
      assert Emit(parsed)[..0] == [];
      assert Found(parsed)[..0] == [];
    }
  }

  lemma {:induction false} EmitAllGroups(parsed: seq<Option<Citation>>, key: string)
    ensures ValuesFor(EmitAll(parsed), RKey) == OfSet(Somes(parsed), true)
    ensures ValuesFor(EmitAll(parsed), SKey) == OfSet(Somes(parsed), false)
    ensures key != RKey && key != SKey ==> ValuesFor(EmitAll(parsed), key) == []
    decreases |parsed|
  {
    if parsed != [] {
      var n := |parsed| - 1;
      EmitAllGroups(parsed[..n], key);
      EmitGroups(parsed[n], key);
      ValuesForConcat(EmitAll(parsed[..n]), Emit(parsed[n]), RKey);
      ValuesForConcat(EmitAll(parsed[..n]), Emit(parsed[n]), SKey);
      ValuesForConcat(EmitAll(parsed[..n]), Emit(parsed[n]), key);
      OfSetConcat(Somes(parsed[..n]), Found(parsed[n]), true);
      OfSetConcat(Somes(parsed[..n]), Found(parsed[n]), false);
    }
  }

  /** The R group holds the parsed set-R citations and the S group the parsed set-S
      citations, each in input order; nothing is written under any other key. */
  lemma MapAllGroups(lines: seq<string>, key: string)
    ensures ValuesFor(MapAll(lines), RKey) == OfSet(Parsed(lines), true)
    ensures ValuesFor(MapAll(lines), SKey) == OfSet(Parsed(lines), false)
    ensures key != RKey && key != SKey ==> ValuesFor(MapAll(lines), key) == []
  {
    EmitAllGroups(ParseAll(lines), key);
  }

  /** A single call is keyed by its key and holds its own values. */
  lemma OneCall(key: string, entities: seq<Citation>)
    ensures AllKeyed([(key, entities)], key) && Values([(key, entities)]) == entities
  {
    var calls: seq<Call> := [(key, entities)];
    assert calls[..0] == [];
  }

  /** Two calls in a row, as one sequence of calls. */
  lemma TwoCalls(first: Call, second: Call)
    ensures [first] + [second] == [first, second]
  {
  }

  /** End to end: one reducer that receives the R group and then the S group buffers the
      parsed set-R citations under the cell `1.1` and writes exactly the join of the parsed
      set-R citations with the parsed set-S citations. */
  lemma JobOutput(lines: seq<string>)
    ensures var rs := OfSet(Parsed(lines), true);
      var ss := OfSet(Parsed(lines), false);
      ReduceAll(map[], [(RKey, ValuesFor(MapAll(lines), RKey)), (SKey, ValuesFor(MapAll(lines), SKey))])
        == Done(AppendTo(map[], "1.1", rs), Join(rs, ss))
  {
    var rs := OfSet(Parsed(lines), true);
    var ss := OfSet(Parsed(lines), false);
    MapAllGroups(lines, RKey);
    MapperKeys();
    OneCall(RKey, rs);
    OneCall(SKey, ss);
    BufferThenStream(map[], RKey, SKey, "1.1", [(RKey, rs)], [(SKey, ss)]);
    TwoCalls((RKey, rs), (SKey, ss));
  }

  /** The pairs of the job's output: `(r, s)` is there exactly when `r` is a citation of the
      input with an all-digit id, `s` one without, and their years agree. */
  lemma JobPairs(lines: seq<string>, r: Citation, s: Citation)
    ensures CitationPair(r, s) in Join(OfSet(Parsed(lines), true), OfSet(Parsed(lines), false))
      <==> r in Parsed(lines) && AllDigits(r.id) && s in Parsed(lines) && !AllDigits(s.id)
           && r.year == s.year
  {
    JoinMembers(OfSet(Parsed(lines), true), OfSet(Parsed(lines), false), r, s);
    OfSetMembers(Parsed(lines), true, r);
    OfSetMembers(Parsed(lines), false, s);
  }

  // ---------------------------------------------------------------- the reducer

  /** The text records a reducer writes for these pairs: the text of each pair, in order. */
  function Render(pairs: seq<CitationPair>): (r: seq<string>)
    ensures |r| == |pairs|
  {
    seq(|pairs|, i requires 0 <= i < |pairs| => PairToString(pairs[i]))
  }

  /** Rendering is done pair by pair: rendering two runs of pairs is rendering each. */
  lemma RenderConcat(a: seq<CitationPair>, b: seq<CitationPair>)
    ensures Render(a + b) == Render(a) + Render(b)
  {
    forall i | 0 <= i < |a| + |b|
      ensures Render(a + b)[i] == (Render(a) + Render(b))[i]
    {
      if i < |a| {
        assert (a + b)[i] == a[i];
      } else {
        assert (a + b)[i] == b[i - |a|];
      }
    }
  }

  /** The pair an R citation forms with an S citation, if the year rule lets it through. */
  function Match(entityR: Citation, entity: Citation): (r: seq<CitationPair>)
    ensures r == [] || r == [CitationPair(entityR, entity)]
    ensures r != [] <==> entityR.year == entity.year
  {
    if AreSameEntities(entityR, entity) then [CitationPair(entityR, entity)] else []
  }

  /** The matches of one S citation against a buffer prefix one longer. */
  lemma MatchesOfNext(buffer: seq<Citation>, entity: Citation, j: nat)
    requires j < |buffer|
    ensures MatchesOf(buffer[..j + 1], entity) == MatchesOf(buffer[..j], entity) + Match(buffer[j], entity)
  {
    assert buffer[..j + 1][..j] == buffer[..j];
  }

  /** One turn of the inner loop of `reduce`: the pair of an R citation and an S citation is
      written, as text, when the year rule lets it through. */
  method WriteMatch(entityR: Citation, entity: Citation, context: Context<string>)
    modifies context
    ensures context.written == old(context.written) + Render(Match(entityR, entity))
  {
    var areSameEntities := AreSameEntities(entityR, entity);
    if areSameEntities {
      var entityPair := CitationPair(entityR, entity);
      context.Write(PairToString(entityPair));
      assert [entityPair][..0] == [];
    }
  }

  /** The inner loop of `reduce` for one S citation: every buffered R citation, in order,
      that passes the year rule is paired with it and the pair's text is written. */
  method WriteMatches(entitiesR: seq<Citation>, entity: Citation, context: Context<string>)
    modifies context
    ensures context.written == old(context.written) + Render(MatchesOf(entitiesR, entity))
  {
    ghost var w0 := context.written;
    var j := 0;
    while j < |entitiesR|
      invariant 0 <= j <= |entitiesR|
      invariant context.written == w0 + Render(MatchesOf(entitiesR[..j], entity))
    {
      var entityR := entitiesR[j];
      MatchesOfNext(entitiesR, entity, j);
      RenderConcat(MatchesOf(entitiesR[..j], entity), Match(entityR, entity));
      WriteMatch(entityR, entity, context);
      j := j + 1;
    }
    assert entitiesR[..j] == entitiesR;
  }

  /** Appending the values before index `i` and then value `i` is appending the values up
      to index `i`. */
  lemma BufferNext(m0: Buffers, cell: string, entities: seq<Citation>, i: nat)
    requires i < |entities|
    ensures AppendTo(AppendTo(m0, cell, entities[..i]), cell, [entities[i]])
      == AppendTo(m0, cell, entities[..i + 1])
  {
    assert entities[..i + 1] == entities[..i] + [entities[i]];
    AppendToTwice(m0, cell, entities[..i], [entities[i]]);
  }

  /** Streaming the values before index `i` and then value `i` writes the texts of the join
      of the values up to index `i`. */
  lemma StreamNext(buffer: seq<Citation>, entities: seq<Citation>, i: nat)
    requires i < |entities|
    ensures Render(Join(buffer, entities[..i + 1]))
      == Render(Join(buffer, entities[..i])) + Render(MatchesOf(buffer, entities[i]))
  {
    JoinLast(buffer, entities[..i + 1]);
    assert entities[..i + 1][..i] == entities[..i];
    RenderConcat(Join(buffer, entities[..i]), MatchesOf(buffer, entities[i]));
  }

  /** `EntityMatchReducer`: the map of buffered R citations lives in a field that outlasts
      the `reduce` calls of the task. */
  class EntityMatchReducer {
    var citationsSetR: Option<Buffers>

    /** A new reducer has no map yet. */
    constructor ()
      ensures citationsSetR == None
    {
      citationsSetR := None;
    }

    /** `setup`: creates an empty map, unless there already is one. */
    method Setup()
      modifies this
      ensures old(citationsSetR).None? ==> citationsSetR == Some(map[])
      ensures old(citationsSetR).Some? ==> citationsSetR == old(citationsSetR)
    {
      if citationsSetR.None? {
        citationsSetR := Some(map[]);
      }
    }

    /** The R branch of `reduce`: a clone of the citation is appended to the cell's list,
        which is created when the cell has none yet. */
    method BufferEntity(reducedKey: string, entity: Citation)
      requires citationsSetR.Some?
      modifies this
      ensures citationsSetR == Some(AppendTo(old(citationsSetR.value), reducedKey, [entity]))
    {
      var entries: seq<Citation>;
      if reducedKey in citationsSetR.value {
        entries := citationsSetR.value[reducedKey];
      } else {
        entries := [];
      }
      var entityClone := Clone(entity);
      entries := entries + [entityClone];
      citationsSetR := Some(citationsSetR.value[reducedKey := entries]);
    }

    /** The S branch of `reduce`: when the cell has a list, the citation is matched against
        it and the surviving pairs are written; otherwise nothing is written. */
    method StreamEntity(reducedKey: string, entity: Citation, context: Context<string>)
      requires citationsSetR.Some?
      modifies context
      ensures context.written
        == old(context.written) + Render(MatchesOf(BufferOf(citationsSetR.value, reducedKey), entity))
    {
      if reducedKey in citationsSetR.value {
        var entitiesR := citationsSetR.value[reducedKey];
        WriteMatches(entitiesR, entity, context);
      }
    }

    /** `reduce`: one call with a key and its values. It returns `false` when it throws (a
        key shorter than two characters with at least one value), having changed nothing;
        otherwise the map and the written records are those of `ReduceStep`. The framework
        calls `setup` before any `reduce`. */
    method Reduce(cartesianProductKey: string, entities: seq<Citation>, context: Context<string>)
      returns (ok: bool)
      requires citationsSetR.Some?
      modifies this, context
      ensures var step := ReduceStep(old(citationsSetR.value), cartesianProductKey, entities);
        && ok == step.Done?
        && (ok ==> citationsSetR == Some(step.buffers)
                   && context.written == old(context.written) + Render(step.emitted))
        && (!ok ==> citationsSetR == old(citationsSetR) && context.written == old(context.written))
    {
      ghost var m0 := citationsSetR.value;
      ghost var w0 := context.written;
      ghost var cell := if |cartesianProductKey| >= 2 then ExtractReduceKey(cartesianProductKey).value else [];
      ghost var isR := Contains(cartesianProductKey, RTag);
      ghost var isS := !isR && Contains(cartesianProductKey, STag);
      var i := 0;
      while i < |entities|
        invariant 0 <= i <= |entities|
        invariant citationsSetR.Some?
        invariant i > 0 ==> |cartesianProductKey| >= 2
        invariant isR ==> citationsSetR.value == AppendTo(m0, cell, entities[..i]) && context.written == w0
        invariant !isR ==> citationsSetR.value == m0
        invariant isS ==> context.written == w0 + Render(Join(BufferOf(m0, cell), entities[..i]))
        invariant !isR && !isS ==> context.written == w0
      {
        var entity := entities[i];
        var key := cartesianProductKey;
        var reducedKey := ExtractReduceKey(key);
        if reducedKey.None? {
          return false;
        }
        if Contains(key, RTag) {
          BufferNext(m0, cell, entities, i);
          BufferEntity(reducedKey.value, entity);
        } else if Contains(key, STag) {
          StreamNext(BufferOf(m0, cell), entities, i);
          Assoc(w0, Render(Join(BufferOf(m0, cell), entities[..i])), Render(MatchesOf(BufferOf(m0, cell), entity)));
          StreamEntity(reducedKey.value, entity, context);
        }
        i := i + 1;
      }
      assert entities[..i] == entities;
      if entities != [] {
        if isR {
          ReduceStepR(m0, cartesianProductKey, cell, entities);
        } else if isS {
          ReduceStepS(m0, cartesianProductKey, cell, entities);
        }
      }
      ok := true;
    }
  }

  /** The reduce side of the job as the framework drives it: a new reducer is set up, then
      receives the mapper's R group and then its S group, writing to one context. Both
      calls succeed, and what is written is exactly the texts of the join of the parsed
      set-R citations with the parsed set-S citations (whose pairs `JobPairs` describes). */
  method RunReducer(lines: seq<string>) returns (okR: bool, okS: bool, written: seq<string>)
    ensures okR && okS
    ensures written == Render(Join(OfSet(Parsed(lines), true), OfSet(Parsed(lines), false)))
  {
    var records := MapAll(lines);
    var groupR := ValuesFor(records, RKey);
    var groupS := ValuesFor(records, SKey);
    var reducer := new EntityMatchReducer();
    reducer.Setup();
    var context := new Context<string>();
    okR := reducer.Reduce(RKey, groupR, context);
    okS := reducer.Reduce(SKey, groupS, context);
    written := context.written;
    MapperKeys();
    MapAllGroups(lines, RKey);
    ReduceStepR(map[], RKey, "1.1", groupR);
    ReduceStepS(AppendTo(map[], "1.1", groupR), SKey, "1.1", groupS);
    assert BufferOf(map[], "1.1") + groupR == groupR;
  }
}
