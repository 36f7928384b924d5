/** What one `reduce` call of the job computes, as a function of the buffered R citations:
    the buffer-then-stream join of set R with set S under the year rule. */
module EntityJoin {
  import opened Optional
  import opened JavaLang
  import opened Citations
  import opened EntityRules

  /** The reducer's `citationsSetR`: for each cell, the R citations seen so far, in order. */
  type Buffers = map<string, seq<Citation>>

  /** The R citations buffered for a cell; none when the cell has no list yet. */
  function BufferOf(buffers: Buffers, cell: string): seq<Citation>
  {
    if cell in buffers then buffers[cell] else []
  }

  /** The map after appending `entities` to the list of `cell`. The list is created (and the
      map written) only when there is at least one entity. */
  function AppendTo(buffers: Buffers, cell: string, entities: seq<Citation>): (r: Buffers)
    ensures BufferOf(r, cell) == BufferOf(buffers, cell) + entities
    ensures forall other :: other != cell ==> BufferOf(r, other) == BufferOf(buffers, other)
    ensures r.Keys == if entities == [] then buffers.Keys else buffers.Keys + {cell}
  {
    if entities == [] then buffers else buffers[cell := BufferOf(buffers, cell) + entities]
  }

  /** Appending in two steps is appending once. */
  lemma AppendToTwice(buffers: Buffers, cell: string, first: seq<Citation>, second: seq<Citation>)
    ensures AppendTo(AppendTo(buffers, cell, first), cell, second)
      == AppendTo(buffers, cell, first + second)
  {
    if first == [] {
      assert first + second == second;
    } else if second == [] {
      assert first + second == first;
    } else {
      assert BufferOf(buffers, cell) + first + second == BufferOf(buffers, cell) + (first + second);
    }
  }

  /** The pairs one S citation forms with a buffer of R citations: every buffered citation
      with the same year, in buffer order. */
  function MatchesOf(buffer: seq<Citation>, entity: Citation): (r: seq<CitationPair>)
    ensures |r| <= |buffer|
  {
    if buffer == [] then []
    else
      var last := buffer[|buffer| - 1];
      var rest := MatchesOf(buffer[..|buffer| - 1], entity);
      rest + (if AreSameEntities(last, entity) then [CitationPair(last, entity)] else [])
  }

  /** The pairs a stream of S citations forms with a buffer: for each S citation in order,
      its matches in buffer order. */
  function Join(buffer: seq<Citation>, entities: seq<Citation>): seq<CitationPair>
  {
    if entities == [] then []
    else
      var n := |entities| - 1;
      var rest := Join(buffer, entities[..n]);
      var last := MatchesOf(buffer, entities[n]);
      rest + last
  }

  /** At most one pair per (buffered, streamed) couple. */
  lemma {:induction false} JoinLength(buffer: seq<Citation>, entities: seq<Citation>)
    ensures |Join(buffer, entities)| <= |buffer| * |entities|
    decreases |entities|
  {
    if entities != [] {
      var n := |entities| - 1;
      JoinLength(buffer, entities[..n]);
      Distribute(|buffer|, n);
    }
  }

  /** The join of a non-empty stream ends with the matches of its last citation. */
  lemma JoinLast(buffer: seq<Citation>, entities: seq<Citation>)
    requires entities != []
    ensures Join(buffer, entities)
      == Join(buffer, entities[..|entities| - 1]) + MatchesOf(buffer, entities[|entities| - 1])
  {
  }

  /** Concatenation is associative; stated once so that large proofs can use it as a
      single step instead of re-deriving it among many other facts. */
  lemma Assoc<T>(a: seq<T>, b: seq<T>, c: seq<T>)
    ensures a + b + c == a + (b + c)
  {
  }

  /** Joining a stream in two parts is joining each part, in order. */
  lemma {:induction false} JoinConcat(buffer: seq<Citation>, first: seq<Citation>, second: seq<Citation>)
    ensures Join(buffer, first + second) == Join(buffer, first) + Join(buffer, second)
    decreases |second|
  {
    if second == [] {
      assert first + second == first;
    } else {
      var n := |second| - 1;
      var all := first + second;
      JoinLast(buffer, all);
      assert all[..|all| - 1] == first + second[..n];
      assert all[|all| - 1] == second[n];
      JoinLast(buffer, second);
      JoinConcat(buffer, first, second[..n]);
      Assoc(Join(buffer, first), Join(buffer, second[..n]), MatchesOf(buffer, second[n]));
    }
  }

  /** An empty buffer matches nothing. */
  lemma {:induction false} JoinEmptyBuffer(entities: seq<Citation>)
    ensures Join([], entities) == []
    decreases |entities|
  {
    if entities != [] {
      JoinEmptyBuffer(entities[..|entities| - 1]);
    }
  }

  /** How many times a pair occurs among the matches of one S citation. */
  lemma {:induction false} MatchesOfCount(buffer: seq<Citation>, entity: Citation, p: CitationPair)
    ensures multiset(MatchesOf(buffer, entity))[p]
      == if p.entityB == entity && p.entityA.year == entity.year then multiset(buffer)[p.entityA] else 0
    decreases |buffer|
  {
    if buffer != [] {
      var init := buffer[..|buffer| - 1];
      var last := buffer[|buffer| - 1];
      MatchesOfCount(init, entity, p);
      CountLast(buffer, p.entityA);
    }
  }

  /** The join is the year-filtered cartesian product, multiplicities included: the pair
      `(r, s)` occurs as often as `r` occurs in the buffer times `s` occurs in the stream
      when their years agree, and never otherwise. */
  lemma {:induction false} JoinCount(buffer: seq<Citation>, entities: seq<Citation>, r: Citation, s: Citation)
    ensures multiset(Join(buffer, entities))[CitationPair(r, s)]
      == if r.year == s.year then multiset(buffer)[r] * multiset(entities)[s] else 0
    decreases |entities|
  {
    var p := CitationPair(r, s);
    var a := multiset(buffer)[r];
    if entities == [] {
      assert multiset(entities)[s] == 0;
      Distribute(a, 0);
    } else {
      var n := |entities| - 1;
      var init := entities[..n];
      var last := entities[n];
      var b := multiset(init)[s];
      JoinCount(buffer, init, r, s);
      MatchesOfCount(buffer, last, p);
      JoinLast(buffer, entities);
      CountLast(entities, s);
      var count := multiset(Join(buffer, entities))[p];
      assert count == multiset(Join(buffer, init))[p] + multiset(MatchesOf(buffer, last))[p];
      if r.year != s.year {
        assert count == 0;
      } else if last == s {
        Distribute(a, b);
        assert count == a * b + a;
      } else {
        assert count == a * b;
      }
    }
  }

  /** The count of `x` in a non-empty sequence: its count before the last element, plus one
      if the last element is `x`. */
  lemma CountLast<T>(s: seq<T>, x: T)
    requires s != []
    ensures multiset(s)[x] == multiset(s[..|s| - 1])[x] + (if s[|s| - 1] == x then 1 else 0)
  {
    assert s == s[..|s| - 1] + [s[|s| - 1]];
  }

  lemma Distribute(a: nat, b: nat)
    ensures a * (b + 1) == a * b + a
    ensures a * 0 == 0
  {
  }

  lemma PositiveProduct(a: nat, b: nat)
    ensures a * b > 0 <==> a > 0 && b > 0
  {
    if a > 0 && b > 0 {
      assert a * b >= b;
    }
  }

  /** Every buffered R citation and every streamed S citation with the same year meet in
      the join, and only those. */
  lemma JoinMembers(buffer: seq<Citation>, entities: seq<Citation>, r: Citation, s: Citation)
    ensures CitationPair(r, s) in Join(buffer, entities)
      <==> r in buffer && s in entities && r.year == s.year
  {
    JoinCount(buffer, entities, r, s);
    PositiveProduct(multiset(buffer)[r], multiset(entities)[s]);
  }

  // ---------------------------------------------------------------- one reduce call

  /** The result of a `reduce` call: it threw, or it left a new map and wrote these pairs. */
  datatype Outcome = Thrown | Done(buffers: Buffers, emitted: seq<CitationPair>)

  /** The tag an R key carries. */
  const RTag: string := ".R"

  /** The tag an S key carries. */
  const STag: string := ".S"

  /** `EntityMatchReducer.reduce` for one key and its values, from the map `buffers`:
      - no value: nothing happens (the key is never looked at);
      - a key shorter than two characters: `extractReduceKey` throws on the first value;
      - a key containing `.R`: copies of the values are appended to the cell's list;
      - otherwise a key containing `.S`: each value is paired, in order, with every buffered
        R citation of the cell that has the same year, if the cell has a list;
      - any other key: nothing happens. */
  function ReduceStep(buffers: Buffers, key: string, entities: seq<Citation>): (r: Outcome)
    ensures r.Thrown? <==> entities != [] && |key| < 2
    ensures r.Done? && Contains(key, RTag) ==> r.emitted == []
    ensures r.Done? && !(Contains(key, RTag) && entities != []) ==> r.buffers == buffers
  {
    if entities == [] then Done(buffers, [])
    else
      match ExtractReduceKey(key)
      case None => Thrown
      case Some(cell) =>
        if Contains(key, RTag) then Done(AppendTo(buffers, cell, entities), [])
        else if Contains(key, STag) then
          Done(buffers, if cell in buffers then Join(buffers[cell], entities) else [])
        else Done(buffers, [])
  }

  /** A call on an R key appends copies of its values to the cell's list (creating it when
      absent, and only when there is a value) and emits nothing. */
  lemma ReduceStepR(buffers: Buffers, key: string, cell: string, entities: seq<Citation>)
    requires ExtractReduceKey(key) == Some(cell) && Contains(key, RTag)
    ensures ReduceStep(buffers, key, entities) == Done(AppendTo(buffers, cell, entities), [])
  {
  }

  /** A call on an S key emits the join of the cell's buffer (empty when the cell has none)
      with its values. */
  lemma ReduceStepS(buffers: Buffers, key: string, cell: string, entities: seq<Citation>)
    requires ExtractReduceKey(key) == Some(cell)
    requires !Contains(key, RTag) && Contains(key, STag)
    ensures ReduceStep(buffers, key, entities) == Done(buffers, Join(BufferOf(buffers, cell), entities))
  {
    if cell !in buffers {
      JoinEmptyBuffer(entities);
    }
  }

  // ---------------------------------------------------------------- a run of reduce calls

  /** A reduce call: the key and its values. */
  type Call = (string, seq<Citation>)

  /** The calls one reducer receives, applied in order to the map: the first throw ends the
      run; otherwise the map carries over and the written pairs accumulate. */
  function ReduceAll(buffers: Buffers, calls: seq<Call>): Outcome
  {
    if calls == [] then Done(buffers, [])
    else
      var n := |calls| - 1;
      match ReduceAll(buffers, calls[..n])
      case Thrown => Thrown
      case Done(m, out) =>
        match ReduceStep(m, calls[n].0, calls[n].1)
        case Thrown => Thrown
        case Done(m', out') => Done(m', out + out')
  }

  /** Every call has this key. */
  predicate AllKeyed(calls: seq<Call>, key: string)
  {
    forall i :: 0 <= i < |calls| ==> calls[i].0 == key
  }

  /** The calls before the last one, and the last one, have the key of all of them. */
  lemma AllKeyedInit(calls: seq<Call>, key: string)
    requires calls != [] && AllKeyed(calls, key)
    ensures AllKeyed(calls[..|calls| - 1], key) && calls[|calls| - 1].0 == key
  {
    var n := |calls| - 1;
    forall i | 0 <= i < n ensures calls[..n][i].0 == key {
      assert calls[..n][i] == calls[i];
    }
  }

  /** The values of the calls, one call after the other. */
  function Values(calls: seq<Call>): seq<Citation>
  {
    if calls == [] then [] else Values(calls[..|calls| - 1]) + calls[|calls| - 1].1
  }

  /** Running two batches of calls is running the first and then the second from where it
      left the map. */
  lemma {:induction false} ReduceAllConcat(buffers: Buffers, first: seq<Call>, second: seq<Call>)
    ensures ReduceAll(buffers, first + second)
      == match ReduceAll(buffers, first)
         case Thrown => Thrown
         case Done(m, out) =>
           match ReduceAll(m, second)
           case Thrown => Thrown
           case Done(m', out') => Done(m', out + out')
    decreases |second|
  {
    if second == [] {
      assert first + second == first;
    } else {
      var n := |second| - 1;
      var all := first + second;
      assert all[..|all| - 1] == first + second[..n];
      assert all[|all| - 1] == second[n];
      ReduceAllConcat(buffers, first, second[..n]);
      match ReduceAll(buffers, first)
      case Thrown =>
      case Done(m, out) =>
        match ReduceAll(m, second[..n])
        case Thrown =>
        case Done(m1, out1) =>
          match ReduceStep(m1, second[n].0, second[n].1)
          case Thrown =>
          case Done(m2, out2) =>
            Assoc(out, out1, out2);
    }
  }

  /** The R phase: calls on an R key of a cell append all their values, in order, to that
      cell's list and write nothing. */
  lemma {:induction false} RPhase(buffers: Buffers, key: string, cell: string, calls: seq<Call>)
    requires ExtractReduceKey(key) == Some(cell) && Contains(key, RTag)
    requires AllKeyed(calls, key)
    ensures ReduceAll(buffers, calls) == Done(AppendTo(buffers, cell, Values(calls)), [])
    decreases |calls|
  {
    if calls != [] {
      var n := |calls| - 1;
      AllKeyedInit(calls, key);
      RPhase(buffers, key, cell, calls[..n]);
      var m := AppendTo(buffers, cell, Values(calls[..n]));
      ReduceStepR(m, key, cell, calls[n].1);
      AppendToTwice(buffers, cell, Values(calls[..n]), calls[n].1);
    }
  }

  /** The S phase: calls on an S key of a cell leave the map alone and write the join of the
      cell's buffer with all their values. */
  lemma {:induction false} SPhase(buffers: Buffers, key: string, cell: string, calls: seq<Call>)
    requires ExtractReduceKey(key) == Some(cell) && !Contains(key, RTag) && Contains(key, STag)
    requires AllKeyed(calls, key)
    ensures ReduceAll(buffers, calls) == Done(buffers, Join(BufferOf(buffers, cell), Values(calls)))
    decreases |calls|
  {
    if calls != [] {
      var n := |calls| - 1;
      AllKeyedInit(calls, key);
      SPhase(buffers, key, cell, calls[..n]);
      ReduceStepS(buffers, key, cell, calls[n].1);
      JoinConcat(BufferOf(buffers, cell), Values(calls[..n]), calls[n].1);
    }
  }

  /** Buffer then stream: when every R call of a cell comes before its S calls, the reducer
      writes exactly the join of everything buffered for the cell (what was there before and
      all R values, in order) with all S values, in order. */
  lemma BufferThenStream(buffers: Buffers, rKey: string, sKey: string, cell: string,
                         rCalls: seq<Call>, sCalls: seq<Call>)
    requires ExtractReduceKey(rKey) == Some(cell) && Contains(rKey, RTag)
    requires ExtractReduceKey(sKey) == Some(cell) && !Contains(sKey, RTag) && Contains(sKey, STag)
    requires AllKeyed(rCalls, rKey) && AllKeyed(sCalls, sKey)
    ensures ReduceAll(buffers, rCalls + sCalls)
      == Done(AppendTo(buffers, cell, Values(rCalls)),
              Join(BufferOf(buffers, cell) + Values(rCalls), Values(sCalls)))
  {
    ReduceAllConcat(buffers, rCalls, sCalls);
    RPhase(buffers, rKey, cell, rCalls);
    var m := AppendTo(buffers, cell, Values(rCalls));
    SPhase(m, sKey, cell, sCalls);
    assert [] + Join(BufferOf(m, cell), Values(sCalls)) == Join(BufferOf(m, cell), Values(sCalls));
  }
}
