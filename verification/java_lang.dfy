/** The behaviour of the java.lang.String and java.lang.Integer operations that the job
    relies on. A Dafny `char` is a Unicode scalar value, so a string here is a sequence of
    code points (a Java string without unpaired surrogates). */
module JavaLang {
  import opened Optional

  /** Java's 32-bit `int`. */
  newtype int32 = x: int | -0x8000_0000 <= x < 0x8000_0000

  // ---------------------------------------------------------------- trim

  /** `String.trim` removes every character whose code is at most U+0020. */
  predicate IsBlank(c: char) { c <= ' ' }

  /** Drops the leading blanks: the result is a suffix of `s`. */
  function TrimLeft(s: string): (r: string)
    ensures |r| <= |s| && r == s[|s| - |r|..]
    ensures forall i :: 0 <= i < |s| - |r| ==> IsBlank(s[i])
    ensures r == [] || !IsBlank(r[0])
  {
    if |s| > 0 && IsBlank(s[0]) then
      var r := TrimLeft(s[1..]);
      assert s[1..][|s| - 1 - |r|..] == s[|s| - |r|..];
      assert forall i :: 1 <= i < |s| - |r| ==> s[i] == s[1..][i - 1];
      r
    else s
  }

  /** Drops the trailing blanks: the result is a prefix of `s`. */
  function TrimRight(s: string): (r: string)
    ensures |r| <= |s| && r == s[..|r|]
    ensures forall i :: |r| <= i < |s| ==> IsBlank(s[i])
    ensures r == [] || !IsBlank(r[|r| - 1])
  {
    if |s| > 0 && IsBlank(s[|s| - 1]) then TrimRight(s[..|s| - 1]) else s
  }

  /** `String.trim()`. */
  function Trim(s: string): (r: string)
    ensures |r| <= |s|
    ensures r == [] || (!IsBlank(r[0]) && !IsBlank(r[|r| - 1]))
  {
    TrimRight(TrimLeft(s))
  }

  /** A string that neither starts nor ends with a blank is left alone by `trim`. */
  lemma TrimKeeps(s: string)
    requires s == [] || (!IsBlank(s[0]) && !IsBlank(s[|s| - 1]))
    ensures Trim(s) == s
  {
  }

  /** `trim` is idempotent. */
  lemma TrimIdempotent(s: string)
    ensures Trim(Trim(s)) == Trim(s)
  {
    TrimKeeps(Trim(s));
  }

  /** `trim` only removes characters: a character absent from `s` is absent from `trim(s)`. */
  lemma TrimAbsent(s: string, c: char)
    requires c !in s
    ensures c !in Trim(s)
  {
    var l := TrimLeft(s);
    assert l == s[|s| - |l|..];
    assert c !in l by {
      forall i | 0 <= i < |l| ensures l[i] != c {
        assert l[i] == s[|s| - |l| + i];
      }
    }
    var r := TrimRight(l);
    assert r == l[..|r|];
    forall i | 0 <= i < |r| ensures r[i] != c {
      assert r[i] == l[i];
    }
  }

  // ---------------------------------------------------------------- replace

  /** `String.replace(String.valueOf(c), "")`: every occurrence of `c` is deleted and the
      other characters are kept, with their multiplicities. */
  function RemoveChar(s: string, c: char): (r: string)
    ensures c !in r
    ensures multiset(r) == multiset(s)[c := 0]
    ensures c !in s ==> r == s
  {
    if s == [] then []
    else
      assert s == [s[0]] + s[1..];
      (if s[0] == c then [] else [s[0]]) + RemoveChar(s[1..], c)
  }

  /** Deleting a character distributes over concatenation. */
  lemma {:induction false} RemoveCharConcat(a: string, b: string, c: char)
    ensures RemoveChar(a + b, c) == RemoveChar(a, c) + RemoveChar(b, c)
  {
    if a == [] {
      assert a + b == b;
    } else {
      var ab := a + b;
      assert ab[0] == a[0] && ab[1..] == a[1..] + b;
      RemoveCharConcat(a[1..], b, c);
      var h := if a[0] == c then [] else [a[0]];
      calc {
        RemoveChar(ab, c);
        h + RemoveChar(a[1..] + b, c);
        h + (RemoveChar(a[1..], c) + RemoveChar(b, c));
        (h + RemoveChar(a[1..], c)) + RemoveChar(b, c);
        RemoveChar(a, c) + RemoveChar(b, c);
      }
    }
  }

  // ---------------------------------------------------------------- indexOf / contains

  /** `d` occurs in `s` starting at index `i`. */
  predicate MatchAt(s: string, d: string, i: nat)
  {
    i + |d| <= |s| && s[i..i + |d|] == d
  }

  /** `String.indexOf(d, from)` for a non-empty `d`: the first occurrence at or after `from`. */
  function IndexOf(s: string, d: string, from: nat): (r: Option<nat>)
    requires |d| > 0
    decreases |s| - from
    ensures r.Some? ==> from <= r.value && MatchAt(s, d, r.value)
    ensures r.Some? ==> forall j :: from <= j < r.value ==> !MatchAt(s, d, j)
    ensures r.None? ==> forall j :: from <= j ==> !MatchAt(s, d, j)
  {
    if from + |d| > |s| then None
    else if s[from..from + |d|] == d then Some(from)
    else IndexOf(s, d, from + 1)
  }

  /** `String.contains(d)` for a non-empty `d`. */
  predicate Contains(s: string, d: string)
    requires |d| > 0
  {
    IndexOf(s, d, 0).Some?
  }

  /** `contains` holds exactly when `d` occurs somewhere in `s`. */
  lemma ContainsIff(s: string, d: string)
    requires |d| > 0
    ensures Contains(s, d) <==> exists i :: MatchAt(s, d, i)
  {
  }

  // ---------------------------------------------------------------- split

  /** The pieces of `s` between the successive leftmost non-overlapping occurrences of `d`,
      before any trailing empty piece is removed. */
  function Pieces(s: string, d: string): (r: seq<string>)
    requires |d| > 0
    decreases |s|
    ensures |r| >= 1
    ensures forall k, j :: 0 <= k < |r| ==> !MatchAt(r[k], d, j)
  {
    match IndexOf(s, d, 0)
    case None => [s]
    case Some(i) =>
      var rest := Pieces(s[i + |d|..], d);
      assert forall j :: !MatchAt(s[..i], d, j) by {
        forall j: nat | MatchAt(s[..i], d, j) ensures false {
          assert s[..i][j..j + |d|] == s[j..j + |d|];
          assert MatchAt(s, d, j);
        }
      }
      [s[..i]] + rest
  }

  /** The pieces joined back with the delimiter. */
  function JoinWith(parts: seq<string>, d: string): string
    requires |parts| >= 1
  {
    if |parts| == 1 then parts[0] else parts[0] + d + JoinWith(parts[1..], d)
  }

  /** Splitting loses nothing: joining the pieces with the delimiter gives `s` back. */
  lemma {:induction false} PiecesJoin(s: string, d: string)
    requires |d| > 0
    ensures JoinWith(Pieces(s, d), d) == s
    decreases |s|
  {
    var p := Pieces(s, d);
    match IndexOf(s, d, 0)
    case None =>
    case Some(i) =>
      var rest := s[i + |d|..];
      assert p == [s[..i]] + Pieces(rest, d);
      assert p[1..] == Pieces(rest, d);
      PiecesJoin(rest, d);
      assert JoinWith(p, d) == s[..i] + d + rest;
      assert s[i..i + |d|] == d;
      assert s == s[..i] + s[i..i + |d|] + rest;
  }

  /** Joining empty parts with a one-character delimiter gives a run of that character. */
  lemma {:induction false} JoinAllEmpty(parts: seq<string>, c: char)
    requires |parts| >= 1 && forall i :: 0 <= i < |parts| ==> parts[i] == []
    ensures forall i :: 0 <= i < |JoinWith(parts, [c])| ==> JoinWith(parts, [c])[i] == c
    decreases |parts|
  {
    if |parts| > 1 {
      assert forall i :: 0 <= i < |parts| - 1 ==> parts[1..][i] == parts[i + 1];
      JoinAllEmpty(parts[1..], c);
      assert JoinWith(parts, [c]) == [c] + JoinWith(parts[1..], [c]);
    }
  }

  /** Parts that end in empty parts join to the join of the leading parts followed by a run
      of the (one-character) delimiter. */
  lemma {:induction false} JoinTrailingEmpty(parts: seq<string>, m: nat, c: char)
    requires 1 <= m <= |parts|
    requires forall i :: m <= i < |parts| ==> parts[i] == []
    ensures var front := JoinWith(parts[..m], [c]);
      var all := JoinWith(parts, [c]);
      |front| <= |all| && all[..|front|] == front
      && forall i :: |front| <= i < |all| ==> all[i] == c
    decreases m
  {
    var all := JoinWith(parts, [c]);
    if m == |parts| {
      assert parts[..m] == parts;
    } else if m == 1 {
      assert forall i :: 0 <= i < |parts| - 1 ==> parts[1..][i] == parts[i + 1];
      JoinAllEmpty(parts[1..], c);
      assert parts[..1] == [parts[0]];
      assert all == parts[0] + ([c] + JoinWith(parts[1..], [c]));
    } else {
      var tail := parts[1..];
      assert forall i :: m - 1 <= i < |tail| ==> tail[i] == parts[i + 1];
      JoinTrailingEmpty(tail, m - 1, c);
      assert parts[..m][1..] == tail[..m - 1];
      var head := parts[0] + [c];
      assert all == head + JoinWith(tail, [c]);
      assert JoinWith(parts[..m], [c]) == head + JoinWith(tail[..m - 1], [c]);
    }
  }

  /** A string in which `d` does not occur is a single piece. */
  lemma PiecesNoMatch(s: string, d: string)
    requires |d| > 0
    requires forall j :: !MatchAt(s, d, j)
    ensures Pieces(s, d) == [s]
  {
  }

  /** When the first occurrence of `d` in `a + d + b` is the one right after `a`, the first
      piece is `a` and the rest is the split of `b`. */
  lemma PiecesAfter(a: string, d: string, b: string)
    requires |d| > 0
    requires forall j :: 0 <= j < |a| ==> !MatchAt(a + d + b, d, j)
    ensures Pieces(a + d + b, d) == [a] + Pieces(b, d)
  {
    var s := a + d + b;
    assert MatchAt(s, d, |a|) by { assert s[|a|..|a| + |d|] == d; }
    assert IndexOf(s, d, 0) == Some(|a|);
    assert s[..|a|] == a;
    assert s[|a| + |d|..] == b;
  }

  /** The trailing empty strings removed, as the zero-limit `split` does. */
  function DropTrailingEmpty(p: seq<string>): (r: seq<string>)
    ensures |r| <= |p| && r == p[..|r|]
    ensures r == [] || r[|r| - 1] != []
    ensures forall i :: |r| <= i < |p| ==> p[i] == []
  {
    if |p| > 0 && p[|p| - 1] == [] then DropTrailingEmpty(p[..|p| - 1]) else p
  }

  /** `String.split(d)` for a delimiter without regular-expression metacharacters: a string
      in which `d` never occurs is returned whole (even when empty); otherwise the pieces
      with trailing empty strings removed. */
  function Split(s: string, d: string): (r: seq<string>)
    requires |d| > 0
    ensures |r| <= |Pieces(s, d)| && r == Pieces(s, d)[..|r|]
    ensures forall k, j :: 0 <= k < |r| ==> !MatchAt(r[k], d, j)
    ensures |Pieces(s, d)| == 1 ==> r == Pieces(s, d)
    ensures |Pieces(s, d)| > 1 ==>
      && (r == [] || r[|r| - 1] != [])
      && forall i :: |r| <= i < |Pieces(s, d)| ==> Pieces(s, d)[i] == []
  {
    var p := Pieces(s, d);
    if |p| == 1 then p else DropTrailingEmpty(p)
  }

  /** Splitting on one character loses only trailing delimiters: the pieces joined back
      are the text up to a final run of that character. */
  lemma SplitRejoin(s: string, c: char)
    ensures var r := Split(s, [c]);
      var joined := if r == [] then "" else JoinWith(r, [c]);
      |joined| <= |s| && s[..|joined|] == joined
      && forall i :: |joined| <= i < |s| ==> s[i] == c
  {
    var r := Split(s, [c]);
    var pieces := Pieces(s, [c]);
    PiecesJoin(s, [c]);
    if r == [] {
      JoinAllEmpty(pieces, c);
    } else {
      JoinTrailingEmpty(pieces, |r|, c);
    }
  }

  // ---------------------------------------------------------------- lastIndexOf

  /** `String.lastIndexOf(c)`: the index of the last `c`, or -1 when there is none. */
  function LastIndexOf(s: string, c: char): (r: int)
    ensures -1 <= r < |s|
    ensures r >= 0 ==> s[r] == c
    ensures forall j :: r < j < |s| ==> s[j] != c
  {
    if s == [] then -1
    else if s[|s| - 1] == c then |s| - 1
    else LastIndexOf(s[..|s| - 1], c)
  }

  /** The last `c` of `a + [c] + b` is the one after `a` when `b` has none. */
  lemma {:induction false} LastIndexOfAfter(a: string, c: char, b: string)
    requires c !in b
    ensures LastIndexOf(a + [c] + b, c) == |a|
  {
    var s := a + [c] + b;
    if b != [] {
      var b' := b[..|b| - 1];
      assert s[|s| - 1] == b[|b| - 1] != c;
      assert s[..|s| - 1] == a + [c] + b';
      assert c !in b' by {
        forall j | 0 <= j < |b'| ensures b'[j] != c { assert b'[j] == b[j]; }
      }
      LastIndexOfAfter(a, c, b');
    }
  }

  // ---------------------------------------------------------------- Integer.parseInt / toString

  predicate IsAsciiDigit(c: char) { '0' <= c <= '9' }

  predicate AllDigits(s: string) { forall i :: 0 <= i < |s| ==> IsAsciiDigit(s[i]) }

  function DigitValue(c: char): nat
    requires IsAsciiDigit(c)
  {
    (c as int) - ('0' as int)
  }

  function DigitChar(n: nat): (c: char)
    requires n < 10
    ensures IsAsciiDigit(c) && DigitValue(c) == n
  {
    ('0' as int + n) as char
  }

  /** The value of a string of decimal digits, most significant first. */
  function DecimalValue(s: string): nat
    requires AllDigits(s)
  {
    if s == [] then 0 else DecimalValue(s[..|s| - 1]) * 10 + DigitValue(s[|s| - 1])
  }

  predicate IsSign(c: char) { c == '-' || c == '+' }

  /** The value of the digits, negated when the text starts with a minus sign. */
  function SignedValue(first: char, digits: string): int
    requires AllDigits(digits)
  {
    if first == '-' then -(DecimalValue(digits) as int) else DecimalValue(digits)
  }

  /** `Integer.parseInt(s)`: an optional sign followed by at least one decimal digit, whose
      value fits in 32 bits; anything else throws (here: `None`). */
  function ParseInt(s: string): (r: Option<int32>)
    ensures r.Some? ==> |s| > 0 && (IsSign(s[0]) || IsAsciiDigit(s[0]))
    ensures r.Some? ==> |s| > (if IsSign(s[0]) then 1 else 0)
    ensures r.Some? ==> forall i :: 0 < i < |s| ==> IsAsciiDigit(s[i])
    ensures r.Some? && s[0] == '-' ==> r.value <= 0
    ensures r.Some? && s[0] != '-' ==> r.value >= 0
    ensures |s| > 0 ==>
      var digits := if IsSign(s[0]) then s[1..] else s;
      (r.Some? <==> |digits| > 0 && AllDigits(digits)
                    && SignedValue(s[0], digits) < 0x8000_0000
                    && SignedValue(s[0], digits) >= -0x8000_0000)
    ensures r.Some? ==> r.value as int == SignedValue(s[0], if IsSign(s[0]) then s[1..] else s)
  {
    if |s| == 0 then None
    else
      var digits := if IsSign(s[0]) then s[1..] else s;
      if |digits| == 0 || !AllDigits(digits) then None
      else
        var v := SignedValue(s[0], digits);
        if -0x8000_0000 <= v < 0x8000_0000 then Some(v as int32) else None
  }

  /** The decimal text of a natural number, without leading zeros. */
  function NatToString(n: nat): (r: string)
    ensures |r| >= 1 && AllDigits(r)
    ensures DecimalValue(r) == n
    ensures r[0] == '0' ==> n == 0
  {
    if n < 10 then [DigitChar(n)]
    else
      var r := NatToString(n / 10) + [DigitChar(n % 10)];
      assert r[..|r| - 1] == NatToString(n / 10);
      r
  }

  /** `Integer.toString(n)`. */
  function IntToString(n: int): (r: string)
    ensures |r| >= 1
    ensures forall i :: 0 <= i < |r| ==> IsAsciiDigit(r[i]) || (i == 0 && r[i] == '-')
  {
    if n < 0 then "-" + NatToString(-n) else NatToString(n)
  }

  /** `Integer.parseInt` reads back what `Integer.toString` writes. */
  lemma ParseIntToString(n: int32)
    ensures ParseInt(IntToString(n as int)) == Some(n)
  {
    var s := IntToString(n as int);
    if n < 0 {
      assert s[1..] == NatToString(-(n as int));
    } else {
      assert !IsSign(s[0]);
    }
  }

  /** The text of a number holds no comma, quote, equals sign or blank. */
  lemma IntToStringChars(n: int)
    ensures ',' !in IntToString(n) && '"' !in IntToString(n) && '=' !in IntToString(n)
    ensures !IsBlank(IntToString(n)[0]) && !IsBlank(IntToString(n)[|IntToString(n)| - 1])
  {
    var s := IntToString(n);
    forall i | 0 <= i < |s| ensures s[i] != ',' && s[i] != '"' && s[i] != '=' && !IsBlank(s[i]) {
    }
  }

  // ---------------------------------------------------------------- compareTo

  /** Lexicographic comparison in the manner of Hadoop's `Text.compareTo`: the difference of
      the first differing code points, or else of the lengths. `Text` compares UTF-8 bytes,
      whose order is code-point order, so the sign of the result is the same. */
  function CompareText(a: string, b: string): (r: int)
    ensures r == 0 <==> a == b
  {
    if a == [] || b == [] then |a| - |b|
    else if a[0] != b[0] then (a[0] as int) - (b[0] as int)
    else
      assert a == [a[0]] + a[1..] && b == [b[0]] + b[1..];
      CompareText(a[1..], b[1..])
  }

  /** Swapping the operands negates the comparison. */
  lemma {:induction false} CompareTextAntisymmetric(a: string, b: string)
    ensures CompareText(a, b) == -CompareText(b, a)
  {
    if a != [] && b != [] && a[0] == b[0] {
      CompareTextAntisymmetric(a[1..], b[1..]);
    }
  }

  /** "Sorts before" is transitive. */
  lemma {:induction false} CompareTextTransitive(a: string, b: string, c: string)
    requires CompareText(a, b) < 0 && CompareText(b, c) < 0
    ensures CompareText(a, c) < 0
  {
    if a != [] && b != [] && c != [] && a[0] == b[0] && b[0] == c[0] {
      CompareTextTransitive(a[1..], b[1..], c[1..]);
    }
  }
}
