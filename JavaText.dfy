/**
 * The pieces of Java's string library that the list codecs lean on:
 * `String.split(",")`, joining with a separator, and the two emptiness
 * guards (`isNotEmpty` and Apache Commons' `isNotBlank` / `isNoneBlank`).
 */
module JavaText {

  /** The separator of every list column. */
  const Comma: char := ','

  /** Splits `s` at every occurrence of `sep`, keeping every piece, empty ones included. */
  function SplitAll(s: string, sep: char): (r: seq<string>)
    ensures |r| >= 1
    ensures forall i :: 0 <= i < |r| ==> sep !in r[i]
  {
    if s == [] then [[]]
    else
      var rest := SplitAll(s[1..], sep);
      if s[0] == sep then [[]] + rest else [[s[0]] + rest[0]] + rest[1..]
  }

  /** Removes the empty pieces at the end of `ps`, as `String.split` does with limit 0. */
  function DropTrailingEmpty(ps: seq<string>): (r: seq<string>)
    ensures |r| <= |ps| && r == ps[..|r|]
    ensures r == [] || r[|r| - 1] != []
    ensures forall i :: |r| <= i < |ps| ==> ps[i] == []
  {
    if ps == [] then []
    else if ps[|ps| - 1] == [] then DropTrailingEmpty(ps[..|ps| - 1])
    else ps
  }

  /**
   * Java's `s.split(",")`: a string with no comma comes back as itself (so the
   * empty string gives one empty piece); otherwise the pieces between commas,
   * with trailing empty pieces removed.
   */
  function Split(s: string): (r: seq<string>)
    ensures forall i :: 0 <= i < |r| ==> Comma !in r[i]
    ensures s != [] ==> r == [] || r[|r| - 1] != []
  {
    if s == [] then [[]] else DropTrailingEmpty(SplitAll(s, Comma))
  }

  /** Joins `ps` with `sep` between consecutive pieces (`String.join`, `StringUtils.join`). */
  function Join(ps: seq<string>, sep: char): string
  {
    if |ps| == 0 then []
    else if |ps| == 1 then ps[0]
    else Join(ps[..|ps| - 1], sep) + [sep] + ps[|ps| - 1]
  }

  /** `Character.isWhitespace`, which `StringUtils.isBlank` applies to every character. */
  predicate IsWhitespace(c: char)
  {
    var n := c as int;
    (9 <= n <= 13) || (28 <= n <= 32) || n == 0x1680 || (0x2000 <= n <= 0x2006)
    || (0x2008 <= n <= 0x200A) || n == 0x2028 || n == 0x2029 || n == 0x205F || n == 0x3000
  }

  /** `StringUtils.isBlank` on a non-null string: empty or whitespace only. */
  predicate IsBlank(s: string)
  {
    forall i :: 0 <= i < |s| ==> IsWhitespace(s[i])
  }

  /** The guard a decoder applies before splitting. */
  datatype Check =
    | IsNotEmpty   // StringVerificationUtil.isNotEmpty, taken to mean "length > 0"
    | IsNotBlank   // StringUtils.isNotBlank, and isNoneBlank of a single string

  /** Whether the guard lets the (non-null) column text through to the splitter. */
  predicate Admits(check: Check, s: string)
  {
    match check
    case IsNotEmpty => |s| > 0
    case IsNotBlank => !IsBlank(s)
  }

  /** A text the blank guard admits is admitted by the emptiness guard too. */
  lemma NotBlankImpliesNotEmpty(s: string)
    ensures Admits(IsNotBlank, s) ==> Admits(IsNotEmpty, s)
  {
  }

  /** The two guards disagree exactly on non-empty whitespace-only text. */
  lemma GuardsDisagreeOnlyOnWhitespace(s: string)
    ensures Admits(IsNotEmpty, s) != Admits(IsNotBlank, s) <==> |s| > 0 && IsBlank(s)
  {
  }

  /** Text with a comma in it is never blank. */
  lemma CommaIsNotBlank(s: string)
    requires Comma in s
    ensures !IsBlank(s)
  {
    var i :| 0 <= i < |s| && s[i] == Comma;
    assert !IsWhitespace(s[i]);
  }

  /** Joining with a piece added at the front. */
  lemma {:induction false} JoinCons(p: string, ps: seq<string>, sep: char)
    ensures Join([p] + ps, sep) == if ps == [] then p else p + [sep] + Join(ps, sep)
    decreases |ps|
  {
    if |ps| >= 2 {
      var q := [p] + ps;
      var init, last := ps[..|ps| - 1], ps[|ps| - 1];
      assert q[..|q| - 1] == [p] + init;
      assert q[|q| - 1] == last;
      JoinCons(p, init, sep);
      var j := Join(init, sep);
      assert Join(q, sep) == (p + [sep] + j) + [sep] + last;
      assert Join(ps, sep) == j + [sep] + last;
      assert (p + [sep] + j) + [sep] + last == p + [sep] + (j + [sep] + last);
    } else if |ps| == 1 {
      assert ([p] + ps)[..1] == [p];
    }
  }

  /** Joining with a piece added at the end. */
  lemma JoinSnoc(ps: seq<string>, p: string, sep: char)
    ensures Join(ps + [p], sep) == if ps == [] then p else Join(ps, sep) + [sep] + p
  {
    assert (ps + [p])[..|ps|] == ps;
  }

  /** Two or more pieces always produce a separator. */
  lemma {:induction false} JoinHasSeparator(ps: seq<string>, sep: char)
    requires |ps| >= 2
    ensures sep in Join(ps, sep)
  {
    var j := Join(ps[..|ps| - 1], sep);
    assert Join(ps, sep) == j + [sep] + ps[|ps| - 1];
    assert Join(ps, sep)[|j|] == sep;
  }

  /** The joined text is empty exactly when there is nothing to join or one empty piece. */
  lemma JoinIsEmpty(ps: seq<string>, sep: char)
    ensures Join(ps, sep) == [] <==> |ps| == 0 || (|ps| == 1 && ps[0] == [])
  {
    if |ps| >= 2 {
      JoinHasSeparator(ps, sep);
    }
  }

  /** A piece without separators splits to itself alone. */
  lemma {:induction false} SplitAllSingle(s: string, sep: char)
    requires sep !in s
    ensures SplitAll(s, sep) == [s]
  {
    if s != [] {
      assert sep !in s[1..];
      SplitAllSingle(s[1..], sep);
      assert [s[0]] + s[1..] == s;
    }
  }

  /** Splitting `a`, a separator and a separator-free `b` gives the pieces of `a`, then `b`. */
  lemma {:induction false} SplitAllSnoc(a: string, b: string, sep: char)
    requires sep !in b
    ensures SplitAll(a + [sep] + b, sep) == SplitAll(a, sep) + [b]
    decreases |a|
  {
    var s := a + [sep] + b;
    if a == [] {
      assert s == [sep] + b && s[1..] == b;
      SplitAllSingle(b, sep);
    } else {
      assert s[0] == a[0] && s[1..] == a[1..] + [sep] + b;
      SplitAllSnoc(a[1..], b, sep);
    }
  }

  /** Splitting a join of separator-free pieces recovers the pieces. */
  lemma {:induction false} SplitAllJoin(ps: seq<string>, sep: char)
    requires |ps| >= 1
    requires forall i :: 0 <= i < |ps| ==> sep !in ps[i]
    ensures SplitAll(Join(ps, sep), sep) == ps
    decreases |ps|
  {
    if |ps| == 1 {
      SplitAllSingle(ps[0], sep);
    } else {
      var init := ps[..|ps| - 1];
      SplitAllJoin(init, sep);
      SplitAllSnoc(Join(init, sep), ps[|ps| - 1], sep);
      assert init + [ps[|ps| - 1]] == ps;
    }
  }

  /** Putting a character in front of the first piece puts it in front of the join. */
  lemma JoinExtendHead(c: char, ps: seq<string>, sep: char)
    requires |ps| >= 1
    ensures Join([[c] + ps[0]] + ps[1..], sep) == [c] + Join(ps, sep)
  {
    var head, tail := ps[0], ps[1..];
    assert ps == [head] + tail;
    if tail == [] {
      assert Join([[c] + head], sep) == [c] + head;
    } else {
      JoinCons(head, tail, sep);
      JoinCons([c] + head, tail, sep);
      var j := Join(tail, sep);
      assert [c] + (head + [sep] + j) == ([c] + head) + [sep] + j;
    }
  }

  /** Joining the pieces of a split with the same separator gives back the text. */
  lemma {:induction false} JoinSplitAll(s: string, sep: char)
    ensures Join(SplitAll(s, sep), sep) == s
    decreases |s|
  {
    if s != [] {
      var t := s[1..];
      var rest := SplitAll(t, sep);
      assert s == [s[0]] + t;
      JoinSplitAll(t, sep);
      if s[0] == sep {
        assert SplitAll(s, sep) == [[]] + rest;
        JoinCons([], rest, sep);
      } else {
        assert SplitAll(s, sep) == [[s[0]] + rest[0]] + rest[1..];
        JoinExtendHead(s[0], rest, sep);
      }
    }
  }

  /**
   * Java's split of a non-empty join of comma-free pieces gives the pieces back,
   * less the empty ones at the end.
   */
  lemma SplitJoin(ps: seq<string>)
    requires |ps| >= 1
    requires forall i :: 0 <= i < |ps| ==> Comma !in ps[i]
    requires Join(ps, Comma) != []
    ensures Split(Join(ps, Comma)) == DropTrailingEmpty(ps)
  {
    SplitAllJoin(ps, Comma);
  }

  /** Dropping trailing empties keeps the list when, and only when, its last piece is non-empty. */
  lemma DropTrailingEmptyKeeps(ps: seq<string>)
    ensures DropTrailingEmpty(ps) == ps <==> ps == [] || ps[|ps| - 1] != []
  {
  }

  /** A non-empty comma-free text splits to itself alone. */
  lemma SplitOfCommaFree(s: string)
    requires s != [] && Comma !in s
    ensures Split(s) == [s]
  {
    SplitAllSingle(s, Comma);
  }

  /**
   * Joining a list with its trailing empty pieces dropped gives a prefix of the
   * full join, and what is cut off is separators only.
   */
  lemma {:induction false} DropTrailingEmptyJoin(ps: seq<string>, sep: char)
    ensures var j, k := Join(DropTrailingEmpty(ps), sep), Join(ps, sep);
      |j| <= |k| && k[..|j|] == j && forall i :: |j| <= i < |k| ==> k[i] == sep
    decreases |ps|
  {
    if ps != [] && ps[|ps| - 1] == [] {
      var init := ps[..|ps| - 1];
      DropTrailingEmptyJoin(init, sep);
      assert ps == init + [[]];
      JoinSnoc(init, [], sep);
      if init != [] {
        assert Join(ps, sep) == Join(init, sep) + [sep];
      }
    }
  }

  /**
   * Java's `split(",")` loses nothing but trailing commas: joined back with
   * commas, its pieces are the text up to a final run of commas.
   */
  lemma SplitRejoin(s: string)
    ensures var j := Join(Split(s), Comma);
      |j| <= |s| && s[..|j|] == j && forall i :: |j| <= i < |s| ==> s[i] == Comma
  {
    if s != [] {
      JoinSplitAll(s, Comma);
      DropTrailingEmptyJoin(SplitAll(s, Comma), Comma);
    }
  }

  /** A join starts with its first piece and ends with its last. */
  lemma {:induction false} JoinEnds(ps: seq<string>, sep: char)
    requires |ps| >= 1
    ensures var j, first, last := Join(ps, sep), ps[0], ps[|ps| - 1];
      |first| <= |j| && j[..|first|] == first && |last| <= |j| && j[|j| - |last|..] == last
    decreases |ps|
  {
    if |ps| >= 2 {
      var init := ps[..|ps| - 1];
      JoinEnds(init, sep);
      var j0 := Join(init, sep);
      assert Join(ps, sep) == j0 + [sep] + ps[|ps| - 1];
      assert init[0] == ps[0];
    }
  }
}
