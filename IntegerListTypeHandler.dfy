/**
 * The integer list column codec (`IntegerListTypeHandler`, in both package
 * trees). A list is written as the decimal texts of its elements joined with
 * commas; reading splits on commas and keeps every piece `Integer.parseInt`
 * accepts, skipping (and logging) every piece it rejects.
 */
module IntegerListTypeHandler {
  import opened Wrappers
  import opened JavaText
  import opened JavaInteger

  /** The decimal text of every element, in order. */
  function ValueOfAll(xs: seq<Int32>): (r: seq<string>)
    ensures |r| == |xs|
    ensures forall i :: 0 <= i < |r| ==> r[i] == ValueOf(xs[i])
  {
    seq(|xs|, i requires 0 <= i < |xs| => ValueOf(xs[i]))
  }

  /** The column text `setParameter` writes for a non-null list. */
  function Encode(xs: seq<Int32>): string
  {
    Join(ValueOfAll(xs), Comma)
  }

  /** What one piece contributes: its value when `parseInt` accepts it, nothing when it throws. */
  function Parsed(p: string): (r: seq<Int32>)
    ensures |r| <= 1
    ensures r == [] <==> ParseInt(p).None?
  {
    match ParseInt(p)
    case Some(v) => [v]
    case None => []
  }

  /**
   * The values of the pieces that parse, in order: a piece `parseInt` rejects is
   * skipped. Never more values than pieces; exactly one per piece when every
   * piece parses, and none when no piece does.
   */
  function ParsedPieces(ps: seq<string>): (r: seq<Int32>)
    ensures |r| <= |ps|
    ensures (forall i :: 0 <= i < |ps| ==> ParseInt(ps[i]).Some?) ==> |r| == |ps|
    ensures (forall i :: 0 <= i < |ps| ==> ParseInt(ps[i]).None?) ==> r == []
  {
    if ps == [] then [] else Parsed(ps[0]) + ParsedPieces(ps[1..])
  }

  /** The list `convertStringToStringList` returns for a non-null column text. */
  function Decode(check: Check, s: string): seq<Int32>
  {
    if Admits(check, s) then ParsedPieces(Split(s)) else []
  }

  /** `setParameter`: a null list becomes a VARCHAR null, any other list its text. */
  function Written(parameter: Option<seq<Int32>>): Option<string>
  {
    match parameter
    case None => None
    case Some(xs) => Some(Encode(xs))
  }

  /** `getResult` (all three overloads): a null column reads as null. */
  function Read(check: Check, column: Option<string>): Option<seq<Int32>>
  {
    match column
    case None => None
    case Some(s) => Some(Decode(check, s))
  }

  // ---------------------------------------------------------------------------
  // The imperative code

  /** `convertStringToStringList`: the `ArrayList` filled piece by piece, bad pieces skipped. */
  method ConvertStringToIntegerList(check: Check, s: string) returns (values: seq<Int32>)
    ensures values == Decode(check, s)
  {
    values := [];
    if Admits(check, s) {
      var pieces := Split(s);
      var i := 0;
      while i < |pieces|
        invariant 0 <= i <= |pieces|
        invariant values == ParsedPieces(pieces[..i])
      {
        ParsedPiecesPrefix(pieces, i);
        var parsed := ParseInt(pieces[i]);
        if parsed.Some? {
          values := values + [parsed.value];
        }
        i := i + 1;
      }
      assert pieces[..i] == pieces;
    }
  }

  /** `getResult`: null in, null out; any other text is decoded. */
  method GetResult(check: Check, column: Option<string>) returns (result: Option<seq<Int32>>)
    ensures result == Read(check, column)
    ensures result.None? <==> column.None?
  {
    if column.Some? {
      var values := ConvertStringToIntegerList(check, column.value);
      result := Some(values);
    } else {
      result := None;
    }
  }

  // ---------------------------------------------------------------------------
  // Parsing pieces

  /** Parsing the pieces of two texts one after the other is parsing each in turn. */
  lemma {:induction false} ParsedPiecesAppend(ps: seq<string>, qs: seq<string>)
    ensures ParsedPieces(ps + qs) == ParsedPieces(ps) + ParsedPieces(qs)
    decreases |ps|
  {
    if ps == [] {
      assert ps + qs == qs;
    } else {
      var all := ps + qs;
      assert all[0] == ps[0];
      assert all[1..] == ps[1..] + qs;
      ParsedPiecesAppend(ps[1..], qs);
      var a, b, c := Parsed(ps[0]), ParsedPieces(ps[1..]), ParsedPieces(qs);
      assert ParsedPieces(all) == a + (b + c);
      assert a + (b + c) == (a + b) + c;
    }
  }

  /** One more piece, as the decoding loop takes it. */
  lemma ParsedPiecesPrefix(ps: seq<string>, i: int)
    requires 0 <= i < |ps|
    ensures ParsedPieces(ps[..i + 1]) ==
      match ParseInt(ps[i])
      case Some(v) => ParsedPieces(ps[..i]) + [v]
      case None => ParsedPieces(ps[..i])
  {
    assert ps[..i + 1] == ps[..i] + [ps[i]];
    ParsedPiecesAppend(ps[..i], [ps[i]]);
    assert [ps[i]][1..] == [];
  }

  /** When every piece parses, the values are exactly the pieces' values. */
  lemma {:induction false} ParsedPiecesAllParse(ps: seq<string>, xs: seq<Int32>)
    requires |ps| == |xs|
    requires forall i :: 0 <= i < |ps| ==> ParseInt(ps[i]) == Some(xs[i])
    ensures ParsedPieces(ps) == xs
    decreases |ps|
  {
    if ps != [] {
      ParsedPiecesAllParse(ps[1..], xs[1..]);
      assert [xs[0]] + xs[1..] == xs;
    }
  }

  // ---------------------------------------------------------------------------
  // Round trips

  /** A non-empty list is written as a text neither guard rejects. */
  lemma EncodeIsNotBlank(xs: seq<Int32>)
    requires xs != []
    ensures Encode(xs) != [] && !IsBlank(Encode(xs))
  {
    var ps := ValueOfAll(xs);
    if |xs| >= 2 {
      JoinHasSeparator(ps, Comma);
      CommaIsNotBlank(Encode(xs));
    } else {
      var s := ValueOf(xs[0]);
      assert Encode(xs) == s;
      assert s[0] == '-' || IsDigit(s[0]) by {
        if xs[0] >= 0 {
          assert s == NatToString(xs[0]);
        }
      }
      assert !IsWhitespace(s[0]);
    }
  }

  /** Every list of `int`s reads back as itself, under either tree's guard. */
  lemma RoundTrip(check: Check, xs: seq<Int32>)
    ensures Decode(check, Encode(xs)) == xs
  {
    if xs != [] {
      var ps := ValueOfAll(xs);
      EncodeIsNotBlank(xs);
      SplitJoin(ps);
      assert DropTrailingEmpty(ps) == ps;
      forall i | 0 <= i < |ps|
        ensures ParseInt(ps[i]) == Some(xs[i])
      {
        ParseIntValueOf(xs[i]);
      }
      ParsedPiecesAllParse(ps, xs);
    }
  }

  /** Written then read, every column comes back as it was, null included. */
  lemma ReadWritten(check: Check, parameter: Option<seq<Int32>>)
    ensures Read(check, Written(parameter)) == parameter
  {
    if parameter.Some? {
      RoundTrip(check, parameter.value);
    }
  }

  /**
   * The two trees' guards (`isNotEmpty` and `isNotBlank`) give the same list for
   * every text: whitespace-only text has no comma, so it is one piece, and that
   * piece does not parse.
   */
  lemma GuardsAgree(s: string)
    ensures Decode(IsNotEmpty, s) == Decode(IsNotBlank, s)
  {
    if |s| > 0 && IsBlank(s) {
      assert Comma !in s by {
        if Comma in s {
          CommaIsNotBlank(s);
        }
      }
      SplitOfCommaFree(s);
      assert !IsDigit(s[0]) && s[0] != '-' && s[0] != '+' by {
        assert IsWhitespace(s[0]);
      }
      ParseIntRejectsStrayCharacter(s, 0);
      assert ParsedPieces([s]) == [];
    }
  }

  /** A text never yields more values than it has pieces. */
  lemma DecodeLength(check: Check, s: string)
    ensures |Decode(check, s)| <= |Split(s)|
  {
  }

  /** A malformed piece in the middle is skipped and its neighbours are kept. */
  lemma SkipsMalformedPiece(a: Int32, bad: string, b: Int32)
    requires ParseInt(bad) == None
    ensures ParsedPieces([ValueOf(a), bad, ValueOf(b)]) == [a, b]
  {
    var pa, pb := ValueOf(a), ValueOf(b);
    ParseIntValueOf(a);
    ParseIntValueOf(b);
    var ps := [pa, bad, pb];
    assert ps[1..] == [bad, pb] && ps[1..][1..] == [pb] && [pb][1..] == [];
    assert ParsedPieces([pb]) == [b];
    assert ParsedPieces([bad, pb]) == [b];
  }

  /** `"1, 2"` reads as `[1]`: the piece `" 2"` does not parse, because of its space. */
  lemma SpaceAfterCommaIsSkipped()
    ensures ParsedPieces(["1", " 2"]) == [1]
  {
    ParseIntRejectsStrayCharacter(" 2", 0);
    ParseIntValueOf(1);
    assert ValueOf(1) == "1";
    var ps := ["1", " 2"];
    assert ps[1..] == [" 2"] && [" 2"][1..] == [];
    assert ParsedPieces([" 2"]) == [];
  }

  /** A non-null empty column reads as `[]`, never as null. */
  lemma EmptyColumnReadsEmptyList(check: Check)
    ensures Read(check, Some("")) == Some([])
    ensures Read(check, None) == None && Written(None) == None
  {
  }
}
