/**
 * The UUID list column codec (`UuidListTypeHandler`, in both package trees).
 * A list is written as the canonical texts of its UUIDs joined with commas;
 * reading splits on commas and hands every piece to `UUID.fromString`, so the
 * first malformed piece makes the whole read throw.
 */
module UuidListTypeHandler {
  import opened Wrappers
  import opened JavaText
  import opened JavaUuid

  /** The text of every UUID, in order. */
  function ToStrings(us: seq<Uuid>): (r: seq<string>)
    ensures |r| == |us|
    ensures forall i :: 0 <= i < |r| ==> r[i] == ToString(us[i])
  {
    seq(|us|, i requires 0 <= i < |us| => ToString(us[i]))
  }

  /** The column text `setParameter` writes for a non-null list. */
  function Encode(us: seq<Uuid>): string
  {
    Join(ToStrings(us), Comma)
  }

  /** Whether `ps[i]` is the first piece `fromString` rejects. */
  predicate FirstMalformed(ps: seq<string>, i: int)
  {
    0 <= i < |ps| && FromString(ps[i]).None?
    && forall j :: 0 <= j < i ==> FromString(ps[j]).Some?
  }

  /**
   * `UUID.fromString` applied to every piece in order: the list of their UUIDs,
   * or the IllegalArgumentException of the first piece that fails (here, that
   * piece). `ParseAllMeaning` states what this computes.
   */
  function ParseAll(ps: seq<string>): (r: Result<seq<Uuid>, string>)
    ensures ps == [] ==> r == Success([])
  {
    if ps == [] then Success([])
    else
      match FromString(ps[0])
      case None => Failure(ps[0])
      case Some(u) =>
        match ParseAll(ps[1..])
        case Failure(e) => Failure(e)
        case Success(us) => Success([u] + us)
  }

  /** The list `convertStringToUuidList` returns for a non-null column text, or the exception it throws. */
  function Decode(check: Check, s: string): Result<seq<Uuid>, string>
  {
    if Admits(check, s) then ParseAll(Split(s)) else Success([])
  }

  /** `setParameter`: a null list becomes a VARCHAR null, any other list its text. */
  function Written(parameter: Option<seq<Uuid>>): Option<string>
  {
    match parameter
    case None => None
    case Some(us) => Some(Encode(us))
  }

  /** `getResult` (all three overloads): a null column reads as null; otherwise the decoded list or its exception. */
  function Read(check: Check, column: Option<string>): Result<Option<seq<Uuid>>, string>
  {
    match column
    case None => Success(None)
    case Some(s) =>
      match Decode(check, s)
      case Success(us) => Success(Some(us))
      case Failure(e) => Failure(e)
  }

  // ---------------------------------------------------------------------------
  // The imperative code

  /** `convertStringToUuidList`: the `ArrayList` filled piece by piece until a piece fails to parse. */
  method ConvertStringToUuidList(check: Check, s: string) returns (result: Result<seq<Uuid>, string>)
    ensures result == Decode(check, s)
  {
    if !Admits(check, s) {
      return Success([]);
    }
    var pieces := Split(s);
    var uuids: seq<Uuid> := [];
    var i := 0;
    while i < |pieces|
      invariant 0 <= i <= |pieces|
      invariant ParseAll(pieces[..i]) == Success(uuids)
    {
      ParseAllPrefix(pieces, i);
      var parsed := FromString(pieces[i]);
      if parsed.None? {
        ParseAllFailureSticks(pieces, i + 1);
        return Failure(pieces[i]);
      }
      uuids := uuids + [parsed.value];
      i := i + 1;
    }
    assert pieces[..i] == pieces;
    return Success(uuids);
  }

  /** `getResult`: null in, null out; any other text is decoded or throws. */
  method GetResult(check: Check, column: Option<string>) returns (result: Result<Option<seq<Uuid>>, string>)
    ensures result == Read(check, column)
  {
    if column.None? {
      return Success(None);
    }
    var decoded := ConvertStringToUuidList(check, column.value);
    if decoded.Success? {
      result := Success(Some(decoded.value));
    } else {
      result := Failure(decoded.error);
    }
  }

  // ---------------------------------------------------------------------------
  // Parsing pieces

  /**
   * The read succeeds exactly when every piece is the text of a UUID, and then
   * gives one UUID per piece, in order; otherwise it fails about the first
   * malformed piece.
   */
  lemma {:induction false} ParseAllMeaning(ps: seq<string>)
    ensures ParseAll(ps).Success? <==> forall i :: 0 <= i < |ps| ==> FromString(ps[i]).Some?
    ensures ParseAll(ps).Success? ==> |ParseAll(ps).value| == |ps|
    ensures ParseAll(ps).Success? ==> forall i :: 0 <= i < |ps| ==> FromString(ps[i]) == Some(ParseAll(ps).value[i])
    ensures ParseAll(ps).Failure? ==> exists i :: FirstMalformed(ps, i) && ParseAll(ps).error == ps[i]
    decreases |ps|
  {
    if ps != [] {
      var tail := ps[1..];
      assert forall i :: 1 <= i < |ps| ==> ps[i] == tail[i - 1];
      ParseAllMeaning(tail);
      var head := FromString(ps[0]);
      if head.None? {
        assert FirstMalformed(ps, 0);
      } else {
        var rest := ParseAll(tail);
        if rest.Failure? {
          var k :| FirstMalformed(tail, k) && rest.error == tail[k];
          assert FirstMalformed(ps, k + 1) by {
            forall j | 0 <= j < k + 1
              ensures FromString(ps[j]).Some?
            {
              if j > 0 {
                assert ps[j] == tail[j - 1];
              }
            }
          }
        } else {
          var us := [head.value] + rest.value;
          assert ParseAll(ps) == Success(us);
          forall i | 0 <= i < |ps|
            ensures FromString(ps[i]) == Some(us[i])
          {
            if i > 0 {
              assert us[i] == rest.value[i - 1];
            }
          }
        }
      }
    }
  }

  /** Parsing the pieces of two texts in turn: the first failure wins, otherwise the lists are joined. */
  lemma {:induction false} ParseAllAppend(ps: seq<string>, qs: seq<string>)
    ensures ParseAll(ps + qs) ==
      match ParseAll(ps)
      case Failure(e) => Failure(e)
      case Success(us) =>
        match ParseAll(qs)
        case Failure(e) => Failure(e)
        case Success(vs) => Success(us + vs)
    decreases |ps|
  {
    if ps == [] {
      assert ps + qs == qs;
      if ParseAll(qs).Success? {
        assert [] + ParseAll(qs).value == ParseAll(qs).value;
      }
    } else {
      var all := ps + qs;
      assert all[0] == ps[0];
      assert all[1..] == ps[1..] + qs;
      ParseAllAppend(ps[1..], qs);
      var head := FromString(ps[0]);
      if head.None? {
        assert ParseAll(all) == Failure(ps[0]) == ParseAll(ps);
      } else {
        var u := head.value;
        var rest := ParseAll(ps[1..]);
        if rest.Failure? {
          assert ParseAll(all) == rest == ParseAll(ps);
        } else {
          var us := rest.value;
          assert ParseAll(ps) == Success([u] + us);
          var tail := ParseAll(qs);
          if tail.Failure? {
            assert ParseAll(all) == tail;
          } else {
            var vs := tail.value;
            assert ParseAll(all) == Success([u] + (us + vs));
            assert [u] + (us + vs) == ([u] + us) + vs;
          }
        }
      }
    }
  }

  /** One more piece, as the decoding loop takes it. */
  lemma ParseAllPrefix(ps: seq<string>, i: int)
    requires 0 <= i < |ps|
    ensures ParseAll(ps[..i + 1]) ==
      match ParseAll(ps[..i])
      case Failure(e) => Failure(e)
      case Success(us) =>
        match FromString(ps[i])
        case None => Failure(ps[i])
        case Some(u) => Success(us + [u])
  {
    assert ps[..i + 1] == ps[..i] + [ps[i]];
    ParseAllAppend(ps[..i], [ps[i]]);
    assert [ps[i]][1..] == [];
    if FromString(ps[i]).Some? {
      assert ParseAll([ps[i]]) == Success([FromString(ps[i]).value] + []);
      assert [FromString(ps[i]).value] + [] == [FromString(ps[i]).value];
    }
  }

  /** Once a prefix of the pieces fails, so does the whole, with the same exception. */
  lemma ParseAllFailureSticks(ps: seq<string>, i: int)
    requires 0 <= i <= |ps| && ParseAll(ps[..i]).Failure?
    ensures ParseAll(ps) == ParseAll(ps[..i])
  {
    assert ps[..i] + ps[i..] == ps;
    ParseAllAppend(ps[..i], ps[i..]);
  }

  /** When every piece is the text of a UUID, the result is exactly those UUIDs. */
  lemma ParseAllWellFormed(ps: seq<string>, us: seq<Uuid>)
    requires |ps| == |us|
    requires forall i :: 0 <= i < |ps| ==> FromString(ps[i]) == Some(us[i])
    ensures ParseAll(ps) == Success(us)
  {
    ParseAllMeaning(ps);
    var r := ParseAll(ps);
    assert r.Success?;
    var vs := r.value;
    assert forall i :: 0 <= i < |ps| ==> vs[i] == us[i];
    assert vs == us;
  }

  // ---------------------------------------------------------------------------
  // Round trips

  /** A non-empty list is written as a text neither guard rejects. */
  lemma EncodeIsNotBlank(us: seq<Uuid>)
    requires us != []
    ensures Encode(us) != [] && !IsBlank(Encode(us))
  {
    var ps := ToStrings(us);
    if |us| >= 2 {
      JoinHasSeparator(ps, Comma);
      CommaIsNotBlank(Encode(us));
    } else {
      var s := ToString(us[0]);
      assert Encode(us) == s;
      HexCharIsNotWhitespace(us[0][0]);
      assert s[0] == HexChar(us[0][0]);
    }
  }

  /** Every list of UUIDs reads back as itself, under either tree's guard. */
  lemma RoundTrip(check: Check, us: seq<Uuid>)
    ensures Decode(check, Encode(us)) == Success(us)
  {
    if us != [] {
      var ps := ToStrings(us);
      EncodeIsNotBlank(us);
      SplitJoin(ps);
      assert DropTrailingEmpty(ps) == ps;
      forall i | 0 <= i < |ps|
        ensures FromString(ps[i]) == Some(us[i])
      {
        FromStringToString(us[i]);
      }
      ParseAllWellFormed(ps, us);
    }
  }

  /** Written then read, every column comes back as it was, null included. */
  lemma ReadWritten(check: Check, parameter: Option<seq<Uuid>>)
    ensures Read(check, Written(parameter)) == Success(parameter)
  {
    if parameter.Some? {
      RoundTrip(check, parameter.value);
    }
  }

  /**
   * A read throws exactly when the guard admits the text and one of its pieces
   * is malformed; the exception is about the first such piece.
   */
  lemma DecodeFails(check: Check, s: string)
    ensures Decode(check, s).Failure? <==>
      Admits(check, s) && exists i :: 0 <= i < |Split(s)| && FromString(Split(s)[i]).None?
    ensures Decode(check, s).Failure? ==>
      exists i :: FirstMalformed(Split(s), i) && Decode(check, s).error == Split(s)[i]
  {
    ParseAllMeaning(Split(s));
  }

  /**
   * The trees differ on whitespace-only text: the newer tree (`isNotEmpty`)
   * hands it to `fromString`, which throws, while the older one (`isNoneBlank`)
   * returns the empty list. On every other text they agree.
   */
  lemma GuardsDiffer(s: string)
    ensures Decode(IsNotEmpty, s) != Decode(IsNotBlank, s) <==> |s| > 0 && IsBlank(s)
    ensures |s| > 0 && IsBlank(s) ==> Decode(IsNotEmpty, s) == Failure(s) && Decode(IsNotBlank, s) == Success([])
  {
    if |s| > 0 && IsBlank(s) {
      assert Comma !in s by {
        if Comma in s {
          CommaIsNotBlank(s);
        }
      }
      SplitOfCommaFree(s);
      BlankIsNotUuid(s);
      assert ParseAll([s]) == Failure(s);
    }
  }

  /** The two-element list of the newer tree's own test is written with one comma between the texts. */
  lemma TestListEncoded(u: Uuid, w: Uuid)
    ensures Encode([u, w]) == ToString(u) + [Comma] + ToString(w)
  {
    assert ToStrings([u, w]) == [ToString(u)] + [ToString(w)];
    JoinSnoc([ToString(u)], ToString(w), Comma);
  }

  /** A non-null empty column reads as `[]` under both guards, never as null. */
  lemma EmptyColumnReadsEmptyList(check: Check)
    ensures Read(check, Some("")) == Success(Some([]))
    ensures Read(check, None) == Success(None) && Written(None) == None
  {
  }
}
