/**
 * The string list column codec (`StringListTypeHandler`, identical in both
 * package trees except for the guard before decoding). A list is written as one
 * text column: each element has its commas replaced by the two characters `%;`
 * and the elements are joined with commas; reading splits on commas and turns
 * every `%;` back into a comma.
 */
module StringListTypeHandler {
  import opened Wrappers
  import opened JavaText

  /** COMMA_ESCAPE: the two characters that stand for a comma inside an element. */
  const CommaEscape: string := "%;"

  /** Whether `s` contains the escape sequence `%;`. */
  predicate HasEscape(s: string)
  {
    exists i :: 0 <= i < |s| - 1 && s[i] == '%' && s[i + 1] == ';'
  }

  /** `item.replace(",", "%;")`: the element as written into the column. */
  function Escape(s: string): (r: string)
    ensures Comma !in r
    ensures r == [] <==> s == []
  {
    if s == [] then [] else (if s[0] == Comma then CommaEscape else [s[0]]) + Escape(s[1..])
  }

  /** `item.replace("%;", ",")`: a column piece as handed back, scanning left to right. */
  function Unescape(s: string): string
  {
    if |s| >= 2 && s[0] == '%' && s[1] == ';' then [Comma] + Unescape(s[2..])
    else if s == [] then [] else [s[0]] + Unescape(s[1..])
  }

  function EscapeAll(xs: seq<string>): (r: seq<string>)
  {
    seq(|xs|, i requires 0 <= i < |xs| => Escape(xs[i]))
  }

  function UnescapeAll(ps: seq<string>): (r: seq<string>)
  {
    seq(|ps|, i requires 0 <= i < |ps| => Unescape(ps[i]))
  }

  /**
   * The elements that reach the column: the builder stays empty while the leading
   * elements are empty, and no separator is written before the first non-empty one.
   */
  function DropLeadingEmpty(xs: seq<string>): (r: seq<string>)
    ensures |r| <= |xs| && r == xs[|xs| - |r|..]
    ensures r == [] || r[0] != []
    ensures forall i :: 0 <= i < |xs| - |r| ==> xs[i] == []
  {
    if xs == [] then [] else if xs[0] == [] then DropLeadingEmpty(xs[1..]) else xs
  }

  /** The column text `setParameter` writes for a non-null list. */
  function Encode(xs: seq<string>): string
  {
    Join(EscapeAll(DropLeadingEmpty(xs)), Comma)
  }

  /** The list `convertStringToStringList` returns for a non-null column text. */
  function Decode(check: Check, s: string): seq<string>
  {
    if Admits(check, s) then UnescapeAll(Split(s)) else []
  }

  /** `setParameter`: a null list becomes a VARCHAR null, any other list its text. */
  function Written(parameter: Option<seq<string>>): Option<string>
  {
    match parameter
    case None => None
    case Some(xs) => Some(Encode(xs))
  }

  /** `getResult` (all three overloads): a null column reads as null. */
  function Read(check: Check, column: Option<string>): Option<seq<string>>
  {
    match column
    case None => None
    case Some(s) => Some(Decode(check, s))
  }

  /** The lists the newer tree (`isNotEmpty` guard) reads back unchanged. */
  predicate RoundTrips(xs: seq<string>)
  {
    (forall i :: 0 <= i < |xs| ==> !HasEscape(xs[i]))
    && (xs == [] || (xs[0] != [] && xs[|xs| - 1] != []))
  }

  /** The lists the older tree (`isNotBlank` guard) reads back unchanged. */
  predicate LegacyRoundTrips(xs: seq<string>)
  {
    RoundTrips(xs) && !(|xs| == 1 && IsBlank(xs[0]))
  }

  // ---------------------------------------------------------------------------
  // The imperative code

  /** The `StringBuilder` loop of `setParameter`. */
  method BuildContent(items: seq<string>) returns (content: string)
    ensures content == Encode(items)
  {
    content := [];
    var i := 0;
    while i < |items|
      invariant 0 <= i <= |items|
      invariant content == Encode(items[..i])
    {
      EncodePrefix(items, i);
      if |content| == 0 {
        content := Escape(items[i]);
      } else {
        content := content + [Comma] + Escape(items[i]);
      }
      i := i + 1;
    }
    assert items[..i] == items;
  }

  /** `setParameter`. */
  method SetParameter(parameter: Option<seq<string>>) returns (column: Option<string>)
    ensures column == Written(parameter)
    ensures column.None? <==> parameter.None?
  {
    if parameter.Some? {
      var text := BuildContent(parameter.value);
      column := Some(text);
    } else {
      column := None;
    }
  }

  /** `convertStringToStringList`: the `ArrayList` filled piece by piece. */
  method ConvertStringToStringList(check: Check, s: string) returns (items: seq<string>)
    ensures items == Decode(check, s)
  {
    items := [];
    if Admits(check, s) {
      var pieces := Split(s);
      var i := 0;
      while i < |pieces|
        invariant 0 <= i <= |pieces|
        invariant |items| == i
        invariant forall k :: 0 <= k < i ==> items[k] == Unescape(pieces[k])
      {
        items := items + [Unescape(pieces[i])];
        i := i + 1;
      }
    }
  }

  /** `getResult`: null in, null out; any other text is decoded, an empty one to `[]`. */
  method GetResult(check: Check, column: Option<string>) returns (result: Option<seq<string>>)
    ensures result == Read(check, column)
    ensures result.None? <==> column.None?
  {
    if column.Some? {
      var items := ConvertStringToStringList(check, column.value);
      result := Some(items);
    } else {
      result := None;
    }
  }

  // ---------------------------------------------------------------------------
  // Escaping

  /** An element without commas is written as it is. */
  lemma {:induction false} EscapeCommaFree(s: string)
    requires Comma !in s
    ensures Escape(s) == s
    decreases |s|
  {
    if s != [] {
      assert Comma !in s[1..];
      EscapeCommaFree(s[1..]);
      assert s == [s[0]] + s[1..];
    }
  }

  lemma EscapeHead(s: string)
    requires s != []
    ensures Escape(s)[0] == if s[0] == Comma then '%' else s[0]
  {
  }

  lemma UnescapeHead(s: string)
    requires s != []
    ensures Unescape(s) != []
    ensures Unescape(s)[0] == if |s| >= 2 && s[0] == '%' && s[1] == ';' then Comma else s[0]
  {
  }

  /** Unescaping undoes escaping for an element that does not itself contain `%;`. */
  lemma {:induction false} UnescapeEscapeKeeps(s: string)
    requires !HasEscape(s)
    ensures Unescape(Escape(s)) == s
    decreases |s|
  {
    if s != [] {
      var t := s[1..];
      forall j | 0 <= j < |t| - 1
        ensures !(t[j] == '%' && t[j + 1] == ';')
      {
        assert t[j] == s[j + 1] && t[j + 1] == s[j + 2];
      }
      UnescapeEscapeKeeps(t);
      var e := Escape(t);
      if s[0] == Comma {
        assert Escape(s) == CommaEscape + e;
        assert (CommaEscape + e)[2..] == e;
      } else {
        assert Escape(s) == [s[0]] + e;
        if |s| >= 2 {
          assert !(s[0] == '%' && s[1] == ';');
          EscapeHead(t);
        }
        assert ([s[0]] + e)[1..] == e;
      }
      assert s == [s[0]] + t;
    }
  }

  /**
   * No decoded element ever contains `%;`: the escape has no escape of its own, so
   * an element that held `%;` can never come back as it was.
   */
  lemma {:induction false} UnescapeHasNoEscape(s: string)
    ensures !HasEscape(Unescape(s))
    decreases |s|
  {
    if s != [] {
      var r := Unescape(s);
      if |s| >= 2 && s[0] == '%' && s[1] == ';' {
        UnescapeHasNoEscape(s[2..]);
        var u := Unescape(s[2..]);
        assert r == [Comma] + u;
        forall i | 0 <= i < |r| - 1
          ensures !(r[i] == '%' && r[i + 1] == ';')
        {
          if i > 0 {
            assert r[i] == u[i - 1] && r[i + 1] == u[i];
          }
        }
      } else {
        UnescapeHasNoEscape(s[1..]);
        var u := Unescape(s[1..]);
        assert r == [s[0]] + u;
        forall i | 0 <= i < |r| - 1
          ensures !(r[i] == '%' && r[i + 1] == ';')
        {
          if i > 0 {
            assert r[i] == u[i - 1] && r[i + 1] == u[i];
          } else {
            UnescapeHead(s[1..]);
          }
        }
      }
    }
  }

  /** Unescaping undoes escaping exactly for the elements that do not contain `%;`. */
  lemma UnescapeEscape(s: string)
    ensures Unescape(Escape(s)) == s <==> !HasEscape(s)
  {
    if !HasEscape(s) {
      UnescapeEscapeKeeps(s);
    }
    UnescapeHasNoEscape(Escape(s));
  }

  /** An element starting with `%;`: the escape leaves the `%;` as it is, and it is read as a comma. */
  lemma UnescapeEscapePercentSemicolon(s: string)
    requires |s| >= 2 && s[0] == '%' && s[1] == ';'
    requires Unescape(Escape(s[2..])) == Unescape(s[2..])
    ensures Unescape(Escape(s)) == Unescape(s)
  {
    var es, et, e := Escape(s), Escape(s[1..]), Escape(s[2..]);
    assert s[1..][1..] == s[2..];
    assert et == [';'] + e;
    assert es == ['%'] + et;
    assert es[1..] == et && et[1..] == e && es[2..] == e;
    assert Unescape(es) == [Comma] + Unescape(e);
  }

  /** An element starting with `%,`: the comma is escaped to `%;`, which is read as a comma after the `%`. */
  lemma UnescapeEscapePercentComma(s: string)
    requires |s| >= 2 && s[0] == '%' && s[1] == Comma
    requires Unescape(Escape(s[2..])) == Unescape(s[2..])
    ensures Unescape(Escape(s)) == Unescape(s)
  {
    var es, et, e := Escape(s), Escape(s[1..]), Escape(s[2..]);
    assert s[1..][1..] == s[2..];
    assert et == CommaEscape + e;
    assert es == ['%'] + et;
    assert es[1..] == et && et[2..] == e;
    assert Unescape(et) == [Comma] + Unescape(e);
    assert Unescape(es) == ['%'] + Unescape(et);
    assert Unescape(s[1..]) == [Comma] + Unescape(s[2..]);
  }

  /** An element starting with `%` and any other character: both are handed back as they are. */
  lemma UnescapeEscapePercentOther(s: string)
    requires |s| >= 2 && s[0] == '%' && s[1] != ';' && s[1] != Comma
    requires Unescape(Escape(s[1..])) == Unescape(s[1..])
    ensures Unescape(Escape(s)) == Unescape(s)
  {
    var es, et := Escape(s), Escape(s[1..]);
    assert s[1..][1..] == s[2..];
    assert et == [s[1]] + Escape(s[2..]);
    assert es == ['%'] + et;
    assert |es| >= 2 && es[0] == '%' && es[1] == s[1] && es[1..] == et;
  }

  /**
   * An element is read back as if it had never been escaped: its own commas come
   * back, and every `%;` it held becomes a comma as well.
   */
  lemma {:induction false} UnescapeEscapeIsUnescape(s: string)
    ensures Unescape(Escape(s)) == Unescape(s)
    decreases |s|
  {
    if s != [] {
      var t := s[1..];
      UnescapeEscapeIsUnescape(t);
      if s[0] == '%' && |s| >= 2 {
        UnescapeEscapeIsUnescape(s[2..]);
        if s[1] == ';' {
          UnescapeEscapePercentSemicolon(s);
        } else if s[1] == Comma {
          UnescapeEscapePercentComma(s);
        } else {
          UnescapeEscapePercentOther(s);
        }
      } else {
        var e := Escape(t);
        if s[0] == Comma {
          assert Escape(s) == CommaEscape + e;
          assert (CommaEscape + e)[2..] == e;
        } else {
          assert Escape(s) == [s[0]] + e;
          assert ([s[0]] + e)[1..] == e;
        }
      }
    }
  }

  /** Text without a `%` is handed back as it is. */
  lemma {:induction false} UnescapePercentFree(s: string)
    requires '%' !in s
    ensures Unescape(s) == s
    decreases |s|
  {
    if s != [] {
      assert '%' !in s[1..];
      UnescapePercentFree(s[1..]);
      assert s == [s[0]] + s[1..];
    }
  }

  /** An element that contains `%;` is read back with a comma in its place. */
  lemma EscapeIsNotEscaped()
    ensures Decode(IsNotEmpty, Encode(["%;"])) == [","]
  {
    var x := "%;";
    EscapeCommaFree(x);
    var xs := [x];
    assert DropLeadingEmpty(xs) == xs;
    assert EscapeAll(xs) == xs;
    assert Encode(xs) == x;
    SplitOfCommaFree(x);
    assert Unescape(x) == ",";
    assert UnescapeAll([x]) == [","];
  }

  // ---------------------------------------------------------------------------
  // The builder loop

  lemma {:induction false} DropLeadingEmptySnoc(xs: seq<string>, x: string)
    ensures DropLeadingEmpty(xs + [x]) ==
      if DropLeadingEmpty(xs) == [] then (if x == [] then [] else [x]) else DropLeadingEmpty(xs) + [x]
    decreases |xs|
  {
    if xs == [] {
      assert xs + [x] == [x];
    } else {
      assert (xs + [x])[1..] == xs[1..] + [x];
      if xs[0] == [] {
        DropLeadingEmptySnoc(xs[1..], x);
      }
    }
  }

  lemma EscapeAllSnoc(xs: seq<string>, x: string)
    ensures EscapeAll(xs + [x]) == EscapeAll(xs) + [Escape(x)]
  {
  }

  /** While only empty elements have been seen, the text is empty and the next element is its whole text. */
  lemma EncodeSnocFirst(xs: seq<string>, x: string)
    requires DropLeadingEmpty(xs) == []
    ensures Encode(xs) == [] && Encode(xs + [x]) == Escape(x)
  {
    DropLeadingEmptySnoc(xs, x);
    var es: seq<string> := EscapeAll([]);
    assert |es| == 0;
    assert Encode(xs) == Join(es, Comma) == [];
    var zs := DropLeadingEmpty(xs + [x]);
    if x == [] {
      assert zs == [];
      assert Encode(xs + [x]) == Join(es, Comma);
      assert Escape(x) == [];
    } else {
      assert zs == [x];
      var fs := EscapeAll(zs);
      assert |fs| == 1 && fs[0] == Escape(x);
      assert Encode(xs + [x]) == Join(fs, Comma) == fs[0];
    }
  }

  /** After a non-empty element, the text is non-empty and the next one follows a separator. */
  lemma EncodeSnocLater(xs: seq<string>, x: string)
    requires DropLeadingEmpty(xs) != []
    ensures Encode(xs) != [] && Encode(xs + [x]) == Encode(xs) + [Comma] + Escape(x)
  {
    var ys := DropLeadingEmpty(xs);
    DropLeadingEmptySnoc(xs, x);
    assert DropLeadingEmpty(xs + [x]) == ys + [x];
    var es := EscapeAll(ys);
    assert es[0] != [] by {
      assert es[0] == Escape(ys[0]);
    }
    JoinIsEmpty(es, Comma);
    EscapeAllSnoc(ys, x);
    JoinSnoc(es, Escape(x), Comma);
  }

  /** Appending one element: the separator goes in only when the text so far is non-empty. */
  lemma EncodeSnoc(xs: seq<string>, x: string)
    ensures Encode(xs + [x]) == if Encode(xs) == [] then Escape(x) else Encode(xs) + [Comma] + Escape(x)
  {
    if DropLeadingEmpty(xs) == [] {
      EncodeSnocFirst(xs, x);
    } else {
      EncodeSnocLater(xs, x);
    }
  }

  /** One more element of the list, as the builder loop takes it. */
  lemma EncodePrefix(items: seq<string>, i: int)
    requires 0 <= i < |items|
    ensures Encode(items[..i + 1]) ==
      if Encode(items[..i]) == [] then Escape(items[i]) else Encode(items[..i]) + [Comma] + Escape(items[i])
  {
    assert items[..i + 1] == items[..i] + [items[i]];
    EncodeSnoc(items[..i], items[i]);
  }

  /**
   * Leading empty elements vanish: `["", "b"]` is written as `"b"`, and `[""]`
   * and `[]` are both written as the empty text.
   */
  lemma LeadingEmptyElementsVanish()
    ensures Encode(["", "b"]) == "b"
    ensures Encode([""]) == "" && Encode([]) == ""
  {
    assert DropLeadingEmpty(["", "b"]) == ["b"];
    EscapeCommaFree("b");
    assert EscapeAll(["b"]) == ["b"];
  }

  /** Every comma of the column text is a separator: splitting gives exactly the escaped elements. */
  lemma EncodeCommasAreSeparators(xs: seq<string>)
    requires DropLeadingEmpty(xs) != []
    ensures SplitAll(Encode(xs), Comma) == EscapeAll(DropLeadingEmpty(xs))
  {
    SplitAllJoin(EscapeAll(DropLeadingEmpty(xs)), Comma);
  }

  // ---------------------------------------------------------------------------
  // Round trips

  /** What decoding makes of a list's text: the escaped pieces, less the empty ones at the end. */
  lemma DecodeEncode(check: Check, xs: seq<string>)
    requires DropLeadingEmpty(xs) != []
    requires Admits(check, Encode(xs))
    ensures Decode(check, Encode(xs)) == UnescapeAll(DropTrailingEmpty(EscapeAll(DropLeadingEmpty(xs))))
  {
    var es := EscapeAll(DropLeadingEmpty(xs));
    JoinIsEmpty(es, Comma);
    SplitJoin(es);
  }

  /**
   * A list whose first and last elements are non-empty is read back (newer tree)
   * element by element as `replace("%;", ",")` of each element: its commas
   * survive, and every `%;` it held turns into a comma.
   */
  lemma ReadBackIsUnescaped(xs: seq<string>)
    requires xs != [] && xs[0] != [] && xs[|xs| - 1] != []
    ensures Decode(IsNotEmpty, Encode(xs)) == UnescapeAll(xs)
  {
    assert DropLeadingEmpty(xs) == xs;
    var es := EscapeAll(xs);
    assert es[0] != [] && es[|es| - 1] != [];
    JoinIsEmpty(es, Comma);
    DecodeEncode(IsNotEmpty, xs);
    DropTrailingEmptyKeeps(es);
    var out := UnescapeAll(es);
    forall i | 0 <= i < |xs|
      ensures out[i] == Unescape(xs[i])
    {
      UnescapeEscapeIsUnescape(xs[i]);
    }
  }

  /** The lists `RoundTrips` admits come back unchanged. */
  lemma RoundTripIf(xs: seq<string>)
    requires RoundTrips(xs) && xs != []
    ensures Decode(IsNotEmpty, Encode(xs)) == xs
  {
    assert DropLeadingEmpty(xs) == xs;
    var es := EscapeAll(xs);
    assert es[0] != [] && es[|es| - 1] != [];
    JoinIsEmpty(es, Comma);
    DecodeEncode(IsNotEmpty, xs);
    DropTrailingEmptyKeeps(es);
    var out := UnescapeAll(es);
    forall i | 0 <= i < |xs|
      ensures out[i] == xs[i]
    {
      UnescapeEscape(xs[i]);
    }
  }

  /** A list that comes back unchanged is one `RoundTrips` admits. */
  lemma RoundTripOnlyIf(xs: seq<string>)
    requires DropLeadingEmpty(xs) != []
    requires Decode(IsNotEmpty, Encode(xs)) == xs
    ensures RoundTrips(xs)
  {
    var ys := DropLeadingEmpty(xs);
    var es := EscapeAll(ys);
    assert es[0] != [];
    JoinIsEmpty(es, Comma);
    DecodeEncode(IsNotEmpty, xs);
    var ds := DropTrailingEmpty(es);
    assert UnescapeAll(ds) == xs;
    assert |ys| == |xs|;
    assert ys == xs;
    assert ds == es;
    assert Escape(xs[|xs| - 1]) != [];
    forall i | 0 <= i < |xs|
      ensures !HasEscape(xs[i])
    {
      assert xs[i] == Unescape(ds[i]);
      UnescapeHasNoEscape(ds[i]);
    }
  }

  /**
   * Newer tree: a list reads back as itself exactly when no element contains
   * `%;` and the list is empty or has a non-empty first and last element.
   */
  lemma RoundTrip(xs: seq<string>)
    ensures Decode(IsNotEmpty, Encode(xs)) == xs <==> RoundTrips(xs)
  {
    if DropLeadingEmpty(xs) == [] {
      assert Encode(xs) == Join([], Comma);
      assert xs != [] ==> xs[0] == [];
    } else {
      if RoundTrips(xs) {
        RoundTripIf(xs);
      }
      if Decode(IsNotEmpty, Encode(xs)) == xs {
        RoundTripOnlyIf(xs);
      }
    }
  }

  /** An element of whitespace only, escaped, is itself; any element whose escape is blank is. */
  lemma {:induction false} EscapeBlank(s: string)
    requires IsBlank(Escape(s))
    ensures IsBlank(s) && Escape(s) == s
    decreases |s|
  {
    if s != [] {
      EscapeHead(s);
      assert IsWhitespace(Escape(s)[0]);
      assert s[0] != Comma;
      assert Escape(s) == [s[0]] + Escape(s[1..]);
      assert IsBlank(Escape(s[1..])) by {
        forall i | 0 <= i < |Escape(s[1..])|
          ensures IsWhitespace(Escape(s[1..])[i])
        {
          assert Escape(s[1..])[i] == Escape(s)[i + 1];
        }
      }
      EscapeBlank(s[1..]);
      assert s == [s[0]] + s[1..];
    }
  }

  /**
   * Older tree: as in the newer tree, and in addition a list of one element made
   * of whitespace only is lost, because its text is blank and reads as `[]`.
   */
  lemma LegacyRoundTrip(xs: seq<string>)
    ensures Decode(IsNotBlank, Encode(xs)) == xs <==> LegacyRoundTrips(xs)
  {
    RoundTrip(xs);
    var s := Encode(xs);
    if !IsBlank(s) {
      assert Decode(IsNotBlank, s) == Decode(IsNotEmpty, s);
      if RoundTrips(xs) && |xs| == 1 && IsBlank(xs[0]) {
        assert DropLeadingEmpty(xs) == xs;
        assert EscapeAll(xs) == [Escape(xs[0])];
        assert Comma !in xs[0] by {
          if Comma in xs[0] {
            CommaIsNotBlank(xs[0]);
          }
        }
        EscapeCommaFree(xs[0]);
        assert false;
      }
    } else {
      assert Decode(IsNotBlank, s) == [];
      if xs != [] && RoundTrips(xs) {
        assert DropLeadingEmpty(xs) == xs;
        var es := EscapeAll(xs);
        if |xs| >= 2 {
          JoinHasSeparator(es, Comma);
          CommaIsNotBlank(s);
        } else {
          assert es == [Escape(xs[0])];
          EscapeBlank(xs[0]);
        }
      }
    }
  }

  /** Written then read, a column is null exactly when the list was, and otherwise round-trips as above. */
  lemma ReadWritten(check: Check, parameter: Option<seq<string>>)
    ensures Read(check, Written(parameter)) == parameter <==>
      match parameter
      case None => true
      case Some(xs) => if check == IsNotEmpty then RoundTrips(xs) else LegacyRoundTrips(xs)
  {
    if parameter.Some? {
      if check == IsNotEmpty {
        RoundTrip(parameter.value);
      } else {
        LegacyRoundTrip(parameter.value);
      }
    }
  }

  /** Two comma-free elements, the first non-empty, are written with one comma between them. */
  lemma EncodePair(a: string, b: string)
    requires a != [] && Comma !in a && Comma !in b
    ensures Encode([a, b]) == a + [Comma] + b
  {
    EscapeCommaFree(a);
    EscapeCommaFree(b);
    var xs := [a, b];
    assert DropLeadingEmpty(xs) == xs;
    assert EscapeAll(xs) == xs;
    assert [a] + [b] == xs;
    JoinSnoc([a], b, Comma);
  }

  /** The list of the older tree's own test is written as `"test1,test2"`. */
  lemma TestListEncoded()
    ensures Encode(["test1", "test2"]) == "test1,test2"
  {
    EncodePair("test1", "test2");
  }

  /** Two comma-free elements without `%`, the first non-empty, are read back from their joined text. */
  lemma DecodePair(check: Check, a: string, b: string)
    requires a != [] && b != [] && Comma !in a && Comma !in b && '%' !in a && '%' !in b
    requires Admits(check, a + [Comma] + b)
    ensures Decode(check, a + [Comma] + b) == [a, b]
  {
    var xs := [a, b];
    assert [a] + [b] == xs;
    JoinSnoc([a], b, Comma);
    SplitJoin(xs);
    UnescapePercentFree(a);
    UnescapePercentFree(b);
    assert UnescapeAll(xs) == xs;
  }

  /** ... and `"test1,test2"` is read back as that list by the older tree. */
  lemma TestListDecoded()
    ensures Decode(IsNotBlank, "test1,test2") == ["test1", "test2"]
  {
    var s := "test1" + [Comma] + "test2";
    assert s == "test1,test2";
    assert !IsWhitespace(s[0]);
    DecodePair(IsNotBlank, "test1", "test2");
  }

  /** A comma inside an element survives the round trip. */
  lemma CommaInElementRoundTrip()
    ensures Decode(IsNotEmpty, Encode(["a,b", "c"])) == ["a,b", "c"]
  {
    assert !HasEscape("a,b") && !HasEscape("c");
    RoundTrip(["a,b", "c"]);
  }

  /**
   * A non-null empty column reads as `[]`, never as null; the older tree also
   * reads whitespace-only text as `[]`, where the newer keeps it as one element.
   */
  lemma EmptyColumnReadsEmptyList(check: Check)
    ensures Read(check, Some("")) == Some([])
    ensures Read(IsNotBlank, Some("  ")) == Some([])
    ensures Read(IsNotEmpty, Some("  ")) == Some(["  "])
  {
    var w := "  ";
    SplitOfCommaFree(w);
    UnescapePercentFree(w);
    assert UnescapeAll([w]) == [w];
  }

  /** A null list is written as null and a null column is read as null. */
  lemma NullColumn(check: Check)
    ensures Written(None) == None && Read(check, None) == None
  {
  }
}
