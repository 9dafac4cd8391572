/**
 * `java.util.UUID` as the UUID list codec uses it: `toString` writes the
 * canonical 8-4-4-4-12 text of RFC 4122 section 3 in lower-case hexadecimal,
 * and `fromString` reads that 36-character form back, in either letter case.
 */
module JavaUuid {
  import opened Wrappers
  import JavaText

  type Nibble = x: int | 0 <= x < 16

  /** A UUID: its 128 bits as 32 hexadecimal digits, most significant first. */
  type Uuid = s: seq<Nibble> | |s| == 32 witness seq(32, _ => 0)

  const HexDigits: string := "0123456789abcdef"

  /** The lower-case hexadecimal digit `toString` writes for `n`. */
  function HexChar(n: Nibble): char
  {
    HexDigits[n]
  }

  /** The value of a hexadecimal digit of either case, as `fromString` reads it. */
  function HexValue(c: char): (r: Option<Nibble>)
    ensures r.Some? <==> ('0' <= c <= '9' || 'a' <= c <= 'f' || 'A' <= c <= 'F')
  {
    if '0' <= c <= '9' then Some(c as int - '0' as int)
    else if 'a' <= c <= 'f' then Some(c as int - 'a' as int + 10)
    else if 'A' <= c <= 'F' then Some(c as int - 'A' as int + 10)
    else None
  }

  /** The positions of the four dashes in the 36-character text. */
  predicate IsDashPosition(k: int)
  {
    k == 8 || k == 13 || k == 18 || k == 23
  }

  /** Which hexadecimal digit of the UUID text position `k` (not a dash) holds. */
  function NibbleIndex(k: int): (i: int)
    requires 0 <= k < 36 && !IsDashPosition(k)
    ensures 0 <= i < 32
  {
    if k < 8 then k else if k < 13 then k - 1 else if k < 18 then k - 2 else if k < 23 then k - 3 else k - 4
  }

  /** Where in the text the `i`-th hexadecimal digit stands. */
  function CharIndex(i: int): (k: int)
    requires 0 <= i < 32
    ensures 0 <= k < 36 && !IsDashPosition(k) && NibbleIndex(k) == i
  {
    if i < 8 then i else if i < 12 then i + 1 else if i < 16 then i + 2 else if i < 20 then i + 3 else i + 4
  }

  /** `UUID.toString()`: groups of 8, 4, 4, 4 and 12 lower-case digits separated by dashes. */
  function ToString(u: Uuid): (r: string)
    ensures |r| == 36 && r != [] && JavaText.Comma !in r
  {
    seq(36, k requires 0 <= k < 36 => if IsDashPosition(k) then '-' else HexChar(u[NibbleIndex(k)]))
  }

  /** Whether `s` is the 36-character dashed form with a hexadecimal digit everywhere else. */
  predicate IsUuidText(s: string)
  {
    |s| == 36
    && (forall k :: 0 <= k < 36 && IsDashPosition(k) ==> s[k] == '-')
    && (forall k :: 0 <= k < 36 && !IsDashPosition(k) ==> HexValue(s[k]).Some?)
  }

  /**
   * `UUID.fromString(String)` on the 36-character form; any other text is an
   * IllegalArgumentException, here `None`.
   */
  function FromString(s: string): (r: Option<Uuid>)
    ensures r.Some? <==> IsUuidText(s)
  {
    if IsUuidText(s) then
      Some(seq(32, i requires 0 <= i < 32 => HexValue(s[CharIndex(i)]).value))
    else None
  }

  /** Reading back the text `toString` wrote gives the same UUID. */
  lemma FromStringToString(u: Uuid)
    ensures FromString(ToString(u)) == Some(u)
  {
    var s := ToString(u);
    forall k | 0 <= k < 36 && !IsDashPosition(k)
      ensures HexValue(s[k]) == Some(u[NibbleIndex(k)])
    {
      var n := u[NibbleIndex(k)];
      assert s[k] == HexDigits[n];
    }
    assert IsUuidText(s);
    var v := FromString(s).value;
    forall i | 0 <= i < 32
      ensures v[i] == u[i]
    {
      assert HexValue(s[CharIndex(i)]) == Some(u[i]);
    }
    assert v == u;
  }

  /** Distinct UUIDs have distinct texts, so a joined list of them can be told apart. */
  lemma ToStringInjective(u: Uuid, w: Uuid)
    requires ToString(u) == ToString(w)
    ensures u == w
  {
    FromStringToString(u);
    FromStringToString(w);
  }

  /** No digit `toString` writes is whitespace, so a UUID's text is never blank. */
  lemma HexCharIsNotWhitespace(n: Nibble)
    ensures !JavaText.IsWhitespace(HexChar(n))
  {
    var c := HexChar(n);
    assert '0' <= c <= '9' || 'a' <= c <= 'f';
  }

  /** Whitespace-only and empty text is never a UUID. */
  lemma BlankIsNotUuid(s: string)
    requires JavaText.IsBlank(s)
    ensures FromString(s) == None
  {
    if |s| == 36 {
      assert !JavaText.IsWhitespace('-');
      assert s[8] != '-';
    }
  }
}
