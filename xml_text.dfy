/**
 * The text-level rules of the XML writer: the two escape tables of `EncodeText`, the escaping they
 * define as a per-character map, the first-reserved-character search `IndexOfAny`, the CDATA
 * delimiters, and the invariant-culture decimal text of the integer scalars.
 */
module XmlText {
  import opened Wrappers

  /** The characters `EncodeText` escapes in element text (its `EscapeChars` table). */
  const ElementEscapes: set<char> := {'<', '>', '&'}

  /** The characters `EncodeText` escapes in attribute values (its `EscapeCharsAttribute` table). */
  const AttributeEscapes: set<char> := {'<', '>', '&', '\'', '"', '\n', '\r', '\t'}

  function EscapeSet(attribute: bool): (r: set<char>)
    ensures ElementEscapes <= r <= AttributeEscapes
  {
    if attribute then AttributeEscapes else ElementEscapes
  }

  /** The replacement text of one reserved character (the `switch` of `EncodeText`). */
  function Entity(c: char): (r: string)
    requires c in AttributeEscapes
    ensures |r| >= 4 && r[0] == '&' && r[|r| - 1] == ';'
  {
    match c
    case '<' => "&lt;"
    case '>' => "&gt;"
    case '&' => "&amp;"
    case '\'' => "&apos;"
    case '"' => "&quot;"
    case '\n' => "&#xA;"
    case '\r' => "&#xD;"
    case '\t' => "&#x9;"
  }

  function EscapeChar(c: char, attribute: bool): string {
    if c in EscapeSet(attribute) then Entity(c) else [c]
  }

  /** The text `EncodeText(s, attribute)` appends: each character replaced by its escape. */
  function Escape(s: string, attribute: bool): string {
    if s == [] then [] else EscapeChar(s[0], attribute) + Escape(s[1..], attribute)
  }

  /** Escaping is a homomorphism of concatenation. */
  lemma {:induction false} EscapeConcat(a: string, b: string, attribute: bool)
    ensures Escape(a + b, attribute) == Escape(a, attribute) + Escape(b, attribute)
  {
    if a == [] {
      assert a + b == b;
    } else {
      assert (a + b)[0] == a[0];
      assert (a + b)[1..] == a[1..] + b;
      EscapeConcat(a[1..], b, attribute);
    }
  }

  /** Text without reserved characters is written unchanged. */
  lemma {:induction false} EscapePlain(s: string, attribute: bool)
    requires forall i :: 0 <= i < |s| ==> s[i] !in EscapeSet(attribute)
    ensures Escape(s, attribute) == s
  {
    if s != [] {
      EscapePlain(s[1..], attribute);
      assert s == [s[0]] + s[1..];
    }
  }

  lemma EscapeOne(c: char, attribute: bool)
    ensures Escape([c], attribute) == EscapeChar(c, attribute)
  {
    assert [c][1..] == [];
  }

  /** The characters that never occur in escaped text: every reserved character except `&`. */
  ghost predicate FreeOfReserved(s: string, attribute: bool) {
    forall i :: 0 <= i < |s| ==> s[i] == '&' || s[i] !in EscapeSet(attribute)
  }

  /**
   * Escaped text holds no reserved character other than the `&` that starts an entity, so it cannot
   * end an attribute value or open a tag.
   */
  lemma {:induction false} EscapeFreeOfReserved(s: string, attribute: bool)
    ensures FreeOfReserved(Escape(s, attribute), attribute)
  {
    if s != [] {
      EscapeFreeOfReserved(s[1..], attribute);
      var e, rest := EscapeChar(s[0], attribute), Escape(s[1..], attribute);
      assert FreeOfReserved(e, attribute);
      assert Escape(s, attribute) == e + rest;
    }
  }

  /** `s` begins with `p`. */
  predicate StartsWith(s: string, p: string) {
    |p| <= |s| && s[..|p|] == p
  }

  lemma NotStartsWith(s: string, p: string, i: nat)
    requires i < |p| && i < |s| && s[i] != p[i]
    ensures !StartsWith(s, p)
  {
  }

  lemma StartsWithConcat(e: string, rest: string)
    ensures StartsWith(e + rest, e) && (e + rest)[|e|..] == rest
  {
    assert (e + rest)[..|e|] == e;
  }

  /**
   * The character reference at the start of `s`, with its length: the eight references `Entity`
   * produces, as an XML reader decodes them (section 4.6 of the XML 1.0 recommendation for the
   * named ones, section 4.1 for `&#xA;`, `&#xD;` and `&#x9;`).
   */
  function EntityAt(s: string): (r: Option<(char, nat)>)
    ensures r.Some? ==> 1 <= r.value.1 <= |s|
  {
    if StartsWith(s, "&lt;") then Some(('<', 4))
    else if StartsWith(s, "&gt;") then Some(('>', 4))
    else if StartsWith(s, "&amp;") then Some(('&', 5))
    else if StartsWith(s, "&apos;") then Some(('\'', 6))
    else if StartsWith(s, "&quot;") then Some(('"', 6))
    else if StartsWith(s, "&#xA;") then Some(('\n', 5))
    else if StartsWith(s, "&#xD;") then Some(('\r', 5))
    else if StartsWith(s, "&#x9;") then Some(('\t', 5))
    else None
  }

  /** The reader-side decoding of escaped text: every character reference replaced by its character. */
  function Unescape(s: string): string
    decreases |s|
  {
    if s == [] then []
    else if s[0] != '&' then [s[0]] + Unescape(s[1..])
    else
      match EntityAt(s)
      case Some((c, n)) => [c] + Unescape(s[n..])
      case None => [s[0]] + Unescape(s[1..])
  }

  lemma EntityAtEntity(c: char, rest: string)
    requires c in AttributeEscapes
    ensures EntityAt(Entity(c) + rest) == Some((c, |Entity(c)|))
  {
    var e := Entity(c);
    var s := e + rest;
    StartsWithConcat(e, rest);
    assert s[1] == e[1] && s[2] == e[2] && s[3] == e[3];
    match c
    case '<' =>
    case '>' => NotStartsWith(s, "&lt;", 1);
    case '&' =>
      NotStartsWith(s, "&lt;", 1);
      NotStartsWith(s, "&gt;", 1);
    case '\'' =>
      NotStartsWith(s, "&lt;", 1);
      NotStartsWith(s, "&gt;", 1);
      NotStartsWith(s, "&amp;", 2);
    case '"' =>
      NotStartsWith(s, "&lt;", 1);
      NotStartsWith(s, "&gt;", 1);
      NotStartsWith(s, "&amp;", 1);
      NotStartsWith(s, "&apos;", 1);
    case '\n' =>
      NotStartsWith(s, "&lt;", 1);
      NotStartsWith(s, "&gt;", 1);
      NotStartsWith(s, "&amp;", 1);
      NotStartsWith(s, "&apos;", 1);
      NotStartsWith(s, "&quot;", 1);
    case '\r' =>
      NotStartsWith(s, "&lt;", 1);
      NotStartsWith(s, "&gt;", 1);
      NotStartsWith(s, "&amp;", 1);
      NotStartsWith(s, "&apos;", 1);
      NotStartsWith(s, "&quot;", 1);
      NotStartsWith(s, "&#xA;", 3);
    case '\t' =>
      NotStartsWith(s, "&lt;", 1);
      NotStartsWith(s, "&gt;", 1);
      NotStartsWith(s, "&amp;", 1);
      NotStartsWith(s, "&apos;", 1);
      NotStartsWith(s, "&quot;", 1);
      NotStartsWith(s, "&#xA;", 3);
      NotStartsWith(s, "&#xD;", 3);
  }

  lemma UnescapeEntity(c: char, rest: string)
    requires c in AttributeEscapes
    ensures Unescape(Entity(c) + rest) == [c] + Unescape(rest)
  {
    var e := Entity(c);
    EntityAtEntity(c, rest);
    StartsWithConcat(e, rest);
    assert (e + rest)[0] == '&';
  }

  lemma UnescapePlain(c: char, rest: string)
    requires c != '&'
    ensures Unescape([c] + rest) == [c] + Unescape(rest)
  {
    var s := [c] + rest;
    assert s[0] == c;
    assert s[1..] == rest;
  }

  /** Decoding undoes escaping in both modes: an escaped attribute value reads back as the original text. */
  lemma {:induction false} UnescapeEscape(s: string, attribute: bool)
    ensures Unescape(Escape(s, attribute)) == s
  {
    if s != [] {
      UnescapeEscape(s[1..], attribute);
      var c := s[0];
      if c in EscapeSet(attribute) {
        UnescapeEntity(c, Escape(s[1..], attribute));
      } else {
        UnescapePlain(c, Escape(s[1..], attribute));
      }
      assert s == [c] + s[1..];
    }
  }

  /** `ReadOnlySpan<char>.IndexOfAny`: the first position holding one of `chars`, or -1. */
  function IndexOfAny(s: string, chars: set<char>): (r: int)
    ensures -1 <= r < |s|
    ensures r == -1 ==> forall i :: 0 <= i < |s| ==> s[i] !in chars
    ensures r >= 0 ==> s[r] in chars && forall i :: 0 <= i < r ==> s[i] !in chars
  {
    if s == [] then -1
    else if s[0] in chars then 0
    else
      var r := IndexOfAny(s[1..], chars);
      if r == -1 then -1 else r + 1
  }

  /** The two CDATA delimiters; they are constants of `XmlReadBuffer`, which is not part of this model. */
  const CDataStart: string := "<![CDATA["
  const CDataEnd: string := "]]>"

  /** How `PutCData` writes text. */
  datatype CDataMode = Off | On | OnEncode

  // ---------------------------------------------------------------------------------------------
  // Integer scalars: the invariant-culture text of Int32/UInt32/Int64/Byte values.

  newtype Int32 = x: int | -0x8000_0000 <= x < 0x8000_0000
  newtype UInt32 = x: int | 0 <= x < 0x1_0000_0000
  newtype Int64 = x: int | -0x8000_0000_0000_0000 <= x < 0x8000_0000_0000_0000
  newtype Byte = x: int | 0 <= x < 0x100

  predicate IsDigit(c: char) {
    '0' <= c <= '9'
  }

  /** The decimal digits of `n`, most significant first, without leading zeros. */
  function Digits(n: nat): (r: string)
    ensures |r| >= 1 && forall i :: 0 <= i < |r| ==> IsDigit(r[i])
    ensures r[0] == '0' ==> n == 0
  {
    if n < 10 then ['0' + n as char] else Digits(n / 10) + ['0' + (n % 10) as char]
  }

  /** `TryFormat(..., default, CultureInfo.InvariantCulture)` of an integer: a `-` sign, then digits. */
  function DecimalText(n: int): string {
    if n < 0 then "-" + Digits(-n) else Digits(n)
  }

  /** The value a run of decimal digits denotes. */
  function DigitsValue(s: string): nat
    requires forall i :: 0 <= i < |s| ==> IsDigit(s[i])
  {
    if s == [] then 0
    else
      var d := s[|s| - 1];
      assert IsDigit(s[|s| - 1]);
      DigitsValue(s[..|s| - 1]) * 10 + (d as int - '0' as int)
  }

  /** The inverse of `DecimalText`, the invariant-culture parse of an integer. */
  function ParseDecimal(s: string): Option<int> {
    if |s| >= 2 && s[0] == '-' && forall i :: 1 <= i < |s| ==> IsDigit(s[i]) then Some(-(DigitsValue(s[1..]) as int))
    else if |s| >= 1 && forall i :: 0 <= i < |s| ==> IsDigit(s[i]) then Some(DigitsValue(s))
    else None
  }

  lemma {:induction false} DigitsValueDigits(n: nat)
    ensures DigitsValue(Digits(n)) == n
  {
    if n >= 10 {
      DigitsValueDigits(n / 10);
      var d := Digits(n);
      assert d[..|d| - 1] == Digits(n / 10);
    }
  }

  /** Decimal text reads back as the integer it was formatted from. */
  lemma DecimalRoundTrip(n: int)
    ensures ParseDecimal(DecimalText(n)) == Some(n)
  {
    if n < 0 {
      DigitsValueDigits(-n);
      assert DecimalText(n)[1..] == Digits(-n);
    } else {
      DigitsValueDigits(n);
    }
  }

  /** Decimal text holds only digits and `-`, so escaping leaves it unchanged in either mode. */
  lemma DecimalTextNeedsNoEscape(n: int, attribute: bool)
    ensures Escape(DecimalText(n), attribute) == DecimalText(n)
  {
    var t := DecimalText(n);
    assert forall i :: 0 <= i < |t| ==> t[i] == '-' || IsDigit(t[i]);
    EscapePlain(t, attribute);
  }

  /** The scalar values `PutValue` distinguishes; `Formatted` stands for the library-formatted ones. */
  datatype Scalar =
    | IntValue(i: Int32)
    | UIntValue(u: UInt32)
    | LongValue(l: Int64)
    | CharValue(c: char)
    | BoolValue(b: bool)
    | ByteValue(n: Byte)
    | Formatted(text: string)

  /** The one character a boolean is written as. */
  function BoolChar(b: bool): char {
    if b then '1' else '0'
  }

  /** The text `PutValue` writes for a scalar, after closing a pending head. */
  function ScalarText(v: Scalar): string {
    match v
    case IntValue(i) => DecimalText(i as int)
    case UIntValue(u) => DecimalText(u as int)
    case LongValue(l) => DecimalText(l as int)
    case CharValue(c) => [c]
    case BoolValue(b) => [BoolChar(b)]
    case ByteValue(n) => DecimalText(n as int)
    case Formatted(text) => text
  }

  /**
   * Integer and boolean scalars are written as text that needs no escaping; a `char` scalar is
   * written raw and can be a reserved character.
   */
  lemma ScalarTextNeedsNoEscape(v: Scalar, attribute: bool)
    requires !v.Formatted?
    ensures v.CharValue? ==> (Escape(ScalarText(v), attribute) == ScalarText(v) <==> v.c !in EscapeSet(attribute))
    ensures !v.CharValue? ==> Escape(ScalarText(v), attribute) == ScalarText(v)
  {
    match v
    case IntValue(i) => DecimalTextNeedsNoEscape(i as int, attribute);
    case UIntValue(u) => DecimalTextNeedsNoEscape(u as int, attribute);
    case LongValue(l) => DecimalTextNeedsNoEscape(l as int, attribute);
    case ByteValue(n) => DecimalTextNeedsNoEscape(n as int, attribute);
    case CharValue(c) =>
      EscapeOne(c, attribute);
      if c in EscapeSet(attribute) {
        assert |Entity(c)| >= 4;
      }
    case BoolValue(b) => EscapeOne(BoolChar(b), attribute);
  }
}
