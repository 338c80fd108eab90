/** The concrete syntax of JSON texts and what they mean, and the texts the parser takes. */
module Grammar {
  import opened Bytes
  import opened JsonTree
  import opened NumberCodec
  import opened StringCodec
  import opened RoundTrip
  import Utf8

  // ---------- Strings (section 7) ----------

  /** A byte that stands for itself, a two-character escape, or a \u escape for a code unit. The
      parser also takes a \u in front of four bytes that are no digits, and a backslash at the end. */
  datatype Char =
    | Plain(b: byte)
    | Short(letter: byte)
    | Unit(unit: nat, digits: bytes)
    | Garbled(four: bytes)
    | Dangling

  /** The two-character escapes: the letter, and what it stands for. */
  const SHORT_ESCAPES: map<char, nat> :=
    map['\"' := 0x22, '\\' := 0x5C, '/' := 0x2F, 'b' := 0x08, 'f' := 0x0C, 'n' := 0x0A, 'r' := 0x0D, 't' := 0x09]

  function CharText(c: Char): bytes {
    match c
    case Plain(b) => [b]
    case Short(letter) => [BACKSLASH, letter]
    case Unit(_, digits) => [BACKSLASH, LOWER_U] + digits
    case Garbled(four) => [BACKSLASH, LOWER_U] + four
    case Dangling => [BACKSLASH]
  }

  function CharsText(cs: seq<Char>): bytes {
    if cs == [] then [] else CharText(cs[0]) + CharsText(cs[1..])
  }

  function StringText(cs: seq<Char>): bytes {
    [QUOTE] + CharsText(cs) + [QUOTE]
  }

  /** The code unit of a \u escape. */
  function UnitOf(c: Char): nat {
    if c.Unit? then c.unit else 0
  }

  predicate StartsPair(cs: seq<Char>) {
    |cs| > 1 && cs[0].Unit? && cs[1].Unit? && IsHighSurrogate(UnitOf(cs[0])) && IsLowSurrogate(UnitOf(cs[1]))
  }

  /** No surrogate stands alone. */
  ghost predicate NoLoneSurrogate(cs: seq<Char>) {
    cs == [] ||
    (if StartsPair(cs) then NoLoneSurrogate(cs[2..])
     else !IsHighSurrogate(UnitOf(cs[0])) && !IsLowSurrogate(UnitOf(cs[0])) && NoLoneSurrogate(cs[1..]))
  }

  function ShortMeaning(letter: char): byte
    requires letter in SHORT_ESCAPES
  {
    SHORT_ESCAPES[letter] as byte
  }

  /** What one character other than half a pair means in UTF-8. */
  function CharMeaning(c: Char): bytes {
    match c
    case Plain(b) => [b]
    case Short(letter) => if letter as char in SHORT_ESCAPES then [ShortMeaning(letter as char)] else []
    case Unit(unit, _) => if Utf8.IsScalar(unit) then Utf8.Encode(unit) else []
    case Garbled(_) => [NUL]
    case Dangling => [QUOTE]
  }

  function CharsMeaning(cs: seq<Char>): bytes {
    if cs == [] then []
    else if StartsPair(cs) then
      Utf8.Encode(JoinSurrogates(UnitOf(cs[0]), UnitOf(cs[1]))) + CharsMeaning(cs[2..])
    else CharMeaning(cs[0]) + CharsMeaning(cs[1..])
  }

  // ---------- Numbers (section 6) ----------

  datatype Exponent = NoExponent | Exponent(letter: byte, sign: bytes, digits: bytes)

  /** `dot` says whether there is a decimal point. */
  datatype Num = Num(minus: bool, whole: bytes, dot: bool, fraction: bytes, exponent: Exponent)

  ghost predicate AllDigits(s: bytes) {
    forall i | 0 <= i < |s| :: IsDigit(s[i])
  }

  ghost predicate ExponentFormed(e: Exponent) {
    e.Exponent? ==>
      && (e.letter == LOWER_E || e.letter == UPPER_E)
      && (e.sign == [] || e.sign == [PLUS] || e.sign == [MINUS])
      && AllDigits(e.digits) && e.digits != []
  }

  /** The numbers of strtod, with a digit or a minus sign in front: leading zeros, no digits in front
      of the point or none behind it. */
  ghost predicate NumLax(n: Num) {
    && AllDigits(n.whole) && AllDigits(n.fraction) && ExponentFormed(n.exponent)
    && (n.whole != [] || n.fraction != []) && (n.fraction != [] ==> n.dot) && (n.whole == [] ==> n.minus)
  }

  function ExponentText(e: Exponent): bytes {
    if e.NoExponent? then [] else [e.letter] + (e.sign + e.digits)
  }

  function FractionText(dot: bool, fraction: bytes): bytes {
    if dot then [DOT] + fraction else []
  }

  function NumText(n: Num): bytes {
    (if n.minus then [MINUS] else []) + (n.whole + (FractionText(n.dot, n.fraction) + ExponentText(n.exponent)))
  }

  ghost function Power(e: Exponent): int
    requires ExponentFormed(e)
  {
    if e.NoExponent? then 0
    else
      var k: int := NatOf(e.digits);
      if e.sign == [MINUS] then -k else k
  }

  /** The number before the exponent, without its sign. */
  ghost function Mantissa(n: Num): real
    requires NumLax(n)
  {
    NatOf(n.whole) as real + NatOf(n.fraction) as real * Pow10(-|n.fraction|)
  }

  ghost function NumValue(n: Num): real {
    if NumLax(n) then
      var x := Mantissa(n) * Pow10(Power(n.exponent)); if n.minus then -x else x
    else 0.0
  }

  // ---------- Values, arrays and objects (sections 3 to 5) ----------

  datatype Text =
    | NullWord
    | FalseWord
    | TrueWord
    | NumberText(n: Num)
    | CharSeq(cs: seq<Char>)
    | EmptyArray(blank: bytes)
    | FullArray(elements: Elements)
    | EmptyObject(blank: bytes)
    | FullObject(fields: Fields)

  datatype Elements =
    | LastElement(before: bytes, value: Text, after: bytes)
    | Element(before: bytes, value: Text, after: bytes, rest: Elements)

  /** A member with the whitespace around its key, its colon and its value. */
  datatype Fields =
    | LastField(before: bytes, key: seq<Char>, afterKey: bytes, beforeValue: bytes, value: Text, after: bytes)
    | Field(before: bytes, key: seq<Char>, afterKey: bytes, beforeValue: bytes, value: Text, after: bytes, rest: Fields)

  function Spelled(t: Text): bytes {
    match t
    case NullWord => NULL_TEXT
    case FalseWord => FALSE_TEXT
    case TrueWord => TRUE_TEXT
    case NumberText(n) => NumText(n)
    case CharSeq(cs) => StringText(cs)
    case EmptyArray(blank) => [LEFT_BRACKET] + (blank + [RIGHT_BRACKET])
    case FullArray(elements) => [LEFT_BRACKET] + (ElementsSpelled(elements) + [RIGHT_BRACKET])
    case EmptyObject(blank) => [LEFT_BRACE] + (blank + [RIGHT_BRACE])
    case FullObject(fields) => [LEFT_BRACE] + (FieldsSpelled(fields) + [RIGHT_BRACE])
  }

  function ElementsSpelled(l: Elements): bytes {
    l.before + (Spelled(l.value) + (l.after + if l.Element? then [COMMA] + ElementsSpelled(l.rest) else []))
  }

  /** A member up to its value. */
  function KeySpelled(l: Fields): bytes {
    l.before + (StringText(l.key) + (l.afterKey + ([COLON] + l.beforeValue)))
  }

  function FieldsSpelled(l: Fields): bytes {
    KeySpelled(l) + (Spelled(l.value) + (l.after + if l.Field? then [COMMA] + FieldsSpelled(l.rest) else []))
  }

  /** The string a reader of the tree sees: \u0000 ends it. */
  function StringMeaning(cs: seq<Char>): bytes {
    CString(CharsMeaning(cs))
  }

  /** The value of a text. */
  ghost function Meaning(t: Text): Json {
    match t
    case NullWord => Null
    case FalseWord => False
    case TrueWord => True
    case NumberText(n) => Number(NumValue(n))
    case CharSeq(cs) => Str(StringMeaning(cs))
    case EmptyArray(_) => Array(NoItems)
    case FullArray(elements) => Array(ElementsMeaning(elements))
    case EmptyObject(_) => Object(NoMembers)
    case FullObject(fields) => Object(FieldsMeaning(fields))
  }

  ghost function ElementsMeaning(l: Elements): Items {
    Item(Meaning(l.value), if l.Element? then ElementsMeaning(l.rest) else NoItems)
  }

  ghost function FieldsMeaning(l: Fields): Members {
    Member(StringMeaning(l.key), Meaning(l.value), if l.Field? then FieldsMeaning(l.rest) else NoMembers)
  }

  /** What the parser insists on besides, apart from the nesting: every number fits its copy of 63
      bytes, and no surrogate stands alone. */
  ghost predicate Regular(t: Text) {
    match t
    case NumberText(n) => |NumText(n)| <= 63
    case CharSeq(cs) => NoLoneSurrogate(cs)
    case FullArray(elements) => ElementsRegular(elements)
    case FullObject(fields) => FieldsRegular(fields)
    case _ => true
  }

  ghost predicate ElementsRegular(l: Elements) {
    Regular(l.value) && (l.Element? ==> ElementsRegular(l.rest))
  }

  ghost predicate FieldsRegular(l: Fields) {
    NoLoneSurrogate(l.key) && Regular(l.value) && (l.Field? ==> FieldsRegular(l.rest))
  }

  // ---------- The texts the parser takes ----------

  ghost predicate CharLax(c: Char) {
    match c
    case Plain(b) => b != BACKSLASH
    case Short(letter) => letter as char in SHORT_ESCAPES
    case Unit(unit, digits) => WritesUnit(digits, unit)
    case Garbled(four) => |four| == 4 && !exists unit :: WritesUnit(four, unit)
    case Dangling => true
  }

  ghost predicate CharsLax(cs: seq<Char>) {
    forall i | 0 <= i < |cs| :: CharLax(cs[i]) && (cs[i].Dangling? ==> i == |cs| - 1)
  }

  /** Every quote has a backslash in front that has none itself: the body ends where it ends. */
  ghost predicate Guarded(body: bytes)
    decreases |body|
  {
    body == [] ||
    (if body[0] == BACKSLASH then |body| > 1 && Guarded(body[2..]) else body[0] != QUOTE && Guarded(body[1..]))
  }

  ghost predicate StringLax(cs: seq<Char>) {
    CharsLax(cs) && Guarded(CharsText(cs))
  }

  /** Blanks are all bytes up to the space. */
  ghost predicate Lax(t: Text) {
    match t
    case NullWord => true
    case FalseWord => true
    case TrueWord => true
    case NumberText(n) => NumLax(n)
    case CharSeq(cs) => StringLax(cs)
    case EmptyArray(blank) => Blank(blank)
    case FullArray(elements) => ElementsLax(elements)
    case EmptyObject(blank) => Blank(blank)
    case FullObject(fields) => FieldsLax(fields)
  }

  ghost predicate ElementsLax(l: Elements) {
    Blank(l.before) && Lax(l.value) && Blank(l.after) && (l.Element? ==> ElementsLax(l.rest))
  }

  ghost predicate FieldsLax(l: Fields) {
    && Blank(l.before) && StringLax(l.key) && Blank(l.afterKey) && Blank(l.beforeValue)
    && Lax(l.value) && Blank(l.after) && (l.Field? ==> FieldsLax(l.rest))
  }
}
