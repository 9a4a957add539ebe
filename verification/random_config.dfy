/** The configuration value object: a loose attribute bag turned into eight
    validated fields that never change afterwards. Missing or non-positive
    scalars fall back to their defaults; the two bound pairs (key length and
    parameter count) are accepted or rejected as a pair. */
module RandomConfig {
  import opened Text

  /** An attribute value as a caller may supply it: PHP null, an integer, or
      a string (what a submitted form delivers). */
  datatype Raw = Null | Int(i: int) | Str(s: string)

  const AttrKeyCharacters: string := "keyCharacters"
  const AttrKeyMinLength: string := "keyMinLength"
  const AttrKeyMaxLength: string := "keyMaxLength"
  const AttrKeyMaxAttempts: string := "keyMaxAttempts"
  const AttrValueCharacters: string := "valueCharacters"
  const AttrValueLength: string := "valueLength"
  const AttrParamsMinAmount: string := "paramsMinAmount"
  const AttrParamsMaxAmount: string := "paramsMaxAmount"

  const DefaultKeyCharacters: string := "abcdefghijklmnopqrstuvwxyz"
  const DefaultValueCharacters: string := "abcdefghijklmnopqrstuvwxyz1234567890"
  const DefaultKeyLength: int := 1
  const DefaultKeyMaxAttempts: int := 5
  const DefaultValueLength: int := 8
  const DefaultParamsMinAmount: int := 5
  const DefaultParamsMaxAmount: int := 15

  /** The eight fields; the datatype's destructors are the read-only accessors
      (`getKeyCharacters()` is `c.keyCharacters`, and so on). */
  datatype Config = Config(
    keyCharacters: string,
    keyMinLength: int,
    keyMaxLength: int,
    keyMaxAttempts: int,
    valueCharacters: string,
    valueLength: int,
    paramsMinAmount: int,
    paramsMaxAmount: int)

  /** What construction guarantees of every configuration. */
  predicate Valid(c: Config) {
    && 1 <= c.keyMinLength <= c.keyMaxLength
    && 1 <= c.keyMaxAttempts
    && 1 <= c.valueLength
    && 1 <= c.paramsMinAmount <= c.paramsMaxAmount
  }

  /** PHP's `intval` of a raw value. */
  function IntValue(r: Raw): int {
    match r
    case Null => 0
    case Int(i) => i
    case Str(s) => IntVal(s)
  }

  /** A non-null raw value stored into a `string` property. */
  function StringValue(r: Raw): string
    requires !r.Null?
  {
    match r
    case Int(i) => DecimalString(i)
    case Str(s) => s
  }

  /** `$attributes[name] ?? …` finds a value. */
  predicate Supplied(attrs: map<string, Raw>, name: string) {
    name in attrs && !attrs[name].Null?
  }

  /** `intval($attributes[name] ?? 0)`. */
  function IntAttr(attrs: map<string, Raw>, name: string): int {
    if name in attrs then IntValue(attrs[name]) else 0
  }

  /** `$attributes[name] ?? default` for a string field. */
  function StringAttr(attrs: map<string, Raw>, name: string, default: string): string {
    if Supplied(attrs, name) then StringValue(attrs[name]) else default
  }

  /** `value > 0 ? value : default` for a single scalar. */
  function PositiveOr(value: int, default: int): int {
    if value > 0 then value else default
  }

  /** A bound pair the constructor takes over: both positive and ordered. */
  predicate PairAccepted(lo: int, hi: int) {
    lo > 0 && hi > 0 && lo <= hi
  }

  /** The constructor. Every field is the supplied value when that is
      acceptable and the default otherwise; the pairs move together. */
  function NewConfig(attrs: map<string, Raw>): (c: Config)
    ensures Valid(c)
    ensures Supplied(attrs, AttrKeyCharacters) ==> c.keyCharacters == StringValue(attrs[AttrKeyCharacters])
    ensures !Supplied(attrs, AttrKeyCharacters) ==> c.keyCharacters == DefaultKeyCharacters
    ensures Supplied(attrs, AttrValueCharacters) ==> c.valueCharacters == StringValue(attrs[AttrValueCharacters])
    ensures !Supplied(attrs, AttrValueCharacters) ==> c.valueCharacters == DefaultValueCharacters
    ensures IntAttr(attrs, AttrValueLength) > 0 ==> c.valueLength == IntAttr(attrs, AttrValueLength)
    ensures IntAttr(attrs, AttrValueLength) <= 0 ==> c.valueLength == DefaultValueLength
    ensures IntAttr(attrs, AttrKeyMaxAttempts) > 0 ==> c.keyMaxAttempts == IntAttr(attrs, AttrKeyMaxAttempts)
    ensures IntAttr(attrs, AttrKeyMaxAttempts) <= 0 ==> c.keyMaxAttempts == DefaultKeyMaxAttempts
    ensures var lo, hi := IntAttr(attrs, AttrKeyMinLength), IntAttr(attrs, AttrKeyMaxLength);
      && ((c.keyMinLength, c.keyMaxLength) == (lo, hi) <==> PairAccepted(lo, hi))
      && (!PairAccepted(lo, hi) ==> c.keyMinLength == c.keyMaxLength == DefaultKeyLength)
    ensures var lo, hi := IntAttr(attrs, AttrParamsMinAmount), IntAttr(attrs, AttrParamsMaxAmount);
      && ((c.paramsMinAmount, c.paramsMaxAmount) == (lo, hi) <==> PairAccepted(lo, hi))
      && (!PairAccepted(lo, hi) ==> c.paramsMinAmount == DefaultParamsMinAmount && c.paramsMaxAmount == DefaultParamsMaxAmount)
  {
    var keyMin, keyMax := IntAttr(attrs, AttrKeyMinLength), IntAttr(attrs, AttrKeyMaxLength);
    var paramsMin, paramsMax := IntAttr(attrs, AttrParamsMinAmount), IntAttr(attrs, AttrParamsMaxAmount);
    var keyAccepted := PairAccepted(keyMin, keyMax);
    var paramsAccepted := PairAccepted(paramsMin, paramsMax);
    Config(
      StringAttr(attrs, AttrKeyCharacters, DefaultKeyCharacters),
      if keyAccepted then keyMin else DefaultKeyLength,
      if keyAccepted then keyMax else DefaultKeyLength,
      PositiveOr(IntAttr(attrs, AttrKeyMaxAttempts), DefaultKeyMaxAttempts),
      StringAttr(attrs, AttrValueCharacters, DefaultValueCharacters),
      PositiveOr(IntAttr(attrs, AttrValueLength), DefaultValueLength),
      if paramsAccepted then paramsMin else DefaultParamsMinAmount,
      if paramsAccepted then paramsMax else DefaultParamsMaxAmount)
  }

  /** The configuration an empty attribute bag gives (the one the web entry
      point builds). */
  lemma EmptyBagDefaults()
    ensures NewConfig(map[]) == Config(DefaultKeyCharacters, 1, 1, 5, DefaultValueCharacters, 8, 5, 15)
  {
  }

  /** The attribute bag that names every field of `c` explicitly. */
  function AttributesOf(c: Config): map<string, Raw> {
    map[
      AttrKeyCharacters := Str(c.keyCharacters),
      AttrKeyMinLength := Int(c.keyMinLength),
      AttrKeyMaxLength := Int(c.keyMaxLength),
      AttrKeyMaxAttempts := Int(c.keyMaxAttempts),
      AttrValueCharacters := Str(c.valueCharacters),
      AttrValueLength := Int(c.valueLength),
      AttrParamsMinAmount := Int(c.paramsMinAmount),
      AttrParamsMaxAmount := Int(c.paramsMaxAmount)]
  }

  /** Reading the eight accessors of a configuration and handing them back
      to the constructor rebuilds exactly that configuration if and only if
      it is valid: construction keeps every acceptable value as given, the
      accessors return the stored fields unchanged, and nothing invalid is
      reachable. */
  lemma AccessorsRebuild(c: Config)
    ensures Valid(c) <==> NewConfig(AttributesOf(c)) == c
  {
  }

  /** An integer and its decimal text are interchangeable in the bag: a form
      that submits "12" configures the same as a caller passing 12. */
  lemma DecimalTextReadsAsNumber(attrs: map<string, Raw>, name: string, i: int)
    ensures NewConfig(attrs[name := Str(DecimalString(i))]) == NewConfig(attrs[name := Int(i)])
  {
    IntValOfDecimal(i);
  }
}
