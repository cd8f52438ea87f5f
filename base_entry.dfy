/**
 * `BaseEntry`: what every entry handle shares: its document, its key and its
 * normalise option, and the conversion and normalisation pipeline used on
 * the get path and on the put path.
 */
module BaseEntries {
  import opened Wrappers
  import opened Values
  import opened Text
  import opened Documents

  /** A key that an entry accepts: non-null and non-empty. */
  type Key = k: string | k != [] witness "k"

  /** The length to which the original value is abbreviated in a conversion failure message. */
  const MaxValueTextLength: nat := 100

  const InvalidKeyMessage := "Invalid key was provided (null or empty string)"

  /** An entry handle; its three fields are set once, by `NewBaseEntry`. */
  datatype BaseEntry = BaseEntry(document: Document, key: Key, normaliseOption: NormaliseOption)

  /**
   * The constructor: the key is checked first (null or empty is an invalid
   * argument), then the document and the normalise option (null is rejected).
   */
  function NewBaseEntry(document: Document?, key: Option<string>, normaliseOption: Option<NormaliseOption>)
    : (r: Result<BaseEntry, Error>)
    ensures r.Success? <==> key.Some? && key.value != [] && document != null && normaliseOption.Some?
    ensures (key.None? || key.value == []) ==> r == Failure(InvalidArgument(InvalidKeyMessage, None))
    ensures key.Some? && key.value != [] && (document == null || normaliseOption.None?) ==> r == Failure(NullArgument)
    ensures r.Success? ==>
      && GetKey(r.value) == key.value
      && r.value.document == document
      && r.value.normaliseOption == normaliseOption.value
  {
    if key.None? || key.value == [] then Failure(InvalidArgument(InvalidKeyMessage, None))
    else if document == null then Failure(NullArgument)
    else if normaliseOption.None? then Failure(NullArgument)
    else Success(BaseEntry(document, key.value, normaliseOption.value))
  }

  function GetKey(e: BaseEntry): string
  {
    e.key
  }

  const ConvertIntro := "Unable to convert value to "
  const FieldIntro := "' while retrieving document field '"
  const ValueIntro := "'. Actual value was ["

  /** The part of a failure message that names the original value's class, empty for `null`. */
  function ClassPart(value: Value): string
  {
    if value.Null? then "" else " of type '" + ClassText(value) + "'"
  }

  /**
   * The message of the invalid-argument error that replaces a converter failure.
   * `valueText` is the original value abbreviated to `MaxValueTextLength`.
   */
  function ConversionFailureMessage(key: string, dest: TypeDesc, value: Value, valueText: string): string
  {
    if dest.shape != Plain then
      ConvertIntro + "'" + dest.name + FieldIntro + key + "'"
    else
      ConvertIntro + "type '" + dest.name + FieldIntro + key + (ValueIntro + valueText + "]" + ClassPart(value))
  }

  /** A message laid out as `intro + a + name + field + key + rest` starts with `intro` and names `name` and `key`. */
  lemma SegmentFacts(intro: string, a: string, name: string, field: string, key: string, rest: string)
    ensures var m := intro + a + name + field + key + rest;
      StartsWith(m, intro) && Contains(m, name) && Contains(m, key)
  {
    var m := intro + a + name + field + key + rest;
    assert m == intro + (a + name + field + key + rest);
    StartsWithLeft(intro, a + name + field + key + rest);
    assert m == (intro + a) + name + (field + key + rest);
    ContainsMiddle(intro + a, name, field + key + rest);
    assert m == (intro + a + name + field) + key + rest;
    ContainsMiddle(intro + a + name + field, key, rest);
  }

  /** A message laid out as `head + open + text + close + tail` shows `text` and ends with `tail`, or with `close` when `tail` is empty. */
  lemma ShownValueFacts(head: string, open: string, text: string, close: string, tail: string)
    ensures var m := head + (open + text + close + tail);
      && Contains(m, text)
      && EndsWith(m, tail)
      && (tail == [] ==> EndsWith(m, close))
  {
    var m := head + (open + text + close + tail);
    assert m == (head + open) + text + (close + tail);
    ContainsMiddle(head + open, text, close + tail);
    assert m == (head + open + text + close) + tail;
    EndsWithRight(head + open + text + close, tail);
    if tail == [] {
      assert m == (head + open + text) + close;
      EndsWithRight(head + open + text, close);
    }
  }

  /**
   * Every conversion failure message names the destination type and the field;
   * for a destination that is neither a collection nor an array it also shows
   * the abbreviated value and, exactly when the value is not null, its class.
   */
  lemma ConversionFailureMessageContents(key: string, dest: TypeDesc, value: Value, valueText: string)
    ensures var m := ConversionFailureMessage(key, dest, value, valueText);
      && StartsWith(m, ConvertIntro)
      && Contains(m, dest.name)
      && Contains(m, key)
    ensures var m := ConversionFailureMessage(key, dest, value, valueText);
      dest.shape == Plain ==>
        && Contains(m, valueText)
        && (value.Null? ==> EndsWith(m, "]"))
        && (!value.Null? ==> EndsWith(m, " of type '" + ClassText(value) + "'"))
  {
    if dest.shape != Plain {
      SegmentFacts(ConvertIntro, "'", dest.name, FieldIntro, key, "'");
    } else {
      var rest := ValueIntro + valueText + "]" + ClassPart(value);
      SegmentFacts(ConvertIntro, "type '", dest.name, FieldIntro, key, rest);
      ShownValueFacts(ConvertIntro + "type '" + dest.name + FieldIntro + key, ValueIntro, valueText, "]", ClassPart(value));
    }
  }

  /**
   * `getConvertedValue(value, dest, source)`: the converter's output exactly, or
   * its failure rethrown as an invalid argument that carries the field context
   * and keeps the converter's failure as its cause.
   */
  function GetConvertedValue(e: BaseEntry, value: Value, dest: TypeDesc, source: Option<TypeDesc>)
    : (r: Result<Value, Error>)
    ensures var c := e.document.platform.convert(value, source, dest);
      && (c.Success? ==> r == Success(c.value))
      && (c.Failure? ==> r.Failure? && r.error.InvalidArgument? && r.error.cause == Some(c.error))
    ensures r.Failure? ==>
      && r.error.InvalidArgument?
      && StartsWith(r.error.message, ConvertIntro)
      && Contains(r.error.message, dest.name)
      && Contains(r.error.message, e.key)
    ensures r.Failure? && dest.shape == Plain ==>
      && Contains(r.error.message, e.document.platform.abbreviate(value, MaxValueTextLength))
      && (value.Null? ==> EndsWith(r.error.message, "]"))
      && (!value.Null? ==> EndsWith(r.error.message, " of type '" + ClassText(value) + "'"))
  {
    var p := e.document.platform;
    match p.convert(value, source, dest)
    case Success(converted) => Success(converted)
    case Failure(cause) =>
      var valueText := p.abbreviate(value, MaxValueTextLength);
      ConversionFailureMessageContents(e.key, dest, value, valueText);
      Failure(InvalidArgument(ConversionFailureMessage(e.key, dest, value, valueText), Some(cause)))
  }

  /** `getConvertedValue(value, dest)`: the source type is the value's own runtime type. */
  function GetConvertedValueOf(e: BaseEntry, value: Value, dest: TypeDesc): (r: Result<Value, Error>)
    ensures r == GetConvertedValue(e, value, dest, ForObject(value))
    ensures value.Null? ==> r == GetConvertedValue(e, value, dest, None)
    ensures !value.Null? ==> r == GetConvertedValue(e, value, dest, Some(value.cls.descriptor))
  {
    GetConvertedValue(e, value, dest, ForObject(value))
  }

  /**
   * `convertAndNormaliseValForGet`: conversion to the accessor type always comes
   * first; its result is then normalised unless the entry says not to.
   */
  function ConvertAndNormaliseValForGet(e: BaseEntry, value: Value, accessorType: TypeDesc)
    : (r: Result<Value, Error>)
    ensures var c := GetConvertedValueOf(e, value, accessorType);
      && (c.Failure? ==> r == c)
      && (c.Success? && e.normaliseOption == DontNormalise ==> r == c)
      && (c.Success? && e.normaliseOption == Normalise ==>
            r == Success(e.document.platform.normaliseForGet(c.value)))
  {
    match GetConvertedValueOf(e, value, accessorType)
    case Failure(err) => Failure(err)
    case Success(converted) =>
      if e.normaliseOption == DontNormalise then Success(converted)
      else Success(e.document.platform.normaliseForGet(converted))
  }

  /**
   * `convertAndNormaliseValForPut`, in priority order: a declared mutator type
   * means converting to it whatever the normalise option; else the value is
   * put-normalised when normalising; else it is stored as given. Only the
   * first path can fail.
   */
  function ConvertAndNormaliseValForPut(e: BaseEntry, value: Value, mutatorType: Option<TypeDesc>)
    : (r: Result<Value, Error>)
    ensures mutatorType.Some? ==> r == GetConvertedValueOf(e, value, mutatorType.value)
    ensures mutatorType.None? && e.normaliseOption == Normalise ==>
      r == Success(e.document.platform.normaliseForPut(value))
    ensures mutatorType.None? && e.normaliseOption == DontNormalise ==> r == Success(value)
    ensures r.Failure? ==> mutatorType.Some?
  {
    if mutatorType.Some? then GetConvertedValueOf(e, value, mutatorType.value)
    else if e.normaliseOption != DontNormalise then Success(e.document.platform.normaliseForPut(value))
    else Success(value)
  }

  /** An explicit mutator type wins: on the put path the normalise option then plays no role. */
  lemma TypedPutIgnoresNormaliseOption(e: BaseEntry, value: Value, mutatorType: TypeDesc)
    ensures ConvertAndNormaliseValForPut(e.(normaliseOption := Normalise), value, Some(mutatorType))
         == ConvertAndNormaliseValForPut(e.(normaliseOption := DontNormalise), value, Some(mutatorType))
  {
  }
}
