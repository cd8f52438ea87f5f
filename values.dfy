/**
 * The value domain seen by the entry layer: Java objects stored in a document,
 * the type descriptors of the conversion service, the option enumerations and
 * the errors the layer throws.
 */
module Values {
  import opened Wrappers

  /** Whether a type descriptor denotes a `java.util.Collection`, an array, or neither. */
  datatype Shape = Plain | CollectionShape | ArrayShape

  /** A conversion type descriptor; `name` is what its `toString` prints. */
  datatype TypeDesc = TypeDesc(name: string, shape: Shape)

  /**
   * An object's runtime class, seen two ways: `descriptor` is the type descriptor
   * `TypeDescriptor.forObject` builds for it, and `printed` is what the class's
   * own `toString` prints. The two texts differ, for instance `java.lang.Integer[]`
   * against `class [Ljava.lang.Integer;`, or `java.util.ArrayList<?>` against
   * `class java.util.ArrayList`.
   */
  datatype RuntimeClass = RuntimeClass(descriptor: TypeDesc, printed: string)

  /**
   * A Java object held in a document slot: `null`, an object that is not a list
   * or array (a string, a boxed number, a nested document, ...), or a list or
   * array of elements, told apart by the shape of its class's descriptor.
   * Iterables and arrays share this one representation.
   */
  datatype Value =
    | Null
    | Atom(cls: RuntimeClass, text: string)
    | Items(cls: RuntimeClass, elems: seq<Value>)

  /** `TypeDescriptor.forObject`: the runtime type of a value, absent for `null`. */
  function ForObject(v: Value): (r: Option<TypeDesc>)
    ensures r.None? <==> v.Null?
    ensures r.Some? ==> r.value == v.cls.descriptor
  {
    if v.Null? then None else Some(v.cls.descriptor)
  }

  /** What `value.getClass()` prints when concatenated into a string. */
  function ClassText(v: Value): string
    requires !v.Null?
  {
    v.cls.printed
  }

  /**
   * The collaborators the entry layer calls but that are not part of this model:
   * the conversion service (`convert(value, sourceType, destType)`, which either
   * returns the converted value or fails with a cause), the get and put
   * normalisers, and the abbreviation of a value's text to a maximum length.
   */
  datatype Platform = Platform(
    convert: (Value, Option<TypeDesc>, TypeDesc) -> Result<Value, string>,
    normaliseForGet: Value -> Value,
    normaliseForPut: Value -> Value,
    abbreviate: (Value, nat) -> string)

  /** Whether values are normalised after a get and before a put. */
  datatype NormaliseOption = Normalise | DontNormalise

  /** What an accessor does when the entry exists but its value is `null`. */
  datatype NullValHandling = ReturnNull | ReturnDefault | FailOnNull

  /** Whether removing an absent entry throws (`Strict`) or does nothing (`Lenient`). */
  datatype RemoveEntryOption = Strict | Lenient

  /** Which expectation on an existing value was not met. */
  datatype Found = NullFound | EmptyFound

  /** The exceptions the entry layer throws. */
  datatype Error =
    | InvalidArgument(message: string, cause: Option<string>)  // IllegalArgumentException
    | NullArgument                                             // a null constructor argument
    | InexistentEntry(key: string)                             // InexistentEntryException
    | UnexpectedEntryValue(key: string, found: Found)          // UnexpectedEntryValueException
    | IncompatibleValue(key: string)                           // a converted value that is not a list
}
