/** The platform records the app-restrictions screen works on: a typed
    restriction entry, the values a bundle can hold, and the bundle itself
    (a plain key-to-value map). */
module RestrictionEntries {

  /** A 32-bit Java `int`, the width of an entry's integer value. */
  newtype Int32 = x: int | -0x8000_0000 <= x < 0x8000_0000

  /** The type tag of a restriction entry. `Other(tag)` stands for every tag
      the pre-M fallback conversion does not recognise (types added after L);
      it keeps the platform's numeric tag, which the error message prints. */
  datatype RestrictionType =
    | Boolean
    | Integer
    | String
    | Null
    | Choice
    | MultiSelect
    | Other(tag: int)

  /** A restriction entry: its key, its type tag and the value fields the
      conversion may read, one per kind of value. */
  datatype RestrictionEntry = RestrictionEntry(
    key: string,
    kind: RestrictionType,
    selectedState: bool,
    intValue: Int32,
    selectedString: string,
    allSelectedStrings: seq<string>)

  /** A value stored in a bundle, tagged by the `put` call that stored it. */
  datatype Value =
    | BoolValue(b: bool)
    | IntValue(n: Int32)
    | StringValue(s: string)
    | StringArrayValue(ss: seq<string>)

  /** A bundle: a map from keys to values; a later `put` for a key replaces
      the earlier one. */
  type Bundle = map<string, Value>

  /** The exception thrown for an entry of an unsupported type; it carries
      that type, as the message "Unsupported restrictionEntry type: <type>" does. */
  datatype ConversionError = UnsupportedType(kind: RestrictionType)

  datatype Result<T> = Ok(value: T) | Err(error: ConversionError)

  datatype Option<T> = None | Some(value: T)
}
