/**
 * The registration table's values: handlers and the optional metadata that
 * `register` records for a shortcode name.
 */
module Registry {
  import opened Common

  /** A handler passed to `register`; only invokable values are recorded. */
  datatype Callback = Callable(handler: string) | NotCallable

  /**
   * The options array given to `register`. The two keys the parser reads are modelled,
   * an absent key being None; `otherKeys` says whether the array holds any other key.
   * Only the empty array is falsy in PHP.
   */
  datatype RawOptions = RawOptions(hasStartAndEnd: Option<bool>, expectedResult: Option<string>, otherKeys: bool)

  /** Recorded metadata once the defaults are merged in. */
  datatype Metadata = Metadata(hasStartAndEnd: bool, expectedResult: string)

  const RESULT_TEXT := "text"
  const RESULT_INLINE := "inline"
  const RESULT_BLOCK := "block"
  const RESULT_MIXED := "mixed"

  /** PHP truthiness of the options argument: null and the empty array are false. */
  predicate OptionsGiven(options: Option<RawOptions>) {
    options.Some? && (options.value.hasStartAndEnd.Some? || options.value.expectedResult.Some? || options.value.otherKeys)
  }

  /**
   * `array_merge($defaultOptions, $options)`: every key the caller gave wins, and a
   * missing key takes its default (no start/end pair, text result).
   */
  function MergeOptions(o: RawOptions): (m: Metadata)
    ensures o.hasStartAndEnd.Some? ==> m.hasStartAndEnd == o.hasStartAndEnd.value
    ensures o.hasStartAndEnd.None? ==> !m.hasStartAndEnd
    ensures o.expectedResult.Some? ==> m.expectedResult == o.expectedResult.value
    ensures o.expectedResult.None? ==> m.expectedResult == RESULT_TEXT
  {
    Metadata(o.hasStartAndEnd.GetOr(false), o.expectedResult.GetOr(RESULT_TEXT))
  }
}
