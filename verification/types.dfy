/**
 * The shapes of src/types.ts as values: sort options, the language
 * configuration union, compiled patterns and matchers.
 */
module Types {
  import opened Wrappers

  /**
   * A compiled regular expression, known by its source text and flags
   * (`new RegExp(source, flags)`). What it matches is not modelled here:
   * the operations that run a pattern take the matching engine as a parameter.
   */
  datatype Regex = Regex(source: string, flags: string)

  /** The options of one sort call; a separator override is a compiled pattern. */
  datatype Options = Options(
    shouldRemoveDuplicates: bool,
    shouldPrependCustomClasses: bool,
    customTailwindPrefix: string,
    separator: Option<Regex>,
    replacement: Option<string>)

  /**
   * A language configuration as it arrives from user configuration: a
   * pattern string, a list of configurations (all strings, or mixed), an
   * object with optional `regex`, `separator` and `replacement` fields, or
   * nothing. The `regex` field may hold any configuration value, since the
   * source checks its shape at run time.
   */
  datatype LangConfig =
    | Undefined
    | Pattern(source: string)
    | List(items: seq<LangConfig>)
    | Object(regex: LangConfig, separator: Option<string>, replacement: Option<string>)

  /** Patterns applied one inside the other, with optional overrides for the sorter. */
  datatype Matcher = Matcher(regex: seq<Regex>, separator: Option<Regex>, replacement: Option<string>)
}
