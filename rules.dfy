/** The shared rules section of a configuration: the parameters the checks look up per column. */
module Rules {
  import opened Tables

  /**
   * `regex_patterns` maps a column to its pattern, `ranges` a column to its
   * `[min, max]` list, `allowed_values` a column to its permitted values and
   * `date_format` is a single format string. No check reads the last two.
   */
  datatype RulesConfig = RulesConfig(
    regexPatterns: map<string, string>,
    ranges: map<string, seq<int>>,
    allowedValues: map<string, seq<Value>>,
    dateFormat: string)

  /** The rules block every generated configuration carries. */
  function DefaultRules(): RulesConfig
  {
    RulesConfig(
      map["email" := "[^@]+@[^@]+\\.[^@]+"],
      map["age" := [18, 100], "salary" := [20000, 500000]],
      map[],
      "%Y-%m-%d")
  }
}
