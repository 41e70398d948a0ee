/** The attribute filters of a search, as the client sends them and the repository uses them. */
module Filters {
  import opened Options

  /** An attribute filter: `value` is None when only the presence of the attribute is asked for. */
  datatype Filter = Filter(attribute: string, value: Option<string>, matchmode: int)
}
