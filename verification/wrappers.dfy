/** The optional-value datatype used throughout the model: `None` stands for
    pandas' missing value (NaN) in a cell and for Python's `None` in a filter
    argument or a KPI delta. */
module Wrappers {
  datatype Option<+T> = None | Some(value: T)
}
