/** The three kinds of memory access. */
module Accesses {
  datatype Access = Fetch | Load | Store
}
