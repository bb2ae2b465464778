/** The two business segments every collector sorts its rows into. */
module Segments {
  datatype Segment = Retail | Wholesale
}
