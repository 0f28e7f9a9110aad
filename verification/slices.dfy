/**
 * Go byte slices. A Go `[]byte` is either nil or a (possibly empty) sequence of
 * octets; the two are observably different in this code base (a nil IMSI fails to
 * decode, an empty one decodes to ""), so the model keeps them apart.
 */
module Slices {

  type byte = bv8

  datatype Bytes = Nil | Buf(data: seq<byte>)

  /** The octets of a slice; `len(nil) == 0` in Go. */
  function Data(b: Bytes): (s: seq<byte>)
    ensures b.Nil? ==> s == []
  {
    match b
    case Nil => []
    case Buf(s) => s
  }

  /** `len(b)` */
  function Len(b: Bytes): nat {
    |Data(b)|
  }
}
