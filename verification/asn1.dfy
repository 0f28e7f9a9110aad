/**
 * The few `encoding/asn1` types that the MAP records are declared with. The
 * library's DER framing (tag, length, value) is not part of this model: every
 * `asn1.Unmarshal` call is represented by its outcome, an `Unmarshalled` value.
 */
module Asn1 {
  import opened Slices

  /** Tag classes (bits 8-7 of an identifier octet). */
  const ClassUniversal: nat := 0
  const ClassContextSpecific: nat := 2

  /** Universal tag numbers used by the model. */
  const TagNull: nat := 5
  const TagSequence: nat := 16

  /**
   * `asn1.RawValue`: an undecoded element. The zero value (what an absent optional
   * RawValue field holds after unmarshalling) has class 0, tag 0 and nil contents.
   */
  datatype RawValue = RawValue(tagClass: nat, tag: nat, isCompound: bool, bytes: Bytes)

  const ZeroRawValue := RawValue(0, 0, false, Nil)

  /** `asn1.BitString`: the octets and the number of significant bits. */
  datatype BitString = BitString(bytes: Bytes, bitLength: int)

  /**
   * The outcome of `rest, err := asn1.Unmarshal(dataIE, &record)`: the decoded record
   * and the bytes after the first element, or the framing error.
   */
  datatype Unmarshalled<T> = Unmarshalled(record: T, rest: Bytes) | MalformedEncoding
}
