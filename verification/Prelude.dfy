/** Types shared by every part of the model. */
module Prelude {

  /** Go strings and byte slices are byte sequences; `len` counts bytes. */
  type Byte = bv8
  type Str = seq<Byte>

  /** The bytes of a text that has only ASCII characters. */
  predicate Spells(s: Str, text: string) {
    |s| == |text| && forall i :: 0 <= i < |s| ==> s[i] as int == text[i] as int
  }

  datatype Option<+T> = None | Some(value: T)
}
