/** JavaScript strings are sequences of UTF-16 code units, and the regular
    expressions of the text-complexity command carry no `u` flag, so every
    character class there matches one code unit at a time. */
module CodeUnits {

  /** One UTF-16 code unit. */
  type CodeUnit = u: int | 0 <= u < 0x1_0000

  /** A JavaScript string. */
  type Utf16 = seq<CodeUnit>

  const Space: CodeUnit := 0x20

  /** A token of the text: the unit of counting for MATTR. */
  type Word = seq<CodeUnit>
}
