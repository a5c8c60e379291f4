module Chars {
  // A UTF-16 code unit; text is a sequence of them.
  type Char = c: int | 0 <= c < 0x1_0000
  type Text = seq<Char>
}
