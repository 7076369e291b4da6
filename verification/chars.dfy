/** Character classes as Python 3 sees them on `str`. */
module Chars {

  /** `str.isspace()` for one character; `\s` of the `re` module on `str` patterns matches the same set. */
  predicate IsSpace(c: char)
  {
    var k := c as int;
    || k == 0x20 || 0x09 <= k <= 0x0D || 0x1C <= k <= 0x1F || k == 0x85 || k == 0xA0
    || k == 0x1680 || 0x2000 <= k <= 0x200A || k == 0x2028 || k == 0x2029 || k == 0x202F
    || k == 0x205F || k == 0x3000
  }

  /** The information separators U+001C to U+001F: whitespace to `str.isspace()`, but not to the
      whitespace trimming of `int()`. */
  predicate IsInfoSeparator(c: char)
  {
    0x1C <= c as int <= 0x1F
  }

  /** An ASCII decimal digit. */
  predicate IsDigit(c: char)
  {
    '0' <= c <= '9'
  }

  function DigitValue(c: char): (d: nat)
    requires IsDigit(c)
    ensures d < 10
  {
    c as int - '0' as int
  }

  function DigitChar(d: nat): (c: char)
    requires d < 10
    ensures IsDigit(c) && DigitValue(c) == d
  {
    ('0' as int + d) as char
  }

  /** `str.lower()` for the capitals `A`–`Z`, `А`–`Я`, `Ѐ`–`Џ` and `Ґ` only; every other character,
      other capitals such as `À`–`Þ` or the Cyrillic ones from U+0460 on included, is left alone. */
  function Lower(c: char): char
  {
    if 'A' <= c <= 'Z' then (c as int + 32) as char
    else if 'А' <= c <= 'Я' then (c as int + 32) as char
    else if 'Ѐ' <= c <= 'Џ' then (c as int + 80) as char
    else if c == 'Ґ' then 'ґ'
    else c
  }

  lemma LowerIdempotent(c: char)
    ensures Lower(Lower(c)) == Lower(c)
  {
  }

  /** Lowering never turns a letter into whitespace, `_` or `-`, nor the reverse. */
  lemma LowerKeepsClass(c: char)
    ensures IsSpace(Lower(c)) <==> IsSpace(c)
    ensures Lower(c) == '_' <==> c == '_'
    ensures Lower(c) == '-' <==> c == '-'
    ensures IsSpace(c) ==> Lower(c) == c
  {
  }
}
