/** Case mapping of single characters, as the decoding script uses Python's
    `str.upper`, `str.lower` and `str.islower` on one-character strings.
    The model knows the cased letters of ASCII (`a`-`z`, `A`-`Z`), the
    one-to-one letter pairs of Latin-1 (`à`-`þ` and `À`-`Þ`, without the
    signs `÷` and `×`), the pair `ÿ`/`Ÿ`, and the ordinal indicators `ª` and
    `º`, which are lower-case but have no capital. Every other character,
    `ß` and `µ` among them, is treated as uncased. */
module CaseMap {

  /** A lower-case letter that has a one-character capital. */
  predicate HasCapital(c: char) {
    ('a' <= c <= 'z') || ('à' <= c <= 'þ' && c != '÷') || c == 'ÿ'
  }

  /** A lower-case character: a letter with a capital, or an ordinal
      indicator. */
  predicate IsLower(c: char) {
    HasCapital(c) || c == 'ª' || c == 'º'
  }

  /** An upper-case letter. */
  predicate IsUpper(c: char) {
    ('A' <= c <= 'Z') || ('À' <= c <= 'Þ' && c != '×') || c == 'Ÿ'
  }

  /** `c.upper()`: a lower-case letter with a capital becomes that capital,
      anything else is kept. */
  function Upper(c: char): (r: char)
    ensures !HasCapital(r)
    ensures r != c <==> HasCapital(c)
    ensures HasCapital(c) ==> IsUpper(r)
    ensures IsLower(r) ==> r == c
    ensures IsUpper(c) ==> r == c
  {
    if c == 'ÿ' then 'Ÿ'
    else if HasCapital(c) then (c as int - 32) as char
    else c
  }

  /** `c.lower()`: a capital becomes its lower-case letter, anything else is kept. */
  function Lower(c: char): (r: char)
    ensures !IsUpper(r)
    ensures r != c <==> IsUpper(c)
    ensures IsUpper(c) ==> HasCapital(r)
    ensures IsLower(c) ==> r == c
  {
    if c == 'Ÿ' then 'ÿ'
    else if IsUpper(c) then (c as int + 32) as char
    else c
  }

  /** Upper- and lower-casing undo each other on the letters they change. */
  lemma CaseRoundTrip(c: char)
    ensures HasCapital(c) ==> Lower(Upper(c)) == c
    ensures IsUpper(c) ==> Upper(Lower(c)) == c
    ensures Upper(Upper(c)) == Upper(c)
  {
  }
}
