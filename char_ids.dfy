/** The table from glyph characters to the dense class ids the font network is trained on:
    A..Z are 0..25, a..z are 26..51 and 0..9 are 52..61. */
module CharIds {

  /** Number of glyph classes: 26 upper-case letters, 26 lower-case letters, 10 digits. */
  const NumberOfValidChars := 62

  predicate IsUpper(c: char) { 'A' <= c <= 'Z' }
  predicate IsLower(c: char) { 'a' <= c <= 'z' }
  predicate IsDigit(c: char) { '0' <= c <= '9' }

  /** The characters the table has an entry for. */
  predicate IsValidChar(c: char) { IsUpper(c) || IsLower(c) || IsDigit(c) }

  /** The id the table gives a supported character, by its character code. */
  function IdOf(c: char): (id: int)
    requires IsValidChar(c)
    ensures 0 <= id < NumberOfValidChars
    ensures IsUpper(c) <==> id < 26
    ensures IsDigit(c) <==> 52 <= id
  {
    if IsUpper(c) then c as int - 65
    else if IsLower(c) then c as int - 97 + 26
    else c as int - 48 + 52
  }

  /** The character that carries a given id: the inverse of IdOf. */
  function CharOf(id: int): (c: char)
    requires 0 <= id < NumberOfValidChars
    ensures IsValidChar(c) && IdOf(c) == id
  {
    if id < 26 then (id + 65) as char
    else if id < 52 then (id - 26 + 97) as char
    else (id - 52 + 48) as char
  }

  /** IdOf and CharOf undo each other in the other direction too. */
  lemma CharOfIdOf(c: char)
    requires IsValidChar(c)
    ensures CharOf(IdOf(c)) == c
  {
  }

  /** No two supported characters share an id. */
  lemma IdOfInjective(c: char, d: char)
    requires IsValidChar(c) && IsValidChar(d)
    ensures IdOf(c) == IdOf(d) <==> c == d
  {
  }

  /** What the constructor's three loops leave behind: exactly the supported
      characters are keys, each mapped to its id. */
  ghost predicate IsCharIdTable(m: map<char, int>) {
    (forall c :: c in m <==> IsValidChar(c)) &&
    (forall c :: c in m ==> m[c] == IdOf(c))
  }

  /** Builds the table the way the constructor does: one loop per contiguous
      range of character codes, upper case first, then lower case, then digits. */
  method BuildCharIdMap() returns (m: map<char, int>)
    ensures IsCharIdTable(m)
  {
    m := map[];
    for i := 65 to 91
      invariant forall c :: c in m <==> 65 <= c as int < i
      invariant forall c :: c in m ==> IsValidChar(c) && m[c] == IdOf(c)
    {
      m := m[i as char := i - 65];
    }
    for i := 97 to 123
      invariant forall c :: c in m <==> IsUpper(c) || 97 <= c as int < i
      invariant forall c :: c in m ==> IsValidChar(c) && m[c] == IdOf(c)
    {
      m := m[i as char := i - 97 + 26];
    }
    for i := 48 to 58
      invariant forall c :: c in m <==> IsUpper(c) || IsLower(c) || 48 <= c as int < i
      invariant forall c :: c in m ==> IsValidChar(c) && m[c] == IdOf(c)
    {
      m := m[i as char := i - 48 + 52];
    }
  }

  /** The characters carrying the ids 0 .. n-1. */
  ghost function CharsBelow(n: nat): set<char>
    requires n <= NumberOfValidChars
  {
    set id | 0 <= id < n :: CharOf(id)
  }

  lemma {:induction false} CharsBelowCount(n: nat)
    requires n <= NumberOfValidChars
    ensures |CharsBelow(n)| == n
  {
    if n > 0 {
      CharsBelowCount(n - 1);
      assert CharsBelow(n) == CharsBelow(n - 1) + {CharOf(n - 1)};
      assert CharOf(n - 1) !in CharsBelow(n - 1);
    }
  }

  /** The finished table is a bijection from its 62 keys onto the ids 0 .. 61. */
  lemma TableIsBijection(m: map<char, int>)
    requires IsCharIdTable(m)
    ensures |m.Keys| == NumberOfValidChars
    ensures forall c :: c in m ==> 0 <= m[c] < NumberOfValidChars
    ensures forall c, d :: c in m && d in m && m[c] == m[d] ==> c == d
    ensures forall id :: 0 <= id < NumberOfValidChars ==> CharOf(id) in m && m[CharOf(id)] == id
  {
    forall c, d | c in m && d in m && m[c] == m[d] ensures c == d {
      IdOfInjective(c, d);
    }
    assert m.Keys == CharsBelow(NumberOfValidChars) by {
      forall c | c in m ensures c in CharsBelow(NumberOfValidChars) {
        CharOfIdOf(c);
      }
    }
    CharsBelowCount(NumberOfValidChars);
  }

  /** The three ranges of the source, spelled out as character codes. */
  lemma TableRanges(m: map<char, int>, c: char)
    requires IsCharIdTable(m)
    ensures 65 <= c as int < 91 ==> c in m && m[c] == c as int - 65
    ensures 97 <= c as int < 123 ==> c in m && m[c] == c as int - 97 + 26
    ensures 48 <= c as int < 58 ==> c in m && m[c] == c as int - 48 + 52
    ensures !(65 <= c as int < 91 || 97 <= c as int < 123 || 48 <= c as int < 58) ==> c !in m
  {
  }
}
