/** is_russian of bot.py: does a text contain a Russian letter? */
module Language {

  /** The 33 lower-case letters of the Russian alphabet. */
  const RussianLetters: set<char> := set c: char | c in "абвгдеёжзийклмнопрстуфхцчшщъыьэюя"

  /** Python's str.lower() on the characters that can become Russian
      letters: А–Я map to а–я and Ё to ё. Other characters are left as they
      are; no other character lower-cases to a Russian letter. */
  function Lower(c: char): char
  {
    if 'А' <= c <= 'Я' then (c as int + 0x20) as char
    else if c == 'Ё' then 'ё'
    else c
  }

  /** is_russian: some character of the lower-cased text is a Russian
      letter (Python's any over the characters, left to right). */
  function IsRussian(text: string): bool
  {
    text != [] && (Lower(text[0]) in RussianLetters || IsRussian(text[1..]))
  }

  /** A Russian letter in either case, by code point ranges: а–я is
      U+0430–U+044F, А–Я is U+0410–U+042F, and ё/Ё sit outside them. */
  predicate IsRussianLetter(c: char)
  {
    ('а' <= c <= 'я') || ('А' <= c <= 'Я') || c == 'ё' || c == 'Ё'
  }

  /** The alphabet is the range а–я plus ё. */
  lemma RussianLettersRange(c: char)
    ensures c in RussianLetters <==> ('а' <= c <= 'я') || c == 'ё'
  {
    var alphabet := "абвгдеёжзийклмнопрстуфхцчшщъыьэюя";
    assert c in RussianLetters <==> c in alphabet;
    if 'а' <= c <= 'я' {
      var i := c as int - 'а' as int;
      var k := if i < 6 then i else i + 1;
      assert alphabet[k] == c;
    }
  }

  /** Lower-casing yields a Russian letter exactly for the Russian letters
      of either case. */
  lemma LowerRussian(c: char)
    ensures Lower(c) in RussianLetters <==> IsRussianLetter(c)
  {
    RussianLettersRange(Lower(c));
  }

  /** is_russian holds iff the text has a Russian letter, upper or lower
      case, somewhere. */
  lemma {:induction false} IsRussianIff(text: string)
    ensures IsRussian(text) <==> exists i :: 0 <= i < |text| && IsRussianLetter(text[i])
  {
    if text != [] {
      IsRussianIff(text[1..]);
      LowerRussian(text[0]);
      if exists i :: 0 <= i < |text| && IsRussianLetter(text[i]) {
        var i :| 0 <= i < |text| && IsRussianLetter(text[i]);
        if i > 0 {
          assert text[1..][i - 1] == text[i];
        }
      }
      if exists i :: 0 <= i < |text[1..]| && IsRussianLetter(text[1..][i]) {
        var i :| 0 <= i < |text[1..]| && IsRussianLetter(text[1..][i]);
        assert text[i + 1] == text[1..][i];
      }
    }
  }

  /** Three sample texts: the empty text and an English word are rejected,
      a Russian greeting is accepted. */
  lemma IsRussianExamples()
    ensures !IsRussian("")
    ensures IsRussian("Привет")
    ensures !IsRussian("Hello")
  {
    LowerRussian('П');
    IsRussianIff("Hello");
  }
}
