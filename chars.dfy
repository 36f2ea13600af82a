/** The two character classes the word motions of the editor test. */
module Chars {

  /** An ASCII letter (codes 65-90 and 97-122); digits and `_` are not word characters. */
  predicate IsWordCharacter(c: char) {
    ('A' <= c <= 'Z') || ('a' <= c <= 'z')
  }

  /** ASCII codes 33-47 and 58-64, or the space. The brackets, backslash,
      caret, underscore, backquote, braces, bar and tilde are not included. */
  predicate IsPunctuation(c: char) {
    ('!' <= c <= '/') || (':' <= c <= '@') || c == ' '
  }

  /** No character is both a word character and punctuation. */
  lemma ClassesDisjoint(c: char)
    ensures !(IsWordCharacter(c) && IsPunctuation(c))
  {
  }

  /** The characters the classification leaves in neither class. */
  lemma UnclassifiedExamples()
    ensures !IsWordCharacter('_') && !IsPunctuation('_')
    ensures !IsWordCharacter('7') && !IsPunctuation('7')
    ensures !IsWordCharacter('[') && !IsPunctuation('[')
    ensures !IsWordCharacter('\t') && !IsPunctuation('\t')
    ensures IsPunctuation(',') && IsPunctuation('@') && IsPunctuation(' ')
  {
  }
}
