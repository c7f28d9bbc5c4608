/**
 * The characters of the simple regular expressions, by code: what each atom
 * matches, which escapes and plain characters are atoms, and what repeats mean.
 */
module RegexAtoms {
  import opened RegexSyntax
  import opened RegexMatch

  predicate Digit(k: int) { 48 <= k <= 57 }
  predicate Letter(k: int) { 65 <= k <= 90 || 97 <= k <= 122 }

  /** Unescaped, the dot matches everything but a newline, and any other character
      matches itself only. */
  lemma PlainAtomMatches(c: char, ch: char)
    ensures AtomMatchesChar(false, '.', ch) <==> ch as int != 10
    ensures c as int != 46 ==> (AtomMatchesChar(false, c, ch) <==> ch == c)
  {
  }

  /** \d matches the ten digits, \w letters, digits and the underscore, \s space,
      tab, newline, vertical tab, form feed and carriage return. */
  lemma ClassMatches(ch: char)
    ensures AtomMatchesChar(true, 'd', ch) <==> ch in "0123456789"
    ensures AtomMatchesChar(true, 'w', ch) <==> Digit(ch as int) || Letter(ch as int) || ch as int == 95
    ensures AtomMatchesChar(true, 's', ch) <==> ch as int in {32, 9, 10, 11, 12, 13}
  {
    DigitsAreDigits(ch);
  }

  lemma DigitsAreDigits(ch: char)
    ensures ch in "0123456789" <==> Digit(ch as int)
  {
    if Digit(ch as int) { assert "0123456789"[ch as int - 48] == ch; }
  }

  /** The capital classes match exactly the other characters. */
  lemma ComplementMatches(ch: char)
    ensures AtomMatchesChar(true, 'D', ch) <==> !AtomMatchesChar(true, 'd', ch)
    ensures AtomMatchesChar(true, 'W', ch) <==> !AtomMatchesChar(true, 'w', ch)
    ensures AtomMatchesChar(true, 'S', ch) <==> !AtomMatchesChar(true, 's', ch)
  {
  }

  /** The control escapes match one character each. */
  lemma ControlMatches(ch: char)
    ensures AtomMatchesChar(true, 't', ch) <==> ch as int == 9
    ensures AtomMatchesChar(true, 'n', ch) <==> ch as int == 10
    ensures AtomMatchesChar(true, 'v', ch) <==> ch as int == 11
    ensures AtomMatchesChar(true, 'f', ch) <==> ch as int == 12
    ensures AtomMatchesChar(true, 'r', ch) <==> ch as int == 13
  {
  }

  /** The punctuation of ASCII: every printable character that is not a letter, a
      digit or the space. */
  predicate Punctuation(k: int) { 33 <= k <= 126 && !Digit(k) && !Letter(k) }

  lemma PunctuationExact(c: char)
    ensures IsPunct(c) <==> Punctuation(c as int)
  {
    if Punctuation(c as int) { PunctuationListed(c); }
  }

  lemma PunctuationListed(c: char)
    requires Punctuation(c as int)
    ensures IsPunct(c)
  {
    var p := "^-!\"#$%&'()*+,./:;<=>?@[\\]_`{|}~";
    var k := c as int;
    if k <= 44 {
      if k <= 38 {
        assert p[2] == '!' && p[3] == '"' && p[4] == '#' && p[5] == '$' && p[6] == '%' && p[7] == '&';
      } else {
        assert p[8] == '\'' && p[9] == '(' && p[10] == ')' && p[11] == '*' && p[12] == '+' && p[13] == ',';
      }
    } else if k <= 64 {
      assert p[1] == '-' && p[14] == '.' && p[15] == '/' && p[16] == ':' && p[17] == ';' && p[18] == '<'
        && p[19] == '=' && p[20] == '>' && p[21] == '?' && p[22] == '@';
    } else {
      assert p[0] == '^' && p[23] == '[' && p[24] == '\\' && p[25] == ']' && p[26] == '_' && p[27] == '`'
        && p[28] == '{' && p[29] == '|' && p[30] == '}' && p[31] == '~';
    }
  }

  /** Escaped punctuation matches itself only. */
  lemma EscapedPunctuationMatches(c: char, ch: char)
    requires Punctuation(c as int)
    ensures AtomMatchesChar(true, c, ch) <==> ch == c
  {
    PunctuationExact(c);
  }

  /** After a backslash: punctuation and the eleven letters D S W d f n r s t v w. */
  lemma EscapesExact(c: char)
    ensures ValidAtom(Atom(true, c)) <==>
      Punctuation(c as int) || c as int in {68, 83, 87, 100, 102, 110, 114, 115, 116, 118, 119}
  {
    PunctuationExact(c);
    var e := "dDfnrsStvwW";
    assert e[0] == 'd' && e[1] == 'D' && e[2] == 'f' && e[3] == 'n' && e[4] == 'r' && e[5] == 's' && e[6] == 'S'
      && e[7] == 't' && e[8] == 'v' && e[9] == 'w' && e[10] == 'W';
  }

  /** Without one: everything but $ ( ) * + ? [ \ ] ^ { | and }. */
  lemma PlainAtomsExact(c: char)
    ensures ValidAtom(Atom(false, c)) <==> c as int !in {36, 40, 41, 42, 43, 63, 91, 92, 93, 94, 123, 124, 125}
  {
    var s := "^$()[]{}|";
    assert s[0] == '^' && s[1] == '$' && s[2] == '(' && s[3] == ')' && s[4] == '[' && s[5] == ']' && s[6] == '{'
      && s[7] == '}' && s[8] == '|';
    RepeatsExact(c);
  }

  /** The repeats are ? * and +. */
  lemma RepeatsExact(c: char)
    ensures IsRepeat(c) <==> c as int in {63, 42, 43}
  {
    var s := "?*+";
    assert s[0] == '?' && s[1] == '*' && s[2] == '+';
  }

  /** They allow at most one, any number, and at least one; without one it is
      exactly one. */
  lemma RepeatMeans(n: nat)
    ensures CountOk(ParseRepeat('?'), n) <==> n <= 1
    ensures CountOk(ParseRepeat('*'), n)
    ensures CountOk(ParseRepeat('+'), n) <==> n >= 1
    ensures CountOk(Once, n) <==> n == 1
  {
  }

  /** The words of .* are exactly the strings without a newline. */
  lemma DotStarWords(w: string)
    ensures InLanguage([Item(Atom(false, '.'), Star)], w) <==> '\n' !in w
  {
    var dot := Item(Atom(false, '.'), Star);
    assert [dot][1..] == [];
    assert w[..|w|] == w && w[|w|..] == "";
    assert InLanguage([dot], w) <==> ItemMatches(dot, w) by {
      forall k | 0 <= k <= |w| && InLanguage([], w[k..]) ensures w[..k] == w {}
      if ItemMatches(dot, w) { assert InLanguage([], w[|w|..]); }
    }
  }
}
