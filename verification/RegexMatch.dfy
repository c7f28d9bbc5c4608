/**
 * The backtracking matcher and the RE class, proved against the declarative
 * language of a pattern.
 */
module RegexMatch {
  import opened Wrappers
  import opened RegexSyntax

  // ---------------------------------------------------------------- language

  predicate AtomMatches(a: Atom, ch: char) { AtomMatchesChar(a.escaped, a.c, ch) }

  predicate CountOk(r: Repeat, n: nat)
  {
    match r
    case Once => n == 1
    case Optional => n <= 1
    case Star => true
    case Plus => n >= 1
  }

  predicate AllMatch(a: Atom, w: string)
  {
    forall i :: 0 <= i < |w| ==> AtomMatches(a, w[i])
  }

  predicate ItemMatches(i: Item, w: string) { CountOk(i.repeat, |w|) && AllMatch(i.atom, w) }

  /** `w` is in the language of the items. */
  ghost predicate InLanguage(items: seq<Item>, w: string)
  {
    if items == [] then w == ""
    else exists k :: 0 <= k <= |w| && ItemMatches(items[0], w[..k]) && InLanguage(items[1..], w[k..])
  }

  /** Some prefix of `s` (all of it, before a `$`) is in the language. */
  ghost predicate HeadMatch(items: seq<Item>, dollar: bool, s: string)
  {
    exists k :: 0 <= k <= |s| && InLanguage(items, s[..k]) && (dollar ==> k == |s|)
  }

  /** Some substring that respects the anchors is in the language. */
  ghost predicate SubstringMatch(p: Pattern, s: string)
  {
    exists i, j :: 0 <= i <= j <= |s| && InLanguage(p.items, s[i..j])
                   && (p.anchored ==> i == 0) && (p.dollar ==> j == |s|)
  }

  // --------------------------------------------------------- head match, unfolded

  lemma HeadMatchEmpty(dollar: bool, s: string)
    ensures HeadMatch([], dollar, s) <==> (dollar ==> s == "")
  {
    if dollar ==> s == "" { assert InLanguage([], s[..0]); }
  }

  /** The first item takes some `j` characters and the rest matches what is left. */
  ghost predicate Splits(i: Item, items: seq<Item>, dollar: bool, s: string, j: nat)
  {
    j <= |s| && ItemMatches(i, s[..j]) && HeadMatch(items, dollar, s[j..])
  }

  ghost predicate CanSplit(i: Item, items: seq<Item>, dollar: bool, s: string)
  {
    exists j: nat :: Splits(i, items, dollar, s, j)
  }

  lemma HeadMatchCons(items: seq<Item>, dollar: bool, s: string)
    requires items != []
    ensures HeadMatch(items, dollar, s) <==> CanSplit(items[0], items[1..], dollar, s)
  {
    if HeadMatch(items, dollar, s) {
      var k :| 0 <= k <= |s| && InLanguage(items, s[..k]) && (dollar ==> k == |s|);
      var j :| 0 <= j <= k && ItemMatches(items[0], s[..k][..j]) && InLanguage(items[1..], s[..k][j..]);
      assert s[..k][..j] == s[..j] && s[..k][j..] == s[j..][..k - j];
      assert Splits(items[0], items[1..], dollar, s, j);
    }
    if CanSplit(items[0], items[1..], dollar, s) {
      var j: nat :| Splits(items[0], items[1..], dollar, s, j);
      var m :| 0 <= m <= |s[j..]| && InLanguage(items[1..], s[j..][..m]) && (dollar ==> m == |s[j..]|);
      assert s[..j + m][..j] == s[..j] && s[..j + m][j..] == s[j..][..m];
      assert InLanguage(items, s[..j + m]);
    }
  }

  // ------------------------------------------------------------------ matcher

  /** MatchRepetitionAndRegexAtHead: the atom repeated, then the rest. */
  method MatchRepetitionAndRegexAtHead(escaped: bool, c: char, repeat: char, regex: string, s: string)
    returns (r: bool)
    requires BodyOk(regex) && IsRepeat(repeat)
    ensures r <==> CanSplit(Item(Atom(escaped, c), ParseRepeat(repeat)), Parse(regex).0, Parse(regex).1, s)
    decreases |regex|, 1
  {
    var minCount := if repeat == '+' then 1 else 0;
    ghost var item := Item(Atom(escaped, c), ParseRepeat(repeat));
    ghost var (items, dollar) := Parse(regex);
    var i := 0;
    while repeat != '?' || i <= 1
      invariant 0 <= i <= |s|
      invariant i <= 1 || repeat != '?' || i == 2
      invariant forall e :: 0 <= e < i ==> AtomMatches(item.atom, s[e])
      invariant forall j :: 0 <= j < i ==> !Splits(item, items, dollar, s, j)
      decreases |s| - i
    {
      if i >= minCount {
        var tail := MatchRegexAtHead(regex, s[i..]);
        if tail {
          assert Splits(item, items, dollar, s, i);
          return true;
        }
      }
      assert !Splits(item, items, dollar, s, i);
      if i == |s| || !AtomMatchesChar(escaped, c, s[i]) {
        forall j: nat | j > i
          ensures !Splits(item, items, dollar, s, j)
        {
          if j <= |s| { assert s[..j][i] == s[i]; }
        }
        return false;
      }
      i := i + 1;
    }
    return false;
  }

  /** MatchRegexAtHead: whether the pattern matches a prefix. */
  method MatchRegexAtHead(regex: string, s: string) returns (r: bool)
    requires BodyOk(regex)
    ensures r <==> HeadMatch(Parse(regex).0, Parse(regex).1, s)
    decreases |regex|, 0
  {
    if regex == "" {
      HeadMatchEmpty(false, s);
      return true;
    }
    if regex[0] == '$' {
      assert regex == "$";
      HeadMatchEmpty(true, s);
      return s == "";
    }
    FirstItemOk(regex);
    ghost var item := FirstItem(regex);
    ghost var (items, dollar) := Parse(regex[ItemLen(regex)..]);
    assert Parse(regex).0[1..] == items && Parse(regex).0[0] == item;
    HeadMatchCons(Parse(regex).0, dollar, s);
    var escaped := regex[0] == '\\';
    var rest := if escaped then regex[1..] else regex;
    assert rest[0] == item.atom.c && escaped == item.atom.escaped;
    if |rest| > 1 && IsRepeat(rest[1]) {
      assert rest[1] == regex[AtomLen(regex)];
      var tail := rest[2..];
      assert tail == regex[ItemLen(regex)..];
      assert Parse(tail) == (items, dollar);
      assert item == Item(Atom(escaped, rest[0]), ParseRepeat(rest[1]));
      r := MatchRepetitionAndRegexAtHead(escaped, rest[0], rest[1], tail, s);
    } else {
      assert item.repeat == Once;
      assert rest[1..] == regex[ItemLen(regex)..];
      if s != "" && AtomMatchesChar(escaped, rest[0], s[0]) {
        r := MatchRegexAtHead(rest[1..], s[1..]);
        if r { assert Splits(item, items, dollar, s, 1); }
      } else {
        r := false;
      }
      OnceSplits(item, items, dollar, s);
    }
  }

  lemma OnceSplits(item: Item, items: seq<Item>, dollar: bool, s: string)
    requires item.repeat == Once
    ensures CanSplit(item, items, dollar, s)
       <==> s != "" && AtomMatches(item.atom, s[0]) && HeadMatch(items, dollar, s[1..])
  {
    if s != "" && AtomMatches(item.atom, s[0]) && HeadMatch(items, dollar, s[1..]) {
      assert Splits(item, items, dollar, s, 1);
    }
    forall j | Splits(item, items, dollar, s, j)
      ensures s != "" && AtomMatches(item.atom, s[0]) && HeadMatch(items, dollar, s[1..])
    {
      assert j == 1 && s[..1][0] == s[0];
    }
  }

  /** MatchRegexAnywhere; a missing pattern or string never matches. */
  method MatchRegexAnywhere(regex: Option<string>, str: Option<string>) returns (r: bool)
    requires regex.Some? ==> Accepts(regex.value, true, false)
    ensures r <==> regex.Some? && str.Some? && SubstringMatch(ParsePattern(regex.value), str.value)
  {
    if regex == None || str == None {
      return false;
    }
    var re, s := regex.value, str.value;
    ghost var p := ParsePattern(re);
    if re != "" && re[0] == '^' {
      r := MatchRegexAtHead(re[1..], s);
      AnchoredMatch(p, s);
      return;
    }
    StartOnlyMatters(re);
    var i := 0;
    while i <= |s|
      invariant 0 <= i <= |s| + 1
      invariant forall e :: 0 <= e < i ==> !HeadMatch(p.items, p.dollar, s[e..])
    {
      var here := MatchRegexAtHead(re, s[i..]);
      if here {
        MatchFrom(p, s, i);
        return true;
      }
      i := i + 1;
    }
    NoMatchFrom(p, s);
    return false;
  }

  lemma AnchoredMatch(p: Pattern, s: string)
    requires p.anchored
    ensures SubstringMatch(p, s) <==> HeadMatch(p.items, p.dollar, s)
  {
    if SubstringMatch(p, s) {
      var i, j :| 0 <= i <= j <= |s| && InLanguage(p.items, s[i..j])
                  && (p.anchored ==> i == 0) && (p.dollar ==> j == |s|);
      assert s[i..j] == s[..j];
    }
    if HeadMatch(p.items, p.dollar, s) {
      var k :| 0 <= k <= |s| && InLanguage(p.items, s[..k]) && (p.dollar ==> k == |s|);
      assert s[0..k] == s[..k];
    }
  }

  lemma MatchFrom(p: Pattern, s: string, i: nat)
    requires !p.anchored && i <= |s| && HeadMatch(p.items, p.dollar, s[i..])
    ensures SubstringMatch(p, s)
  {
    var k :| 0 <= k <= |s[i..]| && InLanguage(p.items, s[i..][..k]) && (p.dollar ==> k == |s[i..]|);
    assert s[i..][..k] == s[i..i + k];
  }

  lemma NoMatchFrom(p: Pattern, s: string)
    requires forall e :: 0 <= e <= |s| ==> !HeadMatch(p.items, p.dollar, s[e..])
    ensures !SubstringMatch(p, s)
  {
    forall i, j | 0 <= i <= j <= |s| && (p.dollar ==> j == |s|)
      ensures !InLanguage(p.items, s[i..j])
    {
      assert s[i..][..j - i] == s[i..j];
      assert !HeadMatch(p.items, p.dollar, s[i..]);
    }
  }

  // ----------------------------------------------------------------- class RE

  /** Whether the full pattern gets no closing `$` because the last character
      is the `$` of an escape. */
  predicate EndsInEscapedDollar(p: Pattern)
  {
    && !p.dollar && p.items != []
    && p.items[|p.items| - 1] == Item(Atom(true, '$'), Once)
  }

  /** The pattern RE::Init builds for full matches. */
  function FullPattern(p: Pattern): Pattern
  {
    Pattern(true, p.items, p.dollar || !EndsInEscapedDollar(p))
  }

  class RE {
    var pattern: Option<string>
    var fullPattern: string
    var isValid: bool

    ghost predicate Valid()
      reads this
    {
      && (isValid ==> pattern.Some? && Accepts(pattern.value, true, false))
      && (isValid ==> Accepts(fullPattern, true, false)
                      && ParsePattern(fullPattern) == FullPattern(ParsePattern(pattern.value)))
    }

    /** RE::Init: a null or malformed pattern is kept but invalid. */
    constructor (regex: Option<string>)
      ensures Valid() && pattern == regex
      ensures isValid <==> regex.Some? && exists p :: ValidPattern(p) && Print(p) == regex.value
    {
      pattern, fullPattern, isValid := regex, "", false;
      new;
      if regex.Some? {
        isValid := ValidateRegex(regex.value);
        if isValid {
          AcceptsIffPrinted(regex.value);
          fullPattern := BuildFull(regex.value);
        }
      }
    }

    /** RE::FullMatch: the whole string is in the language; only a prefix need be
        when the pattern ends in an escaped dollar. */
    method FullMatch(s: Option<string>) returns (r: bool)
      requires Valid()
      ensures !isValid || s.None? ==> !r
      ensures isValid && s.Some? ==>
        var p := ParsePattern(pattern.value);
        r <==> if EndsInEscapedDollar(p) then HeadMatch(p.items, false, s.value) else InLanguage(p.items, s.value)
    {
      hide Accepts, ParsePattern, SubstringMatch, HeadMatch, InLanguage, EndsInEscapedDollar, FullPattern;
      r := false;
      if isValid { r := MatchRegexAnywhere(Some(fullPattern), s); }
      if isValid && s.Some? {
        ghost var p := ParsePattern(pattern.value);
        if EndsInEscapedDollar(p) {
          FullMatchIsPrefix(p, s.value);
        } else {
          FullMatchIsWholeString(p, s.value);
        }
      }
    }

    /** RE::PartialMatch: some substring allowed by the anchors is in the language. */
    method PartialMatch(s: Option<string>) returns (r: bool)
      requires Valid()
      ensures r <==> isValid && s.Some? && SubstringMatch(ParsePattern(pattern.value), s.value)
    {
      r := false;
      if isValid { r := MatchRegexAnywhere(pattern, s); }
    }
  }

  /** The buffer RE::Init fills with the full pattern. */
  method BuildFull(regex: string) returns (buffer: string)
    requires Accepts(regex, true, false)
    ensures Accepts(buffer, true, false) && ParsePattern(buffer) == FullPattern(ParsePattern(regex))
  {
    hide Accepts, ParsePattern, FullPattern, Print;
    buffer := "";
    if regex == "" || regex[0] != '^' {
      buffer := buffer + "^";
    }
    buffer := buffer + regex;
    if |regex| == 0 || regex[|regex| - 1] != '$' {
      buffer := buffer + "$";
    }
    assert buffer == (if regex == "" || regex[0] != '^' then "^" else "") + regex
                     + (if |regex| == 0 || regex[|regex| - 1] != '$' then "$" else "");
    FullIsPrinted(regex);
    PrintParsesBack(FullPattern(ParsePattern(regex)));
  }

  lemma {:induction false} LastPrinted(items: seq<Item>)
    requires ValidItems(items) && items != []
    ensures var t, last := PrintItems(items), items[|items| - 1];
      t != "" && t[|t| - 1] == PrintItem(last)[|PrintItem(last)| - 1]
    decreases |items|
  {
    if |items| > 1 {
      LastPrinted(items[1..]);
      assert items[1..][|items| - 2] == items[|items| - 1];
    } else {
      assert PrintItems(items[1..]) == "";
      assert PrintItems(items) == PrintItem(items[0]);
    }
  }

  lemma LastOfItem(i: Item)
    requires ValidAtom(i.atom)
    ensures var t := PrintItem(i);
      t != "" && (t[|t| - 1] == '$' <==> i == Item(Atom(true, '$'), Once))
  {
  }

  /** The last character is `$` exactly for a final anchor or an escaped dollar. */
  lemma LastIsDollar(p: Pattern)
    requires ValidPattern(p)
    ensures var t := Print(p);
      (t != "" && t[|t| - 1] == '$') <==> p.dollar || EndsInEscapedDollar(p)
  {
    hide PrintItems, PrintItem;
    var t, u := Print(p), PrintItems(p.items);
    if p.dollar {
      assert t[|t| - 1] == '$';
    } else if p.items == [] {
      NoItemsPrintNothing();
    } else {
      LastPrinted(p.items);
      LastOfItem(p.items[|p.items| - 1]);
      assert t[|t| - 1] == u[|u| - 1];
    }
  }

  lemma NoItemsPrintNothing()
    ensures PrintItems([]) == ""
  {
  }

  lemma FullIsPrinted(regex: string)
    requires Accepts(regex, true, false)
    ensures var p := ParsePattern(regex);
      && ValidPattern(FullPattern(p))
      && Print(FullPattern(p)) ==
           (if regex == "" || regex[0] != '^' then "^" else "") + regex
           + (if |regex| == 0 || regex[|regex| - 1] != '$' then "$" else "")
  {
    hide Accepts, Parse, EndsInEscapedDollar, ParsePattern, ValidItems, Print;
    var p := ParsePattern(regex);
    ParsePatternPrints(regex);
    LastIsDollar(p);
    StartsWithCaret(p);
    PrintOfFull(p);
  }

  /** The full pattern's text is the pattern's, closed on both sides. */
  lemma PrintOfFull(p: Pattern)
    ensures Print(FullPattern(p)) ==
      (if p.anchored then "" else "^") + Print(p) + if p.dollar || EndsInEscapedDollar(p) then "" else "$"
  {
    hide PrintItems, EndsInEscapedDollar;
    var t := PrintItems(p.items);
    var q := FullPattern(p);
    assert PrintItems(q.items) == t;
    if p.anchored {
      assert "" + ("^" + (t + "")) == "^" + t;
      assert "" + ("^" + (t + "$")) == "^" + (t + "$");
    } else {
      assert "^" + ("" + (t + "")) == "^" + t;
      assert "^" + ("" + (t + "$")) == "^" + (t + "$");
    }
    assert ("^" + t) + "$" == "^" + (t + "$");
    assert ("^" + (t + "")) + "" == "^" + (t + "");
    assert ("^" + (t + "$")) + "" == "^" + (t + "$");
    assert t + "" == t;
  }

  lemma StartsWithCaret(p: Pattern)
    requires ValidPattern(p)
    ensures p.anchored <==> Print(p) != "" && Print(p)[0] == '^'
  {
    hide PrintBody;
    BodyHasNoCaret(p.items, p.dollar);
  }

  /** The built full pattern matches exactly the strings in the language, for
      every valid pattern whose text does not end in an escaped dollar. */
  lemma FullMatchIsWholeString(p: Pattern, s: string)
    requires !EndsInEscapedDollar(p)
    ensures SubstringMatch(FullPattern(p), s) <==> InLanguage(p.items, s)
  {
    assert s[0..|s|] == s;
  }

  /** With an escaped dollar at the end, it matches every string with a prefix in
      the language. */
  lemma FullMatchIsPrefix(p: Pattern, s: string)
    requires EndsInEscapedDollar(p)
    ensures SubstringMatch(FullPattern(p), s) <==> HeadMatch(p.items, false, s)
  {
    AnchoredMatch(FullPattern(p), s);
  }

  /** A character every atom of the grammar has. */
  function Sample(a: Atom): char
  {
    if !a.escaped then a.c
    else
      match a.c
      case 'd' => '0'
      case 'D' => 'a'
      case 'f' => '\U{C}'
      case 'n' => '\n'
      case 'r' => '\r'
      case 's' => ' '
      case 'S' => 'a'
      case 't' => '\t'
      case 'v' => '\U{B}'
      case 'w' => 'a'
      case 'W' => ' '
      case _ => a.c
  }

  function SampleWord(items: seq<Item>): string
  {
    if items == [] then "" else [Sample(items[0].atom)] + SampleWord(items[1..])
  }

  lemma SampleMatches(a: Atom)
    requires ValidAtom(a)
    ensures AtomMatches(a, Sample(a))
  {
  }

  lemma {:induction false} SampleInLanguage(items: seq<Item>)
    requires ValidItems(items)
    ensures InLanguage(items, SampleWord(items))
    decreases |items|
  {
    hide AtomMatches, Sample, ValidAtom;
    if items != [] {
      var w := SampleWord(items);
      SampleInLanguage(items[1..]);
      SampleMatches(items[0].atom);
      assert w[..1] == [Sample(items[0].atom)] && w[1..] == SampleWord(items[1..]);
    }
  }

  lemma {:induction false} WordsEndAsLastItem(items: seq<Item>, w: string)
    requires items != [] && items[|items| - 1].repeat == Once && InLanguage(items, w)
    ensures w != "" && AtomMatches(items[|items| - 1].atom, w[|w| - 1])
    decreases |items|
  {
    var k :| 0 <= k <= |w| && ItemMatches(items[0], w[..k]) && InLanguage(items[1..], w[k..]);
    if |items| == 1 {
      assert w[..k] == w;
    } else {
      assert items[1..][|items| - 2] == items[|items| - 1];
      WordsEndAsLastItem(items[1..], w[k..]);
    }
  }

  lemma DollarIsNotX()
    ensures !AtomMatches(Atom(true, '$'), 'x')
  {
  }

  /** A string the full pattern matches although it is not in the language. */
  lemma EscapedDollarOverMatches(p: Pattern) returns (s: string)
    requires ValidPattern(p) && EndsInEscapedDollar(p)
    ensures HeadMatch(p.items, false, s) && !InLanguage(p.items, s)
  {
    hide InLanguage, SampleWord, AtomMatches, ValidItems;
    DollarIsNotX();
    var w := SampleWord(p.items);
    s := w + "x";
    SampleInLanguage(p.items);
    assert s[..|w|] == w;
    if InLanguage(p.items, s) { WordsEndAsLastItem(p.items, s); }
  }

  /**
   * FullMatch means "the whole string is in the language" for all strings if
   * and only if the pattern does not end in an escaped dollar.
   */
  lemma FullMatchExact(p: Pattern)
    requires ValidPattern(p)
    ensures !EndsInEscapedDollar(p)
       <==> forall s: string :: SubstringMatch(FullPattern(p), s) <==> InLanguage(p.items, s)
  {
    hide EndsInEscapedDollar, ValidPattern, SubstringMatch, HeadMatch, InLanguage, FullPattern;
    if EndsInEscapedDollar(p) {
      var s := EscapedDollarOverMatches(p);
      FullMatchIsPrefix(p, s);
    } else {
      forall s: string
        ensures SubstringMatch(FullPattern(p), s) <==> InLanguage(p.items, s)
      {
        FullMatchIsWholeString(p, s);
      }
    }
  }
}
