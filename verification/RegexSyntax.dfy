/**
 * The simple regular expressions of Google Test's portable matcher: characters,
 * atoms, the pattern grammar, and the validator.
 *
 * A string stands for the characters of a C string before its terminator.
 */
module RegexSyntax {
  // --------------------------------------------------------------- characters

  predicate IsInSet(ch: char, set_: string) { ch in set_ }

  predicate IsDigit(ch: char) { '0' <= ch <= '9' }
  predicate IsPunct(ch: char) { IsInSet(ch, "^-!\"#$%&'()*+,./:;<=>?@[\\]_`{|}~") }
  predicate IsRepeat(ch: char) { IsInSet(ch, "?*+") }
  predicate IsWhiteSpace(ch: char) { ch == ' ' || ch == '\U{C}' || ch == '\n' || ch == '\r' || ch == '\t' || ch == '\U{B}' }
  predicate IsWordChar(ch: char)
  {
    ('a' <= ch <= 'z') || ('A' <= ch <= 'Z') || ('0' <= ch <= '9') || ch == '_'
  }

  predicate IsValidEscape(c: char) { IsPunct(c) || IsInSet(c, "dDfnrsStvwW") }

  /** Whether the atom `pattern` (or `\pattern` when escaped) matches `ch`. */
  predicate AtomMatchesChar(escaped: bool, pattern: char, ch: char)
  {
    if escaped then
      match pattern
      case 'd' => IsDigit(ch)
      case 'D' => !IsDigit(ch)
      case 'f' => ch == '\U{C}'
      case 'n' => ch == '\n'
      case 'r' => ch == '\r'
      case 's' => IsWhiteSpace(ch)
      case 'S' => !IsWhiteSpace(ch)
      case 't' => ch == '\t'
      case 'v' => ch == '\U{B}'
      case 'w' => IsWordChar(ch)
      case 'W' => !IsWordChar(ch)
      case _ => IsPunct(pattern) && pattern == ch
    else (pattern == '.' && ch != '\n') || pattern == ch
  }

  // ------------------------------------------------------------------ grammar

  datatype Atom = Atom(escaped: bool, c: char)
  datatype Repeat = Once | Optional | Star | Plus
  datatype Item = Item(atom: Atom, repeat: Repeat)

  /** Optional `^`, atoms each with at most one repeat, optional final `$`. */
  datatype Pattern = Pattern(anchored: bool, items: seq<Item>, dollar: bool)

  predicate ValidAtom(a: Atom)
  {
    if a.escaped then IsValidEscape(a.c)
    else a.c != '\\' && !IsInSet(a.c, "^$()[]{}|") && !IsRepeat(a.c)
  }

  predicate ValidItems(items: seq<Item>)
  {
    forall i :: 0 <= i < |items| ==> ValidAtom(items[i].atom)
  }

  predicate ValidPattern(p: Pattern) { ValidItems(p.items) }

  function PrintAtom(a: Atom): string { if a.escaped then ['\\', a.c] else [a.c] }

  function PrintRepeat(r: Repeat): string
  {
    match r
    case Once => ""
    case Optional => "?"
    case Star => "*"
    case Plus => "+"
  }

  function PrintItem(i: Item): string { PrintAtom(i.atom) + PrintRepeat(i.repeat) }

  function PrintItems(items: seq<Item>): string
  {
    if items == [] then "" else PrintItem(items[0]) + PrintItems(items[1..])
  }

  function PrintBody(items: seq<Item>, dollar: bool): string
  {
    PrintItems(items) + if dollar then "$" else ""
  }

  function Print(p: Pattern): string
  {
    (if p.anchored then "^" else "") + PrintBody(p.items, p.dollar)
  }

  // ---------------------------------------------------------------- validator

  /** What is left to accept: `s` follows the start of the pattern (or not) and
      a token that may be repeated (or not). */
  predicate Accepts(s: string, atStart: bool, repeatable: bool)
    decreases |s|
  {
    if s == "" then true
    else if s[0] == '\\' then |s| >= 2 && IsValidEscape(s[1]) && Accepts(s[2..], false, true)
    else
      && !(s[0] == '^' && !atStart)
      && !(s[0] == '$' && |s| > 1)
      && !IsInSet(s[0], "()[]{}|")
      && !(IsRepeat(s[0]) && !repeatable)
      && Accepts(s[1..], false, !IsInSet(s[0], "^$?*+"))
  }

  /** ValidateRegex, on a non-null string. */
  method ValidateRegex(regex: string) returns (valid: bool)
    ensures valid <==> exists p :: ValidPattern(p) && Print(p) == regex
  {
    valid := CheckTokens(regex);
    AcceptsIffPrinted(regex);
  }

  method CheckTokens(regex: string) returns (valid: bool)
    ensures valid == Accepts(regex, true, false)
  {
    valid := true;
    var repeatable := false;
    var i := 0;
    while i < |regex|
      invariant i <= |regex|
      invariant Accepts(regex, true, false) == (valid && Accepts(regex[i..], i == 0, repeatable))
    {
      if regex[i] == '\\' {
        i := i + 1;
        if i == |regex| {
          return false;
        }
        if !IsValidEscape(regex[i]) {
          valid := false;
        }
        repeatable := true;
      } else {
        var ch := regex[i];
        if ch == '^' && i > 0 {
          valid := false;
        } else if ch == '$' && i + 1 < |regex| {
          valid := false;
        } else if IsInSet(ch, "()[]{}|") {
          valid := false;
        } else if IsRepeat(ch) && !repeatable {
          valid := false;
        }
        repeatable := !IsInSet(ch, "^$?*+");
      }
      i := i + 1;
    }
  }

  // ------------------------------------------------------------------ parsing

  function ParseRepeat(ch: char): Repeat
  {
    if ch == '?' then Optional else if ch == '*' then Star else if ch == '+' then Plus else Once
  }

  /** Length of the first atom. */
  function AtomLen(s: string): nat { if s != "" && s[0] == '\\' then 2 else 1 }

  /** The first item of an accepted, non-empty string other than "$". */
  function FirstItem(s: string): Item
    requires |s| >= AtomLen(s)
  {
    var n := AtomLen(s);
    Item(Atom(n == 2, s[n - 1]), if |s| > n then ParseRepeat(s[n]) else Once)
  }

  function ItemLen(s: string): nat
    requires |s| >= AtomLen(s)
  {
    AtomLen(s) + if FirstItem(s).repeat == Once then 0 else 1
  }

  /** A string accepted as the part after an optional `^`. */
  predicate BodyOk(s: string) { Accepts(s, false, false) }

  lemma FirstItemOk(s: string)
    requires BodyOk(s) && s != "" && s != "$"
    ensures AtomLen(s) <= ItemLen(s) <= |s|
    ensures ValidAtom(FirstItem(s).atom) && BodyOk(s[ItemLen(s)..])
    ensures s == PrintItem(FirstItem(s)) + s[ItemLen(s)..]
    ensures |s| > AtomLen(s) ==> (IsRepeat(s[AtomLen(s)]) <==> FirstItem(s).repeat != Once)
  {
    hide PrintItem, ValidAtom;
    FirstAtomOk(s);
    var n := AtomLen(s);
    var rest := s[n..];
    if rest != "" && IsRepeat(rest[0]) {
      assert rest[1..] == s[n + 1..];
    }
    FirstItemPrints(s);
  }

  lemma FirstAtomOk(s: string)
    requires BodyOk(s) && s != "" && s != "$"
    ensures AtomLen(s) <= |s| && ValidAtom(FirstItem(s).atom) && Accepts(s[AtomLen(s)..], false, true)
  {
  }

  lemma FirstItemPrints(s: string)
    requires AtomLen(s) <= |s| && ItemLen(s) <= |s| && ValidAtom(FirstItem(s).atom)
    ensures s == PrintItem(FirstItem(s)) + s[ItemLen(s)..]
  {
    hide ValidAtom;
    var n := AtomLen(s);
    assert s[..n] == PrintAtom(FirstItem(s).atom);
    assert s[..ItemLen(s)] == PrintItem(FirstItem(s));
  }

  function Parse(s: string): (r: (seq<Item>, bool))
    requires BodyOk(s)
    decreases |s|
  {
    if s == "" then ([], false)
    else if s == "$" then ([], true)
    else
      FirstItemOk(s);
      var (items, dollar) := Parse(s[ItemLen(s)..]);
      ([FirstItem(s)] + items, dollar)
  }

  lemma {:induction false} ParseThenPrint(s: string)
    requires BodyOk(s)
    ensures ValidItems(Parse(s).0) && PrintBody(Parse(s).0, Parse(s).1) == s
    decreases |s|
  {
    hide BodyOk, FirstItem, ItemLen, AtomLen, PrintItem, PrintBody, ValidItems, Parse;
    if s == "" || s == "$" {
      ParseShort();
    } else {
      FirstItemOk(s);
      ParseStep(s);
      var (items, dollar) := Parse(s[ItemLen(s)..]);
      ParseThenPrint(s[ItemLen(s)..]);
      PrintBodyCons(FirstItem(s), items, dollar);
    }
  }

  lemma ParseShort()
    ensures BodyOk("") && Parse("") == ([], false) && BodyOk("$") && Parse("$") == ([], true)
    ensures PrintBody([], false) == "" && PrintBody([], true) == "$" && ValidItems([])
  {
    assert "$"[1..] == "";
  }

  lemma ParseStep(s: string)
    requires BodyOk(s) && s != "" && s != "$"
    ensures AtomLen(s) <= ItemLen(s) <= |s| && BodyOk(s[ItemLen(s)..])
    ensures var (items, dollar) := Parse(s[ItemLen(s)..]);
      Parse(s) == ([FirstItem(s)] + items, dollar)
  {
    hide BodyOk, FirstItem, ItemLen, AtomLen;
    FirstItemOk(s);
  }

  lemma PrintBodyCons(i: Item, items: seq<Item>, dollar: bool)
    ensures PrintBody([i] + items, dollar) == PrintItem(i) + PrintBody(items, dollar)
    ensures ValidAtom(i.atom) && ValidItems(items) ==> ValidItems([i] + items)
  {
    hide PrintItem, ValidAtom;
    assert ([i] + items)[1..] == items;
    var tail := if dollar then "$" else "";
    assert PrintItem(i) + (PrintItems(items) + tail) == (PrintItem(i) + PrintItems(items)) + tail;
  }

  /** What follows an item in a printed body cannot be taken for its repeat. */
  lemma BodyStart(items: seq<Item>, dollar: bool)
    requires ValidItems(items)
    ensures var t := PrintBody(items, dollar); t != "" ==> !IsRepeat(t[0])
  {
    if items != [] {
      assert PrintBody(items, dollar)[0] == PrintAtom(items[0].atom)[0];
    }
  }

  lemma FirstOfPrinted(i: Item, t: string)
    requires ValidAtom(i.atom) && (t != "" ==> !IsRepeat(t[0]))
    ensures var s := PrintItem(i) + t;
      && |s| >= AtomLen(s) && FirstItem(s) == i && ItemLen(s) == |PrintItem(i)|
      && s != "$" && s[ItemLen(s)..] == t
  {
  }

  lemma AcceptsPrinted(i: Item, t: string)
    requires ValidAtom(i.atom) && BodyOk(t) && (t != "" ==> !IsRepeat(t[0]))
    ensures BodyOk(PrintItem(i) + t)
  {
    var a, r := PrintAtom(i.atom), PrintRepeat(i.repeat);
    var s := PrintItem(i) + t;
    assert s[|a|..] == r + t;
    assert Accepts(t, false, true);
    if r != "" {
      assert (r + t)[1..] == t;
      assert Accepts(r + t, false, true);
    } else {
      assert r + t == t;
    }
  }

  /** Printing and parsing undo each other, so the parse is unique. */
  lemma {:induction false} PrintThenParse(items: seq<Item>, dollar: bool)
    requires ValidItems(items)
    ensures BodyOk(PrintBody(items, dollar))
    ensures Parse(PrintBody(items, dollar)) == (items, dollar)
    decreases |items|
  {
    hide BodyOk, Parse, PrintBody, FirstItem, ItemLen, AtomLen, PrintItem, ValidAtom, IsRepeat;
    if items == [] {
      ParseShort();
    } else {
      var i, rest := items[0], items[1..];
      PrintThenParse(rest, dollar);
      BodyStart(rest, dollar);
      assert [i] + rest == items;
      PrintBodyCons(i, rest, dollar);
      ParseOfCons(i, PrintBody(rest, dollar));
    }
  }

  lemma PrintItemNonEmpty(i: Item)
    ensures PrintItem(i) != ""
  {
  }

  /** Parsing an item followed by a body finds the item first. */
  lemma ParseOfCons(i: Item, t: string)
    requires ValidAtom(i.atom) && BodyOk(t) && (t != "" ==> !IsRepeat(t[0]))
    ensures BodyOk(PrintItem(i) + t) && Parse(PrintItem(i) + t) == ([i] + Parse(t).0, Parse(t).1)
  {
    hide BodyOk, FirstItem, ItemLen, AtomLen, PrintItem, ValidAtom, IsRepeat, Parse;
    AcceptsPrinted(i, t);
    FirstOfPrinted(i, t);
    var s := PrintItem(i) + t;
    assert s[ItemLen(s)..] == t;
    PrintItemNonEmpty(i);
    ParseStep(s);
  }

  function ParsePattern(s: string): Pattern
    requires Accepts(s, true, false)
  {
    if s != "" && s[0] == '^' then
      var (items, dollar) := Parse(s[1..]);
      Pattern(true, items, dollar)
    else
      StartOnlyMatters(s);
      var (items, dollar) := Parse(s);
      Pattern(false, items, dollar)
  }

  lemma StartOnlyMatters(s: string)
    requires s == "" || s[0] != '^'
    ensures Accepts(s, true, false) == BodyOk(s)
  {
  }

  lemma ParsePatternPrints(s: string)
    requires Accepts(s, true, false)
    ensures ValidPattern(ParsePattern(s)) && Print(ParsePattern(s)) == s
  {
    if s != "" && s[0] == '^' {
      ParseThenPrint(s[1..]);
    } else {
      StartOnlyMatters(s);
      ParseThenPrint(s);
      assert "" + s == s;
    }
  }

  lemma PrintParsesBack(p: Pattern)
    requires ValidPattern(p)
    ensures Accepts(Print(p), true, false) && ParsePattern(Print(p)) == p
  {
    hide Parse, PrintBody, ValidItems;
    var b, s := PrintBody(p.items, p.dollar), Print(p);
    PrintThenParse(p.items, p.dollar);
    if p.anchored {
      CaretAccepted(s, b);
    } else {
      assert s == b;
      BodyHasNoCaret(p.items, p.dollar);
      StartOnlyMatters(s);
    }
  }

  lemma CaretAccepted(s: string, b: string)
    requires s == "^" + b && BodyOk(b)
    ensures s[1..] == b && Accepts(s, true, false)
  {
    assert s[1..] == b;
    assert !IsRepeat('^') && !IsInSet('^', "()[]{}|") && IsInSet('^', "^$?*+") by { assert "^$?*+"[0] == '^'; }
  }

  lemma BodyHasNoCaret(items: seq<Item>, dollar: bool)
    requires ValidItems(items)
    ensures var t := PrintBody(items, dollar); t == "" || t[0] != '^'
  {
    if items != [] { assert PrintBody(items, dollar)[0] == PrintAtom(items[0].atom)[0]; }
  }

  /** The validator accepts a string exactly when it prints some pattern. */
  lemma AcceptsIffPrinted(s: string)
    ensures Accepts(s, true, false) <==> exists p :: ValidPattern(p) && Print(p) == s
  {
    if Accepts(s, true, false) {
      ParsePatternPrints(s);
    }
    forall p | ValidPattern(p) && Print(p) == s
      ensures Accepts(s, true, false)
    {
      PrintParsesBack(p);
    }
  }

  /** No string prints two patterns. */
  lemma ParseIsUnique(p: Pattern, q: Pattern)
    requires ValidPattern(p) && ValidPattern(q) && Print(p) == Print(q)
    ensures p == q
  {
    PrintParsesBack(p);
    PrintParsesBack(q);
  }
}
