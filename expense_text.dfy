/** Reading the one-time expenses from the sidebar text: one `age,amount`
    entry per line, where a line that is not exactly two integers separated
    by a comma is skipped. The string operations are the ones Python
    provides (`str.strip`, `str.split` and `int` on a string), restricted to
    what this text can contain. */
module ExpenseText {
  import opened Optional
  import opened Simulation

  /** Python's whitespace: the ASCII controls tab to carriage return, the
      four information separators, the space, and the Unicode spaces and
      line/paragraph separators. */
  predicate IsSpace(c: char)
  {
    var n := c as int;
    (9 <= n <= 13) || (28 <= n <= 32) || n == 0x85 || n == 0xA0 || n == 0x1680
    || (0x2000 <= n <= 0x200A) || n == 0x2028 || n == 0x2029 || n == 0x202F
    || n == 0x205F || n == 0x3000
  }

  /** The whitespace `int` skips around a number: in ASCII only tab to
      carriage return and the space (the information separators, which
      `str.strip` removes, are refused); beyond ASCII the same characters as
      `str.strip`. */
  predicate IsIntSpace(c: char)
  {
    var n := c as int;
    if n < 128 then (9 <= n <= 13) || n == 32 else IsSpace(c)
  }

  predicate IsDigit(c: char)
  {
    '0' <= c <= '9'
  }

  /** `s` without its leading characters that satisfy `space`. */
  function StripLeft(s: string, space: char -> bool): (r: string)
    ensures |r| <= |s|
    decreases |s|
  {
    if s != [] && space(s[0]) then StripLeft(s[1..], space) else s
  }

  /** `s` without its trailing characters that satisfy `space`. */
  function StripRight(s: string, space: char -> bool): (r: string)
    ensures |r| <= |s|
    decreases |s|
  {
    if s != [] && space(s[|s| - 1]) then StripRight(s[..|s| - 1], space) else s
  }

  /** Both ends of `s` trimmed of the characters that satisfy `space`. */
  function Trim(s: string, space: char -> bool): string
  {
    StripRight(StripLeft(s, space), space)
  }

  /** `str.strip()` with no argument. */
  function Strip(s: string): string
  {
    Trim(s, IsSpace)
  }

  /** Stripping the front removes exactly the leading run of whitespace:
      what is left is a suffix of `s`, everything removed is whitespace,
      and what is left does not start with whitespace. */
  lemma {:induction false} StripLeftSpec(s: string, space: char -> bool)
    ensures var r := StripLeft(s, space);
            && r == s[|s| - |r|..]
            && (forall i :: 0 <= i < |s| - |r| ==> space(s[i]))
            && (r == [] || !space(r[0]))
    decreases |s|
  {
    if s != [] && space(s[0]) {
      StripLeftSpec(s[1..], space);
      var r := StripLeft(s, space);
      assert r == StripLeft(s[1..], space);
      forall i | 0 <= i < |s| - |r|
        ensures space(s[i])
      {
        if i > 0 {
          assert s[i] == s[1..][i - 1];
        }
      }
    }
  }

  /** Stripping the back removes exactly the trailing run of whitespace. */
  lemma {:induction false} StripRightSpec(s: string, space: char -> bool)
    ensures var r := StripRight(s, space);
            && r == s[..|r|]
            && (forall i :: |r| <= i < |s| ==> space(s[i]))
            && (r == [] || !space(r[|r| - 1]))
    decreases |s|
  {
    if s != [] && space(s[|s| - 1]) {
      StripRightSpec(s[..|s| - 1], space);
      var r := StripRight(s, space);
      assert r == StripRight(s[..|s| - 1], space);
      forall i | |r| <= i < |s|
        ensures space(s[i])
      {
        if i < |s| - 1 {
          assert s[i] == s[..|s| - 1][i];
        }
      }
    }
  }

  /** A string that neither starts nor ends with whitespace is left alone. */
  lemma StripNoOp(s: string, space: char -> bool)
    requires s == [] || (!space(s[0]) && !space(s[|s| - 1]))
    ensures Trim(s, space) == s
  {
    if s != [] {
      assert StripLeft(s, space) == s;
    }
  }

  /** A string of whitespace only is stripped to nothing. */
  lemma StripAllSpace(s: string)
    requires forall i :: 0 <= i < |s| ==> IsSpace(s[i])
    ensures Strip(s) == []
  {
    StripLeftSpec(s, IsSpace);
    var l := StripLeft(s, IsSpace);
    if l != [] {
      assert false;
    }
  }

  /** The inverse of `Split`: the parts with `sep` between neighbours. */
  function Join(parts: seq<string>, sep: char): string
  {
    if |parts| == 0 then []
    else if |parts| == 1 then parts[0]
    else parts[0] + [sep] + Join(parts[1..], sep)
  }

  lemma JoinConsHead(c: char, parts: seq<string>, sep: char)
    requires |parts| >= 1
    ensures Join([[c] + parts[0]] + parts[1..], sep) == [c] + Join(parts, sep)
  {
    var joined := [[c] + parts[0]] + parts[1..];
    if |parts| > 1 {
      assert joined[1..] == parts[1..];
    }
  }

  /** `s.split(sep)`: the pieces between the occurrences of `sep`, in order,
      empty pieces included; there is always at least one piece, none
      contains `sep`, and joining them back gives `s`. */
  function Split(s: string, sep: char): (parts: seq<string>)
    ensures |parts| >= 1
    ensures forall i :: 0 <= i < |parts| ==> sep !in parts[i]
    ensures Join(parts, sep) == s
    decreases |s|
  {
    if s == [] then [[]]
    else if s[0] == sep then
      assert s == [] + [sep] + s[1..];
      [[]] + Split(s[1..], sep)
    else
      var rest := Split(s[1..], sep);
      JoinConsHead(s[0], rest, sep);
      assert s == [s[0]] + s[1..];
      [[s[0]] + rest[0]] + rest[1..]
  }

  /** A piece free of the separator splits to itself. */
  lemma {:induction false} SplitNoSeparator(a: string, sep: char)
    requires sep !in a
    ensures Split(a, sep) == [a]
    decreases |a|
  {
    if a != [] {
      SplitNoSeparator(a[1..], sep);
      assert [a[0]] + a[1..] == a;
    }
  }

  /** A separator-free prefix followed by the separator splits off as the
      first piece. */
  lemma {:induction false} SplitFirstPiece(a: string, rest: string, sep: char)
    requires sep !in a
    ensures Split(a + [sep] + rest, sep) == [a] + Split(rest, sep)
    decreases |a|
  {
    var s := a + [sep] + rest;
    if a == [] {
      assert s[1..] == rest;
    } else {
      assert s[1..] == a[1..] + [sep] + rest;
      SplitFirstPiece(a[1..], rest, sep);
      assert [a[0]] + a[1..] == a;
    }
  }

  /** Splitting undoes joining pieces that are free of the separator. */
  lemma {:induction false} SplitJoin(parts: seq<string>, sep: char)
    requires |parts| >= 1
    requires forall i :: 0 <= i < |parts| ==> sep !in parts[i]
    ensures Split(Join(parts, sep), sep) == parts
    decreases |parts|
  {
    if |parts| == 1 {
      SplitNoSeparator(parts[0], sep);
    } else {
      SplitJoin(parts[1..], sep);
      SplitFirstPiece(parts[0], Join(parts[1..], sep), sep);
      assert [parts[0]] + parts[1..] == parts;
    }
  }

  /** Digits, possibly with single underscores between them, as `int`
      accepts after the sign. */
  predicate WellFormedDigits(s: string)
  {
    && |s| > 0 && IsDigit(s[0]) && IsDigit(s[|s| - 1])
    && (forall i :: 0 <= i < |s| ==> IsDigit(s[i]) || s[i] == '_')
    && (forall i :: 0 <= i < |s| - 1 ==> s[i] == '_' ==> s[i + 1] != '_')
  }

  /** The decimal value of the digits of `s`; underscores are skipped. */
  function DigitsValue(s: string): (v: nat)
    decreases |s|
  {
    if s == [] then 0
    else
      var last := s[|s| - 1];
      var rest := DigitsValue(s[..|s| - 1]);
      if IsDigit(last) then rest * 10 + (last as int - '0' as int) else rest
  }

  /** `int(s)` on a string: surrounding whitespace ignored, an optional
      sign, then well-formed decimal digits; anything else is an error. */
  function ParseInt(s: string): Option<int>
  {
    var t := Trim(s, IsIntSpace);
    if |t| > 0 && (t[0] == '+' || t[0] == '-') then
      if WellFormedDigits(t[1..]) then
        Some(if t[0] == '-' then -(DigitsValue(t[1..]) as int) else DigitsValue(t[1..]))
      else None
    else if WellFormedDigits(t) then Some(DigitsValue(t))
    else None
  }

  function DigitChar(d: int): char
    requires 0 <= d < 10
  {
    ('0' as int + d) as char
  }

  /** `str(n)` for a natural number: its decimal digits, most significant
      first. */
  function ShowNat(n: nat): (r: string)
    ensures |r| >= 1
  {
    if n < 10 then [DigitChar(n)] else ShowNat(n / 10) + [DigitChar(n % 10)]
  }

  /** `str(n)` for an integer. */
  function ShowInt(n: int): (r: string)
    ensures |r| >= 1
  {
    if n < 0 then "-" + ShowNat(-n) else ShowNat(n)
  }

  /** The text of a natural number is all digits. */
  lemma {:induction false} ShowNatDigits(n: nat)
    ensures forall i :: 0 <= i < |ShowNat(n)| ==> IsDigit(ShowNat(n)[i])
  {
    if n >= 10 {
      ShowNatDigits(n / 10);
    }
  }

  /** Reading the digits of a natural number back gives the number. */
  lemma {:induction false} DigitsValueShowNat(n: nat)
    ensures WellFormedDigits(ShowNat(n))
    ensures DigitsValue(ShowNat(n)) == n
  {
    var s := ShowNat(n);
    ShowNatDigits(n);
    if n >= 10 {
      DigitsValueShowNat(n / 10);
      assert s[..|s| - 1] == ShowNat(n / 10);
    }
  }

  /** The text of an integer has no whitespace at either end and contains
      neither a comma nor a line break. */
  lemma ShowIntPlain(n: int)
    ensures var s := ShowInt(n);
            !IsSpace(s[0]) && !IsSpace(s[|s| - 1]) && ',' !in s && '\n' !in s
  {
    if n < 0 {
      ShowNatDigits(-n);
      assert forall i :: 1 <= i < |ShowInt(n)| ==> ShowInt(n)[i] == ShowNat(-n)[i - 1];
    } else {
      ShowNatDigits(n);
    }
  }

  /** Trimmed digits parse to their value. */
  lemma ParseUnsigned(s: string)
    requires Trim(s, IsIntSpace) == s && WellFormedDigits(s)
    ensures ParseInt(s) == Some(DigitsValue(s))
  {
  }

  /** Trimmed, minus-signed digits parse to the negated value. */
  lemma ParseNegative(s: string)
    requires Trim(s, IsIntSpace) == s && |s| > 0 && s[0] == '-' && WellFormedDigits(s[1..])
    ensures ParseInt(s) == Some(-(DigitsValue(s[1..]) as int))
  {
  }

  /** `int(str(n)) == n` for every integer. */
  lemma ParseShowInt(n: int)
    ensures ParseInt(ShowInt(n)) == Some(n)
  {
    var s := ShowInt(n);
    ShowIntPlain(n);
    StripNoOp(s, IsIntSpace);
    if n < 0 {
      assert s[1..] == ShowNat(-n);
      DigitsValueShowNat(-n);
      ParseNegative(s);
    } else {
      assert s == ShowNat(n);
      DigitsValueShowNat(n);
      ParseUnsigned(s);
    }
  }

  /** One line of the text: exactly two comma-separated integers give an
      entry (age first, then amount); any other line gives none. */
  function ParsePair(line: string): Option<OneTimeExpense>
  {
    var parts := Split(line, ',');
    if |parts| != 2 then None
    else
      match (ParseInt(parts[0]), ParseInt(parts[1]))
      case (Some(age), Some(amount)) => Some(OneTimeExpense(age, amount))
      case _ => None
  }

  /** The entries of the lines that parse, in the order of the lines. */
  function KeepParsed(lines: seq<string>): (entries: seq<OneTimeExpense>)
    ensures |entries| <= |lines|
    decreases |lines|
  {
    if lines == [] then []
    else
      var rest := KeepParsed(lines[..|lines| - 1]);
      match ParsePair(lines[|lines| - 1])
      case Some(e) => rest + [e]
      case None => rest
  }

  /** The parse loop: strip the text, split it into lines, and append the
      entry of every line that parses. */
  method ParseOneTimeExpenses(inputExp: string) returns (oneTimeExpenses: seq<OneTimeExpense>)
    ensures oneTimeExpenses == KeepParsed(Split(Strip(inputExp), '\n'))
  {
    oneTimeExpenses := [];
    var lines := Split(Strip(inputExp), '\n');
    for i := 0 to |lines|
      invariant oneTimeExpenses == KeepParsed(lines[..i])
    {
      assert lines[..i + 1][..i] == lines[..i];
      match ParsePair(lines[i])
      case Some(e) =>
        oneTimeExpenses := oneTimeExpenses + [e];
      case None =>
    }
    assert lines[..|lines|] == lines;
  }

  /** Lines are read independently: the entries of two blocks of lines are
      the entries of the first followed by those of the second. */
  lemma {:induction false} KeepParsedAppend(a: seq<string>, b: seq<string>)
    ensures KeepParsed(a + b) == KeepParsed(a) + KeepParsed(b)
    decreases |b|
  {
    if b == [] {
      assert a + b == a;
    } else {
      var front := b[..|b| - 1];
      assert (a + b)[..|a + b| - 1] == a + front;
      assert (a + b)[|a + b| - 1] == b[|b| - 1];
      KeepParsedAppend(a, front);
    }
  }

  /** A single line yields its entry when it parses and nothing otherwise. */
  lemma KeepParsedOne(line: string)
    ensures KeepParsed([line]) == match ParsePair(line) case Some(e) => [e] case None => []
  {
    assert [line][..0] == [];
  }

  /** A line that does not parse is skipped without disturbing the others. */
  lemma SkipsBadLine(a: seq<string>, line: string, b: seq<string>)
    requires ParsePair(line) == None
    ensures KeepParsed(a + [line] + b) == KeepParsed(a) + KeepParsed(b)
  {
    KeepParsedAppend(a + [line], b);
    KeepParsedAppend(a, [line]);
    KeepParsedOne(line);
  }

  /** Every entry read comes from a line that parses to it. */
  lemma {:induction false} KeptEntriesComeFromLines(lines: seq<string>, e: OneTimeExpense)
    requires e in KeepParsed(lines)
    ensures exists i :: 0 <= i < |lines| && ParsePair(lines[i]) == Some(e)
    decreases |lines|
  {
    var front := lines[..|lines| - 1];
    var last := |lines| - 1;
    if ParsePair(lines[last]) == Some(e) {
    } else {
      assert e in KeepParsed(front);
      KeptEntriesComeFromLines(front, e);
      var i :| 0 <= i < |front| && ParsePair(front[i]) == Some(e);
      assert lines[i] == front[i];
    }
  }

  /** Every line that parses contributes its entry. */
  lemma {:induction false} ParsedLinesAreKept(lines: seq<string>, i: int)
    requires 0 <= i < |lines| && ParsePair(lines[i]).Some?
    ensures ParsePair(lines[i]).value in KeepParsed(lines)
    decreases |lines|
  {
    var front := lines[..|lines| - 1];
    if i < |lines| - 1 {
      assert front[i] == lines[i];
      ParsedLinesAreKept(front, i);
    }
  }

  /** Empty text, or text of whitespace only, gives no entries. */
  lemma BlankInputGivesNothing(inputExp: string)
    requires forall i :: 0 <= i < |inputExp| ==> IsSpace(inputExp[i])
    ensures KeepParsed(Split(Strip(inputExp), '\n')) == []
  {
    StripAllSpace(inputExp);
    assert Split([], ',') == [[]];
    KeepParsedOne([]);
  }

  /** The line an entry is written as: `age,amount`. */
  function FormatLine(e: OneTimeExpense): string
  {
    ShowInt(e.age) + [','] + ShowInt(e.amount)
  }

  /** The lines of a list of entries, one per entry, in order. */
  function FormatLines(entries: seq<OneTimeExpense>): (lines: seq<string>)
    ensures |lines| == |entries|
  {
    seq(|entries|, i requires 0 <= i < |entries| => FormatLine(entries[i]))
  }

  lemma FormatLinesSnoc(front: seq<OneTimeExpense>, last: OneTimeExpense)
    ensures FormatLines(front + [last]) == FormatLines(front) + [FormatLine(last)]
  {
    var all := front + [last];
    assert forall i :: 0 <= i < |front| ==> all[i] == front[i];
  }

  /** What `int` accepts is, once its whitespace is trimmed, digits and
      single underscores, ending in a digit, after at most one leading sign;
      the sign is the only thing the digits can start with besides a digit. */
  lemma ParseIntAcceptsOnlyNumbers(s: string)
    ensures ParseInt(s).Some? ==>
              var t := Trim(s, IsIntSpace);
              && |t| > 0 && IsDigit(t[|t| - 1])
              && (IsDigit(t[0]) || t[0] == '+' || t[0] == '-')
              && (forall i :: 0 < i < |t| ==> IsDigit(t[i]) || t[i] == '_')
  {
    var t := Trim(s, IsIntSpace);
    if ParseInt(s).Some? && |t| > 0 && (t[0] == '+' || t[0] == '-') {
      assert forall i :: 0 < i < |t| ==> t[i] == t[1..][i - 1];
    }
  }

  /** `str.strip` counts the information separator U+001C as whitespace. */
  lemma StripRemovesSeparatorControl()
    ensures Strip("28\U{1C}") == "28"
  {
    var s := "28\U{1C}";
    assert StripLeft(s, IsSpace) == s;
    assert StripRight(s[..2], IsSpace) == s[..2];
  }

  /** `int` does not: a number followed by U+001C is refused. */
  lemma IntRefusesSeparatorControl()
    ensures ParseInt("28\U{1C}") == None
  {
    var s := "28\U{1C}";
    assert StripLeft(s, IsIntSpace) == s;
    assert StripRight(s, IsIntSpace) == s;
    assert !WellFormedDigits(s);
  }

  /** So the line `28<U+001C>,100` gives no entry. */
  lemma PairRefusesSeparatorControl()
    ensures ParsePair("28\U{1C},100") == None
  {
    var s := "28\U{1C}";
    IntRefusesSeparatorControl();
    SplitNoSeparator("100", ',');
    SplitFirstPiece(s, "100", ',');
    assert s + [','] + "100" == "28\U{1C},100";
  }

  /** A line that gives an entry is two comma-free pieces around its single
      comma, and the entry holds the two pieces' values in order. */
  lemma ParsePairOneComma(line: string)
    requires ParsePair(line).Some?
    ensures multiset(line)[','] == 1
    ensures var parts := Split(line, ',');
            && |parts| == 2 && line == parts[0] + [','] + parts[1]
            && ParsePair(line) == Some(OneTimeExpense(ParseInt(parts[0]).value, ParseInt(parts[1]).value))
  {
    var parts := Split(line, ',');
    assert Join(parts[1..], ',') == parts[1];
    assert line == parts[0] + [','] + parts[1];
    assert ',' !in parts[0] && ',' !in parts[1];
    assert multiset(line) == multiset(parts[0]) + multiset([',']) + multiset(parts[1]);
  }

  /** A line made of two pieces around a single comma, each of which parses,
      gives the entry of the two values. */
  lemma ParsePairOfPieces(a: string, b: string, age: int, amount: int)
    requires ',' !in a && ',' !in b
    requires ParseInt(a) == Some(age) && ParseInt(b) == Some(amount)
    ensures ParsePair(a + [','] + b) == Some(OneTimeExpense(age, amount))
  {
    SplitNoSeparator(b, ',');
    SplitFirstPiece(a, b, ',');
  }

  lemma FormatLineParses(e: OneTimeExpense)
    ensures ParsePair(FormatLine(e)) == Some(e)
  {
    ShowIntPlain(e.age);
    ShowIntPlain(e.amount);
    ParseShowInt(e.age);
    ParseShowInt(e.amount);
    ParsePairOfPieces(ShowInt(e.age), ShowInt(e.amount), e.age, e.amount);
  }

  /** A line that parses adds its entry after those of the lines before. */
  lemma KeepParsedSnoc(lines: seq<string>, line: string, e: OneTimeExpense)
    requires ParsePair(line) == Some(e)
    ensures KeepParsed(lines + [line]) == KeepParsed(lines) + [e]
  {
    assert (lines + [line])[..|lines|] == lines;
  }

  lemma {:induction false} FormatLinesParse(entries: seq<OneTimeExpense>)
    ensures KeepParsed(FormatLines(entries)) == entries
    decreases |entries|
  {
    if entries != [] {
      var front := entries[..|entries| - 1];
      var last := entries[|entries| - 1];
      assert front + [last] == entries;
      FormatLinesParse(front);
      FormatLineParses(last);
      KeepParsedSnoc(FormatLines(front), FormatLine(last), last);
      FormatLinesSnoc(front, last);
    }
  }

  /** Joined pieces start with the first piece and end with the last. */
  lemma JoinFirst(parts: seq<string>, sep: char)
    requires |parts| >= 1 && parts[0] != []
    ensures var s := Join(parts, sep); |s| > 0 && s[0] == parts[0][0]
  {
  }

  lemma {:induction false} JoinLast(parts: seq<string>, sep: char)
    requires |parts| >= 1 && parts[|parts| - 1] != []
    ensures var s := Join(parts, sep);
            |s| > 0 && s[|s| - 1] == parts[|parts| - 1][|parts[|parts| - 1]| - 1]
    decreases |parts|
  {
    if |parts| > 1 {
      JoinLast(parts[1..], sep);
    }
  }

  /** No formatted line contains a line break. */
  lemma FormattedLinesUnbroken(entries: seq<OneTimeExpense>)
    ensures forall i :: 0 <= i < |entries| ==> '\n' !in FormatLines(entries)[i]
  {
    forall i | 0 <= i < |entries|
      ensures '\n' !in FormatLines(entries)[i]
    {
      ShowIntPlain(entries[i].age);
      ShowIntPlain(entries[i].amount);
    }
  }

  /** A non-empty text that neither starts nor ends with whitespace. */
  predicate Trimmed(text: string)
  {
    text != [] && !IsSpace(text[0]) && !IsSpace(text[|text| - 1])
  }

  /** A formatted line neither starts nor ends with whitespace. */
  lemma FormatLineEnds(entries: seq<OneTimeExpense>, i: int)
    requires 0 <= i < |entries|
    ensures Trimmed(FormatLines(entries)[i])
  {
    var e := entries[i];
    ShowIntPlain(e.age);
    ShowIntPlain(e.amount);
    var a := ShowInt(e.age);
    var b := ShowInt(e.amount);
    var line := FormatLines(entries)[i];
    assert line == a + [','] + b;
    assert line[0] == a[0];
    assert line[|line| - 1] == b[|b| - 1];
  }

  /** Lines whose text neither starts nor ends with whitespace join into a
      text that stripping leaves alone. */
  lemma JoinedTextTrimmed(lines: seq<string>, sep: char)
    requires |lines| >= 1 && Trimmed(lines[0]) && Trimmed(lines[|lines| - 1])
    ensures Strip(Join(lines, sep)) == Join(lines, sep)
  {
    JoinFirst(lines, sep);
    JoinLast(lines, sep);
    StripNoOp(Join(lines, sep), IsSpace);
  }

  /** The formatted text starts with a digit or a minus sign and ends with
      a digit, so stripping leaves it alone. */
  lemma FormattedTextTrimmed(entries: seq<OneTimeExpense>)
    requires entries != []
    ensures var text := Join(FormatLines(entries), '\n'); Strip(text) == text
  {
    var lines := FormatLines(entries);
    var n := |entries| - 1;
    assert |lines| - 1 == n;
    FormatLineEnds(entries, 0);
    FormatLineEnds(entries, n);
    assert Trimmed(lines[0]) && Trimmed(lines[n]);
    JoinedTextTrimmed(lines, '\n');
  }

  /** Writing entries one per line in the `age,amount` format and reading
      the text back gives the same entries, in the same order. */
  lemma FormatThenParse(entries: seq<OneTimeExpense>)
    ensures KeepParsed(Split(Strip(Join(FormatLines(entries), '\n')), '\n')) == entries
  {
    var lines := FormatLines(entries);
    var text := Join(lines, '\n');
    if entries == [] {
      assert text == [];
      BlankInputGivesNothing(text);
    } else {
      FormattedTextTrimmed(entries);
      FormattedLinesUnbroken(entries);
      SplitJoin(lines, '\n');
      FormatLinesParse(entries);
    }
  }
}
