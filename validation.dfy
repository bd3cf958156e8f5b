/** The server's field validators: four anchored regular expressions and the
    truthiness-guarded `validateInput`. Each pattern is stated twice: as a
    declarative reading of the regular expression (a ghost predicate) and as
    an executable matcher, and a lemma shows the two agree. */
module Validation {
  import opened JsValues

  predicate IsUpper(c: char) { 'A' <= c <= 'Z' }
  predicate IsLower(c: char) { 'a' <= c <= 'z' }

  /** `[a-zA-Z]` */
  predicate IsLetter(c: char) { IsUpper(c) || IsLower(c) }

  /** `[a-zA-Z0-9._%+-]` */
  predicate IsLocalChar(c: char) {
    IsLetter(c) || IsDigitChar(c) || c == '.' || c == '_' || c == '%' || c == '+' || c == '-'
  }

  /** `[a-zA-Z0-9.-]` */
  predicate IsDomainChar(c: char) { IsLetter(c) || IsDigitChar(c) || c == '.' || c == '-' }

  /** `\s`: the ECMAScript WhiteSpace and LineTerminator code points. */
  predicate IsJsSpace(c: char) {
    || c == '\t' || c == '\n' || c == '\U{000B}' || c == '\U{000C}' || c == '\r' || c == ' '
    || c == '\U{00A0}' || c == '\U{1680}' || ('\U{2000}' <= c <= '\U{200A}')
    || c == '\U{2028}' || c == '\U{2029}' || c == '\U{202F}' || c == '\U{205F}'
    || c == '\U{3000}' || c == '\U{FEFF}'
  }

  /** `[A-Za-z\s]` */
  predicate IsEducationChar(c: char) { IsLetter(c) || IsJsSpace(c) }

  // The patterns, read declaratively. `^` and `$` (no `m` flag) anchor at the
  // very start and the very end of the input.

  /** namePattern, `^[a-zA-Z]{3,}$` */
  ghost predicate NamePattern(s: string) {
    |s| >= 3 && forall i :: 0 <= i < |s| ==> IsLetter(s[i])
  }

  /** One way of matching emailPattern: the local part is s[..at], the `@` is
      at `at`, the domain is s[at+1..dot], the `\.` is at `dot` and the
      top-level part is s[dot+1..]. */
  ghost predicate EmailSplit(s: string, at: int, dot: int) {
    && 0 < at && at + 1 < dot && dot + 2 < |s|
    && s[at] == '@' && s[dot] == '.'
    && (forall i :: 0 <= i < at ==> IsLocalChar(s[i]))
    && (forall i :: at < i < dot ==> IsDomainChar(s[i]))
    && (forall i :: dot < i < |s| ==> IsLetter(s[i]))
  }

  /** emailPattern, `^[a-zA-Z0-9._%+-]+@[a-zA-Z0-9.-]+\.[a-zA-Z]{2,}$` */
  ghost predicate EmailPattern(s: string) {
    exists at, dot :: EmailSplit(s, at, dot)
  }

  /** agePattern, `^(1[01][0-9]|[1-9]?[0-9]|120)$`: the three alternatives in
      the order written. */
  predicate AgePattern(s: string) {
    || (|s| == 3 && s[0] == '1' && (s[1] == '0' || s[1] == '1') && IsDigitChar(s[2]))
    || (|s| == 1 && IsDigitChar(s[0]))
    || (|s| == 2 && '1' <= s[0] <= '9' && IsDigitChar(s[1]))
    || s == "120"
  }

  /** educationPattern, `^[A-Za-z\s]{2,200}$` */
  ghost predicate EducationPattern(s: string) {
    2 <= |s| <= 200 && forall i :: 0 <= i < |s| ==> IsEducationChar(s[i])
  }

  // Executable matchers.

  /** Length of the longest run of characters satisfying p that starts at i. */
  function Span(s: string, i: nat, p: char -> bool): (n: nat)
    requires i <= |s|
    ensures i + n <= |s|
    ensures forall k :: i <= k < i + n ==> p(s[k])
    ensures i + n < |s| ==> !p(s[i + n])
    decreases |s| - i
  {
    if i == |s| || !p(s[i]) then 0 else 1 + Span(s, i + 1, p)
  }

  /** Index of the last occurrence of c in s, or -1 when there is none. */
  function LastIndex(s: string, c: char): (k: int)
    ensures -1 <= k < |s|
    ensures k >= 0 ==> s[k] == c
    ensures forall j :: k < j < |s| ==> s[j] != c
  {
    if s == [] then -1
    else if s[|s| - 1] == c then |s| - 1
    else LastIndex(s[..|s| - 1], c)
  }

  predicate MatchName(s: string) {
    |s| >= 3 && Span(s, 0, IsLetter) == |s|
  }

  predicate MatchEducation(s: string) {
    2 <= |s| <= 200 && Span(s, 0, IsEducationChar) == |s|
  }

  /** emailPattern without backtracking: the local part ends at the first
      character outside its class, which must be the `@`; the `\.` is the
      last dot, because the top-level part holds letters only. */
  predicate MatchEmail(s: string) {
    var at := Span(s, 0, IsLocalChar);
    var dot := LastIndex(s, '.');
    && 0 < at < |s| && s[at] == '@'
    && at + 1 < dot && dot + 2 < |s|
    && at + 1 + Span(s, at + 1, IsDomainChar) >= dot
    && dot + 1 + Span(s, dot + 1, IsLetter) == |s|
  }

  lemma {:induction false} SpanAtLeast(s: string, i: nat, p: char -> bool, j: nat)
    requires i <= j <= |s|
    requires forall k :: i <= k < j ==> p(s[k])
    ensures Span(s, i, p) >= j - i
    decreases j - i
  {
    if i < j {
      SpanAtLeast(s, i + 1, p, j);
    }
  }

  lemma SpanExact(s: string, i: nat, p: char -> bool, j: nat)
    requires i <= j <= |s|
    requires forall k :: i <= k < j ==> p(s[k])
    requires j < |s| ==> !p(s[j])
    ensures Span(s, i, p) == j - i
  {
    SpanAtLeast(s, i, p, j);
  }

  lemma {:induction false} LastIndexExact(s: string, c: char, d: nat)
    requires d < |s| && s[d] == c
    requires forall j :: d < j < |s| ==> s[j] != c
    ensures LastIndex(s, c) == d
  {
    if d < |s| - 1 {
      LastIndexExact(s[..|s| - 1], c, d);
    }
  }

  /** The name matcher accepts exactly the strings of three or more ASCII
      letters, of either case: no capital-first rule. */
  lemma MatchNameCorrect(s: string)
    ensures MatchName(s) <==> NamePattern(s)
  {
    if NamePattern(s) {
      SpanExact(s, 0, IsLetter, |s|);
    }
  }

  /** The education matcher accepts exactly the strings of 2 to 200 letters
      or whitespace characters. */
  lemma MatchEducationCorrect(s: string)
    ensures MatchEducation(s) <==> EducationPattern(s)
  {
    if EducationPattern(s) {
      SpanExact(s, 0, IsEducationChar, |s|);
    }
  }

  /** In any match of emailPattern the `\.` is the last dot of the input. */
  lemma EmailDotIsLast(s: string, at: int, dot: int)
    requires EmailSplit(s, at, dot)
    ensures LastIndex(s, '.') == dot
  {
    LastIndexExact(s, '.', dot);
  }

  /** The deterministic email matcher accepts exactly what emailPattern
      accepts. */
  lemma MatchEmailCorrect(s: string)
    ensures MatchEmail(s) <==> EmailPattern(s)
  {
    if MatchEmail(s) {
      var at := Span(s, 0, IsLocalChar);
      var dot := LastIndex(s, '.');
      assert EmailSplit(s, at, dot);
    }
    if EmailPattern(s) {
      var at, dot :| EmailSplit(s, at, dot);
      SpanExact(s, 0, IsLocalChar, at);
      EmailDotIsLast(s, at, dot);
      SpanAtLeast(s, at + 1, IsDomainChar, dot);
      SpanExact(s, dot + 1, IsLetter, |s|);
    }
  }

  /** An accepted email has exactly one `@`. */
  lemma EmailHasOneAt(s: string)
    requires EmailPattern(s)
    ensures exists at :: 0 < at < |s| && s[at] == '@' && forall j :: 0 <= j < |s| && s[j] == '@' ==> j == at
  {
    var at, dot :| EmailSplit(s, at, dot);
    assert forall j :: 0 <= j < at ==> s[j] != '@';
    assert forall j :: at < j < dot ==> s[j] != '@';
    assert forall j :: dot <= j < |s| ==> s[j] != '@';
  }

  // Age: the canonical numerals of 0..120.

  lemma DecimalInRangeMatches(n: nat)
    requires n <= 120
    ensures AgePattern(Decimal(n))
  {
    var s := Decimal(n);
    if 10 <= n < 100 {
      assert s == Decimal(n / 10) + [DigitChar(n % 10)];
      assert Decimal(n / 10) == [DigitChar(n / 10)];
    } else if 100 <= n {
      var t := Decimal(n / 10);
      assert s == t + [DigitChar(n % 10)];
      assert t == Decimal(1) + [DigitChar(n / 10 % 10)];
      assert Decimal(1) == "1";
    }
  }

  /** Appending a digit to a numeral multiplies its value by ten and adds the
      digit. */
  lemma ValueSnoc(s: string, c: char)
    ensures DecimalValue(s + [c]) == DecimalValue(s) * 10 + (c as int - '0' as int)
  {
    assert (s + [c])[..|s|] == s;
  }

  /** The numeral of 10a + d is the numeral of a followed by the digit d. */
  lemma DecimalSnoc(a: nat, d: nat)
    requires 1 <= a && d < 10
    ensures Decimal(10 * a + d) == Decimal(a) + [DigitChar(d)]
  {
    assert (10 * a + d) / 10 == a && (10 * a + d) % 10 == d;
  }

  lemma OneDigitValue(c: char)
    ensures DecimalValue([c]) == c as int - '0' as int
  {
    assert [c][..0] == [];
  }

  lemma TwoDigitCanonical(s: string)
    requires |s| == 2 && '1' <= s[0] <= '9' && IsDigitChar(s[1])
    ensures DecimalValue(s) == 10 * (s[0] as int - '0' as int) + (s[1] as int - '0' as int)
    ensures Decimal(DecimalValue(s)) == s
  {
    var d0, d1 := s[0] as int - '0' as int, s[1] as int - '0' as int;
    OneDigitValue(s[0]);
    assert s == [s[0]] + [s[1]];
    ValueSnoc([s[0]], s[1]);
    DecimalSnoc(d0, d1);
    assert Decimal(d0) == [s[0]];
  }

  lemma HundredsCanonical(s: string)
    requires |s| == 3 && s[0] == '1' && '0' <= s[1] <= '2' && IsDigitChar(s[2])
    ensures DecimalValue(s) == 100 + 10 * (s[1] as int - '0' as int) + (s[2] as int - '0' as int)
    ensures Decimal(DecimalValue(s)) == s
  {
    var d1, d2 := s[1] as int - '0' as int, s[2] as int - '0' as int;
    var t := s[..2];
    assert s == t + [s[2]];
    TwoDigitCanonical(t);
    ValueSnoc(t, s[2]);
    var v := DecimalValue(s);
    assert v == 10 * DecimalValue(t) + d2;
    DecimalSnoc(DecimalValue(t), d2);
    assert Decimal(v) == t + [s[2]];
  }

  /** A string the age pattern accepts is the canonical numeral of its
      value, which lies in [0, 120]. */
  lemma AgeCanonical(s: string)
    requires AgePattern(s)
    ensures 0 <= DecimalValue(s) <= 120 && Decimal(DecimalValue(s)) == s
  {
    if |s| == 1 {
      assert s[..0] == [];
      assert Decimal(DecimalValue(s)) == [DigitChar(DecimalValue(s))];
    } else if |s| == 2 {
      TwoDigitCanonical(s);
    } else {
      HundredsCanonical(s);
    }
  }

  /** agePattern accepts s exactly when s is the sign-free, leading-zero-free
      decimal numeral of an integer in [0, 120]. */
  lemma AgeCharacterisation(s: string)
    ensures AgePattern(s) <==> exists n: nat :: n <= 120 && s == Decimal(n)
  {
    if AgePattern(s) {
      AgeCanonical(s);
      var n: nat := DecimalValue(s);
      assert n <= 120 && s == Decimal(n);
    }
    if exists n: nat :: n <= 120 && s == Decimal(n) {
      var n: nat :| n <= 120 && s == Decimal(n);
      DecimalInRangeMatches(n);
    }
  }

  // validateInput

  datatype Rule = NameRule | EmailRule | AgeRule | EducationRule

  /** `regex.test(s)` for the pattern a rule names. */
  predicate Matches(rule: Rule, s: string) {
    match rule
    case NameRule => MatchName(s)
    case EmailRule => MatchEmail(s)
    case AgeRule => AgePattern(s)
    case EducationRule => MatchEducation(s)
  }

  ghost predicate PatternHolds(rule: Rule, s: string) {
    match rule
    case NameRule => NamePattern(s)
    case EmailRule => EmailPattern(s)
    case AgeRule => AgePattern(s)
    case EducationRule => EducationPattern(s)
  }

  lemma MatchesCorrect(rule: Rule, s: string)
    ensures Matches(rule, s) <==> PatternHolds(rule, s)
  {
    match rule
    case NameRule => MatchNameCorrect(s);
    case EmailRule => MatchEmailCorrect(s);
    case AgeRule =>
    case EducationRule => MatchEducationCorrect(s);
  }

  /** validateInput(field, regex): `!!field && regex.test(field)`. */
  predicate ValidateInput(v: JsValue, rule: Rule) {
    Truthy(v) && Matches(rule, ToJsString(v))
  }

  /** validateInput is false for every falsy value whatever the pattern, and
      otherwise it is the pattern's verdict on the value's string form. */
  lemma ValidateInputGuard(v: JsValue, rule: Rule)
    ensures !Truthy(v) ==> !ValidateInput(v, rule)
    ensures Truthy(v) ==> (ValidateInput(v, rule) <==> PatternHolds(rule, ToJsString(v)))
  {
    MatchesCorrect(rule, ToJsString(v));
  }

  /** The guard decides real cases: an absent field's string form
      "undefined" matches the name pattern, and the number 0 read from an
      INT column matches the age pattern, yet both are rejected. */
  lemma GuardDecides()
    ensures PatternHolds(NameRule, ToJsString(Undefined)) && !ValidateInput(Undefined, NameRule)
    ensures PatternHolds(AgeRule, ToJsString(Num(0))) && !ValidateInput(Num(0), AgeRule)
  {
    var u := ToJsString(Undefined);
    assert forall i :: 0 <= i < |u| ==> IsLetter(u[i]);
  }

  /** No pattern matches the empty string, so on strings the guard only
      repeats what the pattern already says. */
  lemma NoPatternMatchesEmpty(rule: Rule)
    ensures !Matches(rule, "")
  {
    MatchesCorrect(rule, "");
  }

  /** Every pattern is anchored at the end: a trailing newline fails the name,
      email and age patterns (JavaScript `$` without the `m` flag does not
      match before a final newline). The education class contains `\s`, so
      there a trailing newline is just one more accepted character. */
  lemma TrailingNewline(s: string)
    ensures !Matches(NameRule, s + "\n")
    ensures !Matches(EmailRule, s + "\n")
    ensures !Matches(AgeRule, s + "\n")
    ensures Matches(EducationRule, "ab\n")
  {
    var t := s + "\n";
    assert t[|t| - 1] == '\n';
    MatchesCorrect(NameRule, t);
    MatchesCorrect(EmailRule, t);
    MatchesCorrect(EducationRule, "ab\n");
    assert forall i :: 0 <= i < 3 ==> IsEducationChar("ab\n"[i]);
  }

  /** "john" and "John" are names; "Jo" and "Jo3" are not. */
  lemma NameExamples()
    ensures Matches(NameRule, "john") && Matches(NameRule, "John")
    ensures !Matches(NameRule, "Jo") && !Matches(NameRule, "Jo3")
  {
    MatchesCorrect(NameRule, "john");
    MatchesCorrect(NameRule, "John");
    MatchesCorrect(NameRule, "Jo3");
    assert !IsLetter("Jo3"[2]);
    assert forall i :: 0 <= i < 4 ==> IsLetter("john"[i]);
    assert forall i :: 0 <= i < 4 ==> IsLetter("John"[i]);
  }

  /** "0" and "120" are ages; "121", "-1", "007" and "abc" are not. */
  lemma AgeExamples()
    ensures Matches(AgeRule, "0") && Matches(AgeRule, "120")
    ensures !Matches(AgeRule, "121") && !Matches(AgeRule, "-1") && !Matches(AgeRule, "007") && !Matches(AgeRule, "abc")
  {
  }

  /** "a@b.co" is an email; "a@.co" (empty domain) and "a@b.c" (one-letter
      top-level part) are not. */
  lemma EmailExamples()
    ensures Matches(EmailRule, "a@b.co") && !Matches(EmailRule, "a@.co") && !Matches(EmailRule, "a@b.c")
  {
    MatchesCorrect(EmailRule, "a@b.co");
    assert EmailSplit("a@b.co", 1, 3);
    MatchEmailCorrect("a@.co");
    MatchEmailCorrect("a@b.c");
  }
}
