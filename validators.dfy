/**
 * The form-field validators. Each regular expression is written here as a predicate over the
 * characters of the value, next to an independent description of the same language (a
 * decomposition into parts, a rendering of structured values, or a quantified statement) and a
 * lemma proving the two agree.
 */
module Validators {
  import opened Wrappers
  import opened Text

  // ---------------------------------------------------------------------------------------------
  // fullName

  /** `pieces.filter(word => word.length > 0)`: exactly the non-empty pieces, in their order. */
  function NonEmpty(pieces: seq<string>): (words: seq<string>)
    ensures |words| <= |pieces|
    ensures forall k :: 0 <= k < |words| ==> words[k] != []
    ensures forall w :: w in words <==> w in pieces && w != []
  {
    if pieces == [] then []
    else (if pieces[0] == [] then [] else [pieces[0]]) + NonEmpty(pieces[1..])
  }

  lemma {:induction false} NonEmptyConcat(p: seq<string>, q: seq<string>)
    ensures NonEmpty(p + q) == NonEmpty(p) + NonEmpty(q)
  {
    if p != [] {
      NonEmptyConcat(p[1..], q);
      assert (p + q)[1..] == p[1..] + q;
    } else {
      assert p + q == q;
    }
  }

  lemma {:induction false} NonEmptyKeepsWords(ws: seq<string>)
    requires forall k :: 0 <= k < |ws| ==> ws[k] != []
    ensures NonEmpty(ws) == ws
  {
    if ws != [] {
      NonEmptyKeepsWords(ws[1..]);
    }
  }

  /** The words `fullName` counts: the trimmed value split on ' ', empty pieces dropped. */
  function Words(value: string): (words: seq<string>)
    ensures forall k :: 0 <= k < |words| ==> words[k] != [] && ' ' !in words[k]
  {
    var pieces := Split(Trim(value), ' ');
    JoinSplit(Trim(value), ' ');
    var words := NonEmpty(pieces);
    assert forall w :: w in pieces ==> ' ' !in w;
    words
  }

  /**
   * `fullName`: a value with at least two words, each at least two long; `length` counts UTF-16
   * code units.
   */
  predicate FullName(value: string)
  {
    value != "" && |Words(value)| >= 2 && forall k :: 0 <= k < |Words(value)| ==> Utf16Length(Words(value)[k]) >= 2
  }

  /** An empty value is refused before any word is counted. */
  lemma FullNameEmpty()
    ensures !FullName("")
  {
  }

  lemma JoinEnds(ws: seq<string>, sep: char)
    requires |ws| >= 1 && forall k :: 0 <= k < |ws| ==> ws[k] != []
    ensures |Join(ws, sep)| > 0
    ensures Join(ws, sep)[0] == ws[0][0]
    ensures Join(ws, sep)[|Join(ws, sep)| - 1] == ws[|ws| - 1][|ws[|ws| - 1]| - 1]
  {
    if |ws| > 1 {
      JoinEnds(ws[1..], sep);
    }
  }

  /**
   * On a value made of words joined by single spaces, `fullName` is exactly the word rule: at
   * least two words, each of length two or more. The words may hold white space other than ' '
   * inside; only the two outer ends must not be white space, or `trim` would remove them.
   */
  lemma FullNameOfWords(ws: seq<string>)
    requires |ws| >= 1
    requires forall k :: 0 <= k < |ws| ==> ws[k] != [] && ' ' !in ws[k]
    requires !IsJsWhitespace(ws[0][0]) && !IsJsWhitespace(ws[|ws| - 1][|ws[|ws| - 1]| - 1])
    ensures FullName(Join(ws, ' ')) <==> |ws| >= 2 && forall k :: 0 <= k < |ws| ==> Utf16Length(ws[k]) >= 2
  {
    var v := Join(ws, ' ');
    JoinEnds(ws, ' ');
    assert !IsJsWhitespace(v[0]) && !IsJsWhitespace(v[|v| - 1]);
    assert TrimStart(v) == v;
    assert Trim(v) == v;
    SplitJoin(ws, ' ');
    NonEmptyKeepsWords(ws);
    assert Words(v) == ws;
  }

  /**
   * Word length is JavaScript's: a character outside the Basic Multilingual Plane is two code
   * units long, so a name of two such one-character words passes, while "Jo A" does not.
   */
  lemma FullNameCountsCodeUnits()
    ensures FullName("\U{20BB7} \U{20BB7}")
    ensures !FullName("Jo A")
    ensures FullName("Jo\tAn Li")
  {
    AstralName();
    ShortWordName();
    TabInWordName();
  }

  lemma AstralName()
    ensures FullName("\U{20BB7} \U{20BB7}")
  {
    var astral := "\U{20BB7}";
    assert Utf16Length(astral) == 2;
    assert Join([astral, astral], ' ') == "\U{20BB7} \U{20BB7}";
    FullNameOfWords([astral, astral]);
  }

  lemma ShortWordName()
    ensures !FullName("Jo A")
  {
    assert Join(["Jo", "A"], ' ') == "Jo A";
    FullNameOfWords(["Jo", "A"]);
    assert Utf16Length("A") == 1;
  }

  lemma TabInWordName()
    ensures FullName("Jo\tAn Li")
  {
    assert Join(["Jo\tAn", "Li"], ' ') == "Jo\tAn Li";
    FullNameOfWords(["Jo\tAn", "Li"]);
  }

  lemma TrimStartAllWhitespace(a: string)
    requires OnlyWhitespace(a)
    ensures TrimStart(a) == []
  {
    TrimStartConcat(a, []);
    assert a + [] == a;
  }

  /** A leading or trailing white-space character never changes the verdict of `fullName`. */
  lemma FullNameIgnoresSurroundingWhitespace(value: string, w: char)
    requires IsJsWhitespace(w)
    ensures FullName([w] + value) == FullName(value)
    ensures FullName(value + [w]) == FullName(value)
  {
    TrimStartConcat([w], value);
    assert Trim([w] + value) == Trim(value);
    TrimStartConcat(value, [w]);
    if OnlyWhitespace(value) {
      TrimStartAllWhitespace(value);
      TrimStartAllWhitespace([w]);
      assert Trim(value + [w]) == Trim(value);
    } else {
      TrimEndConcat(TrimStart(value), [w]);
      assert Trim(value + [w]) == Trim(value);
    }
    if value == "" {
      assert Words([w]) == Words("");
    }
  }

  lemma SplitDoubleSpace(x: string, y: string)
    ensures NonEmpty(Split(x + "  " + y, ' ')) == NonEmpty(Split(x + " " + y, ' '))
  {
    var z := [' '] + y;
    assert x + "  " + y == x + [' '] + z;
    SplitAtSeparator(x, z, ' ');
    assert z == [] + [' '] + y;
    SplitAtSeparator([], y, ' ');
    assert Split([], ' ') == [[]];
    assert NonEmpty([[]]) == [];
    assert x + " " + y == x + [' '] + y;
    SplitAtSeparator(x, y, ' ');
    NonEmptyConcat(Split(x, ' '), Split([], ' ') + Split(y, ' '));
    NonEmptyConcat(Split([], ' '), Split(y, ' '));
    NonEmptyConcat(Split(x, ' '), Split(y, ' '));
  }

  lemma WordsOfPieces(value: string)
    ensures Words(value) == NonEmpty(Split(Trim(value), ' '))
  {
  }

  /** Two spaces between words count as one. */
  lemma WordsIgnoreRepeatedSpace(a: string, b: string)
    ensures Words(a + "  " + b) == Words(a + " " + b)
  {
    var s2, s1 := a + "  " + b, a + " " + b;
    WordsOfPieces(s2);
    WordsOfPieces(s1);
    TrimmedIgnoresRepeatedSpace(a, b);
  }

  lemma TrimmedIgnoresRepeatedSpace(a: string, b: string)
    ensures NonEmpty(Split(Trim(a + "  " + b), ' ')) == NonEmpty(Split(Trim(a + " " + b), ' '))
  {
    var s2, s1 := a + "  " + b, a + " " + b;
    if OnlyWhitespace(a) {
      assert OnlyWhitespace(a + "  ") && OnlyWhitespace(a + " ");
      TrimStartConcat(a + "  ", b);
      TrimStartConcat(a + " ", b);
      assert Trim(s2) == Trim(s1);
    } else {
      var t := TrimStart(a);
      TrimStartConcat(a, "  " + b);
      TrimStartConcat(a, " " + b);
      assert s2 == a + ("  " + b) && s1 == a + (" " + b);
      assert TrimStart(s2) == t + "  " + b;
      assert TrimStart(s1) == t + " " + b;
      TrimEndConcat(t + "  ", b);
      TrimEndConcat(t + " ", b);
      if OnlyWhitespace(b) {
        TrimEndConcat(t, "  ");
        TrimEndConcat(t, " ");
        assert OnlyWhitespace("  ") && OnlyWhitespace(" ");
        assert Trim(s2) == Trim(s1);
      } else {
        assert Trim(s2) == t + "  " + TrimEnd(b);
        assert Trim(s1) == t + " " + TrimEnd(b);
        SplitDoubleSpace(t, TrimEnd(b));
      }
    }
  }

  /** Hence `fullName` does not care how many spaces separate the words. */
  lemma FullNameIgnoresRepeatedSpace(a: string, b: string)
    ensures FullName(a + "  " + b) == FullName(a + " " + b)
  {
    WordsIgnoreRepeatedSpace(a, b);
  }

  // ---------------------------------------------------------------------------------------------
  // sameAsPassword

  /** `sameAsPassword(password)`: a validator accepting exactly the given password. */
  function SameAsPassword(password: string): (validator: string -> bool)
    ensures forall value :: validator(value) <==> value == password
  {
    value => value == password
  }

  // ---------------------------------------------------------------------------------------------
  // email: /^[^\s@]+@[^\s@]+\.[^\s@]+$/

  /** `[^\s@]`. */
  predicate EmailChar(c: char) { !IsJsWhitespace(c) && c != '@' }

  predicate EmailChars(s: string) { forall i :: 0 <= i < |s| ==> EmailChar(s[i]) }

  /** What follows the '@': no white space or '@', and a '.' with a character on each side. */
  predicate IsDomain(d: string)
  {
    EmailChars(d) && exists j :: 0 < j < |d| - 1 && d[j] == '.'
  }

  /** The `email` validator, character by character. */
  predicate IsEmail(s: string)
  {
    exists i :: 0 < i < |s| && s[i] == '@' && EmailChars(s[..i]) && IsDomain(s[i + 1..])
  }

  /** `s` is the three `+` groups of the pattern, separated by '@' and '.'. */
  ghost predicate EmailParts(s: string, local: string, left: string, right: string)
  {
    local != [] && left != [] && right != [] &&
    EmailChars(local) && EmailChars(left) && EmailChars(right) &&
    s == local + "@" + left + "." + right
  }

  ghost predicate EmailLanguage(s: string)
  {
    exists local, left, right :: EmailParts(s, local, left, right)
  }

  lemma EmailCharsSlice(s: string, lo: int, hi: int)
    requires EmailChars(s) && 0 <= lo <= hi <= |s|
    ensures EmailChars(s[lo..hi])
  {
    assert forall i :: 0 <= i < hi - lo ==> s[lo..hi][i] == s[lo + i];
  }

  lemma EmailPartsAt(s: string, i: int, j: int)
    requires 0 < i && i + 1 + j < |s| - 1 && 0 < j
    requires s[i] == '@' && s[i + 1 + j] == '.' && EmailChars(s[..i]) && EmailChars(s[i + 1..])
    ensures EmailParts(s, s[..i], s[i + 1..i + 1 + j], s[i + 2 + j..])
  {
    var local, left, right := s[..i], s[i + 1..i + 1 + j], s[i + 2 + j..];
    EmailCharsSlice(s[i + 1..], 0, j);
    assert s[i + 1..][0..j] == left;
    EmailCharsSlice(s[i + 1..], j + 1, |s| - i - 1);
    assert s[i + 1..][j + 1..|s| - i - 1] == right;
    assert s == local + "@" + left + "." + right;
  }

  lemma EmailPatternSound(s: string)
    requires IsEmail(s)
    ensures EmailLanguage(s)
  {
    var i :| 0 < i < |s| && s[i] == '@' && EmailChars(s[..i]) && IsDomain(s[i + 1..]);
    var d := s[i + 1..];
    var j :| 0 < j < |d| - 1 && d[j] == '.';
    EmailPartsAt(s, i, j);
  }

  lemma EmailPatternComplete(local: string, left: string, right: string)
    requires local != [] && left != [] && right != []
    requires EmailChars(local) && EmailChars(left) && EmailChars(right)
    ensures IsEmail(local + "@" + left + "." + right)
  {
    var s := local + "@" + left + "." + right;
    var i := |local|;
    var d := left + "." + right;
    assert s == local + "@" + d;
    assert s[..i] == local;
    assert s[i + 1..] == d;
    assert d[|left|] == '.';
    assert EmailChars(d);
    assert IsDomain(d);
  }

  /** The `email` validator accepts exactly the language of its pattern. */
  lemma EmailPattern(s: string)
    ensures IsEmail(s) <==> EmailLanguage(s)
  {
    if IsEmail(s) {
      EmailPatternSound(s);
    }
    if EmailLanguage(s) {
      var local, left, right :| EmailParts(s, local, left, right);
      EmailPatternComplete(local, left, right);
    }
  }

  /** An accepted address has exactly one '@'. */
  lemma EmailHasOneAt(s: string)
    requires IsEmail(s)
    ensures forall j, k :: 0 <= j < |s| && 0 <= k < |s| && s[j] == '@' && s[k] == '@' ==> j == k
  {
    var i :| 0 < i < |s| && s[i] == '@' && EmailChars(s[..i]) && IsDomain(s[i + 1..]);
    forall k | 0 <= k < |s| && s[k] == '@'
      ensures k == i
    {
    }
  }

  // ---------------------------------------------------------------------------------------------
  // strongPassword: /^(?=.*[a-z])(?=.*[A-Z])(?=.*\d)(?=.*[@$!%*?&])[A-Za-z\d@$!%*?&]{8,}$/

  predicate PasswordSymbol(c: char)
  {
    c == '@' || c == '$' || c == '!' || c == '%' || c == '*' || c == '?' || c == '&'
  }

  /** `[A-Za-z\d@$!%*?&]`. */
  predicate PasswordChar(c: char) { IsLower(c) || IsUpper(c) || IsDigit(c) || PasswordSymbol(c) }

  /** What one pass over a password finds: which classes occur, and whether every character is allowed. */
  datatype PasswordClasses = PasswordClasses(lower: bool, upper: bool, digit: bool, symbol: bool, allAllowed: bool)

  function Classes(s: string): PasswordClasses
  {
    if s == [] then PasswordClasses(false, false, false, false, true)
    else
      var c := Classes(s[1..]);
      PasswordClasses(c.lower || IsLower(s[0]), c.upper || IsUpper(s[0]), c.digit || IsDigit(s[0]),
                      c.symbol || PasswordSymbol(s[0]), c.allAllowed && PasswordChar(s[0]))
  }

  /** The `strongPassword` validator: eight or more allowed characters, every class present. */
  predicate IsStrongPassword(s: string)
  {
    var c := Classes(s);
    |s| >= 8 && c.lower && c.upper && c.digit && c.symbol && c.allAllowed
  }

  lemma {:induction false} ClassesMeaning(s: string)
    ensures Classes(s).lower <==> exists i :: 0 <= i < |s| && IsLower(s[i])
    ensures Classes(s).upper <==> exists i :: 0 <= i < |s| && IsUpper(s[i])
    ensures Classes(s).digit <==> exists i :: 0 <= i < |s| && IsDigit(s[i])
    ensures Classes(s).symbol <==> exists i :: 0 <= i < |s| && PasswordSymbol(s[i])
    ensures Classes(s).allAllowed <==> forall i :: 0 <= i < |s| ==> PasswordChar(s[i])
  {
    if s != [] {
      ClassesMeaning(s[1..]);
      assert forall i :: 0 < i < |s| ==> s[i] == s[1..][i - 1];
      assert forall i :: 0 <= i < |s[1..]| ==> s[1..][i] == s[i + 1];
    }
  }

  /** The pattern's meaning: each look-ahead asks for one class somewhere, the body for the length and alphabet. */
  lemma StrongPasswordPattern(s: string)
    ensures IsStrongPassword(s) <==>
            |s| >= 8 &&
            (forall i :: 0 <= i < |s| ==> PasswordChar(s[i])) &&
            (exists i :: 0 <= i < |s| && IsLower(s[i])) &&
            (exists i :: 0 <= i < |s| && IsUpper(s[i])) &&
            (exists i :: 0 <= i < |s| && IsDigit(s[i])) &&
            (exists i :: 0 <= i < |s| && PasswordSymbol(s[i]))
  {
    ClassesMeaning(s);
  }

  // ---------------------------------------------------------------------------------------------
  // cpf: /^\d{3}\.\d{3}\.\d{3}-\d{2}$/

  /** The `cpf` validator: digits everywhere except '.' at 3 and 7 and '-' at 11. */
  predicate IsCpf(s: string)
  {
    |s| == 14 && s[3] == '.' && s[7] == '.' && s[11] == '-' &&
    forall i :: 0 <= i < 14 && i != 3 && i != 7 && i != 11 ==> IsDigit(s[i])
  }

  /** Eleven digits in the `000.000.000-00` layout. */
  function FormatCpf(digits: string): (s: string)
    requires |digits| == 11 && AllDigits(digits)
    ensures IsCpf(s)
  {
    digits[..3] + "." + digits[3..6] + "." + digits[6..9] + "-" + digits[9..]
  }

  /** The eleven digits of an accepted CPF, which lay out back into it. */
  function CpfDigits(s: string): (digits: string)
    requires IsCpf(s)
    ensures |digits| == 11 && AllDigits(digits)
    ensures FormatCpf(digits) == s
  {
    var d := s[..3] + s[4..7] + s[8..11] + s[12..];
    assert forall i :: 0 <= i < 11 ==> d[i] == s[if i < 3 then i else if i < 6 then i + 1 else if i < 9 then i + 2 else i + 3];
    d
  }

  lemma CpfRoundTrip(digits: string)
    requires |digits| == 11 && AllDigits(digits)
    ensures CpfDigits(FormatCpf(digits)) == digits
  {
    var s := FormatCpf(digits);
    assert s[..3] == digits[..3] && s[4..7] == digits[3..6];
    assert s[8..11] == digits[6..9] && s[12..] == digits[9..];
    assert digits == digits[..3] + digits[3..6] + digits[6..9] + digits[9..];
  }

  /** `cpf` accepts exactly the layouts of eleven digits. */
  lemma CpfPattern(s: string)
    ensures IsCpf(s) <==> exists digits :: |digits| == 11 && AllDigits(digits) && FormatCpf(digits) == s
  {
    if IsCpf(s) {
      var d := CpfDigits(s);
    }
  }

  // ---------------------------------------------------------------------------------------------
  // phone: /^\(?\d{2}\)?\s?\d{4,5}-?\d{4}$/

  /** A number the `phone` pattern takes apart: each optional piece of the pattern and each digit run. */
  datatype Phone = Phone(
    openParen: bool,
    area: string,
    closeParen: bool,
    space: Option<char>,
    prefix: string,
    hyphen: bool,
    line: string)

  predicate WellFormedPhone(p: Phone)
  {
    |p.area| == 2 && AllDigits(p.area) &&
    (|p.prefix| == 4 || |p.prefix| == 5) && AllDigits(p.prefix) &&
    |p.line| == 4 && AllDigits(p.line) &&
    (p.space.Some? ==> IsJsWhitespace(p.space.value))
  }

  /** An optional character of the pattern, present or not. */
  function OptChar(present: bool, c: char): string
  {
    if present then [c] else []
  }

  function SpaceText(space: Option<char>): string
  {
    if space.Some? then [space.value] else []
  }

  /** The text of `\d{4,5}-?\d{4}`. */
  function SubscriberText(prefix: string, hyphen: bool, line: string): string
  {
    prefix + OptChar(hyphen, '-') + line
  }

  /** The text a phone number's pieces spell, in the pattern's order. */
  function RenderPhone(p: Phone): string
  {
    OptChar(p.openParen, '(') + (p.area + (OptChar(p.closeParen, ')') +
      (SpaceText(p.space) + SubscriberText(p.prefix, p.hyphen, p.line))))
  }

  /** `\d{4,5}-?\d{4}`: the digits after the area code, with or without the hyphen. */
  function ParseSubscriber(t: string): Option<(string, bool, string)>
  {
    if |t| >= 5 && t[|t| - 5] == '-' then
      var prefix, line := t[..|t| - 5], t[|t| - 4..];
      if (|prefix| == 4 || |prefix| == 5) && AllDigits(prefix) && AllDigits(line)
      then Some((prefix, true, line)) else None
    else if (|t| == 8 || |t| == 9) && AllDigits(t) then Some((t[..|t| - 4], false, t[|t| - 4..]))
    else None
  }

  /** An optional character of the pattern (`\(?`, `\)?`): taken when it is there. */
  function TakeChar(s: string, c: char): (r: (bool, string))
    ensures r.0 <==> |s| > 0 && s[0] == c
    ensures s == OptChar(r.0, c) + r.1
  {
    if |s| > 0 && s[0] == c then (true, s[1..]) else (false, s)
  }

  /** `\s?`: one white-space character, taken when it is there. */
  function TakeSpace(s: string): (r: (Option<char>, string))
    ensures r.0.Some? <==> |s| > 0 && IsJsWhitespace(s[0])
    ensures r.0.Some? ==> IsJsWhitespace(r.0.value)
    ensures s == SpaceText(r.0) + r.1
  {
    if |s| > 0 && IsJsWhitespace(s[0]) then (Some(s[0]), s[1..]) else (None, s)
  }

  lemma TakeCharOf(b: bool, c: char, rest: string)
    requires rest == [] || rest[0] != c
    ensures TakeChar(OptChar(b, c) + rest, c) == (b, rest)
  {
    if b {
      assert ([c] + rest)[1..] == rest;
    } else {
      assert [] + rest == rest;
    }
  }

  lemma TakeSpaceOf(space: Option<char>, rest: string)
    requires space.Some? ==> IsJsWhitespace(space.value)
    requires rest == [] || !IsJsWhitespace(rest[0])
    ensures TakeSpace(SpaceText(space) + rest) == (space, rest)
  {
    if space.Some? {
      assert ([space.value] + rest)[1..] == rest;
    } else {
      assert [] + rest == rest;
    }
  }

  /**
   * Reading a value against the `phone` pattern from the left. Every optional piece is followed
   * by something it cannot be confused with, so taking it whenever it is present is the only way
   * to match.
   */
  function ParsePhone(s: string): Option<Phone>
  {
    var (openParen, s1) := TakeChar(s, '(');
    if |s1| < 2 || !IsDigit(s1[0]) || !IsDigit(s1[1]) then None
    else
      var (closeParen, s3) := TakeChar(s1[2..], ')');
      var (space, t) := TakeSpace(s3);
      match ParseSubscriber(t)
      case None => None
      case Some((prefix, hyphen, line)) => Some(Phone(openParen, s1[..2], closeParen, space, prefix, hyphen, line))
  }

  /** The `phone` validator. */
  predicate IsPhone(s: string)
  {
    ParsePhone(s).Some?
  }

  lemma ParseSubscriberSound(t: string)
    requires ParseSubscriber(t).Some?
    ensures var (prefix, hyphen, line) := ParseSubscriber(t).value;
            (|prefix| == 4 || |prefix| == 5) && AllDigits(prefix) && |line| == 4 && AllDigits(line) &&
            t == SubscriberText(prefix, hyphen, line)
  {
    if |t| >= 5 && t[|t| - 5] == '-' {
      assert t == t[..|t| - 5] + "-" + t[|t| - 4..];
    } else {
      assert t == t[..|t| - 4] + t[|t| - 4..];
    }
  }

  lemma ParseSubscriberComplete(prefix: string, hyphen: bool, line: string)
    requires (|prefix| == 4 || |prefix| == 5) && AllDigits(prefix) && |line| == 4 && AllDigits(line)
    ensures ParseSubscriber(SubscriberText(prefix, hyphen, line)) == Some((prefix, hyphen, line))
  {
    var t := SubscriberText(prefix, hyphen, line);
    if hyphen {
      assert t[|t| - 5] == '-';
      assert t[..|t| - 5] == prefix && t[|t| - 4..] == line;
    } else {
      assert !IsDigit('-') && t[|t| - 5] == prefix[|prefix| - 1];
      assert AllDigits(t);
      assert t[..|t| - 4] == prefix && t[|t| - 4..] == line;
    }
  }

  /** Whatever `phone` accepts is the rendering of a well-formed number. */
  lemma PhoneSound(s: string)
    requires IsPhone(s)
    ensures WellFormedPhone(ParsePhone(s).value) && RenderPhone(ParsePhone(s).value) == s
  {
    var p := ParsePhone(s).value;
    var (openParen, s1) := TakeChar(s, '(');
    var (closeParen, s3) := TakeChar(s1[2..], ')');
    var (space, t) := TakeSpace(s3);
    ParseSubscriberSound(t);
    assert s1 == p.area + s1[2..];
  }

  /** `phone` accepts every well-formed number and reads back exactly its pieces. */
  lemma PhoneComplete(p: Phone)
    requires WellFormedPhone(p)
    ensures ParsePhone(RenderPhone(p)) == Some(p)
  {
    var t := SubscriberText(p.prefix, p.hyphen, p.line);
    var s3 := SpaceText(p.space) + t;
    var s2 := OptChar(p.closeParen, ')') + s3;
    var s1 := p.area + s2;
    ParseSubscriberComplete(p.prefix, p.hyphen, p.line);
    assert t[0] == p.prefix[0];
    TakeSpaceOf(p.space, t);
    assert s3 != [] && s3[0] != ')';
    TakeCharOf(p.closeParen, ')', s3);
    assert s1[..2] == p.area && s1[2..] == s2;
    TakeCharOf(p.openParen, '(', s1);
  }

  /** `phone` accepts exactly the renderings of well-formed numbers. */
  lemma PhonePattern(s: string)
    ensures IsPhone(s) <==> exists p :: WellFormedPhone(p) && RenderPhone(p) == s
  {
    if IsPhone(s) {
      PhoneSound(s);
    }
    if exists p :: WellFormedPhone(p) && RenderPhone(p) == s {
      var p :| WellFormedPhone(p) && RenderPhone(p) == s;
      PhoneComplete(p);
    }
  }

  // ---------------------------------------------------------------------------------------------
  // timeFormat: /^([01]?[0-9]|2[0-3]):[0-5][0-9]$/

  /** `[01]?[0-9]|2[0-3]`. */
  predicate IsHourText(h: string)
  {
    (|h| == 1 && IsDigit(h[0])) ||
    (|h| == 2 && (((h[0] == '0' || h[0] == '1') && IsDigit(h[1])) || (h[0] == '2' && '0' <= h[1] <= '3')))
  }

  /** `[0-5][0-9]`. */
  predicate IsMinuteText(m: string)
  {
    |m| == 2 && '0' <= m[0] <= '5' && IsDigit(m[1])
  }

  /** The `timeFormat` validator. */
  predicate IsTimeFormat(s: string)
  {
    (|s| == 4 || |s| == 5) && s[|s| - 3] == ':' && IsHourText(s[..|s| - 3]) && IsMinuteText(s[|s| - 2..])
  }

  lemma DecimalValueOne(h: string)
    requires |h| == 1 && AllDigits(h)
    ensures DecimalValue(h) == DigitValue(h[0])
  {
    assert h[..0] == [];
  }

  lemma DecimalValueTwo(h: string)
    requires |h| == 2 && AllDigits(h)
    ensures DecimalValue(h) == 10 * DigitValue(h[0]) + DigitValue(h[1])
  {
    DecimalValueOne(h[..1]);
  }

  /** The hour alternatives are the one- and two-digit numbers up to 23. */
  lemma HourTextValue(h: string)
    ensures IsHourText(h) <==> (|h| == 1 || |h| == 2) && AllDigits(h) && DecimalValue(h) <= 23
  {
    if |h| == 1 && AllDigits(h) {
      DecimalValueOne(h);
    }
    if |h| == 2 && AllDigits(h) {
      DecimalValueTwo(h);
    }
  }

  lemma MinuteTextValue(m: string)
    ensures IsMinuteText(m) <==> |m| == 2 && AllDigits(m) && DecimalValue(m) <= 59
  {
    if |m| == 2 && AllDigits(m) {
      DecimalValueTwo(m);
    }
  }

  /**
   * `timeFormat` accepts an hour of one or two digits worth at most 23, a ':', and two digits
   * worth at most 59; so `9:05` and `09:05` pass while `24:00` and `7:5` do not.
   */
  lemma TimeFormatPattern(s: string)
    ensures IsTimeFormat(s) <==>
            (|s| == 4 || |s| == 5) && s[|s| - 3] == ':' &&
            AllDigits(s[..|s| - 3]) && DecimalValue(s[..|s| - 3]) <= 23 &&
            AllDigits(s[|s| - 2..]) && DecimalValue(s[|s| - 2..]) <= 59
    ensures !IsTimeFormat("24:00") && !IsTimeFormat("7:5") && IsTimeFormat("9:05") && IsTimeFormat("09:05")
  {
    if |s| == 4 || |s| == 5 {
      HourTextValue(s[..|s| - 3]);
      MinuteTextValue(s[|s| - 2..]);
    }
    assert "24:00"[..2] == "24";
  }

  // ---------------------------------------------------------------------------------------------
  // validTimeRange

  /** Two decimal digits, zero-padded. */
  function Pad2(n: nat): (s: string)
    requires n < 100
    ensures |s| == 2 && AllDigits(s) && DecimalValue(s) == n
  {
    var s := [DigitChar(n / 10), DigitChar(n % 10)];
    DecimalValueTwo(s);
    s
  }

  /** A time of day as `HH:MM`. */
  function Clock(h: nat, m: nat): (s: string)
    requires h < 100 && m < 100
    ensures |s| == 5
  {
    Pad2(h) + ":" + Pad2(m)
  }

  /**
   * The minutes after midnight at which `new Date("2000-01-01T" + t + ":00")` lies, or `None` for
   * an invalid date. The ECMAScript date-time string format takes exactly two hour digits (00 to
   * 23, or 24 for the end of the day at 24:00) and two minute digits (00 to 59), optionally
   * followed by seconds. So `t` is either `HH:MM`, the appended `:00` being the seconds, or just
   * `HH`, the appended `:00` being the minutes.
   */
  function DateMinutes(t: string): (r: Option<nat>)
    ensures r.Some? ==> r.value <= 24 * 60
    ensures r.Some? ==> |t| == 2 || |t| == 5
  {
    if |t| == 2 && AllDigits(t) then
      var h := DecimalValue(t);
      if h <= 24 then Some(h * 60) else None
    else if |t| == 5 && AllDigits(t[..2]) && t[2] == ':' && AllDigits(t[3..]) then
      var h, m := DecimalValue(t[..2]), DecimalValue(t[3..]);
      if m <= 59 && (h <= 23 || (h == 24 && m == 0)) then Some(h * 60 + m) else None
    else None
  }

  /**
   * `validTimeRange(startTime)(endTime)`: true when either time is missing, otherwise whether the
   * start instant is strictly before the end instant. An invalid date compares as NaN, for which
   * `<` is false.
   */
  predicate ValidTimeRange(startTime: string, endTime: string)
  {
    if startTime == "" || endTime == "" then true
    else
      match (DateMinutes(startTime), DateMinutes(endTime))
      case (Some(a), Some(b)) => a < b
      case _ => false
  }

  lemma ClockMinutes(h: nat, m: nat)
    requires h < 24 && m < 60
    ensures DateMinutes(Clock(h, m)) == Some(h * 60 + m)
  {
    var s := Clock(h, m);
    assert s[..2] == Pad2(h) && s[3..] == Pad2(m);
  }

  /** An hour alone reads as that hour on the dot: `"08"` becomes `2000-01-01T08:00`. */
  lemma HourMinutes(h: nat)
    requires h <= 24
    ensures DateMinutes(Pad2(h)) == Some(h * 60)
  {
  }

  /** So hour-only values are compared too: `validTimeRange("08")("17")` passes, and not the reverse. */
  lemma HourOnlyRange()
    ensures ValidTimeRange("08", "17") && !ValidTimeRange("17", "08")
    ensures ValidTimeRange("08", "08:30") && !ValidTimeRange("09", "08:30")
  {
    HourMinutes(8);
    HourMinutes(17);
    HourMinutes(9);
    ClockMinutes(8, 30);
  }

  /** A missing start or end time never fails the check. */
  lemma ValidTimeRangeMissing(startTime: string, endTime: string)
    requires startTime == "" || endTime == ""
    ensures ValidTimeRange(startTime, endTime)
  {
  }

  /** On `HH:MM` times the check is: the start is strictly earlier than the end. */
  lemma ValidTimeRangeOrder(h1: nat, m1: nat, h2: nat, m2: nat)
    requires h1 < 24 && m1 < 60 && h2 < 24 && m2 < 60
    ensures ValidTimeRange(Clock(h1, m1), Clock(h2, m2)) <==> h1 < h2 || (h1 == h2 && m1 < m2)
  {
    ClockMinutes(h1, m1);
    ClockMinutes(h2, m2);
  }

  /** A one-digit hour passes `timeFormat` but is no date-time string, so no range with it is valid. */
  lemma ShortHourNeverInRange(startTime: string, endTime: string)
    requires IsTimeFormat(startTime) && |startTime| == 4
    requires endTime != ""
    ensures !ValidTimeRange(startTime, endTime) && !ValidTimeRange(endTime, startTime)
  {
  }
}
