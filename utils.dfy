/** Phone, e-mail and name helpers and the due-date estimate (src/utils.py). */
module Utils {
  import opened Common
  import opened Timestamps
  import opened Dicts
  import Models

  // ---------------------------------------------------------------------
  // Phone numbers

  /** re.sub(r'[^\d+]', '', phone): keeps the digits and '+' signs. */
  function KeepDigitsAndPlus(s: string): (r: string)
    ensures forall i :: 0 <= i < |r| ==> IsDigit(r[i]) || r[i] == '+'
  {
    if s == [] then []
    else (if IsDigit(s[0]) || s[0] == '+' then [s[0]] else []) + KeepDigitsAndPlus(s[1..])
  }

  /** re.sub(r'[^\d]', '', phone): keeps the digits. */
  function KeepDigits(s: string): (r: string)
    ensures AllDigits(r)
  {
    if s == [] then []
    else (if IsDigit(s[0]) then [s[0]] else []) + KeepDigits(s[1..])
  }

  /** re.match(r'^(\+7|7|8)\d{10}$', cleaned) on a string without newlines. */
  predicate MatchesRussianPhone(c: string)
  {
    (|c| == 12 && c[0] == '+' && c[1] == '7' && AllDigits(c[2..]))
    || (|c| == 11 && (c[0] == '7' || c[0] == '8') && AllDigits(c[1..]))
  }

  /** validate_phone_number: the digits and '+' signs of the input form
      +7, 7 or 8 followed by exactly ten digits. */
  function ValidatePhoneNumber(phone: string): (ok: bool)
    ensures ok ==> |KeepDigitsAndPlus(phone)| in {11, 12}
  {
    MatchesRussianPhone(KeepDigitsAndPlus(phone))
  }

  /** The normalised form "+7 (ddd) ddd-dd-dd" of 11 digits starting with 7. */
  function Canonical(c: string): (r: string)
    requires |c| == 11
  {
    "+7 (" + c[1..4] + ") " + c[4..7] + "-" + c[7..9] + "-" + c[9..]
  }

  /** The digit string format_phone_number works on: the digits, with a
      leading 8 replaced by 7. The source's `startswith('+7')` branch is
      kept; PlusBranchUnreachable shows it never fires. */
  function NormalisedDigits(phone: string): string
  {
    var cleaned := KeepDigits(phone);
    if |cleaned| > 0 && cleaned[0] == '8' then "7" + cleaned[1..]
    else if |cleaned| >= 2 && cleaned[..2] == "+7" then "7" + cleaned[2..]
    else cleaned
  }

  /** format_phone_number: the canonical form when the digits (8 read as 7)
      are 11 starting with 7, otherwise the input unchanged. */
  function FormatPhoneNumber(phone: string): (r: string)
  {
    var c := NormalisedDigits(phone);
    if |c| == 11 && c[0] == '7' then Canonical(c) else phone
  }

  /** A string of digits never starts with "+7". */
  lemma PlusBranchUnreachable(phone: string)
    ensures !(|KeepDigits(phone)| >= 2 && KeepDigits(phone)[..2] == "+7")
  {
    var c := KeepDigits(phone);
    if |c| >= 2 { assert IsDigit(c[0]); }
  }

  lemma {:induction false} KeepDigitsAppend(a: string, b: string)
    ensures KeepDigits(a + b) == KeepDigits(a) + KeepDigits(b)
  {
    if a == [] {
      assert a + b == b;
    } else {
      assert (a + b)[0] == a[0] && (a + b)[1..] == a[1..] + b;
      KeepDigitsAppend(a[1..], b);
    }
  }

  lemma {:induction false} KeepDigitsOfDigits(s: string)
    requires AllDigits(s)
    ensures KeepDigits(s) == s
  {
    if s != [] { KeepDigitsOfDigits(s[1..]); }
  }

  lemma {:induction false} KeepDigitsAndPlusAppend(a: string, b: string)
    ensures KeepDigitsAndPlus(a + b) == KeepDigitsAndPlus(a) + KeepDigitsAndPlus(b)
  {
    if a == [] {
      assert a + b == b;
    } else {
      assert (a + b)[0] == a[0] && (a + b)[1..] == a[1..] + b;
      KeepDigitsAndPlusAppend(a[1..], b);
    }
  }

  lemma {:induction false} KeepDigitsAndPlusOfDigits(s: string)
    requires AllDigits(s)
    ensures KeepDigitsAndPlus(s) == s
  {
    if s != [] { KeepDigitsAndPlusOfDigits(s[1..]); }
  }

  /** What the two filters keep of the separators of the canonical form. */
  lemma SeparatorsKept()
    ensures KeepDigits("+7 (") == "7" && KeepDigits(") ") == [] && KeepDigits("-") == []
    ensures KeepDigitsAndPlus("+7 (") == "+7" && KeepDigitsAndPlus(") ") == [] && KeepDigitsAndPlus("-") == []
  {
  }

  /** KeepDigits of a literal followed by digits. */
  lemma KeepDigitsAfter(lit: string, kept: string, digits: string)
    requires KeepDigits(lit) == kept && AllDigits(digits)
    ensures KeepDigits(lit + digits) == kept + digits
  {
    KeepDigitsAppend(lit, digits);
    KeepDigitsOfDigits(digits);
  }

  lemma KeepDigitsAndPlusAfter(lit: string, kept: string, digits: string)
    requires KeepDigitsAndPlus(lit) == kept && AllDigits(digits)
    ensures KeepDigitsAndPlus(lit + digits) == kept + digits
  {
    KeepDigitsAndPlusAppend(lit, digits);
    KeepDigitsAndPlusOfDigits(digits);
  }

  /** A separator both filters drop, followed by digits both keep. */
  lemma SeparatorThenDigits(pre: string, sep: string, digits: string)
    requires KeepDigits(sep) == [] && KeepDigitsAndPlus(sep) == [] && AllDigits(digits)
    ensures KeepDigits(pre + sep + digits) == KeepDigits(pre) + digits
    ensures KeepDigitsAndPlus(pre + sep + digits) == KeepDigitsAndPlus(pre) + digits
  {
    KeepDigitsAppend(pre, sep);
    KeepDigitsAfter(pre + sep, KeepDigits(pre), digits);
    KeepDigitsAndPlusAppend(pre, sep);
    KeepDigitsAndPlusAfter(pre + sep, KeepDigitsAndPlus(pre), digits);
  }

  /** The canonical form of c is its opening "+7 (" followed by the rest of
      c with separators that both filters drop. */
  lemma CanonicalFilters(c: string)
    requires |c| == 11 && AllDigits(c)
    ensures KeepDigits(Canonical(c)) == "7" + c[1..]
    ensures KeepDigitsAndPlus(Canonical(c)) == "+7" + c[1..]
  {
    SeparatorsKept();
    var a, b, x, y := c[1..4], c[4..7], c[7..9], c[9..];
    assert AllDigits(a) && AllDigits(b) && AllDigits(x) && AllDigits(y);
    var s1 := "+7 (" + a;
    KeepDigitsAfter("+7 (", "7", a);
    KeepDigitsAndPlusAfter("+7 (", "+7", a);
    var s3 := s1 + ") " + b;
    SeparatorThenDigits(s1, ") ", b);
    var s5 := s3 + "-" + x;
    SeparatorThenDigits(s3, "-", x);
    SeparatorThenDigits(s5, "-", y);
    assert Canonical(c) == s5 + "-" + y;
    assert c[1..] == a + (b + (x + y));
    Reassociate("7", a, b, x, y);
    Reassociate("+7", a, b, x, y);
  }

  lemma Reassociate(p: string, a: string, b: string, x: string, y: string)
    ensures p + a + b + x + y == p + (a + (b + (x + y)))
  {
    assert p + a + b == p + (a + b);
    assert p + a + b + x == p + (a + (b + x));
    assert (a + b) + x == a + (b + x);
  }

  /** The canonical form keeps exactly the 11 digits it was made from. */
  lemma CanonicalDigits(c: string)
    requires |c| == 11 && c[0] == '7' && AllDigits(c)
    ensures KeepDigits(Canonical(c)) == c
  {
    CanonicalFilters(c);
    assert c == [c[0]] + c[1..];
  }

  /** The canonical form's digits and plus signs are "+" then its 11 digits. */
  lemma CanonicalDigitsAndPlus(c: string)
    requires |c| == 11 && c[0] == '7' && AllDigits(c)
    ensures KeepDigitsAndPlus(Canonical(c)) == "+" + c
  {
    CanonicalFilters(c);
    assert c == [c[0]] + c[1..];
  }

  /** The digits of the input are its digits-and-plus without the '+' signs. */
  lemma {:induction false} KeepDigitsThroughPlus(s: string)
    ensures KeepDigits(KeepDigitsAndPlus(s)) == KeepDigits(s)
  {
    if s != [] {
      KeepDigitsThroughPlus(s[1..]);
      var head := if IsDigit(s[0]) || s[0] == '+' then [s[0]] else [];
      KeepDigitsAppend(head, KeepDigitsAndPlus(s[1..]));
    }
  }

  /** A number validate_phone_number accepts has 11 digits, the first 7 or 8. */
  lemma ValidPhoneDigits(phone: string)
    requires ValidatePhoneNumber(phone)
    ensures var d := KeepDigits(phone); |d| == 11 && (d[0] == '7' || d[0] == '8')
    ensures KeepDigitsAndPlus(phone)[|KeepDigitsAndPlus(phone)| - 10..] == KeepDigits(phone)[1..]
  {
    var p := KeepDigitsAndPlus(phone);
    KeepDigitsThroughPlus(phone);
    var d := KeepDigits(phone);
    if |p| == 12 {
      assert p == "+7" + p[2..];
      KeepDigitsAfter("+7", "7", p[2..]);
    } else {
      assert p == [p[0]] + p[1..];
      KeepDigitsAfter([p[0]], [p[0]], p[1..]);
    }
  }

  /** Every number validate_phone_number accepts is reformatted into the
      18-character canonical form, which is itself accepted and keeps the
      ten subscriber digits. */
  lemma ValidPhoneIsFormatted(phone: string)
    requires ValidatePhoneNumber(phone)
    ensures var c := NormalisedDigits(phone);
      |c| == 11 && c[0] == '7' && FormatPhoneNumber(phone) == Canonical(c)
    ensures |FormatPhoneNumber(phone)| == 18
    ensures ValidatePhoneNumber(FormatPhoneNumber(phone))
    ensures KeepDigits(FormatPhoneNumber(phone)) == "7" + KeepDigits(phone)[1..]
  {
    ValidPhoneDigits(phone);
    var c := NormalisedDigits(phone);
    assert c == "7" + KeepDigits(phone)[1..];
    CanonicalDigits(c);
    CanonicalDigitsAndPlus(c);
    assert MatchesRussianPhone("+" + c);
  }

  /** Formatting is idempotent: formatting a formatted number changes nothing. */
  lemma FormatPhoneIdempotent(phone: string)
    ensures FormatPhoneNumber(FormatPhoneNumber(phone)) == FormatPhoneNumber(phone)
  {
    var c := NormalisedDigits(phone);
    if |c| == 11 && c[0] == '7' {
      assert AllDigits(c) by {
        var k := KeepDigits(phone);
        if |k| > 0 && k[0] == '8' {
          assert forall i :: 1 <= i < |c| ==> c[i] == k[i];
        }
      }
      CanonicalDigits(c);
      assert NormalisedDigits(Canonical(c)) == c;
    }
  }

  // ---------------------------------------------------------------------
  // Due date

  /** Standard repair durations in days, by device type. */
  const RepairDays: Dict<nat> := [
    ("Холодильник", 3),
    ("Стиральная машина", 2),
    ("Плита", 1),
    ("Микроволновая печь", 1),
    ("Посудомоечная машина", 2),
    ("Телевизор", 2),
    ("Кондиционер", 3),
    ("Другое", 2)
  ]

  const Undetermined := "Не определено"

  /** repair_times.get(device_type, 2). */
  function DaysToAdd(deviceType: string): (n: nat)
    ensures 1 <= n <= 3
    ensures deviceType !in Keys(RepairDays) ==> n == 2
  {
    GetKeys(RepairDays, deviceType);
    match Get(RepairDays, deviceType) case Some(n) => n case None => 2
  }

  /** calculate_due_date: created date plus the device's repair days, as
      "%Y-%m-%d"; "Не определено" when the created date does not parse or
      the sum passes year 9999. */
  function CalculateDueDate(createdDate: string, deviceType: string): string
  {
    match ParseDateTime(createdDate)
    case None => Undetermined
    case Some(t) =>
      match AddDays(t.date, DaysToAdd(deviceType))
      case None => Undetermined
      case Some(d) => FormatDate(d)
  }

  /** The due date is a "%Y-%m-%d" date exactly the repair days after the
      created date, or the sentinel when no date results. */
  lemma DueDateIsCreatedPlusDays(createdDate: string, deviceType: string)
    ensures ParseDateTime(createdDate).None? ==> CalculateDueDate(createdDate, deviceType) == Undetermined
    ensures ParseDateTime(createdDate).Some? && CalculateDueDate(createdDate, deviceType) != Undetermined ==>
      var due := ParseDate(CalculateDueDate(createdDate, deviceType));
      due.Some? &&
      Ordinal(due.value) == Ordinal(ParseDateTime(createdDate).value.date) + DaysToAdd(deviceType)
  {
    var t := ParseDateTime(createdDate);
    if t.Some? {
      var r := AddDays(t.value.date, DaysToAdd(deviceType));
      AddDaysOrdinal(t.value.date, DaysToAdd(deviceType));
      if r.Some? {
        ParseFormatDate(r.value);
      }
    }
  }

  /** A date at least three days before 9999-12-31 always gets a due date. */
  lemma DueDateDefinedAwayFromYear9999(createdDate: string, deviceType: string)
    requires ParseDateTime(createdDate).Some?
    requires ParseDateTime(createdDate).value.date.year < 9999
    ensures CalculateDueDate(createdDate, deviceType) != Undetermined
  {
    var d := ParseDateTime(createdDate).value.date;
    var n := DaysToAdd(deviceType);
    AddDaysBelowMax(d, n);
    ParseFormatDate(AddDays(d, n).value);
  }

  lemma {:induction false} AddDaysBelowMax(d: Date, n: nat)
    requires ValidDate(d) && d.year < 9999 && n <= 3
    ensures AddDays(d, n).Some?
    ensures AddDays(d, n).value.year <= 9999
    decreases n
  {
    if n > 0 {
      var e := NextDay(d);
      if e.year < 9999 {
        AddDaysBelowMax(e, n - 1);
      } else {
        assert e == Date(9999, 1, 1);
        AddDaysFromNewYear(n - 1);
      }
    }
  }

  lemma AddDaysFromNewYear(n: nat)
    requires n <= 2
    ensures AddDays(Date(9999, 1, 1), n).Some?
    ensures AddDays(Date(9999, 1, 1), n).value.year <= 9999
  {
    assert ValidDate(Date(9999, 1, 1));
    if n >= 1 {
      assert NextDay(Date(9999, 1, 1)) == Date(9999, 1, 2);
    }
    if n == 2 {
      assert NextDay(Date(9999, 1, 2)) == Date(9999, 1, 3);
    }
  }

  /** Every device type offered has its own entry in the repair-time table. */
  lemma DeviceTypesHaveRepairDays()
    ensures forall t :: t in Models.DeviceTypes ==> Get(RepairDays, t).Some?
  {
    assert Keys(RepairDays) == Models.DeviceTypes;
    forall t | t in Models.DeviceTypes ensures Get(RepairDays, t).Some? {
      GetKeys(RepairDays, t);
    }
  }

  // ---------------------------------------------------------------------
  // E-mail

  predicate LocalChar(c: char) { IsAsciiLetter(c) || IsDigit(c) || c in "._%+-" }

  predicate DomainChar(c: char) { IsAsciiLetter(c) || IsDigit(c) || c == '.' || c == '-' }

  predicate AllLocal(s: string) { forall i :: 0 <= i < |s| ==> LocalChar(s[i]) }

  predicate AllDomain(s: string) { forall i :: 0 <= i < |s| ==> DomainChar(s[i]) }

  predicate AllLetters(s: string) { forall i :: 0 <= i < |s| ==> IsAsciiLetter(s[i]) }

  /** s splits as local "@" domain "." tld at positions at and dot, with the
      character classes and lengths [a-zA-Z0-9._%+-]+@[a-zA-Z0-9.-]+\.[a-zA-Z]{2,}. */
  predicate EmailSplit(s: string, at: int, dot: int)
  {
    0 < at && at + 1 < dot && dot + 3 <= |s| &&
    s[at] == '@' && s[dot] == '.' &&
    AllLocal(s[..at]) && AllDomain(s[at + 1..dot]) && AllLetters(s[dot + 1..])
  }

  /** The whole string matches the pattern (no trailing newline). */
  ghost predicate EmailShape(s: string)
  {
    exists at, dot :: EmailSplit(s, at, dot)
  }

  /** re.match with a pattern ending in `$`: the string matches, or matches
      once a single trailing newline is removed. */
  ghost predicate EmailPattern(email: string)
  {
    EmailShape(email) || (email != [] && email[|email| - 1] == '\n' && EmailShape(email[..|email| - 1]))
  }

  /** Index of the first occurrence of c. */
  function IndexOf(s: string, c: char): (r: Option<nat>)
    ensures r.Some? ==> r.value < |s| && s[r.value] == c
    ensures r.Some? ==> forall j :: 0 <= j < r.value ==> s[j] != c
    ensures r.None? ==> forall j :: 0 <= j < |s| ==> s[j] != c
  {
    if s == [] then None
    else if s[0] == c then Some(0)
    else match IndexOf(s[1..], c)
      case Some(i) => Some(i + 1)
      case None => None
  }

  /** Index of the last occurrence of c. */
  function LastIndexOf(s: string, c: char): (r: Option<nat>)
    ensures r.Some? ==> r.value < |s| && s[r.value] == c
    ensures r.Some? ==> forall j :: r.value < j < |s| ==> s[j] != c
    ensures r.None? ==> forall j :: 0 <= j < |s| ==> s[j] != c
  {
    if s == [] then None
    else if s[|s| - 1] == c then Some(|s| - 1)
    else LastIndexOf(s[..|s| - 1], c)
  }

  /** The match decided at the first '@' and the last '.'. */
  function MatchEmail(s: string): bool
  {
    match (IndexOf(s, '@'), LastIndexOf(s, '.'))
    case (Some(at), Some(dot)) => EmailSplit(s, at, dot)
    case _ => false
  }

  /** Deciding at the first '@' and last '.' finds a split whenever one exists:
      the local part holds no '@' and the top-level domain no '.'. */
  lemma MatchEmailComplete(s: string)
    ensures MatchEmail(s) <==> EmailShape(s)
  {
    if EmailShape(s) {
      var at, dot :| EmailSplit(s, at, dot);
      forall i | 0 <= i < at ensures s[i] != '@' {
        assert LocalChar(s[..at][i]);
      }
      forall i | dot < i < |s| ensures s[i] != '.' {
        assert IsAsciiLetter(s[dot + 1..][i - dot - 1]);
      }
      assert IndexOf(s, '@') == Some(at);
      assert LastIndexOf(s, '.') == Some(dot);
    }
  }

  /** validate_email: exactly the strings matching
      ^[a-zA-Z0-9._%+-]+@[a-zA-Z0-9.-]+\.[a-zA-Z]{2,}$ under re.match. */
  function ValidateEmail(email: string): (ok: bool)
    ensures ok <==> EmailPattern(email)
  {
    MatchEmailComplete(email);
    if email != [] && email[|email| - 1] == '\n' then
      MatchEmailComplete(email[..|email| - 1]);
      NewlineEndsNoEmail(email);
      MatchEmail(email[..|email| - 1])
    else
      MatchEmail(email)
  }

  /** A string ending in a newline does not itself have the e-mail shape. */
  lemma NewlineEndsNoEmail(s: string)
    requires s != [] && s[|s| - 1] == '\n'
    ensures !EmailShape(s)
  {

  }

  // ---------------------------------------------------------------------
  // Names

  /** split_name: the first three whitespace-separated words, padded with "". */
  function SplitName(fullName: string): (string, string, string)
  {
    var parts := Words(Strip(fullName));
    if |parts| >= 3 then (parts[0], parts[1], parts[2])
    else if |parts| == 2 then (parts[0], parts[1], "")
    else if |parts| == 1 then (parts[0], "", "")
    else ("", "", "")
  }

  /** Words each followed by a run of whitespace, as a typed full name is:
      every run but the last is non-empty, the last may be empty. */
  function JoinSpaced(ws: seq<string>, seps: seq<string>): string
    requires |seps| == |ws|
  {
    if ws == [] then "" else ws[0] + seps[0] + JoinSpaced(ws[1..], seps[1..])
  }

  predicate AreWords(ws: seq<string>)
  {
    forall k :: 0 <= k < |ws| ==> ws[k] != [] && NoSpace(ws[k])
  }

  predicate Separators(seps: seq<string>)
  {
    forall k :: 0 <= k < |seps| ==> AllSpace(seps[k]) && (k < |seps| - 1 ==> seps[k] != [])
  }

  /** split() of words separated by whitespace runs gives the words back. */
  lemma {:induction false} WordsJoinSpaced(ws: seq<string>, seps: seq<string>)
    requires AreWords(ws) && |seps| == |ws| && Separators(seps)
    ensures Words(JoinSpaced(ws, seps)) == ws
  {
    if ws != [] {
      assert AreWords(ws[1..]) by {
        assert forall k :: 0 <= k < |ws| - 1 ==> ws[1..][k] == ws[k + 1];
      }
      assert Separators(seps[1..]) by {
        assert forall k :: 0 <= k < |seps| - 1 ==> seps[1..][k] == seps[k + 1];
      }
      WordsJoinSpaced(ws[1..], seps[1..]);
      var rest := JoinSpaced(ws[1..], seps[1..]);
      assert |ws| == 1 ==> rest == [];
      WordsCons(ws[0], seps[0], rest);
      assert ws == [ws[0]] + ws[1..];
    }
  }

  /** split_name of any whitespace-separated full name, with any leading and
      trailing whitespace, gives its first three words, "" where missing. */
  lemma SplitNameSpaced(pre: string, ws: seq<string>, seps: seq<string>)
    requires AllSpace(pre) && AreWords(ws) && |seps| == |ws| && Separators(seps)
    ensures SplitName(pre + JoinSpaced(ws, seps)) ==
      (if |ws| > 0 then ws[0] else "", if |ws| > 1 then ws[1] else "", if |ws| > 2 then ws[2] else "")
  {
    var s := pre + JoinSpaced(ws, seps);
    WordsStrip(s);
    WordsLeadingSpace(pre, JoinSpaced(ws, seps));
    WordsJoinSpaced(ws, seps);
  }
}
