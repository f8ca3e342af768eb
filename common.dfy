/** Shared vocabulary: an Option type, Python's notion of whitespace,
    character classes, lower-casing, decimal integers and the binary text
    order SQLite uses for ORDER BY and comparisons on TEXT columns. */
module Common {

  datatype Option<+T> = None | Some(value: T)

  /** Python's str.isspace() characters: what str.split() and str.strip()
      treat as whitespace. */
  predicate IsSpace(c: char)
  {
    c == ' ' || ('\t' <= c <= '\r') || ('\U{1C}' <= c <= '\U{1F}') ||
    c == '\U{85}' || c == '\U{A0}' || c == '\U{1680}' ||
    ('\U{2000}' <= c <= '\U{200A}') || c == '\U{2028}' || c == '\U{2029}' ||
    c == '\U{202F}' || c == '\U{205F}' || c == '\U{3000}'
  }

  predicate IsDigit(c: char) { '0' <= c <= '9' }

  predicate IsAsciiLetter(c: char) { 'a' <= c <= 'z' || 'A' <= c <= 'Z' }

  predicate AllDigits(s: string) { forall i :: 0 <= i < |s| ==> IsDigit(s[i]) }

  function DigitValue(c: char): (d: nat)
    requires IsDigit(c)
    ensures d < 10
  {
    (c - '0') as nat
  }

  function DigitChar(d: nat): (c: char)
    requires d < 10
    ensures IsDigit(c) && DigitValue(c) == d
  {
    ('0' as int + d) as char
  }

  /** str.lower() on the scripts the data uses: ASCII and the basic
      Cyrillic block (U+0400..U+042F map to U+0450..U+045F, U+0430..U+044F). */
  function LowerChar(c: char): char
  {
    if 'A' <= c <= 'Z' then (c as int + 32) as char
    else if 'А' <= c <= 'Я' then (c as int + 32) as char
    else if 'Ѐ' <= c <= 'Џ' then (c as int + 80) as char
    else c
  }

  function Lower(s: string): (r: string)
    ensures |r| == |s|
    ensures forall i :: 0 <= i < |s| ==> r[i] == LowerChar(s[i])
  {
    if s == [] then [] else [LowerChar(s[0])] + Lower(s[1..])
  }

  /** str.lstrip() / str.rstrip() / str.strip() with no arguments. */
  function TrimLeft(s: string): (r: string)
    ensures |r| <= |s| && r == s[|s| - |r|..]
    ensures r == [] || !IsSpace(r[0])
    ensures forall i :: 0 <= i < |s| - |r| ==> IsSpace(s[i])
  {
    if s != [] && IsSpace(s[0]) then
      var r := TrimLeft(s[1..]);
      assert s[1..][|s| - 1 - |r|..] == s[|s| - |r|..];
      assert forall i :: 1 <= i < |s| ==> s[i] == s[1..][i - 1];
      r
    else s
  }

  function TrimRight(s: string): (r: string)
    ensures |r| <= |s| && r == s[..|r|]
    ensures r == [] || !IsSpace(r[|r| - 1])
    ensures forall i :: |r| <= i < |s| ==> IsSpace(s[i])
  {
    if s != [] && IsSpace(s[|s| - 1]) then
      var r := TrimRight(s[..|s| - 1]);
      assert s[..|s| - 1][..|r|] == s[..|r|];
      r
    else s
  }

  function Strip(s: string): string
  {
    TrimRight(TrimLeft(s))
  }

  predicate AllSpace(s: string) { forall i :: 0 <= i < |s| ==> IsSpace(s[i]) }

  /** strip() removes exactly the whitespace around a word that neither
      starts nor ends with whitespace. */
  lemma StripPadded(pre: string, w: string, post: string)
    requires AllSpace(pre) && AllSpace(post)
    requires w != [] && !IsSpace(w[0]) && !IsSpace(w[|w| - 1])
    ensures Strip(pre + w + post) == w
  {
    assert pre + w + post == pre + (w + post);
    TrimLeftSpaces(pre, w + post);
    TrimRightSpaces(w, post);
  }

  lemma {:induction false} TrimLeftSpaces(pre: string, s: string)
    requires AllSpace(pre) && (s == [] || !IsSpace(s[0]))
    ensures TrimLeft(pre + s) == s
  {
    if pre == [] {
      assert pre + s == s;
    } else {
      assert (pre + s)[1..] == pre[1..] + s;
      TrimLeftSpaces(pre[1..], s);
    }
  }

  lemma {:induction false} TrimRightSpaces(s: string, post: string)
    requires AllSpace(post) && (s == [] || !IsSpace(s[|s| - 1]))
    ensures TrimRight(s + post) == s
  {
    if post == [] {
      assert s + post == s;
    } else {
      assert (s + post)[..|s + post| - 1] == s + post[..|post| - 1];
      TrimRightSpaces(s, post[..|post| - 1]);
    }
  }

  /** Number of leading non-whitespace characters. */
  function WordLength(s: string): (n: nat)
    ensures n <= |s|
    ensures forall i :: 0 <= i < n ==> !IsSpace(s[i])
    ensures n < |s| ==> IsSpace(s[n])
  {
    if s == [] || IsSpace(s[0]) then 0 else 1 + WordLength(s[1..])
  }

  /** str.split() with no arguments: the maximal runs of non-whitespace. */
  function Words(s: string): (ws: seq<string>)
    decreases |s|
  {
    if s == [] then []
    else if IsSpace(s[0]) then Words(s[1..])
    else
      var n := WordLength(s);
      [s[..n]] + Words(s[n..])
  }

  predicate NoSpace(w: string) { forall i :: 0 <= i < |w| ==> !IsSpace(w[i]) }

  /** Every word str.split() returns is non-empty and free of whitespace. */
  lemma {:induction false} WordsAreWords(s: string)
    ensures forall k :: 0 <= k < |Words(s)| ==> Words(s)[k] != [] && NoSpace(Words(s)[k])
    decreases |s|
  {
    if s == [] {
    } else if IsSpace(s[0]) {
      WordsAreWords(s[1..]);
    } else {
      var n := WordLength(s);
      WordsAreWords(s[n..]);
    }
  }

  /** A word followed by a run of whitespace splits off as the first word;
      the run may be empty only at the end of the text. */
  lemma WordsCons(w: string, sep: string, rest: string)
    requires w != [] && NoSpace(w) && AllSpace(sep) && (sep != [] || rest == [])
    ensures Words(w + sep + rest) == [w] + Words(rest)
  {
    var s := w + sep + rest;
    assert s == w + (sep + rest);
    assert sep + rest == [] || IsSpace((sep + rest)[0]);
    WordLengthOfWord(w, sep + rest);
    assert s[..|w|] == w;
    assert s[|w|..] == sep + rest;
    WordsLeadingSpace(sep, rest);
  }

  /** Leading whitespace does not change str.split(). */
  lemma {:induction false} WordsLeadingSpace(pre: string, s: string)
    requires AllSpace(pre)
    ensures Words(pre + s) == Words(s)
  {
    if pre == [] {
      assert pre + s == s;
    } else {
      assert (pre + s)[1..] == pre[1..] + s;
      WordsLeadingSpace(pre[1..], s);
    }
  }

  lemma {:induction false} WordLengthTrailing(t: string, post: string)
    requires AllSpace(post)
    ensures WordLength(t + post) == WordLength(t)
  {
    if t == [] {
      assert t + post == post;
    } else if !IsSpace(t[0]) {
      assert (t + post)[1..] == t[1..] + post;
      WordLengthTrailing(t[1..], post);
    }
  }

  /** Trailing whitespace does not change str.split(). */
  lemma {:induction false} WordsTrailingSpace(t: string, post: string)
    requires AllSpace(post)
    ensures Words(t + post) == Words(t)
    decreases |t|
  {
    if t == [] {
      assert t + post == post + [];
      WordsLeadingSpace(post, []);
    } else if IsSpace(t[0]) {
      assert (t + post)[1..] == t[1..] + post;
      WordsTrailingSpace(t[1..], post);
    } else {
      var n := WordLength(t);
      WordLengthTrailing(t, post);
      assert (t + post)[..n] == t[..n];
      assert (t + post)[n..] == t[n..] + post;
      WordsTrailingSpace(t[n..], post);
    }
  }

  /** strip() before split() changes nothing: split() already drops the
      whitespace at both ends. */
  lemma WordsStrip(s: string)
    ensures Words(Strip(s)) == Words(s)
  {
    WordsTrimLeft(s);
    WordsTrimRight(TrimLeft(s));
  }

  lemma WordsTrimLeft(s: string)
    ensures Words(TrimLeft(s)) == Words(s)
  {
    var l := TrimLeft(s);
    var pre := s[..|s| - |l|];
    assert AllSpace(pre);
    assert s == pre + l;
    WordsLeadingSpace(pre, l);
  }

  lemma WordsTrimRight(s: string)
    ensures Words(TrimRight(s)) == Words(s)
  {
    var r := TrimRight(s);
    var post := s[|r|..];
    assert AllSpace(post);
    assert s == r + post;
    WordsTrailingSpace(r, post);
  }

  lemma {:induction false} WordLengthOfWord(w: string, rest: string)
    requires NoSpace(w)
    requires rest == [] || IsSpace(rest[0])
    ensures WordLength(w + rest) == |w|
  {
    if w != [] {
      assert (w + rest)[1..] == w[1..] + rest;
      WordLengthOfWord(w[1..], rest);
    } else {
      assert w + rest == rest;
    }
  }

  /** Binary (code point) order on text, SQLite's default collation: on
      UTF-8 it agrees with memcmp of the encoded bytes. */
  predicate TextLe(a: string, b: string)
  {
    if a == [] then true
    else if b == [] then false
    else if a[0] != b[0] then a[0] < b[0]
    else TextLe(a[1..], b[1..])
  }

  lemma {:induction false} TextLeReflexive(a: string)
    ensures TextLe(a, a)
  {
    if a != [] { TextLeReflexive(a[1..]); }
  }

  lemma {:induction false} TextLeTotal(a: string, b: string)
    ensures TextLe(a, b) || TextLe(b, a)
  {
    if a != [] && b != [] && a[0] == b[0] { TextLeTotal(a[1..], b[1..]); }
  }

  lemma {:induction false} TextLeTransitive(a: string, b: string, c: string)
    requires TextLe(a, b) && TextLe(b, c)
    ensures TextLe(a, c)
  {
    if a != [] && b != [] && c != [] && a[0] == b[0] && b[0] == c[0] {
      TextLeTransitive(a[1..], b[1..], c[1..]);
    }
  }

  lemma {:induction false} TextLeAntisymmetric(a: string, b: string)
    requires TextLe(a, b) && TextLe(b, a)
    ensures a == b
  {
    if a != [] && b != [] {
      TextLeAntisymmetric(a[1..], b[1..]);
    }
  }

  /** Comparing two texts that start with prefixes of one length compares
      the prefixes first and the rests only when the prefixes are equal. */
  lemma {:induction false} TextLeConcat(p1: string, q1: string, p2: string, q2: string)
    requires |p1| == |p2|
    ensures TextLe(p1 + q1, p2 + q2) <==> if p1 == p2 then TextLe(q1, q2) else TextLe(p1, p2)
  {
    if p1 == [] {
      assert p1 + q1 == q1 && p2 + q2 == q2;
    } else {
      assert (p1 + q1)[0] == p1[0] && (p2 + q2)[0] == p2[0];
      assert (p1 + q1)[1..] == p1[1..] + q1 && (p2 + q2)[1..] == p2[1..] + q2;
      if p1[0] == p2[0] {
        TextLeConcat(p1[1..], q1, p2[1..], q2);
        assert p1 == [p1[0]] + p1[1..] && p2 == [p2[0]] + p2[1..];
      }
    }
  }

  /** Value of a string of decimal digits (most significant first). */
  function DecimalValue(s: string): (n: nat)
    requires AllDigits(s)
  {
    if s == [] then 0 else DecimalValue(s[..|s| - 1]) * 10 + DigitValue(s[|s| - 1])
  }

  /** str(n) for a natural number: shortest decimal form. */
  function NatToDecimal(n: nat): (s: string)
    ensures s != [] && AllDigits(s)
    ensures |s| > 1 ==> s[0] != '0'
  {
    if n < 10 then [DigitChar(n)] else NatToDecimal(n / 10) + [DigitChar(n % 10)]
  }

  /** str(i) for an integer, also SQLite's CAST(i AS TEXT). */
  function IntToDecimal(i: int): string
  {
    if i < 0 then "-" + NatToDecimal(-i) else NatToDecimal(i)
  }

  /** An integer literal: an optional sign and one or more decimal digits. */
  function ParseInt(s: string): (r: Option<int>)
  {
    if |s| > 1 && s[0] == '-' && AllDigits(s[1..]) then Some(0 - DecimalValue(s[1..]) as int)
    else if |s| > 1 && s[0] == '+' && AllDigits(s[1..]) then Some(DecimalValue(s[1..]))
    else if s != [] && AllDigits(s) then Some(DecimalValue(s))
    else None
  }

  lemma {:induction false} NatToDecimalValue(n: nat)
    ensures DecimalValue(NatToDecimal(n)) == n
  {
    if n >= 10 {
      NatToDecimalValue(n / 10);
      var s := NatToDecimal(n / 10) + [DigitChar(n % 10)];
      assert s[..|s| - 1] == NatToDecimal(n / 10);
    }
  }

  /** Printing an integer in decimal and parsing it back gives the integer. */
  lemma ParseIntToDecimal(i: int)
    ensures ParseInt(IntToDecimal(i)) == Some(i)
  {
    if i < 0 {
      NatToDecimalValue(-i);
      var s := "-" + NatToDecimal(-i);
      assert s[1..] == NatToDecimal(-i);
    } else {
      NatToDecimalValue(i);
    }
  }
}
