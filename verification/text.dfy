/** The few Python `str` builtins the assembler relies on: `split(sep)`,
    `split()`, `strip()`, `upper()` and `int()` on decimal numerals. Each is
    modelled on strings as sequences of characters. */
module PyText {

  datatype Option<+T> = None | Some(value: T)

  /** The characters Python's `str.isspace()` (and so `strip()` and
      argument-less `split()`) treats as whitespace. */
  predicate IsSpace(c: char) {
    var n := c as int;
    || n == 0x20
    || 0x09 <= n <= 0x0D
    || 0x1C <= n <= 0x1F
    || n == 0x85 || n == 0xA0 || n == 0x1680
    || 0x2000 <= n <= 0x200A
    || n == 0x2028 || n == 0x2029 || n == 0x202F || n == 0x205F || n == 0x3000
  }

  predicate IsDigit(c: char) {
    '0' <= c <= '9'
  }

  predicate NoSpace(s: string) {
    forall i :: 0 <= i < |s| ==> !IsSpace(s[i])
  }

  // ---------------------------------------------------------------------
  // split(sep)
  // ---------------------------------------------------------------------

  /** Position of the first `c` in `s`, or `|s|` when there is none. */
  function FirstIndex(s: string, c: char): (k: nat)
    ensures k <= |s|
    ensures c !in s[..k]
    ensures k < |s| ==> s[k] == c
  {
    if |s| == 0 then 0
    else if s[0] == c then 0
    else
      var k := 1 + FirstIndex(s[1..], c);
      assert s[..k] == [s[0]] + s[1..][..k - 1];
      k
  }

  /** `sep.join(parts)`. */
  function Join(parts: seq<string>, sep: char): string
    requires |parts| >= 1
  {
    if |parts| == 1 then parts[0] else parts[0] + [sep] + Join(parts[1..], sep)
  }

  /** `s.split(sep)` for a one-character separator: the text between
      consecutive separators, so always at least one (possibly empty) part. */
  function SplitOn(s: string, sep: char): (parts: seq<string>)
    ensures |parts| >= 1
    ensures forall j :: 0 <= j < |parts| ==> sep !in parts[j]
    ensures Join(parts, sep) == s
    decreases |s|
  {
    var k := FirstIndex(s, sep);
    if k == |s| then
      assert s[..k] == s;
      [s]
    else
      var rest := SplitOn(s[k + 1..], sep);
      var parts := [s[..k]] + rest;
      assert parts[1..] == rest;
      assert s == s[..k] + [sep] + s[k + 1..];
      parts
  }

  /** The other half of the round trip: splitting a join of separator-free
      parts gives the parts back. */
  lemma {:induction false} SplitJoin(parts: seq<string>, sep: char)
    requires |parts| >= 1
    requires forall j :: 0 <= j < |parts| ==> sep !in parts[j]
    ensures SplitOn(Join(parts, sep), sep) == parts
    decreases |parts|
  {
    var s := Join(parts, sep);
    if |parts| == 1 {
      FirstIndexAbsent(parts[0], sep);
    } else {
      var tail := Join(parts[1..], sep);
      assert s == parts[0] + [sep] + tail;
      FirstIndexAfter(parts[0], sep, tail);
      assert s[..|parts[0]|] == parts[0];
      assert s[|parts[0]| + 1..] == tail;
      SplitJoin(parts[1..], sep);
      assert SplitOn(s, sep) == [parts[0]] + parts[1..];
    }
  }

  lemma {:induction false} FirstIndexAbsent(s: string, c: char)
    requires c !in s
    ensures FirstIndex(s, c) == |s|
    decreases |s|
  {
    if |s| > 0 {
      assert c !in s[1..];
      FirstIndexAbsent(s[1..], c);
    }
  }

  lemma {:induction false} FirstIndexAfter(a: string, c: char, b: string)
    requires c !in a
    ensures FirstIndex(a + [c] + b, c) == |a|
    decreases |a|
  {
    if |a| > 0 {
      assert (a + [c] + b)[1..] == a[1..] + [c] + b;
      assert c !in a[1..];
      FirstIndexAfter(a[1..], c, b);
    }
  }

  // ---------------------------------------------------------------------
  // strip()
  // ---------------------------------------------------------------------

  function TrimStart(s: string): (r: string)
    ensures |r| <= |s| && r == s[|s| - |r|..]
    ensures forall i :: 0 <= i < |s| - |r| ==> IsSpace(s[i])
    ensures |r| > 0 ==> !IsSpace(r[0])
    decreases |s|
  {
    if |s| > 0 && IsSpace(s[0]) then TrimStart(s[1..]) else s
  }

  function TrimEnd(s: string): (r: string)
    ensures |r| <= |s| && r == s[..|r|]
    ensures forall i :: |r| <= i < |s| ==> IsSpace(s[i])
    ensures |r| > 0 ==> !IsSpace(r[|r| - 1])
    decreases |s|
  {
    if |s| > 0 && IsSpace(s[|s| - 1]) then TrimEnd(s[..|s| - 1]) else s
  }

  /** `s.strip()`: `s` without its leading and trailing whitespace. */
  function Strip(s: string): (r: string)
    ensures |r| <= |s|
    ensures |r| > 0 ==> !IsSpace(r[0]) && !IsSpace(r[|r| - 1])
  {
    TrimEnd(TrimStart(s))
  }

  /** What `strip()` removes is whitespace, and only whitespace: the result
      is one contiguous slice of `s` with nothing but whitespace on either
      side of it (so an all-whitespace `s` strips to ""). */
  lemma StripSpan(s: string)
    ensures exists i, j ::
              && 0 <= i <= j <= |s| && Strip(s) == s[i..j]
              && (forall k :: 0 <= k < i ==> IsSpace(s[k]))
              && (forall k :: j <= k < |s| ==> IsSpace(s[k]))
  {
    var t := TrimStart(s);
    var i := |s| - |t|;
    var j := i + |Strip(s)|;
    assert Strip(s) == s[i..j];
  }

  lemma StripTrimmed(s: string)
    requires |s| == 0 || (!IsSpace(s[0]) && !IsSpace(s[|s| - 1]))
    ensures Strip(s) == s
  {
  }

  lemma StripIdempotent(s: string)
    ensures Strip(Strip(s)) == Strip(s)
  {
    StripTrimmed(Strip(s));
  }

  // ---------------------------------------------------------------------
  // split() without arguments
  // ---------------------------------------------------------------------

  /** Length of the run of non-whitespace characters at the front of `s`. */
  function TokenLength(s: string): (n: nat)
    ensures n <= |s|
    ensures NoSpace(s[..n])
    ensures n < |s| ==> IsSpace(s[n])
    decreases |s|
  {
    if |s| == 0 || IsSpace(s[0]) then 0
    else
      var n := 1 + TokenLength(s[1..]);
      assert s[..n] == [s[0]] + s[1..][..n - 1];
      n
  }

  /** `s.split()`: the maximal runs of non-whitespace characters, in order. */
  function Words(s: string): (ws: seq<string>)
    ensures forall j :: 0 <= j < |ws| ==> |ws[j]| > 0 && NoSpace(ws[j])
    decreases |s|
  {
    if |s| == 0 then []
    else if IsSpace(s[0]) then Words(s[1..])
    else
      var n := TokenLength(s);
      [s[..n]] + Words(s[n..])
  }

  /** `"".join(words)`: the words run together. */
  function Concat(ws: seq<string>): string {
    if |ws| == 0 then "" else ws[0] + Concat(ws[1..])
  }

  /** The characters of `s` that are not whitespace, in order. */
  function NonSpace(s: string): (r: string)
    ensures NoSpace(r)
    ensures |r| <= |s|
  {
    if |s| == 0 then ""
    else if IsSpace(s[0]) then NonSpace(s[1..])
    else [s[0]] + NonSpace(s[1..])
  }

  lemma {:induction false} NonSpaceAppend(a: string, b: string)
    ensures NonSpace(a + b) == NonSpace(a) + NonSpace(b)
    decreases |a|
  {
    if |a| == 0 {
      assert a + b == b;
    } else {
      assert (a + b)[0] == a[0];
      assert (a + b)[1..] == a[1..] + b;
      NonSpaceAppend(a[1..], b);
    }
  }

  lemma {:induction false} NonSpaceOfWord(w: string)
    requires NoSpace(w)
    ensures NonSpace(w) == w
    decreases |w|
  {
    if |w| > 0 {
      NonSpaceOfWord(w[1..]);
      assert w == [w[0]] + w[1..];
    }
  }

  /** `split()` loses only whitespace: its words run together are the
      non-whitespace characters of `s`, in order. */
  lemma {:induction false} WordsKeepText(s: string)
    ensures Concat(Words(s)) == NonSpace(s)
    decreases |s|
  {
    if |s| > 0 {
      if IsSpace(s[0]) {
        WordsKeepText(s[1..]);
      } else {
        var n := TokenLength(s);
        WordsKeepText(s[n..]);
        assert s == s[..n] + s[n..];
        NonSpaceAppend(s[..n], s[n..]);
        NonSpaceOfWord(s[..n]);
        assert ([s[..n]] + Words(s[n..]))[1..] == Words(s[n..]);
      }
    }
  }

  /** `split()` finds no word exactly when `s` is all whitespace. */
  lemma {:induction false} WordsEmptyIff(s: string)
    ensures Words(s) == [] <==> forall i :: 0 <= i < |s| ==> IsSpace(s[i])
    decreases |s|
  {
    if |s| > 0 {
      WordsEmptyIff(s[1..]);
      if IsSpace(s[0]) {
        assert forall i :: 1 <= i < |s| ==> s[i] == s[1..][i - 1];
      }
    }
  }

  /** Splitting words joined by single blanks gives the words back. */
  lemma {:induction false} WordsJoin(ws: seq<string>)
    requires |ws| >= 1
    requires forall j :: 0 <= j < |ws| ==> |ws[j]| > 0 && NoSpace(ws[j])
    ensures Words(Join(ws, ' ')) == ws
    decreases |ws|
  {
    if |ws| == 1 {
      WordsSingle(ws[0]);
    } else {
      WordsJoin(ws[1..]);
      assert ws[0] + [' '] + Join(ws[1..], ' ') == ws[0] + " " + Join(ws[1..], ' ');
      WordsCons(ws[0], Join(ws[1..], ' '));
      assert ws == [ws[0]] + ws[1..];
    }
  }

  /** A word with no whitespace is one token. */
  lemma {:induction false} TokenLengthWord(w: string, rest: string)
    requires NoSpace(w)
    requires |rest| == 0 || IsSpace(rest[0])
    ensures TokenLength(w + rest) == |w|
    decreases |w|
  {
    if |w| > 0 {
      assert (w + rest)[1..] == w[1..] + rest;
      TokenLengthWord(w[1..], rest);
    } else {
      assert w + rest == rest;
    }
  }

  /** `(w + " " + rest).split()` is `w` followed by `rest.split()`. */
  lemma WordsCons(w: string, rest: string)
    requires |w| > 0 && NoSpace(w)
    ensures Words(w + " " + rest) == [w] + Words(rest)
  {
    var s := w + " " + rest;
    TokenLengthWord(w, " " + rest);
    assert s == w + (" " + rest);
    assert s[..|w|] == w;
    assert s[|w|..] == " " + rest;
    assert (" " + rest)[1..] == rest;
  }

  /** `w.split()` is `[w]` for a word without whitespace. */
  lemma WordsSingle(w: string)
    requires |w| > 0 && NoSpace(w)
    ensures Words(w) == [w]
  {
    TokenLengthWord(w, "");
    assert w + "" == w;
    assert w[|w|..] == [];
  }

  /** Stripping a leading blank off text that has no other surrounding
      whitespace. */
  lemma StripSpaced(t: string)
    requires |t| > 0 && !IsSpace(t[0]) && !IsSpace(t[|t| - 1])
    ensures Strip(" " + t) == t
  {
    assert (" " + t)[1..] == t;
    StripTrimmed(t);
  }

  /** `(" " + w).strip().split()` for a single word. */
  lemma SpacedWord(w: string)
    requires |w| > 0 && NoSpace(w)
    ensures Words(Strip(" " + w)) == [w]
  {
    StripSpaced(w);
    WordsSingle(w);
  }

  /** `(" " + w + " " + v).strip().split()` for two words. */
  lemma SpacedWords(w: string, v: string)
    requires |w| > 0 && NoSpace(w)
    requires |v| > 0 && NoSpace(v)
    ensures Words(Strip(" " + (w + " " + v))) == [w, v]
  {
    var t := w + " " + v;
    assert t[0] == w[0];
    assert t[|t| - 1] == v[|v| - 1];
    StripSpaced(t);
    WordsCons(w, v);
    WordsSingle(v);
  }

  /** A decimal spelling has no whitespace and no ':' or ';'. */
  lemma DecimalPlain(n: int)
    ensures NoSpace(Decimal(n))
    ensures ':' !in Decimal(n) && ';' !in Decimal(n)
  {
  }

  // ---------------------------------------------------------------------
  // upper()
  // ---------------------------------------------------------------------

  function UpperChar(c: char): char {
    if 'a' <= c <= 'z' then (c as int - 32) as char else c
  }

  /** `s.upper()` on ASCII letters. */
  function Upper(s: string): (r: string)
    ensures |r| == |s|
    ensures forall i :: 0 <= i < |s| ==> r[i] == UpperChar(s[i])
  {
    seq(|s|, i requires 0 <= i < |s| => UpperChar(s[i]))
  }

  // ---------------------------------------------------------------------
  // int() on decimal numerals
  // ---------------------------------------------------------------------

  /** Digits with single underscores between them, as Python's integer
      literal grammar allows (`1_000`). */
  predicate IsNumeral(s: string) {
    && |s| > 0
    && IsDigit(s[0])
    && forall i :: 0 <= i < |s| ==> NumeralAt(s, i)
  }

  /** Position `i` holds a digit, or an underscore followed by a digit. */
  predicate NumeralAt(s: string, i: nat)
    requires i < |s|
  {
    IsDigit(s[i]) || (s[i] == '_' && i + 1 < |s| && IsDigit(s[i + 1]))
  }

  function DropUnderscores(s: string): (r: string)
    ensures |r| <= |s|
  {
    if |s| == 0 then []
    else (if s[0] == '_' then [] else [s[0]]) + DropUnderscores(s[1..])
  }

  /** Value of a string of decimal digits, most significant first. */
  function DigitsValue(s: string): nat
    decreases |s|
  {
    if |s| == 0 then 0
    else
      var d := s[|s| - 1] as int - '0' as int;
      DigitsValue(s[..|s| - 1]) * 10 + (if 0 <= d then d else 0)
  }

  /** `int(s)`: surrounding whitespace, an optional sign, then a numeral;
      `None` where Python raises `ValueError`. */
  function ParseInt(s: string): Option<int> {
    SignedNumeral(Strip(s))
  }

  /** An optional sign followed by a numeral, with nothing around it. */
  function SignedNumeral(t: string): Option<int> {
    if |t| > 0 && (t[0] == '+' || t[0] == '-') then
      var body := t[1..];
      if IsNumeral(body) then
        var n: int := DigitsValue(DropUnderscores(body));
        Some(if t[0] == '-' then -n else n)
      else None
    else if IsNumeral(t) then Some(DigitsValue(DropUnderscores(t)))
    else None
  }

  /** `str(n)`: the decimal spelling of `n`. */
  function Decimal(n: int): (s: string)
    ensures |s| > 0
  {
    if n < 0 then "-" + Digits(-n) else Digits(n)
  }

  function Digits(n: nat): (s: string)
    ensures |s| > 0
    ensures forall i :: 0 <= i < |s| ==> IsDigit(s[i])
  {
    if n < 10 then [('0' as int + n) as char]
    else Digits(n / 10) + [('0' as int + n % 10) as char]
  }

  lemma {:induction false} DigitsValueOfDigits(n: nat)
    ensures DigitsValue(Digits(n)) == n
  {
    if n >= 10 {
      var s := Digits(n);
      assert s[..|s| - 1] == Digits(n / 10);
      DigitsValueOfDigits(n / 10);
    }
  }

  lemma {:induction false} DropUnderscoresOfDigits(s: string)
    requires forall i :: 0 <= i < |s| ==> IsDigit(s[i])
    ensures DropUnderscores(s) == s
  {
    if |s| > 0 {
      DropUnderscoresOfDigits(s[1..]);
    }
  }

  lemma DecimalStripped(n: int)
    ensures Strip(Decimal(n)) == Decimal(n)
  {
    var t := Decimal(n);
    assert t[|t| - 1] == Digits(if n < 0 then -n else n)[|t| - 1 - (if n < 0 then 1 else 0)];
    StripTrimmed(t);
  }

  lemma NumeralOfDigits(d: string)
    requires |d| > 0 && forall i :: 0 <= i < |d| ==> IsDigit(d[i])
    ensures IsNumeral(d)
    ensures DigitsValue(DropUnderscores(d)) == DigitsValue(d)
  {
    DropUnderscoresOfDigits(d);
  }

  /** `int(str(n)) == n`. */
  lemma ParseDecimal(n: int)
    ensures ParseInt(Decimal(n)) == Some(n)
  {
    var m: nat := if n < 0 then -n else n;
    var d := Digits(m);
    DigitsValueOfDigits(m);
    NumeralOfDigits(d);
    DecimalStripped(n);
    var t := Decimal(n);
    if n < 0 {
      assert t[1..] == d;
    } else {
      assert t == d;
      assert !(t[0] == '+' || t[0] == '-');
    }
  }

  // ---------------------------------------------------------------------
  // upper() commutes with the other operations
  // ---------------------------------------------------------------------

  /** Upper-cases every string of a list. */
  function UpperAll(ss: seq<string>): (r: seq<string>)
    ensures |r| == |ss|
    ensures forall j :: 0 <= j < |ss| ==> r[j] == Upper(ss[j])
  {
    seq(|ss|, j requires 0 <= j < |ss| => Upper(ss[j]))
  }

  predicate IsLetter(c: char) {
    'a' <= c <= 'z' || 'A' <= c <= 'Z'
  }

  /** Upper-casing changes only letters, into letters. */
  lemma UpperCharKeeps(c: char)
    ensures IsSpace(UpperChar(c)) == IsSpace(c)
    ensures IsDigit(UpperChar(c)) == IsDigit(c)
    ensures !IsLetter(c) ==> UpperChar(c) == c
    ensures IsLetter(UpperChar(c)) == IsLetter(c)
    ensures UpperChar(UpperChar(c)) == UpperChar(c)
    ensures (UpperChar(c) == '_') == (c == '_')
  {
  }

  lemma UpperIdempotent(s: string)
    ensures Upper(Upper(s)) == Upper(s)
  {
  }

  lemma UpperHead(s: string)
    requires |s| > 0
    ensures Upper(s)[0] == UpperChar(s[0])
    ensures Upper(s)[|s| - 1] == UpperChar(s[|s| - 1])
    ensures Upper(s)[1..] == Upper(s[1..])
    ensures Upper(s)[..|s| - 1] == Upper(s[..|s| - 1])
    ensures IsSpace(Upper(s)[0]) == IsSpace(s[0])
    ensures IsSpace(Upper(s)[|s| - 1]) == IsSpace(s[|s| - 1])
  {
    UpperCharKeeps(s[0]);
    UpperCharKeeps(s[|s| - 1]);
  }

  lemma UpperSlices(s: string, i: nat)
    requires i <= |s|
    ensures Upper(s)[..i] == Upper(s[..i])
    ensures Upper(s)[i..] == Upper(s[i..])
  {
  }

  lemma UpperAppend(a: string, b: string)
    ensures Upper(a + b) == Upper(a) + Upper(b)
  {
  }

  lemma {:induction false} FirstIndexUpper(s: string, c: char)
    requires !IsLetter(c)
    ensures FirstIndex(Upper(s), c) == FirstIndex(s, c)
    decreases |s|
  {
    if |s| > 0 {
      UpperHead(s);
      UpperCharKeeps(s[0]);
      FirstIndexUpper(s[1..], c);
    }
  }

  lemma SplitOnStep(s: string, sep: char)
    ensures FirstIndex(s, sep) < |s| ==>
      SplitOn(s, sep) == [s[..FirstIndex(s, sep)]] + SplitOn(s[FirstIndex(s, sep) + 1..], sep)
    ensures FirstIndex(s, sep) == |s| ==> SplitOn(s, sep) == [s]
  {
  }

  lemma UpperAllCons(x: string, rest: seq<string>)
    ensures UpperAll([x] + rest) == [Upper(x)] + UpperAll(rest)
  {
  }

  /** Splitting on a separator that is not a letter commutes with upper-casing. */
  lemma {:induction false} SplitOnUpper(s: string, sep: char)
    requires !IsLetter(sep)
    ensures SplitOn(Upper(s), sep) == UpperAll(SplitOn(s, sep))
    decreases |s|
  {
    var u := Upper(s);
    var k := FirstIndex(s, sep);
    FirstIndexUpper(s, sep);
    SplitOnStep(s, sep);
    SplitOnStep(u, sep);
    if k < |s| {
      var rest := SplitOn(s[k + 1..], sep);
      UpperSlices(s, k);
      UpperSlices(s, k + 1);
      SplitOnUpper(s[k + 1..], sep);
      UpperAllCons(s[..k], rest);
      calc {
        SplitOn(u, sep);
        [u[..k]] + SplitOn(u[k + 1..], sep);
        [Upper(s[..k])] + SplitOn(Upper(s[k + 1..]), sep);
        [Upper(s[..k])] + UpperAll(rest);
        UpperAll([s[..k]] + rest);
        UpperAll(SplitOn(s, sep));
      }
    } else {
      calc {
        SplitOn(u, sep);
        [u];
        UpperAll([s]);
        UpperAll(SplitOn(s, sep));
      }
    }
  }

  lemma {:induction false} TrimStartUpper(s: string)
    ensures TrimStart(Upper(s)) == Upper(TrimStart(s))
    decreases |s|
  {
    if |s| > 0 {
      UpperHead(s);
      TrimStartUpper(s[1..]);
    }
  }

  lemma {:induction false} TrimEndUpper(s: string)
    ensures TrimEnd(Upper(s)) == Upper(TrimEnd(s))
    decreases |s|
  {
    if |s| > 0 {
      UpperHead(s);
      TrimEndUpper(s[..|s| - 1]);
    }
  }

  lemma StripUpper(s: string)
    ensures Strip(Upper(s)) == Upper(Strip(s))
  {
    TrimStartUpper(s);
    TrimEndUpper(TrimStart(s));
  }

  lemma {:induction false} TokenLengthUpper(s: string)
    ensures TokenLength(Upper(s)) == TokenLength(s)
    decreases |s|
  {
    if |s| > 0 {
      UpperHead(s);
      TokenLengthUpper(s[1..]);
    }
  }

  /** `s.upper().split()` is `s.split()` with every word upper-cased. */
  lemma WordsStep(s: string)
    requires |s| > 0
    ensures IsSpace(s[0]) ==> Words(s) == Words(s[1..])
    ensures !IsSpace(s[0]) ==> Words(s) == [s[..TokenLength(s)]] + Words(s[TokenLength(s)..])
  {
  }

  lemma {:induction false} WordsUpper(s: string)
    ensures Words(Upper(s)) == UpperAll(Words(s))
    decreases |s|
  {
    if |s| > 0 {
      var u := Upper(s);
      UpperHead(s);
      WordsStep(s);
      WordsStep(u);
      if IsSpace(s[0]) {
        WordsUpper(s[1..]);
      } else {
        var n := TokenLength(s);
        TokenLengthUpper(s);
        UpperSlices(s, n);
        WordsUpper(s[n..]);
        UpperAllCons(s[..n], Words(s[n..]));
      }
    }
  }

  /** A numeral has no letters, so upper-casing leaves it alone; and
      upper-casing cannot turn a non-numeral into one. */
  lemma NumeralUpper(s: string)
    ensures IsNumeral(Upper(s)) <==> IsNumeral(s)
    ensures IsNumeral(s) ==> Upper(s) == s
  {
    var u := Upper(s);
    forall i | 0 <= i < |s|
      ensures IsDigit(u[i]) == IsDigit(s[i])
      ensures NumeralAt(u, i) == NumeralAt(s, i)
      ensures NumeralAt(s, i) ==> u[i] == s[i]
    {
      UpperCharKeeps(s[i]);
      if i + 1 < |s| {
        UpperCharKeeps(s[i + 1]);
      }
    }
    if IsNumeral(s) {
      assert u == s;
    }
  }

  lemma SignedNumeralUpper(t: string)
    ensures SignedNumeral(Upper(t)) == SignedNumeral(t)
  {
    var u := Upper(t);
    NumeralUpper(t);
    if |t| > 0 {
      UpperHead(t);
      UpperCharKeeps(t[0]);
      NumeralUpper(t[1..]);
      assert (u[0] == '+' || u[0] == '-') == (t[0] == '+' || t[0] == '-');
    }
  }

  /** `int(s.upper()) == int(s)`. */
  lemma ParseIntUpper(s: string)
    ensures ParseInt(Upper(s)) == ParseInt(s)
  {
    StripUpper(s);
    SignedNumeralUpper(Strip(s));
  }
}
