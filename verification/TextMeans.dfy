/** What the helpers on strings mean, said of the strings themselves: a text put together is taken apart again. */
module TextMeans {
  import opened Text

  // ----- letters -----------------------------------------------------------------------------------

  const CAPITALS := "ABCDEFGHIJKLMNOPQRSTUVWXYZ"
  const SMALL := "abcdefghijklmnopqrstuvwxyz"

  /** The same letter, whichever way it is written. */
  predicate SameLetter(c: char, d: char) {
    c == d || exists k :: 0 <= k < 26 && ((c == CAPITALS[k] && d == SMALL[k]) || (c == SMALL[k] && d == CAPITALS[k]))
  }

  /** The same word, each of its letters written either way. */
  predicate SameWord(a: string, b: string) {
    |a| == |b| && forall i :: 0 <= i < |a| ==> SameLetter(a[i], b[i])
  }

  lemma Capital(c: char) returns (k: nat)
    requires 'A' <= c <= 'Z'
    ensures k < 26 && c == CAPITALS[k] && LowerChar(c) == SMALL[k]
  {
    k := c as int - 'A' as int;
    AlphabetAt(k);
  }

  lemma AlphabetAt(k: nat)
    requires k < 26
    ensures CAPITALS[k] as int == 'A' as int + k && SMALL[k] as int == 'a' as int + k
  {
  }

  lemma SameLetterLower(c: char, d: char)
    ensures SameLetter(c, d) <==> LowerChar(c) == LowerChar(d)
  {
    forall k | 0 <= k < 26
      ensures CAPITALS[k] as int == 'A' as int + k && SMALL[k] as int == 'a' as int + k
    {
      AlphabetAt(k);
    }
    if LowerChar(c) == LowerChar(d) && c != d {
      if 'A' <= c <= 'Z' {
        var k := Capital(c);
      } else {
        var k := Capital(d);
      }
    }
  }

  /** A word is found under its lower-case form however its letters are written, and no other word is. */
  lemma LowerMeans(a: string, b: string)
    ensures Lower(a) == Lower(b) <==> SameWord(a, b)
  {
    var x, y := Lower(a), Lower(b);
    forall i | 0 <= i < |a| && i < |b|
      ensures SameLetter(a[i], b[i]) <==> x[i] == y[i]
    {
      SameLetterLower(a[i], b[i]);
    }
    hide SameLetter, LowerChar, Lower;
    if SameWord(a, b) {
      assert |x| == |y| && forall i :: 0 <= i < |x| ==> x[i] == y[i];
    }
  }

  predicate NoCapitals(s: string) {
    forall i :: 0 <= i < |s| ==> !('A' <= s[i] <= 'Z')
  }

  lemma SmallAlready(s: string)
    requires NoCapitals(s)
    ensures Lower(s) == s
  {
  }

  const DIGITS := "0123456789"

  predicate Among(c: char, alphabet: string) {
    exists k :: 0 <= k < |alphabet| && c == alphabet[k]
  }

  lemma Placed(c: char, alphabet: string, k: int)
    requires 0 <= k < |alphabet| && alphabet[k] == c
    ensures Among(c, alphabet)
  {
  }

  /** The characters of a word are the letters, the digits and the underscore. */
  lemma WordMeans(c: char)
    ensures IsDigit(c) <==> Among(c, DIGITS)
    ensures IsWord(c) <==> Among(c, CAPITALS) || Among(c, SMALL) || Among(c, DIGITS) || c == '_'
  {
    forall k | 0 <= k < 26
      ensures CAPITALS[k] as int == 'A' as int + k && SMALL[k] as int == 'a' as int + k
    {
      AlphabetAt(k);
    }
    forall k | 0 <= k < 10
      ensures DIGITS[k] as int == '0' as int + k
    {
      DigitAt(k);
    }
    if 'A' <= c <= 'Z' {
      Placed(c, CAPITALS, c as int - 'A' as int);
    } else if 'a' <= c <= 'z' {
      Placed(c, SMALL, c as int - 'a' as int);
    } else if '0' <= c <= '9' {
      Placed(c, DIGITS, c as int - '0' as int);
    }
  }

  lemma DigitAt(k: nat)
    requires k < 10
    ensures DIGITS[k] as int == '0' as int + k
  {
  }

  // ----- blanks ------------------------------------------------------------------------------------

  predicate IsBlank(c: char) {
    c in " \t\n\r\U{0B}\U{0C}"
  }

  predicate Blanks(s: string) {
    forall i :: 0 <= i < |s| ==> IsBlank(s[i])
  }

  predicate Trimmed(s: string) {
    s != "" ==> !IsBlank(s[0]) && !IsBlank(s[|s| - 1])
  }

  lemma {:induction false} StripFront(front: string, s: string)
    requires Blanks(front)
    ensures Strip(front + s) == Strip(s)
  {
    if front == "" {
      assert front + s == s;
    } else {
      assert (front + s)[0] == front[0] && (front + s)[1..] == front[1..] + s;
      StripFront(front[1..], s);
    }
  }

  lemma {:induction false} StripBack(s: string, back: string)
    requires Blanks(back) && Trimmed(s)
    ensures Strip(s + back) == s
    decreases |back|
  {
    if back == "" {
      assert s + back == s;
    } else if s == "" {
      assert s + back == back && back + "" == back;
      StripFront(back, "");
    } else {
      var n := |back| - 1;
      assert (s + back)[0] == s[0] && (s + back)[|s| + n] == back[n];
      assert (s + back)[..|s| + n] == s + back[..n];
      StripBack(s, back[..n]);
    }
  }

  /** Blanks around a text are taken off, and nothing else is. */
  lemma StripPadded(front: string, s: string, back: string)
    requires Blanks(front) && Blanks(back) && Trimmed(s)
    ensures Strip(front + (s + back)) == s
  {
    StripFront(front, s + back);
    StripBack(s, back);
  }

  /** Every text is a trimmed one with blanks around it. */
  lemma {:induction false} StripMeans(s: string) returns (front: string, back: string)
    ensures s == front + (Strip(s) + back) && Blanks(front) && Blanks(back) && Trimmed(Strip(s))
    decreases |s|
  {
    if s == "" {
      front, back := "", "";
    } else if White(s[0]) {
      var f, b := StripMeans(s[1..]);
      front, back := [s[0]] + f, b;
      hide Strip;
      assert Blanks(front);
      OneBefore(s, f, Strip(s[1..]) + b);
    } else if White(s[|s| - 1]) {
      var f, b := StripMeans(s[..|s| - 1]);
      front, back := f, b + [s[|s| - 1]];
      hide Strip;
      assert Blanks(back);
      OneBehind(s, f, Strip(s[..|s| - 1]), b);
    } else {
      front, back := "", "";
      assert "" + (s + "") == s;
    }
  }

  lemma OneBefore(s: string, f: string, t: string)
    requires s != "" && s[1..] == f + t
    ensures s == [s[0]] + f + t
  {
  }

  lemma OneBehind(s: string, f: string, t: string, b: string)
    requires s != "" && s[..|s| - 1] == f + (t + b)
    ensures s == f + (t + (b + [s[|s| - 1]]))
  {
    assert s == s[..|s| - 1] + [s[|s| - 1]];
  }

  /** Nothing is left of a text exactly when it is blank throughout. */
  lemma BlankMeans(s: string)
    ensures Strip(s) == "" <==> Blanks(s)
  {
    var front, back := StripMeans(s);
    assert Strip(s) == "" ==> s == front + back;
    if Blanks(s) {
      StripFront(s, "");
      NoMore(s);
    }
  }

  lemma NoMore(s: string)
    ensures s + "" == s
  {
  }

  // ----- parts -------------------------------------------------------------------------------------

  lemma {:induction false} BeforeAfter(a: string, c: char, b: string)
    requires c !in a
    ensures Before(a + ([c] + b), c) == a && After(a + ([c] + b), c) == b
  {
    var s := a + ([c] + b);
    var r := Before(s, c);
    assert forall i :: 0 <= i < |a| ==> s[i] == a[i] && s[i] in a;
    assert s[|a|] == c && r == s[..|r|];
    assert forall i :: 0 <= i < |r| ==> r[i] in r;
    assert |r| == |a|;
    assert s[..|a|] == a && s[|a| + 1..] == b;
  }

  lemma BeforeAll(s: string, c: char)
    requires c !in s
    ensures Before(s, c) == s && After(s, c) == ""
  {
    var r := Before(s, c);
    assert forall i :: 0 <= i < |s| ==> s[i] in s;
  }

  /** Parts with a separator between them. */
  function Join(parts: seq<string>, sep: string): string
    requires parts != []
  {
    if |parts| == 1 then parts[0] else parts[0] + (sep + Join(parts[1..], sep))
  }

  /** Splitting gives parts that make up the text, in none of which the separator stands. */
  lemma {:induction false} SplitMeans(s: string, sep: string)
    requires sep != ""
    ensures Join(Split(s, sep), sep) == s
    ensures forall i :: 0 <= i < |Split(s, sep)| ==> Find(Split(s, sep)[i], sep, 0).None?
    decreases |s|
  {
    var at := Find(s, sep, 0);
    if at.Some? {
      var i, rest := at.value, s[at.value + |sep|..];
      SplitMeans(rest, sep);
      SplitFirst(s, sep, i);
      assert Split(s, sep) == [s[..i]] + Split(rest, sep);
      assert Split(s, sep)[1..] == Split(rest, sep);
    }
  }

  lemma SplitFirst(s: string, sep: string, i: nat)
    requires sep != "" && Find(s, sep, 0) == Some(i)
    ensures s == s[..i] + (sep + s[i + |sep|..]) && Find(s[..i], sep, 0).None?
  {
    FindFirst(s, sep, 0);
    CutThere(s, sep, i);
    if Find(s[..i], sep, 0).Some? {
      NotBefore(s, sep, i, Find(s[..i], sep, 0).value);
    }
  }

  lemma CutThere(s: string, sep: string, i: nat)
    requires OccursAt(s, sep, i)
    ensures s == s[..i] + (sep + s[i + |sep|..])
  {
    assert s == s[..i] + s[i..] && s[i..] == s[i..i + |sep|] + s[i + |sep|..];
  }

  lemma NotBefore(s: string, sep: string, i: nat, j: nat)
    requires i <= |s| && OccursAt(s[..i], sep, j)
    ensures OccursAt(s, sep, j) && j + |sep| <= i
  {
    assert s[..i][j..j + |sep|] == s[j..j + |sep|];
  }

  // ----- numerals ----------------------------------------------------------------------------------

  /** The text is the number written out: a sign perhaps, and digits. */
  ghost predicate Names(s: string, n: int) {
    exists sign, digits :: Numeral(s, sign, digits) && n == if sign == "-" then 0 - Number(digits) else Number(digits)
  }

  predicate Numeral(s: string, sign: string, digits: string) {
    && s == sign + digits && digits != "" && AllDigits(digits)
    && (sign == "" || sign == "+" || sign == "-")
  }

  lemma NumeralTrimmed(s: string, sign: string, digits: string)
    requires Numeral(s, sign, digits)
    ensures Trimmed(s) && s != ""
  {
    assert s[|s| - 1] == digits[|digits| - 1] && IsDigit(digits[|digits| - 1]);
    assert sign == "" ==> s[0] == digits[0] && IsDigit(digits[0]);
  }

  lemma TrimmedStays(s: string)
    requires Trimmed(s)
    ensures Strip(s) == s
  {
    NoMore(s);
    StripBack(s, "");
  }

  lemma SignAndDigits(s: string, sign: string, digits: string)
    requires Numeral(s, sign, digits)
    ensures sign != "" ==> s[0] == sign[0] && s[1..] == digits
    ensures sign == "" ==> s == digits && IsDigit(s[0])
    ensures s != ""
  {
    if sign == "" {
      assert s == digits;
    } else {
      assert s[1..] == digits;
    }
  }

  lemma ReadsNumeral(s: string, sign: string, digits: string)
    requires Numeral(s, sign, digits)
    ensures ParseInt(s) == Some(if sign == "-" then 0 - Number(digits) else Number(digits))
  {
    NumeralTrimmed(s, sign, digits);
    hide Number, Strip, Trimmed, AllDigits;
    TrimmedStays(s);
    SignAndDigits(s, sign, digits);
  }

  lemma NumeralRead(s: string)
    requires ParseInt(s).Some?
    ensures Names(Strip(s), ParseInt(s).value)
  {
    var t := Strip(s);
    var signed := t[0] == '-' || t[0] == '+';
    var sign, digits := if signed then t[..1] else "", if signed then t[1..] else t;
    assert t == sign + digits;
    hide Number, Strip;
    assert Numeral(t, sign, digits);
  }

  /** What stands between blanks is read as a number exactly when it is one written out, and as that one. */
  lemma ParseIntExactly(s: string, n: int)
    ensures ParseInt(s) == Some(n) <==> Names(Strip(s), n)
  {
    if ParseInt(s) == Some(n) {
      NumeralRead(s);
    }
    if Names(Strip(s), n) {
      var sign, digits :| Numeral(Strip(s), sign, digits) &&
        n == if sign == "-" then 0 - Number(digits) else Number(digits);
      ReadsNumeral(Strip(s), sign, digits);
      StripTwice(s);
    }
  }

  lemma StripTwice(s: string)
    ensures Strip(Strip(s)) == Strip(s) && ParseInt(Strip(s)) == ParseInt(s)
  {
    var front, back := StripMeans(s);
    hide Strip;
    TrimmedStays(Strip(s));
  }

  /** A number has its decimal numeral for a name, zeros before it or none, and no other without a sign. */
  lemma {:induction false} ZerosBefore(zeros: string, n: nat)
    requires forall i :: 0 <= i < |zeros| ==> zeros[i] == '0'
    ensures AllDigits(zeros + Decimal(n)) && Number(zeros + Decimal(n)) == n
  {
    DecimalRoundTrip(n);
    NumberZeros(zeros, Decimal(n));
  }

  lemma {:induction false} NumberZeros(zeros: string, d: string)
    requires (forall i :: 0 <= i < |zeros| ==> zeros[i] == '0') && AllDigits(d)
    ensures AllDigits(zeros + d) && Number(zeros + d) == Number(d)
    decreases |zeros| + |d|
  {
    var s := zeros + d;
    if d != "" {
      var e := d[..|d| - 1];
      assert s[..|s| - 1] == zeros + e;
      NumberZeros(zeros, e);
    } else if zeros != "" {
      assert s[..|s| - 1] == zeros[..|zeros| - 1] + d;
      NumberZeros(zeros[..|zeros| - 1], d);
    }
  }

  lemma DecimalNames(n: nat)
    ensures Names(Decimal(n), n)
  {
    var d := Decimal(n);
    DecimalRoundTrip(n);
    assert "" + d == d;
    hide Number;
    assert Numeral(d, "", d);
  }
}
