/** Size lines as senders write them, section 7.1 of RFC 9112: which lines name a size, and which. */
module ChunkLines {
  import opened Text
  import opened TextMeans
  import opened Chunked

  predicate Zeros(s: string) {
    forall i :: 0 <= i < |s| ==> s[i] == '0'
  }

  /** Nothing, or a chunk extension: a semicolon and anything. */
  predicate IsExtension(s: string) {
    s == "" || s[0] == ';'
  }

  /** A size line: blanks, zeros, the number's hexadecimal numeral in any letters, blanks, and perhaps an extension. */
  predicate Spelt(line: string, n: nat, front: string, zeros: string, numeral: string, back: string, ext: string) {
    && line == front + ((zeros + numeral) + back) + ext
    && Blanks(front) && Zeros(zeros) && SameWord(numeral, Hex(n)) && Blanks(back) && IsExtension(ext)
  }

  ghost predicate NamesSize(line: string, n: nat) {
    exists front, zeros, numeral, back, ext :: Spelt(line, n, front, zeros, numeral, back, ext)
  }

  // ----- hexadecimal numerals --------------------------------------------------------------------------

  lemma SameHexDigit(c: char, d: char)
    requires IsHex(d) && SameLetter(c, d)
    ensures IsHex(c) && HexDigit(c) == HexDigit(d)
  {
    SameLetterLower(c, d);
  }

  lemma {:induction false} SameHexNumber(s: string, t: string)
    requires SameWord(s, t) && AllHex(t)
    ensures AllHex(s) && HexNumber(s) == HexNumber(t)
  {
    hide *;
    NumberParts(t);
    SameFront(s, t);
    if s != "" {
      var n := |s| - 1;
      SameHexDigit(s[n], t[n]);
      SameHexNumber(s[..n], t[..n]);
      OneDigitMore(s);
    }
    NumberParts(s);
  }

  lemma SameFront(s: string, t: string)
    requires SameWord(s, t)
    ensures |s| == |t|
    ensures s != "" ==> SameLetter(s[|s| - 1], t[|s| - 1]) && SameWord(s[..|s| - 1], t[..|s| - 1])
  {
    hide SameLetter;
  }

  lemma OneDigitMore(s: string)
    requires s != "" && AllHex(s[..|s| - 1]) && IsHex(s[|s| - 1])
    ensures AllHex(s)
  {
    hide IsHex;
    assert s == s[..|s| - 1] + [s[|s| - 1]];
  }

  lemma NumberParts(s: string)
    ensures s == "" ==> AllHex(s) && HexNumber(s) == 0
    ensures s != "" && AllHex(s) ==>
              IsHex(s[|s| - 1]) && AllHex(s[..|s| - 1]) &&
              HexNumber(s) == 16 * HexNumber(s[..|s| - 1]) + HexDigit(s[|s| - 1])
  {
    hide IsHex, HexDigit;
  }

  lemma {:induction false} ZerosHex(zeros: string, s: string)
    requires Zeros(zeros) && AllHex(s)
    ensures AllHex(zeros + s) && HexNumber(zeros + s) == HexNumber(s)
    decreases |zeros| + |s|
  {
    var t := zeros + s;
    if s != "" {
      var e := s[..|s| - 1];
      assert t[..|t| - 1] == zeros + e;
      ZerosHex(zeros, e);
    } else if zeros != "" {
      assert t[..|t| - 1] == zeros[..|zeros| - 1] + s;
      ZerosHex(zeros[..|zeros| - 1], s);
    }
  }

  lemma HexNotBlank(c: char)
    ensures IsHex(c) ==> !IsBlank(c) && c != ';'
  {
  }

  lemma BlankNoSemicolon(s: string)
    ensures Blanks(s) || AllHex(s) ==> ';' !in s
  {
  }

  lemma NumeralIs(zeros: string, numeral: string, n: nat)
    requires Zeros(zeros) && SameWord(numeral, Hex(n))
    ensures var d := zeros + numeral; d != "" && AllHex(d) && HexNumber(d) == n && Trimmed(d)
  {
    hide Hex;
    SameHexNumber(numeral, Hex(n));
    HexRoundTrip(n);
    ZerosHex(zeros, numeral);
    var d := zeros + numeral;
    HexNotBlank(d[0]);
    HexNotBlank(d[|d| - 1]);
  }

  lemma BeforeExtension(s: string, ext: string)
    requires ';' !in s && IsExtension(ext)
    ensures Before(s + ext, ';') == s
  {
    if ext == "" {
      NoMore(s);
      BeforeAll(s, ';');
    } else {
      assert ext == [';'] + ext[1..];
      BeforeAfter(s, ';', ext[1..]);
    }
  }

  /** Any such line is read as its number. */
  lemma SpeltIsRead(line: string, n: nat, front: string, zeros: string, numeral: string, back: string, ext: string)
    requires Spelt(line, n, front, zeros, numeral, back, ext)
    ensures SizeOf(line) == Some(n)
  {
    var d := zeros + numeral;
    hide Hex, SameWord, Zeros, Blanks, AllHex, HexNumber, Strip, Trimmed;
    NumeralIs(zeros, numeral, n);
    BlankNoSemicolon(front);
    BlankNoSemicolon(d);
    BlankNoSemicolon(back);
    NoneOfThree(front, d, back);
    BeforeExtension(front + (d + back), ext);
    StripPadded(front, d, back);
  }

  lemma NoneOfThree(a: string, b: string, c: string)
    requires ';' !in a && ';' !in b && ';' !in c
    ensures ';' !in a + (b + c)
  {
  }

  // ----- and no other line ---------------------------------------------------------------------------------

  lemma HexLast(n: nat)
    ensures var h := Hex(n);
            h != "" && h[|h| - 1] == "0123456789abcdef"[n % 16] && (n >= 16 ==> h[..|h| - 1] == Hex(n / 16))
    ensures n < 16 ==> |Hex(n)| == 1
  {
  }

  lemma DigitSame(c: char)
    requires IsHex(c)
    ensures SameLetter(c, "0123456789abcdef"[HexDigit(c)])
  {
    SameLetterLower(c, "0123456789abcdef"[HexDigit(c)]);
  }

  /** A run of hexadecimal digits is zeros and the numeral of its number. */
  lemma {:induction false} DigitsSpell(d: string) returns (zeros: string, numeral: string)
    requires d != "" && AllHex(d)
    ensures d == zeros + numeral && Zeros(zeros) && SameWord(numeral, Hex(HexNumber(d)))
    decreases |d|
  {
    var n, last := HexNumber(d), d[|d| - 1];
    var front := d[..|d| - 1];
    hide *;
    NumberParts(d);
    DigitSame(last);
    HexLast(n);
    FrontAndLast(d);
    LastDigit(n, HexNumber(front), HexDigit(last));
    if n < 16 {
      NoValue(front);
      zeros, numeral := front, [last];
      OneSame(last, Hex(n));
    } else {
      EmptyNumber(front);
      var z, t := DigitsSpell(front);
      zeros, numeral := z, t + [last];
      Assoc(z, t, [last]);
      SameOneMore(t, Hex(n / 16), last, Hex(n));
    }
  }

  lemma FrontAndLast(d: string)
    requires d != ""
    ensures d == d[..|d| - 1] + [d[|d| - 1]]
  {
  }

  lemma LastDigit(n: nat, m: nat, v: nat)
    requires n == 16 * m + v && v < 16
    ensures n % 16 == v && n / 16 == m
  {
  }

  lemma OneSame(c: char, u: string)
    requires |u| == 1 && SameLetter(c, u[|u| - 1])
    ensures SameWord([c], u)
  {
  }

  lemma EmptyNumber(s: string)
    requires AllHex(s) && HexNumber(s) > 0
    ensures s != ""
  {
  }

  lemma SameOneMore(s: string, t: string, c: char, u: string)
    requires SameWord(s, t) && u != "" && u[..|u| - 1] == t && SameLetter(c, u[|u| - 1])
    ensures SameWord(s + [c], u)
  {
    hide SameLetter;
    assert u == t + [u[|u| - 1]];
  }

  lemma {:induction false} NoValue(s: string)
    requires AllHex(s) && HexNumber(s) == 0
    ensures Zeros(s)
  {
    if s != "" {
      NoValue(s[..|s| - 1]);
      assert HexDigit(s[|s| - 1]) == 0;
    }
  }

  /** A line is read as a size exactly when it names that size; any other is refused. */
  lemma SizeLineExactly(line: string, n: nat)
    ensures SizeOf(line) == Some(n) <==> NamesSize(line, n)
  {
    if NamesSize(line, n) {
      var front, zeros, numeral, back, ext :| Spelt(line, n, front, zeros, numeral, back, ext);
      SpeltIsRead(line, n, front, zeros, numeral, back, ext);
    }
    if SizeOf(line) == Some(n) {
      ReadIsSpelt(line, n);
    }
  }

  lemma ReadIsSpelt(line: string, n: nat)
    requires SizeOf(line) == Some(n)
    ensures NamesSize(line, n)
  {
    var head := Before(line, ';');
    var front, back := StripMeans(head);
    hide Strip, Hex, HexNumber, AllHex, Blanks, Zeros, SameWord;
    var zeros, numeral := DigitsSpell(Strip(head));
    var ext := line[|head|..];
    HeadAndExtension(line, head);
    assert Spelt(line, n, front, zeros, numeral, back, ext);
  }

  lemma HeadAndExtension(line: string, head: string)
    requires head == Before(line, ';')
    ensures |head| <= |line| && line == head + line[|head|..] && IsExtension(line[|head|..])
  {
  }
}
