/** Strings as the scripts use them: searching, trimming, splitting and numerals.
    A byte string is modelled as a string with one character a byte (latin-1), which is how
    the scripts themselves read a head. */
module Text {
  datatype Option<+T> = None | Some(value: T)

  const CRLF := "\r\n"
  const BLANK_LINE := "\r\n\r\n"

  /** `pat` stands in `s` at index `i`. */
  predicate OccursAt(s: string, pat: string, i: nat) {
    i + |pat| <= |s| && s[i..i + |pat|] == pat
  }

  /** `s.find(pat, from)`: the first occurrence at or after `from`. */
  function Find(s: string, pat: string, from: nat): (r: Option<nat>)
    ensures r.Some? ==> from <= r.value && OccursAt(s, pat, r.value)
    decreases |s| - from
  {
    if OccursAt(s, pat, from) then Some(from)
    else if from >= |s| then None
    else Find(s, pat, from + 1)
  }

  /** Nothing stands before the place `Find` returns, or anywhere when it returns None. */
  lemma {:induction false} FindFirst(s: string, pat: string, from: nat)
    ensures var r := Find(s, pat, from);
            forall j: nat :: from <= j && (r.Some? ==> j < r.value) ==> !OccursAt(s, pat, j)
    decreases |s| - from
  {
    if !OccursAt(s, pat, from) && from < |s| {
      FindFirst(s, pat, from + 1);
    } else if from >= |s| && !OccursAt(s, pat, from) {
      assert forall j: nat :: from <= j && OccursAt(s, pat, j) ==> j == from;
    }
  }

  /** Searching again after more text has arrived finds the same place. */
  lemma FindExtend(s: string, more: string, pat: string, from: nat)
    requires Find(s, pat, from).Some?
    ensures Find(s + more, pat, from) == Find(s, pat, from)
  {
    FindFirst(s, pat, from);
    var i := Find(s, pat, from).value;
    assert (s + more)[i..i + |pat|] == s[i..i + |pat|];
    forall j: nat | from <= j < i
      ensures !OccursAt(s + more, pat, j)
    {
      assert !OccursAt(s, pat, j);
      assert (s + more)[j..j + |pat|] == s[j..j + |pat|];
    }
    FindIs(s + more, pat, from, i);
  }

  lemma OccursStart(s: string, pat: string, i: nat)
    requires pat != "" && OccursAt(s, pat, i)
    ensures i < |s| && s[i] == pat[0] && s[i + |pat| - 1] == pat[|pat| - 1]
  {
    var t := s[i..i + |pat|];
    assert t[0] == s[i] && t[|pat| - 1] == s[i + |pat| - 1];
  }

  /** An occurrence with none before it is the one `Find` returns. */
  lemma FindIs(s: string, pat: string, from: nat, i: nat)
    requires from <= i && OccursAt(s, pat, i)
    requires forall j: nat :: from <= j < i ==> !OccursAt(s, pat, j)
    ensures Find(s, pat, from) == Some(i)
  {
    FindFirst(s, pat, from);
  }

  /** Searching from `from` is searching what follows `from`. */
  lemma FindShift(s: string, pat: string, from: nat)
    requires from <= |s|
    ensures Find(s, pat, from).None? <==> Find(s[from..], pat, 0).None?
    ensures Find(s, pat, from).Some? ==> Find(s, pat, from).value == from + Find(s[from..], pat, 0).value
  {
    FindFirst(s, pat, from);
    FindFirst(s[from..], pat, 0);
    var t := s[from..];
    forall j: nat | j + |pat| <= |t|
      ensures OccursAt(t, pat, j) == OccursAt(s, pat, from + j)
    {
      assert t[j..j + |pat|] == s[from + j..from + j + |pat|];
    }
    if Find(t, pat, 0).Some? {
      var i := Find(t, pat, 0).value;
      forall k: nat | from <= k < from + i
        ensures !OccursAt(s, pat, k)
      {
        assert !OccursAt(t, pat, k - from);
      }
      FindIs(s, pat, from, from + i);
    } else {
      forall k: nat | from <= k
        ensures !OccursAt(s, pat, k)
      {
        assert !OccursAt(t, pat, k - from);
      }
    }
  }

  /** `line + CRLF` is read back as `line` when `line` holds no CRLF of its own. */
  lemma FindLineEnd(line: string, more: string)
    requires Find(line, CRLF, 0).None?
    ensures Find(line + CRLF + more, CRLF, 0) == Some(|line|)
  {
    FindFirst(line, CRLF, 0);
    var s := line + CRLF + more;
    assert s[|line|..|line| + 2] == CRLF;
    forall j: nat | j < |line|
      ensures !OccursAt(s, CRLF, j)
    {
      assert !OccursAt(line, CRLF, j);
      assert s[j] == s[j..j + 2][0] && s[j + 1] == s[j..j + 2][1];
      assert j + 1 < |line| ==> line[j..j + 2] == s[j..j + 2];
    }
    FindIs(s, CRLF, 0, |line|);
  }

  /** A line cut before the LF that ends it holds no CRLF yet. */
  lemma FindCutLine(line: string, more: string, k: nat)
    requires Find(line, CRLF, 0).None?
    requires k < |line| + 2
    ensures Find((line + CRLF + more)[..k], CRLF, 0).None?
  {
    var s := line + CRLF + more;
    var t := s[..k];
    FindLineEnd(line, more);
    assert s == t + s[k..];
    if Find(t, CRLF, 0).Some? {
      FindExtend(t, s[k..], CRLF, 0);
    }
  }

  /** Text and the marker that ends it, cut at `k`: the marker is found exactly when all of it has
      arrived, given that nothing before the end looks like it. */
  lemma FindMarkerCut(text: string, marker: string, more: string, k: nat)
    requires Find(text + marker, marker, 0) == Some(|text|)
    requires k <= |text| + |marker| + |more|
    ensures Find((text + marker + more)[..k], marker, 0) ==
              if k < |text| + |marker| then None else Some(|text|)
  {
    var s := text + marker + more;
    var t := s[..k];
    FindExtend(text + marker, more, marker, 0);
    assert s == t + s[k..];
    if Find(t, marker, 0).Some? {
      FindExtend(t, s[k..], marker, 0);
    } else if k >= |text| + |marker| {
      assert t == (text + marker) + more[..k - |text| - |marker|];
      FindExtend(text + marker, more[..k - |text| - |marker|], marker, 0);
    }
  }

  /** The part of `s` before its first `c`, or all of it: `s.split(c)[0]`. */
  function Before(s: string, c: char): (r: string)
    ensures r <= s && c !in r && (r == s || s[|r|] == c)
  {
    if s == "" || s[0] == c then "" else [s[0]] + Before(s[1..], c)
  }

  /** The part of `s` after its first `c`, or nothing. */
  function After(s: string, c: char): string {
    var b := Before(s, c);
    if |b| == |s| then "" else s[|b| + 1..]
  }

  /** `s.split(pat)` for a non-empty separator. */
  function Split(s: string, pat: string): (r: seq<string>)
    requires pat != ""
    ensures |r| >= 1
    decreases |s|
  {
    match Find(s, pat, 0)
    case None => [s]
    case Some(i) => [s[..i]] + Split(s[i + |pat|..], pat)
  }

  predicate White(c: char) {
    c == ' ' || c == '\t' || c == '\n' || c == '\r' || c == '\U{0B}' || c == '\U{0C}'
  }

  /** `s.strip()` over ASCII white space. */
  function Strip(s: string): (r: string)
    ensures r != "" ==> !White(r[0]) && !White(r[|r| - 1])
    ensures |r| <= |s|
    decreases |s|
  {
    if s == "" then ""
    else if White(s[0]) then Strip(s[1..])
    else if White(s[|s| - 1]) then Strip(s[..|s| - 1])
    else s
  }

  function LowerChar(c: char): char {
    if 'A' <= c <= 'Z' then (c as int + 32) as char else c
  }

  /** `s.lower()` over ASCII letters. */
  function Lower(s: string): (r: string)
    ensures |r| == |s|
    ensures forall i :: 0 <= i < |s| ==> r[i] == LowerChar(s[i])
  {
    if s == "" then "" else [LowerChar(s[0])] + Lower(s[1..])
  }

  /** `\w`, over ASCII. */
  predicate IsWord(c: char) {
    'a' <= c <= 'z' || 'A' <= c <= 'Z' || '0' <= c <= '9' || c == '_'
  }

  /** One string after another. */
  function Concat(parts: seq<string>): string {
    if parts == [] then "" else parts[0] + Concat(parts[1..])
  }

  lemma Assoc(a: string, b: string, c: string)
    ensures (a + b) + c == a + (b + c)
  {
  }

  lemma AppendSlices(s: string, more: string, i: nat, j: nat)
    requires i <= j <= |s|
    ensures (s + more)[..i] == s[..i] && (s + more)[j..] == s[j..] + more
  {
  }

  lemma {:induction false} ConcatAppend(a: seq<string>, b: seq<string>)
    ensures Concat(a + b) == Concat(a) + Concat(b)
  {
    if a == [] {
      assert a + b == b;
    } else {
      assert (a + b)[0] == a[0] && (a + b)[1..] == a[1..] + b;
      ConcatAppend(a[1..], b);
    }
  }

  // ----- hexadecimal -----------------------------------------------------------

  predicate IsHex(c: char) {
    '0' <= c <= '9' || 'a' <= c <= 'f' || 'A' <= c <= 'F'
  }

  predicate AllHex(s: string) {
    forall i :: 0 <= i < |s| ==> IsHex(s[i])
  }

  function HexDigit(c: char): (d: nat)
    requires IsHex(c)
    ensures d < 16
  {
    if '0' <= c <= '9' then c as int - '0' as int
    else if 'a' <= c <= 'f' then c as int - 'a' as int + 10
    else c as int - 'A' as int + 10
  }

  function HexNumber(s: string): nat
    requires AllHex(s)
  {
    if s == "" then 0 else 16 * HexNumber(s[..|s| - 1]) + HexDigit(s[|s| - 1])
  }

  /** `int(s, 16)` on plain hexadecimal digits, white space around them ignored. */
  function ParseHex(s: string): Option<nat> {
    var t := Strip(s);
    if t != "" && AllHex(t) then Some(HexNumber(t)) else None
  }

  /** `b"%x" % n`. */
  function Hex(n: nat): (s: string)
    ensures s != "" && AllHex(s)
  {
    (if n < 16 then "" else Hex(n / 16)) + ["0123456789abcdef"[n % 16]]
  }

  lemma {:induction false} HexRoundTrip(n: nat)
    ensures HexNumber(Hex(n)) == n
  {
    var s := Hex(n);
    assert HexDigit(s[|s| - 1]) == n % 16;
    if n < 16 {
      assert s[..|s| - 1] == "";
    } else {
      assert s[..|s| - 1] == Hex(n / 16);
      HexRoundTrip(n / 16);
    }
  }

  // ----- decimal ---------------------------------------------------------------

  predicate IsDigit(c: char) {
    '0' <= c <= '9'
  }

  predicate AllDigits(s: string) {
    forall i :: 0 <= i < |s| ==> IsDigit(s[i])
  }

  /** The number a run of decimal digits names. */
  function Number(s: string): nat
    requires AllDigits(s)
  {
    if s == "" then 0 else 10 * Number(s[..|s| - 1]) + (s[|s| - 1] as int - '0' as int)
  }

  /** `b"%d" % n`. */
  function Decimal(n: nat): (s: string)
    ensures s != "" && AllDigits(s)
  {
    (if n < 10 then "" else Decimal(n / 10)) + ["0123456789"[n % 10]]
  }

  /** `int(s)` on an optional sign and plain decimal digits, white space around them ignored. */
  function ParseInt(s: string): Option<int> {
    var t := Strip(s);
    if t != "" && t[0] == '-' && t[1..] != "" && AllDigits(t[1..]) then Some(0 - (Number(t[1..]) as int))
    else
      var d := if t != "" && t[0] == '+' then t[1..] else t;
      if d != "" && AllDigits(d) then Some(Number(d) as int) else None
  }

  lemma {:induction false} DecimalRoundTrip(n: nat)
    ensures Number(Decimal(n)) == n
  {
    var s := Decimal(n);
    assert s[|s| - 1] as int - '0' as int == n % 10;
    if n < 10 {
      assert s[..|s| - 1] == "";
    } else {
      assert s[..|s| - 1] == Decimal(n / 10);
      DecimalRoundTrip(n / 10);
    }
  }

  /** Two numerals, each followed by something that is no digit, are told apart by reading on. */
  lemma DecimalPrefix(m: nat, n: nat, c: char, d: char, x: string, y: string)
    requires !IsDigit(c) && !IsDigit(d)
    requires Decimal(m) + [c] + x == Decimal(n) + [d] + y
    ensures m == n && c == d && x == y
  {
    var s, t := Decimal(m), Decimal(n);
    var u, v := s + [c] + x, t + [d] + y;
    assert u[|s|] == c && v[|t|] == d;
    assert forall i :: 0 <= i < |s| ==> u[i] == s[i];
    assert forall i :: 0 <= i < |t| ==> v[i] == t[i];
    assert |s| == |t|;
    assert s == u[..|s|] == t;
    assert c == u[|s|] == d;
    assert x == u[|s| + 1..] == y;
    DecimalRoundTrip(m);
    DecimalRoundTrip(n);
  }
}
