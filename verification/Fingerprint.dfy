/** `fingerprint` of scripts/differential_probe.py: the bytes it hashes, and what they determine. */
module Fingerprint {
  import opened Text
  import opened TextMeans

  datatype Header = Header(name: string, value: string)

  /** What the echo saw besides the method and the body's length, the hex already undone. */
  datatype Seen = Seen(requestUri: string, protocol: string, headers: seq<Header>)

  /** `b"%d:" % len(raw) + raw`. */
  function Field(raw: string): string {
    Decimal(|raw|) + ":" + raw
  }

  function HeaderFields(headers: seq<Header>): string {
    if headers == [] then ""
    else Field(Lower(headers[0].name)) + Field(headers[0].value) + HeaderFields(headers[1..])
  }

  /** Every byte the digest is given. */
  function Preimage(seen: Seen): string {
    Field(seen.requestUri) + Field(seen.protocol) + HeaderFields(seen.headers)
  }

  /** The digest's input, grown field by field. */
  method Hashed(seen: Seen) returns (digest: string)
    ensures digest == Preimage(seen)
  {
    digest := Field(seen.requestUri);
    digest := digest + Field(seen.protocol);
    ghost var whole := Preimage(seen);
    for i := 0 to |seen.headers|
      invariant digest + HeaderFields(seen.headers[i..]) == whole
    {
      var h := seen.headers[i];
      assert seen.headers[i..][0] == h && seen.headers[i..][1..] == seen.headers[i + 1..];
      Regroup(digest, Field(Lower(h.name)), Field(h.value), HeaderFields(seen.headers[i + 1..]));
      digest := digest + Field(Lower(h.name));
      digest := digest + Field(h.value);
    }
    assert digest + "" == digest;
  }

  lemma Regroup(a: string, b: string, c: string, d: string)
    ensures a + (b + c + d) == a + b + c + d
  {
  }

  // ----- the pre-image determines the request --------------------------------------

  /** The same request line and the same headers in the same order, names up to ASCII case. */
  predicate SameRequest(a: Seen, b: Seen) {
    a.requestUri == b.requestUri && a.protocol == b.protocol && SameHeaders(a.headers, b.headers)
  }

  predicate SameHeaders(a: seq<Header>, b: seq<Header>) {
    && |a| == |b|
    && forall i :: 0 <= i < |a| ==> SameWord(a[i].name, b[i].name) && a[i].value == b[i].value
  }

  /** A field is its length in decimal, a colon, and itself. */
  lemma FieldsWritten()
    ensures Field("") == "0:" && Field("Host") == "4:Host" && Field("0123456789") == "10:0123456789"
  {
    assert Decimal(0) == "0" && Decimal(4) == "4" && Decimal(1) == "1";
    assert Decimal(10) == "10";
  }

  /** A field at the head of a text is read off it in one way only, whatever follows. */
  lemma FieldUnique(x: string, y: string, r: string, s: string)
    requires Field(x) + r == Field(y) + s
    ensures x == y && r == s
  {
    assert Field(x) + r == Decimal(|x|) + [':'] + (x + r);
    assert Field(y) + s == Decimal(|y|) + [':'] + (y + s);
    DecimalPrefix(|x|, |y|, ':', ':', x + r, y + s);
    assert (x + r)[..|x|] == x && (y + s)[..|x|] == y;
    assert (x + r)[|x|..] == r && (y + s)[|x|..] == s;
  }

  lemma {:induction false} HeaderFieldsUnique(a: seq<Header>, b: seq<Header>)
    requires HeaderFields(a) == HeaderFields(b)
    ensures SameHeaders(a, b)
    decreases |a|
  {
    if a != [] && b != [] {
      var ra, rb := HeaderFields(a[1..]), HeaderFields(b[1..]);
      Assoc(Field(Lower(a[0].name)), Field(a[0].value), ra);
      Assoc(Field(Lower(b[0].name)), Field(b[0].value), rb);
      FieldUnique(Lower(a[0].name), Lower(b[0].name), Field(a[0].value) + ra, Field(b[0].value) + rb);
      FieldUnique(a[0].value, b[0].value, ra, rb);
      HeaderFieldsUnique(a[1..], b[1..]);
      LowerMeans(a[0].name, b[0].name);
      hide SameWord;
      assert forall i :: 0 < i < |a| ==> a[i] == a[1..][i - 1] && b[i] == b[1..][i - 1];
    }
  }

  lemma {:induction false} HeaderFieldsSame(a: seq<Header>, b: seq<Header>)
    requires SameHeaders(a, b)
    ensures HeaderFields(a) == HeaderFields(b)
    decreases |a|
  {
    hide SameWord, Field;
    if a != [] {
      LowerMeans(a[0].name, b[0].name);
      HeaderFieldsSame(a[1..], b[1..]);
    }
  }

  /** Two requests hash the same bytes exactly when they are the same request, for header lists of any
      length and fields of any content, digits and colons included. */
  lemma PreimageInjective(a: Seen, b: Seen)
    ensures Preimage(a) == Preimage(b) <==> SameRequest(a, b)
  {
    Assoc(Field(a.requestUri), Field(a.protocol), HeaderFields(a.headers));
    Assoc(Field(b.requestUri), Field(b.protocol), HeaderFields(b.headers));
    if Preimage(a) == Preimage(b) {
      FieldUnique(a.requestUri, b.requestUri,
                  Field(a.protocol) + HeaderFields(a.headers), Field(b.protocol) + HeaderFields(b.headers));
      FieldUnique(a.protocol, b.protocol, HeaderFields(a.headers), HeaderFields(b.headers));
      HeaderFieldsUnique(a.headers, b.headers);
    }
    if SameRequest(a, b) {
      HeaderFieldsSame(a.headers, b.headers);
    }
  }
}
