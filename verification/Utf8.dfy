/**
 UTF-8 as the chart digest relies on it (scripts/chart-content-digest.ts): a file is read as text
 only when encoding the text gives back the very same bytes.
 */
module Utf8 {
  import opened Wrappers

  type Bytes = seq<int>

  function EncodeScalar(n: int): Bytes {
    if n < 0x80 then [n]
    else if n < 0x800 then [0xC0 + n / 64, 0x80 + n % 64]
    else if n < 0x1_0000 then [0xE0 + n / 4096, 0x80 + n / 64 % 64, 0x80 + n % 64]
    else [0xF0 + n / 262144, 0x80 + n / 4096 % 64, 0x80 + n / 64 % 64, 0x80 + n % 64]
  }

  function Encode(t: string): Bytes {
    if t == [] then [] else EncodeScalar(t[0] as int) + Encode(t[1..])
  }

  /** The scalar a leading byte and its continuation bytes spell; -1 for a truncated sequence. */
  function LeadingScalar(b: Bytes): int
    requires b != []
  {
    if b[0] < 0xC0 then b[0]
    else if b[0] < 0xE0 then (if |b| < 2 then -1 else (b[0] - 0xC0) * 64 + (b[1] - 0x80))
    else if b[0] < 0xF0 then
      (if |b| < 3 then -1 else (b[0] - 0xE0) * 4096 + (b[1] - 0x80) * 64 + (b[2] - 0x80))
    else
      (if |b| < 4 then -1 else (b[0] - 0xF0) * 262144 + (b[1] - 0x80) * 4096 + (b[2] - 0x80) * 64 + (b[3] - 0x80))
  }

  predicate IsScalar(n: int) { 0 <= n < 0xD800 || 0xE000 <= n < 0x11_0000 }

  /** Strict decoding: overlong forms, surrogates and stray bytes are refused. */
  function Decode(b: Bytes): Option<string>
    decreases |b|
  {
    if b == [] then Some([]) else
      var n := LeadingScalar(b);
      if !IsScalar(n) || !(EncodeScalar(n) <= b) then None else
        var rest := Decode(b[|EncodeScalar(n)|..]);
        if rest.None? then None else Some([n as char] + rest.value)
  }

  lemma Sextets(n: nat)
    ensures n / 4096 == n / 64 / 64 && n / 262144 == n / 64 / 64 / 64
    ensures n == n / 64 * 64 + n % 64
    ensures n / 64 == n / 4096 * 64 + n / 64 % 64
    ensures n / 4096 == n / 262144 * 64 + n / 4096 % 64
  {
  }

  lemma LeadingScalarOf(n: int, rest: Bytes)
    requires IsScalar(n)
    ensures LeadingScalar(EncodeScalar(n) + rest) == n
  {
    Sextets(n);
    if n < 0x80 { LeadingOne(n, rest); }
    else if n < 0x800 { LeadingTwo(n / 64, n % 64, rest); }
    else if n < 0x1_0000 { LeadingThree(n / 4096, n / 64 % 64, n % 64, rest); }
    else { LeadingFour(n / 262144, n / 4096 % 64, n / 64 % 64, n % 64, rest); }
  }

  lemma LeadingOne(a: int, rest: Bytes)
    requires a < 0xC0
    ensures LeadingScalar([a] + rest) == a
  {
  }

  lemma LeadingTwo(a: int, b: int, rest: Bytes)
    requires 0 <= a < 0x20
    ensures LeadingScalar([0xC0 + a, 0x80 + b] + rest) == a * 64 + b
  {
  }

  lemma LeadingThree(a: int, b: int, c: int, rest: Bytes)
    requires 0 <= a < 0x10
    ensures LeadingScalar([0xE0 + a, 0x80 + b, 0x80 + c] + rest) == a * 4096 + b * 64 + c
  {
  }

  lemma LeadingFour(a: int, b: int, c: int, d: int, rest: Bytes)
    requires 0 <= a
    ensures LeadingScalar([0xF0 + a, 0x80 + b, 0x80 + c, 0x80 + d] + rest) == a * 262144 + b * 4096 + c * 64 + d
  {
  }

  lemma {:induction false} DecodeEncode(t: string)
    ensures Decode(Encode(t)) == Some(t)
  {
    if t != [] {
      var n := t[0] as int;
      LeadingScalarOf(n, Encode(t[1..]));
      DecodeEncode(t[1..]);
      assert Encode(t)[|EncodeScalar(n)|..] == Encode(t[1..]);
      assert t == [n as char] + t[1..];
    }
  }

  lemma {:induction false} EncodeDecode(b: Bytes)
    requires Decode(b).Some?
    ensures Encode(Decode(b).value) == b
    decreases |b|
  {
    hide LeadingScalar, EncodeScalar;
    if b != [] {
      var n := LeadingScalar(b);
      assert EncodeScalar(n) != [] by { ScalarNonEmpty(n); }
      var rest := b[|EncodeScalar(n)|..];
      EncodeDecode(rest);
      var t := Decode(b).value;
      assert t[0] == n as char && t[1..] == Decode(rest).value;
      assert b == EncodeScalar(n) + rest;
    }
  }

  lemma ScalarNonEmpty(n: int)
    ensures EncodeScalar(n) != []
  {
  }

  /** A file has a text exactly when some text encodes to its bytes, and then only one. */
  lemma DecodesExactly(b: Bytes, t: string)
    ensures Decode(b) == Some(t) <==> Encode(t) == b
  {
    DecodeEncode(t);
    if Decode(b) == Some(t) { EncodeDecode(b); }
  }

  lemma {:induction false} EncodeConcat(a: string, b: string)
    ensures Encode(a + b) == Encode(a) + Encode(b)
  {
    hide EncodeScalar;
    if a == [] {
      assert a + b == b;
    } else {
      assert (a + b)[1..] == a[1..] + b;
      EncodeConcat(a[1..], b);
    }
  }

  /** ASCII text takes one byte a character. */
  lemma {:induction false} EncodeAscii(t: string)
    requires forall i :: 0 <= i < |t| ==> t[i] as int < 0x80
    ensures |Encode(t)| == |t| && forall i :: 0 <= i < |t| ==> Encode(t)[i] == t[i] as int
  {
    if t != [] { EncodeAscii(t[1..]); }
  }
}
