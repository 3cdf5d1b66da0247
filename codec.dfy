/**
 * The serialisation capability the store is built on.
 *
 * The store keeps only payload strings and re-decodes them on every read, asking
 * for the type the caller names. This module is a small concrete stand-in for that
 * capability: a value is an integer or a text, an integer is written in canonical
 * decimal and a text between double quotes. Decoding is asked for a `Kind`, the
 * type the caller requests, and yields `None` when the payload is not the encoding
 * of a value of that kind (a type mismatch or a malformed payload).
 */
module Codec {
  import opened Wrappers

  datatype Value = Int(i: int) | Text(s: string)

  /** The type a reader asks for when decoding a payload. */
  datatype Kind = IntKind | TextKind

  function KindOf(v: Value): Kind
  {
    match v
    case Int(_) => IntKind
    case Text(_) => TextKind
  }

  predicate IsDigit(c: char)
  {
    '0' <= c <= '9'
  }

  predicate AllDigits(d: string)
  {
    forall i :: 0 <= i < |d| ==> IsDigit(d[i])
  }

  /** A decimal numeral without superfluous leading zeros. */
  predicate Canonical(d: string)
  {
    |d| > 0 && AllDigits(d) && (|d| > 1 ==> d[0] != '0')
  }

  function DigitChar(n: nat): (c: char)
    requires n < 10
    ensures IsDigit(c)
  {
    ('0' as int + n) as char
  }

  function DigitValue(c: char): (n: nat)
    requires IsDigit(c)
    ensures n < 10 && DigitChar(n) == c
  {
    c as int - '0' as int
  }

  /** The decimal numeral of `n`. */
  function NatDigits(n: nat): (d: string)
    ensures Canonical(d)
    ensures d[0] == '0' <==> n == 0
  {
    if n < 10 then [DigitChar(n)] else NatDigits(n / 10) + [DigitChar(n % 10)]
  }

  /** The number a string of decimal digits denotes. */
  function DigitsValue(d: string): nat
    requires AllDigits(d)
  {
    if |d| == 0 then 0 else DigitsValue(d[..|d| - 1]) * 10 + DigitValue(d[|d| - 1])
  }

  lemma {:induction false} DigitsValueOfNatDigits(n: nat)
    ensures DigitsValue(NatDigits(n)) == n
  {
    if n >= 10 {
      var d := NatDigits(n);
      assert d[..|d| - 1] == NatDigits(n / 10);
      DigitsValueOfNatDigits(n / 10);
    }
  }

  /** A numeral with a leading digit other than zero denotes a positive number. */
  lemma {:induction false} DigitsValuePositive(d: string)
    requires |d| > 0 && AllDigits(d) && d[0] != '0'
    ensures DigitsValue(d) > 0
  {
    if |d| > 1 {
      DigitsValuePositive(d[..|d| - 1]);
    }
  }

  lemma {:induction false} NatDigitsOfDigitsValue(d: string)
    requires Canonical(d)
    ensures NatDigits(DigitsValue(d)) == d
  {
    if |d| > 1 {
      var init := d[..|d| - 1];
      DigitsValuePositive(init);
      NatDigitsOfDigitsValue(init);
      assert d == init + [d[|d| - 1]];
    }
  }

  function Encode(v: Value): (s: string)
    ensures |s| > 0
  {
    match v
    case Int(i) => if i < 0 then "-" + NatDigits(-i) else NatDigits(i)
    case Text(t) => "\"" + t + "\""
  }

  /**
   * Reads `s` as a value of the requested kind. Only the encoding of a value of
   * that kind is accepted.
   */
  function Decode(s: string, kind: Kind): (r: Option<Value>)
    ensures r.Some? ==> KindOf(r.value) == kind && Encode(r.value) == s
  {
    match kind
    case IntKind =>
      if |s| > 1 && s[0] == '-' && Canonical(s[1..]) && s[1] != '0' then
        NatDigitsOfDigitsValue(s[1..]);
        DigitsValuePositive(s[1..]);
        Some(Int(-(DigitsValue(s[1..]) as int)))
      else if Canonical(s) then
        NatDigitsOfDigitsValue(s);
        Some(Int(DigitsValue(s)))
      else
        None
    case TextKind =>
      if |s| >= 2 && s[0] == '"' && s[|s| - 1] == '"' then
        assert s == "\"" + s[1..|s| - 1] + "\"";
        Some(Text(s[1..|s| - 1]))
      else
        None
  }

  /** Decoding an encoding gives the value back when asked for its own kind, and nothing otherwise. */
  lemma DecodeEncode(v: Value, kind: Kind)
    ensures Decode(Encode(v), kind) == if kind == KindOf(v) then Some(v) else None
  {
    var s := Encode(v);
    match v
    case Int(i) =>
      if i < 0 {
        assert s[1..] == NatDigits(-i);
        DigitsValueOfNatDigits(-i);
      } else {
        DigitsValueOfNatDigits(i);
      }
      assert s[0] == '-' || IsDigit(s[0]);
    case Text(t) =>
      assert s[1..|s| - 1] == t;
      assert !IsDigit(s[0]);
  }

  /** Decoding is exactly the inverse of encoding, restricted to the requested kind. */
  lemma DecodeIff(s: string, kind: Kind, v: Value)
    ensures Decode(s, kind) == Some(v) <==> s == Encode(v) && KindOf(v) == kind
  {
    if s == Encode(v) {
      DecodeEncode(v, kind);
    }
  }

  /** Two values with the same payload are the same value. */
  lemma EncodeInjective(v: Value, w: Value)
    requires Encode(v) == Encode(w)
    ensures v == w
  {
    DecodeEncode(v, KindOf(v));
    DecodeEncode(w, KindOf(v));
  }

  /** The payloads of `vs`, in order. */
  function EncodeAll(vs: seq<Value>): (ps: seq<string>)
    ensures |ps| == |vs|
    ensures forall i :: 0 <= i < |vs| ==> ps[i] == Encode(vs[i])
  {
    if vs == [] then [] else [Encode(vs[0])] + EncodeAll(vs[1..])
  }
}
