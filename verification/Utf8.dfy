/** What well-formed UTF-8 is: the concatenated encodings of Unicode scalar values. */
module Utf8 {
  import opened Arith
  import opened Bytes
  import opened WireTypes

  /** A code point that is no surrogate. */
  predicate Scalar(c: nat) {
    c < 0xd800 || 0xe000 <= c < 0x11_0000
  }

  predicate Scalars(cs: seq<nat>) {
    forall i :: 0 <= i < |cs| ==> Scalar(cs[i])
  }

  /** The encoding form of table 3-6 of the Unicode Standard. */
  function Form(c: nat): (r: seq<u8>)
    requires Scalar(c)
    ensures 1 <= |r| <= 4
  {
    if c < 0x80 then [c]
    else if c < 0x800 then [0xc0 + c / 0x40, 0x80 + c % 0x40]
    else if c < 0x1_0000 then [0xe0 + c / 0x1000, 0x80 + c / 0x40 % 0x40, 0x80 + c % 0x40]
    else [0xf0 + c / 0x4_0000, 0x80 + c / 0x1000 % 0x40, 0x80 + c / 0x40 % 0x40, 0x80 + c % 0x40]
  }

  function Forms(cs: seq<nat>): seq<u8>
    requires Scalars(cs)
  {
    if cs == [] then [] else Form(cs[0]) + Forms(cs[1..])
  }

  /** One scalar value in front neither makes a string well formed nor spoils it. */
  lemma OneForm(c: nat, rest: seq<u8>)
    requires Scalar(c)
    ensures ValidUtf8(Form(c) + rest) <==> ValidUtf8(rest)
  {
    var s, n := Form(c) + rest, |Form(c)|;
    assert s[n..] == rest;
    assert forall i :: 0 <= i < n ==> s[i] == Form(c)[i];
  }

  lemma FormOfTwo(a: u8, b: u8) returns (c: nat)
    requires 0xc2 <= a < 0xe0 && 0x80 <= b < 0xc0
    ensures Scalar(c) && Form(c) == [a, b]
  {
    var high: int, low: int := a, b;
    c := (high - 0xc0) * 0x40 + (low - 0x80);
    DivModOf(c, 0x40, high - 0xc0, low - 0x80);
  }

  lemma FormOfThree(a: u8, b: u8, d: u8) returns (c: nat)
    requires 0xe0 <= a < 0xf0 && SecondOfThree(a, b) && 0x80 <= d < 0xc0
    ensures Scalar(c) && Form(c) == [a, b, d]
  {
    var x: int, y: int, z: int := a - 0xe0, b - 0x80, d - 0x80;
    c := (x * 0x40 + y) * 0x40 + z;
    DivModOf(c, 0x40, x * 0x40 + y, z);
    DivModOf(c, 0x1000, x, y * 0x40 + z);
    DivModOf(x * 0x40 + y, 0x40, x, y);
  }

  lemma FormOfFour(a: u8, b: u8, d: u8, e: u8) returns (c: nat)
    requires 0xf0 <= a < 0xf5 && SecondOfFour(a, b) && 0x80 <= d < 0xc0 && 0x80 <= e < 0xc0
    ensures Scalar(c) && Form(c) == [a, b, d, e]
  {
    var w: int, x: int, y: int, z: int := a - 0xf0, b - 0x80, d - 0x80, e - 0x80;
    c := ((w * 0x40 + x) * 0x40 + y) * 0x40 + z;
    DivModOf(c, 0x40, (w * 0x40 + x) * 0x40 + y, z);
    DivModOf((w * 0x40 + x) * 0x40 + y, 0x40, w * 0x40 + x, y);
    DivModOf(c, 0x1000, w * 0x40 + x, y * 0x40 + z);
    DivModOf(w * 0x40 + x, 0x40, w, x);
    DivModOf(c, 0x4_0000, w, (x * 0x40 + y) * 0x40 + z);
  }

  /** A well-formed string starts with the encoding of a scalar value. */
  lemma FirstForm(s: seq<u8>) returns (c: nat)
    requires ValidUtf8(s) && s != []
    ensures Scalar(c) && Form(c) <= s
  {
    hide Form;
    if s[0] < 0x80 {
      c := s[0];
      OneByte(s[0]);
    } else if s[0] < 0xe0 {
      c := FormOfTwo(s[0], s[1]);
    } else if s[0] < 0xf0 {
      c := FormOfThree(s[0], s[1], s[2]);
    } else {
      c := FormOfFour(s[0], s[1], s[2], s[3]);
    }
  }

  lemma OneByte(b: u8)
    requires b < 0x80
    ensures Scalar(b) && Form(b) == [b]
  {
  }

  lemma {:induction false} Decoded(s: seq<u8>) returns (cs: seq<nat>)
    requires ValidUtf8(s)
    ensures Scalars(cs) && Forms(cs) == s
    decreases |s|
  {
    hide ValidUtf8, Form;
    if s == [] {
      cs := [];
    } else {
      var c := FirstForm(s);
      var rest := s[|Form(c)|..];
      assert s == Form(c) + rest;
      OneForm(c, rest);
      var tail := Decoded(rest);
      cs := [c] + tail;
      assert cs[1..] == tail;
    }
  }

  lemma {:induction false} FormsValid(cs: seq<nat>)
    requires Scalars(cs)
    ensures ValidUtf8(Forms(cs))
  {
    if cs != [] {
      FormsValid(cs[1..]);
      OneForm(cs[0], Forms(cs[1..]));
    }
  }

  /** The check accepts exactly the encodings of strings of scalar values. */
  lemma Utf8Meaning(s: seq<u8>)
    ensures ValidUtf8(s) <==> exists cs :: Scalars(cs) && Forms(cs) == s
  {
    hide ValidUtf8, Forms;
    if ValidUtf8(s) {
      var cs := Decoded(s);
    }
    if cs :| Scalars(cs) && Forms(cs) == s {
      FormsValid(cs);
    }
  }
}
