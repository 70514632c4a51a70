/** One code point in UTF-8: the encoder and the validating decoder. Shifts and masks are written as divisions and remainders. */
module Utf8 {
  import opened Prelude

  type byte = x: int | 0 <= x < 0x100
  type uint32 = x: int | 0 <= x < 0x1_0000_0000
  type Bytes = seq<byte>

  datatype Error = NotEnoughRoom | InvalidLead | IncompleteSequence | OverlongSequence | InvalidCodePoint

  /** A code point and the position after it, or the reason there is none. */
  datatype Decoded = Ok(cp: uint32, next: nat) | Err(error: Error)

  predicate IsTrail(b: byte)
  {
    b / 64 == 2
  }

  predicate IsSurrogate(cp: uint32)
  {
    0xd800 <= cp <= 0xdfff
  }

  predicate IsCodePointValid(cp: uint32)
  {
    cp <= 0x10ffff && !IsSurrogate(cp)
  }

  /** The length that the first byte announces; 0 if no sequence starts with it. */
  function SequenceLength(lead: byte): nat
  {
    if lead < 0x80 then 1
    else if lead / 32 == 0x6 then 2
    else if lead / 16 == 0xe then 3
    else if lead / 8 == 0x1e then 4
    else 0
  }

  predicate IsOverlong(cp: uint32, length: nat)
  {
    if cp < 0x80 then length != 1
    else if cp < 0x800 then length != 2
    else cp < 0x10000 && length != 3
  }

  // ----- what the bytes of a sequence stand for -----

  function Bits2(a: byte, b: byte): uint32
  {
    a * 64 % 0x800 + b % 64
  }

  function Bits3(a: byte, b: byte, c: byte): uint32
  {
    a * 0x1000 % 0x10000 + b * 64 % 0x1000 + c % 64
  }

  function Bits4(a: byte, b: byte, c: byte, d: byte): uint32
  {
    a * 0x40000 % 0x200000 + b * 0x1000 % 0x40000 + c * 64 % 0x1000 + d % 64
  }

  /** The first of the n - 1 bytes after pos that is missing or is no trail byte. */
  function TrailError(s: Bytes, pos: nat, n: nat): Option<Error>
    requires pos < |s| && n >= 1
    decreases n
  {
    if n == 1 then None
    else if TrailError(s, pos, n - 1).Some? then TrailError(s, pos, n - 1)
    else if pos + n - 1 >= |s| then Some(NotEnoughRoom)
    else if !IsTrail(s[pos + n - 1]) then Some(IncompleteSequence)
    else None
  }

  function BitsAt(s: Bytes, pos: nat, n: nat): uint32
    requires 1 <= n <= 4 && pos + n <= |s|
  {
    if n == 1 then s[pos]
    else if n == 2 then Bits2(s[pos], s[pos + 1])
    else if n == 3 then Bits3(s[pos], s[pos + 1], s[pos + 2])
    else Bits4(s[pos], s[pos + 1], s[pos + 2], s[pos + 3])
  }

  lemma {:induction false} TrailErrorNone(s: Bytes, pos: nat, n: nat)
    requires pos < |s| && n >= 1
    ensures TrailError(s, pos, n).None? <==> pos + n <= |s| && forall k :: pos < k < pos + n ==> IsTrail(s[k])
    decreases n
  {
    if n > 1 {
      TrailErrorNone(s, pos, n - 1);
    }
  }

  /** validate_next: the code point at pos. */
  function Decode(s: Bytes, pos: nat): (r: Decoded)
    requires pos < |s|
    ensures r.Ok? ==> pos < r.next <= |s| && IsCodePointValid(r.cp)
  {
    var n := SequenceLength(s[pos]);
    if n == 0 then Err(InvalidLead)
    else if TrailError(s, pos, n).Some? then Err(TrailError(s, pos, n).value)
    else
      TrailErrorNone(s, pos, n);
      var cp := BitsAt(s, pos, n);
      if !IsCodePointValid(cp) then Err(InvalidCodePoint)
      else if IsOverlong(cp, n) then Err(OverlongSequence)
      else Ok(cp, pos + n)
  }

  // ----- the decoder -----

  /** Step to the next byte, which must be a trail byte. */
  method IncreaseSafely(s: Bytes, it: nat) returns (next: nat, err: Option<Error>)
    requires it < |s|
    ensures next == it + 1
    ensures err == if it + 1 >= |s| then Some(NotEnoughRoom) else if !IsTrail(s[it + 1]) then Some(IncompleteSequence) else None
  {
    next := it + 1;
    if next == |s| {
      err := Some(NotEnoughRoom);
    } else if !IsTrail(s[next]) {
      err := Some(IncompleteSequence);
    } else {
      err := None;
    }
  }

  /** get_sequence_1 to get_sequence_4: the last byte's position and the bits. */
  method GetSequence(s: Bytes, it: nat, length: nat) returns (last: nat, cp: uint32, err: Option<Error>)
    requires it < |s| && 1 <= length <= 4
    ensures err == TrailError(s, it, length)
    ensures err.None? ==> last == it + length - 1 < |s| && cp == BitsAt(s, it, length)
  {
    last, cp, err := it, s[it], None;
    if length == 1 {
      return;
    }
    last, err := IncreaseSafely(s, last);
    if err.Some? {
      return;
    }
    if length == 2 {
      cp := cp * 64 % 0x800 + s[last] % 64;
      return;
    }
    if length == 3 {
      var b: int := s[last];
      cp := cp * 0x1000 % 0x10000 + b * 64 % 0x1000;
    } else {
      var b: int := s[last];
      cp := cp * 0x40000 % 0x200000 + b * 0x1000 % 0x40000;
      last, err := IncreaseSafely(s, last);
      if err.Some? {
        return;
      }
      var c: int := s[last];
      cp := cp + c * 64 % 0x1000;
    }
    last, err := IncreaseSafely(s, last);
    if err.Some? {
      return;
    }
    cp := cp + s[last] % 64;
  }

  /** The position is restored when there is no valid code point. */
  method ValidateNext(s: Bytes, it: nat) returns (next: nat, codePoint: uint32, err: Option<Error>)
    requires it < |s|
    ensures match Decode(s, it)
      case Ok(cp, n) => err == None && codePoint == cp && next == n
      case Err(e) => err == Some(e) && next == it
  {
    codePoint, next := 0, it;
    var length := SequenceLength(s[it]);
    if length == 0 {
      return next, codePoint, Some(InvalidLead);
    }
    var last, cp;
    last, cp, err := GetSequence(s, it, length);
    if err.None? {
      if IsCodePointValid(cp) {
        if !IsOverlong(cp, length) {
          codePoint, next := cp, last + 1;
          return;
        }
        err := Some(OverlongSequence);
      } else {
        err := Some(InvalidCodePoint);
      }
    }
  }

  // ----- the encoder -----

  function Encode(cp: uint32): (s: Bytes)
    requires IsCodePointValid(cp)
    ensures 1 <= |s| <= 4
  {
    if cp < 0x80 then [cp]
    else if cp < 0x800 then [cp / 64 + 0xc0, cp % 64 + 0x80]
    else if cp < 0x10000 then [cp / 0x1000 + 0xe0, cp / 64 % 64 + 0x80, cp % 64 + 0x80]
    else [cp / 0x40000 + 0xf0, cp / 0x1000 % 64 + 0x80, cp / 64 % 64 + 0x80, cp % 64 + 0x80]
  }

  /** append: none is the exception for an invalid code point. */
  method Append(cp: uint32, out: Bytes) returns (result: Option<Bytes>)
    ensures result == if IsCodePointValid(cp) then Some(out + Encode(cp)) else None
  {
    if !IsCodePointValid(cp) {
      return None;
    }
    var r := out;
    if cp < 0x80 {
      r := r + [cp];
    } else if cp < 0x800 {
      r := r + [cp / 64 + 0xc0];
      r := r + [cp % 64 + 0x80];
    } else if cp < 0x10000 {
      r := r + [cp / 0x1000 + 0xe0];
      r := r + [cp / 64 % 64 + 0x80];
      r := r + [cp % 64 + 0x80];
    } else {
      r := r + [cp / 0x40000 + 0xf0];
      r := r + [cp / 0x1000 % 64 + 0x80];
      r := r + [cp / 64 % 64 + 0x80];
      r := r + [cp % 64 + 0x80];
    }
    assert r == out + Encode(cp);
    result := Some(r);
  }

  // ----- section 4 of RFC 3629 -----

  predicate Tail(b: byte)
  {
    0x80 <= b <= 0xbf
  }

  lemma TailIsTrail(b: byte)
    ensures IsTrail(b) <==> Tail(b)
  {
  }

  predicate Utf8Char1(c: Bytes)
  {
    |c| == 1 && c[0] <= 0x7f
  }

  predicate Utf8Char2(c: Bytes)
  {
    |c| == 2 && 0xc2 <= c[0] <= 0xdf && Tail(c[1])
  }

  predicate Utf8Char3(c: Bytes)
  {
    |c| == 3 && Tail(c[2]) &&
    ((c[0] == 0xe0 && 0xa0 <= c[1] <= 0xbf) ||
     (0xe1 <= c[0] <= 0xec && Tail(c[1])) ||
     (c[0] == 0xed && 0x80 <= c[1] <= 0x9f) ||
     (0xee <= c[0] <= 0xef && Tail(c[1])))
  }

  predicate Utf8Char4(c: Bytes)
  {
    |c| == 4 && Tail(c[2]) && Tail(c[3]) &&
    ((c[0] == 0xf0 && 0x90 <= c[1] <= 0xbf) ||
     (0xf1 <= c[0] <= 0xf3 && Tail(c[1])) ||
     (c[0] == 0xf4 && 0x80 <= c[1] <= 0x8f))
  }

  /** The production UTF8-char. */
  predicate Utf8Char(c: Bytes)
  {
    Utf8Char1(c) || Utf8Char2(c) || Utf8Char3(c) || Utf8Char4(c)
  }

  // ----- the decoder accepts the grammar and undoes the encoder -----

  lemma Bits2Valid(a: byte, b: byte)
    requires a / 32 == 6 && IsTrail(b)
    ensures Bits2(a, b) == (a - 0xc0) * 64 + (b - 0x80) && Bits2(a, b) < 0x800
    ensures Bits2(a, b) / 64 == a - 0xc0 && Bits2(a, b) % 64 == b - 0x80
  {
  }

  /** The digits in base 64 of a number that is put together from them. */
  lemma DigitsOf(a: int, b: int, c: int, d: int)
    requires 0 <= a && 0 <= b < 64 && 0 <= c < 64 && 0 <= d < 64
    ensures var n := a * 0x40000 + b * 0x1000 + c * 64 + d;
      n % 64 == d && n / 64 == a * 0x1000 + b * 64 + c && n / 64 % 64 == c &&
      n / 0x1000 == a * 64 + b && n / 0x1000 % 64 == b && n / 0x40000 == a
  {
    var n, high := a * 0x40000 + b * 0x1000 + c * 64 + d, a * 64 + b;
    assert n % 64 == d && n / 64 == high * 64 + c by { LastDigit(n, high * 64 + c, d); }
    assert n / 64 % 64 == c by { LastDigit(n / 64, high, c); }
    assert n / 0x1000 == high by { Quotient(n, high, 0x1000, c * 64 + d); }
    assert high % 64 == b by { LastDigit(high, a, b); }
    assert n / 0x40000 == a by { Quotient(n, a, 0x40000, b * 0x1000 + c * 64 + d); }
  }

  lemma LastDigit(n: int, high: int, d: int)
    requires n == high * 64 + d && 0 <= d < 64
    ensures n / 64 == high && n % 64 == d
  {
  }

  lemma Quotient(n: int, q: int, m: int, r: int)
    requires n == q * m + r && 0 <= r < m && (m == 0x1000 || m == 0x40000)
    ensures n / m == q
  {
    if m == 0x1000 {
      assert n / 0x1000 == q;
    } else {
      assert n / 0x40000 == q;
    }
  }

  lemma Bits3Valid(a: byte, b: byte, c: byte)
    requires a / 16 == 0xe && IsTrail(b) && IsTrail(c)
    ensures Bits3(a, b, c) == (a - 0xe0) * 0x1000 + (b - 0x80) * 64 + (c - 0x80) && Bits3(a, b, c) < 0x10000
    ensures Bits3(a, b, c) / 0x1000 == a - 0xe0 && Bits3(a, b, c) / 64 % 64 == b - 0x80 && Bits3(a, b, c) % 64 == c - 0x80
  {
    LowBits3(a, b, c);
    DigitsOf(0, a - 0xe0, b - 0x80, c - 0x80);
    hide Bits3;
  }

  lemma LowBits3(a: byte, b: byte, c: byte)
    requires a / 16 == 0xe && IsTrail(b) && IsTrail(c)
    ensures Bits3(a, b, c) == (a - 0xe0) * 0x1000 + (b - 0x80) * 64 + (c - 0x80)
  {
    assert a * 0x1000 % 0x10000 == (a - 0xe0) * 0x1000;
    assert b * 64 % 0x1000 == (b - 0x80) * 64;
    assert c % 64 == c - 0x80;
  }

  lemma Bits4Valid(a: byte, b: byte, c: byte, d: byte)
    requires a / 8 == 0x1e && IsTrail(b) && IsTrail(c) && IsTrail(d)
    ensures Bits4(a, b, c, d) == (a - 0xf0) * 0x40000 + (b - 0x80) * 0x1000 + (c - 0x80) * 64 + (d - 0x80)
    ensures Bits4(a, b, c, d) / 0x40000 == a - 0xf0 && Bits4(a, b, c, d) / 0x1000 % 64 == b - 0x80
    ensures Bits4(a, b, c, d) / 64 % 64 == c - 0x80 && Bits4(a, b, c, d) % 64 == d - 0x80
  {
    LowBits4(a, b, c, d);
    DigitsOf(a - 0xf0, b - 0x80, c - 0x80, d - 0x80);
    hide Bits4;
  }

  lemma LowBits4(a: byte, b: byte, c: byte, d: byte)
    requires a / 8 == 0x1e && IsTrail(b) && IsTrail(c) && IsTrail(d)
    ensures Bits4(a, b, c, d) == (a - 0xf0) * 0x40000 + (b - 0x80) * 0x1000 + (c - 0x80) * 64 + (d - 0x80)
  {
    assert a * 0x40000 % 0x200000 == (a - 0xf0) * 0x40000;
    assert b * 0x1000 % 0x40000 == (b - 0x80) * 0x1000;
    assert c * 64 % 0x1000 == (c - 0x80) * 64;
    assert d % 64 == d - 0x80;
  }

  /** The announced length, and the grammar it belongs to. */
  lemma LeadOfChar(c: Bytes)
    requires Utf8Char(c)
    ensures SequenceLength(c[0]) == |c| && forall k :: 1 <= k < |c| ==> IsTrail(c[k])
  {
  }

  /** A sequence of n bytes with the right lead and trail bytes is a UTF8-char exactly when its bits pass both tests. */
  lemma GrammarByBits(s: Bytes, pos: nat, n: nat)
    requires pos < |s| && n == SequenceLength(s[pos]) && n > 0 && TrailError(s, pos, n).None? && pos + n <= |s|
    ensures Utf8Char(s[pos..pos + n]) <==> IsCodePointValid(BitsAt(s, pos, n)) && !IsOverlong(BitsAt(s, pos, n), n)
  {
    TrailErrorNone(s, pos, n);
    var c := s[pos..pos + n];
    hide TrailError, Bits2, Bits3, Bits4;
    if n == 2 {
      Grammar2(c);
    } else if n == 3 {
      Grammar3(c);
    } else if n == 4 {
      Grammar4(c);
    }
  }

  lemma Grammar2(c: Bytes)
    requires |c| == 2 && c[0] / 32 == 6 && IsTrail(c[1])
    ensures var cp := Bits2(c[0], c[1]); Utf8Char(c) <==> IsCodePointValid(cp) && !IsOverlong(cp, 2)
  {
    Bits2Valid(c[0], c[1]);
    hide Bits2;
  }

  lemma Grammar3(c: Bytes)
    requires |c| == 3 && c[0] / 16 == 0xe && IsTrail(c[1]) && IsTrail(c[2])
    ensures var cp := Bits3(c[0], c[1], c[2]); Utf8Char(c) <==> IsCodePointValid(cp) && !IsOverlong(cp, 3)
  {
    Bits3Valid(c[0], c[1], c[2]);
    hide Bits3;
  }

  lemma Grammar4(c: Bytes)
    requires |c| == 4 && c[0] / 8 == 0x1e && IsTrail(c[1]) && IsTrail(c[2]) && IsTrail(c[3])
    ensures var cp := Bits4(c[0], c[1], c[2], c[3]); Utf8Char(c) <==> IsCodePointValid(cp) && !IsOverlong(cp, 4)
  {
    Bits4Valid(c[0], c[1], c[2], c[3]);
    hide Bits4;
  }

  /** Acceptance is exactly the grammar, for any number of bytes. */
  lemma AcceptsGrammar(s: Bytes, pos: nat, n: nat)
    requires pos < |s| && pos + n <= |s|
    ensures Decode(s, pos).Ok? && Decode(s, pos).next == pos + n <==> Utf8Char(s[pos..pos + n])
  {
    hide Utf8Char, BitsAt;
    var m := SequenceLength(s[pos]);
    if m > 0 {
      TrailErrorNone(s, pos, m);
      if TrailError(s, pos, m).None? {
        GrammarByBits(s, pos, m);
      }
    }
    var c := s[pos..pos + n];
    CharNotEmpty(c);
    if Utf8Char(c) {
      LeadOfChar(c);
      assert c[0] == s[pos];
      assert forall k :: 1 <= k < |c| ==> c[k] == s[pos + k];
    }
  }

  lemma CharNotEmpty(c: Bytes)
    ensures Utf8Char(c) ==> |c| > 0
  {
  }

  /** What is decoded encodes to the same bytes. */
  lemma EncodeDecoded(s: Bytes, pos: nat)
    requires pos < |s| && Decode(s, pos).Ok?
    ensures Encode(Decode(s, pos).cp) == s[pos..Decode(s, pos).next]
  {
    var n := SequenceLength(s[pos]);
    TrailErrorNone(s, pos, n);
    hide TrailError;
    if n == 2 {
      Bits2Valid(s[pos], s[pos + 1]);
      hide Bits2;
    } else if n == 3 {
      Bits3Valid(s[pos], s[pos + 1], s[pos + 2]);
      hide Bits3;
    } else if n == 4 {
      Bits4Valid(s[pos], s[pos + 1], s[pos + 2], s[pos + 3]);
      hide Bits4;
    }
  }

  lemma Digits(cp: int)
    requires cp >= 0
    ensures cp == cp / 64 * 64 + cp % 64
    ensures cp / 64 == cp / 0x1000 * 64 + cp / 64 % 64
    ensures cp / 0x1000 == cp / 0x40000 * 64 + cp / 0x1000 % 64
  {
    assert cp / 64 / 64 == cp / 0x1000;
    assert cp / 0x1000 / 64 == cp / 0x40000;
  }

  lemma Encoded2(cp: uint32)
    requires 0x80 <= cp < 0x800
    ensures Utf8Char2(Encode(cp)) && BitsAt(Encode(cp), 0, 2) == cp
  {
    Bits2Valid(cp / 64 + 0xc0, cp % 64 + 0x80);
  }

  lemma Encoded3(cp: uint32)
    requires 0x800 <= cp < 0x10000 && IsCodePointValid(cp)
    ensures Utf8Char3(Encode(cp)) && BitsAt(Encode(cp), 0, 3) == cp
  {
    Digits(cp);
    LowBits3(cp / 0x1000 + 0xe0, cp / 64 % 64 + 0x80, cp % 64 + 0x80);
    hide Bits3;
  }

  lemma Encoded4(cp: uint32)
    requires 0x10000 <= cp <= 0x10ffff
    ensures Utf8Char4(Encode(cp)) && BitsAt(Encode(cp), 0, 4) == cp
  {
    Digits(cp);
    LeadOf4(cp);
    LowBits4(cp / 0x40000 + 0xf0, cp / 0x1000 % 64 + 0x80, cp / 64 % 64 + 0x80, cp % 64 + 0x80);
    hide Bits4;
  }

  /** The first two digits of a code point beyond the 16-bit ones. */
  lemma LeadOf4(cp: uint32)
    requires 0x10000 <= cp <= 0x10ffff
    ensures var a, b := cp / 0x40000, cp / 0x1000 % 64;
      a <= 4 && (a == 0 ==> b >= 16) && (a == 4 ==> b < 16)
  {
    Digits(cp);
    assert 16 <= cp / 0x1000 <= 0x10f;
  }

  /** What is encoded is a UTF8-char, with the bits of the code point. */
  lemma EncodedShape(cp: uint32)
    requires IsCodePointValid(cp)
    ensures Utf8Char(Encode(cp)) && BitsAt(Encode(cp), 0, |Encode(cp)|) == cp
  {
    if 0x80 <= cp < 0x800 {
      Encoded2(cp);
    } else if 0x800 <= cp < 0x10000 {
      Encoded3(cp);
    } else if 0x10000 <= cp {
      Encoded4(cp);
    }
    hide Utf8Char2, Utf8Char3, Utf8Char4, Bits2, Bits3, Bits4;
  }

  /** An encoded code point is decoded again, wherever it stands. */
  lemma DecodeEncoded(s: Bytes, pos: nat, cp: uint32)
    requires IsCodePointValid(cp) && pos + |Encode(cp)| <= |s| && s[pos..pos + |Encode(cp)|] == Encode(cp)
    ensures Decode(s, pos) == Ok(cp, pos + |Encode(cp)|)
  {
    var c := Encode(cp);
    EncodedShape(cp);
    AcceptsGrammar(s, pos, |c|);
    LeadOfChar(c);
    hide Encode, Utf8Char, Bits2, Bits3, Bits4;
    assert forall k :: 0 <= k < |c| ==> s[pos + k] == s[pos..pos + |c|][k] == c[k];
  }
}
