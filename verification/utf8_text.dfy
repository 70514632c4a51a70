/** UTF-8 text: finding and replacing what is invalid, stepping back, and converting from and to UTF-16 and UTF-32. */
module Utf8Text {
  import opened Prelude
  import opened Utf8

  datatype Exception = NoRoom | InvalidUtf8(octet: byte) | InvalidPoint(cp: uint32) | InvalidUtf16(word: nat)
  datatype Result<+T> = Value(value: T) | Throws(exception: Exception)

  // ----- whole texts -----

  /** The production UTF8-octets: any number of UTF8-chars. */
  ghost predicate Utf8Octets(s: Bytes)
    decreases |s|
  {
    s == [] || exists n :: 1 <= n <= |s| && Utf8Char(s[..n]) && Utf8Octets(s[n..])
  }

  predicate Scalars(cps: seq<uint32>)
  {
    forall i :: 0 <= i < |cps| ==> IsCodePointValid(cps[i])
  }

  function EncodeAll(cps: seq<uint32>): Bytes
    requires Scalars(cps)
  {
    if cps == [] then [] else Encode(cps[0]) + EncodeAll(cps[1..])
  }

  /** The code points from pos on, as far as there are any, and where they end. */
  function DecodeFrom(s: Bytes, pos: nat): (r: (seq<uint32>, nat))
    requires pos <= |s|
    ensures pos <= r.1 <= |s|
    decreases |s| - pos
  {
    if pos == |s| then ([], pos)
    else
      match Decode(s, pos)
      case Ok(cp, next) => var (more, end) := DecodeFrom(s, next); ([cp] + more, end)
      case Err(_) => ([], pos)
  }

  /** find_invalid: the first position where there is no code point, or the end. */
  method FindInvalid(s: Bytes) returns (result: nat)
    ensures result == DecodeFrom(s, 0).1
  {
    result := 0;
    while result != |s|
      invariant result <= |s| && DecodeFrom(s, result).1 == DecodeFrom(s, 0).1
      decreases |s| - result
    {
      var err, cp;
      result, cp, err := ValidateNext(s, result);
      if err.Some? {
        return;
      }
    }
  }

  lemma {:induction false} DecodedScalars(s: Bytes, pos: nat)
    requires pos <= |s|
    ensures Scalars(DecodeFrom(s, pos).0) && EncodeAll(DecodeFrom(s, pos).0) == s[pos..DecodeFrom(s, pos).1]
    decreases |s| - pos
  {
    hide Decode, Encode, IsCodePointValid;
    if pos < |s| && Decode(s, pos).Ok? {
      var cp, next := Decode(s, pos).cp, Decode(s, pos).next;
      EncodeDecoded(s, pos);
      DecodedScalars(s, next);
      var (more, end) := DecodeFrom(s, next);
      assert DecodeFrom(s, pos) == ([cp] + more, end);
      assert ([cp] + more)[1..] == more;
      assert s[pos..end] == s[pos..next] + s[next..end];
    }
  }

  /** What is found where decoding stops. */
  lemma {:induction false} DecodeStops(s: Bytes, pos: nat)
    requires pos <= |s|
    ensures DecodeFrom(s, pos).1 < |s| ==> Decode(s, DecodeFrom(s, pos).1).Err?
    decreases |s| - pos
  {
    if pos < |s| && Decode(s, pos).Ok? {
      DecodeStops(s, Decode(s, pos).next);
    }
  }

  /** Encoded text is decoded to the code points it was made of. */
  lemma {:induction false} DecodeEncodedAll(pre: Bytes, cps: seq<uint32>)
    requires Scalars(cps)
    ensures DecodeFrom(pre + EncodeAll(cps), |pre|) == (cps, |pre + EncodeAll(cps)|)
    decreases |cps|
  {
    hide Decode, Encode;
    var s := pre + EncodeAll(cps);
    if cps != [] {
      var c, rest := Encode(cps[0]), EncodeAll(cps[1..]);
      assert s == pre + c + rest;
      assert s[|pre|..|pre| + |c|] == c;
      DecodeEncoded(s, |pre|, cps[0]);
      DecodeEncodedAll(pre + c, cps[1..]);
      assert [cps[0]] + cps[1..] == cps;
    }
  }

  lemma {:induction false} EncodedOctets(cps: seq<uint32>)
    requires Scalars(cps)
    ensures Utf8Octets(EncodeAll(cps))
    decreases |cps|
  {
    if cps != [] {
      var c, rest := Encode(cps[0]), EncodeAll(cps[1..]);
      EncodedShape(cps[0]);
      EncodedOctets(cps[1..]);
      var s := c + rest;
      assert s[..|c|] == c && s[|c|..] == rest;
      hide Encode, Utf8Char, EncodeAll;
      assert 1 <= |c| <= |s| && Utf8Char(s[..|c|]) && Utf8Octets(s[|c|..]);
    }
  }

  lemma {:induction false} OctetsDecode(s: Bytes, pos: nat)
    requires pos <= |s| && Utf8Octets(s[pos..])
    ensures DecodeFrom(s, pos).1 == |s|
    decreases |s| - pos
  {
    hide Decode, Utf8Char;
    var t := s[pos..];
    if t != [] {
      var n :| 1 <= n <= |t| && Utf8Char(t[..n]) && Utf8Octets(t[n..]);
      assert t[..n] == s[pos..pos + n] && t[n..] == s[pos + n..];
      AcceptsGrammar(s, pos, n);
      OctetsDecode(s, pos + n);
    }
  }

  /**
   The text before the position that find_invalid reports is valid, and no code point starts there; so the
   whole text is accepted if and only if it has the grammar of section 4 of RFC 3629.
   */
  lemma FindInvalidIff(s: Bytes)
    ensures var r := DecodeFrom(s, 0).1;
      Utf8Octets(s[..r]) && (r < |s| ==> Decode(s, r).Err?) && (r == |s| <==> Utf8Octets(s))
  {
    DecodedScalars(s, 0);
    DecodeStops(s, 0);
    var (cps, r) := DecodeFrom(s, 0);
    EncodedOctets(cps);
    assert s[0..r] == s[..r];
    assert s[0..] == s && s[..|s|] == s;
    if Utf8Octets(s) {
      OctetsDecode(s, 0);
    }
  }

  /** Decoding and encoding undo each other, on all scalar values and all valid texts. */
  lemma CodecRoundTrip(s: Bytes, cps: seq<uint32>)
    requires Scalars(cps)
    ensures s == EncodeAll(cps) <==> DecodeFrom(s, 0) == (cps, |s|)
  {
    DecodeEncodedAll([], cps);
    assert [] + EncodeAll(cps) == EncodeAll(cps);
    DecodedScalars(s, 0);
    assert s[0..|s|] == s;
  }

  // ----- replacing -----

  function SkipTrails(s: Bytes, pos: nat): (r: nat)
    requires pos <= |s|
    ensures pos <= r <= |s|
    decreases |s| - pos
  {
    if pos < |s| && IsTrail(s[pos]) then SkipTrails(s, pos + 1) else pos
  }

  /** Where reading goes on after an error at pos. */
  function Resume(s: Bytes, pos: nat, e: Error): (r: nat)
    requires pos < |s|
    ensures pos < r <= |s|
  {
    if e == InvalidLead then pos + 1 else SkipTrails(s, pos + 1)
  }

  /** replace_invalid from pos on: one replacement for every sequence that is invalid. */
  function Replaced(s: Bytes, pos: nat, replacement: uint32): Result<Bytes>
    requires pos <= |s|
    decreases |s| - pos
  {
    if pos == |s| then Value([])
    else
      match Decode(s, pos)
      case Ok(_, next) => Prepend(s[pos..next], Replaced(s, next, replacement))
      case Err(NotEnoughRoom) => Throws(NoRoom)
      case Err(e) =>
        if !IsCodePointValid(replacement) then Throws(InvalidPoint(replacement))
        else Prepend(Encode(replacement),
                     Replaced(s, Resume(s, pos, e), replacement))
  }

  function Prepend(a: Bytes, r: Result<Bytes>): Result<Bytes>
  {
    match r
    case Value(b) => Value(a + b)
    case Throws(_) => r
  }

  lemma PrependTwice(a: Bytes, b: Bytes, r: Result<Bytes>)
    ensures Prepend(a, Prepend(b, r)) == Prepend(a + b, r)
  {
    if r.Value? {
      assert a + (b + r.value) == a + b + r.value;
    }
  }

  lemma PrependNothing(r: Result<Bytes>)
    ensures Prepend([], r) == r
  {
    if r.Value? {
      assert [] + r.value == r.value;
    }
  }

  method ReplaceInvalid(s: Bytes, replacement: uint32) returns (result: Result<Bytes>)
    ensures result == Replaced(s, 0, replacement)
  {
    hide Decode, Encode, Replaced;
    var start, out: Bytes := 0, [];
    ReplacedStep(s, |s|, replacement);
    PrependNothing(Replaced(s, 0, replacement));
    while start != |s|
      invariant start <= |s| && Replaced(s, 0, replacement) == Prepend(out, Replaced(s, start, replacement))
      decreases |s| - start
    {
      var sequenceStart := start;
      ReplacedStep(s, start, replacement);
      var err, cp;
      start, cp, err := ValidateNext(s, start);
      if err == None {
        PrependTwice(out, s[sequenceStart..start], Replaced(s, start, replacement));
        out := out + s[sequenceStart..start];
      } else if err == Some(NotEnoughRoom) {
        return Throws(NoRoom);
      } else {
        var more := Utf8.Append(replacement, out);
        if more.None? {
          return Throws(InvalidPoint(replacement));
        }
        ghost var before := out;
        out := more.value;
        start := start + 1;
        if err != Some(InvalidLead) {
          while start != |s| && IsTrail(s[start])
            invariant start <= |s| && SkipTrails(s, start) == SkipTrails(s, sequenceStart + 1)
            decreases |s| - start
          {
            start := start + 1;
          }
        }
        PrependTwice(before, Encode(replacement), Replaced(s, start, replacement));
      }
    }
    result := Value(out);
    assert out + [] == out;
  }

  lemma ReplacedStep(s: Bytes, pos: nat, replacement: uint32)
    requires pos <= |s|
    ensures pos == |s| ==> Replaced(s, pos, replacement) == Value([])
    ensures pos < |s| && Decode(s, pos).Ok? ==>
      var next := Decode(s, pos).next;
      Replaced(s, pos, replacement) == Prepend(s[pos..next], Replaced(s, next, replacement))
    ensures pos < |s| && Decode(s, pos) == Err(NotEnoughRoom) ==> Replaced(s, pos, replacement) == Throws(NoRoom)
    ensures pos < |s| && Decode(s, pos).Err? && Decode(s, pos).error != NotEnoughRoom ==>
      var next := Resume(s, pos, Decode(s, pos).error);
      if IsCodePointValid(replacement)
      then Replaced(s, pos, replacement) == Prepend(Encode(replacement), Replaced(s, next, replacement))
      else Replaced(s, pos, replacement) == Throws(InvalidPoint(replacement))
  {
    hide Decode, Encode;
  }

  lemma {:induction false} OctetsAppend(a: Bytes, b: Bytes)
    requires Utf8Octets(a) && Utf8Octets(b)
    ensures Utf8Octets(a + b)
    decreases |a|
  {
    hide Utf8Char;
    if a == [] {
      assert a + b == b;
    } else {
      var n :| 1 <= n <= |a| && Utf8Char(a[..n]) && Utf8Octets(a[n..]);
      OctetsAppend(a[n..], b);
      var s := a + b;
      assert s[..n] == a[..n] && s[n..] == a[n..] + b;
      FirstThenOctets(s, n);
    }
  }

  lemma FirstThenOctets(s: Bytes, n: nat)
    requires 1 <= n <= |s| && Utf8Char(s[..n]) && Utf8Octets(s[n..])
    ensures Utf8Octets(s)
  {
    hide Utf8Char;
  }

  lemma OneOctets(c: Bytes)
    requires Utf8Char(c)
    ensures Utf8Octets(c)
  {
    CharNotEmpty(c);
    hide Utf8Char;
    assert c[..|c|] == c && c[|c|..] == [];
  }

  /** Whatever the input, the output is valid UTF-8 when nothing is thrown. */
  lemma {:induction false} ReplacedIsValid(s: Bytes, pos: nat, replacement: uint32)
    requires pos <= |s|
    ensures Replaced(s, pos, replacement).Value? ==> Utf8Octets(Replaced(s, pos, replacement).value)
    decreases |s| - pos
  {
    hide Decode, Encode, Utf8Char, Utf8Octets;
    EmptyOctets();
    if pos < |s| {
      match Decode(s, pos)
      case Ok(_, next) =>
        AcceptsGrammar(s, pos, next - pos);
        OneOctets(s[pos..next]);
        ReplacedIsValid(s, next, replacement);
        if Replaced(s, next, replacement).Value? {
          OctetsAppend(s[pos..next], Replaced(s, next, replacement).value);
        }
      case Err(e) =>
        var next := Resume(s, pos, e);
        if IsCodePointValid(replacement) {
          EncodedShape(replacement);
          OneOctets(Encode(replacement));
          ReplacedIsValid(s, next, replacement);
          if Replaced(s, next, replacement).Value? {
            OctetsAppend(Encode(replacement), Replaced(s, next, replacement).value);
          }
        }
    }
  }

  lemma EmptyOctets()
    ensures Utf8Octets([])
  {
  }

  /** Valid text is left alone, and never throws. */
  lemma {:induction false} ReplacedIsIdentity(s: Bytes, pos: nat, replacement: uint32)
    requires pos <= |s| && DecodeFrom(s, pos).1 == |s|
    ensures Replaced(s, pos, replacement) == Value(s[pos..])
    decreases |s| - pos
  {
    hide Decode, Encode;
    assert s[|s|..] == [];
    if pos < |s| {
      DecodeStops(s, pos);
      if Decode(s, pos).Ok? {
        var next := Decode(s, pos).next;
        ReplacedIsIdentity(s, next, replacement);
        assert s[pos..next] + s[next..] == s[pos..];
      }
    }
  }

  // ----- one code point forward and back -----

  /** next: what is thrown tells the byte, but of an invalid code point it only tells 0. */
  function NextPoint(s: Bytes, pos: nat): Result<(uint32, nat)>
    requires pos < |s|
  {
    match Decode(s, pos)
    case Ok(cp, next) => Value((cp, next))
    case Err(NotEnoughRoom) => Throws(NoRoom)
    case Err(InvalidCodePoint) => Throws(InvalidPoint(0))
    case Err(_) => Throws(InvalidUtf8(s[pos]))
  }

  method Next(s: Bytes, it: nat) returns (result: Result<uint32>, after: nat)
    requires it < |s|
    ensures match NextPoint(s, it)
      case Value((cp, n)) => result == Value(cp) && after == n
      case Throws(e) => result == Throws(e) && after == it
  {
    var cp, err;
    after, cp, err := ValidateNext(s, it);
    match err {
      case None => result := Value(cp);
      case Some(NotEnoughRoom) => result := Throws(NoRoom);
      case Some(InvalidCodePoint) => result := Throws(InvalidPoint(0));
      case Some(_) => result := Throws(InvalidUtf8(s[it]));
    }
  }

  /** Back over trail bytes to a lead byte; the position of `first`, or the byte at `first` if that is a trail byte, too. */
  function BackToLead(s: Bytes, it: nat, first: nat): (r: Result<nat>)
    requires first < it <= |s|
    ensures r.Value? ==> first <= r.value < it
    decreases it
  {
    if !IsTrail(s[it - 1]) then Value(it - 1)
    else if it - 1 == first then Throws(InvalidUtf8(s[first]))
    else BackToLead(s, it - 1, first)
  }

  /** prior: the code point before `it`, and where it starts. */
  method Prior(s: Bytes, it: nat, first: nat) returns (result: Result<uint32>, start: nat)
    requires first <= it <= |s|
    ensures it == first ==> result == Throws(NoRoom)
    ensures it > first ==>
      match BackToLead(s, it, first)
      case Throws(e) => result == Throws(e)
      case Value(lead) =>
        start == lead &&
        match NextPoint(s[..it], lead)
        case Value((cp, _)) => result == Value(cp)
        case Throws(e) => result == Throws(e)
  {
    start := it;
    if it == first {
      return Throws(NoRoom), start;
    }
    start := start - 1;
    while IsTrail(s[start])
      invariant first <= start < it && BackToLead(s, start + 1, first) == BackToLead(s, it, first)
      decreases start
    {
      if start == first {
        return Throws(InvalidUtf8(s[start])), start;
      }
      start := start - 1;
    }
    var ignored;
    result, ignored := Next(s[..it], start);
  }

  /** Where prior stops: at the last byte before `it` that is no trail byte, or nowhere. */
  lemma {:induction false} BackToLeadIff(s: Bytes, it: nat, first: nat, lead: nat)
    requires first < it <= |s|
    ensures BackToLead(s, it, first) == Value(lead) <==>
      first <= lead < it && !Tail(s[lead]) && forall k :: lead < k < it ==> Tail(s[k])
    ensures (forall k :: first <= k < it ==> Tail(s[k])) ==> BackToLead(s, it, first) == Throws(InvalidUtf8(s[first]))
    decreases it
  {
    hide IsTrail, Tail;
    TailIsTrail(s[it - 1]);
    if it - 1 > first {
      BackToLeadIff(s, it - 1, first, lead);
    }
  }

  lemma {:induction false} BackOverTrails(s: Bytes, it: nat, first: nat, lead: nat)
    requires first <= lead < it <= |s| && !IsTrail(s[lead]) && forall k :: lead < k < it ==> IsTrail(s[k])
    ensures BackToLead(s, it, first) == Value(lead)
    decreases it
  {
    if it - 1 > lead {
      BackOverTrails(s, it - 1, first, lead);
    }
  }

  lemma LeadIsNoTrail(c: Bytes)
    requires Utf8Char(c)
    ensures !IsTrail(c[0]) && forall k :: 0 < k < |c| ==> IsTrail(c[k])
  {
  }

  /** After a code point of the text, prior steps back over exactly that code point: the one next read there. */
  lemma PriorUndoesNext(s: Bytes, first: nat, pos: nat)
    requires first <= pos < |s| && Decode(s, pos).Ok?
    ensures var (cp, next) := (Decode(s, pos).cp, Decode(s, pos).next);
      NextPoint(s, pos) == Value((cp, next)) &&
      BackToLead(s, next, first) == Value(pos) && NextPoint(s[..next], pos) == Value((cp, next))
  {
    var next := Decode(s, pos).next;
    var c, t := s[pos..next], s[..next];
    AcceptsGrammar(s, pos, next - pos);
    EncodeDecoded(s, pos);
    LeadIsNoTrail(c);
    hide Utf8Char, Encode, Decode;
    assert s[pos] == c[0] && forall k :: pos < k < next ==> s[k] == c[k - pos];
    BackOverTrails(s, next, first, pos);
    assert t[pos..next] == c;
    DecodeEncoded(t, pos, Decode(s, pos).cp);
  }

  // ----- UTF-32 and UTF-16 -----

  method Utf32To8(cps: seq<uint32>) returns (result: Result<Bytes>)
    ensures Scalars(cps) ==> result == Value(EncodeAll(cps))
    ensures !Scalars(cps) ==>
      exists i :: 0 <= i < |cps| && Scalars(cps[..i]) && !IsCodePointValid(cps[i]) && result == Throws(InvalidPoint(cps[i]))
  {
    hide Encode;
    var out: Bytes := [];
    var i := 0;
    while i != |cps|
      invariant i <= |cps| && Scalars(cps[..i]) && out == EncodeAll(cps[..i])
    {
      var r := Utf8.Append(cps[i], out);
      if r.None? {
        return Throws(InvalidPoint(cps[i]));
      }
      EncodeSnoc(cps[..i], cps[i]);
      assert cps[..i + 1] == cps[..i] + [cps[i]];
      out := r.value;
      i := i + 1;
    }
    assert cps[..|cps|] == cps;
    result := Value(out);
  }

  lemma {:induction false} EncodeSnoc(cps: seq<uint32>, cp: uint32)
    requires Scalars(cps) && IsCodePointValid(cp)
    ensures Scalars(cps + [cp]) && EncodeAll(cps + [cp]) == EncodeAll(cps) + Encode(cp)
    decreases |cps|
  {
    hide Encode;
    var all := cps + [cp];
    if cps == [] {
      assert all[1..] == [];
      assert EncodeAll(all) == Encode(cp) + EncodeAll([]);
    } else {
      assert all[1..] == cps[1..] + [cp];
      EncodeSnoc(cps[1..], cp);
    }
  }

  lemma JoinNothing(a: seq<uint32>)
    ensures [] + a == a && a + [] == a
  {
  }

  lemma JoinTwice(a: seq<uint32>, cp: uint32, b: seq<uint32>)
    ensures a + ([cp] + b) == a + [cp] + b
  {
  }

  method Utf8To32(s: Bytes) returns (result: Result<seq<uint32>>)
    ensures result.Value? <==> DecodeFrom(s, 0).1 == |s|
    ensures result.Value? ==> result.value == DecodeFrom(s, 0).0
    ensures result.Throws? ==> Thrown(s, result.exception)
  {
    hide Decode;
    var out: seq<uint32>, start := [], 0;
    JoinNothing(DecodeFrom(s, 0).0);
    while start != |s|
      invariant start <= |s| && DecodeFrom(s, 0) == (out + DecodeFrom(s, start).0, DecodeFrom(s, start).1)
      decreases |s| - start
    {
      var r, after := Next(s, start);
      if r.Throws? {
        return Throws(r.exception);
      }
      JoinTwice(out, r.value, DecodeFrom(s, after).0);
      out := out + [r.value];
      start := after;
    }
    assert out + [] == out;
    result := Value(out);
  }

  /** What next throws where decoding stops. */
  predicate Thrown(s: Bytes, e: Exception)
  {
    var stop := DecodeFrom(s, 0).1;
    stop < |s| && NextPoint(s, stop).Throws? && NextPoint(s, stop).exception == e
  }

  type Words = seq<nat>

  /** Section 2.1 of RFC 2781: code points above 0xffff become a pair of surrogates. */
  function Utf16Units(cp: uint32): Words
  {
    if cp > 0xffff then [cp / 0x400 + 0xd7c0, cp % 0x400 + 0xdc00] else [cp]
  }

  function Utf16All(cps: seq<uint32>): Words
  {
    if cps == [] then [] else Utf16Units(cps[0]) + Utf16All(cps[1..])
  }

  predicate LeadSurrogate(w: nat)
  {
    0xd800 <= w <= 0xdbff
  }

  predicate TrailSurrogate(w: nat)
  {
    0xdc00 <= w <= 0xdfff
  }

  /** Section 2.2 of RFC 2781; the sum wraps around in 32 bits. */
  function FromPair(lead: nat, trail: nat): uint32
  {
    (lead * 0x400 + trail + 0x10000 - 0xd800 * 0x400 - 0xdc00) % 0x1_0000_0000
  }

  /** The code points of UTF-16 text; none if a surrogate stands alone. */
  function FromUtf16(ws: Words, pos: nat): Option<seq<uint32>>
    requires pos <= |ws| && forall i :: 0 <= i < |ws| ==> ws[i] <= 0xffff
    decreases |ws| - pos
  {
    if pos == |ws| then Some([])
    else if LeadSurrogate(ws[pos]) then
      if pos + 1 < |ws| && TrailSurrogate(ws[pos + 1]) then
        (match FromUtf16(ws, pos + 2)
         case None => None
         case Some(more) => Some([FromPair(ws[pos], ws[pos + 1])] + more))
      else None
    else if TrailSurrogate(ws[pos]) then None
    else
      match FromUtf16(ws, pos + 1)
      case None => None
      case Some(more) => Some([ws[pos]] + more)
  }

  /** A surrogate that is not part of a pair. */
  predicate StandsAlone(ws: Words, i: nat)
    requires i < |ws|
  {
    TrailSurrogate(ws[i]) || (LeadSurrogate(ws[i]) && !(i + 1 < |ws| && TrailSurrogate(ws[i + 1])))
  }

  /** The unit that the exception names: what stands where the second half of a pair should be, if anything does. */
  function Offender(ws: Words, i: nat): nat
    requires i < |ws|
  {
    if LeadSurrogate(ws[i]) && i + 1 < |ws| then ws[i + 1] else ws[i]
  }

  /** The pair of a code point as section 2.1 of RFC 2781 makes it: ten bits each of what exceeds 0xffff. */
  lemma PairOfRfc(cp: uint32)
    requires 0xffff < cp <= 0x10ffff
    ensures var u := cp - 0x10000; Utf16Units(cp) == [0xd800 + u / 0x400, 0xdc00 + u % 0x400]
  {
  }

  lemma SurrogatesUndo(cp: uint32)
    requires 0x10000 <= cp <= 0x10ffff
    ensures LeadSurrogate(cp / 0x400 + 0xd7c0) && TrailSurrogate(cp % 0x400 + 0xdc00)
    ensures FromPair(cp / 0x400 + 0xd7c0, cp % 0x400 + 0xdc00) == cp
  {
  }

  lemma PairUndone(lead: nat, trail: nat)
    requires LeadSurrogate(lead) && TrailSurrogate(trail)
    ensures 0x10000 <= FromPair(lead, trail) <= 0x10ffff && Utf16Units(FromPair(lead, trail)) == [lead, trail]
  {
    var cp := FromPair(lead, trail);
    assert cp == (lead - 0xd7c0) * 0x400 + (trail - 0xdc00);
  }

  lemma {:induction false} Utf16AllUnits(cps: seq<uint32>)
    requires Scalars(cps)
    ensures forall i :: 0 <= i < |Utf16All(cps)| ==> Utf16All(cps)[i] <= 0xffff
  {
    if cps != [] {
      Utf16AllUnits(cps[1..]);
    }
  }

  /** What is written as UTF-16 is read back. */
  lemma {:induction false} FromUtf16All(ws: Words, pos: nat, cps: seq<uint32>)
    requires Scalars(cps) && pos <= |ws| && (forall i :: 0 <= i < |ws| ==> ws[i] <= 0xffff) && ws[pos..] == Utf16All(cps)
    ensures FromUtf16(ws, pos) == Some(cps)
    decreases |cps|
  {
    hide FromPair;
    if cps != [] {
      var u, rest := Utf16Units(cps[0]), Utf16All(cps[1..]);
      assert ws[pos] == ws[pos..][0] == u[0];
      assert ws[pos + |u|..] == ws[pos..][|u|..] == rest;
      if cps[0] > 0xffff {
        SurrogatesUndo(cps[0]);
        assert ws[pos + 1] == ws[pos..][1] == u[1];
      }
      FromUtf16All(ws, pos + |u|, cps[1..]);
      assert [cps[0]] + cps[1..] == cps;
    }
  }

  /** And what is read as UTF-16 is written back. */
  lemma {:induction false} Utf16AllFrom(ws: Words, pos: nat)
    requires pos <= |ws| && (forall i :: 0 <= i < |ws| ==> ws[i] <= 0xffff) && FromUtf16(ws, pos).Some?
    ensures Scalars(FromUtf16(ws, pos).value) && Utf16All(FromUtf16(ws, pos).value) == ws[pos..]
    decreases |ws| - pos
  {
    hide FromPair;
    if pos < |ws| {
      var n := if LeadSurrogate(ws[pos]) then 2 else 1;
      Utf16AllFrom(ws, pos + n);
      var all := FromUtf16(ws, pos).value;
      assert all[1..] == FromUtf16(ws, pos + n).value;
      if n == 2 {
        PairUndone(ws[pos], ws[pos + 1]);
        assert ws[pos..] == [ws[pos], ws[pos + 1]] + ws[pos + 2..];
      } else {
        assert ws[pos..] == [ws[pos]] + ws[pos + 1..];
      }
    }
  }

  method Utf16To8(ws: Words) returns (result: Result<Bytes>)
    requires forall i :: 0 <= i < |ws| ==> ws[i] <= 0xffff
    ensures result.Value? <==> FromUtf16(ws, 0).Some?
    ensures result.Value? ==> Scalars(FromUtf16(ws, 0).value) && result.value == EncodeAll(FromUtf16(ws, 0).value)
    ensures result.Throws? ==>
      exists i :: 0 <= i < |ws| && FromUtf16(ws[..i], 0).Some? && StandsAlone(ws, i) &&
                  result == Throws(InvalidUtf16(Offender(ws, i)))
  {
    hide Encode, FromPair, EncodeAll, Utf16All;
    NothingConverted();
    var out: Bytes, start := [], 0;
    ghost var done: seq<uint32> := [];
    if FromUtf16(ws, 0).Some? {
      JoinNothing(FromUtf16(ws, 0).value);
    }
    while start != |ws|
      invariant start <= |ws| && Scalars(done) && out == EncodeAll(done) && Utf16All(done) == ws[..start]
      invariant FromUtf16(ws, 0) == match FromUtf16(ws, start) case None => None case Some(more) => Some(done + more)
      decreases |ws| - start
    {
      ghost var i := start;
      var cp: uint32 := ws[start];
      assert ws[..i][0..] == ws[..i];
      FromUtf16All(ws[..i], 0, done);
      start := start + 1;
      if LeadSurrogate(cp) {
        if start == |ws| {
          return Throws(InvalidUtf16(cp));
        }
        var trail := ws[start];
        start := start + 1;
        if !TrailSurrogate(trail) {
          return Throws(InvalidUtf16(trail));
        }
        PairUndone(cp, trail);
        cp := FromPair(cp, trail);
      } else if TrailSurrogate(cp) {
        return Throws(InvalidUtf16(cp));
      }
      var r := Utf8.Append(cp, out);
      EncodeSnoc(done, cp);
      Utf16Snoc(done, cp);
      assert ws[i..start] == Utf16Units(cp);
      assert ws[..start] == ws[..i] + ws[i..start];
      if FromUtf16(ws, start).Some? {
        JoinTwice(done, cp, FromUtf16(ws, start).value);
      }
      out := r.value;
      done := done + [cp];
    }
    result := Value(out);
    assert done + [] == done;
  }

  lemma NothingConverted()
    ensures EncodeAll([]) == [] && Utf16All([]) == []
  {
  }

  method Utf8To16(s: Bytes) returns (result: Result<Words>)
    ensures result.Value? <==> DecodeFrom(s, 0).1 == |s|
    ensures result.Throws? ==> Thrown(s, result.exception)
    ensures result.Value? ==>
      result.value == Utf16All(DecodeFrom(s, 0).0) && forall i :: 0 <= i < |result.value| ==> result.value[i] <= 0xffff
  {
    hide Decode;
    var out: Words, start := [], 0;
    ghost var done: seq<uint32> := [];
    JoinNothing(DecodeFrom(s, 0).0);
    while start != |s|
      invariant start <= |s| && out == Utf16All(done)
      invariant DecodeFrom(s, 0) == (done + DecodeFrom(s, start).0, DecodeFrom(s, start).1)
      decreases |s| - start
    {
      var r, after := Next(s, start);
      if r.Throws? {
        return Throws(r.exception);
      }
      var cp := r.value;
      start := after;
      Utf16Snoc(done, cp);
      JoinTwice(done, cp, DecodeFrom(s, start).0);
      if cp > 0xffff {
        out := out + [cp / 0x400 + 0xd7c0];
        out := out + [cp % 0x400 + 0xdc00];
      } else {
        out := out + [cp];
      }
      done := done + [cp];
    }
    assert done + [] == done;
    DecodedScalars(s, 0);
    Utf16AllUnits(done);
    result := Value(out);
  }

  /** To UTF-16 and back: exactly the valid texts come back, unchanged. */
  method ThroughUtf16(s: Bytes) returns (back: Result<Bytes>)
    ensures back.Value? <==> Utf8Octets(s)
    ensures back.Value? ==> back.value == s
  {
    FindInvalidIff(s);
    var there := Utf8To16(s);
    if there.Throws? {
      return Throws(there.exception);
    }
    back := Utf16To8(there.value);
    ConvertersUndo(s, there.value);
  }

  /** To UTF-8 and back: exactly the texts without lone surrogates come back, unchanged. */
  method ThroughUtf8(ws: Words) returns (back: Result<Words>)
    requires forall i :: 0 <= i < |ws| ==> ws[i] <= 0xffff
    ensures back.Value? <==> FromUtf16(ws, 0).Some?
    ensures back.Value? ==> back.value == ws
  {
    var there := Utf16To8(ws);
    if there.Throws? {
      return Throws(there.exception);
    }
    back := Utf8To16(there.value);
    ConvertersUndo(there.value, ws);
  }

  lemma {:induction false} Utf16Snoc(cps: seq<uint32>, cp: uint32)
    ensures Utf16All(cps + [cp]) == Utf16All(cps) + Utf16Units(cp)
    decreases |cps|
  {
    var all := cps + [cp];
    if cps == [] {
      assert all[1..] == [];
      assert Utf16All(all) == Utf16Units(cp) + Utf16All([]);
    } else {
      assert all[1..] == cps[1..] + [cp];
      Utf16Snoc(cps[1..], cp);
    }
  }

  /**
   UTF-8 and UTF-16 text stand for the same code points if and only if each converts to the other. Here s is
   the text in UTF-8 and ws the text in UTF-16.
   */
  lemma ConvertersUndo(s: Bytes, ws: Words)
    requires forall i :: 0 <= i < |ws| ==> ws[i] <= 0xffff
    ensures (DecodeFrom(s, 0).1 == |s| && ws == Utf16All(DecodeFrom(s, 0).0)) <==>
            (FromUtf16(ws, 0).Some? && Scalars(FromUtf16(ws, 0).value) && s == EncodeAll(FromUtf16(ws, 0).value))
  {
    DecodedScalars(s, 0);
    assert s[0..|s|] == s && ws[0..] == ws;
    if DecodeFrom(s, 0).1 == |s| && ws == Utf16All(DecodeFrom(s, 0).0) {
      FromUtf16All(ws, 0, DecodeFrom(s, 0).0);
    }
    if FromUtf16(ws, 0).Some? {
      Utf16AllFrom(ws, 0);
      CodecRoundTrip(s, FromUtf16(ws, 0).value);
    }
  }
}
