/**
 What the decoder reports and what replace_invalid writes, in terms of the grammar of section 4 of RFC 3629 and of
 byte ranges alone.
 */
module Utf8Pieces {
  import opened Prelude
  import opened Utf8
  import opened Utf8Text

  /** The length that a byte announces, by its range; 0 if it is no lead. */
  function Announced(b: byte): nat
  {
    if b <= 0x7f then 1
    else if 0xc0 <= b <= 0xdf then 2
    else if 0xe0 <= b <= 0xef then 3
    else if 0xf0 <= b <= 0xf7 then 4
    else 0
  }

  /** Nothing but trail bytes between two positions. */
  predicate AllTail(s: Bytes, i: nat, j: nat)
    requires j <= |s|
  {
    forall k :: i < k < j ==> Tail(s[k])
  }

  predicate Complete(s: Bytes, pos: nat, n: nat)
  {
    n > 0 && pos + n <= |s| && AllTail(s, pos, pos + n)
  }

  /** The number whose digits in base 64 are the payloads of the bytes, as in section 3 of RFC 3629. */
  function ValueAt(s: Bytes, pos: nat, n: nat): int
    requires pos + n <= |s|
  {
    match n
    case 1 => s[pos]
    case 2 => Less(s[pos], 0xc0) * 0x40 + Less(s[pos + 1], 0x80)
    case 3 => Less(s[pos], 0xe0) * 0x1000 + Less(s[pos + 1], 0x80) * 0x40 + Less(s[pos + 2], 0x80)
    case 4 =>
      Less(s[pos], 0xf0) * 0x40000 + Less(s[pos + 1], 0x80) * 0x1000 + Less(s[pos + 2], 0x80) * 0x40 + Less(s[pos + 3], 0x80)
    case _ => 0
  }

  function Less(b: byte, tag: int): int
  {
    b - tag
  }

  /** The least number that needs n bytes. */
  function Least(n: nat): int
  {
    match n
    case 2 => 0x80
    case 3 => 0x800
    case 4 => 0x10000
    case 5 => 0x200000
    case _ => 0
  }

  predicate IsScalar(v: int)
  {
    0 <= v <= 0xd7ff || 0xe000 <= v <= 0x10ffff
  }

  /** The first byte that should be a trail byte and is none. */
  predicate BreaksAt(s: Bytes, pos: nat, n: nat, k: nat)
  {
    pos < k < pos + n && k < |s| && !Tail(s[k]) && AllTail(s, pos, k)
  }

  /** The text ends within a sequence that is right so far. */
  predicate Truncated(s: Bytes, pos: nat)
    requires pos < |s|
  {
    pos + Announced(s[pos]) > |s| && AllTail(s, pos, |s|)
  }

  /** What the decoder reports of the bytes at pos; no two of these hold together. */
  ghost predicate Reported(s: Bytes, pos: nat, d: Decoded)
    requires pos < |s|
  {
    var n := Announced(s[pos]);
    match d
    case Ok(cp, next) => Complete(s, pos, n) && next == pos + n && cp == ValueAt(s, pos, n) && Utf8Char(s[pos..next])
    case Err(NotEnoughRoom) => Truncated(s, pos)
    case Err(InvalidLead) => n == 0
    case Err(IncompleteSequence) => exists k :: BreaksAt(s, pos, n, k)
    case Err(InvalidCodePoint) => Complete(s, pos, n) && !IsScalar(ValueAt(s, pos, n))
    case Err(OverlongSequence) => Complete(s, pos, n) && IsScalar(ValueAt(s, pos, n)) && ValueAt(s, pos, n) < Least(n)
  }

  lemma AnnouncedIs(b: byte)
    ensures SequenceLength(b) == Announced(b)
  {
  }

  lemma {:induction false} TrailReported(s: Bytes, pos: nat, n: nat)
    requires pos < |s| && n >= 1
    ensures TrailError(s, pos, n) in {None, Some(NotEnoughRoom), Some(IncompleteSequence)}
    ensures TrailError(s, pos, n) == None ==> Complete(s, pos, n)
    ensures TrailError(s, pos, n) == Some(NotEnoughRoom) ==> pos + n > |s| && AllTail(s, pos, |s|)
    ensures TrailError(s, pos, n) == Some(IncompleteSequence) ==> exists k :: BreaksAt(s, pos, n, k)
    decreases n
  {
    if n > 1 {
      TrailReported(s, pos, n - 1);
      if TrailError(s, pos, n - 1) == Some(IncompleteSequence) {
        var k :| BreaksAt(s, pos, n - 1, k);
        assert BreaksAt(s, pos, n, k);
      } else if TrailError(s, pos, n - 1) == None && pos + n - 1 < |s| {
        TailIsTrail(s[pos + n - 1]);
        assert !Tail(s[pos + n - 1]) ==> BreaksAt(s, pos, n, pos + n - 1);
      }
    }
  }

  lemma BitsAreValue(s: Bytes, pos: nat, n: nat)
    requires pos < |s| && n == Announced(s[pos]) && Complete(s, pos, n)
    ensures BitsAt(s, pos, n) == ValueAt(s, pos, n) < Least(n + 1)
  {
    hide Bits3, Bits4;
    if n == 2 {
      Bits2Valid(s[pos], s[pos + 1]);
    } else if n == 3 {
      Bits3Valid(s[pos], s[pos + 1], s[pos + 2]);
    } else if n == 4 {
      Bits4Valid(s[pos], s[pos + 1], s[pos + 2], s[pos + 3]);
    }
  }

  /** Every code point, and every error, is reported exactly where the bytes are of its kind. */
  lemma DecodeIff(s: Bytes, pos: nat, d: Decoded)
    requires pos < |s|
    ensures Decode(s, pos) == d <==> Reported(s, pos, d)
  {
    DecodeReported(s, pos);
    if Reported(s, pos, d) {
      ReportedOnce(s, pos, Decode(s, pos), d);
    }
  }

  lemma DecodeReported(s: Bytes, pos: nat)
    requires pos < |s|
    ensures Reported(s, pos, Decode(s, pos))
  {
    hide TrailError, BitsAt, Utf8Char, ValueAt;
    var n := Announced(s[pos]);
    AnnouncedIs(s[pos]);
    if n > 0 {
      TrailReported(s, pos, n);
      if TrailError(s, pos, n).None? {
        BitsAreValue(s, pos, n);
        AcceptsGrammar(s, pos, n);
      }
    }
  }

  lemma ReportedOnce(s: Bytes, pos: nat, d: Decoded, e: Decoded)
    requires pos < |s| && Reported(s, pos, d) && Reported(s, pos, e)
    ensures d == e
  {
    hide ValueAt, Utf8Char;
    var n := Announced(s[pos]);
    if Complete(s, pos, n) {
      CharValue(s, pos, n);
    }
    hide Least, IsScalar;
  }

  /** A complete sequence is a UTF8-char if and only if its value is a scalar value that needs its length. */
  lemma CharValue(s: Bytes, pos: nat, n: nat)
    requires pos < |s| && n == Announced(s[pos]) && Complete(s, pos, n)
    ensures Utf8Char(s[pos..pos + n]) <==> IsScalar(ValueAt(s, pos, n)) && ValueAt(s, pos, n) >= Least(n)
  {
    hide Utf8Char, ValueAt, BitsAt;
    AnnouncedIs(s[pos]);
    BitsAreValue(s, pos, n);
    forall k | pos < k < pos + n ensures IsTrail(s[k]) {
      TailIsTrail(s[k]);
    }
    TrailErrorNone(s, pos, n);
    GrammarByBits(s, pos, n);
  }

  /** What next gives: the code point and the position after it, or an exception for each kind of bytes. */
  lemma NextIff(s: Bytes, pos: nat)
    requires pos < |s|
    ensures var n, r := Announced(s[pos]), NextPoint(s, pos);
      if Truncated(s, pos) then r == Throws(NoRoom)
      else if !Complete(s, pos, n) then r == Throws(InvalidUtf8(s[pos]))
      else if !IsScalar(ValueAt(s, pos, n)) then r == Throws(InvalidPoint(0))
      else if ValueAt(s, pos, n) < Least(n) then r == Throws(InvalidUtf8(s[pos]))
      else r == Value((ValueAt(s, pos, n), pos + n))
  {
    hide Decode, ValueAt, Utf8Char, Least, IsScalar;
    DecodeReported(s, pos);
    if Complete(s, pos, Announced(s[pos])) {
      CharValue(s, pos, Announced(s[pos]));
    }
  }

  // ----- replacing -----

  ghost predicate StartsChar(s: Bytes, i: nat)
  {
    exists j :: i < j <= |s| && Utf8Char(s[i..j])
  }

  /** A place where there is no code point, although the text does not just end too early. */
  ghost predicate Invalid(s: Bytes, i: nat)
  {
    i < |s| && !StartsChar(s, i) && !Truncated(s, i)
  }

  /**
   The bytes from i to j are one code point; or they are invalid: a byte that is no lead, or a lead with the trail
   bytes after it, all of them.
   */
  ghost predicate IsPiece(s: Bytes, i: nat, j: nat)
    requires i < j <= |s|
  {
    if Utf8Char(s[i..j]) then true
    else Invalid(s, i) && if Announced(s[i]) == 0 then j == i + 1 else AllTail(s, i, j) && (j < |s| ==> !Tail(s[j]))
  }

  /** The text from pos to end, in pieces. */
  ghost predicate Pieces(s: Bytes, pos: nat, ps: seq<Bytes>, end: nat)
    decreases |ps|
  {
    if ps == [] then pos == end <= |s|
    else
      var next := pos + |ps[0]|;
      pos < next <= |s| && s[pos..next] == ps[0] && IsPiece(s, pos, next) && Pieces(s, next, ps[1..], end)
  }

  /** Every invalid piece can be replaced. */
  predicate Replaceable(ps: seq<Bytes>, replacement: uint32)
  {
    IsCodePointValid(replacement) || forall p :: p in ps ==> Utf8Char(p)
  }

  /** Code points as they are, and the replacement once for every invalid piece. */
  function Images(ps: seq<Bytes>, replacement: uint32): Bytes
    requires Replaceable(ps, replacement)
  {
    if ps == [] then []
    else (if Utf8Char(ps[0]) then ps[0] else Encode(replacement)) + Images(ps[1..], replacement)
  }

  lemma {:induction false} SkipsAll(s: Bytes, p: nat, j: nat)
    requires p <= j <= |s| && (forall k :: p <= k < j ==> Tail(s[k])) && (j < |s| ==> !Tail(s[j]))
    ensures SkipTrails(s, p) == j
    decreases j - p
  {
    if p < |s| {
      TailIsTrail(s[p]);
      if p < j {
        SkipsAll(s, p + 1, j);
      }
    }
  }

  lemma {:induction false} SkipsTo(s: Bytes, p: nat)
    requires p <= |s|
    ensures var j := SkipTrails(s, p); (forall k :: p <= k < j ==> Tail(s[k])) && (j < |s| ==> !Tail(s[j]))
    decreases |s| - p
  {
    if p < |s| {
      TailIsTrail(s[p]);
      if IsTrail(s[p]) {
        SkipsTo(s, p + 1);
      }
    }
  }

  lemma InvalidReported(s: Bytes, i: nat)
    requires i < |s|
    ensures StartsChar(s, i) <==> Decode(s, i).Ok?
    ensures Truncated(s, i) <==> Decode(s, i) == Err(NotEnoughRoom)
    ensures Announced(s[i]) == 0 <==> Decode(s, i) == Err(InvalidLead)
  {
    hide Decode, Utf8Char;
    DecodeIff(s, i, Err(NotEnoughRoom));
    DecodeIff(s, i, Err(InvalidLead));
    if Decode(s, i).Ok? {
      AcceptsGrammar(s, i, Decode(s, i).next - i);
    }
    if j :| i < j <= |s| && Utf8Char(s[i..j]) {
      AcceptsGrammar(s, i, j - i);
    }
  }

  /** Where the piece at i ends. */
  lemma PieceEnds(s: Bytes, i: nat, j: nat)
    requires i < j <= |s|
    ensures IsPiece(s, i, j) <==>
      (Decode(s, i).Ok? && j == Decode(s, i).next) ||
      (Decode(s, i).Err? && Decode(s, i) != Err(NotEnoughRoom) && j == Resume(s, i, Decode(s, i).error))
    ensures Utf8Char(s[i..j]) <==> Decode(s, i).Ok? && j == Decode(s, i).next
  {
    hide Decode, Utf8Char, Truncated, StartsChar;
    InvalidReported(s, i);
    AcceptsGrammar(s, i, j - i);
    SkipsTo(s, i + 1);
    if Invalid(s, i) && Announced(s[i]) != 0 && AllTail(s, i, j) && (j < |s| ==> !Tail(s[j])) {
      SkipsAll(s, i + 1, j);
    }
  }

  lemma {:induction false} PiecesReplaced(s: Bytes, pos: nat, ps: seq<Bytes>, end: nat, replacement: uint32)
    requires Pieces(s, pos, ps, end) && Replaceable(ps, replacement)
    ensures pos <= |s| && end <= |s|
    ensures Replaced(s, pos, replacement) == Prepend(Images(ps, replacement), Replaced(s, end, replacement))
    decreases |ps|
  {
    hide Decode, Encode, Utf8Char, Replaced, IsPiece;
    if ps == [] {
      PrependNothing(Replaced(s, end, replacement));
    } else {
      var next := pos + |ps[0]|;
      PieceEnds(s, pos, next);
      PiecesReplaced(s, next, ps[1..], end, replacement);
      ReplacedStep(s, pos, replacement);
      var first := if Utf8Char(ps[0]) then ps[0] else Encode(replacement);
      PrependTwice(first, Images(ps[1..], replacement), Replaced(s, end, replacement));
    }
  }

  /** Every text has its pieces, as far as replacing gets. */
  lemma {:induction false} SplitText(s: Bytes, pos: nat, replacement: uint32) returns (ps: seq<Bytes>, end: nat)
    requires pos <= |s|
    ensures Pieces(s, pos, ps, end) && Replaceable(ps, replacement) && end <= |s|
    ensures end == |s| || Truncated(s, end) || (!IsCodePointValid(replacement) && Invalid(s, end))
    decreases |s| - pos
  {
    hide Decode, Utf8Char, IsPiece, Truncated, StartsChar, IsCodePointValid;
    ps, end := [], pos;
    if pos < |s| {
      InvalidReported(s, pos);
      var d := Decode(s, pos);
      if d.Ok? || (d != Err(NotEnoughRoom) && IsCodePointValid(replacement)) {
        var next := if d.Ok? then d.next else Resume(s, pos, d.error);
        PieceEnds(s, pos, next);
        var more;
        more, end := SplitText(s, next, replacement);
        ps := [s[pos..next]] + more;
        assert ps[1..] == more;
      }
    }
  }

  /** What comes of text that has these pieces up to end. */
  ghost predicate Comes(s: Bytes, ps: seq<Bytes>, end: nat, replacement: uint32, r: Result<Bytes>)
  {
    Pieces(s, 0, ps, end) && Replaceable(ps, replacement) &&
    match r
    case Value(out) => end == |s| && out == Images(ps, replacement)
    case Throws(NoRoom) => end < |s| && Truncated(s, end)
    case Throws(InvalidPoint(cp)) => cp == replacement && !IsCodePointValid(replacement) && Invalid(s, end)
    case Throws(_) => false
  }

  lemma ReplacedAtEnd(s: Bytes, end: nat, replacement: uint32)
    requires end <= |s|
    ensures end == |s| ==> Replaced(s, end, replacement) == Value([])
    ensures end < |s| && Truncated(s, end) ==> Replaced(s, end, replacement) == Throws(NoRoom)
    ensures !IsCodePointValid(replacement) && Invalid(s, end) ==>
      Replaced(s, end, replacement) == Throws(InvalidPoint(replacement))
  {
    hide Replaced, Decode, Encode, Truncated, StartsChar, IsCodePointValid;
    ReplacedStep(s, end, replacement);
    if end < |s| {
      InvalidReported(s, end);
    }
  }

  lemma ComesReplaced(s: Bytes, ps: seq<Bytes>, end: nat, replacement: uint32, r: Result<Bytes>)
    requires Comes(s, ps, end, replacement, r)
    ensures Replaced(s, 0, replacement) == r
  {
    hide Replaced, Pieces, Images, Replaceable, Invalid, Truncated, IsCodePointValid;
    PiecesReplaced(s, 0, ps, end, replacement);
    ReplacedAtEnd(s, end, replacement);
    var out := Images(ps, replacement);
    assert out + [] == out;
  }

  /**
   replace_invalid gives exactly the images of the pieces of the text; it throws not_enough_room exactly where the
   text ends too early after pieces that could be replaced, and invalid_code_point exactly where the replacement is
   no scalar value and something must be replaced.
   */
  lemma ReplacedIff(s: Bytes, replacement: uint32, r: Result<Bytes>)
    ensures Replaced(s, 0, replacement) == r <==> exists ps, end :: Comes(s, ps, end, replacement, r)
  {
    hide Replaced, Pieces, Images, Replaceable, Invalid, Truncated, IsCodePointValid;
    var ps0, end0 := SplitText(s, 0, replacement);
    var r0: Result<Bytes> :=
      if end0 == |s| then Value(Images(ps0, replacement))
      else if Truncated(s, end0) then Throws(NoRoom)
      else Throws(InvalidPoint(replacement));
    assert Comes(s, ps0, end0, replacement, r0);
    ComesReplaced(s, ps0, end0, replacement, r0);
    if ps, end :| Comes(s, ps, end, replacement, r) {
      ComesReplaced(s, ps, end, replacement, r);
    }
  }
}
